/**
 * Certificates as the core sees them: the subject alternative names of the
 * X.509 structure, the lazily filled alt_names cache of md_cert_t, domain
 * coverage, chain files and certificates fetched over HTTP
 * (src/md_crypt.c:1030-1365). The X.509 structure is reduced to its
 * subjectAltName extension; decoding and PEM/DER reading are OpenSSL's and
 * enter as parameters.
 */
module Certs {
  import opened Base
  import opened Text

  datatype NameKind = Dns | Uri | IpAdd | Email | DirName | OtherName

  /**
   * A GENERAL_NAME of the extension, with what ASN1_STRING_to_UTF8 makes of
   * its content: the UTF-8 string, or nothing when the conversion fails, as
   * it does for the OCTET STRING of an IP address entry.
   */
  datatype GeneralName = GeneralName(kind: NameKind, value: Option<string>)

  /** An X509 certificate: its subjectAltName extension, absent when the
      certificate has none. */
  datatype X509 = X509(san: Option<seq<GeneralName>>)

  /** The kinds of name md_cert_get_alt_names collects. */
  predicate Collected(g: GeneralName) {
    g.kind == Dns || g.kind == Uri || g.kind == IpAdd
  }

  /**
   * The loop of md_cert_get_alt_names as written: a collected entry pushes
   * the converted string, and when the conversion fails it pushes whatever
   * `buf` still holds, here the string `stale`.
   */
  function CollectNamesAsWritten(gs: seq<GeneralName>, stale: string): (names: seq<string>)
    ensures |names| <= |gs|
  {
    if gs == [] then []
    else
      var pushed := if gs[0].value.Some? then gs[0].value.value else stale;
      (if Collected(gs[0]) then [pushed] else []) + CollectNamesAsWritten(gs[1..], stale)
  }

  /** An IP address entry, whose conversion fails, puts a name into the list
      that no entry of the certificate holds. */
  lemma StaleNameListed(stale: string)
    ensures var gs := [GeneralName(IpAdd, None)];
      && CollectNamesAsWritten(gs, stale) == [stale]
      && !(exists i :: 0 <= i < |gs| && gs[i].value == Some(stale))
  {
  }

  /** The names md_cert_get_alt_names is meant to collect, in order: the
      converted DNS, URI and IP address entries, skipping an entry whose
      conversion fails. */
  function CollectNames(gs: seq<GeneralName>): (names: seq<string>)
    ensures |names| <= |gs|
  {
    if gs == [] then []
    else (if Collected(gs[0]) && gs[0].value.Some? then [gs[0].value.value] else []) + CollectNames(gs[1..])
  }

  /** Where every collected entry converts, the loop as written and the
      corrected one push the same names. */
  lemma {:induction false} CollectNamesAgree(gs: seq<GeneralName>, stale: string)
    requires forall i :: 0 <= i < |gs| && Collected(gs[i]) ==> gs[i].value.Some?
    ensures CollectNamesAsWritten(gs, stale) == CollectNames(gs)
  {
    if gs != [] {
      assert forall i :: 0 <= i < |gs[1..]| ==> gs[1..][i] == gs[i + 1];
      CollectNamesAgree(gs[1..], stale);
    }
  }

  /** The collected names are exactly the converted DNS, URI and IP address
      entries. */
  lemma {:induction false} CollectNamesMembers(gs: seq<GeneralName>, x: string)
    ensures x in CollectNames(gs) <==> exists i :: 0 <= i < |gs| && Collected(gs[i]) && gs[i].value == Some(x)
  {
    if gs != [] {
      CollectNamesMembers(gs[1..], x);
      if exists i :: 0 <= i < |gs| && Collected(gs[i]) && gs[i].value == Some(x) {
        var i :| 0 <= i < |gs| && Collected(gs[i]) && gs[i].value == Some(x);
        if i > 0 {
          assert gs[1..][i - 1] == gs[i];
        }
      }
      if exists i :: 0 <= i < |gs[1..]| && Collected(gs[1..][i]) && gs[1..][i].value == Some(x) {
        var i :| 0 <= i < |gs[1..]| && Collected(gs[1..][i]) && gs[1..][i].value == Some(x);
        assert gs[i + 1] == gs[1..][i];
      }
    }
  }

  /** md_cert_get_alt_names: the collected names when the certificate has
      the extension (APR_SUCCESS), nothing otherwise (APR_ENOENT). */
  function AltNames(x509: X509): (r: Option<seq<string>>)
    ensures r.Some? <==> x509.san.Some?
  {
    if x509.san.Some? then Some(CollectNames(x509.san.value)) else None
  }

  /** md_array_str_index(names, name, 0, 0) >= 0: the name occurs, compared
      without regard to case. */
  predicate Listed(names: seq<string>, name: string) {
    exists i :: 0 <= i < |names| && EqualsIgnoreCase(names[i], name)
  }

  /** md_cert_t: the certificate and its alt_names cache. */
  class Cert {
    const x509: X509
    var altNames: Option<seq<string>>

    /** make_cert: a zero-filled md_cert_t around the certificate. */
    constructor (x509: X509)
      ensures this.x509 == x509 && altNames.None?
    {
      this.x509 := x509;
      altNames := None;
    }

    /** The names the cache holds once it has been asked for: what it held,
        or what md_cert_get_alt_names gives while it was empty. */
    ghost function Cached(before: Option<seq<string>>): Option<seq<string>>
      reads this
    {
      if before.Some? then before else AltNames(x509)
    }

    /** `if (!cert->alt_names) md_cert_get_alt_names(&cert->alt_names, ...)`:
        the cache is filled at most once, only while it is empty. */
    method LoadAltNames()
      modifies this
      ensures altNames == Cached(old(altNames))
      ensures old(altNames).Some? ==> altNames == old(altNames)
    {
      if altNames.None? {
        altNames := AltNames(x509);
      }
    }

    /** md_cert_covers_domain: the domain is one of the cached names; false
        when the certificate has no subjectAltName extension. */
    method CoversDomain(domain: string) returns (r: bool)
      modifies this
      ensures altNames == Cached(old(altNames))
      ensures r <==> altNames.Some? && Listed(altNames.value, domain)
    {
      LoadAltNames();
      if altNames.Some? {
        return Listed(altNames.value, domain);
      }
      return false;
    }

    /**
     * md_cert_covers_md: every domain of the managed domain is among the
     * cached names. Without the extension it is false, even for an empty
     * domain list.
     */
    method CoversMd(domains: seq<string>) returns (r: bool)
      modifies this
      ensures altNames == Cached(old(altNames))
      ensures r <==> altNames.Some? && forall i :: 0 <= i < |domains| ==> Listed(altNames.value, domains[i])
    {
      LoadAltNames();
      if altNames.Some? {
        var i := 0;
        while i < |domains|
          invariant 0 <= i <= |domains|
          invariant forall j :: 0 <= j < i ==> Listed(altNames.value, domains[j])
        {
          if !Listed(altNames.value, domains[i]) {
            return false;
          }
          i := i + 1;
        }
        return true;
      }
      return false;
    }
  }

  /** A certificate whose extension lists a domain covers it. */
  lemma CoveredByName(x509: X509, domain: string)
    requires x509.san.Some? && GeneralName(Dns, Some(domain)) in x509.san.value
    ensures AltNames(x509).Some? && Listed(AltNames(x509).value, domain)
  {
    var gs := x509.san.value;
    var i :| 0 <= i < |gs| && gs[i] == GeneralName(Dns, Some(domain));
    CollectNamesMembers(gs, domain);
    var names := CollectNames(gs);
    var k :| 0 <= k < |names| && names[k] == domain;
    assert EqualsIgnoreCase(names[k], domain);
  }

  /** The error left in OpenSSL's queue after the PEM reading loop. */
  datatype PemError = NoError | NoStartLine | OtherPemError

  /**
   * A chain file as md_chain_fappend meets it: the status of opening it,
   * the certificates PEM_read_X509 returns one after the other, the error
   * that ends the reading, and its size if apr_stat can tell it.
   */
  datatype ChainFile = ChainFile(open: Status, pems: seq<X509>, err: PemError, size: Option<int>)

  /** The status of md_chain_fappend on a file that opened, once the array
      holds `count` certificates: a reading error other than the expected
      end of input is refused, and so is an array that is still empty after
      reading a file of 1024 bytes or more. */
  function FappendStatus(count: int, file: ChainFile): Status {
    if file.err == OtherPemError then EInval
    else if count == 0 && file.size.Some? && file.size.value >= 1024 then EInval
    else Success
  }

  /** An empty chain is accepted exactly from a file under 1024 bytes or of
      unknown size, when reading ended normally. */
  lemma EmptyChainAccepted(file: ChainFile)
    ensures FappendStatus(0, file) == Success <==>
      file.err != OtherPemError && (file.size.None? || file.size.value < 1024)
    ensures forall n :: n > 0 ==> (FappendStatus(n, file) == Success <==> file.err != OtherPemError)
  {
  }

  /** An apr_array_header_t of md_cert_t pointers. */
  class CertArray {
    var certs: seq<Cert>

    constructor ()
      ensures certs == []
    {
      certs := [];
    }

    method Push(cert: Cert)
      modifies this
      ensures certs == old(certs) + [cert]
    {
      certs := certs + [cert];
    }
  }

  /**
   * md_chain_fappend: every certificate read from the file is appended to
   * the array, whatever the outcome; then the status follows
   * FappendStatus for the number of certificates the array holds.
   */
  method ChainFappend(chain: CertArray, file: ChainFile) returns (rv: Status)
    modifies chain
    ensures file.open != Success ==> rv == file.open && chain.certs == old(chain.certs)
    ensures file.open == Success ==>
      && NewCerts(old(chain.certs), chain.certs, file.pems)
      && (forall i :: |old(chain.certs)| <= i < |chain.certs| ==> fresh(chain.certs[i]))
      && rv == FappendStatus(|chain.certs|, file)
  {
    rv := file.open;
    if rv == Success {
      ghost var before := chain.certs;
      var i := 0;
      while i < |file.pems|
        invariant 0 <= i <= |file.pems|
        invariant NewCerts(before, chain.certs, file.pems[..i])
        invariant forall j :: |before| <= j < |chain.certs| ==> fresh(chain.certs[j])
      {
        var cert := new Cert(file.pems[i]);
        chain.Push(cert);
        assert file.pems[..i + 1] == file.pems[..i] + [file.pems[i]];
        i := i + 1;
      }
      assert file.pems[..i] == file.pems;
      if file.err == OtherPemError {
        rv := EInval;
        return;
      }
      if |chain.certs| == 0 {
        if file.size.Some? && file.size.value >= 1024 {
          rv := EInval;
          return;
        }
      }
    }
  }

  /** `after` is `before` followed by one new certificate per entry of
      `pems`, each holding that entry with an empty cache. */
  ghost predicate NewCerts(before: seq<Cert>, after: seq<Cert>, pems: seq<X509>)
    reads after
  {
    && |after| == |before| + |pems|
    && after[..|before|] == before
    && forall i :: 0 <= i < |pems| ==> after[|before| + i].x509 == pems[i] && after[|before| + i].altNames.None?
  }

  /** The largest certificate md_cert_read_http accepts, in bytes. */
  const MaxCertHttpBytes: int := 1024 * 1024

  /**
   * An HTTP response as md_cert_read_http reads it: the body, the
   * Content-Type header, and the statuses of measuring and of flattening
   * the body (bucket brigade handling is not modelled).
   */
  datatype HttpResponse = HttpResponse(body: Option<seq<byte>>, contentType: Option<string>,
                                       lengthStatus: Status, flattenStatus: Status)

  /**
   * md_cert_read_http, with the DER decoding of the body (d2i_X509) given
   * as `decoded`. A missing body, a missing Content-Type or one other than
   * "application/pkix-cert" is APR_ENOENT; a failure to measure or to
   * flatten the body is passed on; a body over 1 MiB is APR_EINVAL; a body
   * that does not decode is APR_EINVAL.
   */
  method CertReadHttp(res: HttpResponse, decoded: Option<X509>) returns (rv: Status, cert: Cert?)
    ensures rv == Success <==>
      && res.body.Some? && res.contentType == Some("application/pkix-cert")
      && res.lengthStatus == Success && |res.body.value| <= MaxCertHttpBytes
      && res.flattenStatus == Success && decoded.Some?
    ensures (res.body.None? || res.contentType != Some("application/pkix-cert")) ==> rv == ENoEnt
    ensures (res.body.Some? && res.contentType == Some("application/pkix-cert") && res.lengthStatus == Success
             && |res.body.value| > MaxCertHttpBytes) ==> rv == EInval
    ensures (res.body.Some? && res.contentType == Some("application/pkix-cert") && res.lengthStatus != Success)
              ==> rv == res.lengthStatus
    ensures (res.body.Some? && res.contentType == Some("application/pkix-cert") && res.lengthStatus == Success
             && |res.body.value| <= MaxCertHttpBytes && res.flattenStatus != Success) ==> rv == res.flattenStatus
    ensures (res.body.Some? && res.contentType == Some("application/pkix-cert") && res.lengthStatus == Success
             && |res.body.value| <= MaxCertHttpBytes && res.flattenStatus == Success && decoded.None?) ==> rv == EInval
    ensures rv == Success ==> cert != null && fresh(cert) && cert.x509 == decoded.value && cert.altNames.None?
  {
    cert := null;
    if res.body.None? || res.contentType.None? || res.contentType.value != "application/pkix-cert" {
      return ENoEnt, null;
    }
    rv := res.lengthStatus;
    if rv == Success {
      var dataLen := |res.body.value|;
      if dataLen > MaxCertHttpBytes {
        return EInval, null;
      }
      rv := res.flattenStatus;
      if rv == Success {
        if decoded.None? {
          rv := EInval;
        } else {
          cert := new Cert(decoded.value);
          rv := Success;
        }
      }
    }
  }
}
