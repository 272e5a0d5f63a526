/**
 * The subjectAltName values the core writes into certificate requests and
 * self-signed certificates, and the validity in days of a self-signed
 * certificate (src/md_crypt.c:1413-1467, 1616). The extension encoding is
 * OpenSSL's and enters as a parameter.
 */
module CsrNames {
  import opened Base

  /** alt_name: the DNS entry for one domain. */
  function AltName(domain: string): (s: string)
    ensures |s| == |domain| + 4 && s[..4] == "DNS:" && s[4..] == domain
  {
    "DNS:" + domain
  }

  /** The value alt_names builds: the DNS entries of the domains, in order,
      separated by commas. */
  function Joined(domains: seq<string>): (s: string)
    ensures s == "" <==> domains == []
    ensures domains != [] ==> |s| >= 4 && s[..4] == "DNS:"
    decreases |domains|
  {
    if |domains| == 0 then ""
    else if |domains| == 1 then AltName(domains[0])
    else Joined(domains[..|domains| - 1]) + "," + AltName(domains[|domains| - 1])
  }

  /**
   * alt_names: the loop that extends the string with the separator and the
   * next entry, the separator being empty before the first entry and a
   * comma afterwards.
   */
  method AltNames(domains: seq<string>) returns (alts: string)
    ensures alts == Joined(domains)
  {
    alts := "";
    var sep := "";
    var i := 0;
    while i < |domains|
      invariant 0 <= i <= |domains|
      invariant alts == Joined(domains[..i])
      invariant sep == if i == 0 then "" else ","
    {
      assert domains[..i + 1][..i] == domains[..i];
      alts := alts + sep + "DNS:" + domains[i];
      sep := ",";
      i := i + 1;
    }
    assert domains[..i] == domains;
  }

  /** The comma-separated pieces of a string ([""] for the empty string). */
  function Split(s: string): (pieces: seq<string>)
    ensures |pieces| >= 1
    decreases |s|
  {
    if s == [] then [""]
    else
      var rest := Split(s[..|s| - 1]);
      var c := s[|s| - 1];
      if c == ',' then rest + [""]
      else rest[..|rest| - 1] + [rest[|rest| - 1] + [c]]
  }

  predicate NoComma(s: string) {
    forall i :: 0 <= i < |s| ==> s[i] != ','
  }

  /** A string without commas is a single piece. */
  lemma {:induction false} SplitNoComma(s: string)
    requires NoComma(s)
    ensures Split(s) == [s]
    decreases |s|
  {
    if s != [] {
      SplitNoComma(s[..|s| - 1]);
      assert s[..|s| - 1] + [s[|s| - 1]] == s;
    }
  }

  /** Appending a comma and a comma-free piece adds exactly that piece. */
  lemma {:induction false} SplitAppend(a: string, b: string)
    requires NoComma(b)
    ensures Split(a + "," + b) == Split(a) + [b]
    decreases |b|
  {
    var s := a + "," + b;
    if b == [] {
      assert s[..|s| - 1] == a;
    } else {
      var b' := b[..|b| - 1];
      SplitAppend(a, b');
      assert s[..|s| - 1] == a + "," + b';
      assert b' + [b[|b| - 1]] == b;
    }
  }

  /** The DNS entry of a domain without commas has none either. */
  lemma AltNameNoComma(domain: string)
    requires NoComma(domain)
    ensures NoComma(AltName(domain))
  {
    var s := AltName(domain);
    forall i | 0 <= i < |s|
      ensures s[i] != ','
    {
      if i >= 4 {
        assert s[i] == domain[i - 4];
      }
    }
  }

  /** Pieces that are the DNS entries of the domains, one each, in order. */
  predicate Entries(pieces: seq<string>, domains: seq<string>) {
    |pieces| == |domains| && forall i :: 0 <= i < |domains| ==> pieces[i] == AltName(domains[i])
  }

  lemma EntriesSnoc(pieces: seq<string>, domains: seq<string>, d: string)
    requires Entries(pieces, domains)
    ensures Entries(pieces + [AltName(d)], domains + [d])
  {
  }

  /** When no domain contains a comma, the value splits back into exactly
      one DNS entry per domain, in order. */
  lemma {:induction false} SplitJoined(domains: seq<string>)
    requires |domains| >= 1
    requires forall i :: 0 <= i < |domains| ==> NoComma(domains[i])
    ensures Entries(Split(Joined(domains)), domains)
    decreases |domains|
  {
    var n := |domains|;
    var last := domains[n - 1];
    if n == 1 {
      AltNameNoComma(last);
      SplitNoComma(AltName(last));
    } else {
      var init := domains[..n - 1];
      var j := Joined(init);
      assert Entries(Split(j), init) by {
        SplitJoined(init);
      }
      assert Split(j + "," + AltName(last)) == Split(j) + [AltName(last)] by {
        AltNameNoComma(last);
        SplitAppend(j, AltName(last));
      }
      assert Entries(Split(j) + [AltName(last)], domains) by {
        EntriesSnoc(Split(j), init, last);
        assert init + [last] == domains;
      }
      assert Joined(domains) == j + "," + AltName(last);
    }
  }

  /** Reads the domains back from DNS entries: the part after "DNS:" of
      every piece, or nothing if a piece is not a DNS entry. */
  function DomainsOf(pieces: seq<string>): (r: Option<seq<string>>)
    ensures r.Some? ==> |r.value| == |pieces|
  {
    if pieces == [] then Some([])
    else if |pieces[0]| < 4 || pieces[0][..4] != "DNS:" then None
    else match DomainsOf(pieces[1..])
      case None => None
      case Some(rest) => Some([pieces[0][4..]] + rest)
  }

  lemma {:induction false} DomainsOfEntries(pieces: seq<string>, domains: seq<string>)
    requires Entries(pieces, domains)
    ensures DomainsOf(pieces) == Some(domains)
    decreases |domains|
  {
    if domains != [] {
      assert Entries(pieces[1..], domains[1..]) by {
        forall i | 0 <= i < |domains[1..]|
          ensures pieces[1..][i] == AltName(domains[1..][i])
        {
          assert pieces[1..][i] == pieces[i + 1];
        }
      }
      DomainsOfEntries(pieces[1..], domains[1..]);
      assert [domains[0]] + domains[1..] == domains;
    }
  }

  /** The value alt_names builds determines the domains: when none of them
      contains a comma, splitting it and dropping the prefixes gives them
      back. */
  lemma JoinedRoundTrip(domains: seq<string>)
    requires |domains| >= 1
    requires forall i :: 0 <= i < |domains| ==> NoComma(domains[i])
    ensures DomainsOf(Split(Joined(domains))) == Some(domains)
  {
    SplitJoined(domains);
    DomainsOfEntries(Split(Joined(domains)), domains);
  }

  /**
   * sk_add_alt_names: with at least one domain, the extension built from
   * alt_names is pushed onto the stack, or APR_EGENERAL is returned when
   * OpenSSL cannot build it (`converted` is the outcome of
   * X509V3_EXT_conf_nid on the value); with no domain nothing is added.
   */
  function SkAddAltNames(exts: seq<string>, domains: seq<string>, converted: bool): (r: (Status, seq<string>))
    ensures |domains| == 0 ==> r == (Success, exts)
    ensures |domains| > 0 && !converted ==> r == (EGeneral, exts)
    ensures |domains| > 0 && converted ==> r.0 == Success && r.1 == exts + [Joined(domains)]
  {
    if |domains| > 0 then
      if !converted then (EGeneral, exts) else (Success, exts + [Joined(domains)])
    else (Success, exts)
  }

  /** MD_SECS_PER_DAY. */
  const SecsPerDay: int := 86400

  /** APR_USEC_PER_SEC: apr_time_t counts microseconds. */
  const UsecPerSec: int := 1000000

  /**
   * The validity in days given to a self-signed certificate valid for
   * `validFor` microseconds: whole seconds rounded up to whole days, with
   * C's truncating divisions. For a non-negative duration these are the
   * least number of days that cover its whole seconds.
   */
  function SelfSignDays(validFor: int): (days: int)
    ensures validFor >= 0 ==>
      var secs := validFor / UsecPerSec;
      days >= 0 && days * SecsPerDay >= secs && (days == 0 || (days - 1) * SecsPerDay < secs)
  {
    var days := CDiv(CDiv(validFor, UsecPerSec) + SecsPerDay - 1, SecsPerDay);
    if validFor < 0 then days
    else
      CDivNonNegative(validFor, UsecPerSec);
      CDivNonNegative(validFor / UsecPerSec + SecsPerDay - 1, SecsPerDay);
      days
  }
}
