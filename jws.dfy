/**
 * The JSON Web Signature envelope of md_jws_sign (mod_md/md_jws.c:27-88):
 * the protected header ("alg", then "kid" or "jwk", then the caller's
 * entries), the signing input of section 5.1 of RFC 7515 and the flattened
 * message with "protected", "payload" and "signature". Serialising JSON,
 * base64url encoding and RSA signing are foreign and enter as functions.
 */
module Jws {
  import opened Base
  import opened Json

  /** One md_json_sets call: a path and the string, or NULL. */
  datatype SetOp = SetOp(path: seq<string>, value: Option<string>)

  predicate ValidOps(ops: seq<SetOp>) {
    forall i :: 0 <= i < |ops| ==> ops[i].path != []
  }

  /** The document after the calls, in order. */
  function Apply(m: map<string, Json>, ops: seq<SetOp>): map<string, Json>
    requires ValidOps(ops)
    decreases |ops|
  {
    if ops == [] then m
    else
      var last := ops[|ops| - 1];
      Sets(Apply(m, ops[..|ops| - 1]), last.path, last.value)
  }

  /** The calls apr_table_do makes through header_set: each entry of the
      caller's table, in table order, sets its value under its key. */
  function TableOps(table: seq<(string, string)>): (ops: seq<SetOp>)
    ensures |ops| == |table| && ValidOps(ops)
    ensures forall i :: 0 <= i < |table| ==> ops[i] == SetOp([table[i].0], Some(table[i].1))
  {
    seq(|table|, i requires 0 <= i < |table| => SetOp([table[i].0], Some(table[i].1)))
  }

  /**
   * The header before the caller's table, as md_jws_sign builds it with
   * md_json_sets: "alg" first, then "kid" when a key id is given, the
   * "jwk" members "e", "kty" and "n" otherwise.
   */
  function KeyHeader(keyId: Option<string>, e64: Option<string>, n64: Option<string>): map<string, Json> {
    var alg := Sets(map[], ["alg"], Some("RS256"));
    if keyId.Some? then Sets(alg, ["kid"], keyId)
    else Sets(Sets(Sets(alg, ["jwk", "e"], e64), ["jwk", "kty"], Some("RSA")), ["jwk", "n"], n64)
  }

  /** The protected header md_jws_sign serialises: the caller's table
      applied after the key members. It always has "alg", and "kid" or
      "jwk" as the key id is given or not. */
  function Header(keyId: Option<string>, e64: Option<string>, n64: Option<string>,
                  table: seq<(string, string)>): (r: map<string, Json>)
    ensures "alg" in r
    ensures keyId.Some? ==> "kid" in r
    ensures keyId.None? ==> "jwk" in r
  {
    KeyHeaderContents(keyId, e64, n64);
    ApplyKeys(KeyHeader(keyId, e64, n64), TableOps(table));
    Apply(KeyHeader(keyId, e64, n64), TableOps(table))
  }

  /** The calls drop no member, and a call that stores a string leaves its
      first name a member. */
  lemma {:induction false} ApplyKeys(m: map<string, Json>, ops: seq<SetOp>)
    requires ValidOps(ops)
    ensures m.Keys <= Apply(m, ops).Keys
    ensures forall i :: 0 <= i < |ops| && ops[i].value.Some? ==> ops[i].path[0] in Apply(m, ops)
    decreases |ops|
  {
    if ops != [] {
      var n := |ops|;
      var init := ops[..n - 1];
      ApplyKeys(m, init);
      assert forall i :: 0 <= i < n - 1 ==> init[i] == ops[i];
      var last := ops[n - 1];
      if last.value.Some? {
        assert GetPath(Apply(m, ops), last.path).Some?;
      }
    }
  }

  /** A call whose path starts elsewhere leaves a member alone. */
  predicate Avoids(ops: seq<SetOp>, key: string)
    requires ValidOps(ops)
  {
    forall i :: 0 <= i < |ops| ==> ops[i].path[0] != key
  }

  /** A member no call touches keeps what it was. */
  lemma {:induction false} ApplyAvoids(m: map<string, Json>, ops: seq<SetOp>, key: string)
    requires ValidOps(ops) && Avoids(ops, key)
    ensures key in Apply(m, ops) <==> key in m
    ensures key in m ==> Apply(m, ops)[key] == m[key]
    decreases |ops|
  {
    if ops != [] {
      ApplyAvoids(m, ops[..|ops| - 1], key);
    }
  }

  /** The last call that stores a string directly under a member decides
      it, when no later call touches that member. */
  lemma {:induction false} ApplyLastWins(m: map<string, Json>, ops: seq<SetOp>, j: int, key: string, v: string)
    requires ValidOps(ops) && 0 <= j < |ops| && ops[j] == SetOp([key], Some(v))
    requires Avoids(ops[j + 1..], key)
    ensures key in Apply(m, ops) && Apply(m, ops)[key] == Str(v)
    decreases |ops|
  {
    var n := |ops|;
    if j < n - 1 {
      assert ops[..n - 1][j + 1..] == ops[j + 1..n - 1];
      ApplyLastWins(m, ops[..n - 1], j, key, v);
      assert ops[n - 1] == ops[j + 1..][n - 2 - j];
    } else {
      var before := Apply(m, ops[..n - 1]);
      assert GetPath(Sets(before, [key], Some(v)), [key]) == Some(Str(v));
    }
  }

  /** Whether the caller's table has an entry for the key. */
  predicate InTable(table: seq<(string, string)>, key: string) {
    exists i :: 0 <= i < |table| && table[i].0 == key
  }

  lemma TableAvoids(table: seq<(string, string)>, key: string)
    requires !InTable(table, key)
    ensures Avoids(TableOps(table), key)
  {
  }

  /** Applying one more call of a run. */
  lemma ApplyPrefix(m: map<string, Json>, ops: seq<SetOp>, i: int)
    requires ValidOps(ops) && 0 <= i < |ops|
    ensures Apply(m, ops[..i + 1]) == Sets(Apply(m, ops[..i]), ops[i].path, ops[i].value)
  {
    assert ops[..i + 1][..i] == ops[..i];
  }

  /** apr_table_do visits the entries in table order: one more entry at the
      end of the table is one more md_json_sets after all the others. */
  lemma TableInOrder(m: map<string, Json>, table: seq<(string, string)>, key: string, val: string)
    ensures Apply(m, TableOps(table + [(key, val)])) == Sets(Apply(m, TableOps(table)), [key], Some(val))
  {
    var t := TableOps(table + [(key, val)]);
    assert t[..|table|] == TableOps(table);
  }

  /** The "jwk" object built without a key id: the key's exponent and
      modulus where the key gives them, and "kty" = "RSA". */
  function JwkMembers(e64: Option<string>, n64: Option<string>): map<string, Json> {
    var e := if e64.Some? then map["e" := Str(e64.value)] else map[];
    var ekty := e["kty" := Str("RSA")];
    if n64.Some? then ekty["n" := Str(n64.value)] else ekty
  }

  /** What the key members are: "alg" with "kid", or "alg" with the "jwk"
      object, and nothing else. */
  lemma KeyHeaderContents(keyId: Option<string>, e64: Option<string>, n64: Option<string>)
    ensures KeyHeader(keyId, e64, n64) ==
      if keyId.Some? then map["alg" := Str("RS256"), "kid" := Str(keyId.value)]
      else map["alg" := Str("RS256"), "jwk" := Obj(JwkMembers(e64, n64))]
  {
    var m1 := map["alg" := Str("RS256")];
    SetsTop(map[], "alg", "RS256");
    if keyId.Some? {
      SetsTop(m1, "kid", keyId.value);
    } else {
      JwkContents(m1, e64, n64);
    }
  }

  /** The three "jwk" calls on a document without "jwk". */
  lemma JwkContents(m1: map<string, Json>, e64: Option<string>, n64: Option<string>)
    requires "jwk" !in m1
    ensures Sets(Sets(Sets(m1, ["jwk", "e"], e64), ["jwk", "kty"], Some("RSA")), ["jwk", "n"], n64)
            == m1["jwk" := Obj(JwkMembers(e64, n64))]
  {
    var e := if e64.Some? then map["e" := Str(e64.value)] else map[];
    var ekty := e["kty" := Str("RSA")];
    var m2 := m1["jwk" := Obj(e)];
    var m3 := m1["jwk" := Obj(ekty)];
    assert Sets(m1, ["jwk", "e"], e64) == m2 by {
      SetsNested(m1, "jwk", "e", e64);
    }
    assert Sets(m2, ["jwk", "kty"], Some("RSA")) == m3 by {
      SetsNested(m2, "jwk", "kty", Some("RSA"));
      UpdateTwice(m1, "jwk", Obj(e), Obj(ekty));
    }
    assert Sets(m3, ["jwk", "n"], n64) == m1["jwk" := Obj(JwkMembers(e64, n64))] by {
      SetsNested(m3, "jwk", "n", n64);
      UpdateTwice(m1, "jwk", Obj(ekty), Obj(JwkMembers(e64, n64)));
    }
  }

  /** A second update of a member replaces the first. */
  lemma UpdateTwice(m: map<string, Json>, k: string, a: Json, b: Json)
    ensures m[k := a][k := b] == m[k := b]
  {
  }

  /** "alg" is "RS256" unless the caller's table sets it. */
  lemma HeaderAlg(keyId: Option<string>, e64: Option<string>, n64: Option<string>, table: seq<(string, string)>)
    requires !InTable(table, "alg")
    ensures "alg" in Header(keyId, e64, n64, table) && Header(keyId, e64, n64, table)["alg"] == Str("RS256")
  {
    KeyHeaderContents(keyId, e64, n64);
    TableAvoids(table, "alg");
    ApplyAvoids(KeyHeader(keyId, e64, n64), TableOps(table), "alg");
  }

  /** With a key id, "kid" holds it and no "jwk" is built; the caller's
      table can still set either. */
  lemma HeaderKid(keyId: string, e64: Option<string>, n64: Option<string>, table: seq<(string, string)>)
    ensures !InTable(table, "kid") ==>
      "kid" in Header(Some(keyId), e64, n64, table) && Header(Some(keyId), e64, n64, table)["kid"] == Str(keyId)
    ensures !InTable(table, "jwk") ==> "jwk" !in Header(Some(keyId), e64, n64, table)
  {
    KeyHeaderContents(Some(keyId), e64, n64);
    if !InTable(table, "kid") {
      TableAvoids(table, "kid");
      ApplyAvoids(KeyHeader(Some(keyId), e64, n64), TableOps(table), "kid");
    }
    if !InTable(table, "jwk") {
      TableAvoids(table, "jwk");
      ApplyAvoids(KeyHeader(Some(keyId), e64, n64), TableOps(table), "jwk");
    }
  }

  /** Without a key id, "jwk" holds the key's public parameters and no "kid"
      is set, unless the caller's table sets them. */
  lemma HeaderJwk(e64: Option<string>, n64: Option<string>, table: seq<(string, string)>)
    ensures !InTable(table, "jwk") ==>
      "jwk" in Header(None, e64, n64, table) && Header(None, e64, n64, table)["jwk"] == Obj(JwkMembers(e64, n64))
    ensures !InTable(table, "kid") ==> "kid" !in Header(None, e64, n64, table)
  {
    KeyHeaderContents(None, e64, n64);
    if !InTable(table, "jwk") {
      TableAvoids(table, "jwk");
      ApplyAvoids(KeyHeader(None, e64, n64), TableOps(table), "jwk");
    }
    if !InTable(table, "kid") {
      TableAvoids(table, "kid");
      ApplyAvoids(KeyHeader(None, e64, n64), TableOps(table), "kid");
    }
  }

  /** An entry of the caller's table wins over everything before it: the
      header holds the value of the last entry with that key. */
  lemma HeaderTableWins(keyId: Option<string>, e64: Option<string>, n64: Option<string>,
                        table: seq<(string, string)>, i: int)
    requires 0 <= i < |table| && !InTable(table[i + 1..], table[i].0)
    ensures table[i].0 in Header(keyId, e64, n64, table)
    ensures Header(keyId, e64, n64, table)[table[i].0] == Str(table[i].1)
  {
    var t := TableOps(table);
    assert t[i + 1..] == TableOps(table[i + 1..]);
    TableAvoids(table[i + 1..], table[i].0);
    ApplyLastWins(KeyHeader(keyId, e64, n64), t, i, table[i].0, table[i].1);
  }

  /**
   * The foreign functions md_jws_sign relies on: md_json_writep, the
   * base64url encoder (NULL when it cannot allocate) and md_crypt_sign64
   * (a status and, on success, the encoded signature).
   */
  datatype Codec = Codec(
    write: map<string, Json> -> Option<string>,
    base64url: string -> Option<string>,
    sign64: string -> (Status, string))

  /** The flattened message: exactly the three members. */
  function Envelope(prot64: string, pay64: string, sig64: string): map<string, Json> {
    map["protected" := Str(prot64), "payload" := Str(pay64), "signature" := Str(sig64)]
  }

  /** The three md_json_sets calls on the new message give the envelope. */
  lemma EnvelopeBuilt(prot64: string, pay64: string, sig64: string)
    ensures Sets(Sets(Sets(map[], ["protected"], Some(prot64)), ["payload"], Some(pay64)), ["signature"], Some(sig64))
            == Envelope(prot64, pay64, sig64)
  {
    SetsTop(map[], "protected", prot64);
    SetsTop(map["protected" := Str(prot64)], "payload", pay64);
    SetsTop(map["protected" := Str(prot64), "payload" := Str(pay64)], "signature", sig64);
  }

  /** The signing input: the two encoded parts joined by a period. */
  function SigningInput(prot64: string, pay64: string): (s: string)
    ensures |s| == |prot64| + 1 + |pay64| && s[|prot64|] == '.'
    ensures s[..|prot64|] == prot64 && s[|prot64| + 1..] == pay64
  {
    prot64 + "." + pay64
  }

  /** What md_jws_sign produces, step by step, once the protected header
      is built: the message, or the status of the first step that failed. */
  function Signed(payload: string, len: nat, header: map<string, Json>, codec: Codec): (r: Result<map<string, Json>>)
    requires len <= |payload|
    ensures r.Err? ==> r.status != Success
    ensures r.Ok? ==> r.value.Keys == {"protected", "payload", "signature"}
  {
    var prot := codec.write(header);
    if prot.None? then Err(ENoMem)
    else
      var prot64 := codec.base64url(prot.value);
      if prot64.None? then Err(ENoMem)
      else
        var pay64 := codec.base64url(payload[..len]);
        if pay64.None? then Err(ENoMem)
        else
          var (status, sig64) := codec.sign64(SigningInput(prot64.value, pay64.value));
          if status != Success then Err(status)
          else Ok(Envelope(prot64.value, pay64.value, sig64))
  }

  /** A signed message carries the encoded header and payload, and a
      signature over exactly their signing input; a failure is
      APR_ENOMEM or the signer's own status. */
  lemma SignedParts(payload: string, len: nat, header: map<string, Json>, codec: Codec)
    requires len <= |payload|
    ensures var r := Signed(payload, len, header, codec);
      && (r.Ok? ==>
            var prot := codec.write(header);
            && prot.Some? && codec.base64url(prot.value).Some? && codec.base64url(payload[..len]).Some?
            && var prot64 := codec.base64url(prot.value).value;
               var pay64 := codec.base64url(payload[..len]).value;
               && codec.sign64(SigningInput(prot64, pay64)).0 == Success
               && r.value.Keys == {"protected", "payload", "signature"}
               && r.value["protected"] == Str(prot64)
               && r.value["payload"] == Str(pay64)
               && r.value["signature"] == Str(codec.sign64(SigningInput(prot64, pay64)).1))
      && (r.Err? ==>
            r.status != Success && (r.status == ENoMem || exists s :: codec.sign64(s).0 == r.status))
  {
    var prot := codec.write(header);
    if prot.Some? && codec.base64url(prot.value).Some? && codec.base64url(payload[..len]).Some? {
      var prot64 := codec.base64url(prot.value).value;
      var pay64 := codec.base64url(payload[..len]).value;
      var signed := codec.sign64(SigningInput(prot64, pay64));
      if signed.0 == Success {
        EnvelopeMembers(prot64, pay64, signed.1);
      }
    }
  }

  lemma EnvelopeMembers(prot64: string, pay64: string, sig64: string)
    ensures var m := Envelope(prot64, pay64, sig64);
      && m.Keys == {"protected", "payload", "signature"}
      && m["protected"] == Str(prot64) && m["payload"] == Str(pay64) && m["signature"] == Str(sig64)
  {
  }

  /** header_set: one table entry stored as a string under its key; the
      iteration always continues. */
  method HeaderSet(doc: JsonDoc, key: string, val: string) returns (r: int)
    modifies doc
    ensures doc.root == Sets(old(doc.root), [key], Some(val))
    ensures r == 1
  {
    doc.SetString(Some(val), [key]);
    return 1;
  }

  /** The key members of the protected header: "alg", then "kid" or the
      three "jwk" members. */
  method SetKeyMembers(jprotected: JsonDoc, keyId: Option<string>, e64: Option<string>, n64: Option<string>)
    requires jprotected.root == map[]
    modifies jprotected
    ensures jprotected.root == KeyHeader(keyId, e64, n64)
  {
    jprotected.SetString(Some("RS256"), ["alg"]);
    if keyId.Some? {
      jprotected.SetString(keyId, ["kid"]);
    } else {
      jprotected.SetString(e64, ["jwk", "e"]);
      jprotected.SetString(Some("RSA"), ["jwk", "kty"]);
      jprotected.SetString(n64, ["jwk", "n"]);
    }
  }

  /** The protected header of md_jws_sign: the key members, then
      apr_table_do over the caller's table with header_set. */
  method BuildProtected(keyId: Option<string>, e64: Option<string>, n64: Option<string>,
                        table: seq<(string, string)>) returns (jprotected: JsonDoc)
    ensures fresh(jprotected) && jprotected.root == Header(keyId, e64, n64, table)
  {
    jprotected := new JsonDoc();
    SetKeyMembers(jprotected, keyId, e64, n64);
    ghost var key := jprotected.root;
    ghost var t := TableOps(table);
    var i := 0;
    while i < |table|
      invariant 0 <= i <= |table|
      invariant jprotected.root == Apply(key, t[..i])
    {
      ApplyPrefix(key, t, i);
      var _ := HeaderSet(jprotected, table[i].0, table[i].1);
      i := i + 1;
    }
    assert t[..i] == t;
  }

  /**
   * md_jws_sign over the first `len` bytes of the payload. On success the
   * result is a fresh document holding the message of Signed; on failure
   * it is NULL and the status is the one Signed reports.
   */
  method JwsSign(payload: string, len: nat, table: seq<(string, string)>, keyId: Option<string>,
                 e64: Option<string>, n64: Option<string>, codec: Codec)
    returns (status: Status, pmsg: JsonDoc?)
    requires len <= |payload|
    ensures var r := Signed(payload, len, Header(keyId, e64, n64, table), codec);
      && (r.Ok? <==> status == Success)
      && (r.Err? ==> status == r.status && pmsg == null)
      && (r.Ok? ==> pmsg != null && fresh(pmsg) && pmsg.root == r.value)
  {
    status := ENoMem;
    pmsg := null;
    ghost var r := Signed(payload, len, Header(keyId, e64, n64, table), codec);
    var msg := new JsonDoc();
    var jprotected := BuildProtected(keyId, e64, n64, table);
    var prot := codec.write(jprotected.root);
    if prot.Some? {
      var prot64 := codec.base64url(prot.value);
      if prot64.Some? {
        msg.SetString(prot64, ["protected"]);
        var pay64 := codec.base64url(payload[..len]);
        if pay64.Some? {
          msg.SetString(pay64, ["payload"]);
          var sign := SigningInput(prot64.value, pay64.value);
          var sig64;
          status, sig64 := codec.sign64(sign).0, codec.sign64(sign).1;
          if status == Success {
            msg.SetString(Some(sig64), ["signature"]);
            EnvelopeBuilt(prot64.value, pay64.value, sig64);
            assert r == Ok(Envelope(prot64.value, pay64.value, sig64));
            pmsg := msg;
            status := Success;
          } else {
            assert r == Err(status);
          }
        } else {
          assert r == Err(ENoMem);
        }
      } else {
        assert r == Err(ENoMem);
      }
    } else {
      assert r == Err(ENoMem);
    }
  }
}
