/**
 * Private key specifications (md_pkey_spec_t): the default key or an RSA
 * key of a given size, their JSON form and their comparison
 * (src/md_crypt.c:603-667).
 */
module PKeySpec {
  import opened Base
  import opened Text
  import opened Json

  /** MD_PKEY_RSA_BITS_MIN and MD_PKEY_RSA_BITS_DEF of md_crypt.h. */
  const RsaBitsMin: int := 2048
  const RsaBitsDef: int := 2048

  /** The JSON member names MD_KEY_TYPE and MD_KEY_BITS. */
  const KeyType: string := "type"
  const KeyBits: string := "bits"

  /** unsigned int, the type of params.rsa.bits. */
  const UintModulus: int := 0x1_0000_0000
  type uint = n: int | 0 <= n < UintModulus

  /** The tagged variant: MD_PKEY_TYPE_DEFAULT or MD_PKEY_TYPE_RSA with its
      bit count. */
  datatype Spec = Default | Rsa(bits: uint)

  /** A md_pkey_spec_t pointer: NULL, or a spec at an address. */
  datatype SpecPtr = Null | At(addr: nat, spec: Spec)

  /** Two pointers to the same address point to the same spec. */
  predicate Consistent(p1: SpecPtr, p2: SpecPtr) {
    p1.At? && p2.At? && p1.addr == p2.addr ==> p1.spec == p2.spec
  }

  /** The document md_pkey_spec_to_json builds: the type always, read back
      as "Default" or "RSA", and the bits only for an RSA key of at least
      the minimum size. */
  function ToJson(spec: Spec): (m: map<string, Json>)
    ensures GetString(m, KeyType) == Some(if spec.Default? then "Default" else "RSA")
    ensures KeyBits in m <==> spec.Rsa? && spec.bits >= RsaBitsMin
    ensures KeyBits in m ==> GetLong(m, KeyBits) == spec.bits
    ensures m.Keys <= {KeyType, KeyBits}
  {
    match spec
    case Default => map[KeyType := Str("Default")]
    case Rsa(bits) =>
      var m := map[KeyType := Str("RSA")];
      if bits >= RsaBitsMin then m[KeyBits := Num(bits)] else m
  }

  /** md_pkey_spec_to_json: a new document filled with md_json_sets and
      md_json_setl. */
  method SpecToJson(spec: Spec) returns (json: JsonDoc)
    ensures fresh(json) && json.root == ToJson(spec)
  {
    json := new JsonDoc();
    match spec {
      case Default =>
        json.SetString(Some("Default"), [KeyType]);
      case Rsa(bits) =>
        json.SetString(Some("RSA"), [KeyType]);
        if bits >= RsaBitsMin {
          json.SetLong(bits, [KeyBits]);
        }
    }
  }

  /**
   * md_pkey_spec_from_json. A missing type, or one naturally equal to
   * "Default", gives the default key; one naturally equal to "RSA" gives an
   * RSA key whose bits are taken (converted to unsigned int) when at least
   * the minimum and are the default otherwise. Any other type leaves the
   * zero-filled spec, which is the default key.
   */
  function FromJson(m: map<string, Json>): (spec: Spec)
    ensures GetString(m, KeyType).None? ==> spec == Default
    ensures spec.Rsa? <==>
      GetString(m, KeyType).Some? && !NatCaseEqualWord("Default", GetString(m, KeyType).value)
      && NatCaseEqualWord("RSA", GetString(m, KeyType).value)
    ensures spec.Rsa? && GetLong(m, KeyBits) >= RsaBitsMin ==> spec.bits == GetLong(m, KeyBits) % UintModulus
    ensures spec.Rsa? && GetLong(m, KeyBits) < RsaBitsMin ==> spec.bits == RsaBitsDef
  {
    var s := GetString(m, KeyType);
    if s.None? || NatCaseEqualWord("Default", s.value) then Default
    else if NatCaseEqualWord("RSA", s.value) then
      var l := GetLong(m, KeyBits);
      if l >= RsaBitsMin then Rsa(l % UintModulus) else Rsa(RsaBitsDef)
    else Default
  }

  /** A spec as it comes back from JSON: RSA sizes below the minimum are
      replaced by the default size. */
  function Normalized(spec: Spec): Spec {
    match spec
    case Default => Default
    case Rsa(bits) => if bits >= RsaBitsMin then spec else Rsa(RsaBitsDef)
  }

  /** Writing a spec to JSON and reading it back gives the spec, except that
      a too small RSA size comes back as the default size. */
  lemma FromToJson(spec: Spec)
    ensures FromJson(ToJson(spec)) == Normalized(spec)
    ensures spec.Rsa? && spec.bits >= RsaBitsMin ==> FromJson(ToJson(spec)) == spec
  {
    if spec.Rsa? {
      SpellingMatches("RSA", "RSA");
    } else {
      SpellingMatches("Default", "Default");
    }
  }

  /** Any spelling of "RSA" up to case is read as an RSA key, never as the
      default key; without a size it gets the default size. */
  lemma FromJsonIgnoresCase(m: map<string, Json>, t: string)
    requires EqualsIgnoreCase(t, "RSA") && GetLong(m, KeyBits) == 0
    ensures FromJson(m[KeyType := Str(t)]) == Rsa(RsaBitsDef)
  {
    SpellingMatches("RSA", t);
    assert GetLong(m[KeyType := Str(t)], KeyBits) == GetLong(m, KeyBits);
  }

  /**
   * md_pkey_spec_eq: true for the same pointer (two NULLs included), for
   * two default specs, and for two RSA specs of the same size; false
   * otherwise, in particular when exactly one side is NULL. It is equality
   * of the specs pointed to.
   */
  function SpecEq(p1: SpecPtr, p2: SpecPtr): (eq: bool)
    requires Consistent(p1, p2)
    ensures p1.At? && p2.At? ==> (eq <==> p1.spec == p2.spec)
    ensures p1.Null? || p2.Null? ==> (eq <==> p1 == p2)
  {
    if p1 == p2 then true
    else if p1.Null? || p2.Null? then false
    else match (p1.spec, p2.spec)
      case (Default, Default) => true
      case (Rsa(b1), Rsa(b2)) => b1 == b2
      case _ => false
  }
}
