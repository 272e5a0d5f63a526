/**
 * Lower-case hexadecimal encoding of a digest: the hex_const table and the
 * loop of md_crypt_sha256_digest_hex (src/md_crypt.c:984-1026). The SHA-256
 * digest itself comes from OpenSSL and is a parameter here.
 */
module DigestHex {
  import opened Base

  /** The lower-case hexadecimal digit of a nibble. */
  function HexDigit(n: int): (c: char)
    requires 0 <= n < 16
    ensures '0' <= c <= '9' || 'a' <= c <= 'f'
  {
    if n < 10 then ('0' as int + n) as char else ('a' as int + n - 10) as char
  }

  /** The value of a lower-case hexadecimal digit. */
  function HexValue(c: char): int
    requires '0' <= c <= '9' || 'a' <= c <= 'f'
  {
    if c <= '9' then c as int - '0' as int else c as int - 'a' as int + 10
  }

  lemma HexValueDigit(n: int)
    requires 0 <= n < 16
    ensures HexValue(HexDigit(n)) == n
  {
  }

  /** hex_const[b]: the two lower-case hexadecimal digits of b, high nibble
      first, which read back as b. */
  function HexConst(b: byte): (s: string)
    ensures |s| == 2
    ensures forall i :: 0 <= i < 2 ==> '0' <= s[i] <= '9' || 'a' <= s[i] <= 'f'
    ensures 16 * HexValue(s[0]) + HexValue(s[1]) == b as int
  {
    HexValueDigit(b / 16);
    HexValueDigit(b % 16);
    [HexDigit(b / 16), HexDigit(b % 16)]
  }

  /** The digest written out two characters per byte. */
  function HexEncode(bytes: seq<byte>): (s: string)
    ensures |s| == 2 * |bytes|
  {
    if bytes == [] then [] else HexConst(bytes[0]) + HexEncode(bytes[1..])
  }

  /** Characters 2i and 2i+1 of the encoding are the digits of byte i. */
  lemma {:induction false} HexEncodeAt(bytes: seq<byte>, i: int)
    requires 0 <= i < |bytes|
    ensures HexEncode(bytes)[2 * i] == HexDigit(bytes[i] / 16)
    ensures HexEncode(bytes)[2 * i + 1] == HexDigit(bytes[i] % 16)
    decreases i
  {
    if i > 0 {
      HexEncodeAt(bytes[1..], i - 1);
    }
  }

  /** Reads pairs of lower-case hexadecimal digits back into bytes. */
  function HexDecode(s: string): Option<seq<byte>>
    decreases |s|
  {
    if s == [] then Some([])
    else if |s| == 1 then None
    else if !('0' <= s[0] <= '9' || 'a' <= s[0] <= 'f') || !('0' <= s[1] <= '9' || 'a' <= s[1] <= 'f') then None
    else match HexDecode(s[2..])
      case None => None
      case Some(rest) => Some([16 * HexValue(s[0]) + HexValue(s[1]) as byte] + rest)
  }

  /** The encoding loses nothing: decoding gives the digest back. */
  lemma {:induction false} HexRoundTrip(bytes: seq<byte>)
    ensures HexDecode(HexEncode(bytes)) == Some(bytes)
  {
    if bytes != [] {
      var b := bytes[0];
      var s := HexEncode(bytes);
      assert s[..2] == HexConst(b) && s[2..] == HexEncode(bytes[1..]);
      HexRoundTrip(bytes[1..]);
      HexValueDigit(b / 16);
      HexValueDigit(b % 16);
      assert [b] + bytes[1..] == bytes;
    }
  }

  /**
   * md_crypt_sha256_digest_hex, given the outcome of the digest: on
   * success a zero-filled buffer of 2 * blen + 1 characters is filled two
   * characters per byte from hex_const, and the string before the final
   * NUL is returned; on failure the digest's status and no string.
   */
  method Sha256DigestHex(digest: Result<seq<byte>>) returns (rv: Status, dhex: Option<string>)
    ensures digest.Ok? ==> rv == Success && dhex == Some(HexEncode(digest.value))
    ensures digest.Err? ==> rv == digest.status && dhex.None?
  {
    if digest.Err? {
      return digest.status, None;
    }
    var buffer := digest.value;
    var blen := |buffer|;
    var buf := new char[2 * blen + 1](_ => '\0');
    var i := 0;
    while i < blen
      invariant 0 <= i <= blen
      invariant buf[..2 * i] == HexEncode(buffer[..i])
      invariant buf[2 * blen] == '\0'
    {
      var x := HexConst(buffer[i]);
      buf[2 * i] := x[0];
      buf[2 * i + 1] := x[1];
      HexEncodeSnoc(buffer, i);
      assert buf[..2 * i + 2] == buf[..2 * i] + x;
      i := i + 1;
    }
    assert buffer[..blen] == buffer;
    return Success, Some(buf[..2 * blen]);
  }

  /** Encoding one more byte appends its two digits. */
  lemma {:induction false} HexEncodeSnoc(bytes: seq<byte>, i: int)
    requires 0 <= i < |bytes|
    ensures HexEncode(bytes[..i + 1]) == HexEncode(bytes[..i]) + HexConst(bytes[i])
    decreases i
  {
    if i > 0 {
      HexEncodeSnoc(bytes[1..], i - 1);
      assert bytes[1..][..i] == bytes[..i + 1][1..];
      assert bytes[1..][..i - 1] == bytes[..i][1..];
    }
  }
}
