/**
 * Argument guards around OpenSSL calls: random bytes, writing a private key
 * to PEM, and the pass phrase callback (src/md_crypt.c:570-598, 730-776).
 * The random source, the cipher lookup and the PEM writer are OpenSSL's
 * and enter as parameters.
 */
module Guards {
  import opened Base

  /**
   * md_rand_bytes: a length above INT_MAX is APR_ENOTIMPL and nothing is
   * written; otherwise the status of md_crypt_init, and on success the
   * buffer holds the first `len` bytes of the random source.
   */
  method RandBytes(buf: array<byte>, len: nat, initStatus: Status, random: seq<byte>) returns (rv: Status)
    requires len <= buf.Length && len <= |random|
    modifies buf
    ensures len > INT_MAX ==> rv == ENotImpl && buf[..] == old(buf[..])
    ensures len <= INT_MAX ==> rv == initStatus
    ensures rv == Success ==> buf[..len] == random[..len] && buf[len..] == old(buf[len..])
    ensures rv != Success ==> buf[..] == old(buf[..])
  {
    if len > INT_MAX {
      return ENotImpl;
    }
    rv := initStatus;
    if rv == Success {
      forall i | 0 <= i < len {
        buf[i] := random[i];
      }
    }
  }

  /** The number of pass phrase bytes pem_passwd copies into a buffer of
      `size` bytes: all of them when they fit, `size` otherwise, none for a
      non-positive length. */
  function PasswdCopied(passLen: int, size: int): (n: int)
    ensures passLen > 0 ==> n <= passLen && n <= size
    ensures passLen > 0 && passLen <= size ==> n == passLen
    ensures passLen <= 0 ==> n == 0
  {
    if passLen <= 0 then 0 else if passLen < size then passLen else size
  }

  /**
   * pem_passwd as written: copies PasswdCopied bytes of the pass phrase to
   * the buffer and returns the full pass phrase length, also when the
   * buffer was too small to hold it.
   */
  method PemPasswd(buf: array<char>, size: int, passPhrase: string, passLen: int) returns (n: int)
    requires 0 <= size <= buf.Length && passLen <= |passPhrase|
    modifies buf
    ensures n == passLen
    ensures var k := PasswdCopied(passLen, size);
      buf[..k] == passPhrase[..k] && buf[k..] == old(buf[k..])
  {
    var k := PasswdCopied(passLen, size);
    if passLen > 0 {
      forall i | 0 <= i < k {
        buf[i] := passPhrase[i];
      }
    }
    n := passLen;
  }

  /** A pass phrase longer than the buffer is cut to the buffer, yet its full
      length is reported: the caller then reads bytes the callback never
      wrote. */
  lemma PemPasswdOverstates(passLen: int, size: int)
    requires 0 <= size < passLen
    ensures PasswdCopied(passLen, size) == size < passLen
  {
  }

  /**
   * pem_passwd with the length it reports equal to the bytes it copied:
   * the reported pass phrase always lies inside the buffer, and it is the
   * whole pass phrase whenever it fits.
   */
  method PemPasswdCopied(buf: array<char>, size: int, passPhrase: string, passLen: int) returns (n: int)
    requires 0 <= size <= buf.Length && passLen <= |passPhrase|
    modifies buf
    ensures n == PasswdCopied(passLen, size)
    ensures 0 <= n <= size && buf[..n] == passPhrase[..n] && buf[n..] == old(buf[n..])
    ensures 0 < passLen <= size ==> n == passLen
  {
    n := PasswdCopied(passLen, size);
    if passLen > 0 {
      forall i | 0 <= i < n {
        buf[i] := passPhrase[i];
      }
    }
  }

  /** What pkey_to_buffer leaves: its status, whether the key was written
      encrypted with AES-256-CBC and the pass phrase callback, and the PEM
      text copied into the buffer, if any. */
  datatype KeyBuffer = KeyBuffer(status: Status, encrypted: bool, data: Option<string>)

  /**
   * pkey_to_buffer, given whether the memory BIO could be created, whether
   * the cipher is available and the outcome of PEM_write_bio_PrivateKey. A
   * pass phrase length above INT_MAX is APR_EINVAL; a present, non-empty
   * pass phrase selects encryption; a failed write is APR_EINVAL; the
   * buffer is filled only when the writer produced some text.
   */
  function PkeyToBuffer(bioOk: bool, pass: Option<string>, passLen: nat, cipherOk: bool,
                        written: Option<string>): (r: KeyBuffer)
    ensures r.status == Success <==>
      bioOk && passLen <= INT_MAX && (pass.Some? && passLen > 0 ==> cipherOk) && written.Some?
    ensures !bioOk ==> r.status == ENoMem
    ensures bioOk && passLen > INT_MAX ==> r.status == EInval
    ensures bioOk && passLen <= INT_MAX && pass.Some? && passLen > 0 && !cipherOk ==> r.status == ENotImpl
    ensures bioOk && passLen <= INT_MAX && (pass.Some? && passLen > 0 ==> cipherOk) && written.None? ==>
      r.status == EInval
    ensures r.status == Success ==> (r.encrypted <==> pass.Some? && passLen > 0)
    ensures r.status == Success ==> (r.data.Some? <==> |written.value| > 0) && (r.data.Some? ==> r.data == written)
    ensures r.status != Success ==> r.data.None?
  {
    if !bioOk then KeyBuffer(ENoMem, false, None)
    else if passLen > INT_MAX then KeyBuffer(EInval, false, None)
    else
      var encrypted := pass.Some? && passLen > 0;
      if encrypted && !cipherOk then KeyBuffer(ENotImpl, encrypted, None)
      else if written.None? then KeyBuffer(EInval, encrypted, None)
      else if |written.value| > 0 then KeyBuffer(Success, encrypted, written)
      else KeyBuffer(Success, encrypted, None)
  }
}
