/**
 * AES-128 in Galois/Counter Mode (NIST SP 800-38D) seen only through its
 * interface: `seal` turns a key, a nonce and a plaintext into
 * ciphertext‖tag, `open` checks the tag and gives the plaintext back or
 * nothing. The block cipher itself is not modelled; an `Aead` is any pair
 * of functions that keeps the promises `Valid` lists.
 */
module AbstractAead {
  import opened Results
  import opened Bytes

  /** AES-128 key length in bytes. */
  const KeySize: nat := 16
  /** GCM's standard nonce length, the one the codec asks for. */
  const NonceSize: nat := 12
  /** Length of the GCM authentication tag appended by `seal`. */
  const TagSize: nat := 16

  datatype AeadOps = AeadOps(
    seal: (seq<byte>, seq<byte>, seq<byte>) -> seq<byte>,
    open: (seq<byte>, seq<byte>, seq<byte>) -> Option<seq<byte>>)

  /**
   * For a 16-byte key and a 12-byte nonce: sealing adds exactly one tag,
   * opening a sealed text gives the plaintext back, and whatever `open`
   * accepts is one tag longer than what it returns.
   */
  ghost predicate Valid(ops: AeadOps) {
    && (forall k, n, p | |k| == KeySize && |n| == NonceSize ::
          |ops.seal(k, n, p)| == |p| + TagSize)
    && (forall k, n, p | |k| == KeySize && |n| == NonceSize ::
          ops.open(k, n, ops.seal(k, n, p)) == Some(p))
    && (forall k, n, c | |k| == KeySize && |n| == NonceSize && ops.open(k, n, c).Some? ::
          |c| == |ops.open(k, n, c).value| + TagSize)
  }

  /** An authenticated cipher: the only facts the codec relies on. */
  type Aead = ops: AeadOps | Valid(ops) witness AeadOps(NullSeal, NullOpen)

  /**
   * A cipher that hides nothing, with a constant zero tag. It exists only to
   * show that `Valid` can be met, so assuming it is not assuming false.
   */
  function NullSeal(key: seq<byte>, nonce: seq<byte>, plainText: seq<byte>): (c: seq<byte>)
    ensures |c| == |plainText| + TagSize
    ensures NullOpen(key, nonce, c) == Some(plainText)
  {
    var c := plainText + Zeros(TagSize);
    assert c[..|plainText|] == plainText;
    assert c[|plainText|..] == Zeros(TagSize);
    c
  }

  function NullOpen(key: seq<byte>, nonce: seq<byte>, c: seq<byte>): (r: Option<seq<byte>>)
    ensures r.Some? ==> |c| == |r.value| + TagSize
  {
    if |c| >= TagSize && c[|c| - TagSize..] == Zeros(TagSize)
    then Some(c[..|c| - TagSize])
    else None
  }
}
