/**
 * The codec's own wire layout. A sealed message (nonce, ciphertext‖tag) is
 * laid out as
 *
 *   [12] [first 12 bytes of ciphertext‖tag] [nonce] [rest of ciphertext‖tag]
 *
 * so the nonce does not sit at either end of the blob. The functions below
 * build and take apart that layout with the same offsets and copies as the
 * Go code.
 */
module Framing {
  import opened Results
  import opened Bytes
  import opened AbstractAead
  import opened CodecErrors

  /** Offset of the nonce, and of the second ciphertext part after it. */
  const NonceOffset: nat := 1 + NonceSize
  const HeaderSize: nat := 1 + 2 * NonceSize

  /** What a frame carries: the nonce and the whole ciphertext‖tag. */
  datatype Sealed = Sealed(nonce: seq<byte>, cipherText: seq<byte>)

  /** A Go call either returns or panics. */
  datatype GoOutcome<T> = Returns(value: T) | Panics

  /**
   * `copyWithRange`: copies `copyLen` bytes of `src` from `srcI` into `dest`
   * from `destI`. The requires are the bounds Go's slicing checks; Go's
   * `copy` moves only as many bytes as fit in the destination and leaves
   * every other byte as it was.
   */
  function CopyWithRange(src: seq<byte>, srcI: nat, dest: seq<byte>, destI: nat, copyLen: nat)
    : (r: seq<byte>)
    requires srcI + copyLen <= |src|
    requires destI <= |dest|
    ensures |r| == |dest|
    ensures forall j :: 0 <= j < |r| ==>
              r[j] == if destI <= j < destI + copyLen then src[srcI + j - destI] else dest[j]
  {
    var n := if copyLen <= |dest| - destI then copyLen else |dest| - destI;
    dest[..destI] + src[srcI..srcI + n] + dest[destI + n..]
  }

  /** The output buffer `EncryptedCode` assembles before hex-encoding it. */
  function Frame(nonce: seq<byte>, cipherText: seq<byte>): (out: seq<byte>)
    requires |nonce| == NonceSize
    requires |cipherText| >= NonceSize
    ensures |out| == 1 + NonceSize + |cipherText|
    ensures out[0] == NonceSize
    ensures out[1..NonceOffset] == cipherText[..NonceSize]
    ensures out[NonceOffset..HeaderSize] == nonce
    ensures out[HeaderSize..] == cipherText[NonceSize..]
  {
    var nonceLen := |nonce|;
    var output := Zeros(1 + nonceLen + |cipherText|)[0 := nonceLen];
    var output := CopyWithRange(cipherText, 0, output, 1, nonceLen);
    var output := CopyWithRange(nonce, 0, output, 1 + nonceLen, nonceLen);
    var out := CopyWithRange(cipherText, nonceLen, output, 1 + 2 * nonceLen, |cipherText| - nonceLen);
    assert out[1..NonceOffset] == cipherText[..NonceSize] by {
      forall j | 0 <= j < NonceSize ensures out[1 + j] == cipherText[j] {
        assert output[1 + j] == out[1 + j];
      }
    }
    out
  }

  /**
   * `DecryptedCode`'s unframing as written: it indexes byte 0 of an empty
   * blob, and a blob that declares 12 but holds fewer than 25 bytes makes
   * the slices of the nonce or of the ciphertext's tail go out of range.
   */
  function UnframeAsWritten(input: seq<byte>): (r: GoOutcome<Result<Sealed, Error>>)
    ensures r.Panics? <==> |input| == 0 || (input[0] == NonceSize && |input| < HeaderSize)
    ensures r.Returns? && r.value.Failure? ==>
              input[0] != NonceSize && r.value.error == UnsupportedNonceLength(input[0])
    ensures r.Returns? && r.value.Success? ==> |input| >= HeaderSize && input[0] == NonceSize
    ensures r.Returns? && r.value.Success? ==>
              r.value.value == Sealed(input[NonceOffset..HeaderSize], input[1..NonceOffset] + input[HeaderSize..])
  {
    if |input| == 0 then Panics
    else
      var nonceLen := input[0] as int;
      var i := 1 + nonceLen;
      if nonceLen != NonceSize then Returns(Failure(UnsupportedNonceLength(input[0])))
      else if |input| < i + nonceLen then Panics
      else
        var iv := CopyWithRange(input, i, Zeros(nonceLen), 0, nonceLen);
        var i := i + nonceLen;
        var cipherTextLen := |input| - i + nonceLen;
        var cipherText := CopyWithRange(input, 1, Zeros(cipherTextLen), 0, nonceLen);
        var cipherText := CopyWithRange(input, i, cipherText, nonceLen, cipherTextLen - nonceLen);
        assert iv == input[i - nonceLen..i];
        assert cipherText == input[1..NonceOffset] + input[HeaderSize..];
        Returns(Success(Sealed(iv, cipherText)))
  }

  /**
   * Unframing with the length checks the Go code lacks: a blob too short to
   * hold a frame is an error instead of a panic. Otherwise the same as
   * `UnframeAsWritten`.
   */
  function Unframe(input: seq<byte>): (r: Result<Sealed, Error>)
    ensures r.Success? <==> |input| >= HeaderSize && input[0] == NonceSize
    ensures |input| > 0 && input[0] != NonceSize ==> r == Failure(UnsupportedNonceLength(input[0]))
    ensures |input| < HeaderSize ==> r.Failure?
    ensures r.Success? ==> r.value.nonce == input[NonceOffset..HeaderSize]
    ensures r.Success? ==> r.value.cipherText == input[1..NonceOffset] + input[HeaderSize..]
    ensures r.Success? ==> |r.value.cipherText| == |input| - HeaderSize + NonceSize
  {
    match UnframeAsWritten(input)
    case Panics => Failure(MalformedFrame)
    case Returns(result) => result
  }

  /** Unframing a frame gives back the nonce and ciphertext it was built from. */
  lemma UnframeFrame(nonce: seq<byte>, cipherText: seq<byte>)
    requires |nonce| == NonceSize && |cipherText| >= NonceSize
    ensures Unframe(Frame(nonce, cipherText)) == Success(Sealed(nonce, cipherText))
  {
    assert cipherText[..NonceSize] + cipherText[NonceSize..] == cipherText;
  }

  /** Every blob `Unframe` accepts is the frame of what it returns. */
  lemma FrameUnframe(input: seq<byte>)
    requires Unframe(input).Success?
    ensures var s := Unframe(input).value; Frame(s.nonce, s.cipherText) == input
  {
    var s := Unframe(input).value;
    var out := Frame(s.nonce, s.cipherText);
    forall j | 0 <= j < |input| ensures out[j] == input[j] {
      if 1 <= j < NonceOffset {
        assert out[j] == out[1..NonceOffset][j - 1] == s.cipherText[j - 1];
      } else if NonceOffset <= j < HeaderSize {
        assert out[j] == out[NonceOffset..HeaderSize][j - NonceOffset];
      } else if HeaderSize <= j {
        assert out[j] == out[HeaderSize..][j - HeaderSize] == s.cipherText[j - NonceOffset];
      }
    }
  }

  /** Distinct frames reach the cipher as distinct (nonce, ciphertext) pairs. */
  lemma UnframeInjective(a: seq<byte>, b: seq<byte>)
    requires Unframe(a).Success? && Unframe(b).Success?
    requires a != b
    ensures Unframe(a).value != Unframe(b).value
  {
    FrameUnframe(a);
    FrameUnframe(b);
  }

  /** The shortest blobs that make the Go code panic. */
  lemma ShortFramePanics()
    ensures UnframeAsWritten([]) == Panics
    ensures UnframeAsWritten([NonceSize]) == Panics
    ensures Unframe([]) == Failure(MalformedFrame)
    ensures Unframe([NonceSize]) == Failure(MalformedFrame)
  {
  }
}
