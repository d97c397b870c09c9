/**
 * `AesGcm`: a codec holding raw key bytes that turns a plaintext into a
 * hex blob (key sizing, AES-GCM sealing, framing, hex) and back. The key is
 * only checked for length when it is used, on every call, and the stored
 * key is never changed: a longer key is cut to 16 bytes for the call only.
 */
module AesGcm {
  import opened Results
  import opened Bytes
  import opened Hex
  import opened AbstractAead
  import opened CodecErrors
  import opened Framing

  /** Bytes a blob holds beyond the plaintext: length byte, nonce and tag. */
  const Overhead: nat := 1 + NonceSize + TagSize

  datatype Codec = Codec(encKey: seq<byte>)

  /** `NewAesGCM`: decode the hex key and keep all of its bytes, whatever their number. */
  function NewCodec(hexKey: string): (r: Result<Codec, Error>)
    ensures r.Success? <==> IsHex(hexKey)
    ensures r.Success? ==> r.value.encKey == DecodeHex(hexKey).value
    ensures r.Success? ==> 2 * |r.value.encKey| == |hexKey|
    ensures r.Failure? ==> r.error == InvalidKeyEncoding(DecodeHex(hexKey).error)
  {
    var key :- DecodeHex(hexKey).MapFailure(e => InvalidKeyEncoding(e));
    Success(Codec(key))
  }

  /** The key the cipher is given: the first 16 stored bytes, or an error. */
  function SizeKey(encKey: seq<byte>): (r: Result<seq<byte>, Error>)
    ensures r.Success? <==> |encKey| >= KeySize
    ensures r.Failure? ==> r.error == KeyTooShort
    ensures r.Success? ==> |r.value| == KeySize && r.value == encKey[..KeySize]
  {
    if |encKey| < KeySize then Failure(KeyTooShort)
    else if |encKey| > KeySize then Success(encKey[..KeySize])
    else Success(encKey)
  }

  /**
   * `io.ReadFull(rand.Reader, nonce)` for a 12-byte nonce, where `entropy`
   * is everything the random source would deliver: it fails when that is
   * fewer than 12 bytes and otherwise takes the first 12.
   */
  function ReadNonce(entropy: seq<byte>): (r: Result<seq<byte>, Error>)
    ensures r.Success? <==> |entropy| >= NonceSize
    ensures r.Failure? ==> r.error == RandomnessUnavailable
    ensures r.Success? ==> |r.value| == NonceSize && r.value == entropy[..NonceSize]
  {
    if |entropy| < NonceSize then Failure(RandomnessUnavailable)
    else Success(entropy[..NonceSize])
  }

  /** `EncryptedCode`. */
  function Encrypt(c: Codec, aead: Aead, entropy: seq<byte>, plainText: seq<byte>)
    : (r: Result<string, Error>)
    ensures r.Success? <==> |c.encKey| >= KeySize && |entropy| >= NonceSize
    ensures |c.encKey| < KeySize ==> r == Failure(KeyTooShort)
    ensures |c.encKey| >= KeySize && |entropy| < NonceSize ==> r == Failure(RandomnessUnavailable)
    ensures r.Success? ==> |r.value| == 2 * (Overhead + |plainText|) && IsLowerHex(r.value)
  {
    var key :- SizeKey(c.encKey);
    var nonce :- ReadNonce(entropy);
    var cipherText := aead.seal(key, nonce, plainText);
    Success(EncodeHex(Frame(nonce, cipherText)))
  }

  /** `DecryptedCode`, with a short blob reported as `MalformedFrame`. */
  function Decrypt(c: Codec, aead: Aead, blob: string): (r: Result<seq<byte>, Error>)
    ensures r.Success? ==> IsHex(blob)
    ensures r.Success? ==> |blob| == 2 * (Overhead + |r.value|)
  {
    var input :- DecodeHex(blob).MapFailure(e => InvalidHexEncoding(e));
    var key :- SizeKey(c.encKey);
    var sealed :- Unframe(input);
    match aead.open(key, sealed.nonce, sealed.cipherText)
    case None => Failure(AuthenticationFailed)
    case Some(plainText) => Success(plainText)
  }

  /**
   * What a successful `Encrypt` writes: the lower-case hex of the frame of
   * the random source's first 12 bytes and of the ciphertext sealed under
   * the first 16 key bytes; so the blob starts with "0c".
   */
  lemma EncryptLayout(c: Codec, aead: Aead, entropy: seq<byte>, plainText: seq<byte>)
    requires |c.encKey| >= KeySize && |entropy| >= NonceSize
    ensures var blob := Encrypt(c, aead, entropy, plainText).value;
            var nonce := entropy[..NonceSize];
            && DecodeHex(blob)
               == Success(Frame(nonce, aead.seal(c.encKey[..KeySize], nonce, plainText)))
            && blob[..2] == "0c"
  {
    var nonce := entropy[..NonceSize];
    var frame := Frame(nonce, aead.seal(c.encKey[..KeySize], nonce, plainText));
    DecodeEncode(frame);
    var blob := EncodeHex(frame);
    assert blob[..2] == [DigitChar(frame[0] / 16), DigitChar(frame[0] % 16)];
  }

  /** End to end: with a key of at least 16 bytes, decrypting an encryption gives the plaintext. */
  lemma DecryptEncrypt(c: Codec, aead: Aead, entropy: seq<byte>, plainText: seq<byte>)
    requires |c.encKey| >= KeySize && |entropy| >= NonceSize
    ensures Encrypt(c, aead, entropy, plainText).Success?
    ensures Decrypt(c, aead, Encrypt(c, aead, entropy, plainText).value) == Success(plainText)
  {
    var key := c.encKey[..KeySize];
    var nonce := entropy[..NonceSize];
    var cipherText := aead.seal(key, nonce, plainText);
    DecodeEncode(Frame(nonce, cipherText));
    UnframeFrame(nonce, cipherText);
  }

  /** The same, starting from the hex key string the codec is built from. */
  lemma RoundTripFromHexKey(hexKey: string, aead: Aead, entropy: seq<byte>, plainText: seq<byte>)
    requires IsHex(hexKey) && |hexKey| >= 2 * KeySize
    requires |entropy| >= NonceSize
    ensures NewCodec(hexKey).Success?
    ensures var c := NewCodec(hexKey).value;
            && Encrypt(c, aead, entropy, plainText).Success?
            && Decrypt(c, aead, Encrypt(c, aead, entropy, plainText).value) == Success(plainText)
  {
    DecryptEncrypt(NewCodec(hexKey).value, aead, entropy, plainText);
  }

  /** A key under 16 bytes makes encryption fail before any cipher work. */
  lemma ShortKeyRejectedOnEncrypt(c: Codec, aead: Aead, entropy: seq<byte>, plainText: seq<byte>)
    requires |c.encKey| < KeySize
    ensures Encrypt(c, aead, entropy, plainText) == Failure(KeyTooShort)
  {
  }

  /**
   * A key under 16 bytes makes decryption fail before any cipher work, but
   * only after the blob has been hex-decoded: a malformed blob is reported first.
   */
  lemma ShortKeyRejectedOnDecrypt(c: Codec, aead: Aead, blob: string)
    requires |c.encKey| < KeySize
    ensures IsHex(blob) ==> Decrypt(c, aead, blob) == Failure(KeyTooShort)
    ensures !IsHex(blob) ==> Decrypt(c, aead, blob).Failure? && Decrypt(c, aead, blob).error.InvalidHexEncoding?
  {
  }

  /**
   * The order of the checks in `Decrypt`: hex first, then the key (see
   * `ShortKeyRejectedOnDecrypt`), then the declared nonce length, then the
   * frame's length, then the tag.
   */
  lemma DecryptErrors(c: Codec, aead: Aead, blob: string)
    ensures !IsHex(blob) ==> Decrypt(c, aead, blob) == Failure(InvalidHexEncoding(DecodeHex(blob).error))
    ensures IsHex(blob) && |c.encKey| >= KeySize ==>
              var input := DecodeHex(blob).value;
              && (|input| > 0 && input[0] != NonceSize ==>
                    Decrypt(c, aead, blob) == Failure(UnsupportedNonceLength(input[0])))
              && (|input| == 0 || (input[0] == NonceSize && |input| < HeaderSize) ==>
                    Decrypt(c, aead, blob) == Failure(MalformedFrame))
  {
  }

  /**
   * A failed `Decrypt` returns no plaintext; one that fails in the cipher
   * had a well-formed blob whose (nonce, ciphertext) the cipher rejected.
   */
  lemma AuthenticationFailure(c: Codec, aead: Aead, blob: string)
    requires Decrypt(c, aead, blob) == Failure(AuthenticationFailed)
    ensures IsHex(blob) && |c.encKey| >= KeySize
    ensures var sealed := Unframe(DecodeHex(blob).value);
            && sealed.Success?
            && aead.open(c.encKey[..KeySize], sealed.value.nonce, sealed.value.cipherText) == None
  {
  }

  /**
   * On a well-formed blob and a usable key, `Decrypt` returns what the
   * cipher's `open` returns: the plaintext it accepts, or an
   * authentication error when it rejects the tag.
   */
  lemma DecryptOpensFrame(c: Codec, aead: Aead, blob: string)
    requires IsHex(blob) && |c.encKey| >= KeySize
    requires Unframe(DecodeHex(blob).value).Success?
    ensures var s := Unframe(DecodeHex(blob).value).value;
            var outcome := aead.open(c.encKey[..KeySize], s.nonce, s.cipherText);
            && (outcome.Some? ==> Decrypt(c, aead, blob) == Success(outcome.value))
            && (outcome.None? ==> Decrypt(c, aead, blob) == Failure(AuthenticationFailed))
  {
  }

  /** Two encryptions with different nonces never produce the same blob. */
  lemma DistinctNoncesDistinctBlobs(c: Codec, aead: Aead, e1: seq<byte>, e2: seq<byte>, plainText: seq<byte>)
    requires |c.encKey| >= KeySize && |e1| >= NonceSize && |e2| >= NonceSize
    requires e1[..NonceSize] != e2[..NonceSize]
    ensures Encrypt(c, aead, e1, plainText).value != Encrypt(c, aead, e2, plainText).value
  {
    EncryptLayout(c, aead, e1, plainText);
    EncryptLayout(c, aead, e2, plainText);
  }

  /** An odd-length key string is refused when the codec is built. */
  lemma OddKeyRejected()
    ensures NewCodec("123") == Failure(InvalidKeyEncoding(OddLength))
  {
    DecodeHexOddLength("123");
  }

  /** The blob "123456" declares a nonce length of 0x12 and is refused. */
  lemma WrongNonceLengthRejected(c: Codec, aead: Aead)
    requires |c.encKey| >= KeySize
    ensures Decrypt(c, aead, "123456") == Failure(UnsupportedNonceLength(0x12))
  {
    assert "56"[2..] == "" && DecodeHex("") == Success([]);
    assert DecodeHex("56").value == [0x56];
    assert "3456"[2..] == "56";
    assert DecodeHex("3456").value == [0x34, 0x56];
    assert "123456"[2..] == "3456";
    assert DecodeHex("123456").value == [0x12, 0x34, 0x56];
  }

  /**
   * The recorded blob for the plaintext "test", written in 10-character
   * pieces so that `KnownBlobShape` can check it is hex piece by piece.
   */
  const KnownBlob: string :=
    "0cfaeaa399" + "9edf03f245" + "8fdd1b6646" + "9c939cda0e" + "d1435d4e5c" + "b359604f80" + "10d6a9"

  /**
   * Without running AES the recorded blob can still be checked for shape:
   * it frames a 12-byte nonce and 20 bytes of ciphertext‖tag, and any
   * plaintext it opens to has 4 bytes, as "test" does.
   */
  lemma KnownBlobShape(c: Codec, aead: Aead)
    ensures DecodeHex(KnownBlob).Success?
    ensures var input := DecodeHex(KnownBlob).value;
            && |input| == 1 + NonceSize + 4 + TagSize
            && input[0] == NonceSize
            && Unframe(input).Success?
            && |Unframe(input).value.cipherText| == 4 + TagSize
    ensures Decrypt(c, aead, KnownBlob).Success? ==> |Decrypt(c, aead, KnownBlob).value| == 4
  {
    var p1 := "0cfaeaa399" + "9edf03f245";
    HexConcat("0cfaeaa399", "9edf03f245");
    var p2 := p1 + "8fdd1b6646";
    HexConcat(p1, "8fdd1b6646");
    var p3 := p2 + "9c939cda0e";
    HexConcat(p2, "9c939cda0e");
    var p4 := p3 + "d1435d4e5c";
    HexConcat(p3, "d1435d4e5c");
    var p5 := p4 + "b359604f80";
    HexConcat(p4, "b359604f80");
    HexConcat(p5, "10d6a9");
    assert IsHex(KnownBlob);
    assert KnownBlob[0] == '0' && KnownBlob[1] == 'c';
    var input := DecodeHex(KnownBlob).value;
    assert input[0] == DigitValue('0') * 16 + DigitValue('c');
  }

  /**
   * Changing the case of a letter digit in a blob is not detected: hex
   * decoding accepts both cases, so the tampered blob decrypts exactly as
   * the original does.
   */
  lemma CaseFlipUndetected(c: Codec, aead: Aead, blob: string, k: nat)
    requires k < |blob| && 'a' <= blob[k] <= 'f'
    ensures Decrypt(c, aead, blob[k := (blob[k] as int - 32) as char]) == Decrypt(c, aead, blob)
  {
    CaseFlipDecodesAlike(blob, k);
  }

  lemma HexConcat(a: string, b: string)
    requires IsHex(a) && IsHex(b)
    ensures IsHex(a + b)
  {
    assert forall i | |a| <= i < |a + b| :: (a + b)[i] == b[i - |a|];
  }
}
