# AES-GCM framed codec

A Dafny model of the `AesGCM` codec of the `kit` utility collection
(`crypto/aes/aes.go`). A codec is built from a hex key string and turns a
plaintext into a lower-case hex blob and back. Each call cuts the key to its
first 16 bytes and seals the plaintext with AES-128-GCM under a fresh 12-byte
nonce. The nonce goes into the middle of the blob, not at either end:

    [12] [first 12 bytes of ciphertext‖tag] [nonce] [rest of ciphertext‖tag]

Files and modules:

- `results.dfy`: `Results` (Option and Result) and `Bytes` (Go's `byte`, zeroed buffers).
- `hex.dfy`: `Hex`, Go's `encoding/hex` as the codec uses it.
- `aead.dfy`: `AbstractAead`. AES-GCM is modelled as any pair of `seal`/`open` functions that keep three promises, for a 16-byte key and a 12-byte nonce:
  - sealing adds a 16-byte tag;
  - opening a sealed text returns the plaintext;
  - `open` only accepts texts one tag longer than what it returns.

  The type `Aead` holds exactly such pairs. Its witness, `NullSeal`/`NullOpen`, is a cipher with a zero tag and no secrecy. It exists only to show the three promises can all hold together.
- `errors.dfy`: `CodecErrors`, the ways a call can fail.
- `framing.dfy`: `Framing`, covering `copyWithRange`, the framing done by `EncryptedCode` and the unframing done by `DecryptedCode`.
- `codec.dfy`: `AesGcm`, covering `NewAesGCM`, `EncryptedCode`, `DecryptedCode` and the properties that tie them together.

Inputs made explicit: the random source is an `entropy` parameter, meaning the bytes
`crypto/rand` would deliver. `io.ReadFull` takes the first 12 of them, and
the call fails with `RandomnessUnavailable` if there are fewer. The cipher is
the `aead` parameter. The plaintext, a Go string, is treated as its bytes
(`seq<byte>`); the key text and the blob are hex text (`string`).

Where the model departs from the code:

- `DecryptedCode` panics in two cases: an empty blob (it reads `input[0]`), and a
  blob whose first byte is 12 but which is shorter than 25 bytes. In the second
  case a nonce or ciphertext slice goes out of range at line 107 or 114. Which
  line depends on the capacity `hex.DecodeString` leaves behind; the panic condition is the same.
  `Framing.UnframeAsWritten` models these panics as they are. `Framing.Unframe`, which
  `Decrypt` uses, returns `MalformedFrame` in their place. Every other input is handled as the Go
  code handles it.
- Errors are typed (`CodecErrors.Error`). The Go code returns an empty
  string together with the error; a `Failure` carries no plaintext at all.

Where the code does not keep a promise of its design:

- The design promises that changing any single character of a blob is
  detected. The code does not keep this: Go's hex decoder accepts both cases,
  so upper-casing a letter digit leaves the decoded bytes, and so the
  decryption, unchanged. The model does what the code does
  (`Hex.CaseFlipDecodesAlike`, `AesGcm.CaseFlipUndetected`).

## Model

| member | source | states |
|---|---|---|
| Hex.EncodeHex | crypto/aes/aes.go:70 | the blob text has two characters per byte, all lower-case hex digits |
| Hex.DecodeHex | crypto/aes/aes.go:18-21 | decoding succeeds exactly when the text is an even number of hex digits of either case, and then yields half as many bytes |
| Hex.DecodeEncode | crypto/aes/aes.go:80-83 | decoding the hex text of any byte sequence gives those bytes back |
| Hex.EncodeDecode | crypto/aes/aes.go:70 | every lower-case hex text of even length is the encoding of what it decodes to |
| Hex.DecodeHexInvalidByte | crypto/aes/aes.go:18-21 | a decoding error names the first character that is not a hex digit |
| Hex.DecodeHexOddLength | crypto/aes/aes.go:18-21 | a text of hex digits with one left over fails with a length error |
| Hex.CaseFlipDecodesAlike | crypto/aes/aes.go:80-83 | upper-casing one letter digit does not change the decoding, error or bytes |
| Framing.CopyWithRange | crypto/aes/aes.go:73-77 | the destination keeps its length; the positions from destI on that fit receive src[srcI..], and nothing else changes |
| Framing.Frame | crypto/aes/aes.go:59-69 | the frame is 1 + 12 + len(ciphertext) bytes: byte 0 is 12, bytes 1..13 the first 12 ciphertext bytes, bytes 13..25 the nonce, the rest the rest of the ciphertext |
| Framing.UnframeAsWritten | crypto/aes/aes.go:96-114 | the Go unframing panics exactly on an empty blob or a blob declaring 12 that is shorter than 25 bytes; a byte 0 other than 12 is an error naming it; otherwise the nonce is bytes 13..25 and the ciphertext bytes 1..13 followed by bytes 25.. |
| Framing.Unframe | crypto/aes/aes.go:96-114 | unframing succeeds exactly on blobs of at least 25 bytes starting with 12; byte 0 other than 12 is an UnsupportedNonceLength error, any other short blob an error; the rebuilt ciphertext has len(input) - 25 + 12 bytes |
| Framing.UnframeFrame | crypto/aes/aes.go:106-114 | unframing a frame returns exactly the nonce and ciphertext it was built from |
| Framing.FrameUnframe | crypto/aes/aes.go:59-69 | every blob that unframes is the frame of what it unframes to, so framing and unframing are inverse bijections |
| Framing.UnframeInjective | crypto/aes/aes.go:106-126 | two different well-formed blobs hand the cipher different (nonce, ciphertext) pairs |
| Framing.ShortFramePanics | crypto/aes/aes.go:96-107 | the blobs [] and [0x0c] make the Go code panic and the corrected unframing report MalformedFrame |
| AesGcm.NewCodec | crypto/aes/aes.go:17-25 | construction fails, with the decoder's error as a key-encoding error, exactly when the key string is not valid hex; otherwise the stored key is exactly the decoded bytes, whatever their number |
| AesGcm.SizeKey | crypto/aes/aes.go:28-38 | the key is refused when shorter than 16 bytes; otherwise the cipher key has exactly 16 bytes and is the stored key's prefix |
| AesGcm.ReadNonce | crypto/aes/aes.go:45-49 | the nonce is the random source's first 12 bytes; fewer bytes is a RandomnessUnavailable error |
| AesGcm.Encrypt | crypto/aes/aes.go:27-71 | encryption succeeds exactly when the key has 16 bytes or more and the random source yields 12; a short key is reported before randomness; the blob is lower-case hex of 2 * (29 + len(plaintext)) characters |
| AesGcm.Decrypt | crypto/aes/aes.go:79-132 | a successful decryption came from valid hex of exactly 2 * (29 + len(plaintext)) characters |
| AesGcm.EncryptLayout | crypto/aes/aes.go:35-70 | the blob decodes to the frame of the random source's first 12 bytes and of the plaintext sealed under the first 16 key bytes, so it starts with "0c" |
| AesGcm.DecryptEncrypt | crypto/aes/aes_test.go:69-81 | with a key of at least 16 bytes and a working random source, decrypting an encryption gives back the plaintext |
| AesGcm.RoundTripFromHexKey | crypto/aes/aes_test.go:62-81 | the same round trip starting from a hex key string of at least 32 digits |
| AesGcm.ShortKeyRejectedOnEncrypt | crypto/aes/aes.go:28-33 | a key under 16 bytes makes encryption fail with KeyTooShort |
| AesGcm.ShortKeyRejectedOnDecrypt | crypto/aes/aes.go:80-89 | a key under 16 bytes makes decryption of any valid hex blob fail with KeyTooShort; an invalid blob is reported as such first |
| AesGcm.DecryptErrors | crypto/aes/aes.go:79-104 | decryption reports invalid hex first; with a usable key, a byte 0 other than 12 gives UnsupportedNonceLength and a blob too short for a frame gives MalformedFrame |
| AesGcm.DecryptOpensFrame | crypto/aes/aes.go:106-131 | on valid hex, a usable key and a well-formed frame, decryption returns the plaintext the cipher's open accepts, or AuthenticationFailed when open rejects it |
| AesGcm.AuthenticationFailure | crypto/aes/aes.go:126-129 | an authentication failure happens only for valid hex, a usable key and a well-formed frame whose pair the cipher rejected |
| AesGcm.DistinctNoncesDistinctBlobs | crypto/aes/aes.go:45-67 | encryptions under different nonces never give the same blob |
| AesGcm.OddKeyRejected | crypto/aes/aes_test.go:58 | the key string "123" is refused at construction with an odd-length error |
| AesGcm.WrongNonceLengthRejected | crypto/aes/aes_test.go:25 | the blob "123456" decodes to first byte 0x12 and is refused as an unsupported nonce length |
| AesGcm.KnownBlobShape | crypto/aes/aes_test.go:24 | the recorded blob is valid hex of 33 bytes starting with 12, holds 20 bytes of ciphertext and tag, and can only open to a 4-byte plaintext like "test" |
| AesGcm.CaseFlipUndetected | crypto/aes/aes.go:80-83 | upper-casing a letter digit of a blob leaves its decryption unchanged |

## Findings

| source | as written | input that shows it | evidently intended | confidence | as-written member | corrected member |
|---|---|---|---|---|---|---|
| crypto/aes/aes.go:96-114 | reads input[0] and slices the nonce and the ciphertext's tail with no length check | the blobs "" and "0c" with a key of 16 bytes or more: both are valid hex, so the code reaches the unframing and panics | return an error for a blob too short to hold a frame, as it does for a wrong nonce length | high, not executed | Framing.UnframeAsWritten (exhibited by Framing.ShortFramePanics) | Framing.Unframe |

## Left out

- The AES block cipher and GCM: foreign library code. It is modelled only through the `Aead` promises, so nothing about the real cipher's output is proved. The recorded test vector can only be checked for shape.
- `aes.NewCipher` and `cipher.NewGCMWithNonceSize` errors: they cannot happen for a 16-byte key and nonce size 12, so they are not modelled.
- GCM's limit on plaintext length (Seal panics past about 64 GiB) is not modelled.
- `crypto/rand`: randomness is the `entropy` parameter. That nonces never repeat is a property of the random source and is not modelled. What is proved is that distinct nonces give distinct blobs.
- Tamper detection beyond the framing rests on the cipher's tag check, which the `Aead` promises do not include (it is a security property, not a functional one). What is proved is that the framing hands every different well-formed blob to the cipher as a different pair.
- Go's hex decoder works on bytes. The model works on characters, so a non-ASCII character is reported as itself rather than as its first UTF-8 byte.
- Slice capacity: the model takes a slice's capacity to be its length.
- The rest of the collection (web, validator, sql, log, mail, config, uidgen, `crypto/crypto.go`) is not part of this model.
