/** The ways an AES-GCM codec call can fail. */
module CodecErrors {
  import opened Bytes
  import opened Hex

  datatype Error =
    | InvalidKeyEncoding(keyError: HexError)     // the key string is not hex
    | KeyTooShort                                // fewer than 16 key bytes
    | RandomnessUnavailable                      // the random source ran dry
    | InvalidHexEncoding(blobError: HexError)    // the blob is not hex
    | UnsupportedNonceLength(declared: byte)     // the frame's first byte is not 12
    | MalformedFrame                             // too short to hold a frame
    | AuthenticationFailed                       // the cipher rejected the tag
}
