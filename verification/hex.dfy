/**
 * Go's `encoding/hex` as the codec uses it: `EncodeToString` writes two
 * lower-case digits per byte, high nibble first; `DecodeString` accepts
 * digits of either case and stops at the first problem, reporting the
 * offending character, or `OddLength` when every character is a digit but
 * one is left over.
 */
module Hex {
  import opened Results
  import opened Bytes

  datatype HexError = InvalidByte(c: char) | OddLength

  predicate IsHexDigit(c: char) {
    '0' <= c <= '9' || 'a' <= c <= 'f' || 'A' <= c <= 'F'
  }

  predicate IsLowerHexDigit(c: char) {
    '0' <= c <= '9' || 'a' <= c <= 'f'
  }

  /** Text that `DecodeString` accepts: an even number of hex digits. */
  predicate IsHex(s: string) {
    |s| % 2 == 0 && forall i :: 0 <= i < |s| ==> IsHexDigit(s[i])
  }

  /** Text that `EncodeToString` can produce. */
  predicate IsLowerHex(s: string) {
    IsHex(s) && forall i :: 0 <= i < |s| ==> IsLowerHexDigit(s[i])
  }

  function DigitValue(c: char): (v: nat)
    requires IsHexDigit(c)
    ensures v < 16
  {
    if '0' <= c <= '9' then c as int - '0' as int
    else if 'a' <= c <= 'f' then c as int - 'a' as int + 10
    else c as int - 'A' as int + 10
  }

  /** The entry of the table "0123456789abcdef" for nibble `v`. */
  function DigitChar(v: nat): (c: char)
    requires v < 16
    ensures IsLowerHexDigit(c) && DigitValue(c) == v
  {
    if v < 10 then ('0' as int + v) as char else ('a' as int + v - 10) as char
  }

  lemma LowerDigitRoundTrip(c: char)
    requires IsLowerHexDigit(c)
    ensures DigitChar(DigitValue(c)) == c
  {
  }

  function EncodeHex(b: seq<byte>): (s: string)
    ensures |s| == 2 * |b|
    ensures IsLowerHex(s)
  {
    if b == [] then ""
    else [DigitChar(b[0] / 16), DigitChar(b[0] % 16)] + EncodeHex(b[1..])
  }

  /** Decoding succeeds exactly on an even number of hex digits. */
  function DecodeHex(s: string): (r: Result<seq<byte>, HexError>)
    ensures r.Success? <==> IsHex(s)
    ensures r.Success? ==> 2 * |r.value| == |s|
  {
    if |s| == 0 then Success([])
    else if |s| == 1 then
      if IsHexDigit(s[0]) then Failure(OddLength) else Failure(InvalidByte(s[0]))
    else if !IsHexDigit(s[0]) then Failure(InvalidByte(s[0]))
    else if !IsHexDigit(s[1]) then Failure(InvalidByte(s[1]))
    else
      assert IsHex(s) <==> IsHex(s[2..]) by {
        assert forall i | 2 <= i < |s| :: s[i] == s[2..][i - 2];
      }
      var rest :- DecodeHex(s[2..]);
      Success([DigitValue(s[0]) * 16 + DigitValue(s[1])] + rest)
  }

  /** Decoding undoes encoding. */
  lemma {:induction false} DecodeEncode(b: seq<byte>)
    ensures DecodeHex(EncodeHex(b)) == Success(b)
  {
    if b != [] {
      var s := EncodeHex(b);
      assert s[2..] == EncodeHex(b[1..]);
      DecodeEncode(b[1..]);
      assert b == [b[0]] + b[1..];
    }
  }

  /** Encoding undoes decoding of lower-case text. */
  lemma {:induction false} EncodeDecode(s: string)
    requires IsLowerHex(s)
    ensures DecodeHex(s).Success? && EncodeHex(DecodeHex(s).value) == s
  {
    if |s| > 0 {
      var t := s[2..];
      LowerHexSuffix(s);
      EncodeDecode(t);
      var b := DecodeHex(s).value;
      assert b[1..] == DecodeHex(t).value;
      EncodePair(s[0], s[1]);
      assert EncodeHex(b) == [s[0], s[1]] + EncodeHex(b[1..]);
      assert s == [s[0], s[1]] + t;
    }
  }

  lemma LowerHexSuffix(s: string)
    requires IsLowerHex(s) && |s| >= 2
    ensures IsLowerHex(s[2..])
  {
    forall i | 0 <= i < |s[2..]| ensures IsLowerHexDigit(s[2..][i]) {
      assert s[2..][i] == s[i + 2];
    }
  }

  /** The byte two lower-case digits decode to encodes back to them. */
  lemma EncodePair(c0: char, c1: char)
    requires IsLowerHexDigit(c0) && IsLowerHexDigit(c1)
    ensures var v := DigitValue(c0) * 16 + DigitValue(c1);
            DigitChar(v / 16) == c0 && DigitChar(v % 16) == c1
  {
    LowerDigitRoundTrip(c0);
    LowerDigitRoundTrip(c1);
  }

  /** The error names the first character that is not a hex digit. */
  lemma {:induction false} DecodeHexInvalidByte(s: string, k: nat)
    requires k < |s| && !IsHexDigit(s[k])
    requires forall j :: 0 <= j < k ==> IsHexDigit(s[j])
    ensures DecodeHex(s) == Failure(InvalidByte(s[k]))
  {
    if k >= 2 {
      assert s[2..][k - 2] == s[k];
      forall j | 0 <= j < k - 2 ensures IsHexDigit(s[2..][j]) {
        assert s[2..][j] == s[j + 2];
      }
      DecodeHexInvalidByte(s[2..], k - 2);
    }
  }

  /** Hex digits only, but one left over: a length error. */
  lemma {:induction false} DecodeHexOddLength(s: string)
    requires |s| % 2 == 1
    requires forall j :: 0 <= j < |s| ==> IsHexDigit(s[j])
    ensures DecodeHex(s) == Failure(OddLength)
  {
    if |s| > 1 {
      forall j | 0 <= j < |s| - 2 ensures IsHexDigit(s[2..][j]) {
        assert s[2..][j] == s[j + 2];
      }
      DecodeHexOddLength(s[2..]);
    }
  }

  /** Upper-casing one digit of a text does not change how it decodes. */
  lemma {:induction false} CaseFlipDecodesAlike(s: string, k: nat)
    requires k < |s| && 'a' <= s[k] <= 'f'
    ensures DecodeHex(s[k := (s[k] as int - 32) as char]) == DecodeHex(s)
  {
    var t := s[k := (s[k] as int - 32) as char];
    if |s| >= 2 && k >= 2 && IsHexDigit(s[0]) && IsHexDigit(s[1]) {
      assert t[2..] == s[2..][k - 2 := t[k]];
      CaseFlipDecodesAlike(s[2..], k - 2);
    } else if |s| >= 2 && k < 2 {
      assert t[2..] == s[2..];
    }
  }
}
