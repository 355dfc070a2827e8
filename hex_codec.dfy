/** Base16 as in section 8 of RFC 4648, in the form Apache Commons Codec's `Hex` gives it:
    `decodeHex` accepts upper- and lower-case digits, rejects an odd length before looking
    at any character, and otherwise reports the first character that is not a hex digit. */
module HexCodec {
  import opened Wrappers
  import opened JavaStrings

  /** An 8-bit value; Java's signed view of the same bits is not needed here. */
  newtype byte = x: int | 0 <= x < 256

  /** The two failures `decodeHex` reports as DecoderException. */
  datatype DecoderError =
    | OddNumberOfCharacters
    | IllegalHexCharacter(ch: char, index: nat)

  /** `Character.digit(c, 16)` restricted to ASCII. */
  function HexDigit(c: char): (r: Option<nat>)
    ensures r.Some? ==> r.value < 16
  {
    if '0' <= c <= '9' then Some(c as int - '0' as int)
    else if 'a' <= c <= 'f' then Some(c as int - 'a' as int + 10)
    else if 'A' <= c <= 'F' then Some(c as int - 'A' as int + 10)
    else None
  }

  /** The lower-case digit for a nibble, as `encodeHex` writes it. */
  function LowerHexChar(v: nat): (c: char)
    requires v < 16
    ensures HexDigit(c) == Some(v)
  {
    if v < 10 then ('0' as int + v) as char else ('a' as int + v - 10) as char
  }

  /** The upper-case digit for a nibble. */
  function UpperHexChar(v: nat): (c: char)
    requires v < 16
    ensures HexDigit(c) == Some(v)
    ensures LowerChar(c) == LowerHexChar(v)
  {
    if v < 10 then ('0' as int + v) as char else ('A' as int + v - 10) as char
  }

  /** `Hex.encodeHex`: two lower-case digits per byte, high nibble first. */
  function EncodeHex(bytes: seq<byte>): (s: string)
    ensures |s| == 2 * |bytes| && |s| % 2 == 0
  {
    if bytes == [] then []
    else [LowerHexChar(bytes[0] as int / 16), LowerHexChar(bytes[0] as int % 16)] + EncodeHex(bytes[1..])
  }

  /** The same encoding with upper-case digits. */
  function EncodeHexUpper(bytes: seq<byte>): (s: string)
    ensures |s| == 2 * |bytes| && |s| % 2 == 0
  {
    if bytes == [] then []
    else [UpperHexChar(bytes[0] as int / 16), UpperHexChar(bytes[0] as int % 16)] + EncodeHexUpper(bytes[1..])
  }

  /** The pair loop of `decodeHex` over an even-length text; `offset` is the index of
      `s[0]` in the whole input, as it appears in the error. */
  function DecodePairs(s: string, offset: nat): Result<seq<byte>, DecoderError>
    requires |s| % 2 == 0
  {
    if |s| == 0 then Ok([])
    else match HexDigit(s[0])
      case None => Err(IllegalHexCharacter(s[0], offset))
      case Some(high) =>
        match HexDigit(s[1])
        case None => Err(IllegalHexCharacter(s[1], offset + 1))
        case Some(low) =>
          match DecodePairs(s[2..], offset + 2)
          case Err(e) => Err(e)
          case Ok(rest) => Ok([(high * 16 + low) as byte] + rest)
  }

  /** `Hex.decodeHex(String)`. */
  function DecodeHex(s: string): Result<seq<byte>, DecoderError> {
    if |s| % 2 != 0 then Err(OddNumberOfCharacters) else DecodePairs(s, 0)
  }

  predicate IsHexText(s: string) {
    forall i :: 0 <= i < |s| ==> HexDigit(s[i]).Some?
  }

  /** The pair loop succeeds exactly on hex text, ... */
  lemma {:induction false} DecodePairsOkIff(s: string, offset: nat)
    requires |s| % 2 == 0
    ensures DecodePairs(s, offset).Ok? <==> IsHexText(s)
  {
    if |s| > 0 {
      DecodePairsOkIff(s[2..], offset + 2);
      assert forall i :: 2 <= i < |s| ==> s[i] == s[2..][i - 2];
    }
  }

  /** ... yields one byte per pair, which encodes back to the text lower-cased, ... */
  lemma {:induction false} DecodePairsValue(s: string, offset: nat)
    requires |s| % 2 == 0 && DecodePairs(s, offset).Ok?
    ensures |DecodePairs(s, offset).value| * 2 == |s|
    ensures EncodeHex(DecodePairs(s, offset).value) == AsciiLower(s)
  {
    if |s| > 0 {
      var high, low := HexDigit(s[0]).value, HexDigit(s[1]).value;
      var rest := DecodePairs(s[2..], offset + 2);
      DecodePairsValue(s[2..], offset + 2);
      var b := (high * 16 + low) as byte;
      var r := DecodePairs(s, offset).value;
      assert r == [b] + rest.value;
      assert r[1..] == rest.value;
      HexDigitInverse(s[0]);
      HexDigitInverse(s[1]);
      assert b as int / 16 == high && b as int % 16 == low;
      var lower := AsciiLower(s);
      assert lower == [lower[0], lower[1]] + AsciiLower(s[2..]);
    }
  }

  /** ... and otherwise names the first character that is not a hex digit, by its index in
      the whole input. */
  lemma {:induction false} DecodePairsError(s: string, offset: nat)
    requires |s| % 2 == 0 && DecodePairs(s, offset).Err?
    ensures var e := DecodePairs(s, offset).error;
      e.IllegalHexCharacter? && offset <= e.index < offset + |s| && s[e.index - offset] == e.ch &&
      HexDigit(e.ch).None? && IsHexText(s[..e.index - offset])
  {
    if HexDigit(s[0]).Some? && HexDigit(s[1]).Some? {
      var rest := DecodePairs(s[2..], offset + 2);
      DecodePairsError(s[2..], offset + 2);
      var e := rest.error;
      assert s[e.index - offset] == s[2..][e.index - offset - 2];
      var done := s[..e.index - offset];
      assert done[2..] == s[2..][..e.index - offset - 2];
      assert forall i :: 2 <= i < |done| ==> done[i] == done[2..][i - 2];
    }
  }

  /** A hex digit denotes the nibble whose lower-case digit is the digit lower-cased. */
  lemma HexDigitInverse(c: char)
    requires HexDigit(c).Some?
    ensures LowerHexChar(HexDigit(c).value) == LowerChar(c)
  {
  }

  /** Decoding gives half as many bytes as characters, and re-encoding them gives the input,
      lower-cased; decoding fails exactly on odd length or a non-hex character. */
  lemma DecodeHexCorrect(s: string)
    ensures DecodeHex(s).Ok? <==> |s| % 2 == 0 && IsHexText(s)
    ensures |s| % 2 != 0 ==> DecodeHex(s) == Err(OddNumberOfCharacters)
    ensures DecodeHex(s).Ok? ==> |DecodeHex(s).value| * 2 == |s| && EncodeHex(DecodeHex(s).value) == AsciiLower(s)
    ensures DecodeHex(s).Err? && |s| % 2 == 0 ==>
      var e := DecodeHex(s).error;
      e.IllegalHexCharacter? && e.index < |s| && s[e.index] == e.ch && HexDigit(e.ch).None? &&
      IsHexText(s[..e.index])
  {
    if |s| % 2 == 0 {
      DecodePairsOkIff(s, 0);
      if DecodeHex(s).Ok? {
        DecodePairsValue(s, 0);
      } else {
        DecodePairsError(s, 0);
      }
    }
  }

  lemma {:induction false} DecodePairsOfEncoding(bytes: seq<byte>, offset: nat)
    ensures DecodePairs(EncodeHex(bytes), offset) == Ok(bytes)
    ensures DecodePairs(EncodeHexUpper(bytes), offset) == Ok(bytes)
  {
    if bytes != [] {
      DecodePairsOfEncoding(bytes[1..], offset + 2);
      var b := bytes[0] as int;
      assert (b / 16) * 16 + b % 16 == b;
      var s := EncodeHex(bytes);
      assert s[2..] == EncodeHex(bytes[1..]);
      var u := EncodeHexUpper(bytes);
      assert u[2..] == EncodeHexUpper(bytes[1..]);
      assert bytes == [bytes[0]] + bytes[1..];
    }
  }

  /** Encoding then decoding is the identity, in either letter case. */
  lemma DecodeEncode(bytes: seq<byte>)
    ensures DecodeHex(EncodeHex(bytes)) == Ok(bytes)
    ensures DecodeHex(EncodeHexUpper(bytes)) == Ok(bytes)
  {
    DecodePairsOfEncoding(bytes, 0);
    var lower, upper := EncodeHex(bytes), EncodeHexUpper(bytes);
    assert DecodeHex(lower) == DecodePairs(lower, 0);
    assert DecodeHex(upper) == DecodePairs(upper, 0);
  }
}
