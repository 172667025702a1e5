/** `decodeHexEscapes` (utils/deobfuscationLogic.ts): one global regular
    expression replacement of `\xHH` (two hexadecimal digits, either case) by
    the character whose code is `0xHH`. */
module HexDecode {

  predicate IsHexDigit(c: char) {
    '0' <= c <= '9' || 'a' <= c <= 'f' || 'A' <= c <= 'F'
  }

  /** The value of one hex digit, in either letter case. */
  function HexValue(c: char): (v: nat)
    requires IsHexDigit(c)
    ensures v < 16
  {
    if '0' <= c <= '9' then c as int - '0' as int
    else if 'a' <= c <= 'f' then c as int - 'a' as int + 10
    else c as int - 'A' as int + 10
  }

  /** Whether a well-formed escape `\xHH` starts at position `i` of `s`. */
  predicate EscapeAt(s: string, i: nat) {
    i + 4 <= |s| && s[i] == '\\' && s[i + 1] == 'x' && IsHexDigit(s[i + 2]) && IsHexDigit(s[i + 3])
  }

  /** `decodeHexEscapes`: the regular expression is tried at each position
      from left to right; a match is replaced and scanning resumes after it,
      so the replacement text is never looked at again. */
  function DecodeHexEscapes(code: string): (r: string)
    ensures |r| <= |code|
  {
    if EscapeAt(code, 0) then
      [(16 * HexValue(code[2]) + HexValue(code[3])) as char] + DecodeHexEscapes(code[4..])
    else if |code| == 0 then ""
    else [code[0]] + DecodeHexEscapes(code[1..])
  }

  /** Text without a well-formed escape passes through unchanged. */
  lemma {:induction false} NoEscapeUnchanged(code: string)
    requires forall i :: 0 <= i < |code| ==> !EscapeAt(code, i)
    ensures DecodeHexEscapes(code) == code
  {
    if |code| > 0 {
      assert !EscapeAt(code, 0);
      forall i | 0 <= i < |code[1..]| ensures !EscapeAt(code[1..], i) {
        assert !EscapeAt(code, i + 1);
      }
      NoEscapeUnchanged(code[1..]);
    }
  }

  /** A backslash produced by decoding is not the start of a new escape:
      `\x5cx41` becomes `\x41`, not `A`. */
  lemma DecodingIsNotRecursive()
    ensures DecodeHexEscapes("\\x5cx41") == "\\x41"
  {
    assert EscapeAt("\\x5cx41", 0);
    assert "\\x5cx41"[4..] == "x41";
    NoEscapeUnchanged("x41");
  }

  // -------------------------------------------------------- round trip

  /** The lower-case hexadecimal digit of value `n`. */
  function HexDigit(n: nat): (c: char)
    requires n < 16
    ensures IsHexDigit(c) && HexValue(c) == n
  {
    if n < 10 then ('0' as int + n) as char else ('a' as int + n - 10) as char
  }

  /** Every character written as `\xHH`. */
  function EncodeHexEscapes(s: string): string
    requires forall i :: 0 <= i < |s| ==> s[i] as int < 256
  {
    if |s| == 0 then ""
    else ['\\', 'x', HexDigit(s[0] as int / 16), HexDigit(s[0] as int % 16)] + EncodeHexEscapes(s[1..])
  }

  /** Decoding the escaped form of any text of characters below 256 gives
      the text back, whatever escapes the text itself contains. */
  lemma {:induction false} DecodeEncode(s: string)
    requires forall i :: 0 <= i < |s| ==> s[i] as int < 256
    ensures DecodeHexEscapes(EncodeHexEscapes(s)) == s
  {
    if |s| > 0 {
      var e := EncodeHexEscapes(s);
      var hi, lo := s[0] as int / 16, s[0] as int % 16;
      assert EscapeAt(e, 0);
      assert e[4..] == EncodeHexEscapes(s[1..]);
      DecodeEncode(s[1..]);
      assert (16 * hi + lo) as char == s[0];
    }
  }
}
