/** Hexadecimal text, as Go's `encoding/hex` reads and writes it. */
module Hex {
  import opened Text

  type byte = x: nat | x < 256

  function HexDigit(n: nat): char
    requires n < 16
  {
    "0123456789abcdef"[n]
  }

  function DigitValue(c: char): (r: Option<nat>)
    ensures r.Some? ==> r.value < 16
  {
    if '0' <= c <= '9' then Some(c as int - '0' as int)
    else if 'a' <= c <= 'f' then Some(c as int - 'a' as int + 10)
    else if 'A' <= c <= 'F' then Some(c as int - 'A' as int + 10)
    else None
  }

  /** The digits in order, letters in either case, and no other character. */
  lemma DigitsInOrder(c: char)
    ensures forall n :: 0 <= n < 10 ==> DigitValue(DIGITS[n]) == Some(n)
    ensures forall n :: 0 <= n < 6 ==> DigitValue("abcdef"[n]) == DigitValue("ABCDEF"[n]) == Some(10 + n)
    ensures DigitValue(c).Some? <==> c in DIGITS || c in "abcdef" || c in "ABCDEF"
  {
    IsDigitCharacter(c);
    HexLetters(c);
    hide DIGITS;
    DecimalDigitValues();
    HexLetterValues();
  }

  lemma DecimalDigitValues()
    ensures forall n :: 0 <= n < 10 ==> DigitValue(DIGITS[n]) == Some(n)
  {
  }

  lemma HexLetterValues()
    ensures forall n :: 0 <= n < 6 ==> DigitValue("abcdef"[n]) == DigitValue("ABCDEF"[n]) == Some(10 + n)
  {
  }

  lemma HexLetters(c: char)
    ensures c in "abcdef" <==> 'a' <= c <= 'f'
    ensures c in "ABCDEF" <==> 'A' <= c <= 'F'
  {
  }

  /** `hex.EncodeToString`. */
  function EncodeHex(b: seq<byte>): string {
    if b == [] then "" else [HexDigit(b[0] / 16), HexDigit(b[0] % 16)] + EncodeHex(b[1..])
  }

  /** `hex.DecodeString`: pairs of digits of either case, or an error. */
  function DecodeHex(s: string): (r: Option<seq<byte>>)
    ensures r.Some? ==> |s| == 2 * |r.value|
  {
    if s == "" then Some([])
    else if |s| == 1 then None
    else
      match (DigitValue(s[0]), DigitValue(s[1]), DecodeHex(s[2..]))
      case (Some(h), Some(l), Some(rest)) => Some([16 * h + l] + rest)
      case _ => None
  }

  /** Each byte is written high digit first. */
  lemma ByteDigits(b: byte)
    ensures EncodeHex([b]) == ["0123456789abcdef"[b / 16], "0123456789abcdef"[b % 16]]
  {
    assert EncodeHex([]) == "";
  }

  predicate LowerHexChar(c: char) {
    '0' <= c <= '9' || 'a' <= c <= 'f'
  }

  lemma {:induction false} DecodeOfEncode(b: seq<byte>)
    ensures DecodeHex(EncodeHex(b)) == Some(b)
    ensures forall c :: c in EncodeHex(b) ==> LowerHexChar(c)
  {
    hide HexDigit, DigitValue;
    if b != [] {
      DecodeOfEncode(b[1..]);
      var s := EncodeHex(b);
      DigitOf(b[0] / 16);
      DigitOf(b[0] % 16);
      assert s[2..] == EncodeHex(b[1..]);
      assert [b[0]] + b[1..] == b;
    }
  }

  lemma DigitOf(n: nat)
    requires n < 16
    ensures DigitValue(HexDigit(n)) == Some(n) && LowerHexChar(HexDigit(n))
  {
  }

  /** Exactly the texts of even length in hexadecimal digits decode, and encoding what they
      decode to gives them back in lower case. */
  lemma {:induction false} EncodeOfDecode(s: string)
    ensures DecodeHex(s).Some? <==> |s| % 2 == 0 && forall c :: c in s ==> DigitValue(c).Some?
    ensures DecodeHex(s).Some? ==> EncodeHex(DecodeHex(s).value) == ToLower(s)
  {
    hide HexDigit, DigitValue, ToLower, EncodeHex;
    if |s| >= 2 {
      EncodeOfDecode(s[2..]);
      assert s == [s[0], s[1]] + s[2..];
      if DecodeHex(s).Some? {
        PairBack(s[0], s[1], s[2..], DecodeHex(s).value);
      }
    } else {
      assert |s| == 1 ==> DecodeHex(s) == None;
      assert s == "" ==> EncodeHex([]) == "" == ToLower(s) by { EmptyBack(); }
    }
  }

  lemma EmptyBack()
    ensures EncodeHex([]) == "" == ToLower("")
  {
  }

  lemma PairBack(h: char, l: char, rest: string, b: seq<byte>)
    requires DigitValue(h).Some? && DigitValue(l).Some? && DecodeHex(rest).Some?
    requires b == [16 * DigitValue(h).value + DigitValue(l).value] + DecodeHex(rest).value
    requires EncodeHex(DecodeHex(rest).value) == ToLower(rest)
    ensures EncodeHex(b) == ToLower([h, l] + rest)
  {
    hide HexDigit, DigitValue, DecodeHex;
    DigitBack(h);
    DigitBack(l);
    assert b[1..] == DecodeHex(rest).value;
    assert b[0] / 16 == DigitValue(h).value && b[0] % 16 == DigitValue(l).value;
    assert ToLower([h, l] + rest) == [Lower(h), Lower(l)] + ToLower(rest);
  }

  lemma DigitBack(c: char)
    requires DigitValue(c).Some?
    ensures HexDigit(DigitValue(c).value) == Lower(c)
  {
  }
}
