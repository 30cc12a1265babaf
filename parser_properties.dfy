/**
 * What fixedpoint_create_from_hex computes, stated against the literal's
 * digits: which texts are rejected, the sign rule, the position of every
 * digit in the two 64-bit words, and the exact value of the literal.
 */
module ParserProperties {
  import opened Representation
  import opened HexDigits
  import opened HexParser

  /** The result is valid exactly for well-formed literals; every other text gives Error with both words 0. */
  lemma FromHexValidIff(s: seq<char>)
    ensures IsValid(FromHex(s)) <==> WellFormedLiteral(s)
    ensures !WellFormedLiteral(s) ==> FromHex(s) == Fixedpoint(0, 0, Error)
    ensures FromHex(s).tag in {ValidNonnegative, ValidNegative, Error}
  {
  }

  /**
   * On a well-formed literal the sign comes from the leading '-' alone, even
   * when the magnitude is zero: the parser does not canonicalise zero.
   */
  lemma FromHexSign(s: seq<char>)
    requires WellFormedLiteral(s)
    ensures FromHex(s).tag == ValidNegative <==> |s| > 0 && s[0] == '-'
    ensures FromHex(s).tag == ValidNonnegative <==> !(|s| > 0 && s[0] == '-')
  {
  }

  /** "-0" parses to a zero tagged negative. */
  lemma MinusZeroIsNegative()
    ensures FromHex("-0") == Fixedpoint(0, 0, ValidNegative)
    ensures IsZero(FromHex("-0")) && FromHex("-0").tag != ValidNonnegative
  {
    var lit := Literal(true, "0", false, []);
    assert Text(lit) == "-0";
    ZeroText();
    FromHexOfParts(lit);
    HexValZeros(MaxDigits);
    assert [] + Zeros(MaxDigits) == Zeros(MaxDigits);
  }

  /** The texts with no digits at all are accepted and read as zero, with the sign of the text. */
  lemma EmptyTextIsZero()
    ensures FromHex("") == Create(0)
  {
  }

  lemma LonePointIsZero()
    ensures FromHex(".") == Create(0)
  {
  }

  lemma LoneMinusIsNegativeZero()
    ensures FromHex("-") == Fixedpoint(0, 0, ValidNegative)
  {
    DigitlessText(Literal(true, "", false, []));
    assert Text(Literal(true, "", false, [])) == "-";
  }

  /** Any text without digits, with or without sign and point, reads as zero with the text's sign. */
  lemma DigitlessText(lit: Literal)
    requires lit.whole == [] && lit.frac == []
    ensures FromHex(Text(lit)) == Fixedpoint(0, 0, if lit.negative then ValidNegative else ValidNonnegative)
  {
    FromHexOfParts(lit);
    HexValZeros(MaxDigits);
    assert [] + Zeros(MaxDigits) == Zeros(MaxDigits);
  }

  /**
   * The whole word holds the whole digits as a numeral: digit i from the left
   * is nibble |H| - 1 - i, and every nibble above the digits is 0.
   */
  lemma FromHexWholeNibbles(s: seq<char>, j: nat)
    requires WellFormedLiteral(s)
    ensures FromHex(s).whole == HexVal(WholeDigits(s))
    ensures j < |WholeDigits(s)| ==>
      Nibble(FromHex(s).whole, |WholeDigits(s)| - 1 - j) == DigitVal(WholeDigits(s)[j])
    ensures j >= |WholeDigits(s)| ==> Nibble(FromHex(s).whole, j) == 0
  {
    FromHexWholeWord(s);
    NumeralNibbles(WholeDigits(s), FromHex(s).whole, j);
  }

  /**
   * The fraction word holds the fraction digits from its most significant end:
   * digit i from the left is nibble 15 - i, and the 16 - |F| nibbles below the
   * last digit are 0. So ".8" is exactly one half.
   */
  lemma FromHexFracNibbles(s: seq<char>, j: nat)
    requires WellFormedLiteral(s)
    ensures j < |FracDigits(s)| ==> Nibble(FromHex(s).frac, MaxDigits - 1 - j) == DigitVal(FracDigits(s)[j])
    ensures j < MaxDigits - |FracDigits(s)| ==> Nibble(FromHex(s).frac, j) == 0
  {
    FromHexFracPadded(s);
    PaddedNibbles(FracDigits(s), FromHex(s).frac, j);
  }

  /** The nibbles of the value w of a numeral h: its digits, then zeros above them. */
  lemma NumeralNibbles(h: seq<char>, w: nat, j: nat)
    requires IsHexDigits(h) && w == HexVal(h)
    ensures j < |h| ==> Nibble(w, |h| - 1 - j) == DigitVal(h[j])
    ensures j >= |h| ==> Nibble(w, j) == 0
  {
    if j < |h| {
      HexValNibble(h, j);
    } else {
      NibbleAbove(w, |h|, j);
    }
  }

  /** The nibbles of the value w of fraction digits f padded to 16: the digits from the top, then zeros. */
  lemma PaddedNibbles(f: seq<char>, w: nat, j: nat)
    requires IsHexDigits(f) && |f| <= MaxDigits
    requires IsHexDigits(f + Zeros(MaxDigits - |f|)) && w == HexVal(f + Zeros(MaxDigits - |f|))
    ensures j < |f| ==> Nibble(w, MaxDigits - 1 - j) == DigitVal(f[j])
    ensures j < MaxDigits - |f| ==> Nibble(w, j) == 0
  {
    if j < |f| {
      PaddedDigit(f, j);
    }
    if j < MaxDigits - |f| {
      PaddedZero(f, j);
    }
  }

  /** The whole word is the numeral of the whole digits. */
  lemma FromHexWholeWord(s: seq<char>)
    requires WellFormedLiteral(s)
    ensures IsHexDigits(WholeDigits(s)) && |WholeDigits(s)| <= MaxDigits
    ensures FromHex(s).whole == HexVal(WholeDigits(s))
  {
    WellFormedIsShort(s);
  }

  /** The fraction word is the numeral of the fraction digits padded to 16. */
  lemma FromHexFracPadded(s: seq<char>)
    requires WellFormedLiteral(s)
    ensures IsHexDigits(FracDigits(s)) && |FracDigits(s)| <= MaxDigits
    ensures IsHexDigits(FracDigits(s) + Zeros(MaxDigits - |FracDigits(s)|))
    ensures FromHex(s).frac == HexVal(FracDigits(s) + Zeros(MaxDigits - |FracDigits(s)|))
  {
  }

  /** A fraction digit keeps its place from the top of the padded numeral. */
  lemma PaddedDigit(f: seq<char>, j: nat)
    requires IsHexDigits(f) && j < |f| <= MaxDigits
    ensures IsHexDigits(f + Zeros(MaxDigits - |f|))
    ensures Nibble(HexVal(f + Zeros(MaxDigits - |f|)), MaxDigits - 1 - j) == DigitVal(f[j])
  {
    var padded := f + Zeros(MaxDigits - |f|);
    HexDigitsConcat(f, Zeros(MaxDigits - |f|));
    HexValNibble(padded, j);
    assert padded[j] == f[j];
  }

  /** The padding digits are zero nibbles at the bottom of the padded numeral. */
  lemma PaddedZero(f: seq<char>, j: nat)
    requires IsHexDigits(f) && j < MaxDigits - |f|
    ensures IsHexDigits(f + Zeros(MaxDigits - |f|))
    ensures Nibble(HexVal(f + Zeros(MaxDigits - |f|)), j) == 0
  {
    var padded := f + Zeros(MaxDigits - |f|);
    HexDigitsConcat(f, Zeros(MaxDigits - |f|));
    var i := MaxDigits - 1 - j;
    HexValNibble(padded, i);
    ZerosAt(MaxDigits - |f|, i - |f|);
    assert padded[i] == Zeros(MaxDigits - |f|)[i - |f|];
    assert DigitVal('0') == 0;
  }

  lemma ValueArithmetic(x: int, y: int, p: int, q: int, c: int, scaled: int, all: int)
    requires q * p == c && all == x * p + y && scaled == x * c + y * q
    ensures scaled * p == all * c
  {
    calc {
      scaled * p;
      x * c * p + y * (q * p);
      x * c * p + y * c;
      (x * p + y) * c;
    }
  }

  /** The two words built from digit runs h and f, read back as one numeral h f. */
  lemma WordsOfNumeral(h: seq<char>, f: seq<char>, m: int)
    requires IsHexDigits(h) && IsHexDigits(f) && |f| <= MaxDigits
    requires m == HexVal(h) * TWO_64 + HexVal(f) * Pow16(MaxDigits - |f|)
    ensures IsHexDigits(h + f)
    ensures m * Pow16(|f|) == HexVal(h + f) * TWO_64
  {
    HexValAppend(h, f);
    ShiftedWords(HexVal(h), HexVal(f), HexVal(h + f), |f|, m);
  }

  /** The arithmetic of WordsOfNumeral: x y read as one numeral, against x and y placed in two words. */
  lemma ShiftedWords(x: int, y: int, xy: int, k: nat, m: int)
    requires k <= MaxDigits
    requires xy == x * Pow16(k) + y && m == x * TWO_64 + y * Pow16(MaxDigits - k)
    ensures m * Pow16(k) == xy * TWO_64
  {
    Pow16Add(MaxDigits - k, k);
    assert MaxDigits - k + k == 16;
    Pow16Sixteen();
    ValueArithmetic(x, y, Pow16(k), Pow16(MaxDigits - k), TWO_64, m, xy);
  }

  /**
   * The parsed number is exactly the literal's value: its magnitude, in units
   * of 2^-64, times 16^|F| is the numeral H F (the digits with the point
   * removed) times 2^64. Nothing is rounded.
   */
  lemma FromHexValue(s: seq<char>)
    requires WellFormedLiteral(s)
    ensures IsHexDigits(WholeDigits(s) + FracDigits(s))
    ensures Scaled(FromHex(s)) * Pow16(|FracDigits(s)|)
            == HexVal(WholeDigits(s) + FracDigits(s)) * TWO_64
  {
    var h, f := WholeDigits(s), FracDigits(s);
    FromHexFields(s);
    WordsOfNumeral(h, f, Scaled(FromHex(s)));
  }

  /** The two words of a well-formed literal's result. */
  lemma FromHexFields(s: seq<char>)
    requires WellFormedLiteral(s)
    ensures Scaled(FromHex(s))
            == HexVal(WholeDigits(s)) * TWO_64 + HexVal(FracDigits(s)) * Pow16(MaxDigits - |FracDigits(s)|)
  {
    WellFormedIsShort(s);
    DecodeFields(s);
  }

  /** Parsing the text of well-formed parts ["-"] H ["." F]. */
  lemma FromHexOfParts(lit: Literal)
    requires WellFormedParts(lit)
    ensures FromHex(Text(lit)).whole == HexVal(lit.whole)
    ensures FromHex(Text(lit)).frac == FracValue(lit.frac)
    ensures FromHex(Text(lit)).tag == if lit.negative then ValidNegative else ValidNonnegative
  {
    SplitOfText(lit);
    assert WellFormedLiteral(Text(lit));
    WellFormedIsShort(Text(lit));
  }

  /** The literal of a valid number with all 16 digits on each side, lower case. */
  function FullWidthText(v: Fixedpoint): (s: seq<char>)
    requires IsValid(v)
    ensures |s| == (if v.tag == ValidNegative then 34 else 33)
  {
    Pow16Sixteen();
    Text(Literal(v.tag == ValidNegative, ToHex(v.whole, MaxDigits), true, ToHex(v.frac, MaxDigits)))
  }

  /**
   * Every valid number, including a zero tagged negative, is the result of
   * parsing some literal: the full-width text parses back to it.
   */
  lemma FromHexFullWidth(v: Fixedpoint)
    requires IsValid(v)
    ensures FromHex(FullWidthText(v)) == v
  {
    Pow16Sixteen();
    var lit := Literal(v.tag == ValidNegative, ToHex(v.whole, MaxDigits), true, ToHex(v.frac, MaxDigits));
    FromHexOfParts(lit);
    HexValToHex(v.whole, MaxDigits);
    HexValToHex(v.frac, MaxDigits);
    assert Zeros(0) == [];
    assert lit.frac + Zeros(0) == lit.frac;
  }
}
