/**
 * Hexadecimal literals of the form ["-"] digits ["." digits]:
 * the validator isValidHex, the decoder parseHex and their wrapper
 * fixedpoint_create_from_hex. A C string is modelled by the characters
 * before its terminator.
 */
module HexParser {
  import opened Representation
  import opened HexDigits

  /** The length guard of fixedpoint_create_from_hex: "-", 16 digits, ".", 16 digits. */
  const MaxLiteralLength: nat := 34

  /** The most digits allowed on either side of the point. */
  const MaxDigits: nat := 16

  /** The index where the whole digits begin: 1 after a leading '-', otherwise 0. */
  function Start(s: seq<char>): (k: nat)
    ensures k <= |s|
    ensures k == 1 <==> |s| > 0 && s[0] == '-'
  {
    if |s| > 0 && s[0] == '-' then 1 else 0
  }

  /** The index of the first '.' in s, or |s| when there is none (strchr returning NULL). */
  function Point(s: seq<char>): (k: nat)
    ensures k <= |s|
    ensures k < |s| ==> s[k] == '.'
    ensures forall j :: 0 <= j < k ==> s[j] != '.'
  {
    if s == [] || s[0] == '.' then 0 else 1 + Point(s[1..])
  }

  /** The first '.' is where it is: a '.' preceded by no '.', or the end of a text without one. */
  lemma PointAt(s: seq<char>, k: nat)
    requires k <= |s| && (k < |s| ==> s[k] == '.')
    requires forall j :: 0 <= j < k ==> s[j] != '.'
    ensures Point(s) == k
  {
  }

  /** The digits before the point, after the sign. */
  function WholeDigits(s: seq<char>): seq<char> {
    s[Start(s)..Point(s)]
  }

  predicate HasPoint(s: seq<char>) {
    Point(s) < |s|
  }

  /** The digits after the first point; empty when there is no point. */
  function FracDigits(s: seq<char>): seq<char> {
    if HasPoint(s) then s[Point(s) + 1..] else []
  }

  /**
   * The literals that isValidHex accepts: an optional leading '-', at most
   * 16 hex digits, and optionally a '.' followed by at most 16 hex digits.
   * Anything else after the first '.' (a second '.', a '-') is not a digit.
   */
  predicate WellFormedLiteral(s: seq<char>) {
    IsHexDigits(WholeDigits(s)) && |WholeDigits(s)| <= MaxDigits
    && IsHexDigits(FracDigits(s)) && |FracDigits(s)| <= MaxDigits
  }

  /** The parts of a literal as the grammar ["-"] H ["." F] names them. */
  datatype Literal = Literal(negative: bool, whole: seq<char>, point: bool, frac: seq<char>)

  function Text(lit: Literal): seq<char> {
    (if lit.negative then "-" else "") + lit.whole + (if lit.point then "." + lit.frac else "")
  }

  predicate WellFormedParts(lit: Literal) {
    IsHexDigits(lit.whole) && |lit.whole| <= MaxDigits
    && IsHexDigits(lit.frac) && |lit.frac| <= MaxDigits
    && (lit.point || lit.frac == [])
  }

  /** The parts of any text, cut at the sign and at the first point. */
  function Split(s: seq<char>): (lit: Literal)
    ensures Text(lit) == s
  {
    var lit := Literal(Start(s) == 1, WholeDigits(s), HasPoint(s), FracDigits(s));
    TextOfCut(s);
    lit
  }

  /** Putting the sign, the whole digits and the point with the fraction digits back together. */
  lemma TextOfCut(s: seq<char>)
    ensures Text(Literal(Start(s) == 1, WholeDigits(s), HasPoint(s), FracDigits(s))) == s
  {
  }

  /** A hex digit is neither a sign nor a point. */
  lemma DigitIsNotPunctuation(c: char)
    requires IsHexChar(c)
    ensures c != '-' && c != '.'
  {
  }

  /** A text made only of hex digits has no point and no sign: it is all whole digits. */
  lemma NumeralHasNoPoint(s: seq<char>)
    requires IsHexDigits(s)
    ensures Point(s) == |s| && Start(s) == 0 && WholeDigits(s) == s
  {
  }

  /** Cutting the text of well-formed parts gives back those parts: the grammar is unambiguous. */
  lemma SplitOfText(lit: Literal)
    requires WellFormedParts(lit)
    ensures Split(Text(lit)) == lit
  {
    var s := Text(lit);
    var sign := if lit.negative then 1 else 0;
    var k := sign + |lit.whole|;
    forall j | 0 <= j < k ensures s[j] != '.' {
      if j >= sign {
        assert s[j] == lit.whole[j - sign];
        DigitIsNotPunctuation(lit.whole[j - sign]);
      }
    }
    if lit.point {
      assert s[k] == '.';
    } else {
      assert |s| == k;
    }
    PointAt(s, k);
    if !lit.negative && |s| > 0 {
      if |lit.whole| > 0 {
        assert s[0] == lit.whole[0];
        DigitIsNotPunctuation(lit.whole[0]);
      } else {
        assert s[0] == '.';
      }
    }
    assert Start(s) == sign;
    assert WholeDigits(s) == lit.whole;
    assert lit.point ==> s[k + 1..] == lit.frac;
  }

  /** The declarative predicate is the grammar ["-"] hex{0,16} ["." hex{0,16}]. */
  lemma WellFormedIsGrammar(s: seq<char>)
    ensures WellFormedLiteral(s) <==> exists lit :: WellFormedParts(lit) && Text(lit) == s
  {
    if WellFormedLiteral(s) {
      assert WellFormedParts(Split(s));
    }
    if lit :| WellFormedParts(lit) && Text(lit) == s {
      SplitOfText(lit);
    }
  }

  /** A well-formed literal is never longer than 34 characters, so the length guard rejects nothing more. */
  lemma WellFormedIsShort(s: seq<char>)
    requires WellFormedLiteral(s)
    ensures |s| <= MaxLiteralLength
  {
  }

  /** A second '.' anywhere makes a literal ill-formed. */
  lemma SecondPointRejected(s: seq<char>, i: nat, j: nat)
    requires i < j < |s| && s[i] == '.' && s[j] == '.'
    ensures !WellFormedLiteral(s)
  {
  }

  /** A '-' anywhere but at index 0 makes a literal ill-formed. */
  lemma MisplacedMinusRejected(s: seq<char>, i: nat)
    requires 0 < i < |s| && s[i] == '-'
    ensures !WellFormedLiteral(s)
  {
  }

  /** Any character other than a hex digit, '.' and '-' makes a literal ill-formed. */
  lemma ForeignCharRejected(s: seq<char>, i: nat)
    requires i < |s| && !IsHexChar(s[i]) && s[i] != '.' && s[i] != '-'
    ensures !WellFormedLiteral(s)
  {
  }

  /**
   * isValidHex: one left-to-right scan that remembers where the whole digits
   * start and where the first '.' is, checking both digit counts when it
   * meets the '.' and the whole digit count at the end when there is none.
   */
  method IsValidHex(hex: seq<char>) returns (ok: bool)
    ensures ok == WellFormedLiteral(hex)
  {
    var decimalLocation := -1;
    var start := 0;
    var n := |hex|;
    for i := 0 to n
      invariant start == (if i > 0 then Start(hex) else 0)
      invariant decimalLocation == -1 ==> forall k :: start <= k < i ==> IsHexChar(hex[k])
      invariant decimalLocation != -1 ==>
        start <= decimalLocation < i && decimalLocation == Point(hex)
        && decimalLocation - start <= MaxDigits && n - decimalLocation - 1 <= MaxDigits
        && (forall k :: start <= k < decimalLocation ==> IsHexChar(hex[k]))
        && (forall k :: decimalLocation < k < i ==> IsHexChar(hex[k]))
    {
      if hex[i] == '-' && i == 0 {
        start := 1;
      } else if hex[i] == '.' && decimalLocation == -1 {
        forall k | 0 <= k < i ensures hex[k] != '.' {
          if k >= start { DigitIsNotPunctuation(hex[k]); }
        }
        PointAt(hex, i);
        decimalLocation := i;
        if decimalLocation - start > MaxDigits {
          return false;
        }
        if n - decimalLocation - 1 > MaxDigits {
          return false;
        }
      } else {
        if !IsValidChar(hex[i]) {
          if hex[i] == '.' {
            SecondPointRejected(hex, decimalLocation, i);
          } else if hex[i] == '-' {
            MisplacedMinusRejected(hex, i);
          } else {
            ForeignCharRejected(hex, i);
          }
          return false;
        }
      }
    }
    if decimalLocation == -1 {
      forall k | 0 <= k < n ensures hex[k] != '.' {
        if k >= start { DigitIsNotPunctuation(hex[k]); }
      }
      PointAt(hex, n);
      if n - start > MaxDigits {
        return false;
      }
    }
    return true;
  }

  /** The value of a fraction's digits placed at the top of the 64-bit word. */
  function FracValue(f: seq<char>): (r: u64)
    requires IsHexDigits(f) && |f| <= MaxDigits
    ensures r == HexVal(f + Zeros(MaxDigits - |f|))
  {
    HexValPadded(f, MaxDigits - |f|);
    Pow16Sixteen();
    HexVal(f) * Pow16(MaxDigits - |f|)
  }

  /** The tag parseHex gives a literal: negative exactly when it starts with '-'. */
  function SignTag(s: seq<char>): Tag {
    if Start(s) == 1 then ValidNegative else ValidNonnegative
  }

  /** What parseHex stores for a well-formed literal. */
  function Decode(s: seq<char>): (v: Fixedpoint)
    requires WellFormedLiteral(s)
    ensures IsValid(v)
  {
    Pow16Monotone(|WholeDigits(s)|, MaxDigits);
    Pow16Sixteen();
    Fixedpoint(HexVal(WholeDigits(s)), FracValue(FracDigits(s)), SignTag(s))
  }

  lemma DecodeFields(s: seq<char>)
    requires WellFormedLiteral(s)
    ensures Decode(s).whole == HexVal(WholeDigits(s))
    ensures Decode(s).frac == HexVal(FracDigits(s)) * Pow16(MaxDigits - |FracDigits(s)|)
    ensures Decode(s).tag == if |s| > 0 && s[0] == '-' then ValidNegative else ValidNonnegative
  {
  }

  /** What fixedpoint_create_from_hex returns for any text. */
  function FromHex(s: seq<char>): Fixedpoint {
    if |s| > MaxLiteralLength || !WellFormedLiteral(s) then Fixedpoint(0, 0, Error)
    else Decode(s)
  }

  /**
   * The text parseHex hands to strtoul for the fraction: the fraction digits
   * padded with '0' to 16, or "0" when there is no point.
   */
  function FracString(hasPoint: bool, f: seq<char>): seq<char>
    requires |f| <= MaxDigits
  {
    if hasPoint then f + Zeros(MaxDigits - |f|) else "0"
  }

  /** Reading the padded fraction text gives the fraction digits' value shifted to the top of the word. */
  lemma FracStringValue(hasPoint: bool, f: seq<char>)
    requires IsHexDigits(f) && |f| <= MaxDigits && (hasPoint || f == [])
    ensures IsHexDigits(FracString(hasPoint, f)) && |FracString(hasPoint, f)| <= MaxDigits
    ensures HexVal(FracString(hasPoint, f)) == HexVal(f) * Pow16(MaxDigits - |f|)
  {
    if hasPoint {
      HexValPadded(f, MaxDigits - |f|);
    } else {
      NoPointFraction(f);
    }
  }

  /** Without a point the fraction text is "0", which reads as the empty fraction's value. */
  lemma NoPointFraction(f: seq<char>)
    requires f == []
    ensures IsHexDigits(f) && IsHexDigits("0")
    ensures HexVal("0") == HexVal(f) * Pow16(MaxDigits - |f|)
  {
    ZeroText();
    ZeroTimes(Pow16(MaxDigits));
  }

  /** The two words parseHex reads from the text it cut and padded. */
  lemma ReadWords(hex: seq<char>, wholeString: seq<char>, fracString: seq<char>)
    requires WellFormedLiteral(hex)
    requires wholeString == WholeDigits(hex)
    requires fracString == FracString(HasPoint(hex), FracDigits(hex))
    ensures IsHexDigits(wholeString) && HexVal(wholeString) < 0x1_0000_0000_0000_0000
    ensures IsHexDigits(fracString) && HexVal(fracString) < 0x1_0000_0000_0000_0000
    ensures HexVal(fracString) == HexVal(FracDigits(hex)) * Pow16(MaxDigits - |FracDigits(hex)|)
  {
    FracStringValue(HasPoint(hex), FracDigits(hex));
    HexValFitsWord(wholeString);
    HexValFitsWord(fracString);
  }

  lemma ZeroTimes(x: int)
    ensures 0 * x == 0
  {
  }

  lemma ZeroText()
    ensures IsHexDigits("0") && HexVal("0") == 0
  {
    assert "0"[..0] == [];
  }

  /**
   * parseHex: takes the sign, cuts the text at the first '.', pads the
   * fraction with '0' to 16 digits and reads both halves in base 16.
   */
  method ParseHex(hex: seq<char>) returns (v: Fixedpoint)
    requires WellFormedLiteral(hex)
    ensures v.tag == (if |hex| > 0 && hex[0] == '-' then ValidNegative else ValidNonnegative)
    ensures v.whole == HexVal(WholeDigits(hex))
    ensures v.frac == HexVal(FracDigits(hex)) * Pow16(MaxDigits - |FracDigits(hex)|)
  {
    var decimalLocation := Point(hex);
    var tag: Tag;
    var temp: nat;
    if |hex| > 0 && hex[0] == '-' {
      tag := ValidNegative;
      temp := 1;
    } else {
      tag := ValidNonnegative;
      temp := 0;
    }
    assert temp == Start(hex);
    var wholeString, fracString;
    if decimalLocation == |hex| {
      wholeString := hex[temp..];
      fracString := "0";
      assert wholeString == WholeDigits(hex);
      assert fracString == FracString(HasPoint(hex), FracDigits(hex));
    } else {
      wholeString := hex[temp..decimalLocation];
      assert wholeString == WholeDigits(hex);
      fracString := hex[decimalLocation + 1..];
      var fracLength := |hex| - decimalLocation - 1;
      for i := fracLength to MaxDigits
        invariant fracString == FracDigits(hex) + Zeros(i - fracLength)
      {
        fracString := fracString + ['0'];
      }
      assert fracString == FracString(HasPoint(hex), FracDigits(hex));
    }
    ReadWords(hex, wholeString, fracString);
    v := Fixedpoint(HexVal(wholeString), HexVal(fracString), tag);
  }

  /**
   * fixedpoint_create_from_hex: a text longer than 34 characters or rejected
   * by isValidHex gives tag Error with both words 0; otherwise parseHex
   * fills in all three fields.
   */
  method CreateFromHex(hex: seq<char>) returns (v: Fixedpoint)
    ensures v == FromHex(hex)
  {
    var whole: u64 := 0;
    var frac: u64 := 0;
    var valid := false;
    if |hex| <= MaxLiteralLength {
      valid := IsValidHex(hex);
    }
    if !valid {
      return Fixedpoint(whole, frac, Error);
    }
    v := ParseHex(hex);
    DecodeFields(hex);
  }
}
