/**
 * Hexadecimal digits and numerals: the character class accepted by
 * isValidChar, the digit values strtoul(..., 16) gives them, and the value
 * of a numeral read most significant digit first.
 */
module HexDigits {

  /** The 22 characters that spell a hex digit. */
  const HexDigitChars: set<char> :=
    {'0', '1', '2', '3', '4', '5', '6', '7', '8', '9',
     'a', 'b', 'c', 'd', 'e', 'f', 'A', 'B', 'C', 'D', 'E', 'F'}

  /** A hex digit character: a decimal digit or a letter a-f in either case. */
  predicate IsHexChar(c: char) {
    '0' <= c <= '9' || 'a' <= c <= 'f' || 'A' <= c <= 'F'
  }

  /** isValidChar: tests lower case, upper case and decimal digits, in that order. */
  function IsValidChar(c: char): (r: bool)
    ensures r <==> c in HexDigitChars
    ensures r == IsHexChar(c)
  {
    if 'a' <= c <= 'f' then true
    else if 'A' <= c <= 'F' then true
    else if '0' <= c <= '9' then true
    else false
  }

  /** Every character of ds is a hex digit. */
  predicate IsHexDigits(ds: seq<char>) {
    forall i :: 0 <= i < |ds| ==> IsHexChar(ds[i])
  }

  /** The value strtoul gives a single hex digit, either case. */
  function DigitVal(c: char): (d: nat)
    requires IsHexChar(c)
    ensures d < 16
  {
    if 'a' <= c <= 'f' then c as int - 'a' as int + 10
    else if 'A' <= c <= 'F' then c as int - 'A' as int + 10
    else c as int - '0' as int
  }

  /** The lower-case digit for a nibble. */
  function LowerDigit(d: nat): (c: char)
    requires d < 16
    ensures IsHexChar(c) && DigitVal(c) == d
  {
    if d < 10 then ('0' as int + d) as char else ('a' as int + d - 10) as char
  }

  /** The upper-case digit for a nibble. */
  function UpperDigit(d: nat): (c: char)
    requires d < 16
    ensures IsHexChar(c) && DigitVal(c) == d
  {
    if d < 10 then ('0' as int + d) as char else ('A' as int + d - 10) as char
  }

  /** A hex digit is the lower- or upper-case spelling of its value: DigitVal loses only the case. */
  lemma DigitValSpelling(c: char)
    requires IsHexChar(c)
    ensures c == LowerDigit(DigitVal(c)) || c == UpperDigit(DigitVal(c))
  {
  }

  function Pow16(k: nat): (p: nat)
    ensures p >= 1
  {
    if k == 0 then 1 else 16 * Pow16(k - 1)
  }

  lemma Pow16Sixteen()
    ensures Pow16(16) == 0x1_0000_0000_0000_0000
  {
    assert Pow16(4) == 0x1_0000;
    Pow16Add(4, 4);
    Pow16Add(8, 8);
  }

  lemma {:induction false} Pow16Add(a: nat, b: nat)
    ensures Pow16(a + b) == Pow16(a) * Pow16(b)
  {
    if b > 0 {
      Pow16Add(a, b - 1);
      calc {
        Pow16(a + b);
        16 * Pow16(a + b - 1);
        16 * (Pow16(a) * Pow16(b - 1));
        Pow16(a) * (16 * Pow16(b - 1));
      }
    }
  }

  lemma {:induction false} Pow16Monotone(a: nat, b: nat)
    requires a <= b
    ensures Pow16(a) <= Pow16(b)
  {
    if a < b {
      Pow16Monotone(a, b - 1);
    }
  }

  /**
   * The base-16 value of a numeral, most significant digit first: what
   * strtoul(ds, NULL, 16) returns for a string of hex digits (0 for the
   * empty string). A numeral of k digits is below 16^k.
   */
  function HexVal(ds: seq<char>): (n: nat)
    requires IsHexDigits(ds)
    ensures n < Pow16(|ds|)
  {
    if ds == [] then 0
    else HexVal(ds[..|ds| - 1]) * 16 + DigitVal(ds[|ds| - 1])
  }

  /** A numeral of at most 16 digits fits a 64-bit word. */
  lemma HexValFitsWord(ds: seq<char>)
    requires IsHexDigits(ds) && |ds| <= 16
    ensures HexVal(ds) < 0x1_0000_0000_0000_0000
  {
    Pow16Monotone(|ds|, 16);
    Pow16Sixteen();
  }

  /** Reading one more digit at the low end. */
  lemma HexValSnoc(ds: seq<char>, c: char)
    requires IsHexDigits(ds) && IsHexChar(c)
    ensures IsHexDigits(ds + [c])
    ensures HexVal(ds + [c]) == HexVal(ds) * 16 + DigitVal(c)
  {
    assert (ds + [c])[..|ds|] == ds;
  }

  /** k copies of the digit '0'. */
  function Zeros(k: nat): (z: seq<char>)
    ensures |z| == k && IsHexDigits(z)
  {
    if k == 0 then [] else Zeros(k - 1) + ['0']
  }

  /** Every character of Zeros(k) is '0'. */
  lemma {:induction false} ZerosAt(k: nat, i: nat)
    requires i < k
    ensures Zeros(k)[i] == '0'
  {
    if i < k - 1 {
      ZerosAt(k - 1, i);
    }
  }

  /** Reading a + b is reading a, shifting it by |b| digits, and adding b. */
  lemma {:induction false} HexValAppend(a: seq<char>, b: seq<char>)
    requires IsHexDigits(a) && IsHexDigits(b)
    ensures IsHexDigits(a + b)
    ensures HexVal(a + b) == HexVal(a) * Pow16(|b|) + HexVal(b)
  {
    HexDigitsConcat(a, b);
    if b == [] {
      assert a + b == a;
    } else {
      var b', last := b[..|b| - 1], b[|b| - 1];
      assert b == b' + [last];
      assert IsHexDigits(b');
      assert (a + b)[..|a + b| - 1] == a + b';
      assert (a + b)[|a + b| - 1] == last;
      HexValAppend(a, b');
      ShiftDigit(HexVal(a + b), HexVal(a + b'), HexVal(a), Pow16(|b'|), Pow16(|b|),
                 HexVal(b'), HexVal(b), DigitVal(last));
    }
  }

  lemma HexDigitsConcat(a: seq<char>, b: seq<char>)
    requires IsHexDigits(a) && IsHexDigits(b)
    ensures IsHexDigits(a + b)
  {
    forall i | 0 <= i < |a + b| ensures IsHexChar((a + b)[i]) {
      if i >= |a| { assert (a + b)[i] == b[i - |a|]; }
    }
  }

  lemma ShiftDigit(ab: int, ab': int, x: int, p: int, p16: int, y: int, y16: int, d: int)
    requires ab == ab' * 16 + d && ab' == x * p + y
    requires y16 == y * 16 + d && p16 == 16 * p
    ensures ab == x * p16 + y16
  {
  }

  lemma LastDigit(x: nat, d: nat)
    requires d < 16
    ensures (x * 16 + d) % 16 == d && (x * 16 + d) / 16 == x
  {
  }

  /** A numeral of zeros reads as 0, so leading zeros do not change a value. */
  lemma {:induction false} HexValZeros(k: nat)
    ensures HexVal(Zeros(k)) == 0
  {
    if k > 0 {
      assert Zeros(k)[..k - 1] == Zeros(k - 1);
      HexValZeros(k - 1);
    }
  }

  /** Appending k zero digits multiplies the value by 16^k. */
  lemma HexValPadded(ds: seq<char>, k: nat)
    requires IsHexDigits(ds)
    ensures IsHexDigits(ds + Zeros(k))
    ensures HexVal(ds + Zeros(k)) == HexVal(ds) * Pow16(k)
  {
    HexValAppend(ds, Zeros(k));
    HexValZeros(k);
  }

  /**
   * Nibble j of n (bits 4j to 4j+3), counted from the least significant end:
   * (n / 16^j) % 16.
   */
  function Nibble(n: nat, j: nat): (d: nat)
    ensures d < 16
  {
    if j == 0 then n % 16 else Nibble(n / 16, j - 1)
  }

  /** Digit i of a numeral, counted from the left, is nibble |ds| - 1 - i of its value. */
  lemma {:induction false} HexValNibble(ds: seq<char>, i: nat)
    requires IsHexDigits(ds) && i < |ds|
    ensures Nibble(HexVal(ds), |ds| - 1 - i) == DigitVal(ds[i])
  {
    var init := ds[..|ds| - 1];
    assert IsHexDigits(init);
    var x, d := HexVal(init), DigitVal(ds[|ds| - 1]);
    assert HexVal(ds) == x * 16 + d;
    LastDigit(x, d);
    if i < |ds| - 1 {
      HexValNibble(init, i);
      assert init[i] == ds[i];
      var j := |ds| - 1 - i;
      assert Nibble(HexVal(ds), j) == Nibble(HexVal(ds) / 16, j - 1);
      assert HexVal(ds) / 16 == x;
    }
  }

  /** Nibbles at or above position k of a number below 16^k are zero. */
  lemma {:induction false} NibbleAbove(n: nat, k: nat, j: nat)
    requires n < Pow16(k) && k <= j
    ensures Nibble(n, j) == 0
  {
    if j > 0 {
      if k == 0 {
        NibbleAbove(n / 16, 0, j - 1);
      } else {
        NibbleAbove(n / 16, k - 1, j - 1);
      }
    }
  }

  /** The lower-case numeral of exactly width digits for a number below 16^width. */
  function ToHex(n: nat, width: nat): (ds: seq<char>)
    requires n < Pow16(width)
    ensures |ds| == width && IsHexDigits(ds)
  {
    if width == 0 then []
    else ToHex(n / 16, width - 1) + [LowerDigit(n % 16)]
  }

  /** Reading a rendered numeral gives back the number. */
  lemma {:induction false} HexValToHex(n: nat, width: nat)
    requires n < Pow16(width)
    ensures HexVal(ToHex(n, width)) == n
  {
    if width > 0 {
      var ds := ToHex(n, width);
      assert ds[..width - 1] == ToHex(n / 16, width - 1);
      HexValToHex(n / 16, width - 1);
    }
  }
}
