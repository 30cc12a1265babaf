/**
 * Expectations of fixedpoint_tests.c that concern the implemented
 * operations, proved of the model.
 */
module TestExpectations {
  import opened Representation
  import opened Arithmetic
  import opened HexDigits
  import opened HexParser
  import opened ParserProperties

  /** "f6a5865.00f2": whole 0xf6a5865, fraction 0x00f2000000000000. */
  lemma ParsesWholeAndFraction()
    ensures FromHex("f6a5865.00f2") == Fixedpoint(0xf6a5865, 0x00f2000000000000, ValidNonnegative)
  {
    var h, f := "f6a5865", "00f2";
    var lit := Literal(false, h, true, f);
    assert Text(lit) == "f6a5865.00f2";
    NumeralF6a5865();
    Numeral00f2();
    Pow16Twelve();
    FromHexOfParts(lit);
    FracValueOf(f, 0xf2, 0x1_0000_0000_0000);
  }

  lemma NumeralF6a5865()
    ensures HexVal("f6a5865") == 0xf6a5865
  {
    var n0: seq<char> := [];
    HexValSnoc(n0, 'f');
    var n1 := n0 + ['f'];
    HexValSnoc(n1, '6');
    var n2 := n1 + ['6'];
    HexValSnoc(n2, 'a');
    var n3 := n2 + ['a'];
    HexValSnoc(n3, '5');
    var n4 := n3 + ['5'];
    HexValSnoc(n4, '8');
    var n5 := n4 + ['8'];
    HexValSnoc(n5, '6');
    var n6 := n5 + ['6'];
    HexValSnoc(n6, '5');
    var n7 := n6 + ['5'];
    assert n7 == "f6a5865";
  }

  lemma Pow16Twelve()
    ensures Pow16(12) == 0x1_0000_0000_0000
  {
    assert Pow16(6) == 0x100_0000;
    Pow16Add(6, 6);
  }

  lemma Numeral00f2()
    ensures HexVal("00f2") == 0xf2
  {
    var n0: seq<char> := [];
    HexValSnoc(n0, '0');
    var n1 := n0 + ['0'];
    HexValSnoc(n1, '0');
    var n2 := n1 + ['0'];
    HexValSnoc(n2, 'f');
    var n3 := n2 + ['f'];
    HexValSnoc(n3, '2');
    var n4 := n3 + ['2'];
    assert n4 == "00f2";
  }

  /** ".cda133": no whole digits, the fraction aligned to the top nibbles. */
  lemma ParsesFractionOnly()
    ensures FromHex(".cda133") == Fixedpoint(0, 0xcda1330000000000, ValidNonnegative)
  {
    var f := "cda133";
    var lit := Literal(false, "", true, f);
    assert Text(lit) == ".cda133";
    FromHexOfParts(lit);
    NumeralCda133();
    Pow16Ten();
    FracValueOf(f, 0xcda133, 0x100_0000_0000);
  }

  lemma NumeralCda133()
    ensures HexVal("cda133") == 0xcda133
  {
    var n0: seq<char> := [];
    HexValSnoc(n0, 'c');
    var n1 := n0 + ['c'];
    HexValSnoc(n1, 'd');
    var n2 := n1 + ['d'];
    HexValSnoc(n2, 'a');
    var n3 := n2 + ['a'];
    HexValSnoc(n3, '1');
    var n4 := n3 + ['1'];
    HexValSnoc(n4, '3');
    var n5 := n4 + ['3'];
    HexValSnoc(n5, '3');
    var n6 := n5 + ['3'];
    assert n6 == "cda133";
  }

  lemma Pow16Ten()
    ensures Pow16(10) == 0x100_0000_0000
  {
    assert Pow16(5) == 0x10_0000;
    Pow16Add(5, 5);
  }

  lemma Pow16Thirteen()
    ensures Pow16(13) == 0x10_0000_0000_0000
  {
    Pow16Ten();
    Pow16Add(10, 3);
  }

  /** The fraction word from the value of the digits and the shift that aligns them. */
  lemma FracValueOf(f: seq<char>, n: nat, p: nat)
    requires IsHexDigits(f) && |f| <= MaxDigits
    requires HexVal(f) == n && Pow16(MaxDigits - |f|) == p
    ensures FracValue(f) == n * p
  {
  }

  /** "-.0ed": a sign with no whole digits. */
  lemma ParsesNegativeFraction()
    ensures FromHex("-.0ed") == Fixedpoint(0, 0x0ed0000000000000, ValidNegative)
  {
    var f := "0ed";
    var lit := Literal(true, "", true, f);
    assert Text(lit) == "-.0ed";
    FromHexOfParts(lit);
    Numeral0ed();
    Pow16Thirteen();
    FracValueOf(f, 0xed, 0x10_0000_0000_0000);
  }

  lemma Numeral0ed()
    ensures HexVal("0ed") == 0xed
  {
    var n0: seq<char> := [];
    HexValSnoc(n0, '0');
    var n1 := n0 + ['0'];
    HexValSnoc(n1, 'e');
    var n2 := n1 + ['e'];
    HexValSnoc(n2, 'd');
    var n3 := n2 + ['d'];
    assert n3 == "0ed";
  }

  /** "5ba9f.": a point with no fraction digits. */
  lemma ParsesEmptyFraction()
    ensures FromHex("5ba9f.") == Fixedpoint(0x5ba9f, 0, ValidNonnegative)
  {
    var h := "5ba9f";
    var lit := Literal(false, h, true, "");
    assert Text(lit) == "5ba9f.";
    Numeral5ba9f();
    FromHexOfParts(lit);
    FracValueOf([], 0, Pow16(MaxDigits));
  }

  lemma Numeral5ba9f()
    ensures HexVal("5ba9f") == 0x5ba9f
  {
    var n0: seq<char> := [];
    HexValSnoc(n0, '5');
    var n1 := n0 + ['5'];
    HexValSnoc(n1, 'b');
    var n2 := n1 + ['b'];
    HexValSnoc(n2, 'a');
    var n3 := n2 + ['a'];
    HexValSnoc(n3, '9');
    var n4 := n3 + ['9'];
    HexValSnoc(n4, 'f');
    var n5 := n4 + ['f'];
    assert n5 == "5ba9f";
  }

  /** A second '-' is rejected. */
  lemma RejectsSecondMinus()
    ensures FromHex("-0a-fb") == Fixedpoint(0, 0, Error)
  {
    MisplacedMinusRejected("-0a-fb", 3);
  }

  /** A '-' after the point is rejected. */
  lemma RejectsMinusInFraction()
    ensures FromHex("0.b7-a") == Fixedpoint(0, 0, Error)
  {
    MisplacedMinusRejected("0.b7-a", 4);
  }

  /** A second '.' is rejected. */
  lemma RejectsSecondPoint()
    ensures FromHex("108.1d43f9.0c5572f") == Fixedpoint(0, 0, Error)
  {
    SecondPointRejected("108.1d43f9.0c5572f", 3, 10);
  }

  /** Seventeen fraction digits are rejected. */
  lemma RejectsLongFraction()
    ensures FromHex("0.2e36b5f14a0bde3c1") == Fixedpoint(0, 0, Error)
  {
    PointAt("0.2e36b5f14a0bde3c1", 1);
  }

  /** Seventeen whole digits and no point are rejected after the scan. */
  lemma RejectsLongWhole()
    ensures FromHex("5580a175a6f94a391") == Fixedpoint(0, 0, Error)
  {
    var s := "5580a175a6f94a391";
    assert IsHexDigits(s);
    NumeralHasNoPoint(s);
  }

  /** Thirty-five characters are rejected by the length guard before any scan. */
  lemma RejectsLongText()
    ensures FromHex("94aa7a8bc03118f50.94aa7a8bc03118f05") == Fixedpoint(0, 0, Error)
  {
  }

  /** A character that is not a hex digit is rejected. */
  lemma RejectsForeignCharacter()
    ensures FromHex("130284yhufdjaads") == Fixedpoint(0, 0, Error)
  {
    ForeignCharRejected("130284yhufdjaads", 6);
  }

  /** Negating the fixture values: zero stays nonnegative, one becomes negative, both words are kept. */
  lemma NegatedFixtures()
    ensures Negate(Create(0)) == Create(0)
    ensures Negate(Create(1)) == Fixedpoint(1, 0, ValidNegative)
    ensures Negate(Create2(0, 0x8000000000000000)) == Fixedpoint(0, 0x8000000000000000, ValidNegative)
  {
  }
}
