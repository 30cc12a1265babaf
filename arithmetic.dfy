/**
 * The one arithmetic operation of fixedpoint.c that has a body: negation.
 * It keeps both magnitude words and recomputes the tag from scratch, so it
 * turns a nonzero nonnegative number negative and everything else (zero,
 * a negative number, any error state) into a nonnegative valid number.
 */
module Arithmetic {
  import opened Representation

  /** fixedpoint_negate. */
  function Negate(v: Fixedpoint): (r: Fixedpoint)
    ensures r.whole == v.whole && r.frac == v.frac
    ensures IsValid(r)
    ensures r.tag == ValidNegative <==> v.tag == ValidNonnegative && Scaled(v) != 0
  {
    var result := Fixedpoint(v.whole, v.frac, ValidNonnegative);
    if !IsZero(v) && v.tag == ValidNonnegative then
      result.(tag := ValidNegative)
    else
      result
  }

  /** On a valid number, negation is arithmetic negation of the signed value. */
  lemma NegateIsArithmetic(v: Fixedpoint)
    requires IsValid(v)
    ensures SignedScaled(Negate(v)) == -SignedScaled(v)
  {
  }

  /** Negating twice gives back every valid number whose zero is tagged nonnegative. */
  lemma NegateTwice(v: Fixedpoint)
    requires IsValid(v)
    requires IsZero(v) ==> v.tag == ValidNonnegative
    ensures Negate(Negate(v)) == v
  {
  }

  /** Zero, with either sign tag, negates to the nonnegative zero: there is no negative zero afterwards. */
  lemma NegateZero(v: Fixedpoint)
    requires Scaled(v) == 0
    ensures Negate(v) == Create(0)
  {
  }

  /** A number in an error state negates to a valid nonnegative number with the same words: the error is lost. */
  lemma NegateForgetsErrors(v: Fixedpoint)
    requires !IsValid(v)
    ensures Negate(v) == Create2(v.whole, v.frac)
  {
  }
}
