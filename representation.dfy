/**
 * The value type of fixedpoint.c: a sign-magnitude fixed-point number made of
 * a 64-bit whole part, a 64-bit fraction read as frac / 2^64, and a status tag
 * that carries both the sign and the error states. Constructors, accessors and
 * the two implemented predicates (is_zero, is_valid) live here.
 */
module Representation {

  /** 2^64, the number of distinct values of a uint64_t. */
  const TWO_64: nat := 0x1_0000_0000_0000_0000

  /** A uint64_t. */
  type u64 = n: nat | n < 0x1_0000_0000_0000_0000

  /** The status tag: two valid signs and five error states. */
  datatype Tag =
    | ValidNonnegative
    | ValidNegative
    | OverflowPositive
    | OverflowNegative
    | UnderflowPositive
    | UnderflowNegative
    | Error

  /** The five tags that do not describe a usable magnitude. */
  const ErrorTags: set<Tag> :=
    {OverflowPositive, OverflowNegative, UnderflowPositive, UnderflowNegative, Error}

  datatype Fixedpoint = Fixedpoint(whole: u64, frac: u64, tag: Tag)

  /** The magnitude whole + frac / 2^64, multiplied by 2^64 so that it is an integer. */
  function Scaled(v: Fixedpoint): nat {
    v.whole * TWO_64 + v.frac
  }

  /** The signed value of a valid number, in units of 2^-64. */
  function SignedScaled(v: Fixedpoint): int
    requires IsValid(v)
  {
    if v.tag == ValidNegative then -(Scaled(v) as int) else Scaled(v)
  }

  /** fixedpoint_create: the nonnegative number with the given whole part. */
  function Create(whole: u64): (r: Fixedpoint)
    ensures IsValid(r) && r.tag == ValidNonnegative && SignedScaled(r) == whole * TWO_64
    ensures WholePart(r) == whole && FracPart(r) == 0
  {
    Fixedpoint(whole, 0, ValidNonnegative)
  }

  /** fixedpoint_create2: the nonnegative number whole + frac / 2^64. */
  function Create2(whole: u64, frac: u64): (r: Fixedpoint)
    ensures IsValid(r) && r.tag == ValidNonnegative && SignedScaled(r) == whole * TWO_64 + frac
    ensures WholePart(r) == whole && FracPart(r) == frac
  {
    Fixedpoint(whole, frac, ValidNonnegative)
  }

  /** fixedpoint_whole_part: the integer part of the magnitude. */
  function WholePart(v: Fixedpoint): (w: u64)
    ensures w == Scaled(v) / TWO_64
  {
    DivModScaled(v);
    v.whole
  }

  /** fixedpoint_frac_part: the fractional part of the magnitude, in units of 2^-64. */
  function FracPart(v: Fixedpoint): (f: u64)
    ensures f == Scaled(v) % TWO_64
  {
    DivModScaled(v);
    v.frac
  }

  /** fixedpoint_is_valid: the tag is one of the two signs. */
  function IsValid(v: Fixedpoint): (r: bool)
    ensures r <==> v.tag !in ErrorTags
  {
    v.tag == ValidNegative || v.tag == ValidNonnegative
  }

  /** fixedpoint_is_zero: a valid number whose magnitude is zero. */
  function IsZero(v: Fixedpoint): (r: bool)
    ensures r <==> IsValid(v) && Scaled(v) == 0
  {
    if !IsValid(v) then false else v.whole == 0 && v.frac == 0
  }

  /** The whole and fraction words are the quotient and remainder of the scaled magnitude. */
  lemma DivModScaled(v: Fixedpoint)
    ensures Scaled(v) / TWO_64 == v.whole && Scaled(v) % TWO_64 == v.frac
  {
  }

  /** Two numbers with the same tag and the same magnitude are the same record. */
  lemma ScaledInjective(a: Fixedpoint, b: Fixedpoint)
    requires a.tag == b.tag && Scaled(a) == Scaled(b)
    ensures a == b
  {
  }

  /** A valid zero is the record (0, 0) with either sign tag; a nonzero valid value has a nonzero signed value. */
  lemma ZeroIsSignedZero(v: Fixedpoint)
    requires IsValid(v)
    ensures IsZero(v) <==> SignedScaled(v) == 0
  {
  }
}
