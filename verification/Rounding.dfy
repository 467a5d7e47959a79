/**
 Banker's rounding on big integers that are mutated in place, and the square root of an
 18-digit decimal (x/common/dec.go).
 */
module Rounding {
  import opened Bytes

  const PRECISION := 1_000_000_000_000_000_000
  const HALF_PRECISION := 500_000_000_000_000_000
  const PRECISION_MULT := 1_000_000_000

  function Abs(x: int): nat { if x < 0 then -x else x }

  // ----- what rounding means -----

  /** `r` is a whole number nearest to d / 10^18, and the even one of two that are equally near. */
  predicate IsRounded(d: int, r: int) {
    2 * Abs(d - r * PRECISION) <= PRECISION && (2 * Abs(d - r * PRECISION) == PRECISION ==> r % 2 == 0)
  }

  lemma RoundedUnique(d: int, r: int, s: int)
    requires IsRounded(d, r) && IsRounded(d, s)
    ensures r == s
  {
  }

  function BankersQuotient(quo: int, rem: int): int {
    if rem == 0 || rem < HALF_PRECISION then quo
    else if rem > HALF_PRECISION then quo + 1
    else if quo % 2 == 0 then quo
    else quo + 1
  }

  function Rounded(d: int): int {
    if d < 0 then -BankersQuotient(-d / PRECISION, -d % PRECISION) else BankersQuotient(d / PRECISION, d % PRECISION)
  }

  lemma RoundedIsRounded(d: int)
    ensures IsRounded(d, Rounded(d))
  {
  }

  // ----- big integers -----

  /** A *big.Int: methods write their receiver, which may be one of the operands. */
  class BigInt {
    var v: int

    constructor (v: int)
      ensures this.v == v
    {
      this.v := v;
    }

    method Neg(x: BigInt) returns (r: BigInt)
      modifies this
      ensures r == this && v == -old(x.v)
    {
      v := -x.v;
      r := this;
    }

    method Add(x: BigInt, y: int) returns (r: BigInt)
      modifies this
      ensures r == this && v == old(x.v) + y
    {
      v := x.v + y;
      r := this;
    }

    /** Quotient and remainder of a non-negative dividend; the quotient goes into the receiver. */
    method QuoRem(x: BigInt, y: int, rem: BigInt) returns (quo: BigInt, rem': BigInt)
      requires y > 0 && x.v >= 0 && rem != this
      modifies this, rem
      ensures quo == this && rem' == rem
      ensures v == old(x.v) / y && rem.v == old(x.v) % y
    {
      var dividend := x.v;
      v := dividend / y;
      rem.v := dividend % y;
      quo, rem' := this, rem;
    }
  }

  /** BankersRound: the result is `quo` itself, changed in place where it rounds up. */
  method BankersRound(quo: BigInt, rem: BigInt) returns (r: BigInt)
    requires quo != rem
    modifies quo
    ensures r == quo && r.v == BankersQuotient(old(quo.v), rem.v)
  {
    if rem.v == 0 { return quo; }
    if rem.v < HALF_PRECISION { return quo; }
    if rem.v > HALF_PRECISION {
      r := quo.Add(quo, 1);
      return;
    }
    if quo.v % 2 == 0 { return quo; }
    r := quo.Add(quo, 1);
  }

  /** ChopPrecisionAndRound: rounds its argument in place and returns that same object. */
  method ChopPrecisionAndRound(d: BigInt) returns (r: BigInt)
    modifies d
    ensures r == d
    ensures IsRounded(old(d.v), d.v)
    ensures d.v == Rounded(old(d.v))
    decreases if d.v < 0 then 1 else 0
  {
    RoundedIsRounded(d.v);
    if d.v < 0 {
      r := d.Neg(d);
      r := ChopPrecisionAndRound(r);
      r := r.Neg(r);
      return;
    }
    var rem := new BigInt(0);
    var quo;
    quo, rem := d.QuoRem(d, PRECISION, rem);
    r := BankersRound(quo, rem);
  }

  // ----- laws of rounding -----

  lemma RoundedOdd(d: int)
    ensures Rounded(-d) == -Rounded(d)
  {
  }

  lemma RoundedMonotone(d: int, e: int)
    requires d <= e
    ensures Rounded(d) <= Rounded(e)
  {
  }

  lemma RoundedExact(n: int)
    ensures Rounded(n * PRECISION) == n
  {
  }

  // ----- square roots -----

  /** The integer square root, as big.Int.Sqrt computes it. */
  function IntegerSqrt(n: nat): (s: nat)
    ensures s * s <= n < (s + 1) * (s + 1)
  {
    if n == 0 then 0
    else
      var s := IntegerSqrt(n - 1);
      if (s + 1) * (s + 1) <= n then s + 1 else s
  }

  /** A LegacyDec is its value times 10^18. */
  type Dec = int

  function NewDecFromBigInt(i: int): Dec { i * PRECISION }

  /** LegacyDec.Quo for operands that are not negative: scaled twice, divided, then rounded. */
  function Quo(a: Dec, b: Dec): Dec
    requires a >= 0 && b > 0
  {
    Rounded(a * (PRECISION * PRECISION) / b)
  }

  /** The quotient by 10^9 is exact, so nothing is rounded. */
  lemma SqrtExactQuotient(s: nat)
    ensures Quo(NewDecFromBigInt(s), NewDecFromBigInt(PRECISION_MULT)) == s * PRECISION_MULT
  {
    var q := s * PRECISION_MULT;
    assert NewDecFromBigInt(s) * (PRECISION * PRECISION) == q * PRECISION * NewDecFromBigInt(PRECISION_MULT);
    RoundedExact(q);
  }

  lemma ScaledSquare(s: int)
    ensures (s * PRECISION_MULT) * (s * PRECISION_MULT) == s * s * PRECISION
  {
  }

  /**
   MustSqrtDec; None is the panic on a negative argument.  The root r of x >= 0 satisfies
   r^2 <= x < (r + 10^-9)^2; in units of 10^-18 that is R^2 <= X * 10^18 < (R + 10^9)^2.
   */
  function MustSqrtDec(x: Dec): (r: Option<Dec>)
    ensures r.Some? <==> x >= 0
    ensures r.Some? ==> r.value >= 0 && r.value * r.value <= x * PRECISION
    ensures r.Some? ==> x * PRECISION < (r.value + PRECISION_MULT) * (r.value + PRECISION_MULT)
  {
    if x < 0 then None
    else
      var s := IntegerSqrt(x);
      SqrtExactQuotient(s);
      ScaledSquare(s);
      ScaledSquare(s + 1);
      Some(Quo(NewDecFromBigInt(s), NewDecFromBigInt(PRECISION_MULT)))
  }
}
