/**
 Multiples and rounding, defined by repeated addition so that every proof
 about them is linear. `TimesIsProduct` and `AlignDownIsRemainder` tie them
 to the built-in operators.
 */
module Arith {

  function Times(a: nat, d: nat): nat {
    if a == 0 then 0 else Times(a - 1, d) + d
  }

  lemma {:induction false} TimesIsProduct(a: nat, d: nat)
    ensures Times(a, d) == a * d
  {
    if a > 0 {
      TimesIsProduct(a - 1, d);
      assert a * d == (a - 1) * d + d;
    }
  }

  lemma {:induction false} TimesAdd(a: nat, b: nat, d: nat)
    ensures Times(a + b, d) == Times(a, d) + Times(b, d)
  {
    if b > 0 { TimesAdd(a, b - 1, d); }
  }

  lemma {:induction false} TimesLe(a: nat, b: nat, d: nat)
    requires a <= b
    ensures Times(a, d) <= Times(b, d)
  {
    TimesAdd(a, b - a, d);
  }

  /** Strictly fewer times leave room for one more. */
  lemma {:induction false} TimesLt(a: nat, b: nat, d: nat)
    requires a < b
    ensures Times(a, d) + d <= Times(b, d)
  {
    assert Times(a + 1, d) == Times(a, d) + d;
    TimesLe(a + 1, b, d);
  }

  lemma {:induction false} TimesAssoc(a: nat, b: nat, d: nat)
    ensures Times(a, Times(b, d)) == Times(Times(a, b), d)
  {
    if a > 0 {
      TimesAssoc(a - 1, b, d);
      TimesAdd(Times(a - 1, b), b, d);
    }
  }

  /** The greatest multiple of `d` not above `x`. */
  function AlignDown(x: nat, d: nat): (r: nat)
    requires d > 0
    ensures r <= x < r + d
  {
    if x < d then 0 else AlignDown(x - d, d) + d
  }

  lemma {:induction false} AlignDownShift(x: nat, q: nat, d: nat)
    requires d > 0
    ensures AlignDown(x + Times(q, d), d) == AlignDown(x, d) + Times(q, d)
  {
    if q > 0 { AlignDownShift(x, q - 1, d); }
  }

  predicate Aligned(x: nat, d: nat)
    requires d > 0
  {
    AlignDown(x, d) == x
  }

  lemma {:induction false} AlignedDown(x: nat, d: nat)
    requires d > 0
    ensures Aligned(AlignDown(x, d), d)
  {
    if x >= d { AlignedDown(x - d, d); }
  }

  lemma {:induction false} AlignedTimes(q: nat, d: nat)
    requires d > 0
    ensures Aligned(Times(q, d), d)
  {
    AlignDownShift(0, q, d);
  }

  /** How many times `d` fits below `x`. */
  function Fits(x: nat, d: nat): (q: nat)
    requires d > 0
    ensures Times(q, d) == AlignDown(x, d)
  {
    if x < d then 0 else Fits(x - d, d) + 1
  }

  /** Rounding down is subtracting the remainder. */
  lemma {:induction false} AlignDownIsRemainder(x: nat, d: nat)
    requires d > 0
    ensures AlignDown(x, d) == x - x % d
  {
    var q, p := Fits(x, d), x / d;
    TimesIsProduct(q, d);
    TimesIsProduct(p, d);
    assert x == p * d + x % d;
    if q < p { TimesLt(q, p, d); } else if p < q { TimesLt(p, q, d); }
  }

  lemma {:induction false} AlignedShift(a: nat, q: nat, d: nat)
    requires d > 0 && Aligned(a, d)
    ensures Aligned(a + Times(q, d), d)
  {
    AlignDownShift(a, q, d);
  }

  /** Aligned addresses are at least one block apart. */
  lemma {:induction false} AlignedApart(a: nat, b: nat, d: nat)
    requires d > 0 && Aligned(a, d) && Aligned(b, d) && a < b
    ensures a + d <= b
  {
    if a >= d {
      AlignedApart(a - d, b - d, d);
    }
  }

  /** An aligned address at or after another is a number of blocks after it. */
  lemma AlignedDistance(a: nat, b: nat, d: nat) returns (j: nat)
    requires d > 0 && Aligned(a, d) && Aligned(b, d) && a <= b
    ensures b == a + Times(j, d)
  {
    j := Fits(b - a, d);
    AlignDownShift(b - a, Fits(a, d), d);
  }
}
