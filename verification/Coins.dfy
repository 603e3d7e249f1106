/** Coin amounts per denomination and 18-decimal fixed-point numbers. */
module Coins {

  type Denom = string

  /** Amounts by denomination; an absent one is zero. */
  type Amounts = map<Denom, nat>

  /** The scale of fixed-point numbers: 10^18. */
  const UNIT: nat := 1_000_000_000_000_000_000

  function Amt(c: Amounts, d: Denom): nat {
    if d in c then c[d] else 0
  }

  function Plus(a: Amounts, b: Amounts): (c: Amounts)
    ensures forall d :: Amt(c, d) == Amt(a, d) + Amt(b, d)
  {
    map d | d in a.Keys + b.Keys :: Amt(a, d) + Amt(b, d)
  }

  ghost predicate Within(a: Amounts, b: Amounts) {
    forall d :: Amt(a, d) <= Amt(b, d)
  }

  /** Subtraction panics unless every amount suffices. */
  function Minus(a: Amounts, b: Amounts): (c: Amounts)
    requires Within(b, a)
    ensures forall d :: Amt(c, d) == Amt(a, d) - Amt(b, d)
  {
    map d | d in a :: var x: nat := Amt(a, d) - Amt(b, d); x
  }

  /** Whole coins as fixed-point numbers. */
  function ToDec(c: Amounts): (r: Amounts)
    ensures forall d :: Amt(r, d) == Amt(c, d) * UNIT
  {
    map d | d in c :: c[d] * UNIT
  }

  /** Fixed-point product, dropping what is below the scale. */
  function MulTruncate(x: nat, y: nat): nat { x * y / UNIT }

  /** Fixed-point quotient, dropping what is below the scale. */
  function QuoTruncate(x: nat, y: nat): nat
    requires y > 0
  {
    x * UNIT / y
  }

  /** Fixed-point product, rounded to the nearest and half to even. */
  function MulRound(x: nat, y: nat): nat {
    var q, r := x * y / UNIT, x * y % UNIT;
    if 2 * r < UNIT || (2 * r == UNIT && q % 2 == 0) then q else q + 1
  }

  function MulDecTruncate(c: Amounts, f: nat): (r: Amounts)
    ensures forall d :: Amt(r, d) == MulTruncate(Amt(c, d), f)
  {
    map d | d in c :: MulTruncate(c[d], f)
  }

  function MulDec(c: Amounts, f: nat): (r: Amounts)
    ensures forall d :: Amt(r, d) == MulRound(Amt(c, d), f)
  {
    map d | d in c :: MulRound(c[d], f)
  }

  /** The whole coins in fixed-point amounts. */
  function TruncateDecimal(c: Amounts): (r: Amounts)
    ensures forall d :: Amt(r, d) == Amt(c, d) / UNIT
  {
    map d | d in c :: c[d] / UNIT
  }

  // ---------------------------------------------------------------- arithmetic

  /** Floor division in terms of products. */
  lemma DivBounds(x: nat, y: nat)
    requires y > 0
    ensures x / y * y <= x < x / y * y + y
  {
  }

  lemma MulMonotone(x: nat, y: nat, z: nat)
    requires x <= y
    ensures x * z <= y * z
  {
  }

  /** Multiplying whole coins by a fraction needs no rounding at all. */
  lemma MulRoundOfCoins(t: nat, f: nat)
    ensures MulRound(t * UNIT, f) == t * f && MulTruncate(t * UNIT, f) == t * f
  {
    assert t * UNIT * f == t * f * UNIT;
  }
}
