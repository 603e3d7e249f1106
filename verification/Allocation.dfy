/** Fee allocation to representatives on a democracy consumer chain: exact conservation and the truncation error. */
module Allocation {
  import opened Valset
  import opened Coins

  /** A bonded validator with its tokens. */
  datatype Bonded = Bonded(validator: Key, tokens: nat)

  function Tokens(vs: seq<Bonded>): nat {
    if vs == [] then 0 else Tokens(vs[..|vs| - 1]) + vs[|vs| - 1].tokens
  }

  /** The reward in one denomination for fees f: two truncations after the power fraction's own. */
  function Reward(f: nat, tax: nat, tokens: nat, total: nat): nat
    requires tax <= UNIT && total > 0
  {
    MulTruncate(MulTruncate(f * UNIT, UNIT - tax), QuoTruncate(tokens * UNIT, total * UNIT))
  }

  function Rewards(f: nat, tax: nat, vs: seq<Bonded>, total: nat): nat
    requires tax <= UNIT && total > 0
  {
    if vs == [] then 0 else
    Rewards(f, tax, vs[..|vs| - 1], total) + Reward(f, tax, vs[|vs| - 1].tokens, total)
  }

  // ---------------------------------------------------------------- one reward

  lemma CancelLe(m: nat, n: nat, u: nat)
    requires m * u <= n * u && u > 0
    ensures m <= n
  {
    if m > n {
      MulMonotone(n + 1, m, u);
    }
  }

  lemma CancelLt(m: nat, n: nat, u: nat)
    requires m * u < n * u
    ensures m < n
  {
    if m >= n {
      MulMonotone(n, m, u);
    }
  }

  lemma SameQuotient(p: nat, q: nat, x: nat, y: nat)
    requires y > 0 && p * y <= x < p * y + y && q * y <= x < q * y + y
    ensures p == q
  {
    if p < q {
      MulMonotone(p + 1, q, y);
    } else if q < p {
      MulMonotone(q + 1, p, y);
    }
  }

  lemma Associate(p: nat, y: nat, u: nat)
    ensures p * (y * u) == p * y * u
  {
  }

  lemma Distribute(a: nat, b: nat, u: nat)
    ensures (a + b) * u == a * u + b * u
  {
  }

  /** A common factor of dividend and divisor does not change the quotient. */
  lemma CancelFactor(x: nat, y: nat, u: nat)
    requires y > 0 && u > 0
    ensures y * u > 0 && x * u / (y * u) == x / y
  {
    MulMonotone(1, y, u);
    var p := x * u / (y * u);
    DivBounds(x * u, y * u);
    Associate(p, y, u);
    Distribute(p * y, y, u);
    CancelLe(p * y, x, u);
    CancelLt(x, p * y + y, u);
    DivBounds(x, y);
    SameQuotient(p, x / y, x, y);
  }

  lemma RewardIs(f: nat, tax: nat, tokens: nat, total: nat)
    requires tax <= UNIT && total > 0
    ensures Reward(f, tax, tokens, total) == f * (UNIT - tax) * (tokens * UNIT / total) / UNIT
  {
    MulRoundOfCoins(f, UNIT - tax);
    CancelFactor(tokens * UNIT, total, UNIT);
  }

  /** A reward and a power fraction between the exact share and the share less one unit. */
  lemma RewardBounds(f: nat, tax: nat, tokens: nat, total: nat)
    requires tax <= UNIT && total > 0
    ensures var a, p, r := f * (UNIT - tax), tokens * UNIT / total, Reward(f, tax, tokens, total);
            && r * UNIT <= a * p < r * UNIT + UNIT
            && p * total <= tokens * UNIT < p * total + total
  {
    RewardIs(f, tax, tokens, total);
    DivBounds(tokens * UNIT, total);
  }

  // ---------------------------------------------------------------- all rewards

  function Fractions(vs: seq<Bonded>, total: nat): nat
    requires total > 0
  {
    if vs == [] then 0 else Fractions(vs[..|vs| - 1], total) + vs[|vs| - 1].tokens * UNIT / total
  }

  lemma {:induction false} FractionsBounds(vs: seq<Bonded>, total: nat)
    requires total > 0
    ensures Fractions(vs, total) * total <= Tokens(vs) * UNIT
    ensures Tokens(vs) * UNIT + |vs| <= Fractions(vs, total) * total + |vs| * total
    decreases |vs|
  {
    if vs != [] {
      var n := |vs| - 1;
      FractionsBounds(vs[..n], total);
      var p, rest := vs[n].tokens * UNIT / total, Fractions(vs[..n], total);
      DivBounds(vs[n].tokens * UNIT, total);
      assert (rest + p) * total == rest * total + p * total;
      assert (n + 1) * total == n * total + total;
    }
  }

  lemma RewardsStep(a: nat, rest: nat, p: nat, before: nat, r: nat, n: nat, u: nat)
    requires before * u <= a * rest && a * rest + n <= before * u + n * u
    requires r * u <= a * p < r * u + u
    ensures (before + r) * u <= a * (rest + p)
    ensures a * (rest + p) + n + 1 <= (before + r) * u + (n + 1) * u
  {
    Distribute(before, r, u);
    Distribute(n, 1, u);
    Distribute(rest, p, a);
  }

  lemma {:induction false} RewardsBounds(f: nat, tax: nat, vs: seq<Bonded>, total: nat)
    requires tax <= UNIT && total > 0
    ensures var a := f * (UNIT - tax);
            && Rewards(f, tax, vs, total) * UNIT <= a * Fractions(vs, total)
            && a * Fractions(vs, total) + |vs| <= Rewards(f, tax, vs, total) * UNIT + |vs| * UNIT
    decreases |vs|
  {
    if vs != [] {
      var n, a := |vs| - 1, f * (UNIT - tax);
      RewardsBounds(f, tax, vs[..n], total);
      RewardBounds(f, tax, vs[n].tokens, total);
      var p, rest := vs[n].tokens * UNIT / total, Fractions(vs[..n], total);
      var before, r := Rewards(f, tax, vs[..n], total), Reward(f, tax, vs[n].tokens, total);
      hide Reward;
      RewardsStep(a, rest, p, before, r, n, UNIT);
    } else {
      assert f * (UNIT - tax) * 0 == 0;
    }
  }

  /** The rewards never exceed the representatives' part, so that what remains is never negative. */
  lemma RewardsWithinShare(f: nat, tax: nat, vs: seq<Bonded>, total: nat)
    requires tax <= UNIT && total > 0 && Tokens(vs) <= total
    ensures Rewards(f, tax, vs, total) <= f * (UNIT - tax) <= f * UNIT
  {
    var a, p := f * (UNIT - tax), Fractions(vs, total);
    FractionsBounds(vs, total);
    RewardsBounds(f, tax, vs, total);
    MulMonotone(Tokens(vs), total, UNIT);
    CancelLe(p, UNIT, total);
    ProductMonotone(a, p, UNIT);
    CancelLe(Rewards(f, tax, vs, total), a, UNIT);
    ProductMonotone(f, UNIT - tax, UNIT);
  }

  lemma ProductMonotone(a: nat, x: nat, y: nat)
    requires x <= y
    ensures a * x <= a * y
  {
    MulMonotone(x, y, a);
  }

  lemma ErrorAlgebra(a: nat, p: nat, r: nat, n: nat, total: nat, u: nat)
    requires n > 0 && total > 0 && r <= a
    requires u * total <= p * total + n * total
    requires a * p + n <= r * u + n * u
    ensures (a - r) * u < n * (a + u)
  {
    assert (p + n) * total == p * total + n * total;
    CancelLe(u, p + n, total);
    ProductMonotone(a, u, p + n);
    assert a * (p + n) == a * p + a * n;
    assert (a - r) * u == a * u - r * u;
    assert n * (a + u) == a * n + n * u;
  }

  /** What goes to the community pool beyond the tax is the truncation error: not negative, and below
      n * (fees * (1 - tax) + 1) smallest units, when the n validators hold all bonded tokens. */
  lemma PoolExcessBounded(f: nat, tax: nat, vs: seq<Bonded>, total: nat)
    requires tax <= UNIT && total > 0 && Tokens(vs) == total
    ensures Rewards(f, tax, vs, total) + f * tax <= f * UNIT
    ensures (f * UNIT - Rewards(f, tax, vs, total) - f * tax) * UNIT < |vs| * (f * (UNIT - tax) + UNIT)
  {
    var a, p, r, n := f * (UNIT - tax), Fractions(vs, total), Rewards(f, tax, vs, total), |vs|;
    assert vs != [];
    RewardsWithinShare(f, tax, vs, total);
    FractionsBounds(vs, total);
    RewardsBounds(f, tax, vs, total);
    ErrorAlgebra(a, p, r, n, total, UNIT);
    SharesAddUp(f, tax);
  }

  lemma SharesAddUp(f: nat, tax: nat)
    requires tax <= UNIT
    ensures f * (UNIT - tax) + f * tax == f * UNIT
  {
  }

  // ---------------------------------------------------------------- the module

  function RewardCoins(fees: Amounts, tax: nat, tokens: nat, total: nat): (r: Amounts)
    requires tax <= UNIT && total > 0
    ensures forall d :: Amt(r, d) == Reward(Amt(fees, d), tax, tokens, total)
  {
    MulDecTruncate(MulDecTruncate(ToDec(fees), UNIT - tax), QuoTruncate(tokens * UNIT, total * UNIT))
  }

  /** A validator's accrued rewards in one denomination. */
  function Accrued(rewards: map<Key, Amounts>, v: Key, d: Denom): nat {
    if v in rewards then Amt(rewards[v], d) else 0
  }

  /** What the allocation gives validator v: one reward for each of its entries in the bonded list. */
  function RewardsOf(v: Key, f: nat, tax: nat, vs: seq<Bonded>, total: nat): nat
    requires tax <= UNIT && total > 0
  {
    if vs == [] then 0 else
    var n := |vs| - 1;
    RewardsOf(v, f, tax, vs[..n], total) + if vs[n].validator == v then Reward(f, tax, vs[n].tokens, total) else 0
  }

  /** No validator is listed twice. */
  predicate DistinctNames(vs: seq<Bonded>) {
    forall i, j :: 0 <= i < j < |vs| ==> vs[i].validator != vs[j].validator
  }

  /** A validator listed once gets the reward of its own tokens, and one not listed gets nothing. */
  lemma {:induction false} RewardsOfEach(v: Key, f: nat, tax: nat, vs: seq<Bonded>, total: nat)
    requires tax <= UNIT && total > 0 && DistinctNames(vs)
    ensures forall i :: 0 <= i < |vs| && vs[i].validator == v ==>
              RewardsOf(v, f, tax, vs, total) == Reward(f, tax, vs[i].tokens, total)
    ensures (forall i :: 0 <= i < |vs| ==> vs[i].validator != v) ==> RewardsOf(v, f, tax, vs, total) == 0
    decreases |vs|
  {
    hide Reward;
    if vs != [] {
      RewardsOfEach(v, f, tax, vs[..|vs| - 1], total);
    }
  }

  predicate Listed(vs: seq<Bonded>, v: Key) {
    exists i :: 0 <= i < |vs| && vs[i].validator == v
  }

  lemma EachGetsItsOwn(
    before: map<Key, Amounts>, after: map<Key, Amounts>, fees: Amounts, tax: nat, bonded: seq<Bonded>, total: nat)
    requires tax <= UNIT && total > 0
    requires forall v, d ::
               Accrued(after, v, d) == Accrued(before, v, d) + RewardsOf(v, Amt(fees, d), tax, bonded, total)
    ensures DistinctNames(bonded) ==>
              && (forall i, d :: 0 <= i < |bonded| ==>
                    Accrued(after, bonded[i].validator, d)
                    == Accrued(before, bonded[i].validator, d) + Reward(Amt(fees, d), tax, bonded[i].tokens, total))
              && (forall v, d :: !Listed(bonded, v) ==> Accrued(after, v, d) == Accrued(before, v, d))
  {
    hide Accrued, Reward, RewardsOf;
    if DistinctNames(bonded) {
      forall i, d | 0 <= i < |bonded|
        ensures Accrued(after, bonded[i].validator, d)
             == Accrued(before, bonded[i].validator, d) + Reward(Amt(fees, d), tax, bonded[i].tokens, total)
      {
        RewardsOfEach(bonded[i].validator, Amt(fees, d), tax, bonded, total);
      }
      forall v, d | !Listed(bonded, v) ensures Accrued(after, v, d) == Accrued(before, v, d) {
        RewardsOfEach(v, Amt(fees, d), tax, bonded, total);
      }
    }
  }

  /** The rewards of all entries, one by one. */
  function Sum(rs: seq<nat>): nat {
    if rs == [] then 0 else Sum(rs[..|rs| - 1]) + rs[|rs| - 1]
  }

  /** What is paid out altogether is the sum of what each validator accrues. */
  lemma {:induction false} RewardsAddUp(f: nat, tax: nat, vs: seq<Bonded>, total: nat)
    requires tax <= UNIT && total > 0
    ensures Rewards(f, tax, vs, total)
         == Sum(seq(|vs|, i requires 0 <= i < |vs| => Reward(f, tax, vs[i].tokens, total)))
    decreases |vs|
  {
    hide Reward;
    if vs != [] {
      var n := |vs| - 1;
      RewardsAddUp(f, tax, vs[..n], total);
      var all := seq(|vs|, i requires 0 <= i < |vs| => Reward(f, tax, vs[i].tokens, total));
      assert all[..n] == seq(n, i requires 0 <= i < n => Reward(f, tax, vs[..n][i].tokens, total));
    }
  }

  /** The fees are split between the rewards and the pool without loss. */
  predicate Conserved(f: nat, tax: nat, vs: seq<Bonded>, total: nat, poolBefore: nat, poolAfter: nat)
    requires tax <= UNIT
  {
    poolBefore + f * UNIT == poolAfter + if total > 0 then Rewards(f, tax, vs, total) else 0
  }

  /** The accounts that AllocateTokens moves fees between. */
  class Distribution {
    var redistribute: Amounts
    var moduleAccount: Amounts
    var communityPool: Amounts
    var rewards: map<Key, Amounts>

    /** `tax` is the community tax; `total` and `bonded` are the staking module's bonded tokens and validators. */
    method AllocateTokens(tax: nat, total: nat, bonded: seq<Bonded>)
      requires tax <= UNIT && Tokens(bonded) <= total
      modifies this
      ensures forall d :: Amt(redistribute, d) == 0
      ensures forall d :: Amt(moduleAccount, d) == Amt(old(moduleAccount), d) + Amt(old(redistribute), d)
      ensures total == 0 ==> rewards == old(rewards)
      ensures total > 0 ==> forall v, d ::
                Accrued(rewards, v, d) == Accrued(old(rewards), v, d)
                                        + RewardsOf(v, Amt(old(redistribute), d), tax, bonded, total)
      ensures total > 0 && DistinctNames(bonded) ==>
                && (forall i, d :: 0 <= i < |bonded| ==>
                      Accrued(rewards, bonded[i].validator, d)
                      == Accrued(old(rewards), bonded[i].validator, d)
                         + Reward(Amt(old(redistribute), d), tax, bonded[i].tokens, total))
                && (forall v, d :: !Listed(bonded, v) ==> Accrued(rewards, v, d) == Accrued(old(rewards), v, d))
      ensures forall d :: Conserved(Amt(old(redistribute), d), tax, bonded, total,
                                    Amt(old(communityPool), d), Amt(communityPool, d))
    {
      hide Reward, RewardCoins, Tokens, Accrued;
      var fees := redistribute;
      moduleAccount, redistribute := Plus(moduleAccount, fees), map[];
      if total == 0 {
        communityPool := Plus(communityPool, ToDec(fees));
        return;
      }
      var remaining := ToDec(fees);
      for i := 0 to |bonded|
        modifies this`rewards
        invariant forall d :: Amt(remaining, d) + Rewards(Amt(fees, d), tax, bonded[..i], total) == Amt(fees, d) * UNIT
        invariant forall v, d :: Accrued(rewards, v, d)
                              == Accrued(old(rewards), v, d) + RewardsOf(v, Amt(fees, d), tax, bonded[..i], total)
      {
        assert bonded[..i + 1][..i] == bonded[..i];
        var reward := RewardCoins(fees, tax, bonded[i].tokens, total);
        RewardsFit(fees, tax, bonded, i, total, remaining, reward);
        AllocateTokensToValidator(bonded[i].validator, reward);
        remaining := Minus(remaining, reward);
      }
      assert bonded[..|bonded|] == bonded;
      EachGetsItsOwn(old(rewards), rewards, fees, tax, bonded, total);
      communityPool := Plus(communityPool, remaining);
    }

    method AllocateTokensToValidator(v: Key, reward: Amounts)
      modifies this`rewards
      ensures forall w, d :: Accrued(rewards, w, d)
                          == Accrued(old(rewards), w, d) + if w == v then Amt(reward, d) else 0
    {
      rewards := rewards[v := Plus(if v in rewards then rewards[v] else map[], reward)];
    }
  }

  lemma {:induction false} TokensPrefix(vs: seq<Bonded>, i: nat)
    requires i <= |vs|
    ensures Tokens(vs[..i]) <= Tokens(vs)
    decreases |vs|
  {
    if i == |vs| {
      assert vs[..i] == vs;
    } else {
      TokensPrefix(vs[..|vs| - 1], i);
      assert vs[..|vs| - 1][..i] == vs[..i];
    }
  }

  /** In the loop the next reward is covered by what remains, in every denomination. */
  lemma RewardsFit(
    fees: Amounts, tax: nat, bonded: seq<Bonded>, i: nat, total: nat, remaining: Amounts, reward: Amounts)
    requires tax <= UNIT && total > 0 && Tokens(bonded) <= total && i < |bonded|
    requires forall d :: Amt(remaining, d) + Rewards(Amt(fees, d), tax, bonded[..i], total) == Amt(fees, d) * UNIT
    requires forall d :: Amt(reward, d) == Reward(Amt(fees, d), tax, bonded[i].tokens, total)
    ensures Within(reward, remaining)
  {
    var upTo := bonded[..i + 1];
    assert upTo[..i] == bonded[..i];
    TokensPrefix(bonded, i + 1);
    forall d ensures Amt(reward, d) <= Amt(remaining, d) {
      RewardsWithinShare(Amt(fees, d), tax, upTo, total);
    }
  }
}
