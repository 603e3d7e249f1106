/** The reward ledger of a consumer chain: splitting block fees, sending the provider's part, retries and refunds. */
module Ledger {
  import opened Coins

  datatype Transfer = Transfer(denom: Denom, amount: nat)

  /** Balances of the fee collector, the redistribution account and the account of coins to send,
      the transfers under way, and the height of the last transmission. */
  datatype Accounts = Accounts(
    collector: Amounts,
    redistribute: Amounts,
    toSend: Amounts,
    transit: seq<Transfer>,
    lastTransmission: int)

  // ---------------------------------------------------------------- splitting

  /** The consumer's part of whole coins: the fraction, rounded down. */
  function ConsumerPart(t: nat, frac: nat): nat { t * frac / UNIT }

  function ConsumerPartCoins(fees: Amounts, frac: nat): (r: Amounts)
    ensures forall d :: Amt(r, d) == MulRound(Amt(fees, d) * UNIT, frac) / UNIT
  {
    TruncateDecimal(MulDec(ToDec(fees), frac))
  }

  /** The code's rounded product followed by truncation is plain rounding down, and never exceeds the fees. */
  lemma ConsumerPartExact(fees: Amounts, frac: nat)
    requires frac <= UNIT
    ensures forall d :: Amt(ConsumerPartCoins(fees, frac), d) == ConsumerPart(Amt(fees, d), frac)
    ensures Within(ConsumerPartCoins(fees, frac), fees)
  {
    forall d
      ensures Amt(ConsumerPartCoins(fees, frac), d) == ConsumerPart(Amt(fees, d), frac)
      ensures ConsumerPart(Amt(fees, d), frac) <= Amt(fees, d)
    {
      MulRoundOfCoins(Amt(fees, d), frac);
      MulMonotone(frac, UNIT, Amt(fees, d));
    }
  }

  // ---------------------------------------------------------------- sending

  /** What is owed to the provider, one transfer for each allowed denomination with a balance. */
  function Owed(toSend: Amounts, allowed: seq<Denom>): seq<Transfer>
    decreases |allowed|
  {
    if allowed == [] then [] else
    var before, denom := allowed[..|allowed| - 1], allowed[|allowed| - 1];
    Owed(toSend, before)
    + if Amt(toSend, denom) == 0 || denom in before then [] else [Transfer(denom, Amt(toSend, denom))]
  }

  /** Whether d is listed, and e is not listed up to there. */
  ghost predicate ListedBefore(allowed: seq<Denom>, d: Denom, e: Denom) {
    exists p :: 0 <= p < |allowed| && allowed[p] == d && e !in allowed[..p + 1]
  }

  lemma ListedEarlier(before: seq<Denom>, denom: Denom, d: Denom, e: Denom)
    requires ListedBefore(before, d, e) || (d in before && e !in before)
    ensures ListedBefore(before + [denom], d, e)
  {
    var p :| 0 <= p < |before| && before[p] == d && e !in before[..p + 1];
    assert (before + [denom])[p] == d && (before + [denom])[..p + 1] == before[..p + 1];
  }

  /** Owed is the whole balance of every allowed denomination that has one, each once, in the order in which the
      denominations are first listed. */
  lemma {:induction false} OwedExactly(toSend: Amounts, allowed: seq<Denom>)
    ensures var owed := Owed(toSend, allowed);
            && (forall t :: t in owed <==> t.denom in allowed && t.amount == Amt(toSend, t.denom) && t.amount > 0)
            && (forall i, j :: 0 <= i < j < |owed| ==> ListedBefore(allowed, owed[i].denom, owed[j].denom))
            && (forall i, j :: 0 <= i < j < |owed| ==> owed[i].denom != owed[j].denom)
    decreases |allowed|
  {
    if allowed != [] {
      var before, denom := allowed[..|allowed| - 1], allowed[|allowed| - 1];
      assert allowed == before + [denom];
      OwedExactly(toSend, before);
      var owed, now := Owed(toSend, before), Owed(toSend, allowed);
      assert forall i :: 0 <= i < |owed| ==> owed[i] in owed && now[i] == owed[i];
      forall i, j | 0 <= i < j < |now|
        ensures ListedBefore(allowed, now[i].denom, now[j].denom) && now[i].denom != now[j].denom
      {
        hide ListedBefore;
        ListedEarlier(before, denom, now[i].denom, now[j].denom);
      }
    }
  }

  /** There are as many transfers as allowed denominations with a balance. */
  lemma {:induction false} OwedCount(toSend: Amounts, allowed: seq<Denom>)
    ensures |Owed(toSend, allowed)| == |set d | d in allowed && Amt(toSend, d) > 0|
    decreases |allowed|
  {
    if allowed != [] {
      var before, denom := allowed[..|allowed| - 1], allowed[|allowed| - 1];
      assert allowed == before + [denom];
      OwedCount(toSend, before);
      var counted := set d | d in before && Amt(toSend, d) > 0;
      var all := set d | d in allowed && Amt(toSend, d) > 0;
      if Amt(toSend, denom) > 0 && denom !in before {
        assert all == counted + {denom} && denom !in counted;
      } else {
        assert all == counted;
      }
    }
  }

  /** What is owed for the first denominations comes first. */
  lemma {:induction false} OwedPrefix(toSend: Amounts, allowed: seq<Denom>, n: nat)
    requires n <= |allowed|
    ensures Owed(toSend, allowed[..n]) <= Owed(toSend, allowed)
    decreases |allowed|
  {
    if n < |allowed| {
      var before := allowed[..|allowed| - 1];
      assert before[..n] == allowed[..n];
      OwedPrefix(toSend, before, n);
    } else {
      assert allowed[..n] == allowed;
    }
  }

  /** Whether all of n transfers succeed; results[k] says so of the k-th. */
  predicate AllSucceed(n: nat, results: seq<bool>) {
    n <= |results| && forall k :: 0 <= k < n ==> results[k]
  }

  /** The balances without those of the allowed denominations. */
  function Cleared(toSend: Amounts, allowed: seq<Denom>): (r: Amounts)
    ensures forall d :: Amt(r, d) == if d in allowed then 0 else Amt(toSend, d)
  {
    map d | d in toSend :: if d in allowed then 0 else toSend[d]
  }

  /** One more denomination is paid its whole balance, which is gone if it was listed before. */
  lemma OwedStep(toSend: Amounts, allowed: seq<Denom>, i: nat)
    requires i < |allowed|
    ensures var balance := Amt(Cleared(toSend, allowed[..i]), allowed[i]);
            if balance == 0 then
              && Owed(toSend, allowed[..i + 1]) == Owed(toSend, allowed[..i])
              && Cleared(toSend, allowed[..i + 1]) == Cleared(toSend, allowed[..i])
            else
              && Owed(toSend, allowed[..i + 1]) == Owed(toSend, allowed[..i]) + [Transfer(allowed[i], balance)]
              && Cleared(toSend, allowed[..i + 1]) == Cleared(toSend, allowed[..i])[allowed[i] := 0]
  {
    assert allowed[..i + 1][..i] == allowed[..i];
    assert allowed[..i + 1] == allowed[..i] + [allowed[i]];
  }

  /** What a block's end is given: parameters, channel and transfer outcomes. */
  datatype Conditions = Conditions(
    height: int, frac: nat, period: int, allowed: seq<Denom>, channelOpen: bool, memoOk: bool, results: seq<bool>)

  function Split(a: Accounts, frac: nat): Accounts
    requires frac <= UNIT
  {
    ConsumerPartExact(a.collector, frac);
    var part := ConsumerPartCoins(a.collector, frac);
    a.(collector := map[],
       redistribute := Plus(a.redistribute, part),
       toSend := Plus(a.toSend, Minus(a.collector, part)))
  }

  /** The split in amounts: the consumer's part is redistributed, the rest waits to be sent. */
  lemma SplitAmounts(a: Accounts, frac: nat, d: Denom)
    requires frac <= UNIT
    ensures var s := Split(a, frac);
            var part := ConsumerPart(Amt(a.collector, d), frac);
            && s.transit == a.transit && s.lastTransmission == a.lastTransmission
            && Amt(s.collector, d) == 0
            && Amt(s.redistribute, d) == Amt(a.redistribute, d) + part
            && Amt(s.toSend, d) + part == Amt(a.toSend, d) + Amt(a.collector, d)
  {
    ConsumerPartExact(a.collector, frac);
  }

  /** Whether a transmission is attempted. */
  predicate Due(a: Accounts, c: Conditions) { c.height - a.lastTransmission >= c.period }

  /** A failed attempt moves nothing, and yet counts as a transmission. */
  function Transmit(a: Accounts, c: Conditions): Accounts {
    var owed := Owed(a.toSend, c.allowed);
    if c.channelOpen && c.memoOk && AllSucceed(|owed|, c.results) then
      a.(toSend := Cleared(a.toSend, c.allowed), transit := a.transit + owed, lastTransmission := c.height)
    else a.(lastTransmission := c.height)
  }

  function AfterEndBlock(a: Accounts, c: Conditions): Accounts
    requires c.frac <= UNIT
  {
    var split := Split(a, c.frac);
    if Due(split, c) then Transmit(split, c) else split
  }

  // ---------------------------------------------------------------- the keeper's methods

  class RewardKeeper {
    var collector: Amounts
    var redistribute: Amounts
    var toSend: Amounts
    var transit: seq<Transfer>
    var lastTransmission: int

    ghost function View(): Accounts
      reads this
    {
      Accounts(collector, redistribute, toSend, transit, lastTransmission)
    }

    method DistributeRewardsInternally(frac: nat)
      requires frac <= UNIT
      modifies this`collector, this`redistribute, this`toSend
      ensures View() == Split(old(View()), frac)
      ensures forall d ::
                && Amt(collector, d) == 0
                && Amt(redistribute, d) == Amt(old(redistribute), d) + Amt(old(collector), d) * frac / UNIT
                && Amt(toSend, d) + Amt(old(collector), d) * frac / UNIT
                == Amt(old(toSend), d) + Amt(old(collector), d)
    {
      var consRedistrTokens := TruncateDecimal(MulDec(ToDec(collector), frac));
      ConsumerPartExact(collector, frac);
      var remainingTokens := Minus(collector, consRedistrTokens);
      redistribute := Plus(redistribute, consRedistrTokens);
      toSend := Plus(toSend, remainingTokens);
      collector := map[];
    }

    /** Reports success. It may stop halfway on an error, and relies on the caller to undo what it did. */
    method SendRewardsToProvider(c: Conditions) returns (ok: bool)
      modifies this`toSend, this`transit
      ensures var n := |set d | d in c.allowed && Amt(old(toSend), d) > 0|;
              ok <==> !c.channelOpen || (c.memoOk && n <= |c.results| && forall k :: 0 <= k < n ==> c.results[k])
      ensures !c.channelOpen ==> toSend == old(toSend) && transit == old(transit)
      ensures ok && c.channelOpen ==>
                && transit == old(transit) + Owed(old(toSend), c.allowed)
                && toSend == Cleared(old(toSend), c.allowed)
                && forall d :: Amt(toSend, d) == if d in c.allowed then 0 else Amt(old(toSend), d)
    {
      if !c.channelOpen {
        return true;
      }
      OwedCount(toSend, c.allowed);
      if !c.memoOk {
        return false;
      }
      ok := SendAllowed(c.allowed, c.results);
    }

    /** The loop over the allowed denominations: one transfer for every balance, up to the first that fails. */
    method SendAllowed(allowed: seq<Denom>, results: seq<bool>) returns (ok: bool)
      modifies this`toSend, this`transit
      ensures ok <==> AllSucceed(|Owed(old(toSend), allowed)|, results)
      ensures ok ==> transit == old(transit) + Owed(old(toSend), allowed) && toSend == Cleared(old(toSend), allowed)
    {
      var attempts := 0;
      assert allowed[..0] == [] && allowed[..|allowed|] == allowed;
      assert Owed(toSend, []) == [] && Cleared(toSend, []) == toSend;
      hide Owed, Cleared, Amt;
      for i := 0 to |allowed|
        invariant attempts == |Owed(old(toSend), allowed[..i])|
        invariant AllSucceed(attempts, results)
        invariant transit == old(transit) + Owed(old(toSend), allowed[..i])
        invariant toSend == Cleared(old(toSend), allowed[..i])
      {
        var denom := allowed[i];
        var balance := Amt(toSend, denom);
        OwedStep(old(toSend), allowed, i);
        if balance != 0 {
          OwedPrefix(old(toSend), allowed, i + 1);
          if attempts >= |results| || !results[attempts] {
            return false;
          }
          attempts := attempts + 1;
          toSend, transit := toSend[denom := 0], transit + [Transfer(denom, balance)];
        }
      }
      return true;
    }

    method EndBlockRD(c: Conditions)
      requires c.frac <= UNIT
      modifies this
      ensures View() == AfterEndBlock(old(View()), c)
      ensures lastTransmission
           == if c.height - old(lastTransmission) >= c.period then c.height else old(lastTransmission)
      // A failed attempt moves no coins beyond the split.
      ensures var split := Split(old(View()), c.frac).toSend;
              var n := |set d | d in c.allowed && Amt(split, d) > 0|;
              if c.height - old(lastTransmission) >= c.period && c.channelOpen && c.memoOk
                 && n <= |c.results| && forall k :: 0 <= k < n ==> c.results[k]
              then transit == old(transit) + Owed(split, c.allowed)
                   && forall d :: Amt(toSend, d) == if d in c.allowed then 0 else Amt(split, d)
              else transit == old(transit) && toSend == split
    {
      hide Split, Owed, Cleared;
      DistributeRewardsInternally(c.frac);
      if !(c.height - lastTransmission >= c.period) {
        return;
      }
      OwedCount(toSend, c.allowed);
      var cachedToSend, cachedTransit := toSend, transit;
      var ok := SendRewardsToProvider(c);
      if !ok {
        toSend, transit := cachedToSend, cachedTransit;
      }
      lastTransmission := c.height;
    }

    /** The estimate is what the next split will do with the fees collected so far. */
    method GetEstimatedNextFeeDistribution(frac: nat, period: int)
      returns (nextHeight: int, toConsumer: Amounts, toProvider: Amounts)
      requires frac <= UNIT
      ensures nextHeight == lastTransmission + period
      ensures Plus(redistribute, toConsumer) == Split(View(), frac).redistribute
      ensures Plus(toSend, toProvider) == Split(View(), frac).toSend
      ensures forall d ::
                && Amt(toConsumer, d) == Amt(collector, d) * frac / UNIT
                && Amt(toConsumer, d) + Amt(toProvider, d) == Amt(collector, d)
    {
      nextHeight := lastTransmission + period;
      toConsumer := TruncateDecimal(MulDec(ToDec(collector), frac));
      ConsumerPartExact(collector, frac);
      toProvider := Minus(collector, toConsumer);
    }
  }

  // ---------------------------------------------------------------- runs

  datatype Attempt = Attempt(height: int, period: int)

  datatype SplitRecord = SplitRecord(fees: Amounts, frac: nat)

  /** The ledger with what was collected and delivered over its whole life, every split and every attempt. */
  datatype Book = Book(
    acc: Accounts,
    height: int,
    collected: Amounts,
    delivered: Amounts,
    splits: seq<SplitRecord>,
    attempts: seq<Attempt>)

  datatype Step =
    | Collect(fees: Amounts)
    | EndBlock(conditions: Conditions)
    | Deliver(i: nat)
    | Refund(i: nat)

  predicate Legal(b: Book, step: Step) {
    match step
    case Collect(_) => true
    case EndBlock(c) => c.height == b.height + 1 && c.frac <= UNIT && c.period >= 1
    case Deliver(i) => i < |b.acc.transit|
    case Refund(i) => i < |b.acc.transit|
  }

  /** A transfer ends once: delivered to the provider, or returned to the account it was sent from. */
  function Without(ts: seq<Transfer>, i: nat): seq<Transfer>
    requires i < |ts|
  {
    ts[..i] + ts[i + 1..]
  }

  function Single(t: Transfer): Amounts { map[t.denom := t.amount] }

  function Next(b: Book, step: Step): Book
    requires Legal(b, step)
  {
    match step
    case Collect(fees) =>
      b.(acc := b.acc.(collector := Plus(b.acc.collector, fees)), collected := Plus(b.collected, fees))
    case EndBlock(c) =>
      b.(acc := AfterEndBlock(b.acc, c),
         height := c.height,
         splits := b.splits + [SplitRecord(b.acc.collector, c.frac)],
         attempts := if Due(b.acc, c) then b.attempts + [Attempt(c.height, c.period)] else b.attempts)
    case Deliver(i) =>
      b.(acc := b.acc.(transit := Without(b.acc.transit, i)),
         delivered := Plus(b.delivered, Single(b.acc.transit[i])))
    case Refund(i) =>
      b.(acc := b.acc.(transit := Without(b.acc.transit, i), toSend := Plus(b.acc.toSend, Single(b.acc.transit[i]))))
  }

  function InTransit(ts: seq<Transfer>, d: Denom): nat {
    if ts == [] then 0 else
    var n := |ts| - 1;
    InTransit(ts[..n], d) + if ts[n].denom == d then ts[n].amount else 0
  }

  /** The fees of all splits, and the consumer's parts of them. */
  function SplitFees(rs: seq<SplitRecord>, d: Denom): nat {
    if rs == [] then 0 else SplitFees(rs[..|rs| - 1], d) + Amt(rs[|rs| - 1].fees, d)
  }

  function SplitParts(rs: seq<SplitRecord>, d: Denom): nat {
    if rs == [] then 0 else
    SplitParts(rs[..|rs| - 1], d) + ConsumerPart(Amt(rs[|rs| - 1].fees, d), rs[|rs| - 1].frac)
  }

  /** The balances of one denomination. */
  predicate Balanced(b: Book, d: Denom) {
    && Amt(b.collected, d) == Amt(b.acc.collector, d) + SplitFees(b.splits, d)
    && Amt(b.acc.redistribute, d) == SplitParts(b.splits, d)
    && SplitFees(b.splits, d) == Amt(b.acc.redistribute, d) + Amt(b.acc.toSend, d)
                               + InTransit(b.acc.transit, d) + Amt(b.delivered, d)
  }

  ghost predicate Inv(b: Book) {
    && (forall d :: Balanced(b, d))
    && b.acc.lastTransmission == (if b.attempts == [] then 0 else b.attempts[|b.attempts| - 1].height)
    && (forall i :: 0 <= i < |b.attempts| - 1 ==>
          b.attempts[i + 1].height - b.attempts[i].height >= b.attempts[i + 1].period)
    && (b.attempts != [] ==> b.attempts[0].height >= b.attempts[0].period)
  }

  lemma {:induction false} InTransitConcat(a: seq<Transfer>, b: seq<Transfer>, d: Denom)
    ensures InTransit(a + b, d) == InTransit(a, d) + InTransit(b, d)
    decreases |b|
  {
    if b == [] {
      assert a + b == a;
    } else {
      assert (a + b)[..|a + b| - 1] == a + b[..|b| - 1];
      InTransitConcat(a, b[..|b| - 1], d);
    }
  }

  lemma InTransitWithout(ts: seq<Transfer>, i: nat, d: Denom)
    requires i < |ts|
    ensures InTransit(ts, d) == InTransit(Without(ts, i), d) + Amt(Single(ts[i]), d)
  {
    assert ts == ts[..i] + [ts[i]] + ts[i + 1..];
    InTransitConcat(ts[..i] + [ts[i]], ts[i + 1..], d);
    InTransitConcat(ts[..i], [ts[i]], d);
    InTransitConcat(ts[..i], ts[i + 1..], d);
    assert [ts[i]][..0] == [];
  }

  /** A successful transmission turns balances into transfers of the same amounts. */
  lemma {:induction false} OwedConserves(toSend: Amounts, allowed: seq<Denom>, d: Denom)
    ensures Amt(Cleared(toSend, allowed), d) + InTransit(Owed(toSend, allowed), d) == Amt(toSend, d)
    decreases |allowed|
  {
    if allowed != [] {
      var n := |allowed| - 1;
      OwedConserves(toSend, allowed[..n], d);
      OwedStep(toSend, allowed, n);
      assert allowed[..n + 1] == allowed;
      var balance := Amt(Cleared(toSend, allowed[..n]), allowed[n]);
      if balance != 0 {
        InTransitConcat(Owed(toSend, allowed[..n]), [Transfer(allowed[n], balance)], d);
        assert [Transfer(allowed[n], balance)][..0] == [];
      }
      hide Owed, Cleared;
    }
  }

  /** A transmission, made or not, leaves what waits and what is under way together as it was. */
  lemma TransmitConserves(a: Accounts, c: Conditions, d: Denom)
    ensures var t := Transmit(a, c);
            && t.collector == a.collector && t.redistribute == a.redistribute
            && Amt(t.toSend, d) + InTransit(t.transit, d) == Amt(a.toSend, d) + InTransit(a.transit, d)
  {
    OwedConserves(a.toSend, c.allowed, d);
    InTransitConcat(a.transit, Owed(a.toSend, c.allowed), d);
    hide Owed, Cleared, InTransit, AllSucceed;
  }

  lemma OneMoreSplit(rs: seq<SplitRecord>, r: SplitRecord, d: Denom)
    ensures SplitFees(rs + [r], d) == SplitFees(rs, d) + Amt(r.fees, d)
    ensures SplitParts(rs + [r], d) == SplitParts(rs, d) + ConsumerPart(Amt(r.fees, d), r.frac)
  {
    assert (rs + [r])[..|rs|] == rs;
  }

  /** A block's end in amounts, whatever becomes of the transmission. */
  lemma AfterEndBlockAmounts(a: Accounts, c: Conditions, d: Denom)
    requires c.frac <= UNIT
    ensures var r := AfterEndBlock(a, c);
            var part := ConsumerPart(Amt(a.collector, d), c.frac);
            && Amt(r.collector, d) == 0
            && Amt(r.redistribute, d) == Amt(a.redistribute, d) + part
            && Amt(r.toSend, d) + InTransit(r.transit, d) + part
            == Amt(a.toSend, d) + InTransit(a.transit, d) + Amt(a.collector, d)
  {
    SplitAmounts(a, c.frac, d);
    TransmitConserves(Split(a, c.frac), c, d);
    hide Split, Transmit, InTransit, ConsumerPart, Amt;
  }

  lemma EndBlockBalances(b: Book, c: Conditions, d: Denom)
    requires Balanced(b, d) && Legal(b, EndBlock(c))
    ensures Balanced(Next(b, EndBlock(c)), d)
  {
    AfterEndBlockAmounts(b.acc, c, d);
    OneMoreSplit(b.splits, SplitRecord(b.acc.collector, c.frac), d);
    var t := Next(b, EndBlock(c));
    assert t.collected == b.collected && t.delivered == b.delivered && t.acc == AfterEndBlock(b.acc, c);
    assert t.splits == b.splits + [SplitRecord(b.acc.collector, c.frac)];
    hide Next, Legal, AfterEndBlock, InTransit, ConsumerPart, SplitFees, SplitParts, Amt, Due;
  }

  lemma NextKeeps(b: Book, step: Step)
    requires Inv(b) && Legal(b, step)
    ensures Inv(Next(b, step))
  {
    forall d ensures Balanced(Next(b, step), d) {
      assert Balanced(b, d);
      match step
      case Collect(_) =>
      case EndBlock(c) => EndBlockBalances(b, c, d);
      case Deliver(i) => InTransitWithout(b.acc.transit, i, d);
      case Refund(i) => InTransitWithout(b.acc.transit, i, d);
    }
  }

  predicate Initial(b: Book) {
    b == Book(Accounts(map[], map[], map[], [], 0), b.height, map[], map[], [], [])
  }

  ghost predicate LegalRun(b: Book, steps: seq<Step>)
    decreases |steps|
  {
    steps == [] || (Legal(b, steps[0]) && LegalRun(Next(b, steps[0]), steps[1..]))
  }

  ghost function Exec(b: Book, steps: seq<Step>): Book
    requires LegalRun(b, steps)
    decreases |steps|
  {
    if steps == [] then b else Exec(Next(b, steps[0]), steps[1..])
  }

  lemma {:induction false} ExecKeeps(b: Book, steps: seq<Step>)
    requires Inv(b) && LegalRun(b, steps)
    ensures Inv(Exec(b, steps))
    decreases |steps|
  {
    if steps != [] {
      NextKeeps(b, steps[0]);
      ExecKeeps(Next(b, steps[0]), steps[1..]);
    }
  }

  /** In every run and every denomination: what was collected is still with the collector, redistributed, waiting to
      be sent, under way or delivered; what was redistributed is the rounded-down fraction of each block's fees,
      each fee being split once, whatever was refunded; and attempts are at least the period apart. */
  lemma LedgerConservation(start: Book, steps: seq<Step>, d: Denom)
    requires Initial(start) && LegalRun(start, steps)
    ensures var b := Exec(start, steps);
            && Amt(b.collected, d) == Amt(b.acc.collector, d) + Amt(b.acc.redistribute, d) + Amt(b.acc.toSend, d)
                                    + InTransit(b.acc.transit, d) + Amt(b.delivered, d)
            && Amt(b.acc.redistribute, d) == SplitParts(b.splits, d)
            && SplitFees(b.splits, d) == Amt(b.collected, d) - Amt(b.acc.collector, d)
            && (forall i :: 0 <= i < |b.attempts| - 1 ==>
                  b.attempts[i + 1].height - b.attempts[i].height >= b.attempts[i + 1].period)
  {
    assert forall e :: Balanced(start, e);
    ExecKeeps(start, steps);
    assert Balanced(Exec(start, steps), d);
  }

  /** At the end of a block an attempt is made exactly if the period has passed since the last one, counted from
      height 0 before the first, and it leaves the block's height behind whether or not anything was sent. */
  lemma AttemptsExactly(start: Book, steps: seq<Step>, c: Conditions)
    requires Initial(start) && LegalRun(start, steps) && Legal(Exec(start, steps), EndBlock(c))
    ensures var b := Exec(start, steps);
            var t := Next(b, EndBlock(c));
            var last := if b.attempts == [] then 0 else b.attempts[|b.attempts| - 1].height;
            if c.height - last >= c.period
            then t.attempts == b.attempts + [Attempt(c.height, c.period)] && t.acc.lastTransmission == c.height
            else t.attempts == b.attempts && t.acc.lastTransmission == last
  {
    assert forall e :: Balanced(start, e);
    ExecKeeps(start, steps);
  }
}
