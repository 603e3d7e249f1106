/** Safety of validator set replication, the changeover, the height map and the historical window over whole runs. */
module ReplicationRun {
  import opened Common
  import opened Valset
  import opened ConsumerSpec
  import opened Chain
  import StoreKeys
  import Genesis

  // ---------------------------------------------------------------- the invariants

  /** All updates of all packets received, in order. */
  ghost function AllUpdates(rs: seq<Receipt>): seq<Update> {
    if rs == [] then [] else AllUpdates(rs[..|rs| - 1]) + rs[|rs| - 1].updates
  }

  /** The set the provider means the consumer to have: the initial one with every update applied in order. */
  ghost function Provided(s: Sys): Powers {
    Apply(Apply(map[], s.origin.valset), AllUpdates(s.log.receipts))
  }

  ghost function Base(s: Sys): Powers {
    if s.st.preCCV then Apply(map[], s.st.initialSet) else s.st.vals
  }

  function PendingList(st: State): seq<Update> {
    if st.pending.Some? then st.pending.value else []
  }

  ghost predicate Positive(m: Powers) {
    forall k :: k in m ==> m[k] >= 1
  }

  ghost predicate ValsInv(s: Sys) {
    && GoodValset(s.origin.valset)
    && (s.st.preCCV ==> s.st.vals == map[] && s.st.initialSet == s.origin.valset)
    && Positive(s.st.vals)
    && DistinctKeys(PendingList(s.st)) && (forall u :: u in PendingList(s.st) ==> u.power >= 0)
    && Apply(Base(s), PendingList(s.st)) == Provided(s)
  }

  /** Where the changeover stands in terms of heights. */
  ghost predicate BlockInv(s: Sys) {
    && (!s.block.inside ==> s.st.pending.None? || (s.st.prevStandalone && s.block.height == s.st.initHeight))
    && (s.st.prevStandalone ==> s.block.height >= s.st.initHeight - 1
                                && (s.block.inside ==> s.block.height >= s.st.initHeight))
    && (s.st.preCCV <==> s.st.prevStandalone
                         && s.block.height <= (if s.block.inside then s.st.initHeight else s.st.initHeight - 1))
    && s.engine.changeovers == (if s.st.prevStandalone && !s.st.preCCV then 1 else 0)
  }

  function Top(s: Sys): int {
    if s.block.inside then s.block.height + 1 else s.block.height + 2
  }

  function LastEnded(s: Sys): int {
    if s.block.inside then s.block.height - 1 else s.block.height
  }

  /** The first height the run knows the set of: that of the upgrade, or the one after genesis. */
  function FirstHeight(s: Sys): int {
    if s.st.prevStandalone then s.st.initHeight else s.st.initHeight + 1
  }

  /** Whether the set in effect at height k comes from the provider. Before the first height known,
      a chain that was standalone had its own set. */
  predicate ProviderGoverns(s: Sys, k: int) {
    if k in s.engine.at && k in s.engine.provider then s.engine.provider[k] else !s.st.prevStandalone
  }

  /** The heights the run knows something about: no gaps. */
  ghost predicate EngineKnows(s: Sys) {
    && FirstHeight(s) < Top(s)
    && (forall k :: k in s.engine.at <==> FirstHeight(s) <= k <= Top(s))
    && (forall k :: k in s.engine.provider <==> FirstHeight(s) <= k <= Top(s))
    && (forall k :: k in s.engine.valsAt <==> FirstHeight(s) - 1 <= k <= LastEnded(s))
  }

  /** What the engine has been handed, and which heights it takes from the provider. */
  ghost predicate EngineFollows(s: Sys) {
    && EngineKnows(s)
    && s.engine.acceptable
    && s.engine.at[Top(s)] == (if s.st.preCCV then s.origin.standalone else s.st.vals)
    && (forall k :: k in s.engine.provider ==> (s.engine.provider[k] <==> ChangeoverIsComplete(s.st, k)))
  }

  /** The sets in effect are the cross-chain sets of two blocks before. */
  ghost predicate EngineHistory(s: Sys) {
    && EngineKnows(s)
    && s.engine.at[FirstHeight(s)] == (if s.st.prevStandalone then s.origin.earlier else Apply(map[], s.origin.valset))
    && s.engine.valsAt[LastEnded(s)] == s.st.vals
    && (forall k :: k in s.engine.valsAt ==>
          s.engine.at[k + 2] == if s.engine.provider[k + 2] then s.engine.valsAt[k] else s.origin.standalone)
  }

  ghost predicate EngineInv(s: Sys) {
    EngineFollows(s) && EngineHistory(s)
  }

  /** The id of the last packet received in a block before height k, or 0. */
  ghost function LastIdBefore(rs: seq<Receipt>, k: int): nat {
    if rs == [] then 0 else
    var last := rs[|rs| - 1];
    if last.height < k then last.vscId else LastIdBefore(rs[..|rs| - 1], k)
  }

  ghost predicate HeightInv(s: Sys) {
    && (forall i :: 0 <= i < |s.log.receipts| ==> s.log.receipts[i].height <= s.block.height)
    && (forall k :: k in s.st.vscIds ==> k <= s.block.height + 1)
    && (forall k: nat :: k <= s.block.height + 1 ==> GetVscId(s.st, k) == LastIdBefore(s.log.receipts, k))
    && s.block.height + 1 < INT64_LIMIT
  }

  /** Stored historical entries form one interval ending at the current height,
      each holding the set at the end of the block before. */
  ghost predicate WindowInv(s: Sys) {
    && s.st.params.historicalEntries >= 1
    && 0 <= s.log.lowest <= s.block.height + 1
    && (forall k :: k in s.st.history <==> s.log.lowest <= k <= s.block.height)
    && (forall k :: k in s.st.history ==> k - 1 in s.engine.valsAt && s.st.history[k] == s.engine.valsAt[k - 1])
  }

  ghost predicate Inv(s: Sys) {
    ValsInv(s) && BlockInv(s) && EngineInv(s) && HeightInv(s) && WindowInv(s)
  }

  // ---------------------------------------------------------------- steps that only touch the queue

  ghost predicate SameReplication(s: Sys, t: Sys) {
    && t.origin == s.origin && t.block == s.block && t.engine == s.engine
    && t.log.receipts == s.log.receipts && t.log.lowest == s.log.lowest
    && t.st.vals == s.st.vals && t.st.pending == s.st.pending && t.st.preCCV == s.st.preCCV
    && t.st.prevStandalone == s.st.prevStandalone && t.st.initHeight == s.st.initHeight
    && t.st.initialSet == s.st.initialSet && t.st.vscIds == s.st.vscIds && t.st.history == s.st.history
    && t.st.params.historicalEntries >= 1
  }

  lemma SameReplicationKeeps(s: Sys, t: Sys)
    requires Inv(s) && SameReplication(s, t)
    ensures Inv(t)
  {
    EngineUntouched(s, t);
    hide EngineInv;
    assert forall k: nat :: GetVscId(t.st, k) == GetVscId(s.st, k);
  }

  /** The engine is untouched between two ends of a block, also by the start of a block. */
  lemma EngineUntouched(s: Sys, t: Sys)
    requires EngineInv(s)
    requires t.engine == s.engine && t.origin == s.origin && Top(t) == Top(s) && LastEnded(t) == LastEnded(s)
    requires t.st.vals == s.st.vals && t.st.preCCV == s.st.preCCV
    requires t.st.prevStandalone == s.st.prevStandalone && t.st.initHeight == s.st.initHeight
    ensures EngineInv(t)
  {
    assert FirstHeight(t) == FirstHeight(s);
    hide Top, LastEnded, FirstHeight;
    assert forall k :: ChangeoverIsComplete(t.st, k) == ChangeoverIsComplete(s.st, k);
  }

  lemma AcknowledgementTouches(st: State, packet: Packet, source: string, ack: Ack, closable: set<string>)
    ensures var o := OnAcknowledgement(st, packet, source, ack, closable);
            o.Processed? ==> o.state == st.(record := o.state.record, queue := o.state.queue)
  {
  }

  lemma AcknowledgingIsApart(s: Sys, seqNo: nat, ack: Ack, closable: set<string>)
    requires s.st.params.historicalEntries >= 1 && seqNo in s.net.inFlight
    ensures SameReplication(s, Acknowledging(s, seqNo, ack, closable))
  {
    AcknowledgementTouches(s.st, s.net.inFlight[seqNo].packet, s.st.channel, ack, closable);
  }

  lemma SlashRequestIsApart(s: Sys, validator: Key, height: int, power: int, infraction: Infraction)
    requires s.st.params.historicalEntries >= 1
    requires Legal(s, SlashRequest(validator, height, power, infraction))
    ensures SameReplication(s, Next(s, SlashRequest(validator, height, power, infraction)))
  {
    var route := SlashWithInfractionReason(s.st, validator, height, power, infraction);
    assert route.ToProvider? ==> route.state == s.st.(queue := route.state.queue, downtime := route.state.downtime);
    hide SlashWithInfractionReason, Joined;
  }

  // ---------------------------------------------------------------- receiving

  lemma ReceivingKeepsVals(s: Sys, channel: string, data: VSCData)
    requires ValsInv(s) && Legal(s, RecvVSC(channel, data))
    ensures ValsInv(Receiving(s, channel, data))
  {
    var t := Receiving(s, channel, data);
    if OnRecvVSC(s.st, s.block.height, channel, data).Received? {
      var current, new' := PendingList(s.st), data.updates.value;
      AccumulatedFacts(current + new');
      assert t.st.pending == Some(Accumulated(current + new'));
      ApplyIsPatch(map[], s.origin.valset);
      assert Positive(Base(s));
      AccumulatedRefinesInOrder(Base(s), current, new');
      var rs := t.log.receipts;
      assert rs[..|rs| - 1] == s.log.receipts;
      assert AllUpdates(rs) == AllUpdates(s.log.receipts) + new';
      ApplyConcat(Apply(map[], s.origin.valset), AllUpdates(s.log.receipts), new');
    }
  }

  lemma ReceivingKeepsOthers(s: Sys, channel: string, data: VSCData)
    requires BlockInv(s) && EngineInv(s) && WindowInv(s) && Legal(s, RecvVSC(channel, data))
    ensures var t := Receiving(s, channel, data); BlockInv(t) && EngineInv(t) && WindowInv(t)
  {
    var t := Receiving(s, channel, data);
    hide EngineInv;
    EngineUntouched(s, t);
  }

  lemma ReceivingKeepsHeights(s: Sys, channel: string, data: VSCData)
    requires HeightInv(s) && Legal(s, RecvVSC(channel, data))
    ensures HeightInv(Receiving(s, channel, data))
  {
    var t := Receiving(s, channel, data);
    if OnRecvVSC(s.st, s.block.height, channel, data).Received? {
      var rs := t.log.receipts;
      assert rs[..|rs| - 1] == s.log.receipts;
      forall k: nat | k <= t.block.height + 1 ensures GetVscId(t.st, k) == LastIdBefore(rs, k) {
        if k <= t.block.height {
          assert GetVscId(t.st, k) == GetVscId(s.st, k);
        }
      }
    }
  }

  // ---------------------------------------------------------------- the start of a block

  lemma {:induction false} LastIdStable(rs: seq<Receipt>, a: int, b: int)
    requires a <= b && forall i :: 0 <= i < |rs| ==> rs[i].height < a
    ensures LastIdBefore(rs, a) == LastIdBefore(rs, b)
    decreases |rs|
  {
  }

  lemma StartingKeepsHeights(s: Sys, time: int)
    requires HeightInv(s) && Legal(s, StartBlock(time))
    ensures HeightInv(Starting(s, time))
  {
    var t := Starting(s, time);
    var h := t.block.height;
    LastIdStable(s.log.receipts, h, h + 1);
    forall k: nat | k <= h + 1 ensures GetVscId(t.st, k) == LastIdBefore(t.log.receipts, k) {
      if k <= h {
        assert GetVscId(t.st, k) == GetVscId(s.st, k);
      }
    }
  }

  /** Pruning a contiguous history from height i down leaves exactly the heights above i. */
  lemma {:induction false} PruneInterval(history: map<int, Powers>, lo: int, hi: int, i: int)
    requires 0 <= lo && i <= hi && forall k :: k in history <==> lo <= k <= hi
    ensures forall k :: k in Prune(history, i) <==> lo <= k <= hi && k > i
    ensures forall k :: k in Prune(history, i) ==> Prune(history, i)[k] == history[k]
  {
    PruneFrom(history, lo, hi, i, i);
  }

  lemma {:induction false} PruneFrom(history: map<int, Powers>, lo: int, hi: int, i: int, top: int)
    requires 0 <= lo && i <= top <= hi
    requires forall k :: k in history <==> lo <= k <= hi && !(i < k <= top)
    ensures forall k :: k in Prune(history, i) <==> lo <= k <= hi && k > top
    ensures forall k :: k in Prune(history, i) ==> Prune(history, i)[k] == history[k]
    decreases if i < 0 then 0 else i + 1
  {
    if i >= 0 && i in history {
      PruneFrom(history - {i}, lo, hi, i - 1, top);
    }
  }

  /** With n >= 1 entries kept, tracking at the next height H leaves exactly the heights from
      max(previous lowest, H - n + 1) to H: contiguous, and at most n. */
  lemma WindowExact(st: State, lo: int, height: int)
    requires 0 <= lo <= height && st.params.historicalEntries >= 1
    requires forall k :: k in st.history <==> lo <= k < height
    ensures var n := st.params.historicalEntries;
            var lo' := if lo <= height - n then height - n + 1 else lo;
            && (forall k :: k in TrackHistory(st, height) <==> lo' <= k <= height)
            && height - lo' + 1 <= n
            && (forall k :: lo' <= k < height ==> TrackHistory(st, height)[k] == st.history[k])
            && TrackHistory(st, height)[height] == st.vals
  {
    PruneInterval(st.history, lo, height - 1, height - st.params.historicalEntries);
  }

  ghost predicate Interval(history: map<int, Powers>, lo: int, hi: int) {
    lo <= hi && forall k :: k in history <==> lo <= k <= hi
  }

  /** The window stays an interval ending at the current height exactly when an entry is kept;
      with none kept, nothing at all is pruned and the current height is left out. */
  lemma WindowNeedsAnEntry(st: State, lo: int, height: int)
    requires 0 <= lo <= height && st.params.historicalEntries >= 0
    requires forall k :: k in st.history <==> lo <= k < height
    ensures (exists lo' :: Interval(TrackHistory(st, height), lo', height)) <==> st.params.historicalEntries >= 1
    ensures st.params.historicalEntries == 0 ==> TrackHistory(st, height) == st.history
  {
    if st.params.historicalEntries >= 1 {
      WindowExact(st, lo, height);
      var n := st.params.historicalEntries;
      assert Interval(TrackHistory(st, height), if lo <= height - n then height - n + 1 else lo, height);
    }
  }

  /** The stored heights move on by one block, each still holding the set of the block before. */
  lemma WindowMoves(st: State, lo: int, height: int, valsAt: map<int, Powers>)
    requires 0 <= lo <= height && st.params.historicalEntries >= 1
    requires forall k :: k in st.history <==> lo <= k < height
    requires forall k :: k in st.history ==> k - 1 in valsAt && st.history[k] == valsAt[k - 1]
    requires height - 1 in valsAt && valsAt[height - 1] == st.vals
    ensures var n := st.params.historicalEntries;
            var lo' := if lo <= height - n then height - n + 1 else lo;
            && 0 <= lo' <= height + 1 && (forall k :: k in TrackHistory(st, height) <==> lo' <= k <= height)
    ensures forall k :: k in TrackHistory(st, height) ==>
              k - 1 in valsAt && TrackHistory(st, height)[k] == valsAt[k - 1]
  {
    WindowExact(st, lo, height);
    hide TrackHistory;
  }

  lemma LastSetKnown(s: Sys)
    requires EngineHistory(s)
    ensures LastEnded(s) in s.engine.valsAt && s.engine.valsAt[LastEnded(s)] == s.st.vals
  {
  }

  lemma StartingKeepsWindow(s: Sys, time: int)
    requires WindowInv(s) && EngineHistory(s) && Legal(s, StartBlock(time))
    ensures WindowInv(Starting(s, time))
  {
    hide EngineHistory, TrackHistory, GetVscId;
    LastSetKnown(s);
    WindowMoves(s.st, s.log.lowest, s.block.height + 1, s.engine.valsAt);
  }

  lemma StartingKeepsVals(s: Sys, time: int)
    requires ValsInv(s) && BlockInv(s) && EngineInv(s) && Legal(s, StartBlock(time))
    ensures var t := Starting(s, time); ValsInv(t) && BlockInv(t) && EngineInv(t)
  {
    var t := Starting(s, time);
    hide EngineInv, TrackHistory;
    EngineUntouched(s, t);
  }

  // ---------------------------------------------------------------- the end of a block

  lemma EndBlockVals(st: State, now: int, accepted: seq<bool>)
    ensures var t := EndBlock(st, now, accepted);
            t == st.(queue := t.queue, record := t.record, downtime := t.downtime,
                     vals := if st.preCCV then Apply(st.vals, st.initialSet) else Apply(st.vals, PendingList(st)),
                     pending := if st.preCCV then st.pending else None,
                     preCCV := false)
  {
    if !st.preCCV {
      var sent := SendPackets(st, now, accepted);
      assert sent == st.(queue := sent.queue, record := sent.record);
    }
  }

  lemma FinishingKeepsVals(s: Sys, accepted: seq<bool>, standalone: seq<Key>)
    requires ValsInv(s)
    ensures ValsInv(Finishing(s, accepted, standalone))
    ensures !s.st.preCCV ==> Finishing(s, accepted, standalone).st.vals == Provided(s)
  {
    EndBlockVals(s.st, s.block.time, Takes(s, accepted));
    ApplyIsPatch(map[], s.origin.valset);
    ApplyIsPatch(s.st.vals, PendingList(s.st));
  }

  lemma FinishingKeepsBlocks(s: Sys, accepted: seq<bool>, standalone: seq<Key>)
    requires BlockInv(s) && EngineInv(s) && s.block.inside
    ensures BlockInv(Finishing(s, accepted, standalone))
  {
    EndBlockVals(s.st, s.block.time, Takes(s, accepted));
  }

  /** The list a block returns is acceptable to the engine and gives it the new cross-chain set. */
  lemma UpdatesFitEngine(s: Sys, accepted: seq<bool>, standalone: seq<Key>)
    requires ValsInv(s) && EngineInv(s) && Legal(s, FinishBlock(accepted, standalone))
    ensures var now, updates := s.engine.at[s.block.height + 1], EndBlockUpdates(s.st, standalone);
            && EngineAccepts(now, updates)
            && EngineApply(now, updates) == EndBlock(s.st, s.block.time, Takes(s, accepted)).vals
  {
    EndBlockVals(s.st, s.block.time, Takes(s, accepted));
    var now := s.engine.at[s.block.height + 1];
    if s.st.preCCV {
      ChangeoverReplacesSet(now, standalone, s.st.initialSet);
    } else {
      EngineFollowsStore(s.st.vals, PendingList(s.st));
    }
  }

  /** From the last block in the middle of it to its end. */
  ghost predicate EndsWith(s: Sys, t: Sys, updates: seq<Update>) {
    && s.block.inside && t.block == s.block.(inside := false) && t.origin == s.origin
    && t.st.prevStandalone == s.st.prevStandalone && t.st.initHeight == s.st.initHeight && !t.st.preCCV
    && Top(s) in s.engine.at && Top(s) in s.engine.provider
    && EngineAccepts(s.engine.at[Top(s)], updates) && EngineApply(s.engine.at[Top(s)], updates) == t.st.vals
    && t.engine == EngineAfter(s, t.st, updates)
  }

  lemma EngineAfterFollows(s: Sys, t: Sys, updates: seq<Update>)
    requires BlockInv(s) && EngineFollows(s) && EndsWith(s, t, updates)
    ensures EngineFollows(t) && t.engine.provider[Top(t)]
  {
    hide EngineAccepts, EngineApply;
    assert s.st.preCCV || (s.engine.provider[Top(s)] <==> ChangeoverIsComplete(s.st, Top(s)));
    forall k | k in t.engine.provider ensures t.engine.provider[k] <==> ChangeoverIsComplete(t.st, k) {
      if k != Top(t) {
        assert s.engine.provider[k] <==> ChangeoverIsComplete(s.st, k);
      } else {
        assert s.engine.provider[k - 1] <==> ChangeoverIsComplete(s.st, k - 1);
      }
    }
  }

  lemma EngineAfterHistory(s: Sys, t: Sys, updates: seq<Update>)
    requires EngineHistory(s) && EngineFollows(t) && t.engine.provider[Top(t)] && EndsWith(s, t, updates)
    ensures EngineHistory(t)
  {
    hide EngineAccepts, EngineApply, ChangeoverIsComplete, BlockInv;
    forall k | k in t.engine.valsAt
      ensures t.engine.at[k + 2] == if t.engine.provider[k + 2] then t.engine.valsAt[k] else t.origin.standalone
    {
      if k != s.block.height {
        assert k in s.engine.valsAt && k + 2 != Top(t);
      } else {
        assert k + 2 == Top(t) && t.engine.at[k + 2] == t.st.vals;
      }
    }
  }

  lemma FinishingKeepsEngine(s: Sys, accepted: seq<bool>, standalone: seq<Key>)
    requires ValsInv(s) && BlockInv(s) && EngineInv(s) && Legal(s, FinishBlock(accepted, standalone))
    ensures EngineInv(Finishing(s, accepted, standalone))
  {
    var t := Finishing(s, accepted, standalone);
    EndBlockVals(s.st, s.block.time, Takes(s, accepted));
    UpdatesFitEngine(s, accepted, standalone);
    EngineAfterFollows(s, t, EndBlockUpdates(s.st, standalone));
    EngineAfterHistory(s, t, EndBlockUpdates(s.st, standalone));
  }

  lemma FinishingKeepsRest(s: Sys, accepted: seq<bool>, standalone: seq<Key>)
    requires HeightInv(s) && WindowInv(s) && EngineInv(s) && s.block.inside
    ensures var t := Finishing(s, accepted, standalone); HeightInv(t) && WindowInv(t)
  {
    var t := Finishing(s, accepted, standalone);
    EndBlockVals(s.st, s.block.time, Takes(s, accepted));
    assert forall k: nat :: GetVscId(t.st, k) == GetVscId(s.st, k);
    hide EndBlock, Launch, SentCount, EndBlockUpdates, LeftFront, EngineFollows;
  }

  // ---------------------------------------------------------------- all steps, all runs

  lemma NextKeeps(s: Sys, step: Step)
    requires Inv(s) && Legal(s, step)
    ensures Inv(Next(s, step))
  {
    match step
    case StartBlock(time) =>
      StartingKeepsVals(s, time);
      StartingKeepsHeights(s, time);
      StartingKeepsWindow(s, time);
    case SlashRequest(validator, height, power, infraction) =>
      SlashRequestIsApart(s, validator, height, power, infraction);
      SameReplicationKeeps(s, Next(s, step));
    case RecvVSC(channel, data) =>
      ReceivingKeepsVals(s, channel, data);
      ReceivingKeepsOthers(s, channel, data);
      ReceivingKeepsHeights(s, channel, data);
    case Acknowledge(seqNo, ack, closable) =>
      AcknowledgingIsApart(s, seqNo, ack, closable);
      SameReplicationKeeps(s, Next(s, step));
    case FinishBlock(accepted, standalone) =>
      FinishingKeepsVals(s, accepted, standalone);
      FinishingKeepsBlocks(s, accepted, standalone);
      FinishingKeepsEngine(s, accepted, standalone);
      FinishingKeepsRest(s, accepted, standalone);
    case _ =>
      SameReplicationKeeps(s, Next(s, step));
  }

  lemma InitialVals(
    s: Sys, g: Genesis.GenesisState, h: nat, client: string, time: int, standalone: Powers, earlier: Powers)
    requires InitialFrom(s, g, h, client, time, standalone, earlier)
    ensures ValsInv(s)
  {
    ApplyIsPatch(map[], g.valset);
  }

  lemma InitialRest(
    s: Sys, g: Genesis.GenesisState, h: nat, client: string, time: int, standalone: Powers, earlier: Powers)
    requires InitialFrom(s, g, h, client, time, standalone, earlier)
    ensures BlockInv(s) && HeightInv(s) && WindowInv(s)
  {
    hide EngineApply, EngineAccepts, Apply, DistinctKeys;
  }

  /** What a genesis sets that the engine's side depends on. */
  lemma InitialFields(g: Genesis.GenesisState, h: nat, client: string)
    requires g.newChain && GoodParams(g.params)
    ensures var st := Genesis.InitState(Genesis.EMPTY, g, h, Some(client));
            && st.initHeight == h && st.prevStandalone == g.preCCV && st.preCCV == g.preCCV
            && st.vals == if g.preCCV then map[] else Apply(map[], g.valset)
  {
  }

  lemma NewChainEngine(g: Genesis.GenesisState, h: nat, client: string, time: int)
    requires g.newChain && !g.preCCV && GoodParams(g.params) && GoodValset(g.valset)
    ensures EngineInv(NewChain(g, h, client, time))
  {
    InitialFields(g, h, client);
    ApplyIsPatch(map[], g.valset);
    assert EngineApply(map[], g.valset) == Apply(map[], g.valset);
    hide EngineApply, Apply, Patch, Genesis.InitState;
  }

  lemma UpgradedEngine(
    g: Genesis.GenesisState, h: nat, client: string, time: int, standalone: Powers, earlier: Powers)
    requires g.newChain && g.preCCV && GoodParams(g.params) && h >= 1
    ensures EngineInv(Upgraded(g, h, client, time, standalone, earlier))
  {
    InitialFields(g, h, client);
    hide EngineApply, Apply, Patch, Genesis.InitState;
  }

  lemma InitialHolds(
    s: Sys, g: Genesis.GenesisState, h: nat, client: string, time: int, standalone: Powers, earlier: Powers)
    requires InitialFrom(s, g, h, client, time, standalone, earlier)
    ensures Inv(s)
  {
    hide ValsInv, BlockInv, EngineInv, HeightInv, WindowInv, NewChain, Upgraded;
    InitialVals(s, g, h, client, time, standalone, earlier);
    InitialRest(s, g, h, client, time, standalone, earlier);
    if g.preCCV {
      UpgradedEngine(g, h, client, time, standalone, earlier);
    } else {
      NewChainEngine(g, h, client, time);
    }
  }

  lemma {:induction false} ExecKeeps(s: Sys, steps: seq<Step>)
    requires Inv(s) && LegalRun(s, steps)
    ensures Inv(Exec(s, steps))
    decreases |steps|
  {
    if steps != [] {
      NextKeeps(s, steps[0]);
      ExecKeeps(Next(s, steps[0]), steps[1..]);
    }
  }

  lemma ReachableHolds(s: Sys)
    requires Reachable(s)
    ensures Inv(s)
  {
    var start, steps :| LeadsTo(start, steps, s);
    var g: Genesis.GenesisState, h: nat, client: string, time: int, standalone: Powers, earlier: Powers
      :| InitialFrom(start, g, h, client, time, standalone, earlier);
    InitialHolds(start, g, h, client, time, standalone, earlier);
    ExecKeeps(start, steps);
  }

  // ---------------------------------------------------------------- what this means in every reachable state

  /** After every block the cross-chain set is the initial set with every received update applied in order,
      although only accumulated lists are ever applied. The one exception is the block of the changeover,
      which leaves the updates received so far pending for one more block. */
  lemma ReplicationFollowsProvider(s: Sys)
    requires Reachable(s) && !s.block.inside
    ensures s.st.pending.None? && !s.st.preCCV ==> s.st.vals == Provided(s)
    ensures s.st.pending.Some? ==>
              && s.st.prevStandalone && s.block.height == s.st.initHeight
              && Apply(s.st.vals, s.st.pending.value) == Provided(s)
  {
    ReachableHolds(s);
  }

  /** Every list handed to the consensus engine was acceptable to it, and after every block the set that
      will be in effect two blocks later is the cross-chain set. */
  lemma ShadowSetAgrees(s: Sys)
    requires Reachable(s) && !s.block.inside
    ensures s.engine.acceptable
    ensures s.block.height + 2 in s.engine.at
    ensures !s.st.preCCV ==> s.engine.at[s.block.height + 2] == s.st.vals
  {
    hide ValsInv, BlockInv, HeightInv, WindowInv, Reachable;
    ReachableHolds(s);
  }

  /** The run knows the set in effect at every height from its first one to two blocks ahead, without a gap.
      The changeover is reported complete at exactly the heights, those before included, at which a provider-derived
      set is in effect; that set is the cross-chain set of two blocks before, and it is the standalone set otherwise.
      The changeover branch runs once on a chain that was standalone, and never on another. */
  lemma ChangeoverPipeline(s: Sys)
    requires Reachable(s)
    ensures EngineKnows(s)
    ensures forall k :: k <= Top(s) ==> (ChangeoverIsComplete(s.st, k) <==> ProviderGoverns(s, k))
    ensures s.engine.at[FirstHeight(s)]
         == if s.st.prevStandalone then s.origin.earlier else Apply(map[], s.origin.valset)
    ensures forall k :: k in s.engine.valsAt ==>
              s.engine.at[k + 2] == if ProviderGoverns(s, k + 2) then s.engine.valsAt[k] else s.origin.standalone
    ensures s.engine.changeovers == if s.st.prevStandalone && !s.st.preCCV then 1 else 0
    ensures s.st.prevStandalone && !s.block.inside && s.block.height >= s.st.initHeight ==> !s.st.preCCV
  {
    hide ValsInv, HeightInv, WindowInv, Reachable;
    ReachableHolds(s);
    forall k | k <= Top(s) ensures ChangeoverIsComplete(s.st, k) <==> ProviderGoverns(s, k) {
      if k >= FirstHeight(s) {
        assert k in s.engine.provider;
      }
    }
    hide EngineFollows, ChangeoverIsComplete;
    forall k | k in s.engine.valsAt
      ensures s.engine.at[k + 2] == if ProviderGoverns(s, k + 2) then s.engine.valsAt[k] else s.origin.standalone
    {
      assert k + 2 in s.engine.at && k + 2 in s.engine.provider;
    }
  }

  lemma BlocksHaveSets(s: Sys)
    requires Reachable(s)
    ensures FirstHeight(s) <= Now(s) <= Top(s)
  {
    hide ValsInv, BlockInv, HeightInv, WindowInv, Reachable, ChangeoverIsComplete;
    ReachableHolds(s);
  }

  /** Whatever height a slash request names, also one from before the upgrade, it goes to the standalone keeper
      exactly when the standalone set was in effect there. */
  lemma InfractionsFollowTheSet(s: Sys, v: Key, height: int, power: int, infraction: Infraction)
    requires Reachable(s) && Legal(s, SlashRequest(v, height, power, infraction)) && infraction != Unspecified
    ensures SlashWithInfractionReason(s.st, v, height, power, infraction).ToStandalone? <==> !ProviderGoverns(s, height)
    ensures SlashWithInfractionReason(s.st, v, height, power, infraction).ToProvider? <==> ProviderGoverns(s, height)
  {
    ChangeoverPipeline(s);
    hide Reachable;
    BlocksHaveSets(s);
    assert ChangeoverIsComplete(s.st, height) <==> ProviderGoverns(s, height);
  }

  /** The jail query asks the standalone keeper exactly when the standalone set is in effect now,
      inside a block and at its beginning. */
  lemma JailQueryFollowsTheSet(s: Sys)
    requires Reachable(s)
    ensures Now(s) in s.engine.at && Now(s) in s.engine.provider
    ensures ChangeoverIsComplete(s.st, Now(s)) <==> s.engine.provider[Now(s)]
  {
    ChangeoverPipeline(s);
    hide Reachable;
    BlocksHaveSets(s);
    assert ChangeoverIsComplete(s.st, Now(s)) <==> ProviderGoverns(s, Now(s));
  }

  /** The id stored for a height is the id of the last packet received in an earlier block, or 0. */
  lemma HeightMapMeaning(s: Sys, k: nat)
    requires Reachable(s) && k <= s.block.height + 1
    ensures GetVscId(s.st, k) == LastIdBefore(s.log.receipts, k)
  {
    ReachableHolds(s);
  }

  /** A slash request carries the id of the last packet received before the block of the infraction,
      also for the negative heights that the slashing module asks about near genesis. */
  lemma RequestCarriesLastId(s: Sys, v: Key, height: int, power: int, infraction: Infraction)
    requires Reachable(s) && Legal(s, SlashRequest(v, height, power, infraction))
    ensures var route := SlashWithInfractionReason(s.st, v, height, power, infraction);
            route.ToProvider? && route.state.queue != s.st.queue ==>
              route.state.queue == s.st.queue + [Slash(v, power, LastIdBefore(s.log.receipts, height), infraction)]
  {
    hide ValsInv, BlockInv, EngineInv, WindowInv, Reachable;
    ReachableHolds(s);
    if height >= 0 {
      StoreKeys.ToUint64OfInt64(height);
    } else {
      StoreKeys.ToUint64OfInt64(height);
      assert StoreKeys.ToUint64(height) !in s.st.vscIds;
      NoIdBeforeGenesis(s.log.receipts, height);
    }
  }

  lemma {:induction false} NoIdBeforeGenesis(rs: seq<Receipt>, k: int)
    requires k <= 0
    ensures LastIdBefore(rs, k) == 0
    decreases |rs|
  {
    if rs != [] {
      NoIdBeforeGenesis(rs[..|rs| - 1], k);
    }
  }

  /** Entries up to the current height never change again. */
  lemma NextFreezesHeights(s: Sys, step: Step, k: nat)
    requires Inv(s) && Legal(s, step) && k <= s.block.height
    ensures GetVscId(Next(s, step).st, k) == GetVscId(s.st, k)
    ensures Next(s, step).block.height >= s.block.height
  {
    hide TrackHistory, Accumulated, SlashWithInfractionReason, OnAcknowledgement, EndBlock;
    match step
    case SlashRequest(validator, height, power, infraction) =>
      SlashRequestIsApart(s, validator, height, power, infraction);
    case Acknowledge(seqNo, ack, closable) => AcknowledgingIsApart(s, seqNo, ack, closable);
    case FinishBlock(accepted, standalone) => EndBlockVals(s.st, s.block.time, Takes(s, accepted));
    case _ =>
  }

  lemma {:induction false} FrozenFrom(s: Sys, steps: seq<Step>, k: nat)
    requires Inv(s) && LegalRun(s, steps) && k <= s.block.height
    ensures GetVscId(Exec(s, steps).st, k) == GetVscId(s.st, k)
    decreases |steps|
  {
    hide Inv, Legal, Next, GetVscId;
    if steps != [] {
      NextKeeps(s, steps[0]);
      NextFreezesHeights(s, steps[0], k);
      FrozenFrom(Next(s, steps[0]), steps[1..], k);
    }
  }

  /** However a run goes on, the entries for heights up to the current one stay. */
  lemma HeightMapFrozen(s: Sys, steps: seq<Step>, k: nat)
    requires Reachable(s) && LegalRun(s, steps) && k <= s.block.height
    ensures GetVscId(Exec(s, steps).st, k) == GetVscId(s.st, k)
  {
    ReachableHolds(s);
    FrozenFrom(s, steps, k);
  }

  ghost predicate IdsIncrease(rs: seq<Receipt>) {
    forall i, j :: 0 <= i < j < |rs| ==> rs[i].vscId <= rs[j].vscId
  }

  lemma {:induction false} LastIdMonotone(rs: seq<Receipt>, a: int, b: int)
    requires a <= b && IdsIncrease(rs)
    ensures LastIdBefore(rs, a) <= LastIdBefore(rs, b)
    ensures forall i :: 0 <= i < |rs| && rs[i].height < b ==> rs[i].vscId <= LastIdBefore(rs, b)
    ensures || LastIdBefore(rs, a) == 0
            || exists i :: 0 <= i < |rs| && rs[i].height < a && rs[i].vscId == LastIdBefore(rs, a)
    decreases |rs|
  {
    if rs != [] {
      LastIdMonotone(rs[..|rs| - 1], a, b);
    }
  }

  /** If the provider numbers its packets in increasing order, so does the map its heights. */
  lemma HeightMapMonotone(s: Sys, a: nat, b: nat)
    requires Reachable(s) && a <= b <= s.block.height + 1 && IdsIncrease(s.log.receipts)
    ensures GetVscId(s.st, a) <= GetVscId(s.st, b)
  {
    ReachableHolds(s);
    LastIdMonotone(s.log.receipts, a, b);
  }

  /** The stored historical entries are an interval ending at the current height, each holding the cross-chain
      set at the end of the block before its own. */
  lemma HistoryIsWindow(s: Sys)
    requires Reachable(s)
    ensures forall k :: k in s.st.history <==> s.log.lowest <= k <= s.block.height
    ensures forall k :: k in s.st.history ==> k - 1 in s.engine.valsAt && s.st.history[k] == s.engine.valsAt[k - 1]
  {
    ReachableHolds(s);
  }
}
