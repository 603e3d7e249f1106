/** Genesis restarts of chains that have been running: what they keep, and how they break the throttle. */
module RestartRun {
  import opened Common
  import opened Ordering
  import opened Valset
  import opened ConsumerSpec
  import opened Chain
  import opened Genesis
  import ReplicationRun
  import ThrottleRun

  /** Once initialized, the module stays enabled and keeps its client. */
  ghost predicate Configured(s: Sys) {
    s.st.params.enabled && s.st.clientId.Some?
  }

  lemma NextKeeps(s: Sys, step: Chain.Step)
    requires Configured(s) && Legal(s, step)
    ensures Configured(Next(s, step))
  {
    match step
    case FinishBlock(accepted, standalone) =>
      ReplicationRun.EndBlockVals(s.st, s.block.time, Takes(s, accepted));
    case Acknowledge(seqNo, ack, closable) =>
      ReplicationRun.AcknowledgementTouches(s.st, s.net.inFlight[seqNo].packet, s.st.channel, ack, closable);
    case _ =>
  }

  lemma {:induction false} ExecKeeps(s: Sys, steps: seq<Chain.Step>)
    requires Configured(s) && LegalRun(s, steps)
    ensures Configured(Exec(s, steps))
    decreases |steps|
  {
    hide Configured, Legal, Next;
    if steps != [] {
      NextKeeps(s, steps[0]);
      ExecKeeps(Next(s, steps[0]), steps[1..]);
    }
  }

  lemma ReachableIsConfigured(s: Sys)
    requires Reachable(s)
    ensures Configured(s) && forall k :: k in s.st.vals ==> s.st.vals[k] >= 1
  {
    ReplicationRun.ReachableHolds(s);
    hide ReplicationRun.BlockInv, ReplicationRun.EngineInv, ReplicationRun.HeightInv, ReplicationRun.WindowInv;
    var start, steps :| LeadsTo(start, steps, s);
    ExecKeeps(start, steps);
  }

  // ---------------------------------------------------------------- what a restart keeps

  /** A running chain can be restarted from its export at any time, and a second export repeats the first, exactly
      if no validator of the set has a downtime request outstanding or there is no channel; otherwise the
      flags of those validators are what is missing. */
  lemma RunningChainRestarts(s: Sys, lt: (Key, Key) -> bool, height: nat, client: Option<string>)
    requires Reachable(s) && StrictTotal(lt)
    ensures Export(s.st, lt).Some? && !InitPanics(Export(s.st, lt).value, client, false)
    ensures var again := Export(InitState(EMPTY, Export(s.st, lt).value, height, client), lt);
            && again == Some(Export(s.st, lt).value.(downtimes :=
                  if s.st.channel == "" then [] else InOrder(lt, s.st.downtime - s.st.vals.Keys)))
            && (again == Export(s.st, lt) <==> s.st.channel == "" || s.st.downtime !! s.st.vals.Keys)
  {
    ReachableIsConfigured(s);
    RestartRoundTrip(s.st, lt, height, client);
  }

  /** The consensus engine receives the set that the chain had stored, and accepts it as the first set
      of a new engine. */
  lemma RestartHandsOverSet(s: Sys, lt: (Key, Key) -> bool, height: nat, client: Option<string>)
    requires Reachable(s) && StrictTotal(lt)
    ensures Export(s.st, lt).Some?
    ensures var updates := InitUpdates(Export(s.st, lt).value);
            EngineAccepts(map[], updates) && EngineApply(map[], updates) == s.st.vals
    ensures InitState(EMPTY, Export(s.st, lt).value, height, client).vals == s.st.vals
  {
    ReachableIsConfigured(s);
    RestartKeeps(s.st, lt, height, client);
    PowersListFacts(s.st.vals, lt);
    ImportPowers(s.st.vals, lt);
    ApplyIsPatch(map[], PowersList(s.st.vals, lt));
    forall u | u in PowersList(s.st.vals, lt) ensures u.power >= 1 {
      assert u == Update(u.key, u.power);
    }
  }

  /** Between two blocks that set is the one the provider means, the initial one with every received update applied in
      order, exactly if nothing is pending or what is pending changes nothing. After the changeover's own block updates
      can be pending, and a restart there loses them. Before that block the set handed over is empty. */
  lemma RestartLosesPendingUpdates(s: Sys, lt: (Key, Key) -> bool, height: nat, client: Option<string>)
    requires Reachable(s) && StrictTotal(lt) && !s.block.inside
    ensures Export(s.st, lt).Some?
    ensures var handedOver := InitState(EMPTY, Export(s.st, lt).value, height, client).vals;
            if s.st.preCCV then handedOver == map[]
            else handedOver == ReplicationRun.Provided(s)
                 <==> s.st.pending.None? || Apply(s.st.vals, s.st.pending.value) == s.st.vals
    ensures InitState(EMPTY, Export(s.st, lt).value, height, client).pending.None?
  {
    RestartHandsOverSet(s, lt, height, client);
    ReachableIsConfigured(s);
    RestartKeeps(s.st, lt, height, client);
    hide InitState, Reachable;
    ReplicationRun.ReachableHolds(s);
    hide ReplicationRun.EngineInv, ReplicationRun.HeightInv, ReplicationRun.WindowInv, ReplicationRun.BlockInv;
  }

  /** A restart forgets that the chain was standalone: every request then goes to the provider and every jail query
      to the consumer's own flags. Before the restart this is so exactly once the changeover is complete
      at the height in question. */
  lemma RestartForgetsStandalone(
    s: Sys, lt: (Key, Key) -> bool, v: Key, height: int, power: int, infraction: Infraction)
    requires Reachable(s) && StrictTotal(lt) && infraction != Unspecified
    ensures Export(s.st, lt).Some?
    ensures SlashWithInfractionReason(Restarted(s.st, lt, s.block.height), v, height, power, infraction).ToProvider?
    ensures ChangeoverIsComplete(Restarted(s.st, lt, s.block.height), height)
    ensures SlashWithInfractionReason(s.st, v, height, power, infraction).ToProvider?
       <==> ChangeoverIsComplete(s.st, height)
  {
    ReachableIsConfigured(s);
    RestartKeeps(s.st, lt, s.block.height, None);
    hide InitState, Reachable;
  }

  // ---------------------------------------------------------------- how a restart breaks the throttle

  /** A chain that goes on after a restart: the module's state is imported, the channel is as it was. */
  ghost function AfterRestart(s: Sys, lt: (Key, Key) -> bool): Sys
    requires StrictTotal(lt) && Export(s.st, lt).Some?
  {
    var st := Restarted(s.st, lt, s.block.height);
    s.(st := st, log := s.log.(clears := s.log.clears + multiset(s.st.downtime - st.downtime)))
  }

  lemma AfterRestartIs(s: Sys, lt: (Key, Key) -> bool)
    requires Reachable(s) && StrictTotal(lt)
    ensures Export(s.st, lt).Some?
    ensures var st := AfterRestart(s, lt).st;
            && st.channel == s.st.channel && st.queue == s.st.queue && st.params == s.st.params
            && st.record.None? && st.pending.None? && !st.preCCV && !st.prevStandalone
            && st.downtime <= s.st.downtime
  {
    ReachableIsConfigured(s);
    RestartKeeps(s.st, lt, s.block.height, None);
  }

  /** A restart leaves all future sending as it would have been, whatever the time and the answers of IBC,
      exactly if the running chain has no slash record. */
  lemma ThrottleSurvivesRestart(s: Sys, lt: (Key, Key) -> bool)
    requires Reachable(s) && StrictTotal(lt)
    ensures Export(s.st, lt).Some?
    ensures (forall now, accepted :: SentCount(AfterRestart(s, lt).st, now, accepted) == SentCount(s.st, now, accepted))
       <==> s.st.record.None?
  {
    ReachableIsConfigured(s);
    RestartResends(s.st, lt, s.block.height);
    assert s.st.record.Some? ==> s.st.queue != [] && s.st.channel != "" by {
      ThrottleRun.ReachableHolds(s);
    }
  }

  /** The consumer waits for a reply that can still come. */
  ghost predicate AwaitsReply(s: Sys) {
    s.net.open && ThrottleRun.Waiting(s)
  }

  /** After a restart the queue and its single flight are in order exactly if no reply was awaited, and all that the
      throttle relies on, the spacing of retries included, exactly if there was no record. Transmissions so far
      stay in order, and flags accounted for, in any case. */
  lemma RestartKeepsInvariant(s: Sys, lt: (Key, Key) -> bool)
    requires Reachable(s) && StrictTotal(lt)
    ensures Export(s.st, lt).Some?
    ensures ThrottleRun.QueueInv(AfterRestart(s, lt)) <==> !AwaitsReply(s)
    ensures ThrottleRun.Inv(AfterRestart(s, lt)) <==> s.st.record.None?
    ensures ThrottleRun.OrderInv(AfterRestart(s, lt)) && ThrottleRun.DowntimeInv(AfterRestart(s, lt))
  {
    AfterRestartIs(s, lt);
    ThrottleRun.ReachableHolds(s);
    var t := AfterRestart(s, lt);
    hide Restarted, Reachable;
    RestartAccountsForFlags(s, t);
    RecordForgotten(s, t);
  }

  lemma RecordForgotten(s: Sys, t: Sys)
    requires ThrottleRun.QueueInv(s) && ThrottleRun.SendInv(s)
    requires t.net == s.net && t.log == s.log.(clears := t.log.clears)
    requires t.st.queue == s.st.queue && t.st.channel == s.st.channel && t.st.record.None?
    ensures ThrottleRun.QueueInv(t) <==> !AwaitsReply(s)
    ensures ThrottleRun.SendInv(t) <==> s.st.record.None?
    ensures ThrottleRun.OrderInv(t)
  {
    ThrottleRun.SpacingIsOrder(s);
    assert forall q :: ThrottleRun.SlashFlying(t, q) <==> ThrottleRun.SlashFlying(s, q);
    if s.st.record.None? {
      ThrottleRun.SameSendsKeep(s, t);
    } else {
      assert s.log.sends[|s.log.sends| - 1].pos == |t.log.retired|;
    }
  }

  lemma RestartAccountsForFlags(s: Sys, t: Sys)
    requires ThrottleRun.DowntimeInv(s) && t.log.enqueued == s.log.enqueued && t.st.downtime <= s.st.downtime
    requires t.log.clears == s.log.clears + multiset(s.st.downtime - t.st.downtime)
    ensures ThrottleRun.DowntimeInv(t)
  {
  }

  /** Restarted while no reply is awaited, a chain goes on as if it had never stopped: in every legal run after it
      packets are conserved in order, all retired ones were transmitted, at most one slash packet is in flight,
      no acknowledgement panics, and downtime requests are accounted for. Without a record, retries stay spaced too. */
  lemma RestartedChainGoesOn(s: Sys, lt: (Key, Key) -> bool, steps: seq<Chain.Step>)
    requires Reachable(s) && StrictTotal(lt) && !AwaitsReply(s)
    ensures Export(s.st, lt).Some?
    ensures LegalRun(AfterRestart(s, lt), steps) ==>
              var t := Exec(AfterRestart(s, lt), steps);
              && t.log.enqueued == t.log.retired + t.st.queue && !t.log.panicked
              && (forall pos: nat :: pos < |t.log.retired| ==> ThrottleRun.Transmitted(t.log, pos))
              && (t.net.open ==> |ThrottleRun.SlashesInFlight(t)| == if ThrottleRun.Waiting(t) then 1 else 0)
              && ThrottleRun.DowntimeInv(t)
              && (s.st.record.None? ==> ThrottleRun.SendInv(t))
  {
    RestartKeepsInvariant(s, lt);
    hide AfterRestart, Reachable;
    if s.st.record.None? && LegalRun(AfterRestart(s, lt), steps) {
      ThrottleRun.ExecKeeps(AfterRestart(s, lt), steps);
    }
    if LegalRun(AfterRestart(s, lt), steps) {
      ThrottleRun.ExecKeepsOrder(AfterRestart(s, lt), steps);
      var t := Exec(AfterRestart(s, lt), steps);
      ThrottleRun.RetiredWereSent(t);
      if t.net.open {
        ThrottleRun.SlashesCounted(t);
      }
    }
  }

  /** An acknowledgement of a packet in flight, of a kind the provider gives, on which the handler panics. */
  ghost predicate PanicsOn(s: Sys, seqNo: nat, ack: Ack, closable: set<string>) {
    && seqNo in s.net.inFlight && !ack.NoResponse? && ack != Error("")
    && OnAcknowledgement(s.st, s.net.inFlight[seqNo].packet, s.st.channel, ack, closable).Panicked?
  }

  lemma PanicsAfterRestart(s: Sys, lt: (Key, Key) -> bool, seqNo: nat, ack: Ack, closable: set<string>)
    requires Reachable(s) && StrictTotal(lt)
    ensures Export(s.st, lt).Some?
    ensures PanicsOn(AfterRestart(s, lt), seqNo, ack, closable)
       <==> ThrottleRun.SlashFlying(s, seqNo) && ack == Result([SLASH_BOUNCED_RESULT])
  {
    ReachableIsConfigured(s);
    AfterRestartIs(s, lt);
    if seqNo in s.net.inFlight {
      RestartPanics(s.st, lt, s.block.height, s.net.inFlight[seqNo].packet, s.st.channel, ack, closable);
    }
    hide Restarted, Reachable, Configured, OnAcknowledgement;
  }

  lemma NoPanicWithoutRestart(s: Sys, seqNo: nat, ack: Ack, closable: set<string>)
    requires Reachable(s) && s.net.open
    ensures !PanicsOn(s, seqNo, ack, closable)
  {
    ThrottleRun.ReachableHolds(s);
    hide Reachable, ThrottleRun.SendInv, ThrottleRun.DowntimeInv;
    if seqNo in s.net.inFlight && s.net.inFlight[seqNo].packet.Slash? {
      ThrottleRun.AcknowledgedSlash(s, seqNo);
    }
  }

  /** After a restart some acknowledgement makes the bounce handler panic exactly if the chain was waiting for
      a reply; it is the bounce of the packet then in flight. Without a restart there is none. */
  lemma BouncePanicsAfterRestart(s: Sys, lt: (Key, Key) -> bool)
    requires Reachable(s) && StrictTotal(lt) && s.net.open
    ensures Export(s.st, lt).Some?
    ensures (exists seqNo, ack, closable :: PanicsOn(AfterRestart(s, lt), seqNo, ack, closable))
       <==> ThrottleRun.Waiting(s)
    ensures forall seqNo, ack, closable :: !PanicsOn(s, seqNo, ack, closable)
  {
    AfterRestartIs(s, lt);
    FlyingMeansWaiting(s);
    var s0 := AfterRestart(s, lt);
    hide PanicsOn, AfterRestart, Reachable, ThrottleRun.SlashFlying, ThrottleRun.Waiting;
    forall seqNo, ack, closable
      ensures PanicsOn(s0, seqNo, ack, closable) ==> ThrottleRun.SlashFlying(s, seqNo)
      ensures !PanicsOn(s, seqNo, ack, closable)
    {
      PanicsAfterRestart(s, lt, seqNo, ack, closable);
      NoPanicWithoutRestart(s, seqNo, ack, closable);
    }
    if ThrottleRun.Waiting(s) {
      var q: nat :| ThrottleRun.SlashFlying(s, q);
      PanicsAfterRestart(s, lt, q, Result([SLASH_BOUNCED_RESULT]), {});
    }
  }

  lemma FlyingMeansWaiting(s: Sys)
    requires Reachable(s) && s.net.open
    ensures ThrottleRun.Waiting(s) <==> exists q: nat :: ThrottleRun.SlashFlying(s, q)
  {
    ThrottleRun.ReachableHolds(s);
  }

  const HANDLED := Result([SLASH_HANDLED_RESULT])

  lemma UnfoldRun(s: Sys, step: Chain.Step, rest: seq<Chain.Step>)
    requires Legal(s, step) && LegalRun(Next(s, step), rest)
    ensures LegalRun(s, [step] + rest) && Exec(s, [step] + rest) == Exec(Next(s, step), rest)
  {
    hide Legal, Next;
    assert ([step] + rest)[1..] == rest;
  }

  /** A run, given the states it goes through. */
  lemma RunIs(ss: seq<Sys>, steps: seq<Chain.Step>)
    requires |ss| == |steps| + 1
    requires forall i :: 0 <= i < |steps| ==> Legal(ss[i], steps[i]) && ss[i + 1] == Next(ss[i], steps[i])
    ensures LegalRun(ss[0], steps) && Exec(ss[0], steps) == ss[|steps|]
  {
    hide Legal, Next;
    RunThrough(ss, steps, 0);
    assert steps[0..] == steps;
  }

  lemma {:induction false} RunThrough(ss: seq<Sys>, steps: seq<Chain.Step>, i: nat)
    requires i <= |steps| && |ss| == |steps| + 1
    requires forall k :: 0 <= k < |steps| ==> Legal(ss[k], steps[k]) && ss[k + 1] == Next(ss[k], steps[k])
    ensures LegalRun(ss[i], steps[i..]) && Exec(ss[i], steps[i..]) == ss[|steps|]
    decreases |steps| - i
  {
    hide Legal, Next;
    if i < |steps| {
      RunThrough(ss, steps, i + 1);
      assert Legal(ss[i], steps[i]) && ss[i + 1] == Next(ss[i], steps[i]);
      assert steps[i..] == [steps[i]] + steps[i + 1..];
      UnfoldRun(ss[i], steps[i], steps[i + 1..]);
    }
  }

  /** The packets that the head of the queue, a slash packet, leaves behind when it is sent at the end of a block. */
  lemma HeadGoesOut(s: Sys)
    requires s.net.open && s.st.channel != "" && !s.st.preCCV && s.st.record.None?
    requires s.st.queue != [] && s.st.queue[0].Slash? && s.block.inside
    requires forall q :: q in s.net.inFlight ==> q < s.net.nextSeq
    ensures Legal(s, FinishBlock([true], []))
    ensures var t := Next(s, FinishBlock([true], []));
            && t.net.open && !t.block.inside && t.block.height == s.block.height && t.block.time == s.block.time
            && t.st.queue == s.st.queue && t.st.channel == s.st.channel && t.st.record.Some? && !t.st.preCCV
            && t.log.retired == s.log.retired && t.net.nextSeq == s.net.nextSeq + 1
            && s.net.nextSeq in t.net.inFlight && t.net.inFlight[s.net.nextSeq].packet == s.st.queue[0]
            && (forall q :: q in s.net.inFlight ==> q in t.net.inFlight && t.net.inFlight[q] == s.net.inFlight[q])
            && |t.log.sends| == |s.log.sends| + 1 && s.log.sends <= t.log.sends
            && t.log.sends[|s.log.sends|].pos == |s.log.retired|
  {
    ThrottleRun.EndOfBlock(s, [true]);
    assert Departures(s, [true]) == 1;
    ThrottleRun.LaunchFacts(s.net, s.st.queue[..1], |s.log.retired|);
    ReplicationRun.EndBlockVals(s.st, s.block.time, Takes(s, [true]));
    hide EndBlock, Launch, SentCount, EndBlockUpdates, EngineAfter;
    assert LeftFront(s.st, Finishing(s, [true], []).st) == [];
  }

  /** A reply that a slash packet was handled takes away the head of the queue, whichever packet that is. */
  lemma HandledTakesHead(s: Sys, seqNo: nat)
    requires s.net.open && s.block.inside && seqNo in s.net.inFlight && s.net.inFlight[seqNo].packet.Slash?
    requires s.st.queue != []
    ensures Legal(s, Acknowledge(seqNo, HANDLED, {}))
    ensures var t := Next(s, Acknowledge(seqNo, HANDLED, {}));
            && t.net == s.net.(inFlight := s.net.inFlight - {seqNo}) && t.block == s.block
            && t.st.queue == s.st.queue[1..] && t.log.sends == s.log.sends
            && t.log.retired == s.log.retired + [s.st.queue[0]]
  {
    assert LeftFront(s.st, s.st.(queue := s.st.queue[1..])) == [s.st.queue[0]];
  }

  lemma BlockStarts(s: Sys, time: int)
    requires !s.block.inside && time >= s.block.time && s.block.height + 2 < INT64_LIMIT
    ensures Legal(s, StartBlock(time))
    ensures var t := Next(s, StartBlock(time));
            && t.net == s.net && t.block == Block(s.block.height + 1, time, true)
            && t.st == s.st.(vscIds := t.st.vscIds, history := t.st.history)
            && t.log.sends == s.log.sends && t.log.retired == s.log.retired
  {
  }

  const VALIDATOR: Key := [1]

  const DOUBLE_SIGN := SlashRequest(VALIDATOR, 1, 5, DoubleSign)

  lemma RequestQueued(s: Sys)
    requires Now(s) >= 1 && !s.st.prevStandalone
    ensures Legal(s, DOUBLE_SIGN)
    ensures var t := Next(s, DOUBLE_SIGN);
            && t.net == s.net && t.block == s.block && t.log.retired == s.log.retired && t.log.sends == s.log.sends
            && t.st == s.st.(queue := t.st.queue)
            && |t.st.queue| == |s.st.queue| + 1 && s.st.queue <= t.st.queue && t.st.queue[|s.st.queue|].Slash?
  {
  }

  /** A run that follows a restart: another request comes in, the held-back packet goes out again,
      and both its replies arrive. */
  function ResendAndReplies(next: nat, q: nat, time: int): seq<Chain.Step> {
    [DOUBLE_SIGN, StartBlock(time), FinishBlock([true], []), StartBlock(time),
     Acknowledge(q, HANDLED, {}), Acknowledge(next, HANDLED, {})]
  }

  /** A slash packet at the head, without a record, but in flight. */
  ghost predicate ForgottenFlight(s: Sys, q: nat) {
    && s.net.open && !s.block.inside && s.st.channel != "" && s.st.record.None? && !s.st.preCCV && !s.st.prevStandalone
    && s.st.queue != [] && s.st.queue[0].Slash?
    && q in s.net.inFlight && s.net.inFlight[q].packet.Slash?
    && (forall p :: p in s.net.inFlight ==> p < s.net.nextSeq)
  }

  lemma BothTakenAway(s: Sys, q: nat, time: int)
    requires ForgottenFlight(s, q) && time >= s.block.time && s.block.height + 3 < INT64_LIMIT
    ensures LegalRun(s, ResendAndReplies(s.net.nextSeq, q, time))
    ensures var t := Exec(s, ResendAndReplies(s.net.nextSeq, q, time));
            && |t.log.retired| == |s.log.retired| + 2
            && |t.log.sends| == |s.log.sends| + 1 && s.log.sends <= t.log.sends
            && t.log.sends[|s.log.sends|].pos == |s.log.retired|
  {
    hide Legal, Next, LegalRun, Exec;
    RequestQueued(s);
    var s0 := Next(s, DOUBLE_SIGN);
    BlockStarts(s0, time);
    var s1 := Next(s0, StartBlock(time));
    HeadGoesOut(s1);
    var s2 := Next(s1, FinishBlock([true], []));
    BlockStarts(s2, time);
    var s3 := Next(s2, StartBlock(time));
    HandledTakesHead(s3, q);
    var s4 := Next(s3, Acknowledge(q, HANDLED, {}));
    HandledTakesHead(s4, s.net.nextSeq);
    var s5 := Next(s4, Acknowledge(s.net.nextSeq, HANDLED, {}));
    RunIs([s, s0, s1, s2, s3, s4, s5], ResendAndReplies(s.net.nextSeq, q, time));
  }

  lemma FlightIsForgotten(s: Sys, lt: (Key, Key) -> bool, q: nat)
    requires Reachable(s) && StrictTotal(lt) && s.net.open && !s.block.inside && ThrottleRun.SlashFlying(s, q)
    ensures Export(s.st, lt).Some? && ForgottenFlight(AfterRestart(s, lt), q)
    ensures forall i :: 0 <= i < |s.log.sends| ==> s.log.sends[i].pos <= |s.log.retired|
  {
    AfterRestartIs(s, lt);
    ThrottleRun.ReachableHolds(s);
    ThrottleRun.AcknowledgedSlash(s, q);
    ThrottleRun.SpacingIsOrder(s);
    NothingSentBehind(s);
    hide Restarted, Reachable;
  }

  lemma OnlyHeadSent(before: Log, after: Log, head: nat)
    requires forall i :: 0 <= i < |before.sends| ==> before.sends[i].pos <= head
    requires |after.sends| == |before.sends| + 1 && before.sends <= after.sends
    requires after.sends[|before.sends|].pos == head
    ensures !ThrottleRun.Transmitted(after, head + 1)
  {
    forall i | 0 <= i < |after.sends| ensures after.sends[i].pos != head + 1 {
      if i < |before.sends| {
        assert after.sends[i] == before.sends[i];
      }
    }
  }

  /** A legal run in which a packet leaves the queue that was never transmitted. */
  ghost predicate LosesPacket(s: Sys, steps: seq<Chain.Step>) {
    LegalRun(s, steps) && exists pos: nat :: Unsent(Exec(s, steps).log, pos)
  }

  ghost predicate Unsent(log: Log, pos: nat) {
    pos < |log.retired| && !ThrottleRun.Transmitted(log, pos)
  }

  /** The packet behind the one in flight, which may have come after the restart, leaves as handled. */
  lemma HeldBackIsLost(s: Sys, lt: (Key, Key) -> bool, q: nat, time: int)
    requires Reachable(s) && StrictTotal(lt) && s.net.open && !s.block.inside && ThrottleRun.SlashFlying(s, q)
    requires time >= s.block.time && s.block.height + 3 < INT64_LIMIT
    ensures Export(s.st, lt).Some?
    ensures LosesPacket(AfterRestart(s, lt), ResendAndReplies(s.net.nextSeq, q, time))
  {
    FlightIsForgotten(s, lt, q);
    hide Reachable, LegalRun, Exec, ForgottenFlight, Restarted, ThrottleRun.SlashFlying;
    var t := AfterRestart(s, lt);
    assert t.net == s.net && t.block == s.block && t.log.sends == s.log.sends && t.log.retired == s.log.retired;
    hide AfterRestart, ThrottleRun.Transmitted;
    BothTakenAway(t, q, time);
    var log := Exec(t, ResendAndReplies(s.net.nextSeq, q, time)).log;
    OnlyHeadSent(t.log, log, |s.log.retired|);
    assert Unsent(log, |s.log.retired| + 1);
  }

  /** A restart between two blocks can be followed by the loss of a packet that was never transmitted exactly if the
      chain was waiting for a reply on an open channel. */
  lemma RestartLosesPacket(s: Sys, lt: (Key, Key) -> bool)
    requires Reachable(s) && StrictTotal(lt) && !s.block.inside && s.block.height + 3 < INT64_LIMIT
    ensures Export(s.st, lt).Some?
    ensures (exists steps :: LosesPacket(AfterRestart(s, lt), steps)) <==> AwaitsReply(s)
  {
    AfterRestartIs(s, lt);
    hide Reachable, LegalRun, Exec, AfterRestart, ThrottleRun.SlashFlying, ThrottleRun.Transmitted;
    if AwaitsReply(s) {
      FlyingMeansWaiting(s);
      var q: nat :| ThrottleRun.SlashFlying(s, q);
      HeldBackIsLost(s, lt, q, s.block.time);
    } else {
      forall steps ensures !LosesPacket(AfterRestart(s, lt), steps) {
        RestartedChainGoesOn(s, lt, steps);
      }
    }
  }

  /** A legal run in which a handler panics. */
  ghost predicate RunPanics(s: Sys, steps: seq<Chain.Step>) {
    LegalRun(s, steps) && Exec(s, steps).log.panicked
  }

  lemma BounceInNextBlock(s: Sys, q: nat)
    requires ForgottenFlight(s, q) && s.block.height + 2 < INT64_LIMIT
    ensures RunPanics(s, [StartBlock(s.block.time), Acknowledge(q, Result([SLASH_BOUNCED_RESULT]), {})])
  {
    BlockStarts(s, s.block.time);
    var t := Next(s, StartBlock(s.block.time));
    var bounce := Acknowledge(q, Result([SLASH_BOUNCED_RESULT]), {});
    hide LegalRun, Exec, Starting;
    RunIs([s, t, Next(t, bounce)], [StartBlock(s.block.time), bounce]);
  }

  /** A restart between two blocks can be followed by the panic of the bounce handler exactly if the chain was waiting
      for a reply on an open channel. */
  lemma RestartPanicsInRun(s: Sys, lt: (Key, Key) -> bool)
    requires Reachable(s) && StrictTotal(lt) && !s.block.inside && s.block.height + 2 < INT64_LIMIT
    ensures Export(s.st, lt).Some?
    ensures (exists steps :: RunPanics(AfterRestart(s, lt), steps)) <==> AwaitsReply(s)
  {
    AfterRestartIs(s, lt);
    hide Reachable, LegalRun, Exec, AfterRestart, ThrottleRun.SlashFlying, ThrottleRun.Transmitted, ForgottenFlight;
    if AwaitsReply(s) {
      FlyingMeansWaiting(s);
      var q: nat :| ThrottleRun.SlashFlying(s, q);
      FlightIsForgotten(s, lt, q);
      BounceInNextBlock(AfterRestart(s, lt), q);
    } else {
      forall steps ensures !RunPanics(AfterRestart(s, lt), steps) {
        RestartedChainGoesOn(s, lt, steps);
      }
    }
  }

  /** Nothing behind the head of the queue has ever been transmitted. */
  lemma NothingSentBehind(s: Sys)
    requires ThrottleRun.OrderInv(s)
    ensures forall i :: 0 <= i < |s.log.sends| ==> s.log.sends[i].pos <= |s.log.retired|
  {
    forall i | 0 <= i < |s.log.sends| ensures s.log.sends[i].pos <= |s.log.retired| {
      ThrottleRun.SendsInOrder(s, i, |s.log.sends| - 1);
    }
  }

  // ---------------------------------------------------------------- a run that gets there

  const GENESIS :=
    DEFAULT_GENESIS.(params := DEFAULT_PARAMS.(enabled := true), newChain := true, connectionId := "connection-0",
                     valset := [Update(VALIDATOR, 5)])

  /** The channel is established, two slash requests come in, and the first is sent at the end of the block. */
  const TWO_REQUESTS: seq<Chain.Step> :=
    [StartBlock(0), RecvVSC("channel-0", VSCData(Some([]), 1, [])), DOUBLE_SIGN, DOUBLE_SIGN, FinishBlock([true], [])]

  lemma ChannelEstablished(s: Sys)
    requires s.block.inside && s.net.open && s.st.channel == ""
    ensures Legal(s, TWO_REQUESTS[1])
    ensures var t := Next(s, TWO_REQUESTS[1]);
            && t.net == s.net && t.block == s.block && t.log.retired == s.log.retired && t.log.sends == s.log.sends
            && t.st.channel == "channel-0" && t.st.queue == s.st.queue && t.st.record == s.st.record
            && t.st.preCCV == s.st.preCCV && t.st.prevStandalone == s.st.prevStandalone
  {
  }

  lemma FirstState() returns (s: Sys)
    ensures Initial(s)
    ensures s.net == Net(true, map[], 0) && s.block == Block(1, 0, false)
    ensures s.st.channel == "" && s.st.queue == [] && s.st.record.None? && !s.st.preCCV && !s.st.prevStandalone
  {
    s := NewChain(GENESIS, 1, "07-tendermint-0", 0);
    assert InitialFrom(s, GENESIS, 1, "07-tendermint-0", 0, map[], map[]);
  }

  /** A concrete run ends with a slash packet in flight and another one behind it. */
  lemma FlightIsReachable() returns (s: Sys)
    ensures Reachable(s) && s.net.open && !s.block.inside && s.block.height == 2 && s.block.time == 0
    ensures ThrottleRun.SlashFlying(s, 0) && |s.st.queue| == 2
  {
    var s0 := FirstState();
    hide Initial, Legal, Next, LegalRun, Exec;
    BlockStarts(s0, 0);
    var s1 := Next(s0, StartBlock(0));
    ChannelEstablished(s1);
    var s2 := Next(s1, TWO_REQUESTS[1]);
    RequestQueued(s2);
    var s3 := Next(s2, DOUBLE_SIGN);
    RequestQueued(s3);
    var s4 := Next(s3, DOUBLE_SIGN);
    HeadGoesOut(s4);
    s := Next(s4, FinishBlock([true], []));
    RunIs([s0, s1, s2, s3, s4, s], TWO_REQUESTS);
    assert LeadsTo(s0, TWO_REQUESTS, s);
  }

  /** So a restart does break the throttle: a reachable chain, restarted, meets the panic of the bounce handler,
      and loses a packet that it never sent. */
  lemma RestartIsUnsafe(lt: (Key, Key) -> bool) returns (s: Sys)
    requires StrictTotal(lt)
    ensures Reachable(s) && Export(s.st, lt).Some?
    ensures PanicsOn(AfterRestart(s, lt), 0, Result([SLASH_BOUNCED_RESULT]), {})
    ensures LosesPacket(AfterRestart(s, lt), ResendAndReplies(s.net.nextSeq, 0, 0))
  {
    s := FlightIsReachable();
    hide Reachable, LegalRun, Exec, AfterRestart, PanicsOn, ThrottleRun.SlashFlying;
    PanicsAfterRestart(s, lt, 0, Result([SLASH_BOUNCED_RESULT]), {});
    HeldBackIsLost(s, lt, 0, 0);
  }
}
