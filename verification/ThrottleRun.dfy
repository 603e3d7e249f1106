/** Safety of the throttled slash queue over whole runs. */
module ThrottleRun {
  import opened Common
  import opened Valset
  import opened ConsumerSpec
  import opened Chain
  import StoreKeys

  // ---------------------------------------------------------------- the invariants

  ghost predicate SlashFlying(s: Sys, q: nat) {
    q in s.net.inFlight && s.net.inFlight[q].packet.Slash?
  }

  predicate Waiting(s: Sys) {
    s.st.record.Some? && s.st.record.value.waitingOnReply
  }

  /** First in, first out, and at most one slash packet in flight, which is then the head of the queue. */
  ghost predicate QueueInv(s: Sys) {
    QueueFifo(s) && QueueFlights(s)
  }

  ghost predicate QueueFifo(s: Sys) {
    && s.log.enqueued == s.log.retired + s.st.queue
    && !s.log.panicked
    && (s.st.record.Some? ==> s.st.queue != [] && s.st.queue[0].Slash? && s.st.channel != "")
  }

  ghost predicate QueueFlights(s: Sys) {
    && (forall q :: q in s.net.inFlight ==> q < s.net.nextSeq)
    && (s.net.open ==>
          && (forall q :: SlashFlying(s, q) ==>
                Waiting(s) && s.st.queue != [] && s.net.inFlight[q] == InFlight(s.st.queue[0], |s.log.retired|))
          && (forall p, q :: SlashFlying(s, p) && SlashFlying(s, q) ==> p == q)
          && (Waiting(s) ==> exists q :: SlashFlying(s, q)))
  }

  /** Neighbouring transmissions: the next packet, or the same slash packet retried after its bounce
      and strictly later than the retry delay. */
  ghost predicate Spaced(log: Log, a: Transmission, b: Transmission) {
    || b.pos == a.pos + 1
    || (&& b.pos == a.pos
        && a.bounces < b.bounces <= |log.bounced| && log.bounced[a.bounces] == a.pos
        && b.time > a.time + b.delay)
  }

  ghost predicate SendInv(s: Sys) {
    && (forall i :: 0 <= i < |s.log.sends| - 1 ==> Spaced(s.log, s.log.sends[i], s.log.sends[i + 1]))
    && (forall i :: 0 <= i < |s.log.sends| ==> s.log.sends[i].bounces <= |s.log.bounced|)
    && (if s.log.sends == [] then s.log.retired == [] && s.st.record.None?
        else
          var last := s.log.sends[|s.log.sends| - 1];
          && s.log.sends[0].pos == 0
          && match s.st.record {
               case None => last.pos + 1 == |s.log.retired|
               case Some(r) =>
                 && last.pos == |s.log.retired| && last.time == r.sendTime
                 && (r.waitingOnReply ==> last.bounces == |s.log.bounced|)
                 && (!r.waitingOnReply ==> last.bounces < |s.log.bounced| && s.log.bounced[last.bounces] == last.pos)
             })
  }

  /** Transmissions in the order of enqueueing, none left out, whatever the times between them. */
  ghost predicate OrderInv(s: Sys) {
    && (forall i :: 0 <= i < |s.log.sends| - 1 ==> NextInLine(s.log.sends[i], s.log.sends[i + 1]))
    && (if s.log.sends == [] then s.log.retired == [] && s.st.record.None?
        else
          var last := s.log.sends[|s.log.sends| - 1];
          && s.log.sends[0].pos == 0
          && |s.log.retired| - 1 <= last.pos <= |s.log.retired|
          && (s.st.record.Some? ==> last.pos == |s.log.retired|))
  }

  predicate NextInLine(a: Transmission, b: Transmission) {
    a.pos <= b.pos <= a.pos + 1
  }

  lemma SpacingIsOrder(s: Sys)
    requires SendInv(s)
    ensures OrderInv(s)
  {
    forall i | 0 <= i < |s.log.sends| - 1 ensures NextInLine(s.log.sends[i], s.log.sends[i + 1]) {
      assert Spaced(s.log, s.log.sends[i], s.log.sends[i + 1]);
    }
  }

  function CountDowntime(ps: seq<Packet>, v: Key): nat {
    if ps == [] then 0 else
    var n := |ps| - 1;
    CountDowntime(ps[..n], v) + if ps[n].Slash? && ps[n].validator == v && ps[n].infraction == Downtime then 1 else 0
  }

  /** Requests minus clears of a set flag is the flag. */
  ghost predicate DowntimeInv(s: Sys) {
    forall v :: CountDowntime(s.log.enqueued, v) == s.log.clears[v] + if v in s.st.downtime then 1 else 0
  }

  ghost predicate Inv(s: Sys) {
    QueueInv(s) && SendInv(s) && DowntimeInv(s)
  }

  // ---------------------------------------------------------------- steps that touch neither queue nor channel

  /** What the queue invariants look at. */
  ghost predicate SameThrottle(s: Sys, t: Sys) {
    && t.st.queue == s.st.queue && t.st.record == s.st.record && t.st.channel == s.st.channel
    && t.net == s.net
    && t.log.enqueued == s.log.enqueued && t.log.retired == s.log.retired && t.log.sends == s.log.sends
    && t.log.bounced == s.log.bounced && t.log.panicked == s.log.panicked
  }

  lemma SameThrottleKeeps(s: Sys, t: Sys)
    requires SameThrottle(s, t) && QueueInv(s)
    ensures QueueInv(t)
  {
    assert forall q :: SlashFlying(t, q) <==> SlashFlying(s, q);
  }

  /** What the invariants of transmissions look at. */
  ghost predicate SameSends(s: Sys, t: Sys) {
    && t.log.sends == s.log.sends && t.log.retired == s.log.retired && t.log.bounced == s.log.bounced
    && t.st.record == s.st.record
  }

  lemma SameSendsKeep(s: Sys, t: Sys)
    requires SameSends(s, t)
    ensures SendInv(s) ==> SendInv(t)
    ensures OrderInv(s) ==> OrderInv(t)
  {
    if SendInv(s) {
      forall i | 0 <= i < |s.log.sends| - 1 ensures Spaced(t.log, s.log.sends[i], s.log.sends[i + 1]) {
        SpacingStays(s.log, t.log, s.log.sends[i], s.log.sends[i + 1]);
      }
    }
  }

  lemma SpacingStays(before: Log, after: Log, a: Transmission, b: Transmission)
    requires Spaced(before, a, b) && before.bounced <= after.bounced
    ensures Spaced(after, a, b)
  {
  }

  lemma ReceivingIsApart(s: Sys, channel: string, data: VSCData)
    requires Legal(s, RecvVSC(channel, data))
    ensures SameSends(s, Receiving(s, channel, data))
    ensures QueueInv(s) ==> QueueInv(Receiving(s, channel, data))
    ensures DowntimeInv(s) ==> DowntimeInv(Receiving(s, channel, data))
  {
    var t := Receiving(s, channel, data);
    assert forall q :: SlashFlying(t, q) <==> SlashFlying(s, q);
  }

  // ---------------------------------------------------------------- enqueueing

  /** One packet joins the queue; a downtime request sets a flag that was not set. */
  ghost predicate Enqueues(s: Sys, t: Sys, p: Packet) {
    && SameSends(s, t) && t.net == s.net && t.log.panicked == s.log.panicked && t.log.clears == s.log.clears
    && t.st.channel == s.st.channel
    && t.st.queue == s.st.queue + [p] && t.log.enqueued == s.log.enqueued + [p]
    && if p.Slash? && p.infraction == Downtime
       then p.validator !in s.st.downtime && t.st.downtime == s.st.downtime + {p.validator}
       else t.st.downtime == s.st.downtime
  }

  lemma EnqueuingKeeps(s: Sys, t: Sys, p: Packet)
    requires Enqueues(s, t, p)
    ensures QueueInv(s) ==> QueueInv(t)
    ensures DowntimeInv(s) ==> DowntimeInv(t)
  {
    assert t.log.enqueued[..|s.log.enqueued|] == s.log.enqueued;
    assert forall q :: SlashFlying(t, q) <==> SlashFlying(s, q);
  }

  lemma SlashRequestEnqueues(s: Sys, validator: Key, height: int, power: int, infraction: Infraction)
    requires Legal(s, SlashRequest(validator, height, power, infraction))
    ensures var t := Next(s, SlashRequest(validator, height, power, infraction));
            || (SameThrottle(s, t) && t.st.downtime == s.st.downtime && t.log.clears == s.log.clears)
            || Enqueues(s, t, Slash(validator, power, GetVscId(s.st, StoreKeys.ToUint64(height)), infraction))
  {
  }

  lemma MaturedEnqueues(s: Sys, vscId: nat)
    requires Legal(s, Matured(vscId))
    ensures Enqueues(s, Next(s, Matured(vscId)), VscMatured(vscId))
  {
  }

  // ---------------------------------------------------------------- acknowledgements

  /** A slash packet in flight is the head of the queue, and no other one is. */
  lemma AcknowledgedSlash(s: Sys, seqNo: nat)
    requires QueueInv(s) && s.net.open && seqNo in s.net.inFlight && s.net.inFlight[seqNo].packet.Slash?
    ensures Waiting(s) && s.st.queue != [] && s.net.inFlight[seqNo] == InFlight(s.st.queue[0], |s.log.retired|)
    ensures forall q :: SlashFlying(s, q) ==> q == seqNo
  {
    assert SlashFlying(s, seqNo);
  }

  lemma AcknowledgingKeepsFifo(s: Sys, seqNo: nat, ack: Ack, closable: set<string>)
    requires QueueInv(s) && Legal(s, Acknowledge(seqNo, ack, closable))
    ensures QueueFifo(Acknowledging(s, seqNo, ack, closable))
  {
    if s.net.inFlight[seqNo].packet.Slash? {
      AcknowledgedSlash(s, seqNo);
    }
    hide QueueFlights;
  }

  lemma AcknowledgingKeepsFlights(s: Sys, seqNo: nat, ack: Ack, closable: set<string>)
    requires QueueInv(s) && Legal(s, Acknowledge(seqNo, ack, closable))
    ensures QueueFlights(Acknowledging(s, seqNo, ack, closable))
  {
    var t := Acknowledging(s, seqNo, ack, closable);
    if s.net.inFlight[seqNo].packet.Slash? {
      AcknowledgedSlash(s, seqNo);
    }
    hide LeftFront, QueueFifo;
    if t.net != s.net {
      assert forall q :: SlashFlying(t, q) <==> SlashFlying(s, q) && q != seqNo;
    }
  }

  lemma AcknowledgingKeepsQueue(s: Sys, seqNo: nat, ack: Ack, closable: set<string>)
    requires QueueInv(s) && Legal(s, Acknowledge(seqNo, ack, closable))
    ensures QueueInv(Acknowledging(s, seqNo, ack, closable))
  {
    hide QueueFifo, QueueFlights, OnAcknowledgement;
    AcknowledgingKeepsFifo(s, seqNo, ack, closable);
    AcknowledgingKeepsFlights(s, seqNo, ack, closable);
  }

  lemma AcknowledgingKeepsSends(s: Sys, seqNo: nat, ack: Ack, closable: set<string>)
    requires QueueInv(s) && SendInv(s) && Legal(s, Acknowledge(seqNo, ack, closable))
    ensures SendInv(Acknowledging(s, seqNo, ack, closable))
  {
    if s.net.inFlight[seqNo].packet.Slash? {
      AcknowledgedSlash(s, seqNo);
    }
    var t := Acknowledging(s, seqNo, ack, closable);
    assert s.log.bounced <= t.log.bounced && t.log.sends == s.log.sends;
    forall i | 0 <= i < |s.log.sends| - 1 ensures Spaced(t.log, s.log.sends[i], s.log.sends[i + 1]) {
      SpacingStays(s.log, t.log, s.log.sends[i], s.log.sends[i + 1]);
    }
    hide QueueFlights, Spaced;
  }

  lemma AcknowledgingKeepsOrder(s: Sys, seqNo: nat, ack: Ack, closable: set<string>)
    requires QueueInv(s) && OrderInv(s) && Legal(s, Acknowledge(seqNo, ack, closable))
    ensures OrderInv(Acknowledging(s, seqNo, ack, closable))
  {
    if s.net.inFlight[seqNo].packet.Slash? {
      AcknowledgedSlash(s, seqNo);
    }
    assert Acknowledging(s, seqNo, ack, closable).log.sends == s.log.sends;
    hide QueueFlights, NextInLine;
  }

  // ---------------------------------------------------------------- the end of a block

  lemma {:induction false} LaunchFacts(net: Net, queue: seq<Packet>, pos: nat)
    requires forall q :: q in net.inFlight ==> q < net.nextSeq
    ensures var r := Launch(net, queue, pos);
            && (forall q :: q in r.inFlight <==> q in net.inFlight || net.nextSeq <= q < net.nextSeq + |queue|)
            && (forall q :: q in net.inFlight ==> r.inFlight[q] == net.inFlight[q])
            && (forall q :: net.nextSeq <= q < net.nextSeq + |queue| ==>
                  r.inFlight[q] == InFlight(queue[q - net.nextSeq], pos + (q - net.nextSeq)))
    decreases |queue|
  {
    if queue != [] {
      LaunchFacts(net.(inFlight := net.inFlight[net.nextSeq := InFlight(queue[0], pos)], nextSeq := net.nextSeq + 1),
                  queue[1..], pos + 1);
    }
  }

  lemma SendKeepsRest(st: State, n: nat, now: int)
    requires n <= |st.queue|
    ensures AfterSend(st, n, now) == st.(queue := AfterSend(st, n, now).queue, record := AfterSend(st, n, now).record)
  {
  }

  lemma FlushKeepsQueue(st: State)
    ensures FlushPending(st)
         == st.(vals := FlushPending(st).vals, downtime := FlushPending(st).downtime, pending := None)
    ensures Changeover(st) == st.(vals := Changeover(st).vals, downtime := Changeover(st).downtime, preCCV := false)
  {
  }

  /** Sending leaves alone what the flush works on, and the flush the queue. */
  lemma EndBlockParts(st: State, now: int, accepted: seq<bool>)
    ensures var sent, t := SendPackets(st, now, accepted), EndBlock(st, now, accepted);
            && sent.vals == st.vals && sent.pending == st.pending && sent.downtime == st.downtime
            && t.channel == st.channel
            && t.queue == (if st.preCCV then st.queue else sent.queue)
            && t.record == (if st.preCCV then st.record else sent.record)
  {
    SendKeepsRest(st, SentCount(st, now, accepted), now);
    if st.preCCV {
      FlushKeepsQueue(st);
    } else {
      FlushKeepsQueue(SendPackets(st, now, accepted));
    }
  }

  /** What a block's end does to the queue and the record. */
  lemma EndOfBlock(s: Sys, accepted: seq<bool>)
    ensures var st, n := EndBlock(s.st, s.block.time, Takes(s, accepted)), Departures(s, accepted);
            && st.channel == s.st.channel
            && (if n > 0 && s.st.queue[n - 1].Slash?
                then st.queue == s.st.queue[n - 1..] && st.record == Some(SlashRecord(s.block.time, true))
                else st.queue == s.st.queue[n..] && st.record == s.st.record)
            && (forall i :: 0 <= i < n - 1 ==> s.st.queue[i].VscMatured?)
            && (n > 0 ==> s.net.open && s.st.channel != "" && !s.st.preCCV
                          && Permitted(s.st.record, s.block.time, s.st.params.retryDelay))
  {
    EndBlockParts(s.st, s.block.time, Takes(s, accepted));
  }

  /** What the end of a block puts on the channel. */
  lemma SlashesLaunched(s: Sys, accepted: seq<bool>, standalone: seq<Key>, q: nat)
    requires forall p :: p in s.net.inFlight ==> p < s.net.nextSeq
    ensures var t, n := Finishing(s, accepted, standalone), Departures(s, accepted);
            && (q in t.net.inFlight ==> q < t.net.nextSeq)
            && (SlashFlying(t, q)
                <==> SlashFlying(s, q) || (n > 0 && s.st.queue[n - 1].Slash? && q == s.net.nextSeq + n - 1))
            && (SlashFlying(s, q) ==> t.net.inFlight[q] == s.net.inFlight[q])
            && (q == s.net.nextSeq + n - 1 && n > 0 ==>
                  SlashFlying(t, q) ==> t.net.inFlight[q] == InFlight(s.st.queue[n - 1], |s.log.retired| + n - 1))
  {
    var t, n := Finishing(s, accepted, standalone), Departures(s, accepted);
    EndOfBlock(s, accepted);
    LaunchFacts(s.net, s.st.queue[..n], |s.log.retired|);
    hide EndBlock, Launch, SentCount, EndBlockUpdates, EngineAfter, Transmissions, LeftFront;
    if s.net.nextSeq <= q < s.net.nextSeq + n {
      assert t.net.inFlight[q].packet == s.st.queue[q - s.net.nextSeq];
    }
  }

  lemma FinishingKeepsFifo(s: Sys, accepted: seq<bool>, standalone: seq<Key>)
    requires QueueFifo(s)
    ensures QueueFifo(Finishing(s, accepted, standalone))
  {
    var t := Finishing(s, accepted, standalone);
    EndOfBlock(s, accepted);
    hide EndBlock, Launch, SentCount, EndBlockUpdates, EngineAfter, Transmissions, Permitted;
    assert LeftFront(s.st, t.st) == s.st.queue[..|s.st.queue| - |t.st.queue|];
  }

  /** With nothing in flight beforehand, what is in flight is the slash packet that was sent last, if one was. */
  lemma FinishingKeepsFlights(s: Sys, accepted: seq<bool>, standalone: seq<Key>)
    requires QueueFifo(s) && QueueFlights(s)
    ensures QueueFlights(Finishing(s, accepted, standalone))
  {
    var t, n := Finishing(s, accepted, standalone), Departures(s, accepted);
    EndOfBlock(s, accepted);
    var last := s.net.nextSeq + n - 1;
    forall q: nat
      ensures q in t.net.inFlight ==> q < t.net.nextSeq
      ensures SlashFlying(t, q) <==> SlashFlying(s, q) || (n > 0 && s.st.queue[n - 1].Slash? && q == last)
      ensures SlashFlying(s, q) ==> t.net.inFlight[q] == s.net.inFlight[q]
      ensures q == last && n > 0 ==>
                SlashFlying(t, q) ==> t.net.inFlight[q] == InFlight(s.st.queue[n - 1], |s.log.retired| + n - 1)
    {
      SlashesLaunched(s, accepted, standalone, q);
    }
    assert |t.log.retired| == |s.log.retired| + |s.st.queue| - |t.st.queue|;
    assert t.net.open == s.net.open;
    hide EndBlock, Launch, SentCount, EndBlockUpdates, EngineAfter, Transmissions, SlashFlying, LeftFront,
         Finishing, Departures;
    if n > 0 {
      assert s.st.record.Some? ==> n == 1;
      assert forall q :: !SlashFlying(s, q);
      if s.st.queue[n - 1].Slash? {
        assert SlashFlying(t, last);
      }
    }
  }

  lemma FinishingKeepsQueue(s: Sys, accepted: seq<bool>, standalone: seq<Key>)
    requires QueueInv(s)
    ensures QueueInv(Finishing(s, accepted, standalone))
  {
    hide QueueFifo, QueueFlights;
    FinishingKeepsFifo(s, accepted, standalone);
    FinishingKeepsFlights(s, accepted, standalone);
  }

  lemma FinishingKeepsSends(s: Sys, accepted: seq<bool>, standalone: seq<Key>)
    requires QueueInv(s) && SendInv(s)
    ensures SendInv(Finishing(s, accepted, standalone))
  {
    var t, n := Finishing(s, accepted, standalone), Departures(s, accepted);
    EndOfBlock(s, accepted);
    var ts := Transmissions(s, n);
    assert t.log.sends == s.log.sends + ts;
    assert |t.log.retired| == |s.log.retired| + |s.st.queue| - |t.st.queue|;
    if n > 0 {
      assert s.st.record.Some? ==> n == 1;
      assert t.log.sends[|t.log.sends| - 1] == ts[n - 1];
    }
    forall i | 0 <= i < |t.log.sends| - 1 ensures Spaced(t.log, t.log.sends[i], t.log.sends[i + 1]) {
      if i < |s.log.sends| - 1 {
        assert Spaced(s.log, s.log.sends[i], s.log.sends[i + 1]);
      } else if i == |s.log.sends| - 1 {
        assert t.log.sends[i + 1] == ts[0];
      } else {
        assert t.log.sends[i] == ts[i - |s.log.sends|] && t.log.sends[i + 1] == ts[i + 1 - |s.log.sends|];
      }
    }
  }

  lemma FinishingKeepsOrder(s: Sys, accepted: seq<bool>, standalone: seq<Key>)
    requires QueueInv(s) && OrderInv(s)
    ensures OrderInv(Finishing(s, accepted, standalone))
  {
    var t, n := Finishing(s, accepted, standalone), Departures(s, accepted);
    EndOfBlock(s, accepted);
    var ts := Transmissions(s, n);
    assert t.log.sends == s.log.sends + ts;
    assert |t.log.retired| == |s.log.retired| + |s.st.queue| - |t.st.queue|;
    hide EndBlock, Launch, SentCount, EndBlockUpdates, EngineAfter, LeftFront, QueueFlights;
    if n > 0 {
      assert s.st.record.Some? ==> n == 1;
      assert t.log.sends[|t.log.sends| - 1] == ts[n - 1];
    }
    forall i | 0 <= i < |t.log.sends| - 1 ensures NextInLine(t.log.sends[i], t.log.sends[i + 1]) {
      if i < |s.log.sends| - 1 {
        assert NextInLine(s.log.sends[i], s.log.sends[i + 1]);
      } else if i == |s.log.sends| - 1 {
        assert t.log.sends[i + 1] == ts[0];
      } else {
        assert t.log.sends[i] == ts[i - |s.log.sends|] && t.log.sends[i + 1] == ts[i + 1 - |s.log.sends|];
      }
    }
  }

  lemma FinishingKeepsDowntime(s: Sys, accepted: seq<bool>, standalone: seq<Key>)
    requires DowntimeInv(s)
    ensures DowntimeInv(Finishing(s, accepted, standalone))
  {
    FlagsOnlyFall(s.st, s.block.time, Takes(s, accepted));
    var t := Finishing(s, accepted, standalone);
    assert t.log.clears == s.log.clears + multiset(s.st.downtime - t.st.downtime);
    hide EndBlock, Launch, SentCount, EndBlockUpdates, EngineAfter, LeftFront;
  }

  lemma FlagsOnlyFall(st: State, now: int, accepted: seq<bool>)
    ensures EndBlock(st, now, accepted).downtime <= st.downtime
  {
    EndBlockParts(st, now, accepted);
  }

  // ---------------------------------------------------------------- all steps, all runs

  /** First in, first out and the single flight need nothing but themselves. */
  lemma NextKeepsQueue(s: Sys, step: Step)
    requires QueueInv(s) && Legal(s, step)
    ensures QueueInv(Next(s, step))
  {
    hide QueueInv, DowntimeInv, SameSends;
    match step
    case SlashRequest(validator, height, power, infraction) =>
      SlashRequestEnqueues(s, validator, height, power, infraction);
      if SameThrottle(s, Next(s, step)) {
        SameThrottleKeeps(s, Next(s, step));
      } else {
        var id := GetVscId(s.st, StoreKeys.ToUint64(height));
        EnqueuingKeeps(s, Next(s, step), Slash(validator, power, id, infraction));
      }
    case Matured(vscId) =>
      MaturedEnqueues(s, vscId);
      EnqueuingKeeps(s, Next(s, step), VscMatured(vscId));
    case RecvVSC(channel, data) => ReceivingIsApart(s, channel, data);
    case Acknowledge(seqNo, ack, closable) => AcknowledgingKeepsQueue(s, seqNo, ack, closable);
    case Timeout(seqNo) => TimingOutKeeps(s, seqNo);
    case FinishBlock(accepted, standalone) => FinishingKeepsQueue(s, accepted, standalone);
    case _ => SameThrottleKeeps(s, Next(s, step));
  }

  lemma TimingOutKeeps(s: Sys, seqNo: nat)
    requires QueueInv(s)
    ensures QueueInv(TimingOut(s, seqNo))
  {
  }

  /** The steps that neither send nor retire. */
  lemma OthersAreApart(s: Sys, step: Step)
    requires Legal(s, step) && !step.Acknowledge? && !step.FinishBlock?
    ensures SameSends(s, Next(s, step))
  {
    match step
    case RecvVSC(channel, data) => ReceivingIsApart(s, channel, data);
    case SlashRequest(validator, height, power, infraction) =>
      SlashRequestEnqueues(s, validator, height, power, infraction);
    case _ =>
  }

  lemma NextKeepsSends(s: Sys, step: Step)
    requires QueueInv(s) && SendInv(s) && Legal(s, step)
    ensures SendInv(Next(s, step))
  {
    hide QueueInv, SendInv, OrderInv, SameSends, Acknowledging, Finishing, Receiving, Starting, Enqueuing;
    match step
    case Acknowledge(seqNo, ack, closable) => AcknowledgingKeepsSends(s, seqNo, ack, closable);
    case FinishBlock(accepted, standalone) => FinishingKeepsSends(s, accepted, standalone);
    case _ =>
      OthersAreApart(s, step);
      SameSendsKeep(s, Next(s, step));
  }

  lemma NextKeepsOrder(s: Sys, step: Step)
    requires QueueInv(s) && OrderInv(s) && Legal(s, step)
    ensures OrderInv(Next(s, step))
  {
    hide QueueInv, SendInv, OrderInv, SameSends, Acknowledging, Finishing, Receiving, Starting, Enqueuing;
    match step
    case Acknowledge(seqNo, ack, closable) => AcknowledgingKeepsOrder(s, seqNo, ack, closable);
    case FinishBlock(accepted, standalone) => FinishingKeepsOrder(s, accepted, standalone);
    case _ =>
      OthersAreApart(s, step);
      SameSendsKeep(s, Next(s, step));
  }

  lemma NextKeepsDowntime(s: Sys, step: Step)
    requires DowntimeInv(s) && Legal(s, step)
    ensures DowntimeInv(Next(s, step))
  {
    match step
    case SlashRequest(validator, height, power, infraction) =>
      SlashRequestEnqueues(s, validator, height, power, infraction);
      if !SameThrottle(s, Next(s, step)) {
        var id := GetVscId(s.st, StoreKeys.ToUint64(height));
        EnqueuingKeeps(s, Next(s, step), Slash(validator, power, id, infraction));
      }
    case Matured(vscId) =>
      MaturedEnqueues(s, vscId);
      EnqueuingKeeps(s, Next(s, step), VscMatured(vscId));
    case RecvVSC(channel, data) => ReceivingIsApart(s, channel, data);
    case FinishBlock(accepted, standalone) => FinishingKeepsDowntime(s, accepted, standalone);
    case _ =>
  }

  lemma InitialHolds(s: Sys)
    requires Initial(s)
    ensures Inv(s)
  {
  }

  lemma {:induction false} ExecKeeps(s: Sys, steps: seq<Step>)
    requires Inv(s) && LegalRun(s, steps)
    ensures Inv(Exec(s, steps))
    decreases |steps|
  {
    hide QueueInv, SendInv, DowntimeInv, Legal, Next;
    if steps != [] {
      NextKeepsQueue(s, steps[0]);
      NextKeepsSends(s, steps[0]);
      NextKeepsDowntime(s, steps[0]);
      ExecKeeps(Next(s, steps[0]), steps[1..]);
    }
  }

  /** A queue in order stays in order, and so do transmissions, without regard to the times between them. */
  lemma {:induction false} ExecKeepsOrder(s: Sys, steps: seq<Step>)
    requires QueueInv(s) && OrderInv(s) && DowntimeInv(s) && LegalRun(s, steps)
    ensures QueueInv(Exec(s, steps)) && OrderInv(Exec(s, steps)) && DowntimeInv(Exec(s, steps))
    decreases |steps|
  {
    hide QueueInv, OrderInv, DowntimeInv, Legal, Next;
    if steps != [] {
      NextKeepsQueue(s, steps[0]);
      NextKeepsOrder(s, steps[0]);
      NextKeepsDowntime(s, steps[0]);
      ExecKeepsOrder(Next(s, steps[0]), steps[1..]);
    }
  }

  lemma ReachableHolds(s: Sys)
    requires Reachable(s)
    ensures Inv(s)
  {
    var start, steps :| LeadsTo(start, steps, s);
    InitialHolds(start);
    ExecKeeps(start, steps);
  }

  // ---------------------------------------------------------------- what this means in every reachable state

  ghost function SlashesInFlight(s: Sys): set<nat> {
    set q | q in s.net.inFlight && s.net.inFlight[q].packet.Slash?
  }

  lemma SlashesCounted(s: Sys)
    requires QueueInv(s) && s.net.open
    ensures |SlashesInFlight(s)| == if Waiting(s) then 1 else 0
  {
    assert forall q :: q in SlashesInFlight(s) <==> SlashFlying(s, q);
    if Waiting(s) {
      var q: nat :| SlashFlying(s, q);
      assert SlashesInFlight(s) == {q};
    } else {
      assert SlashesInFlight(s) == {};
    }
  }

  /** While the channel is open, the unacknowledged slash packets number one if the consumer waits for a reply
      and none otherwise; a record means that the head of the queue is that very packet. */
  lemma SingleFlight(s: Sys)
    requires Reachable(s) && s.net.open
    ensures |SlashesInFlight(s)| == if Waiting(s) then 1 else 0
    ensures s.st.record.Some? ==> s.st.queue != [] && s.st.queue[0].Slash?
    ensures forall q :: q in SlashesInFlight(s) ==>
              s.st.queue != [] && s.net.inFlight[q] == InFlight(s.st.queue[0], |s.log.retired|)
  {
    ReachableHolds(s);
    SlashesCounted(s);
    forall q | q in SlashesInFlight(s)
      ensures s.st.queue != [] && s.net.inFlight[q] == InFlight(s.st.queue[0], |s.log.retired|)
    {
      assert SlashFlying(s, q);
    }
  }

  /** No acknowledgement makes the bounce handler panic, in whatever order acknowledgements come. */
  lemma BounceFindsRecord(s: Sys, seqNo: nat, ack: Ack, closable: set<string>)
    requires Reachable(s) && Legal(s, Acknowledge(seqNo, ack, closable))
    ensures !OnAcknowledgement(s.st, s.net.inFlight[seqNo].packet, s.st.channel, ack, closable).Panicked?
    ensures !s.log.panicked
  {
    ReachableHolds(s);
    assert SlashFlying(s, seqNo) <==> s.net.inFlight[seqNo].packet.Slash?;
  }

  /** Nothing is lost, duplicated or reordered: what was enqueued is what was retired followed by the queue. */
  lemma FifoConservation(s: Sys)
    requires Reachable(s)
    ensures s.log.enqueued == s.log.retired + s.st.queue
  {
    ReachableHolds(s);
  }

  ghost predicate Settles(ack: Ack) {
    ack == Result([V1_RESULT]) || ack == Result([SLASH_HANDLED_RESULT])
  }

  /** The i-th packet ever enqueued is one that went out between s and t. */
  ghost predicate WentOut(s: Sys, t: Sys, i: nat)
    requires |s.log.retired| <= i < |t.log.retired|
  {
    var k, seqNo := |s.log.sends| + i - |s.log.retired|, s.net.nextSeq + i - |s.log.retired|;
    && k < |t.log.sends| && t.log.sends[k].pos == i
    && seqNo in t.net.inFlight && t.net.inFlight[seqNo] == InFlight(t.log.retired[i], i)
  }

  /** From s to t only matured packets were retired, each of which was sent. */
  ghost predicate RetiresSent(s: Sys, t: Sys) {
    && s.log.retired <= t.log.retired
    && s.log.sends <= t.log.sends
    && forall i :: |s.log.retired| <= i < |t.log.retired| ==> t.log.retired[i].VscMatured? && WentOut(s, t, i)
  }

  lemma RetiredWentOut(s: Sys, accepted: seq<bool>, standalone: seq<Key>, i: nat)
    requires forall q :: q in s.net.inFlight ==> q < s.net.nextSeq
    requires |s.log.retired| <= i < |Finishing(s, accepted, standalone).log.retired|
    ensures var t := Finishing(s, accepted, standalone);
            && i - |s.log.retired| < |s.st.queue| && t.log.retired[i] == s.st.queue[i - |s.log.retired|]
            && t.log.retired[i].VscMatured? && WentOut(s, t, i)
  {
    var t := Finishing(s, accepted, standalone);
    EndOfBlock(s, accepted);
    LaunchFacts(s.net, s.st.queue[..Departures(s, accepted)], |s.log.retired|);
    hide EndBlock, Launch, SentCount, EndBlockUpdates, EngineAfter, Departures;
    assert s.st.queue[..Departures(s, accepted)][i - |s.log.retired|] == t.log.retired[i];
  }

  lemma FinishingRetires(s: Sys, accepted: seq<bool>, standalone: seq<Key>)
    requires QueueInv(s)
    ensures RetiresSent(s, Finishing(s, accepted, standalone))
  {
    var t := Finishing(s, accepted, standalone);
    hide EndBlock, Launch, SentCount, EndBlockUpdates, EngineAfter, WentOut, LeftFront;
    forall i | |s.log.retired| <= i < |t.log.retired| ensures t.log.retired[i].VscMatured? && WentOut(s, t, i) {
      RetiredWentOut(s, accepted, standalone, i);
    }
  }

  lemma AcknowledgingRetires(s: Sys, seqNo: nat, ack: Ack, closable: set<string>)
    requires QueueInv(s) && Legal(s, Acknowledge(seqNo, ack, closable))
    ensures var t, p := Acknowledging(s, seqNo, ack, closable), s.net.inFlight[seqNo].packet;
            t.log.retired == if p.Slash? && Settles(ack) then s.log.retired + [p] else s.log.retired
  {
    assert SlashFlying(s, seqNo) <==> s.net.inFlight[seqNo].packet.Slash?;
  }

  /** A packet leaves the queue in two ways only: a matured packet when it is sent, at the end of a block,
      a slash packet when its own acknowledgement says queued or handled. */
  lemma RetirementCause(s: Sys, step: Step)
    requires Reachable(s) && Legal(s, step)
    ensures var t := Next(s, step);
            match step
            case FinishBlock(_, _) => RetiresSent(s, t)
            case Acknowledge(seqNo, ack, _) =>
              var p := s.net.inFlight[seqNo].packet;
              t.log.retired == if p.Slash? && Settles(ack) then s.log.retired + [p] else s.log.retired
            case _ => t.log.retired == s.log.retired
  {
    ReachableHolds(s);
    match step
    case FinishBlock(accepted, standalone) => FinishingRetires(s, accepted, standalone);
    case Acknowledge(seqNo, ack, closable) => AcknowledgingRetires(s, seqNo, ack, closable);
    case _ =>
  }

  lemma {:induction false} SendsInOrder(s: Sys, i: nat, j: nat)
    requires OrderInv(s) && i <= j < |s.log.sends|
    ensures s.log.sends[i].pos <= s.log.sends[j].pos
    decreases j
  {
    if i < j {
      SendsInOrder(s, i, j - 1);
      assert NextInLine(s.log.sends[j - 1], s.log.sends[j - 1 + 1]);
    }
  }

  ghost predicate Transmitted(log: Log, pos: nat) {
    exists i :: 0 <= i < |log.sends| && log.sends[i].pos == pos
  }

  lemma {:induction false} EveryPositionSent(s: Sys, pos: nat, last: nat)
    requires OrderInv(s) && last < |s.log.sends| && pos <= s.log.sends[last].pos
    ensures Transmitted(s.log, pos)
    decreases last
  {
    if s.log.sends[last].pos != pos && last > 0 {
      assert NextInLine(s.log.sends[last - 1], s.log.sends[last - 1 + 1]);
      EveryPositionSent(s, pos, last - 1);
    }
  }

  lemma RetiredWereSent(s: Sys)
    requires OrderInv(s)
    ensures forall pos: nat :: pos < |s.log.retired| ==> Transmitted(s.log, pos)
  {
    forall pos: nat | pos < |s.log.retired| ensures Transmitted(s.log, pos) {
      EveryPositionSent(s, pos, |s.log.sends| - 1);
    }
  }

  /** Transmissions follow the order of enqueueing, and every retired packet was transmitted. */
  lemma TransmissionsInOrder(s: Sys)
    requires Reachable(s)
    ensures forall i, j :: 0 <= i < j < |s.log.sends| ==> s.log.sends[i].pos <= s.log.sends[j].pos
    ensures forall pos: nat :: pos < |s.log.retired| ==> Transmitted(s.log, pos)
  {
    ReachableHolds(s);
    SpacingIsOrder(s);
    forall i, j | 0 <= i < j < |s.log.sends| ensures s.log.sends[i].pos <= s.log.sends[j].pos {
      SendsInOrder(s, i, j);
    }
    RetiredWereSent(s);
  }

  /** Between one transmission of a packet and the next of the same packet, a bounce of it was processed,
      and more than the retry delay in force at the second has passed. */
  lemma RetrySpacing(s: Sys, i: nat, j: nat)
    requires Reachable(s) && i < j < |s.log.sends|
    requires s.log.sends[i].pos == s.log.sends[j].pos
    requires forall k :: i < k < j ==> s.log.sends[k].pos != s.log.sends[i].pos
    ensures var a, b := s.log.sends[i], s.log.sends[j];
            && (exists k :: a.bounces <= k < b.bounces && k < |s.log.bounced| && s.log.bounced[k] == a.pos)
            && b.time > a.time + b.delay
  {
    ReachableHolds(s);
    SpacingIsOrder(s);
    SendsInOrder(s, i, j - 1);
    SendsInOrder(s, j - 1, j);
    assert j == i + 1;
    assert Spaced(s.log, s.log.sends[i], s.log.sends[i + 1]);
  }

  /** Per validator, downtime requests minus clears of a set flag is 0 or 1, and 1 exactly when the flag is set. */
  lemma DowntimeAccounting(s: Sys, v: Key)
    requires Reachable(s)
    ensures 0 <= CountDowntime(s.log.enqueued, v) - s.log.clears[v] <= 1
    ensures CountDowntime(s.log.enqueued, v) - s.log.clears[v] == 1 <==> v in s.st.downtime
  {
    ReachableHolds(s);
  }
}
