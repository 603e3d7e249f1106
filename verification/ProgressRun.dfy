/** What each step of a run does, outright: when packets go out, which acknowledgements count, which packets are
    received, which requests are queued and which flags fall. Together with the invariants this leaves no step free
    to do less. */
module ProgressRun {
  import opened Common
  import opened Ordering
  import opened Valset
  import opened ConsumerSpec
  import opened Chain
  import ReplicationRun
  import StoreKeys
  import ThrottleRun

  // ---------------------------------------------------------------- sending

  /** The head of the queue may go out: there is no record, or its reply has come and the retry delay is over. */
  predicate MaySend(s: Sys) {
    match s.st.record
    case None => true
    case Some(r) => !r.waitingOnReply && s.block.time > r.sendTime + s.st.params.retryDelay
  }

  predicate Connected(s: Sys) {
    s.net.open && s.st.channel != "" && !s.st.preCCV
  }

  function Sent(s: Sys, t: Sys): int {
    |t.log.sends| - |s.log.sends|
  }

  /** At the end of a block something goes out exactly if the chain is connected, a packet waits, IBC takes the first
      attempt, and there is no record or a bounced one whose delay is over. What goes out are the first n packets, each
      accepted, a slash packet only as the last; and sending stops only at the end of the queue, at a refusal
      or behind a slash packet. */
  lemma SendsExactly(s: Sys, accepted: seq<bool>, standalone: seq<Key>)
    requires Legal(s, FinishBlock(accepted, standalone))
    ensures var t := Next(s, FinishBlock(accepted, standalone));
            var n := Sent(s, t);
            && s.log.sends <= t.log.sends
            && (n > 0 <==> Connected(s) && MaySend(s) && s.st.queue != [] && accepted != [] && accepted[0])
            && n <= |s.st.queue|
            && (forall k :: |s.log.sends| <= k < |t.log.sends| ==>
                  && t.log.sends[k].pos == |s.log.retired| + k - |s.log.sends|
                  && t.log.sends[k].time == s.block.time)
            && (n > 0 ==>
                  && n <= |accepted|
                  && (forall i :: 0 <= i < n ==> accepted[i])
                  && (forall i :: 0 <= i < n - 1 ==> s.st.queue[i].VscMatured?)
                  && (n == |s.st.queue| || n == |accepted| || !accepted[n] || s.st.queue[n - 1].Slash?))
  {
    var n := Departures(s, accepted);
    assert s.log.sends <= Next(s, FinishBlock(accepted, standalone)).log.sends;
    hide EndBlock, Launch, EndBlockUpdates, EngineAfter, LeftFront;
  }

  /** What sending leaves behind: matured packets that went out are retired; a slash packet that went out stays at the
      head with a record of the block's time that waits for a reply; otherwise the record is as before. */
  lemma SendingLeaves(s: Sys, accepted: seq<bool>, standalone: seq<Key>)
    requires Legal(s, FinishBlock(accepted, standalone))
    ensures var t := Next(s, FinishBlock(accepted, standalone));
            var n := Sent(s, t);
            0 <= n <= |s.st.queue|
            && if n > 0 && s.st.queue[n - 1].Slash?
               then t.st.queue == s.st.queue[n - 1..] && t.st.record == Some(SlashRecord(s.block.time, true))
               else t.st.queue == s.st.queue[n..] && t.st.record == s.st.record
  {
    ThrottleRun.EndOfBlock(s, accepted);
    hide EndBlock, Launch, EndBlockUpdates, EngineAfter, LeftFront, SentCount;
  }

  // ---------------------------------------------------------------- acknowledgements

  /** The acknowledgements that are taken: a result of one byte for a matured packet; V1, handled or bounced for
      a slash packet; an error, if the established channel can be closed. */
  predicate Taken(s: Sys, p: Packet, ack: Ack, closable: set<string>) {
    match ack
    case Result(bytes) => |bytes| == 1 && (p.VscMatured? || bytes[0] == 1 || bytes[0] == 2 || bytes[0] == 3)
    case Error(message) => message != "" && s.st.channel != "" && s.st.channel in closable
    case NoResponse => false
  }

  /** Exactly these acknowledgements take their packet out of flight; any other one changes nothing. */
  lemma AcknowledgesExactly(s: Sys, seqNo: nat, ack: Ack, closable: set<string>)
    requires Reachable(s) && Legal(s, Acknowledge(seqNo, ack, closable))
    ensures var t := Next(s, Acknowledge(seqNo, ack, closable));
            var p := s.net.inFlight[seqNo].packet;
            && (seqNo !in t.net.inFlight <==> Taken(s, p, ack, closable))
            && (Taken(s, p, ack, closable) ==> t.net.inFlight == s.net.inFlight - {seqNo})
            && (!Taken(s, p, ack, closable) ==> t == s)
  {
    ThrottleRun.ReachableHolds(s);
    hide Reachable, ThrottleRun.SendInv, ThrottleRun.DowntimeInv;
    if s.net.inFlight[seqNo].packet.Slash? {
      ThrottleRun.AcknowledgedSlash(s, seqNo);
    }
  }

  /** What a taken acknowledgement does. A bounce ends the wait and keeps the packet and its send time; V1 and handled
      retire the packet and clear the record; a matured packet's reply changes nothing more;
      an error closes the channel and leaves the state alone. */
  lemma AcknowledgementsDo(s: Sys, seqNo: nat, ack: Ack, closable: set<string>)
    requires Reachable(s) && Legal(s, Acknowledge(seqNo, ack, closable))
    requires Taken(s, s.net.inFlight[seqNo].packet, ack, closable)
    ensures var t := Next(s, Acknowledge(seqNo, ack, closable));
            var (p, pos) := (s.net.inFlight[seqNo].packet, s.net.inFlight[seqNo].pos);
            if ack.Error? then !t.net.open && t.st == s.st && t.log == s.log
            else if p.VscMatured? then t.net.open && t.st == s.st && t.log == s.log
            else if ack.bytes[0] == 3 then
              && t.net.open && s.st.record.Some? && s.st.queue != [] && s.st.queue[0] == p
              && t.st == s.st.(record := Some(SlashRecord(s.st.record.value.sendTime, false)))
              && t.log == s.log.(bounced := s.log.bounced + [pos])
            else
              && t.net.open && s.st.queue != [] && s.st.queue[0] == p
              && t.st == s.st.(record := None, queue := s.st.queue[1..])
              && t.log == s.log.(retired := s.log.retired + [p])
  {
    ThrottleRun.ReachableHolds(s);
    hide Reachable, ThrottleRun.SendInv, ThrottleRun.DowntimeInv;
    if s.net.inFlight[seqNo].packet.Slash? {
      ThrottleRun.AcknowledgedSlash(s, seqNo);
      hide ThrottleRun.QueueInv;
      assert ack.Result? ==> ack.bytes == [ack.bytes[0]];
      assert LeftFront(s.st, s.st.(queue := s.st.queue[1..])) == [s.st.queue[0]];
      assert LeftFront(s.st, s.st) == [];
      assert s.log.retired + [] == s.log.retired;
    } else {
      assert LeftFront(s.st, s.st) == [];
      assert s.log.retired + [] == s.log.retired;
    }
  }

  // ---------------------------------------------------------------- validator set packets

  /** The data are valid, and the channel is the established one or the first. */
  predicate Acceptable(s: Sys, channel: string, data: VSCData) {
    data.updates.Some? && data.vscId != 0 && (s.st.channel == "" || s.st.channel == channel)
  }

  /** Exactly the acceptable packets are received. Their channel is then the established one, their id is that of the
      next height, and the flags of exactly the validators they acknowledge fall. Any other packet changes nothing. */
  lemma ReceivesExactly(s: Sys, channel: string, data: VSCData)
    requires Legal(s, RecvVSC(channel, data))
    ensures var t := Next(s, RecvVSC(channel, data));
            if Acceptable(s, channel, data) then
              && t.log.receipts == s.log.receipts + [Receipt(s.block.height, data.vscId, data.updates.value)]
              && t.st.channel == channel
              && GetVscId(t.st, s.block.height + 1) == data.vscId
              && (forall v :: v in t.st.downtime <==> v in s.st.downtime && Some(v) !in data.slashAcks)
              && t.st.queue == s.st.queue && t.st.record == s.st.record && t.st.vals == s.st.vals
            else t == s
  {
    hide Accumulated;
  }

  // ---------------------------------------------------------------- slash requests

  /** A request is queued exactly if its kind is specified, the provider governs its height, and it is no downtime
      request of a validator that has one outstanding. It carries the id of the last packet received before that
      height. */
  lemma QueuesExactly(s: Sys, v: Key, height: int, power: int, infraction: Infraction)
    requires Reachable(s) && Legal(s, SlashRequest(v, height, power, infraction))
    ensures var t := Next(s, SlashRequest(v, height, power, infraction));
            var p := Slash(v, power, ReplicationRun.LastIdBefore(s.log.receipts, height), infraction);
            if && infraction != Unspecified && ReplicationRun.ProviderGoverns(s, height)
               && !(infraction == Downtime && v in s.st.downtime)
            then
              && t.log.enqueued == s.log.enqueued + [p]
              && t.st == s.st.(queue := s.st.queue + [p],
                               downtime := if infraction == Downtime then s.st.downtime + {v} else s.st.downtime)
            else t.st == s.st && t.log == s.log
  {
    var t := Next(s, SlashRequest(v, height, power, infraction));
    assert s.log.enqueued + [] == s.log.enqueued;
    if infraction != Unspecified {
      ReplicationRun.InfractionsFollowTheSet(s, v, height, power, infraction);
      ReplicationRun.RequestCarriesLastId(s, v, height, power, infraction);
    }
    hide Reachable, ReplicationRun.ProviderGoverns, ReplicationRun.LastIdBefore, GetVscId, StoreKeys.ToUint64;
  }

  // ---------------------------------------------------------------- the list for the consensus engine

  /** The list that a block returns. With nothing pending it is empty. Otherwise it holds exactly the pending updates
      that are no removal of an absent validator, by decreasing power and then key. The block of the changeover returns
      the initial set and then a zero-power update for exactly the other standalone validators. */
  lemma ReturnsExactly(s: Sys, accepted: seq<bool>, standalone: seq<Key>)
    requires Reachable(s) && Legal(s, FinishBlock(accepted, standalone))
    ensures var list := EndBlockUpdates(s.st, standalone);
            if s.st.preCCV then
              && |s.st.initialSet| <= |list| && list[..|s.st.initialSet|] == s.st.initialSet
              && forall u :: u in list[|s.st.initialSet|..] <==>
                   u.power == 0 && u.key in standalone && forall i :: i in s.st.initialSet ==> i.key != u.key
            else if s.st.pending.None? then list == []
            else
              && (forall u :: u in list <==> u in s.st.pending.value && (u.power >= 1 || u.key in s.st.vals))
              && Sorted(Before, list)
  {
    PendingIsCanonical(s);
    ListsAreDistinct(s);
    hide Reachable;
    if s.st.preCCV {
      RetiredKeys(standalone, s.st.initialSet);
    } else if s.st.pending.Some? {
      ForwardedExactly(s.st.vals, s.st.pending.value);
      ForwardedInOrder(s.st.vals, s.st.pending.value);
    }
  }

  /** Pending changes are always in canonical order. */
  ghost predicate PendingSorted(s: Sys) {
    s.st.pending.Some? ==> Sorted(Before, s.st.pending.value)
  }

  lemma NextKeepsSorted(s: Sys, step: Step)
    requires PendingSorted(s) && Legal(s, step)
    ensures PendingSorted(Next(s, step))
  {
    match step
    case FinishBlock(accepted, standalone) =>
      ReplicationRun.EndBlockVals(s.st, s.block.time, Takes(s, accepted));
      hide EndBlock;
    case Acknowledge(seqNo, ack, closable) =>
      ReplicationRun.AcknowledgementTouches(s.st, s.net.inFlight[seqNo].packet, s.st.channel, ack, closable);
      hide OnAcknowledgement;
    case _ =>
  }

  lemma {:induction false} ExecKeepsSorted(s: Sys, steps: seq<Step>)
    requires PendingSorted(s) && LegalRun(s, steps)
    ensures PendingSorted(Exec(s, steps))
    decreases |steps|
  {
    hide PendingSorted, Legal, Next;
    if steps != [] {
      NextKeepsSorted(s, steps[0]);
      ExecKeepsSorted(Next(s, steps[0]), steps[1..]);
    }
  }

  lemma PendingIsCanonical(s: Sys)
    requires Reachable(s)
    ensures PendingSorted(s)
  {
    var start, steps :| LeadsTo(start, steps, s);
    ExecKeepsSorted(start, steps);
  }

  // ---------------------------------------------------------------- flags at the end of a block

  /** At the end of a block the flags of exactly those validators fall that were absent and are present now. */
  lemma FlagsFallExactly(s: Sys, accepted: seq<bool>, standalone: seq<Key>)
    requires Reachable(s) && Legal(s, FinishBlock(accepted, standalone))
    ensures var t := Next(s, FinishBlock(accepted, standalone));
            forall v :: v in t.st.downtime <==> v in s.st.downtime && !(v !in s.st.vals && v in t.st.vals)
  {
    var us := if s.st.preCCV then s.st.initialSet else ReplicationRun.PendingList(s.st);
    ListsAreDistinct(s);
    hide Reachable, DistinctKeys;
    FlagsAtEnd(s.st, s.block.time, Takes(s, accepted));
    NewlyPresent(s.st.vals, us);
    hide Apply, EndBlock, Launch, EndBlockUpdates, EngineAfter, LeftFront, SentCount, Created;
  }

  lemma ListsAreDistinct(s: Sys)
    requires Reachable(s)
    ensures DistinctKeys(if s.st.preCCV then s.st.initialSet else ReplicationRun.PendingList(s.st))
    ensures forall k :: k in s.st.vals ==> s.st.vals[k] >= 1
  {
    ReplicationRun.ReachableHolds(s);
    hide Reachable, ReplicationRun.BlockInv, ReplicationRun.EngineInv, ReplicationRun.HeightInv,
         ReplicationRun.WindowInv;
  }

  lemma FlagsAtEnd(st: State, now: int, accepted: seq<bool>)
    ensures var us := if st.preCCV then st.initialSet else ReplicationRun.PendingList(st);
            && EndBlock(st, now, accepted).downtime == st.downtime - Created(st.vals, us)
            && EndBlock(st, now, accepted).vals == Apply(st.vals, us)
  {
    ThrottleRun.EndBlockParts(st, now, accepted);
    ReplicationRun.EndBlockVals(st, now, accepted);
  }

  /** Without duplicate keys the validators created are those that are present only afterwards. */
  lemma NewlyPresent(m: Powers, us: seq<Update>)
    requires DistinctKeys(us) && forall k :: k in m ==> m[k] >= 1
    ensures forall k :: k in Created(m, us) <==> k !in m && k in Apply(m, us)
  {
    CreatedAbsent(m, us);
    ApplyIsPatch(m, us);
    LastWriteDistinct(us);
    forall k ensures k in Created(m, us) <==> k !in m && k in Apply(m, us) {
      if k in LastWrite(us) {
        assert Update(k, LastWrite(us)[k]) in us;
      }
      if k in Created(m, us) {
        var u :| u in us && u.key == k && u.power >= 1;
        assert u == Update(k, u.power);
      }
    }
    hide Created, Apply;
  }
}
