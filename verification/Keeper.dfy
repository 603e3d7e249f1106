/** The consumer keeper: its store fields and the handlers that update them in place. */
module Keeper {
  import opened Common
  import opened Ordering
  import opened StoreKeys
  import opened Valset
  import opened ConsumerSpec
  import Genesis

  /** How a handler ended: with success, with an error, or with a panic. The last two abort the transaction. */
  datatype Status = Done | Rejected | Panic

  datatype PacketWithIdx = PacketWithIdx(packet: Packet, idx: nat)

  // ---------------------------------------------------------------- the queue in the store

  /** The store entries of a queue whose head has index lo. */
  ghost function QueueStore(lo: nat, queue: seq<Packet>): map<Bytes, Packet> {
    if queue == [] then map[] else
    var n := |queue| - 1;
    QueueStore(lo, queue[..n])[PendingDataPacketsV1Key(lo + n) := queue[n]]
  }

  lemma {:induction false} QueueStoreEntries(lo: nat, queue: seq<Packet>)
    requires lo + |queue| <= TWO_TO_64
    ensures forall k :: k in QueueStore(lo, queue).Keys <==> k in QueueKeys(lo, lo + |queue|)
    ensures forall i :: 0 <= i < |queue| ==> QueueStore(lo, queue)[QueueKeys(lo, lo + |queue|)[i]] == queue[i]
    decreases |queue|
  {
    hide PendingDataPacketsV1Key;
    if queue != [] {
      var n := |queue| - 1;
      QueueStoreEntries(lo, queue[..n]);
      var ks, ks' := QueueKeys(lo, lo + n + 1), QueueKeys(lo, lo + n);
      assert ks == ks' + [PendingDataPacketsV1Key(lo + n)];
      forall i | 0 <= i <= n ensures ks[i] in QueueStore(lo, queue) && QueueStore(lo, queue)[ks[i]] == queue[i] {
        if i < n {
          QueueKeyDistinct(lo + i, lo + n);
          assert ks[i] == ks'[i] && queue[..n][i] == queue[i];
        }
      }
    }
  }

  lemma QueueStoreKey(lo: nat, queue: seq<Packet>, i: nat)
    requires lo + |queue| <= TWO_TO_64 && i < |queue|
    ensures PendingDataPacketsV1Key(lo + i) in QueueStore(lo, queue)
    ensures QueueStore(lo, queue)[PendingDataPacketsV1Key(lo + i)] == queue[i]
    ensures IdxOfKey(PendingDataPacketsV1Key(lo + i)) == lo + i
  {
    QueueStoreEntries(lo, queue);
    assert QueueKeys(lo, lo + |queue|)[i] == PendingDataPacketsV1Key(lo + i);
    KeyFamiliesKeepOrder(lo + i, lo + i);
  }

  lemma QueueStoreIteration(lo: nat, queue: seq<Packet>)
    requires lo + |queue| <= TWO_TO_64
    ensures StrictTotal(Less) && InOrder(Less, QueueStore(lo, queue).Keys) == QueueKeys(lo, lo + |queue|)
  {
    QueueStoreEntries(lo, queue);
    QueueIteration(QueueStore(lo, queue).Keys, lo, lo + |queue|);
  }

  lemma EmptyQueueStore(lo: nat, hi: nat)
    ensures QueueStore(lo, []) == QueueStore(hi, [])
  {
  }

  lemma QueueStoreAppend(lo: nat, queue: seq<Packet>, packet: Packet)
    ensures QueueStore(lo, queue + [packet]) == QueueStore(lo, queue)[PendingDataPacketsV1Key(lo + |queue|) := packet]
  {
    hide PendingDataPacketsV1Key;
    assert (queue + [packet])[..|queue|] == queue;
  }

  /** Deleting the key of the head leaves the store of the rest. */
  lemma {:induction false} QueueStoreTail(lo: nat, queue: seq<Packet>)
    requires lo + |queue| <= TWO_TO_64 && queue != []
    ensures QueueStore(lo, queue) - {PendingDataPacketsV1Key(lo)} == QueueStore(lo + 1, queue[1..])
    decreases |queue|
  {
    hide PendingDataPacketsV1Key;
    var n := |queue| - 1;
    var first := PendingDataPacketsV1Key(lo);
    if n == 0 {
      assert QueueStore(lo, queue[..0]) == map[];
    } else {
      QueueStoreTail(lo, queue[..n]);
      assert queue[1..][..n - 1] == queue[..n][1..] && queue[1..][n - 1] == queue[n];
      QueueKeyDistinct(lo, lo + n);
      var key := PendingDataPacketsV1Key(lo + n);
      assert QueueStore(lo, queue[..n])[key := queue[n]] - {first}
          == (QueueStore(lo, queue[..n]) - {first})[key := queue[n]];
    }
  }

  /** An index after an increment. */
  function Wrapped(i: nat): (r: nat)
    ensures i <= TWO_TO_64 ==> r < TWO_TO_64
  {
    if i == TWO_TO_64 then 0 else i
  }

  /** The store after packets have been appended one after the other. */
  function Appended(m: map<Bytes, Packet>, idx: nat, packets: seq<Packet>): map<Bytes, Packet>
    decreases |packets|
  {
    if packets == [] then m
    else Appended(m[PendingDataPacketsV1Key(idx) := packets[0]], Wrapped(idx + 1), packets[1..])
  }

  function KeysOf(idxs: seq<nat>): set<Bytes> {
    set i | i in idxs :: PendingDataPacketsV1Key(i)
  }

  /** The indexes are those of the first packets of the queue, in order. */
  predicate Leading(head: nat, queue: seq<Packet>, idxs: seq<nat>) {
    |idxs| <= |queue| && forall i :: 0 <= i < |idxs| ==> idxs[i] == head + i
  }

  /** Appends a zero-power update for every standalone validator that the initial set does not name. */
  method RetireStandalone(initial: seq<Update>, standalone: seq<Key>) returns (updates: seq<Update>)
    ensures updates == initial + Retired(standalone, initial)
  {
    var initialUpdatesFlag: set<Key> := {};
    for i := 0 to |initial|
      invariant forall k :: k in initialUpdatesFlag <==> HasKey(initial[..i], k)
    {
      assert initial[..i + 1] == initial[..i] + [initial[i]];
      initialUpdatesFlag := initialUpdatesFlag + {initial[i].key};
    }
    assert initial[..|initial|] == initial;
    updates := initial;
    for i := 0 to |standalone|
      invariant updates + Retired(standalone[i..], initial) == initial + Retired(standalone, initial)
    {
      assert standalone[i..][0] == standalone[i] && standalone[i..][1..] == standalone[i + 1..];
      if standalone[i] !in initialUpdatesFlag {
        updates := updates + [Update(standalone[i], 0)];
      }
    }
  }

  class Keeper {
    var params: Params
    var providerClientId: Option<string>
    var providerChannel: string
    var pendingPackets: map<Bytes, Packet>
    var pendingPacketsIdx: nat
    var slashRecord: Option<SlashRecord>
    var outstandingDowntime: set<Key>
    var ccValidators: Powers
    var pendingChanges: Option<seq<Update>>
    var heightValsetUpdateIds: map<nat, nat>
    var historicalInfo: map<int, Powers>
    var preCCV: bool
    var prevStandaloneChain: bool
    var initGenesisHeight: int
    var initialValSet: seq<Update>
    var lastTransmissionBlockHeight: int

    // The packets appended and not yet deleted, in order, and the index of the first.
    ghost var queue: seq<Packet>
    ghost var head: nat

    /** Indexes and heights are uint64 numbers. */
    ghost predicate Typed()
      reads this
    {
      pendingPacketsIdx < TWO_TO_64 && forall h :: h in heightValsetUpdateIds ==> h < TWO_TO_64
    }

    /** The pending packets stand for the queue: the live indexes form an interval ending just below
        the stored next index, a uint64. */
    ghost predicate Valid()
      reads this
    {
      && head + |queue| <= TWO_TO_64
      && pendingPacketsIdx == Wrapped(head + |queue|)
      && pendingPackets == QueueStore(head, queue)
      && (forall h :: h in heightValsetUpdateIds ==> h < TWO_TO_64)
    }

    /** The next index lies behind all live ones: it has not wrapped around while packets wait. */
    ghost predicate Room()
      reads this
    {
      head + |queue| < TWO_TO_64 || queue == []
    }

    ghost function View(): State
      reads this
    {
      State(params, providerClientId, providerChannel, queue, slashRecord, outstandingDowntime, ccValidators,
            pendingChanges, heightValsetUpdateIds, historicalInfo, preCCV, prevStandaloneChain, initGenesisHeight,
            initialValSet, lastTransmissionBlockHeight)
    }

    constructor ()
      ensures Valid() && View() == Genesis.EMPTY && pendingPacketsIdx == 0 && head == 0
    {
      params, providerClientId, providerChannel := Genesis.DEFAULT_PARAMS, None, "";
      pendingPackets, pendingPacketsIdx := map[], 0;
      slashRecord, outstandingDowntime := None, {};
      ccValidators, pendingChanges, heightValsetUpdateIds, historicalInfo := map[], None, map[], map[];
      preCCV, prevStandaloneChain, initGenesisHeight, initialValSet := false, false, 0, [];
      lastTransmissionBlockHeight := 0;
      queue, head := [], 0;
    }

    // -------------------------------------------------------------- pending packets

    /** Stores the packet under the next index and increments that index, which wraps around.
        The packet is the last of the queue unless the index has wrapped around while packets wait. */
    method AppendPendingPacket(packet: Packet)
      requires Typed()
      modifies this`pendingPackets, this`pendingPacketsIdx, this`queue, this`head
      ensures Typed() && queue == old(queue) + [packet]
      ensures pendingPackets == old(pendingPackets)[PendingDataPacketsV1Key(old(pendingPacketsIdx)) := packet]
      ensures pendingPacketsIdx == Wrapped(old(pendingPacketsIdx) + 1)
      ensures old(Valid() && Room()) ==> Valid()
      ensures old(head + |queue|) < TWO_TO_64 ==> head == old(head)
    {
      hide QueueStore, PendingDataPacketsV1Key;
      var idx := pendingPacketsIdx;
      pendingPacketsIdx := Wrapped(idx + 1);
      if queue == [] && head == TWO_TO_64 {
        EmptyQueueStore(0, TWO_TO_64);
        head := 0;
      }
      QueueStoreAppend(head, queue, packet);
      pendingPackets := pendingPackets[PendingDataPacketsV1Key(idx) := packet];
      queue := queue + [packet];
    }

    method GetAllPendingPacketsWithIdx() returns (packets: seq<PacketWithIdx>)
      requires Valid()
      ensures |packets| == |queue|
      ensures forall i :: 0 <= i < |queue| ==> packets[i] == PacketWithIdx(queue[i], head + i)
    {
      hide QueueStore, BigEndian, IdxOfKey, Wrapped;
      var keys := IteratePending();
      packets := [];
      for i := 0 to |keys|
        invariant |packets| == i
        invariant forall j :: 0 <= j < i ==> packets[j] == PacketWithIdx(queue[j], head + j)
      {
        QueueStoreKey(head, queue, i);
        packets := packets + [PacketWithIdx(pendingPackets[keys[i]], IdxOfKey(keys[i]))];
      }
    }

    /** The keys under the pending packet prefix, in iteration order. */
    method IteratePending() returns (keys: seq<Bytes>)
      requires Valid()
      ensures keys == QueueKeys(head, head + |queue|)
    {
      QueueStoreIteration(head, queue);
      keys := AscendingKeys(pendingPackets.Keys);
    }

    method GetPendingPackets() returns (packets: seq<Packet>)
      requires Valid()
      ensures packets == queue
    {
      var all := GetAllPendingPacketsWithIdx();
      packets := [];
      for i := 0 to |all|
        invariant packets == queue[..i]
      {
        packets := packets + [all[i].packet];
      }
    }

    /** Deletes what is stored under the given indexes; those of the front of the queue leave its rest. */
    method DeletePendingDataPackets(idxs: seq<nat>)
      requires Valid() && forall i :: i in idxs ==> i < TWO_TO_64
      modifies this`pendingPackets, this`queue, this`head
      ensures pendingPackets == old(pendingPackets) - KeysOf(idxs)
      ensures Leading(old(head), old(queue), idxs) ==>
                Valid() && View() == old(View()).(queue := old(queue)[|idxs|..])
    {
      hide QueueStore, PendingDataPacketsV1Key;
      assert idxs[..0] == [];
      for i := 0 to |idxs|
        invariant pendingPackets == old(pendingPackets) - KeysOf(idxs[..i])
        invariant Leading(old(head), old(queue), idxs) ==>
                    Valid() && head == old(head) + i && queue == old(queue)[i..]
      {
        assert idxs[..i + 1] == idxs[..i] + [idxs[i]];
        pendingPackets := pendingPackets - {PendingDataPacketsV1Key(idxs[i])};
        if Leading(old(head), old(queue), idxs) {
          QueueStoreTail(head, queue);
          queue, head := queue[1..], head + 1;
        }
      }
      assert idxs[..|idxs|] == idxs;
    }

    method DeleteHeadOfPendingPackets()
      requires Valid()
      modifies this`pendingPackets, this`queue, this`head
      ensures Valid()
      ensures View() == old(View()).(queue := if old(queue) == [] then [] else old(queue)[1..])
    {
      hide QueueStore, PendingDataPacketsV1Key, Wrapped;
      var keys := IteratePending();
      if keys == [] {
        return;
      }
      pendingPackets := pendingPackets - {keys[0]};
      QueueStoreTail(head, queue);
      queue, head := queue[1..], head + 1;
    }

    // -------------------------------------------------------------- throttling

    method PacketSendingPermitted(blockTime: int) returns (permitted: bool)
      ensures permitted == Permitted(slashRecord, blockTime, params.retryDelay)
      ensures slashRecord.None? ==> permitted
      ensures slashRecord.Some? && slashRecord.value.waitingOnReply ==> !permitted
      ensures slashRecord.Some? && !slashRecord.value.waitingOnReply ==>
                (permitted <==> blockTime > slashRecord.value.sendTime + params.retryDelay)
    {
      if slashRecord.None? {
        return true;
      }
      if slashRecord.value.waitingOnReply {
        return false;
      }
      return blockTime > slashRecord.value.sendTime + params.retryDelay;
    }

    method UpdateSlashRecordOnSend(blockTime: int)
      modifies this`slashRecord
      ensures slashRecord == Some(SlashRecord(blockTime, true))
    {
      slashRecord := Some(SlashRecord(blockTime, true));
    }

    /** Reports whether the record was found; the code panics when it is not. */
    method UpdateSlashRecordOnBounce() returns (found: bool)
      modifies this`slashRecord
      ensures found == old(slashRecord).Some?
      ensures slashRecord ==
              if found then Some(old(slashRecord).value.(waitingOnReply := false)) else old(slashRecord)
    {
      if slashRecord.None? {
        return false;
      }
      slashRecord := Some(slashRecord.value.(waitingOnReply := false));
      return true;
    }

    // -------------------------------------------------------------- relay

    method SendPackets(blockTime: int, accepted: seq<bool>) returns (sent: seq<Packet>)
      requires Valid()
      modifies this`pendingPackets, this`queue, this`head, this`slashRecord
      ensures Valid()
      ensures View() == ConsumerSpec.SendPackets(old(View()), blockTime, accepted)
      ensures sent == old(queue)[..SentCount(old(View()), blockTime, accepted)]
    {
      hide SendPrefix, Permitted, QueueStore, Wrapped;
      if providerChannel == "" {
        return [];
      }
      var pending := GetAllPendingPacketsWithIdx();
      var idxsForDeletion;
      sent, idxsForDeletion := SendFront(pending, blockTime, accepted);
      DeletePendingDataPackets(idxsForDeletion);
    }

    /** The sending loop: stops at the first refusal, or after a slash packet.
        Returns what was sent and the indexes of the sent packets that leave the queue. */
    method SendFront(pending: seq<PacketWithIdx>, blockTime: int, accepted: seq<bool>)
      returns (sent: seq<Packet>, idxsForDeletion: seq<nat>)
      requires |pending| == |queue|
      requires forall i :: 0 <= i < |queue| ==> pending[i] == PacketWithIdx(queue[i], head + i)
      modifies this`slashRecord
      ensures var n := if Permitted(old(slashRecord), blockTime, params.retryDelay) then SendPrefix(queue, accepted)
                       else 0;
              var slashSent := n > 0 && queue[n - 1].Slash?;
              && sent == queue[..n]
              && |idxsForDeletion| == (if slashSent then n - 1 else n)
              && slashRecord == if slashSent then Some(SlashRecord(blockTime, true)) else old(slashRecord)
      ensures forall j :: 0 <= j < |idxsForDeletion| ==> idxsForDeletion[j] == head + j
    {
      sent, idxsForDeletion := [], [];
      for i := 0 to |pending|
        invariant slashRecord == old(slashRecord)
        invariant sent == queue[..i]
        invariant i > 0 ==> Permitted(slashRecord, blockTime, params.retryDelay)
        invariant |idxsForDeletion| == i && forall j :: 0 <= j < i ==> idxsForDeletion[j] == head + j
        invariant i <= |accepted|
        invariant forall j :: 0 <= j < i ==> accepted[j] && queue[j].VscMatured?
      {
        var permitted := PacketSendingPermitted(blockTime);
        if !permitted {
          return;
        }
        if !(i < |accepted| && accepted[i]) {
          SendPrefixUnique(queue, accepted, i);
          return;
        }
        sent := sent + [pending[i].packet];
        if pending[i].packet.Slash? {
          SendPrefixUnique(queue, accepted, i + 1);
          UpdateSlashRecordOnSend(blockTime);
          return;
        }
        idxsForDeletion := idxsForDeletion + [pending[i].idx];
      }
      SendPrefixUnique(queue, accepted, |queue|);
    }

    /** `closable` holds the channels whose ChanCloseInit succeeds; `closed` those it closes. */
    method OnAcknowledgementPacket(packet: Packet, sourceChannel: string, ack: Ack, closable: set<string>)
      returns (status: Status, closed: set<string>)
      requires Valid()
      modifies this`pendingPackets, this`queue, this`head, this`slashRecord
      ensures Valid()
      ensures var outcome := OnAcknowledgement(old(View()), packet, sourceChannel, ack, closable);
              && (status == Done ==> outcome == Processed(View(), closed))
              && (status == Rejected ==> outcome == Failed)
              && (status == Panic ==> outcome == Panicked)
      ensures status == Done <==>
                match ack
                case NoResponse => true
                case Result(bytes) =>
                  && |bytes| == 1
                  && (packet.VscMatured? || bytes[0] == 1 || bytes[0] == 2 || (bytes[0] == 3 && old(slashRecord).Some?))
                case Error(message) =>
                  || message == ""
                  || (sourceChannel in closable && providerChannel != "" && providerChannel in closable)
      ensures status == Panic <==> packet.Slash? && ack == Result([3]) && old(slashRecord).None?
      ensures status == Done && packet.Slash? && ack.Result? && ack.bytes[0] == 3 ==>
                slashRecord == Some(old(slashRecord).value.(waitingOnReply := false)) && queue == old(queue)
      ensures status == Done && packet.Slash? && ack.Result? && ack.bytes[0] != 3 ==>
                slashRecord == None && queue == if old(queue) == [] then [] else old(queue)[1..]
      ensures status == Done && (packet.VscMatured? || !ack.Result?) ==>
                slashRecord == old(slashRecord) && queue == old(queue)
      ensures closed == if status == Done && ack.Error? && ack.message != "" then {sourceChannel, providerChannel}
                        else {}
    {
      assert ack.Result? && |ack.bytes| == 1 ==> ack.bytes == [ack.bytes[0]];
      if ack.Result? {
        if |ack.bytes| != 1 {
          return Rejected, {};
        }
        if packet.VscMatured? {
          return Done, {};
        }
        if ack.bytes[0] == V1_RESULT || ack.bytes[0] == SLASH_HANDLED_RESULT {
          slashRecord := None;
          DeleteHeadOfPendingPackets();
        } else if ack.bytes[0] == SLASH_BOUNCED_RESULT {
          var found := UpdateSlashRecordOnBounce();
          if !found {
            return Panic, {};
          }
        } else {
          return Rejected, {};
        }
      }
      if ack.Error? && ack.message != "" {
        if sourceChannel !in closable {
          return Rejected, {};
        }
        if providerChannel == "" {
          return Rejected, {};
        }
        if providerChannel != sourceChannel && providerChannel !in closable {
          return Rejected, {};
        }
        return Done, {sourceChannel, providerChannel};
      }
      return Done, {};
    }

    method OnRecvVSCPacket(blockHeight: nat, destinationChannel: string, data: VSCData) returns (status: Status)
      requires Valid() && blockHeight + 1 < TWO_TO_64
      modifies this`providerChannel, this`pendingChanges, this`heightValsetUpdateIds, this`outstandingDowntime
      ensures Valid()
      ensures var outcome := OnRecvVSC(old(View()), blockHeight, destinationChannel, data);
              && (status == Done ==> outcome == Received(View()))
              && (status == Rejected ==> outcome == Invalid)
              && (status == Panic ==> outcome == UnknownChannel)
      ensures status == Rejected <==> data.updates.None? || data.vscId == 0
      ensures status == Panic <==> data.updates.Some? && data.vscId != 0
                                   && old(providerChannel) != "" && old(providerChannel) != destinationChannel
      ensures status == Done ==>
                && providerChannel == destinationChannel
                && heightValsetUpdateIds == old(heightValsetUpdateIds)[blockHeight + 1 := data.vscId]
                && (forall v ::
                      v in outstandingDowntime <==> v in old(outstandingDowntime) && Some(v) !in data.slashAcks)
    {
      hide Accumulated, LastWrite, QueueStore, Wrapped;
      if data.updates.None? || data.vscId == 0 {
        return Rejected;
      }
      if providerChannel != "" && providerChannel != destinationChannel {
        return Panic;
      }
      if providerChannel == "" {
        providerChannel := destinationChannel;
      }
      var current := [];
      if pendingChanges.Some? {
        current := pendingChanges.value;
      }
      var changes := AccumulateChanges(current, data.updates.value);
      pendingChanges := Some(changes);
      heightValsetUpdateIds := heightValsetUpdateIds[blockHeight + 1 := data.vscId];
      ClearAcknowledged(data.slashAcks);
      return Done;
    }

    method ClearAcknowledged(slashAcks: seq<Option<Key>>)
      modifies this`outstandingDowntime
      ensures outstandingDowntime == old(outstandingDowntime) - Acked(slashAcks)
      ensures forall v :: v in outstandingDowntime <==> v in old(outstandingDowntime) && Some(v) !in slashAcks
    {
      for i := 0 to |slashAcks|
        invariant outstandingDowntime == old(outstandingDowntime) - Acked(slashAcks[..i])
      {
        assert slashAcks[..i + 1] == slashAcks[..i] + [slashAcks[i]];
        if slashAcks[i].Some? {
          outstandingDowntime := outstandingDowntime - {slashAcks[i].value};
          assert Acked(slashAcks[..i + 1]) == Acked(slashAcks[..i]) + {slashAcks[i].value};
        } else {
          assert Acked(slashAcks[..i + 1]) == Acked(slashAcks[..i]);
        }
      }
      assert slashAcks[..|slashAcks|] == slashAcks;
    }

    method QueueSlashPacket(validator: Key, power: int, vscId: nat, infraction: Infraction)
      requires Valid()
      modifies this`pendingPackets, this`pendingPacketsIdx, this`queue, this`head, this`outstandingDowntime
      ensures View() == QueueSlash(old(View()), validator, power, vscId, infraction)
      ensures old(Room()) ==> Valid()
      ensures infraction == Downtime && validator in old(outstandingDowntime) ==>
                Valid() && pendingPackets == old(pendingPackets) && pendingPacketsIdx == old(pendingPacketsIdx)
      ensures !(infraction == Downtime && validator in old(outstandingDowntime)) ==>
                && pendingPacketsIdx == Wrapped(old(pendingPacketsIdx) + 1)
                && pendingPackets == old(pendingPackets)[PendingDataPacketsV1Key(old(pendingPacketsIdx)) :=
                                       Slash(validator, power, vscId, infraction)]
    {
      hide QueueStore, PendingDataPacketsV1Key, Wrapped;
      var downtime := infraction == Downtime;
      if downtime && validator in outstandingDowntime {
        return;
      }
      if downtime {
        outstandingDowntime := outstandingDowntime + {validator};
      }
      AppendPendingPacket(Slash(validator, power, vscId, infraction));
    }

    // -------------------------------------------------------------- validators

    method GetHeightValsetUpdateID(height: nat) returns (id: nat)
      ensures id == GetVscId(View(), height)
    {
      if height in heightValsetUpdateIds {
        return heightValsetUpdateIds[height];
      }
      return 0;
    }

    method SlashWithInfractionReason(validator: Key, infractionHeight: int, power: int, infraction: Infraction)
      returns (toStandalone: bool)
      requires Valid()
      modifies this`pendingPackets, this`pendingPacketsIdx, this`queue, this`head, this`outstandingDowntime
      ensures var route :=
                ConsumerSpec.SlashWithInfractionReason(old(View()), validator, infractionHeight, power, infraction);
              && toStandalone == route.ToStandalone?
              && View() == (if route.ToProvider? then route.state else old(View()))
              && (old(Room()) || !route.ToProvider? ==> Valid())
      ensures queue == old(queue) ==>
                pendingPackets == old(pendingPackets) && pendingPacketsIdx == old(pendingPacketsIdx)
      ensures queue != old(queue) ==>
                && pendingPacketsIdx == Wrapped(old(pendingPacketsIdx) + 1)
                && pendingPackets == old(pendingPackets)[PendingDataPacketsV1Key(old(pendingPacketsIdx)) :=
                                       queue[|queue| - 1]]
    {
      hide QueueStore, PendingDataPacketsV1Key, Wrapped;
      if infraction == Unspecified {
        return false;
      }
      if prevStandaloneChain && infractionHeight < initGenesisHeight + VALIDATOR_UPDATE_DELAY + 1 {
        return true;
      }
      var vscId := GetHeightValsetUpdateID(ToUint64(infractionHeight));
      QueueSlashPacket(validator, power, vscId, infraction);
      return false;
    }

    /** `standaloneJailed` is the standalone staking keeper's answer. */
    method IsValidatorJailed(blockHeight: int, validator: Key, standaloneJailed: bool) returns (jailed: bool)
      ensures jailed == if ChangeoverIsComplete(View(), blockHeight) then validator in outstandingDowntime
                        else standaloneJailed
    {
      if prevStandaloneChain && !(blockHeight >= initGenesisHeight + VALIDATOR_UPDATE_DELAY + 1) {
        return standaloneJailed;
      }
      return validator in outstandingDowntime;
    }

    method ApplyCCValidatorChanges(changes: seq<Update>) returns (ret: seq<Update>)
      modifies this`ccValidators, this`outstandingDowntime
      ensures old(Valid()) ==> Valid()
      ensures View() == ApplyChanges(old(View()), changes)
      ensures ret == Forwarded(old(ccValidators), changes)
    {
      ret := [];
      for i := 0 to |changes|
        invariant ccValidators == Apply(old(ccValidators), changes[..i])
        invariant outstandingDowntime == old(outstandingDowntime) - Created(old(ccValidators), changes[..i])
        invariant ret == Forwarded(old(ccValidators), changes[..i])
      {
        ApplySnoc(old(ccValidators), changes[..i], changes[i]);
        assert changes[..i + 1] == changes[..i] + [changes[i]];
        var forward := ApplyCCValidatorChange(changes[i]);
        if forward {
          ret := ret + [changes[i]];
        }
      }
      assert changes[..|changes|] == changes;
    }

    /** One change; reports whether it is forwarded to the consensus engine. */
    method ApplyCCValidatorChange(change: Update) returns (forward: bool)
      modifies this`ccValidators, this`outstandingDowntime
      ensures ccValidators == Apply1(old(ccValidators), change)
      ensures outstandingDowntime == if change.power >= 1 && change.key !in old(ccValidators)
                                     then old(outstandingDowntime) - {change.key} else old(outstandingDowntime)
      ensures forward <==> change.power >= 1 || change.key in old(ccValidators)
    {
      if change.key in ccValidators {
        if change.power < 1 {
          ccValidators := ccValidators - {change.key};
        } else {
          ccValidators := ccValidators[change.key := change.power];
        }
      } else if 0 < change.power {
        ccValidators := ccValidators[change.key := change.power];
        outstandingDowntime := outstandingDowntime - {change.key};
      } else {
        return false;
      }
      return true;
    }

    method TrackHistoricalInfo(blockHeight: nat)
      requires Valid()
      modifies this`historicalInfo
      ensures Valid()
      ensures View() == old(View()).(history := TrackHistory(old(View()), blockHeight))
    {
      var i: int := blockHeight - params.historicalEntries;
      while i >= 0
        invariant Valid()
        invariant Prune(historicalInfo, i)
               == Prune(old(historicalInfo), blockHeight - params.historicalEntries)
        decreases i
      {
        if i !in historicalInfo {
          break;
        }
        historicalInfo := historicalInfo - {i};
        i := i - 1;
      }
      if params.historicalEntries == 0 {
        return;
      }
      historicalInfo := historicalInfo[blockHeight := ccValidators];
    }

    // -------------------------------------------------------------- changeover and block boundaries

    /** `standalone` lists the last bonded validators of the standalone staking module. */
    method ChangeoverToConsumer(standalone: seq<Key>) returns (initialValUpdates: seq<Update>)
      requires Valid()
      modifies this`ccValidators, this`outstandingDowntime, this`preCCV
      ensures Valid()
      ensures View() == Changeover(old(View()))
      ensures initialValUpdates == old(initialValSet) + Retired(standalone, old(initialValSet))
    {
      initialValUpdates := initialValSet;
      var _ := ApplyCCValidatorChanges(initialValUpdates);
      initialValUpdates := RetireStandalone(initialValUpdates, standalone);
      preCCV := false;
    }

    method BeginBlock(blockHeight: nat)
      requires Valid() && blockHeight + 1 < TWO_TO_64
      modifies this`heightValsetUpdateIds, this`historicalInfo
      ensures Valid()
      ensures View() == ConsumerSpec.BeginBlock(old(View()), blockHeight)
    {
      var id := GetHeightValsetUpdateID(blockHeight);
      heightValsetUpdateIds := heightValsetUpdateIds[blockHeight + 1 := id];
      TrackHistoricalInfo(blockHeight);
    }

    method EndBlock(blockTime: int, accepted: seq<bool>, standalone: seq<Key>)
      returns (updates: seq<Update>, sent: seq<Packet>)
      requires Valid()
      modifies this
      ensures Valid()
      ensures View() == ConsumerSpec.EndBlock(old(View()), blockTime, accepted)
      ensures updates == EndBlockUpdates(old(View()), standalone)
      ensures sent == if old(preCCV) then [] else old(queue)[..SentCount(old(View()), blockTime, accepted)]
    {
      if preCCV {
        updates := ChangeoverToConsumer(standalone);
        return updates, [];
      }
      sent := SendPackets(blockTime, accepted);
      if pendingChanges.None? {
        return [], sent;
      }
      updates := ApplyCCValidatorChanges(pendingChanges.value);
      pendingChanges := None;
    }

    // -------------------------------------------------------------- genesis

    method MarkGenesis(g: Genesis.GenesisState, blockHeight: nat)
      requires Valid()
      modifies this`preCCV, this`prevStandaloneChain, this`initialValSet, this`initGenesisHeight, this`params
      ensures Valid()
      ensures View() == Genesis.Marked(old(View()), g, blockHeight)
    {
      if g.preCCV {
        preCCV, prevStandaloneChain, initialValSet := true, true, g.valset;
      }
      initGenesisHeight := blockHeight;
      params := g.params;
    }

    /** The code panics where this reports failure. */
    method InitGenesis(g: Genesis.GenesisState, blockHeight: nat, client: Option<string>, channelOpens: bool)
      returns (ok: bool, updates: seq<Update>)
      requires Valid() && blockHeight < TWO_TO_64
      requires forall h :: h in g.heights ==> h.height < TWO_TO_64
      modifies this
      ensures ok <==> !(g.params.enabled && g.newChain && (client.None? || (g.connectionId != "" && !channelOpens)))
      ensures ok ==> View() == Genesis.InitState(old(View()), g, blockHeight, client)
      ensures ok && (!g.params.enabled || g.newChain || old(head + |queue|) + |g.packets| <= TWO_TO_64) ==> Valid()
      ensures ok ==> pendingPackets == if g.params.enabled && !g.newChain
                                       then Appended(old(pendingPackets), old(pendingPacketsIdx), g.packets)
                                       else old(pendingPackets)
      ensures ok ==> updates == if g.params.enabled && !g.preCCV then g.valset else []
    {
      hide QueueStore, Genesis.Imported, Genesis.Marked, Wrapped, Appended, ApplyChanges;
      MarkGenesis(g, blockHeight);
      if !g.params.enabled {
        return true, [];
      }
      ok := StartOrRestart(g, blockHeight, client, channelOpens);
      if !ok || g.preCCV {
        return ok, [];
      }
      var _ := ApplyCCValidatorChanges(g.valset);
      return true, g.valset;
    }

    /** Takes the client of a new chain and opens a channel on a given connection, or imports what a chain exported. */
    method StartOrRestart(g: Genesis.GenesisState, blockHeight: nat, client: Option<string>, channelOpens: bool)
      returns (ok: bool)
      requires Valid() && blockHeight < TWO_TO_64
      requires forall h :: h in g.heights ==> h.height < TWO_TO_64
      modifies this`providerChannel, this`outstandingDowntime, this`lastTransmissionBlockHeight,
               this`pendingPackets, this`pendingPacketsIdx, this`queue, this`head,
               this`heightValsetUpdateIds, this`providerClientId
      ensures ok <==> !(g.newChain && (client.None? || (g.connectionId != "" && !channelOpens)))
      ensures ok ==> View() == Genesis.Imported(old(View()), g, blockHeight, client)
      ensures ok && (g.newChain || old(head + |queue|) + |g.packets| <= TWO_TO_64) ==> Valid()
      ensures pendingPackets == if g.newChain then old(pendingPackets)
                                else Appended(old(pendingPackets), old(pendingPacketsIdx), g.packets)
    {
      hide QueueStore, Genesis.ImportRestart, Wrapped, Appended;
      if !g.newChain {
        ImportRestart(g);
        return true;
      }
      if client.None? {
        return false;
      }
      providerClientId := client;
      heightValsetUpdateIds := heightValsetUpdateIds[blockHeight := 0];
      return g.connectionId == "" || channelOpens;
    }

    method ImportRestart(g: Genesis.GenesisState)
      requires Valid()
      requires forall h :: h in g.heights ==> h.height < TWO_TO_64
      modifies this`providerChannel, this`outstandingDowntime, this`lastTransmissionBlockHeight,
               this`pendingPackets, this`pendingPacketsIdx, this`queue, this`head,
               this`heightValsetUpdateIds, this`providerClientId
      ensures View() == Genesis.ImportRestart(old(View()), g)
      ensures old(head + |queue|) + |g.packets| <= TWO_TO_64 ==> Valid()
      ensures pendingPackets == Appended(old(pendingPackets), old(pendingPacketsIdx), g.packets)
    {
      hide QueueStore, Genesis.SetHeights, Wrapped;
      RestoreChannel(g);
      RestorePackets(g.packets);
      RestoreHeights(g.heights);
      providerClientId := Some(g.clientId);
    }

    method RestoreChannel(g: Genesis.GenesisState)
      requires Valid()
      modifies this`providerChannel, this`outstandingDowntime, this`lastTransmissionBlockHeight
      ensures Valid()
      ensures View() == Genesis.WithChannel(old(View()), g)
    {
      if g.channelId != "" {
        providerChannel := g.channelId;
        RestoreDowntimes(g.downtimes);
        lastTransmissionBlockHeight := g.lastTransmission;
      }
    }

    method RestoreDowntimes(downtimes: seq<Key>)
      modifies this`outstandingDowntime
      ensures outstandingDowntime == old(outstandingDowntime) + (set a | a in downtimes)
    {
      for i := 0 to |downtimes|
        invariant outstandingDowntime == old(outstandingDowntime) + (set a | a in downtimes[..i])
      {
        outstandingDowntime := outstandingDowntime + {downtimes[i]};
      }
      assert downtimes[..|downtimes|] == downtimes;
    }

    method RestorePackets(packets: seq<Packet>)
      requires Typed()
      modifies this`pendingPackets, this`pendingPacketsIdx, this`queue, this`head
      ensures Typed() && queue == old(queue) + packets
      ensures pendingPackets == Appended(old(pendingPackets), old(pendingPacketsIdx), packets)
      ensures old(Valid()) && old(head + |queue|) + |packets| <= TWO_TO_64 ==> Valid()
    {
      hide QueueStore, PendingDataPacketsV1Key, Wrapped;
      for i := 0 to |packets|
        invariant Typed() && queue == old(queue) + packets[..i]
        invariant Appended(pendingPackets, pendingPacketsIdx, packets[i..])
               == Appended(old(pendingPackets), old(pendingPacketsIdx), packets)
        invariant old(Valid()) && old(head + |queue|) + |packets| <= TWO_TO_64 ==> Valid() && head == old(head)
      {
        AppendPendingPacket(packets[i]);
        assert packets[..i + 1] == packets[..i] + [packets[i]];
        assert packets[i..][0] == packets[i] && packets[i..][1..] == packets[i + 1..];
      }
      assert packets[..|packets|] == packets;
    }

    method RestoreHeights(heights: seq<Genesis.HeightToVscId>)
      requires forall h :: h in heights ==> h.height < TWO_TO_64
      requires forall h :: h in heightValsetUpdateIds ==> h < TWO_TO_64
      modifies this`heightValsetUpdateIds
      ensures heightValsetUpdateIds == Genesis.SetHeights(old(heightValsetUpdateIds), heights)
      ensures forall h :: h in heightValsetUpdateIds ==> h < TWO_TO_64
    {
      for i := 0 to |heights|
        invariant forall h :: h in heightValsetUpdateIds ==> h < TWO_TO_64
        invariant Genesis.SetHeights(heightValsetUpdateIds, heights[i..])
               == Genesis.SetHeights(old(heightValsetUpdateIds), heights)
      {
        assert heights[i] in heights;
        assert heights[i..][0] == heights[i] && heights[i..][1..] == heights[i + 1..];
        heightValsetUpdateIds := heightValsetUpdateIds[heights[i].height := heights[i].vscId];
      }
    }

    /** The store iterates over validators in the order of their addresses. */
    method GetAllCCValidator(address: Key -> Bytes) returns (us: seq<Update>)
      requires Injective(address)
      ensures StrictTotal(ByAddress(address)) && us == Genesis.PowersList(ccValidators, ByAddress(address))
    {
      hide ByAddress, Injective;
      var keys := AscendingByAddress(address, ccValidators.Keys);
      us := [];
      for i := 0 to |keys|
        invariant us == Genesis.PowersList(ccValidators, ByAddress(address))[..i]
      {
        assert keys[i] in keys;
        us := us + [Update(keys[i], ccValidators[keys[i]])];
      }
    }

    method GetAllHeightToValsetUpdateIDs() returns (hs: seq<Genesis.HeightToVscId>)
      requires Valid()
      ensures hs == Genesis.HeightsList(heightValsetUpdateIds)
    {
      var heights := AscendingHeights(heightValsetUpdateIds.Keys);
      hs := [];
      for i := 0 to |heights|
        invariant hs == Genesis.HeightsList(heightValsetUpdateIds)[..i]
      {
        assert heights[i] in heights;
        hs := hs + [Genesis.HeightToVscId(heights[i], heightValsetUpdateIds[heights[i]])];
      }
    }

    /** None stands for the panic on a channel without a client. */
    method ExportGenesis(address: Key -> Bytes) returns (g: Option<Genesis.GenesisState>)
      requires Valid() && Injective(address)
      ensures StrictTotal(ByAddress(address)) && g == Genesis.Export(View(), ByAddress(address))
    {
      AddressesAreInOrder(address);
      if !params.enabled {
        return Some(Genesis.DEFAULT_GENESIS);
      }
      var valset := GetAllCCValidator(address);
      var packets := GetPendingPackets();
      var heights := GetAllHeightToValsetUpdateIDs();
      if providerChannel != "" {
        if providerClientId.None? {
          return None;
        }
        var downtimes := AscendingByAddress(address, outstandingDowntime);
        return Some(Genesis.RestartGenesis(providerClientId.value, providerChannel, valset, heights, packets,
                                           downtimes, lastTransmissionBlockHeight, params));
      }
      if providerClientId.None? {
        return Some(Genesis.DEFAULT_GENESIS);
      }
      return Some(Genesis.RestartGenesis(providerClientId.value, "", valset, heights, packets, [], 0, params));
    }
  }
}
