/** The consumer module's state as a value, and what each of its operations does to it. */
module ConsumerSpec {
  import opened Common
  import opened Ordering
  import opened Valset
  import StoreKeys

  datatype Infraction = Unspecified | DoubleSign | Downtime

  datatype Packet =
    | Slash(validator: Key, power: int, vscId: nat, infraction: Infraction)
    | VscMatured(vscId: nat)

  datatype SlashRecord = SlashRecord(sendTime: int, waitingOnReply: bool)

  /** A validator set change packet. `updates` is None for a nil list;
      a slash ack is None when its address cannot be decoded. */
  datatype VSCData = VSCData(updates: Option<seq<Update>>, vscId: nat, slashAcks: seq<Option<Key>>)

  /** An acknowledgement: result bytes, an error, or no response set. */
  datatype Ack = Result(bytes: Bytes) | Error(message: string) | NoResponse

  const V1_RESULT: byte := 1
  const SLASH_HANDLED_RESULT: byte := 2
  const SLASH_BOUNCED_RESULT: byte := 3

  /** The block after which a validator update is in effect (sdk.ValidatorUpdateDelay). */
  const VALIDATOR_UPDATE_DELAY: int := 1

  datatype Params = Params(enabled: bool, retryDelay: int, historicalEntries: int, others: Bytes)

  datatype State = State(
    params: Params,
    clientId: Option<string>,
    channel: string,
    queue: seq<Packet>,
    record: Option<SlashRecord>,
    downtime: set<Key>,
    vals: Powers,
    pending: Option<seq<Update>>,
    vscIds: map<nat, nat>,
    history: map<int, Powers>,
    preCCV: bool,
    prevStandalone: bool,
    initHeight: int,
    initialSet: seq<Update>,
    lastTransmission: int)

  // ---------------------------------------------------------------- throttled sending

  predicate Permitted(record: Option<SlashRecord>, now: int, delay: int) {
    record.None? || (!record.value.waitingOnReply && now > record.value.sendTime + delay)
  }

  /** How many packets of the queue go out: all up to the first refusal, a slash packet being the last.
      accepted[k] says whether IBC takes the k-th attempt. */
  function SendPrefix(queue: seq<Packet>, accepted: seq<bool>): (n: nat)
    ensures n <= |queue| && n <= |accepted|
    ensures forall i :: 0 <= i < n ==> accepted[i]
    ensures forall i :: 0 <= i < n - 1 ==> queue[i].VscMatured?
    ensures n == |queue| || n == |accepted| || !accepted[n] || (n > 0 && queue[n - 1].Slash?)
  {
    if queue == [] || accepted == [] || !accepted[0] then 0
    else if queue[0].Slash? then 1
    else 1 + SendPrefix(queue[1..], accepted[1..])
  }

  /** These four facts determine the number of packets sent. */
  lemma {:induction false} SendPrefixUnique(queue: seq<Packet>, accepted: seq<bool>, n: nat)
    requires n <= |queue| && n <= |accepted|
    requires forall i :: 0 <= i < n ==> accepted[i]
    requires forall i :: 0 <= i < n - 1 ==> queue[i].VscMatured?
    requires n == |queue| || n == |accepted| || !accepted[n] || (n > 0 && queue[n - 1].Slash?)
    ensures n == SendPrefix(queue, accepted)
    decreases n
  {
    if n > 0 && queue[0].VscMatured? {
      SendPrefixUnique(queue[1..], accepted[1..], n - 1);
    }
  }

  /** The number of packets sent in a block. */
  function SentCount(s: State, now: int, accepted: seq<bool>): (n: nat)
    ensures n <= |s.queue|
  {
    if s.channel == "" || !Permitted(s.record, now, s.params.retryDelay) then 0 else SendPrefix(s.queue, accepted)
  }

  /** A sent slash packet stays at the head and sets the record; the packets before it leave the queue. */
  function AfterSend(s: State, n: nat, now: int): State
    requires n <= |s.queue|
  {
    if n > 0 && s.queue[n - 1].Slash?
    then s.(queue := s.queue[n - 1..], record := Some(SlashRecord(now, true)))
    else s.(queue := s.queue[n..])
  }

  function SendPackets(s: State, now: int, accepted: seq<bool>): State {
    AfterSend(s, SentCount(s, now, accepted), now)
  }

  // ---------------------------------------------------------------- acknowledgements

  /** What becomes of the transaction delivering an acknowledgement. A failed one leaves no trace. */
  datatype AckOutcome = Processed(state: State, closed: set<string>) | Failed | Panicked

  function OnAcknowledgement(s: State, packet: Packet, source: string, ack: Ack, closable: set<string>): AckOutcome {
    match ack
    case NoResponse => Processed(s, {})
    case Result(bytes) =>
      if |bytes| != 1 then Failed
      else if packet.VscMatured? then Processed(s, {})
      else if bytes[0] == V1_RESULT || bytes[0] == SLASH_HANDLED_RESULT then
        Processed(s.(record := None, queue := if s.queue == [] then [] else s.queue[1..]), {})
      else if bytes[0] == SLASH_BOUNCED_RESULT then
        if s.record.None? then Panicked
        else Processed(s.(record := Some(s.record.value.(waitingOnReply := false))), {})
      else Failed
    case Error(message) =>
      if message == "" then Processed(s, {})
      else if source !in closable || s.channel == "" || s.channel !in closable then Failed
      else Processed(s, {source, s.channel})
  }

  // ---------------------------------------------------------------- slash requests

  function FirstConsumerHeight(s: State): int { s.initHeight + VALIDATOR_UPDATE_DELAY + 1 }

  predicate ChangeoverIsComplete(s: State, height: int) {
    !s.prevStandalone || height >= FirstConsumerHeight(s)
  }

  function GetVscId(s: State, height: nat): nat {
    if height in s.vscIds then s.vscIds[height] else 0
  }

  function QueueSlash(s: State, validator: Key, power: int, vscId: nat, infraction: Infraction): State {
    if infraction == Downtime && validator in s.downtime then s
    else s.(queue := s.queue + [Slash(validator, power, vscId, infraction)],
            downtime := if infraction == Downtime then s.downtime + {validator} else s.downtime)
  }

  datatype SlashRoute = Ignored | ToStandalone | ToProvider(state: State)

  function SlashWithInfractionReason(s: State, validator: Key, height: int, power: int, infraction: Infraction)
    : SlashRoute
  {
    if infraction == Unspecified then Ignored
    else if s.prevStandalone && height < FirstConsumerHeight(s) then ToStandalone
    else ToProvider(QueueSlash(s, validator, power, GetVscId(s, StoreKeys.ToUint64(height)), infraction))
  }

  // ---------------------------------------------------------------- validator set changes

  function Acked(acks: seq<Option<Key>>): set<Key> {
    set a | a in acks && a.Some? :: a.value
  }

  datatype RecvOutcome = Received(state: State) | Invalid | UnknownChannel

  ghost function OnRecvVSC(s: State, height: nat, channel: string, data: VSCData): RecvOutcome {
    if data.updates.None? || data.vscId == 0 then Invalid
    else if s.channel != "" && s.channel != channel then UnknownChannel
    else
      var current := if s.pending.Some? then s.pending.value else [];
      Received(s.(
        channel := if s.channel == "" then channel else s.channel,
        pending := Some(Accumulated(current + data.updates.value)),
        vscIds := s.vscIds[height + 1 := data.vscId],
        downtime := s.downtime - Acked(data.slashAcks)))
  }

  function ApplyChanges(s: State, us: seq<Update>): State {
    s.(vals := Apply(s.vals, us), downtime := s.downtime - Created(s.vals, us))
  }

  // ---------------------------------------------------------------- block boundaries

  /** Drops the unbroken run of entries that ends at height i. */
  function Prune(history: map<int, Powers>, i: int): map<int, Powers>
    decreases if i < 0 then 0 else i + 1
  {
    if i >= 0 && i in history then Prune(history - {i}, i - 1) else history
  }

  function TrackHistory(s: State, height: int): map<int, Powers> {
    var kept := Prune(s.history, height - s.params.historicalEntries);
    if s.params.historicalEntries == 0 then kept else kept[height := s.vals]
  }

  function BeginBlock(s: State, height: nat): State {
    s.(vscIds := s.vscIds[height + 1 := GetVscId(s, height)], history := TrackHistory(s, height))
  }

  function Changeover(s: State): State {
    ApplyChanges(s, s.initialSet).(preCCV := false)
  }

  function FlushPending(s: State): State {
    if s.pending.None? then s else ApplyChanges(s, s.pending.value).(pending := None)
  }

  /** The end of a block; `standalone` is the last bonded set of the standalone staking module. */
  function EndBlock(s: State, now: int, accepted: seq<bool>): State {
    if s.preCCV then Changeover(s) else FlushPending(SendPackets(s, now, accepted))
  }

  /** The updates a block returns to the consensus engine. */
  function EndBlockUpdates(s: State, standalone: seq<Key>): seq<Update> {
    if s.preCCV then s.initialSet + Retired(standalone, s.initialSet)
    else if s.pending.None? then []
    else Forwarded(s.vals, s.pending.value)
  }
}
