/** Whole runs of a consumer chain: the module's state, the ordered channel to the provider,
    the consensus engine, and histories of what happened. */
module Chain {
  import opened Common
  import opened Valset
  import opened ConsumerSpec
  import Genesis

  /** Heights are signed 64-bit numbers. */
  const INT64_LIMIT: int := 0x8000_0000_0000_0000

  /** A sent packet without an acknowledgement yet, and its position among all enqueued packets. */
  datatype InFlight = InFlight(packet: Packet, pos: nat)

  /** A transmission: position of the packet, block time, retry delay in force, bounces seen before it. */
  datatype Transmission = Transmission(pos: nat, time: int, delay: int, bounces: nat)

  datatype Receipt = Receipt(height: nat, vscId: nat, updates: seq<Update>)

  datatype Block = Block(height: nat, time: int, inside: bool)

  datatype Net = Net(open: bool, inFlight: map<nat, InFlight>, nextSeq: nat)

  /** The validator set in effect at each height, which of these sets come from the provider,
      whether every list was acceptable, and the cross-chain set at the end of each block. */
  datatype Engine = Engine(
    at: map<int, Powers>,
    provider: map<int, bool>,
    acceptable: bool,
    valsAt: map<int, Powers>,
    changeovers: nat)

  datatype Log = Log(
    enqueued: seq<Packet>,
    retired: seq<Packet>,
    sends: seq<Transmission>,
    bounced: seq<nat>,
    clears: multiset<Key>,
    receipts: seq<Receipt>,
    lowest: int,
    panicked: bool)

  /** What a run starts from: the genesis set, the last set of the standalone chain before it, and the set in effect
      at the upgrade, which an update in the block before the upgrade makes another one. */
  datatype Origin = Origin(valset: seq<Update>, standalone: Powers, earlier: Powers)

  datatype Sys = Sys(origin: Origin, st: State, block: Block, net: Net, engine: Engine, log: Log)

  datatype Step =
    | StartBlock(time: int)
    | SlashRequest(validator: Key, infractionHeight: int, power: int, infraction: Infraction)
    | Matured(vscId: nat)
    | RecvVSC(channel: string, data: VSCData)
    | Acknowledge(seqNo: nat, ack: Ack, closable: set<string>)
    | Timeout(seqNo: nat)
    | SetParams(params: Params)
    | TransmitRewards
    | FinishBlock(accepted: seq<bool>, standalone: seq<Key>)

  // ---------------------------------------------------------------- start of a run

  ghost predicate GoodValset(us: seq<Update>) {
    DistinctKeys(us) && forall u :: u in us ==> u.power >= 1
  }

  ghost predicate GoodParams(p: Params) {
    p.enabled && p.historicalEntries >= 1
  }

  /** A new chain: genesis at height h, whose set is in effect in the two blocks that follow. */
  ghost function NewChain(g: Genesis.GenesisState, h: nat, client: string, time: int): Sys
    requires g.newChain && !g.preCCV && GoodParams(g.params)
  {
    var st := Genesis.InitState(Genesis.EMPTY, g, h, Some(client));
    var set0 := EngineApply(map[], Genesis.InitUpdates(g));
    Sys(Origin(g.valset, map[], map[]), st, Block(h, time, false), Net(true, map[], 0),
        Engine(map[h + 1 := set0, h + 2 := set0], map[h + 1 := true, h + 2 := true],
               EngineAccepts(map[], Genesis.InitUpdates(g)), map[h as int := st.vals], 0),
        Log([], [], [], [], multiset{}, [], h + 1, false))
  }

  /** A standalone chain upgraded at the beginning of block h, its own sets in effect in blocks h and h + 1. */
  ghost function Upgraded(
    g: Genesis.GenesisState, h: nat, client: string, time: int, standalone: Powers, earlier: Powers): Sys
    requires g.newChain && g.preCCV && GoodParams(g.params) && h >= 1
  {
    var st := Genesis.InitState(Genesis.EMPTY, g, h, Some(client));
    Sys(Origin(g.valset, standalone, earlier), st, Block(h - 1, time, false), Net(true, map[], 0),
        Engine(map[h as int := earlier, h + 1 := standalone], map[h as int := false, h + 1 := false],
               EngineAccepts(standalone, Genesis.InitUpdates(g)), map[h - 1 := st.vals], 0),
        Log([], [], [], [], multiset{}, [], h, false))
  }

  ghost predicate Initial(s: Sys) {
    exists g: Genesis.GenesisState, h: nat, client: string, time: int, standalone: Powers, earlier: Powers ::
      InitialFrom(s, g, h, client, time, standalone, earlier)
  }

  ghost predicate InitialFrom(
    s: Sys, g: Genesis.GenesisState, h: nat, client: string, time: int, standalone: Powers, earlier: Powers)
  {
    && g.newChain && GoodParams(g.params) && GoodValset(g.valset) && h + 1 < INT64_LIMIT
    && if g.preCCV then h >= 1 && s == Upgraded(g, h, client, time, standalone, earlier)
       else s == NewChain(g, h, client, time)
  }

  // ---------------------------------------------------------------- what the environment may do

  /** The standalone keeper names exactly the validators of the set last handed to the engine. */
  ghost predicate NamesSet(standalone: seq<Key>, engine: Powers) {
    && (forall i, j :: 0 <= i < j < |standalone| ==> standalone[i] != standalone[j])
    && (forall k :: k in engine <==> k in standalone)
  }

  /** The height of the block that other modules are working on: between two ends of a block, the next one. */
  function Now(s: Sys): int {
    if s.block.inside then s.block.height else s.block.height + 1
  }

  ghost predicate Legal(s: Sys, step: Step) {
    match step
    case StartBlock(time) => !s.block.inside && time >= s.block.time && s.block.height + 2 < INT64_LIMIT
    case SlashRequest(_, infractionHeight, _, _) =>
      // slashing and evidence begin their block before the consumer module does
      -INT64_LIMIT <= infractionHeight <= Now(s) && infractionHeight < INT64_LIMIT
    case Matured(_) => s.block.inside
    case RecvVSC(channel, data) =>
      && s.block.inside && s.net.open && channel != ""
      && (data.updates.Some? ==> forall u :: u in data.updates.value ==> u.power >= 0)
    case Acknowledge(seqNo, ack, _) =>
      // one acknowledgement a packet, on an open channel, of a kind the provider gives
      && s.block.inside && s.net.open && seqNo in s.net.inFlight
      && !ack.NoResponse? && ack != Error("")
    case Timeout(seqNo) => s.block.inside && s.net.open && seqNo in s.net.inFlight
    case SetParams(params) => s.block.inside && GoodParams(params)
    case TransmitRewards => s.block.inside && !s.st.preCCV
    case FinishBlock(_, standalone) =>
      && s.block.inside
      && (s.st.preCCV ==> s.block.height + 1 in s.engine.at && NamesSet(standalone, s.engine.at[s.block.height + 1]))
  }

  // ---------------------------------------------------------------- steps

  /** What joined the back of the queue, and what left its front. */
  function Joined(before: State, after: State): seq<Packet> {
    if |before.queue| <= |after.queue| then after.queue[|before.queue|..] else []
  }

  function LeftFront(before: State, after: State): seq<Packet> {
    if |after.queue| <= |before.queue| then before.queue[..|before.queue| - |after.queue|] else []
  }

  function Starting(s: Sys, time: int): Sys {
    var h := s.block.height + 1;
    s.(st := BeginBlock(s.st, h),
       block := Block(h, time, true),
       log := s.log.(lowest := if s.log.lowest <= h - s.st.params.historicalEntries
                               then h - s.st.params.historicalEntries + 1 else s.log.lowest))
  }

  function Enqueuing(s: Sys, st: State): Sys {
    s.(st := st, log := s.log.(enqueued := s.log.enqueued + Joined(s.st, st)))
  }

  ghost function Receiving(s: Sys, channel: string, data: VSCData): Sys {
    match OnRecvVSC(s.st, s.block.height, channel, data)
    case Received(st) =>
      s.(st := st,
         log := s.log.(receipts := s.log.receipts + [Receipt(s.block.height, data.vscId, data.updates.value)],
                       clears := s.log.clears + multiset(s.st.downtime - st.downtime)))
    case _ => s
  }

  function Acknowledging(s: Sys, seqNo: nat, ack: Ack, closable: set<string>): Sys
    requires seqNo in s.net.inFlight
  {
    var flying := s.net.inFlight[seqNo];
    match OnAcknowledgement(s.st, flying.packet, s.st.channel, ack, closable)
    case Processed(st, closed) =>
      var bounce := flying.packet.Slash? && ack == Result([SLASH_BOUNCED_RESULT]);
      s.(st := st,
         net := s.net.(open := s.net.open && s.st.channel !in closed, inFlight := s.net.inFlight - {seqNo}),
         log := s.log.(retired := s.log.retired + LeftFront(s.st, st),
                       bounced := if bounce then s.log.bounced + [flying.pos] else s.log.bounced))
    case Failed => s
    case Panicked => s.(log := s.log.(panicked := true))
  }

  function TimingOut(s: Sys, seqNo: nat): Sys {
    s.(net := s.net.(open := false, inFlight := s.net.inFlight - {seqNo}))
  }

  /** The channel takes packets only while it is open. */
  function Takes(s: Sys, accepted: seq<bool>): seq<bool> { if s.net.open then accepted else [] }

  function Departures(s: Sys, accepted: seq<bool>): (n: nat)
    ensures n <= |s.st.queue|
  {
    if s.st.preCCV then 0 else SentCount(s.st, s.block.time, Takes(s, accepted))
  }

  function Launch(net: Net, queue: seq<Packet>, pos: nat): (r: Net)
    ensures r.open == net.open && r.nextSeq == net.nextSeq + |queue|
    decreases |queue|
  {
    if queue == [] then net else
    Launch(net.(inFlight := net.inFlight[net.nextSeq := InFlight(queue[0], pos)], nextSeq := net.nextSeq + 1),
           queue[1..], pos + 1)
  }

  function Transmissions(s: Sys, n: nat): (ts: seq<Transmission>)
    ensures |ts| == n
  {
    seq(n, i requires 0 <= i < n =>
          Transmission(|s.log.retired| + i, s.block.time, s.st.params.retryDelay, |s.log.bounced|))
  }

  ghost function EngineAfter(s: Sys, st: State, updates: seq<Update>): Engine
    requires s.block.height + 1 in s.engine.at && s.block.height + 1 in s.engine.provider
  {
    var h, now := s.block.height, s.engine.at[s.block.height + 1];
    Engine(s.engine.at[h + 2 := EngineApply(now, updates)],
           s.engine.provider[h + 2 := s.st.preCCV || s.engine.provider[h + 1]],
           s.engine.acceptable && EngineAccepts(now, updates),
           s.engine.valsAt[h as int := st.vals],
           s.engine.changeovers + if s.st.preCCV then 1 else 0)
  }

  ghost function Finishing(s: Sys, accepted: seq<bool>, standalone: seq<Key>): Sys {
    var st := EndBlock(s.st, s.block.time, Takes(s, accepted));
    var n := Departures(s, accepted);
    s.(st := st,
       block := s.block.(inside := false),
       net := Launch(s.net, s.st.queue[..n], |s.log.retired|),
       engine := if s.block.height + 1 in s.engine.at && s.block.height + 1 in s.engine.provider
                 then EngineAfter(s, st, EndBlockUpdates(s.st, standalone)) else s.engine,
       log := s.log.(retired := s.log.retired + LeftFront(s.st, st),
                     sends := s.log.sends + Transmissions(s, n),
                     clears := s.log.clears + multiset(s.st.downtime - st.downtime)))
  }

  ghost function Next(s: Sys, step: Step): Sys
    requires Legal(s, step)
  {
    match step
    case StartBlock(time) => Starting(s, time)
    case SlashRequest(validator, height, power, infraction) =>
      var route := SlashWithInfractionReason(s.st, validator, height, power, infraction);
      if route.ToProvider? then Enqueuing(s, route.state) else s
    case Matured(vscId) => Enqueuing(s, s.st.(queue := s.st.queue + [VscMatured(vscId)]))
    case RecvVSC(channel, data) => Receiving(s, channel, data)
    case Acknowledge(seqNo, ack, closable) => Acknowledging(s, seqNo, ack, closable)
    case Timeout(seqNo) => TimingOut(s, seqNo)
    case SetParams(params) => s.(st := s.st.(params := params))
    case TransmitRewards => s.(st := s.st.(lastTransmission := s.block.height))
    case FinishBlock(accepted, standalone) => Finishing(s, accepted, standalone)
  }

  // ---------------------------------------------------------------- runs

  ghost predicate LegalRun(s: Sys, steps: seq<Step>)
    decreases |steps|
  {
    steps == [] || (Legal(s, steps[0]) && LegalRun(Next(s, steps[0]), steps[1..]))
  }

  ghost function Exec(s: Sys, steps: seq<Step>): Sys
    requires LegalRun(s, steps)
    decreases |steps|
  {
    if steps == [] then s else Exec(Next(s, steps[0]), steps[1..])
  }

  ghost predicate LeadsTo(start: Sys, steps: seq<Step>, s: Sys) {
    Initial(start) && LegalRun(start, steps) && s == Exec(start, steps)
  }

  ghost predicate Reachable(s: Sys) {
    exists start, steps :: LeadsTo(start, steps, s)
  }
}
