/** Genesis import, export and validation, and what a restart keeps. */
module Genesis {
  import opened Common
  import opened Ordering
  import opened Valset
  import opened ConsumerSpec

  datatype HeightToVscId = HeightToVscId(height: nat, vscId: nat)

  /** A client or consensus state, of which only its own validity check matters. */
  datatype ProviderState = ProviderState(valid: bool)

  datatype GenesisState = GenesisState(
    params: Params,
    newChain: bool,
    preCCV: bool,
    connectionId: string,
    clientState: Option<ProviderState>,
    consensusState: Option<ProviderState>,
    valset: seq<Update>,
    heights: seq<HeightToVscId>,
    packets: seq<Packet>,
    downtimes: seq<Key>,
    lastTransmission: int,
    clientId: string,
    channelId: string)

  const ONE_HOUR: int := 3_600_000_000_000

  const DEFAULT_PARAMS := Params(false, ONE_HOUR, 10_000, [])

  const DEFAULT_GENESIS :=
    GenesisState(DEFAULT_PARAMS, false, false, "", None, None, [], [], [], [], 0, "", "")

  /** The store of a module that has not been initialized. */
  const EMPTY := State(DEFAULT_PARAMS, None, "", [], None, {}, map[], None, map[], map[], false, false, 0, [], 0)

  function RestartGenesis(
    clientId: string, channelId: string, valset: seq<Update>, heights: seq<HeightToVscId>, packets: seq<Packet>,
    downtimes: seq<Key>, lastTransmission: int, params: Params): GenesisState
  {
    GenesisState(params, false, false, "", None, None, valset, heights, packets, downtimes, lastTransmission,
                 clientId, channelId)
  }

  /** The genesis of a completely new chain. */
  function InitialGenesis(
    clientState: Option<ProviderState>, consensusState: Option<ProviderState>, valset: seq<Update>, params: Params)
    : GenesisState
  {
    GenesisState(params, true, false, "", clientState, consensusState, valset, [], [], [], 0, "", "")
  }

  // ---------------------------------------------------------------- import

  function SetHeights(m: map<nat, nat>, hs: seq<HeightToVscId>): map<nat, nat>
    decreases |hs|
  {
    if hs == [] then m else SetHeights(m[hs[0].height := hs[0].vscId], hs[1..])
  }

  function WithChannel(s: State, g: GenesisState): State {
    if g.channelId == "" then s
    else s.(channel := g.channelId,
            downtime := s.downtime + (set a | a in g.downtimes),
            lastTransmission := g.lastTransmission)
  }

  function ImportRestart(s: State, g: GenesisState): State {
    WithChannel(s, g).(queue := s.queue + g.packets,
                       vscIds := SetHeights(s.vscIds, g.heights),
                       clientId := Some(g.clientId))
  }

  function Marked(s: State, g: GenesisState, height: nat): State {
    if g.preCCV
    then s.(initHeight := height, params := g.params, preCCV := true, prevStandalone := true, initialSet := g.valset)
    else s.(initHeight := height, params := g.params)
  }

  function Imported(s: State, g: GenesisState, height: nat, client: Option<string>): State {
    if g.newChain then s.(clientId := client, vscIds := s.vscIds[height := 0]) else ImportRestart(s, g)
  }

  /** The state InitGenesis leaves. `client` is the client that is created or that the connection names;
      a new chain without one panics. */
  function InitState(s: State, g: GenesisState, height: nat, client: Option<string>): State {
    var ready := Marked(s, g, height);
    if !g.params.enabled then ready
    else if g.preCCV then Imported(ready, g, height, client)
    else ApplyChanges(Imported(ready, g, height, client), g.valset)
  }

  function InitUpdates(g: GenesisState): seq<Update> {
    if g.params.enabled && !g.preCCV then g.valset else []
  }

  /** `opens` says whether a channel can be opened on the given connection. */
  predicate InitPanics(g: GenesisState, client: Option<string>, opens: bool) {
    g.params.enabled && g.newChain && (client.None? || (g.connectionId != "" && !opens))
  }

  // ---------------------------------------------------------------- export

  /** The validators in the order of the store, which is that of their addresses. */
  ghost function PowersList(vals: Powers, lt: (Key, Key) -> bool): seq<Update>
    requires StrictTotal(lt)
  {
    var ks := InOrder(lt, vals.Keys);
    seq(|ks|, i requires 0 <= i < |ks| => assert ks[i] in ks; Update(ks[i], vals[ks[i]]))
  }

  ghost function HeightsList(m: map<nat, nat>): seq<HeightToVscId> {
    var hs := InOrder(NatLess, m.Keys);
    seq(|hs|, i requires 0 <= i < |hs| => assert hs[i] in hs; HeightToVscId(hs[i], m[hs[i]]))
  }

  /** ExportGenesis; None stands for the panic on a channel without a client. */
  ghost function Export(s: State, lt: (Key, Key) -> bool): Option<GenesisState>
    requires StrictTotal(lt)
  {
    if !s.params.enabled then Some(DEFAULT_GENESIS)
    else if s.channel != "" then
      if s.clientId.None? then None
      else Some(RestartGenesis(s.clientId.value, s.channel, PowersList(s.vals, lt), HeightsList(s.vscIds), s.queue,
                               InOrder(lt, s.downtime), s.lastTransmission, s.params))
    else if s.clientId.None? then Some(DEFAULT_GENESIS)
    else Some(RestartGenesis(s.clientId.value, "", PowersList(s.vals, lt), HeightsList(s.vscIds), s.queue, [], 0,
                             s.params))
  }

  // ---------------------------------------------------------------- validation

  predicate Validate(g: GenesisState, paramsValid: bool, connectionValid: bool) {
    !g.params.enabled ||
    (&& g.valset != []
     && paramsValid
     && if g.newChain then
          && (if g.connectionId == ""
              then g.clientState.Some? && g.clientState.value.valid
                   && g.consensusState.Some? && g.consensusState.value.valid
              else g.clientState.None? && g.consensusState.None? && connectionValid)
          && g.clientId == "" && g.channelId == "" && g.heights == [] && g.downtimes == [] && g.packets == []
          && g.lastTransmission == 0
        else
          && g.clientId != ""
          && (g.channelId == "" ==>
                && g.downtimes == [] && g.lastTransmission == 0
                && forall p :: p in g.packets ==> !p.VscMatured?)
          && g.clientState.None? && g.consensusState.None?)
  }

  predicate IsValid(state: Option<ProviderState>) { state.Some? && state.value.valid }

  /** What an enabled document that passes looks like, every field of it. A new chain's is an initial genesis with
      valid provider states, or one that names a valid connection in their place; a restarting chain's is a restart
      genesis that names a client and, without a channel, holds nothing that only a channel brings about. Whether it
      is a changeover makes no difference, and a restarting chain's connection is not looked at. */
  lemma ValidatesExactly(g: GenesisState, paramsValid: bool, connectionValid: bool)
    ensures var initial := InitialGenesis(g.clientState, g.consensusState, g.valset, g.params).(preCCV := g.preCCV);
            var restart := RestartGenesis(g.clientId, g.channelId, g.valset, g.heights, g.packets, g.downtimes,
                                          g.lastTransmission, g.params);
            Validate(g, paramsValid, connectionValid)
            <==> || !g.params.enabled
                 || (&& |g.valset| > 0 && paramsValid
                     && (|| (g == initial && IsValid(g.clientState) && IsValid(g.consensusState))
                         || (g == initial.(connectionId := g.connectionId) && g.connectionId != "" && connectionValid
                             && g.clientState == None && g.consensusState == None)
                         || (g == restart.(preCCV := g.preCCV, connectionId := g.connectionId) && g.clientId != ""
                             && (g.channelId != "" || (g.downtimes == [] && g.lastTransmission == 0
                                                       && forall p :: p in g.packets ==> p.Slash?)))))
  {
  }

  /** What a new chain starts with: nothing but parameters, the client, the update id 0 for its first height and the
      provider's set; on a changeover that set waits, and the standalone one stays in charge. */
  lemma NewChainStarts(g: GenesisState, height: nat, client: string, k: Key, p: int)
    requires g.params.enabled && g.newChain
    ensures var s := InitState(EMPTY, g, height, Some(client));
            && s == State(g.params, Some(client), "", [], None, {}, s.vals, None, map[height := 0], map[],
                          g.preCCV, g.preCCV, height, if g.preCCV then g.valset else [], 0)
            && (k in s.vals && s.vals[k] == p <==> !g.preCCV && p >= 1 && WrittenLast(g.valset, Update(k, p)))
    ensures InitUpdates(g) == if g.preCCV then [] else g.valset
  {
    AppliedExactly(map[], g.valset, k, p);
    ApplyIsPatch(map[], g.valset);
  }

  // ---------------------------------------------------------------- restart

  lemma PowersListFacts(vals: Powers, lt: (Key, Key) -> bool)
    requires StrictTotal(lt)
    ensures DistinctKeys(PowersList(vals, lt))
    ensures forall k, p :: Update(k, p) in PowersList(vals, lt) <==> k in vals && vals[k] == p
    ensures PowersList(vals, lt) == [] <==> vals == map[]
  {
    var ks, us := InOrder(lt, vals.Keys), PowersList(vals, lt);
    forall k, p ensures Update(k, p) in us <==> k in vals && vals[k] == p {
      if k in vals {
        assert k in ks;
        var i :| 0 <= i < |ks| && ks[i] == k;
        assert us[i] == Update(k, vals[k]);
      }
    }
    forall i, j | 0 <= i < j < |us| ensures us[i].key != us[j].key {
      assert lt(ks[i], ks[j]);
    }
    assert vals != map[] ==> exists k :: k in vals.Keys;
    assert us != [] ==> ks[0] in vals.Keys;
  }

  lemma HeightsListFacts(m: map<nat, nat>)
    ensures forall h, id :: HeightToVscId(h, id) in HeightsList(m) <==> h in m && m[h] == id
  {
    var hs, list := InOrder(NatLess, m.Keys), HeightsList(m);
    forall h, id ensures HeightToVscId(h, id) in list <==> h in m && m[h] == id {
      if h in m {
        assert h in hs;
        var i :| 0 <= i < |hs| && hs[i] == h;
        assert list[i] == HeightToVscId(h, m[h]);
      }
    }
  }

  /** What an export holds, every field of it: the validators, the heights and the flags exactly, each list in strict
      order; the flags and the last transmission only where there is a channel; of a chain that is not enabled, or has
      neither a channel nor a client, nothing but the defaults. */
  lemma ExportedExactly(s: State, lt: (Key, Key) -> bool)
    requires StrictTotal(lt)
    ensures Export(s, lt).None? <==> s.params.enabled && s.channel != "" && s.clientId.None?
    ensures !s.params.enabled || (s.clientId.None? && s.channel == "") ==>
              Export(s, lt)
              == Some(GenesisState(DEFAULT_PARAMS, false, false, "", None, None, [], [], [], [], 0, "", ""))
    ensures s.params.enabled && s.clientId.Some? && Export(s, lt).Some? ==>
              var g := Export(s, lt).value;
              && g == GenesisState(s.params, false, false, "", None, None, g.valset, g.heights, s.queue, g.downtimes,
                                   if s.channel == "" then 0 else s.lastTransmission, s.clientId.value, s.channel)
              && (forall k, p :: Update(k, p) in g.valset <==> k in s.vals && s.vals[k] == p)
              && (forall i, j :: 0 <= i < j < |g.valset| ==> lt(g.valset[i].key, g.valset[j].key))
              && (forall h, id :: HeightToVscId(h, id) in g.heights <==> h in s.vscIds && s.vscIds[h] == id)
              && (forall i, j :: 0 <= i < j < |g.heights| ==> g.heights[i].height < g.heights[j].height)
              && (forall k :: k in g.downtimes <==> s.channel != "" && k in s.downtime)
              && (forall i, j :: 0 <= i < j < |g.downtimes| ==> lt(g.downtimes[i], g.downtimes[j]))
  {
    PowersListFacts(s.vals, lt);
    HeightsListFacts(s.vscIds);
    InOrderSet(s.downtime, lt);
  }

  lemma PowersListIsMap(vals: Powers, lt: (Key, Key) -> bool)
    requires StrictTotal(lt)
    ensures LastWrite(PowersList(vals, lt)) == vals
  {
    var us := PowersList(vals, lt);
    PowersListFacts(vals, lt);
    LastWriteDistinct(us);
    forall k ensures k in LastWrite(us) <==> k in vals {
      if k in LastWrite(us) { assert Update(k, LastWrite(us)[k]) in us; }
      if k in vals { assert Update(k, vals[k]) in us; }
    }
    forall k | k in vals ensures LastWrite(us)[k] == vals[k] {
      assert Update(k, vals[k]) in us;
    }
  }

  /** Importing an exported set into an empty store gives the set back and creates every validator anew. */
  lemma ImportPowers(vals: Powers, lt: (Key, Key) -> bool)
    requires StrictTotal(lt)
    requires forall k :: k in vals ==> vals[k] >= 1
    ensures Apply(map[], PowersList(vals, lt)) == vals
    ensures Created(map[], PowersList(vals, lt)) == vals.Keys
  {
    var us := PowersList(vals, lt);
    PowersListIsMap(vals, lt);
    ApplyIsPatch(map[], us);
    assert Patch(map[], vals) == vals;
    PowersListFacts(vals, lt);
    CreatedAbsent(map[], us);
    forall k | k in vals ensures k in Created(map[], us) {
      assert Update(k, vals[k]) in us;
    }
    forall k | k in Created(map[], us) ensures k in vals {
      var u :| u in us && u.key == k;
      assert u == Update(k, u.power);
    }
  }

  ghost predicate Names(hs: seq<HeightToVscId>, h: nat) {
    exists e :: e in hs && e.height == h
  }

  lemma {:induction false} ImportHeightList(m: map<nat, nat>, hs: seq<HeightToVscId>, src: map<nat, nat>)
    requires forall h :: h in hs ==> h.height in src && h.vscId == src[h.height]
    ensures forall h :: h in SetHeights(m, hs) <==> h in m || Names(hs, h)
    ensures forall h :: h in SetHeights(m, hs) ==>
              SetHeights(m, hs)[h] == if Names(hs, h) then src[h] else m[h]
    decreases |hs|
  {
    if hs != [] {
      assert hs == [hs[0]] + hs[1..];
      ImportHeightList(m[hs[0].height := hs[0].vscId], hs[1..], src);
      forall h ensures Names(hs, h) <==> h == hs[0].height || Names(hs[1..], h) {
        if h == hs[0].height { assert hs[0] in hs; }
        if Names(hs[1..], h) {
          var e :| e in hs[1..] && e.height == h;
          assert e in hs;
        }
      }
    }
  }

  lemma ImportHeights(m: map<nat, nat>)
    ensures SetHeights(map[], HeightsList(m)) == m
  {
    var ks, hs := InOrder(NatLess, m.Keys), HeightsList(m);
    assert forall h :: h in hs ==> h.height in m && h.vscId == m[h.height];
    ImportHeightList(map[], hs, m);
    forall h ensures h in m <==> Names(hs, h) {
      if h in m {
        assert h in ks;
        var i :| 0 <= i < |ks| && ks[i] == h;
        assert hs[i] in hs && hs[i].height == h;
      }
    }
  }

  lemma InOrderSet(s: set<Key>, lt: (Key, Key) -> bool)
    requires StrictTotal(lt)
    ensures (set a | a in InOrder(lt, s)) == s
  {
  }

  /** What a restart from an export keeps: everything exported, except that the flags of the validators
      in the exported set are cleared as those validators are created anew.
      The slash record, the pending changes and the changeover marks are not exported and are gone. */
  lemma RestartKeeps(s: State, lt: (Key, Key) -> bool, height: nat, client: Option<string>)
    requires StrictTotal(lt) && s.params.enabled && s.clientId.Some?
    requires forall k :: k in s.vals ==> s.vals[k] >= 1
    ensures Export(s, lt).Some? && !InitPanics(Export(s, lt).value, client, false)
    ensures InitState(EMPTY, Export(s, lt).value, height, client)
         == EMPTY.(params := s.params, clientId := s.clientId, channel := s.channel, queue := s.queue,
                   vals := s.vals, vscIds := s.vscIds, initHeight := height,
                   downtime := if s.channel == "" then {} else s.downtime - s.vals.Keys,
                   lastTransmission := if s.channel == "" then 0 else s.lastTransmission)
    ensures InitUpdates(Export(s, lt).value) == PowersList(s.vals, lt)
  {
    ImportPowers(s.vals, lt);
    ImportHeights(s.vscIds);
    InOrderSet(s.downtime, lt);
    var g := Export(s, lt).value;
    var r := Imported(Marked(EMPTY, g, height), g, height, client);
    assert r == EMPTY.(params := s.params, clientId := s.clientId, channel := s.channel, queue := s.queue,
                       vscIds := s.vscIds, initHeight := height,
                       downtime := if s.channel == "" then {} else s.downtime,
                       lastTransmission := if s.channel == "" then 0 else s.lastTransmission);
  }

  /** A second export repeats the first, but for the downtime flags of validators in the set. */
  lemma RestartRoundTrip(s: State, lt: (Key, Key) -> bool, height: nat, client: Option<string>)
    requires StrictTotal(lt) && s.params.enabled && s.clientId.Some?
    requires forall k :: k in s.vals ==> s.vals[k] >= 1
    ensures Export(s, lt).Some? && !InitPanics(Export(s, lt).value, client, false)
    ensures var again := Export(InitState(EMPTY, Export(s, lt).value, height, client), lt);
            && again == Some(Export(s, lt).value.(downtimes :=
                  if s.channel == "" then [] else InOrder(lt, s.downtime - s.vals.Keys)))
            && (again == Export(s, lt) <==> s.channel == "" || s.downtime !! s.vals.Keys)
  {
    RestartKeeps(s, lt, height, client);
    if s.channel != "" {
      var kept, all := InOrder(lt, s.downtime - s.vals.Keys), InOrder(lt, s.downtime);
      if kept == all {
        forall k | k in s.downtime ensures k !in s.vals.Keys {
          assert k in all;
        }
      }
      assert s.downtime !! s.vals.Keys <==> s.downtime - s.vals.Keys == s.downtime;
    }
  }

  /** An export of an enabled chain exists exactly if a channel comes with a client. It passes validation exactly when
      there is no client, the export then being the default one, or its set is not empty, its parameters are valid,
      its client is named, and no matured packet waits without a channel. */
  lemma ExportValidates(s: State, lt: (Key, Key) -> bool, paramsValid: bool, connectionValid: bool)
    requires StrictTotal(lt) && s.params.enabled
    ensures Export(s, lt).Some? <==> s.channel == "" || s.clientId.Some?
    ensures Export(s, lt).Some? ==>
              (Validate(Export(s, lt).value, paramsValid, connectionValid)
               <==> || s.clientId.None?
                    || (&& s.vals != map[] && paramsValid && s.clientId.value != ""
                        && (s.channel == "" ==> forall p :: p in s.queue ==> !p.VscMatured?)))
  {
    PowersListFacts(s.vals, lt);
  }

  // ---------------------------------------------------------------- what a restart does to the throttle

  /** The state after importing one's own export. */
  ghost function Restarted(s: State, lt: (Key, Key) -> bool, height: nat): State
    requires StrictTotal(lt) && Export(s, lt).Some?
  {
    InitState(EMPTY, Export(s, lt).value, height, None)
  }

  /** At a given time a restart changes what is sent exactly if packets wait on a channel and the record forbids
      sending: then nothing would have gone out, and now everything goes out as if there had never been a record. */
  lemma RestartSends(s: State, lt: (Key, Key) -> bool, height: nat, now: int)
    requires StrictTotal(lt) && s.params.enabled && s.clientId.Some? && forall k :: k in s.vals ==> s.vals[k] >= 1
    ensures Export(s, lt).Some?
    ensures forall accepted ::
              SentCount(Restarted(s, lt, height), now, accepted)
              == if s.channel == "" then 0 else SendPrefix(s.queue, accepted)
    ensures (forall accepted :: SentCount(Restarted(s, lt, height), now, accepted) == SentCount(s, now, accepted))
       <==> s.channel == "" || s.queue == [] || Permitted(s.record, now, s.params.retryDelay)
  {
    RestartKeeps(s, lt, height, None);
    assert SendPrefix(s.queue, [true]) > 0 <==> s.queue != [];
    assert SentCount(s, now, [true]) == 0 || Permitted(s.record, now, s.params.retryDelay);
  }

  /** The throttle survives a restart exactly if there is no record, or nothing to send, or nowhere to send it. */
  lemma RestartResends(s: State, lt: (Key, Key) -> bool, height: nat)
    requires StrictTotal(lt) && s.params.enabled && s.clientId.Some? && forall k :: k in s.vals ==> s.vals[k] >= 1
    ensures Export(s, lt).Some?
    ensures (forall now, accepted :: SentCount(Restarted(s, lt, height), now, accepted) == SentCount(s, now, accepted))
       <==> s.record.None? || s.channel == "" || s.queue == []
  {
    forall now
      ensures (forall accepted :: SentCount(Restarted(s, lt, height), now, accepted) == SentCount(s, now, accepted))
         <==> s.channel == "" || s.queue == [] || Permitted(s.record, now, s.params.retryDelay)
    {
      RestartSends(s, lt, height, now);
    }
    RestartSends(s, lt, height, 0);
    if s.record.Some? {
      assert !Permitted(s.record, s.record.value.sendTime + s.params.retryDelay, s.params.retryDelay);
    }
  }

  /** After a restart an acknowledgement makes the bounce handler panic exactly if it is the bounce of a slash
      packet. */
  lemma RestartPanics(
    s: State, lt: (Key, Key) -> bool, height: nat, packet: Packet, source: string, ack: Ack, closable: set<string>)
    requires StrictTotal(lt) && s.params.enabled && s.clientId.Some? && forall k :: k in s.vals ==> s.vals[k] >= 1
    ensures Export(s, lt).Some?
    ensures OnAcknowledgement(Restarted(s, lt, height), packet, source, ack, closable).Panicked?
       <==> packet.Slash? && ack == Result([SLASH_BOUNCED_RESULT])
  {
    RestartKeeps(s, lt, height, None);
    if ack.Result? && |ack.bytes| == 1 {
      assert ack.bytes == [ack.bytes[0]];
    }
  }
}
