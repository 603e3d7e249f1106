/** Denomination traces: parsing a full denomination into path and base, printing it back, and undoing a hop.
    What counts as a channel identifier, and the hash, are parameters. */
module Denoms {

  const SLASH: char := '/'

  // ---------------------------------------------------------------- splitting and joining at slashes

  /** strings.Split at slashes. */
  function Split(s: string): (items: seq<string>)
    ensures items != []
  {
    if s == "" then [""] else
    var rest := Split(s[1..]);
    if s[0] == SLASH then [""] + rest else [[s[0]] + rest[0]] + rest[1..]
  }

  /** strings.Join with slashes. */
  function Join(items: seq<string>): string {
    if items == [] then "" else if |items| == 1 then items[0] else items[0] + [SLASH] + Join(items[1..])
  }

  predicate SlashFree(s: string) { SLASH !in s }

  lemma {:induction false} JoinOfSplit(s: string)
    ensures Join(Split(s)) == s
    ensures forall i :: 0 <= i < |Split(s)| ==> SlashFree(Split(s)[i])
    decreases |s|
  {
    if s != "" {
      JoinOfSplit(s[1..]);
      assert s == [s[0]] + s[1..];
    }
  }

  /** Putting a slash-free item in front of a string adds it as the first item. */
  lemma {:induction false} SplitOfItem(item: string, s: string)
    requires SlashFree(item)
    ensures Split(item + [SLASH] + s) == [item] + Split(s)
    decreases |item|
  {
    var whole := item + [SLASH] + s;
    if item == "" {
      assert whole[1..] == s;
    } else {
      assert whole[1..] == item[1..] + [SLASH] + s;
      SplitOfItem(item[1..], s);
      assert item == [item[0]] + item[1..];
    }
  }

  lemma {:induction false} JoinConcat(a: seq<string>, b: seq<string>)
    requires a != [] && b != []
    ensures Join(a + b) == Join(a) + [SLASH] + Join(b)
    decreases |a|
  {
    if |a| == 1 {
      assert (a + b)[1..] == b;
    } else {
      assert (a + b)[1..] == a[1..] + b;
      JoinConcat(a[1..], b);
      assert a[0] + [SLASH] + (Join(a[1..]) + [SLASH] + Join(b)) == (a[0] + [SLASH] + Join(a[1..])) + [SLASH] + Join(b);
    }
  }

  // ---------------------------------------------------------------- parsing

  datatype DenomTrace = DenomTrace(path: string, baseDenom: string)

  /** How many items form the path, scanning pairs from item i on. */
  function PathLength(items: seq<string>, i: nat, isChannelId: string -> bool): (n: nat)
    requires i <= |items|
    ensures i <= n <= |items| && (n - i) % 2 == 0
    decreases |items| - i
  {
    if i + 1 < |items| && |items| > 2 && isChannelId(items[i + 1]) then PathLength(items, i + 2, isChannelId) else i
  }

  /** The first n items are pairs of which the second is a channel identifier, and no such pair follows:
      fewer than two items are left, or the next pair is of another kind. Two items or fewer are never a path. */
  predicate LongestRun(items: seq<string>, n: nat, isChannelId: string -> bool) {
    && n <= |items| && n % 2 == 0
    && (forall j :: 0 <= j < n && j % 2 == 1 ==> isChannelId(items[j]))
    && (n > 0 ==> |items| > 2)
    && (|items| > 2 ==> n + 1 >= |items| || !isChannelId(items[n + 1]))
  }

  /** The loop stops behind the longest run of pairs, and only there. */
  lemma PathIsLongestRun(items: seq<string>, n: nat, isChannelId: string -> bool)
    ensures LongestRun(items, n, isChannelId) <==> n == PathLength(items, 0, isChannelId)
  {
    RunFrom(items, 0, isChannelId);
    if LongestRun(items, n, isChannelId) {
      RunsAgree(items, n, PathLength(items, 0, isChannelId), isChannelId);
    }
  }

  lemma {:induction false} RunFrom(items: seq<string>, i: nat, isChannelId: string -> bool)
    requires i <= |items| && i % 2 == 0 && (i > 0 ==> |items| > 2)
    requires forall j :: 0 <= j < i && j % 2 == 1 ==> isChannelId(items[j])
    ensures LongestRun(items, PathLength(items, i, isChannelId), isChannelId)
    decreases |items| - i
  {
    if i + 1 < |items| && |items| > 2 && isChannelId(items[i + 1]) {
      RunFrom(items, i + 2, isChannelId);
    }
  }

  lemma RunsAgree(items: seq<string>, m: nat, n: nat, isChannelId: string -> bool)
    requires LongestRun(items, m, isChannelId) && LongestRun(items, n, isChannelId)
    ensures m == n
  {
  }

  method ExtractPathAndBaseFromFullDenom(items: seq<string>, isChannelId: string -> bool)
    returns (path: string, baseDenom: string)
    ensures var n := PathLength(items, 0, isChannelId);
            path == Join(items[..n]) && baseDenom == Join(items[n..])
  {
    var pathSlice, baseDenomSlice: seq<string> := [], [];
    var i := 0;
    while i < |items|
      invariant i <= |items| && pathSlice == items[..i] && baseDenomSlice == []
      invariant PathLength(items, i, isChannelId) == PathLength(items, 0, isChannelId)
    {
      if i < |items| - 1 && |items| > 2 && isChannelId(items[i + 1]) {
        pathSlice := pathSlice + [items[i], items[i + 1]];
      } else {
        baseDenomSlice := items[i..];
        break;
      }
      i := i + 2;
    }
    path, baseDenom := Join(pathSlice), Join(baseDenomSlice);
  }

  /** The trace ParseDenomTrace gives. */
  function Trace(rawDenom: string, isChannelId: string -> bool): DenomTrace {
    var items := Split(rawDenom);
    var n := PathLength(items, 0, isChannelId);
    DenomTrace(Join(items[..n]), Join(items[n..]))
  }

  method ParseDenomTrace(rawDenom: string, isChannelId: string -> bool) returns (trace: DenomTrace)
    ensures trace == Trace(rawDenom, isChannelId)
  {
    var denomSplit := Split(rawDenom);
    if denomSplit[0] == rawDenom {
      WholeFirstItem(rawDenom);
      return DenomTrace("", rawDenom);
    }
    var path, baseDenom := ExtractPathAndBaseFromFullDenom(denomSplit, isChannelId);
    trace := DenomTrace(path, baseDenom);
  }

  lemma FirstItemShorter(items: seq<string>)
    requires |items| > 1
    ensures |Join(items)| > |items[0]|
  {
  }

  /** A first item equal to the whole string is its only item. */
  lemma WholeFirstItem(s: string)
    requires Split(s)[0] == s
    ensures Split(s) == [s]
  {
    JoinOfSplit(s);
    if |Split(s)| > 1 {
      FirstItemShorter(Split(s));
    }
  }

  function GetFullDenomPath(trace: DenomTrace): string {
    if trace.path == "" then trace.baseDenom else trace.path + [SLASH] + trace.baseDenom
  }

  // ---------------------------------------------------------------- the round trip

  /** All items, at least four, are pairs of a port and a channel. */
  predicate AllPairs(items: seq<string>, isChannelId: string -> bool) {
    && |items| >= 4 && |items| % 2 == 0
    && forall i :: 0 <= i < |items| && i % 2 == 1 ==> isChannelId(items[i])
  }

  lemma {:induction false} PathLengthIsAll(items: seq<string>, i: nat, isChannelId: string -> bool)
    requires i <= |items| && i % 2 == 0 && |items| > 2
    ensures PathLength(items, i, isChannelId) == |items|
       <==> |items| % 2 == 0 && forall j :: i <= j < |items| && j % 2 == 1 ==> isChannelId(items[j])
    decreases |items| - i
  {
    if i + 1 < |items| && isChannelId(items[i + 1]) {
      PathLengthIsAll(items, i + 2, isChannelId);
    } else if i + 1 < |items| {
      assert i <= i + 1 && (i + 1) % 2 == 1;
    }
  }

  lemma PathTakesAll(items: seq<string>, isChannelId: string -> bool)
    requires items != []
    ensures PathLength(items, 0, isChannelId) == |items| <==> AllPairs(items, isChannelId)
  {
    if |items| > 2 {
      PathLengthIsAll(items, 0, isChannelId);
    }
  }

  lemma PathPartNotEmpty(items: seq<string>)
    requires |items| >= 2
    ensures Join(items) != ""
  {
  }

  /** Items split into a path and a base, printed. */
  lemma PrintAt(items: seq<string>, n: nat)
    requires items != [] && n <= |items| && n != 1
    ensures GetFullDenomPath(DenomTrace(Join(items[..n]), Join(items[n..])))
         == if n == |items| then Join(items) + [SLASH] else Join(items)
  {
    var path, base := items[..n], items[n..];
    assert path + base == items;
    JoinOfNone();
    if n == 0 {
      hide Join;
      assert path == [] && base == items;
    } else if n < |items| {
      PathPartNotEmpty(path);
      hide Join;
      JoinConcat(path, base);
    } else {
      PathPartNotEmpty(path);
      hide Join;
      assert path == items && base == [];
      assert Join(items) + [SLASH] + "" == Join(items) + [SLASH];
    }
  }

  lemma JoinOfNone()
    ensures Join([]) == ""
  {
  }

  /** Printing a parsed denomination gives it back, with a trailing slash exactly when all of it is path. */
  lemma PrintParsed(s: string, isChannelId: string -> bool)
    ensures GetFullDenomPath(Trace(s, isChannelId)) == if AllPairs(Split(s), isChannelId) then s + [SLASH] else s
    ensures GetFullDenomPath(Trace(s, isChannelId)) == s <==> !AllPairs(Split(s), isChannelId)
  {
    hide Split, Join, PathLength, AllPairs, GetFullDenomPath;
    JoinOfSplit(s);
    PathTakesAll(Split(s), isChannelId);
    assert PathLength(Split(s), 0, isChannelId) != 1;
    PrintAt(Split(s), PathLength(Split(s), 0, isChannelId));
  }

  // ---------------------------------------------------------------- hops

  function GetDenomPrefix(port: string, channel: string): string { port + [SLASH] + channel + [SLASH] }

  function IBCDenom(trace: DenomTrace, hash: string -> string): string {
    if trace.path != "" then "ibc" + [SLASH] + hash(GetFullDenomPath(trace)) else trace.baseDenom
  }

  datatype Packet = Packet(sourcePort: string, sourceChannel: string, destPort: string, destChannel: string)

  /** The denomination a transferred coin has on the provider. */
  function GetProviderDenom(denom: string, packet: Packet, isChannelId: string -> bool, hash: string -> string)
    : string
  {
    var voucherPrefix := GetDenomPrefix(packet.sourcePort, packet.sourceChannel);
    if voucherPrefix <= denom then
      var unprefixed := denom[|voucherPrefix|..];
      var trace := Trace(unprefixed, isChannelId);
      if trace.path != "" then IBCDenom(trace, hash) else unprefixed
    else
      IBCDenom(Trace(GetDenomPrefix(packet.destPort, packet.destChannel) + denom, isChannelId), hash)
  }

  lemma NoPathMeansBase(s: string, isChannelId: string -> bool)
    ensures Trace(s, isChannelId).path == "" <==> PathLength(Split(s), 0, isChannelId) == 0
    ensures Trace(s, isChannelId).path == "" ==> Trace(s, isChannelId).baseDenom == s
  {
    var items := Split(s);
    var n := PathLength(items, 0, isChannelId);
    JoinOfSplit(s);
    if n == 0 {
      assert items[n..] == items;
    } else {
      PathPartNotEmpty(items[..n]);
    }
  }

  /** A denomination prefixed by the packet's source end comes back as the provider knows it:
      a native one unchanged, another one as its voucher. */
  lemma PrefixIsUndone(d: string, packet: Packet, isChannelId: string -> bool, hash: string -> string)
    ensures var prefixed := GetDenomPrefix(packet.sourcePort, packet.sourceChannel) + d;
            && GetProviderDenom(prefixed, packet, isChannelId, hash) == IBCDenom(Trace(d, isChannelId), hash)
            && (Trace(d, isChannelId).path == "" ==> GetProviderDenom(prefixed, packet, isChannelId, hash) == d)
  {
    var prefix := GetDenomPrefix(packet.sourcePort, packet.sourceChannel);
    assert (prefix + d)[|prefix|..] == d;
    NoPathMeansBase(d, isChannelId);
  }

  /** The items of a prefixed denomination. */
  lemma SplitOfPrefixed(port: string, channel: string, d: string)
    requires SlashFree(port) && SlashFree(channel)
    ensures Split(GetDenomPrefix(port, channel) + d) == [port, channel] + Split(d)
  {
    assert GetDenomPrefix(port, channel) + d == port + [SLASH] + (channel + [SLASH] + d);
    SplitOfItem(port, channel + [SLASH] + d);
    SplitOfItem(channel, d);
    assert [port] + ([channel] + Split(d)) == [port, channel] + Split(d);
  }

  lemma {:induction false} SplitTrailingSlash(s: string)
    ensures Split(s + [SLASH]) == Split(s) + [""]
    decreases |s|
  {
    if s == "" {
      assert Split("" + [SLASH]) == [""] + Split("");
    } else {
      assert (s + [SLASH])[1..] == s[1..] + [SLASH];
      SplitTrailingSlash(s[1..]);
    }
  }

  lemma {:induction false} PathLengthIgnoresLast(items: seq<string>, i: nat, isChannelId: string -> bool)
    requires i <= |items| && i % 2 == 0 && |items| >= 2 && |items| % 2 == 0
    requires forall j :: 0 <= j < |items| && j % 2 == 1 ==> isChannelId(items[j])
    ensures PathLength(items + [""], i, isChannelId) == |items|
    decreases |items| - i
  {
    if i + 1 < |items| {
      assert (items + [""])[i + 1] == items[i + 1];
      PathLengthIgnoresLast(items, i + 2, isChannelId);
    }
  }

  /** The trace of a denomination that is all pairs, printed with its trailing slash and parsed again. */
  lemma AllPairsWithSlash(d: string, isChannelId: string -> bool)
    requires |Split(d)| >= 2 && |Split(d)| % 2 == 0
    requires forall j :: 0 <= j < |Split(d)| && j % 2 == 1 ==> isChannelId(Split(d)[j])
    ensures Trace(d + [SLASH], isChannelId) == DenomTrace(d, "")
  {
    var items := Split(d);
    SplitTrailingSlash(d);
    PathLengthIgnoresLast(items, 0, isChannelId);
    JoinOfSplit(d);
    assert (items + [""])[..|items|] == items && (items + [""])[|items|..] == [""];
  }

  predicate Pairs(items: seq<string>, isChannelId: string -> bool) {
    && |items| >= 2 && |items| % 2 == 0
    && forall i :: 0 <= i < |items| && i % 2 == 1 ==> isChannelId(items[i])
  }

  lemma PairsCases(items: seq<string>, isChannelId: string -> bool)
    ensures Pairs(items, isChannelId) <==> AllPairs(items, isChannelId) || (|items| == 2 && isChannelId(items[1]))
  {
    if |items| == 2 && isChannelId(items[1]) {
      forall i | 0 <= i < |items| && i % 2 == 1 ensures isChannelId(items[i]) {
        assert i == 1;
      }
    }
  }

  lemma PairsUnderPrefix(items: seq<string>, port: string, channel: string, isChannelId: string -> bool)
    requires isChannelId(channel)
    ensures AllPairs([port, channel] + items, isChannelId) <==> Pairs(items, isChannelId)
  {
    var all := [port, channel] + items;
    forall j | 0 <= j < |items| ensures all[j + 2] == items[j] && (j + 2) % 2 == j % 2 {}
    if AllPairs(all, isChannelId) {
      forall j | 0 <= j < |items| && j % 2 == 1 ensures isChannelId(items[j]) {
        assert (j + 2) % 2 == 1 && all[j + 2] == items[j];
      }
    } else if Pairs(items, isChannelId) {
      forall i | 0 <= i < |all| && i % 2 == 1 ensures isChannelId(all[i]) {
        assert i == 1 || (all[i] == items[i - 2] && (i - 2) % 2 == 1);
      }
    }
  }

  lemma TraceOfAllPairs(d: string, isChannelId: string -> bool)
    requires AllPairs(Split(d), isChannelId)
    ensures Trace(d, isChannelId) == DenomTrace(d, "")
  {
    PathTakesAll(Split(d), isChannelId);
    JoinOfSplit(d);
    assert Split(d)[..|Split(d)|] == Split(d);
  }

  /** The full denomination behind the voucher of a provider denomination: the parsed and printed trace. */
  function OnConsumer(d: string, packet: Packet, isChannelId: string -> bool): string {
    GetFullDenomPath(Trace(GetDenomPrefix(packet.sourcePort, packet.sourceChannel) + d, isChannelId))
  }

  lemma OnConsumerIs(d: string, packet: Packet, isChannelId: string -> bool)
    requires SlashFree(packet.sourcePort) && SlashFree(packet.sourceChannel) && isChannelId(packet.sourceChannel)
    ensures OnConsumer(d, packet, isChannelId)
         == GetDenomPrefix(packet.sourcePort, packet.sourceChannel)
              + if Pairs(Split(d), isChannelId) then d + [SLASH] else d
  {
    var prefix := GetDenomPrefix(packet.sourcePort, packet.sourceChannel);
    SplitOfPrefixed(packet.sourcePort, packet.sourceChannel, d);
    PairsUnderPrefix(Split(d), packet.sourcePort, packet.sourceChannel, isChannelId);
    PrintParsed(prefix + d, isChannelId);
    assert prefix + d + [SLASH] == prefix + (d + [SLASH]);
  }

  /** A reward denomination makes its hop to the consumer and back: sent under the full denomination `name` that its
      voucher hashes, it is recognised on the provider, unless it consists of two items of which the second is a
      channel identifier. That one alone, native by itself, is taken for a path once it is prefixed. */
  lemma HopIsUndone(d: string, name: string, packet: Packet, isChannelId: string -> bool, hash: string -> string)
    requires SlashFree(packet.sourcePort) && SlashFree(packet.sourceChannel) && isChannelId(packet.sourceChannel)
    requires forall s :: !isChannelId(hash(s)) && SlashFree(hash(s))
    requires forall s, t :: hash(s) == hash(t) ==> s == t
    requires Voucher(packet.sourcePort, packet.sourceChannel, d, isChannelId, hash) == "ibc" + [SLASH] + hash(name)
    ensures GetProviderDenom(name, packet, isChannelId, hash) == IBCDenom(Trace(d, isChannelId), hash)
       <==> !(|Split(d)| == 2 && isChannelId(Split(d)[1]))
  {
    VoucherHides(d, name, packet, isChannelId, hash);
    PrintedHopIsUndone(d, packet, isChannelId, hash);
  }

  lemma VoucherHides(d: string, name: string, packet: Packet, isChannelId: string -> bool, hash: string -> string)
    requires SlashFree(packet.sourcePort) && SlashFree(packet.sourceChannel) && isChannelId(packet.sourceChannel)
    requires forall s, t :: hash(s) == hash(t) ==> s == t
    requires Voucher(packet.sourcePort, packet.sourceChannel, d, isChannelId, hash) == "ibc" + [SLASH] + hash(name)
    ensures name == OnConsumer(d, packet, isChannelId)
  {
    VoucherIsHashed(packet.sourcePort, packet.sourceChannel, d, isChannelId, hash);
    OnConsumerIs(d, packet, isChannelId);
    hide Voucher, Split, Pairs, GetDenomPrefix, SlashFree, OnConsumer;
    SameAfterPrefix("ibc" + [SLASH], hash(name), hash(OnConsumer(d, packet, isChannelId)));
  }

  lemma PrintedHopIsUndone(d: string, packet: Packet, isChannelId: string -> bool, hash: string -> string)
    requires SlashFree(packet.sourcePort) && SlashFree(packet.sourceChannel) && isChannelId(packet.sourceChannel)
    requires forall s :: !isChannelId(hash(s)) && SlashFree(hash(s))
    ensures GetProviderDenom(OnConsumer(d, packet, isChannelId), packet, isChannelId, hash)
              == IBCDenom(Trace(d, isChannelId), hash)
       <==> !(|Split(d)| == 2 && isChannelId(Split(d)[1]))
  {
    OnConsumerIs(d, packet, isChannelId);
    PairsCases(Split(d), isChannelId);
    var back := GetProviderDenom(OnConsumer(d, packet, isChannelId), packet, isChannelId, hash);
    if Pairs(Split(d), isChannelId) {
      assert back == IBCDenom(DenomTrace(d, ""), hash) by {
        PrefixIsUndone(d + [SLASH], packet, isChannelId, hash);
        AllPairsWithSlash(d, isChannelId);
      }
      if |Split(d)| == 2 {
        TwoItemsDiffer(d, isChannelId, hash);
        assert IBCDenom(Trace(d, isChannelId), hash) == d;
      } else {
        TraceOfAllPairs(d, isChannelId);
      }
    } else {
      PrefixIsUndone(d, packet, isChannelId, hash);
    }
  }

  lemma TwoItemsDiffer(d: string, isChannelId: string -> bool, hash: string -> string)
    requires |Split(d)| == 2 && isChannelId(Split(d)[1])
    requires forall s :: !isChannelId(hash(s)) && SlashFree(hash(s))
    ensures Trace(d, isChannelId) == DenomTrace("", d)
    ensures IBCDenom(DenomTrace(d, ""), hash) != d
  {
    JoinOfSplit(d);
    assert Split(d)[..0] == [] && Split(d)[0..] == Split(d);
    var h := hash(GetFullDenomPath(DenomTrace(d, "")));
    if IBCDenom(DenomTrace(d, ""), hash) == d {
      SplitOfItem("ibc", h);
      SplitOfFree(h);
    }
  }

  lemma {:induction false} SplitOfFree(s: string)
    requires SlashFree(s)
    ensures Split(s) == [s]
    decreases |s|
  {
    if s != "" {
      SplitOfFree(s[1..]);
      assert s == [s[0]] + s[1..];
    }
  }

  // ---------------------------------------------------------------- reward denominations

  /** The voucher a provider denomination has on the consumer, received over the transfer channel. */
  function Voucher(port: string, channel: string, d: string, isChannelId: string -> bool, hash: string -> string)
    : string
  {
    IBCDenom(Trace(GetDenomPrefix(port, channel) + d, isChannelId), hash)
  }

  /** Native denominations as they are, provider denominations by their vouchers. */
  method AllowedRewardDenoms(
    native: seq<string>, provider: seq<string>, port: string, channel: string,
    isChannelId: string -> bool, hash: string -> string)
    returns (allowed: seq<string>)
    ensures |allowed| == |native| + |provider| && allowed[..|native|] == native
    ensures forall i :: 0 <= i < |provider| ==>
              allowed[|native| + i] == Voucher(port, channel, provider[i], isChannelId, hash)
  {
    allowed := native;
    for i := 0 to |provider|
      invariant |allowed| == |native| + i && allowed[..|native|] == native
      invariant forall j :: 0 <= j < i ==>
                  allowed[|native| + j] == Voucher(port, channel, provider[j], isChannelId, hash)
    {
      var denomTrace := ParseDenomTrace(GetDenomPrefix(port, channel) + provider[i], isChannelId);
      allowed := allowed + [IBCDenom(denomTrace, hash)];
    }
  }

  /** A provider denomination is named by a hash exactly if the transmission channel is a channel identifier:
      of the prefixed denomination, with a slash behind it if it is of pairs only. Without one, as before the handshake
      when there is no channel yet, the prefixed denomination itself is allowed. */
  lemma VoucherIsHashed(port: string, channel: string, d: string, isChannelId: string -> bool, hash: string -> string)
    requires SlashFree(port) && SlashFree(channel)
    ensures Voucher(port, channel, d, isChannelId, hash)
         == if isChannelId(channel) then "ibc" + [SLASH] + hash(GetDenomPrefix(port, channel) + Hashed(d, isChannelId))
            else GetDenomPrefix(port, channel) + d
  {
    var prefixed := GetDenomPrefix(port, channel) + d;
    SplitOfPrefixed(port, channel, d);
    assert Split(prefixed)[1] == channel;
    NoPathMeansBase(prefixed, isChannelId);
    if isChannelId(channel) {
      OnConsumerIs(d, Packet(port, channel, "", ""), isChannelId);
    }
  }

  /** What is hashed is the denomination, with a slash behind it if it is of pairs only. */
  function Hashed(d: string, isChannelId: string -> bool): string {
    if Pairs(Split(d), isChannelId) then d + [SLASH] else d
  }

  /** Any denomination not prefixed by the packet's source end gets the destination end in front: over a channel it is
      known by the hash of that, and under a channel that is no channel identifier by the prefixed name itself. */
  lemma OtherwisePrefixed(denom: string, packet: Packet, isChannelId: string -> bool, hash: string -> string)
    requires SlashFree(packet.destPort) && SlashFree(packet.destChannel)
    requires !(packet.sourcePort + [SLASH] + packet.sourceChannel + [SLASH] <= denom)
    ensures var prefix := packet.destPort + [SLASH] + packet.destChannel + [SLASH];
            GetProviderDenom(denom, packet, isChannelId, hash)
            == if isChannelId(packet.destChannel) then "ibc" + [SLASH] + hash(prefix + Hashed(denom, isChannelId))
               else prefix + denom
  {
    VoucherIsHashed(packet.destPort, packet.destChannel, denom, isChannelId, hash);
  }

  lemma HashedDistinct(a: string, b: string, isChannelId: string -> bool)
    ensures Hashed(a, isChannelId) == Hashed(b, isChannelId)
       <==> || a == b
            || (Pairs(Split(a), isChannelId) && b == a + [SLASH])
            || (Pairs(Split(b), isChannelId) && a == b + [SLASH])
  {
    SplitTrailingSlash(a);
    SplitTrailingSlash(b);
    hide Split;
    assert (a + [SLASH])[..|a|] == a && (b + [SLASH])[..|b|] == b;
  }

  lemma SameAfterPrefix(p: string, x: string, y: string)
    ensures p + x == p + y <==> x == y
  {
    assert (p + x)[|p|..] == x && (p + y)[|p|..] == y;
  }

  /** With a hash without collisions, different denominations have different vouchers,
      except a denomination of pairs only and the same one with a slash behind it when vouchers are hashed. */
  lemma VouchersDistinct(
    port: string, channel: string, a: string, b: string, isChannelId: string -> bool, hash: string -> string)
    requires SlashFree(port) && SlashFree(channel)
    requires forall s, t :: hash(s) == hash(t) ==> s == t
    ensures Voucher(port, channel, a, isChannelId, hash) == Voucher(port, channel, b, isChannelId, hash)
       <==> || a == b
            || (isChannelId(channel) && Pairs(Split(a), isChannelId) && b == a + [SLASH])
            || (isChannelId(channel) && Pairs(Split(b), isChannelId) && a == b + [SLASH])
  {
    VoucherIsHashed(port, channel, a, isChannelId, hash);
    VoucherIsHashed(port, channel, b, isChannelId, hash);
    HashedDistinct(a, b, isChannelId);
    var prefix, x, y := GetDenomPrefix(port, channel), Hashed(a, isChannelId), Hashed(b, isChannelId);
    hide Voucher, Split, Pairs, GetDenomPrefix, SlashFree, Hashed;
    SameAfterPrefix(prefix, a, b);
    SameAfterPrefix("ibc" + [SLASH], hash(prefix + x), hash(prefix + y));
    SameAfterPrefix(prefix, x, y);
  }
}
