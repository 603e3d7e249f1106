/** Validator updates: accumulation, application to the cross-chain set, and the consensus engine's view. */
module Valset {
  import opened Ordering

  /** A consensus public key by its canonical string; addresses are identified with it. */
  type Key = Bytes

  datatype Update = Update(key: Key, power: int)

  type Powers = map<Key, int>

  // ---------------------------------------------------------------- last write wins

  /** The power each key was given last. */
  ghost function LastWrite(us: seq<Update>): Powers {
    if us == [] then map[] else
    var n := |us| - 1;
    LastWrite(us[..n])[us[n].key := us[n].power]
  }

  /** An update of the list behind which its key is not written again. */
  ghost predicate WrittenLast(us: seq<Update>, u: Update) {
    exists i :: 0 <= i < |us| && us[i] == u && forall j :: i < j < |us| ==> us[j].key != u.key
  }

  lemma WrittenLastStep(us: seq<Update>, u: Update)
    requires us != []
    ensures var n := |us| - 1;
            WrittenLast(us, u) <==> u == us[n] || (u.key != us[n].key && WrittenLast(us[..n], u))
  {
    var n := |us| - 1;
    if WrittenLast(us[..n], u) {
      var i :| 0 <= i < n && us[..n][i] == u && forall j :: i < j < n ==> us[..n][j].key != u.key;
      assert us[i] == u;
      forall j | i < j < n ensures us[j].key != u.key {
        assert us[..n][j] == us[j];
      }
    }
    if WrittenLast(us, u) && u != us[n] {
      var i :| 0 <= i < |us| && us[i] == u && forall j :: i < j < |us| ==> us[j].key != u.key;
      assert us[..n][i] == u;
    }
  }

  lemma {:induction false} LastWriteIs(us: seq<Update>)
    ensures forall u: Update :: WrittenLast(us, u) <==> u.key in LastWrite(us) && LastWrite(us)[u.key] == u.power
    decreases |us|
  {
    if us != [] {
      var n := |us| - 1;
      LastWriteIs(us[..n]);
      hide WrittenLast;
      forall u: Update ensures WrittenLast(us, u) <==> u.key in LastWrite(us) && LastWrite(us)[u.key] == u.power {
        WrittenLastStep(us, u);
      }
    }
  }

  ghost predicate DistinctKeys(us: seq<Update>) {
    forall i, j :: 0 <= i < j < |us| ==> us[i].key != us[j].key
  }

  lemma {:induction false} LastWriteConcat(a: seq<Update>, b: seq<Update>)
    ensures LastWrite(a + b) == LastWrite(a) + LastWrite(b)
    decreases |b|
  {
    if b == [] {
      assert a + b == a;
    } else {
      var n := |b| - 1;
      assert (a + b)[..|a + b| - 1] == a + b[..n];
      LastWriteConcat(a, b[..n]);
    }
  }

  predicate HasKey(us: seq<Update>, k: Key) {
    exists u :: u in us && u.key == k
  }

  lemma {:induction false} LastWriteKeys(us: seq<Update>, k: Key)
    ensures k in LastWrite(us) <==> HasKey(us, k)
    decreases |us|
  {
    if us != [] {
      var n := |us| - 1;
      LastWriteKeys(us[..n], k);
      assert us == us[..n] + [us[n]];
    }
  }

  /** Without duplicate keys the last write is simply the list read as a map. */
  lemma {:induction false} LastWriteDistinct(us: seq<Update>)
    requires DistinctKeys(us)
    ensures forall k, p :: Update(k, p) in us <==> k in LastWrite(us) && LastWrite(us)[k] == p
    decreases |us|
  {
    if us != [] {
      var n := |us| - 1;
      LastWriteDistinct(us[..n]);
      assert us == us[..n] + [us[n]];
      forall k, p ensures Update(k, p) in us <==> k in LastWrite(us) && LastWrite(us)[k] == p {
        if k == us[n].key {
          forall i | 0 <= i < n ensures us[i].key != k {}
        } else {
          assert Update(k, p) in us <==> Update(k, p) in us[..n];
        }
      }
    }
  }

  // ---------------------------------------------------------------- canonical accumulation

  /** Decreasing power, then decreasing key. */
  predicate Before(u: Update, v: Update) {
    if u.power != v.power then u.power > v.power else Less(v.key, u.key)
  }

  lemma BeforeIsStrictTotal()
    ensures StrictTotal(Before)
  {
    LessIsStrictTotal();
  }

  /** The entries of m, each once, in strictly decreasing order. */
  ghost predicate Canonical(us: seq<Update>, m: Powers) {
    && Sorted(Before, us)
    && (forall k, p :: Update(k, p) in us <==> k in m && m[k] == p)
  }

  lemma CanonicalUnique(a: seq<Update>, b: seq<Update>, m: Powers)
    requires Canonical(a, m) && Canonical(b, m)
    ensures a == b
  {
    BeforeIsStrictTotal();
    forall u: Update ensures u in a <==> u in b {
      assert u == Update(u.key, u.power);
    }
    SortedUnique(Before, a, b);
  }

  lemma {:induction false} CanonicalExists(us: seq<Update>)
    ensures exists out :: Canonical(out, LastWrite(us))
    decreases |us|
  {
    if us == [] {
      assert Canonical([], LastWrite(us));
    } else {
      var n := |us| - 1;
      var k := us[n].key;
      var m := LastWrite(us[..n]);
      CanonicalExists(us[..n]);
      var prev :| Canonical(prev, m);
      BeforeIsStrictTotal();
      var rest := WithoutKey(prev, m, k);
      assert forall u: Update :: u in rest ==> u == Update(u.key, u.power) && u.key != k;
      InsertSorts(Before, rest, us[n]);
      assert Canonical(Insert(Before, rest, us[n]), LastWrite(us));
    }
  }

  lemma WithoutKey(list: seq<Update>, m: Powers, k: Key) returns (rest: seq<Update>)
    requires Canonical(list, m) && StrictTotal(Before)
    ensures Sorted(Before, rest)
    ensures forall u: Update :: u in rest <==> u in list && u.key != k
  {
    rest := list;
    assert forall u: Update :: u in list ==> u == Update(u.key, u.power);
    if k in m {
      assert Update(k, m[k]) in list;
      var i :| 0 <= i < |list| && list[i] == Update(k, m[k]);
      rest := list[..i] + list[i + 1..];
      forall u: Update ensures u in rest <==> u in list && u.key != k {
        RemoveAt(list, i, u);
        assert u == Update(u.key, u.power);
      }
    }
  }

  lemma RemoveAt(us: seq<Update>, i: nat, u: Update)
    requires i < |us| && StrictTotal(Before) && Sorted(Before, us)
    ensures u in us[..i] + us[i + 1..] <==> u in us && u != us[i]
  {
    var rest := us[..i] + us[i + 1..];
    if u in us && u != us[i] {
      var j :| 0 <= j < |us| && us[j] == u;
      assert rest[if j < i then j else j - 1] == u;
    }
    forall j | 0 <= j < |rest| ensures rest[j] in us && rest[j] != us[i] {
      var j' := if j < i then j else j + 1;
      assert rest[j] == us[j'];
    }
  }

  /** The list AccumulateChanges stands for: it depends on the last writes only. */
  ghost function Accumulated(us: seq<Update>): (out: seq<Update>)
    ensures Canonical(out, LastWrite(us))
  {
    CanonicalExists(us);
    var out :| Canonical(out, LastWrite(us));
    out
  }

  lemma AccumulatedFacts(us: seq<Update>)
    ensures DistinctKeys(Accumulated(us))
    ensures LastWrite(Accumulated(us)) == LastWrite(us)
    ensures forall u :: u in Accumulated(us) ==> u in us
  {
    var out, m := Accumulated(us), LastWrite(us);
    BeforeIsStrictTotal();
    forall i, j | 0 <= i < j < |out| ensures out[i].key != out[j].key {
      assert out[i] == Update(out[i].key, out[i].power) && out[i] in out;
      assert out[j] == Update(out[j].key, out[j].power) && out[j] in out;
      assert Before(out[i], out[j]);
    }
    LastWriteDistinct(out);
    forall k ensures k in LastWrite(out) <==> k in m {
      if k in m { assert Update(k, m[k]) in out; }
      if k in LastWrite(out) { assert Update(k, LastWrite(out)[k]) in out; }
    }
    forall k | k in m ensures LastWrite(out)[k] == m[k] {
      assert Update(k, m[k]) in out;
    }
    forall u | u in out ensures u in us {
      assert u == Update(u.key, u.power);
      LastWriteOccurs(us, u.key);
    }
  }

  lemma {:induction false} LastWriteOccurs(us: seq<Update>, k: Key)
    requires k in LastWrite(us)
    ensures Update(k, LastWrite(us)[k]) in us
    decreases |us|
  {
    var n := |us| - 1;
    if us[n].key == k {
      assert us[n] == Update(k, LastWrite(us)[k]);
    } else {
      LastWriteOccurs(us[..n], k);
    }
  }

  /** Nothing but the last writes shows in the accumulated list. */
  lemma AccumulatedByLastWrite(a: seq<Update>, b: seq<Update>)
    requires LastWrite(a) == LastWrite(b)
    ensures Accumulated(a) == Accumulated(b)
  {
    CanonicalUnique(Accumulated(a), Accumulated(b), LastWrite(a));
  }

  /** Accumulating in batches gives the very list that accumulating once gives. */
  lemma AccumulateInBatches(a: seq<Update>, b: seq<Update>, c: seq<Update>)
    ensures Accumulated(Accumulated(a + b) + c) == Accumulated(a + (b + c))
  {
    var ab := a + b;
    assert a + (b + c) == ab + c;
    AccumulatedFacts(ab);
    LastWriteConcat(Accumulated(ab), c);
    LastWriteConcat(ab, c);
    AccumulatedByLastWrite(Accumulated(ab) + c, ab + c);
  }

  method AccumulateChanges(currentChanges: seq<Update>, newChanges: seq<Update>) returns (out: seq<Update>)
    ensures out == Accumulated(currentChanges + newChanges)
    ensures forall i :: 0 < i < |out| ==>
              || out[i - 1].power > out[i].power
              || (out[i - 1].power == out[i].power && Less(out[i].key, out[i - 1].key))
    ensures forall u :: u in out <==> WrittenLast(currentChanges + newChanges, u)
  {
    var m: Powers := map[];
    for i := 0 to |currentChanges|
      invariant m == LastWrite(currentChanges[..i])
    {
      m := m[currentChanges[i].key := currentChanges[i].power];
      assert currentChanges[..i + 1][..i] == currentChanges[..i];
    }
    assert currentChanges[..|currentChanges|] == currentChanges;
    for i := 0 to |newChanges|
      invariant m == LastWrite(currentChanges) + LastWrite(newChanges[..i])
    {
      m := m[newChanges[i].key := newChanges[i].power];
      assert newChanges[..i + 1][..i] == newChanges[..i];
    }
    assert newChanges[..|newChanges|] == newChanges;
    LastWriteConcat(currentChanges, newChanges);

    hide LastWrite, WrittenLast, Before, Less;
    // the map is iterated in an arbitrary order
    var keys := Elements(m.Keys);
    out := [];
    for i := 0 to |keys|
      invariant |out| == i && forall j :: 0 <= j < i ==> out[j] == Update(keys[j], m[keys[j]])
    {
      assert keys[i] in keys;
      out := out + [Update(keys[i], m[keys[i]])];
    }
    BeforeIsStrictTotal();
    ghost var unsorted := out;
    out := SortSlice(Before, out);
    SortedEntries(m, keys, unsorted, out);
    CanonicalUnique(out, Accumulated(currentChanges + newChanges), m);
    CanonicalMeans(currentChanges + newChanges, out);
  }

  /** The canonical list, said without maps and orders: neighbours have decreasing powers, or equal powers and
      decreasing keys, and the entries are the updates that are not written again. */
  lemma CanonicalMeans(us: seq<Update>, out: seq<Update>)
    requires Canonical(out, LastWrite(us))
    ensures forall i :: 0 < i < |out| ==>
              || out[i - 1].power > out[i].power
              || (out[i - 1].power == out[i].power && Less(out[i].key, out[i - 1].key))
    ensures forall u :: u in out <==> WrittenLast(us, u)
  {
    LastWriteIs(us);
    forall i | 0 < i < |out|
      ensures || out[i - 1].power > out[i].power
              || (out[i - 1].power == out[i].power && Less(out[i].key, out[i - 1].key))
    {
      assert Before(out[i - 1], out[i]);
    }
    forall u: Update ensures u in out <==> WrittenLast(us, u) {
      assert u == Update(u.key, u.power);
    }
  }

  lemma SortedEntries(m: Powers, keys: seq<Key>, unsorted: seq<Update>, out: seq<Update>)
    requires forall k :: k in keys <==> k in m.Keys
    requires |unsorted| == |keys|
    requires forall j :: 0 <= j < |keys| ==> keys[j] in m && unsorted[j] == Update(keys[j], m[keys[j]])
    requires Sorted(Before, out) && forall u :: u in out <==> u in unsorted
    ensures Canonical(out, m)
  {
    forall k, p ensures Update(k, p) in out <==> k in m && m[k] == p {
      if k in m {
        assert k in keys;
        var j :| 0 <= j < |keys| && keys[j] == k;
        assert unsorted[j] == Update(k, m[k]);
      }
    }
  }

  // ---------------------------------------------------------------- applying updates to the store

  /** One update on the cross-chain validators. */
  function Apply1(m: Powers, u: Update): Powers {
    if u.power < 1 then m - {u.key} else m[u.key := u.power]
  }

  /** Every update, in order. */
  function Apply(m: Powers, us: seq<Update>): Powers
    decreases |us|
  {
    if us == [] then m else Apply(Apply1(m, us[0]), us[1..])
  }

  /** What reaches the consensus engine: all but the removals of absent validators. */
  function Forwarded(m: Powers, us: seq<Update>): seq<Update>
    decreases |us|
  {
    if us == [] then [] else
    (if us[0].power < 1 && us[0].key !in m then [] else [us[0]]) + Forwarded(Apply1(m, us[0]), us[1..])
  }

  /** The validators that did not exist when their update came. */
  function Created(m: Powers, us: seq<Update>): set<Key>
    decreases |us|
  {
    if us == [] then {} else
    (if us[0].power >= 1 && us[0].key !in m then {us[0].key} else {}) + Created(Apply1(m, us[0]), us[1..])
  }

  /** The powers w written over m, non-positive powers removing. */
  ghost function Patch(m: Powers, w: Powers): Powers {
    map k | k in m.Keys + w.Keys && (k in w ==> w[k] >= 1) :: if k in w then w[k] else m[k]
  }

  lemma {:induction false} ApplyConcat(m: Powers, a: seq<Update>, b: seq<Update>)
    ensures Apply(m, a + b) == Apply(Apply(m, a), b)
    decreases |a|
  {
    if a == [] {
      assert a + b == b;
    } else {
      assert (a + b)[1..] == a[1..] + b;
      ApplyConcat(Apply1(m, a[0]), a[1..], b);
    }
  }

  /** One more update at the end of a list. */
  lemma {:induction false} ApplySnoc(m: Powers, us: seq<Update>, u: Update)
    ensures var last := Apply(m, us);
            && Apply(m, us + [u]) == Apply1(last, u)
            && Forwarded(m, us + [u]) == Forwarded(m, us) + (if u.power < 1 && u.key !in last then [] else [u])
            && Created(m, us + [u]) == Created(m, us) + (if u.power >= 1 && u.key !in last then {u.key} else {})
    decreases |us|
  {
    if us == [] {
      assert us + [u] == [u];
    } else {
      assert (us + [u])[1..] == us[1..] + [u];
      ApplySnoc(Apply1(m, us[0]), us[1..], u);
    }
  }

  lemma PatchStep(m: Powers, w: Powers, u: Update)
    requires forall k :: k in m ==> m[k] >= 1
    ensures Apply1(Patch(m, w), u) == Patch(m, w[u.key := u.power])
  {
  }

  /** Applying one by one has the effect of the last writes alone. */
  lemma {:induction false} ApplyIsPatch(m: Powers, us: seq<Update>)
    requires forall k :: k in m ==> m[k] >= 1
    ensures Apply(m, us) == Patch(m, LastWrite(us))
    ensures forall k :: k in Apply(m, us) ==> Apply(m, us)[k] >= 1
    decreases |us|
  {
    if us == [] {
      assert Patch(m, map[]) == m;
    } else {
      var n := |us| - 1;
      ApplyIsPatch(m, us[..n]);
      assert us == us[..n] + [us[n]];
      ApplySnoc(m, us[..n], us[n]);
      PatchStep(m, LastWrite(us[..n]), us[n]);
    }
  }

  /** The refinement behind the pending changes: one flush of the accumulated list replaces
      the two lists applied in turn. */
  lemma AccumulatedRefinesInOrder(m: Powers, a: seq<Update>, b: seq<Update>)
    requires forall k :: k in m ==> m[k] >= 1
    ensures Apply(m, Accumulated(a + b)) == Apply(Apply(m, a), b)
  {
    AccumulatedFacts(a + b);
    ApplyIsPatch(m, Accumulated(a + b));
    ApplyIsPatch(m, a + b);
    ApplyConcat(m, a, b);
  }

  // ---------------------------------------------------------------- the consensus engine

  /** What the engine accepts: no duplicates, no negative power, no removal of an absent validator. */
  ghost predicate EngineAccepts(engine: Powers, us: seq<Update>) {
    && DistinctKeys(us)
    && (forall u :: u in us ==> u.power >= 0 && (u.power == 0 ==> u.key in engine))
  }

  ghost function EngineApply(engine: Powers, us: seq<Update>): Powers {
    Patch(engine, LastWrite(us))
  }

  /** The forwarded list is a sublist, so it inherits what every update had. */
  lemma {:induction false} ForwardedFrom(m: Powers, us: seq<Update>)
    ensures forall u :: u in Forwarded(m, us) ==> u in us
    ensures DistinctKeys(us) ==> DistinctKeys(Forwarded(m, us))
    decreases |us|
  {
    if us != [] {
      ForwardedFrom(Apply1(m, us[0]), us[1..]);
      var rest := Forwarded(Apply1(m, us[0]), us[1..]);
      if DistinctKeys(us) {
        assert DistinctKeys(us[1..]);
        forall i | 0 <= i < |rest| ensures rest[i].key != us[0].key {
          assert rest[i] in us[1..];
          var j :| 0 <= j < |us| - 1 && us[1..][j] == rest[i];
          assert us[0].key != us[j + 1].key;
        }
      }
    }
  }

  /** Forwarded are exactly the updates that are no removal of an absent validator. */
  lemma {:induction false} ForwardedExactly(m: Powers, us: seq<Update>)
    requires DistinctKeys(us)
    ensures forall u :: u in Forwarded(m, us) <==> u in us && (u.power >= 1 || u.key in m)
    decreases |us|
  {
    if us != [] {
      var m' := Apply1(m, us[0]);
      ForwardedExactly(m', us[1..]);
      assert us == [us[0]] + us[1..];
      forall u | u in us[1..] ensures u.key in m' <==> u.key in m {
        var j :| 0 <= j < |us| - 1 && us[1..][j] == u;
        assert us[0].key != us[j + 1].key;
      }
      var first := if us[0].power < 1 && us[0].key !in m then [] else [us[0]];
      forall u ensures u in Forwarded(m, us) <==> u in first || u in Forwarded(m', us[1..]) {
        assert Forwarded(m, us) == first + Forwarded(m', us[1..]);
      }
    }
  }

  /** They keep their order. */
  lemma {:induction false} ForwardedInOrder(m: Powers, us: seq<Update>)
    requires Sorted(Before, us)
    ensures Sorted(Before, Forwarded(m, us))
    decreases |us|
  {
    if us != [] {
      var m' := Apply1(m, us[0]);
      assert Sorted(Before, us[1..]);
      ForwardedInOrder(m', us[1..]);
      ForwardedFrom(m', us[1..]);
      var rest := Forwarded(m', us[1..]);
      forall i | 0 <= i < |rest| ensures Before(us[0], rest[i]) {
        assert rest[i] in us[1..];
        var j :| 0 <= j < |us| - 1 && us[1..][j] == rest[i];
        assert Before(us[0], us[j + 1]);
      }
    }
  }

  /** A validator is present afterwards exactly with the power it was given last, if that is positive,
      or with its old power, if it was given none. */
  lemma AppliedExactly(m: Powers, us: seq<Update>, k: Key, p: int)
    requires forall k :: k in m ==> m[k] >= 1
    ensures k in Apply(m, us) && Apply(m, us)[k] == p
       <==> if HasKey(us, k) then p >= 1 && WrittenLast(us, Update(k, p)) else k in m && m[k] == p
  {
    ApplyIsPatch(m, us);
    LastWriteIs(us);
    LastWriteKeys(us, k);
    hide Apply, LastWrite, WrittenLast;
  }

  /** Leaving out the removals of absent validators changes nothing. */
  lemma {:induction false} ApplyForwarded(m: Powers, us: seq<Update>)
    requires forall k :: k in m ==> m[k] >= 1
    ensures Apply(m, Forwarded(m, us)) == Apply(m, us)
    decreases |us|
  {
    if us != [] {
      var u, m' := us[0], Apply1(m, us[0]);
      ApplyForwarded(m', us[1..]);
      if u.power < 1 && u.key !in m {
        assert m' == m;
        assert Forwarded(m, us) == Forwarded(m', us[1..]);
      } else {
        assert Forwarded(m, us)[1..] == Forwarded(m', us[1..]);
      }
    }
  }

  lemma {:induction false} ForwardedRemovals(m: Powers, us: seq<Update>, u: Update)
    requires DistinctKeys(us) && u in Forwarded(m, us) && u.power < 1
    ensures u.key in m
    decreases |us|
  {
    var m' := Apply1(m, us[0]);
    if u != us[0] || (us[0].power < 1 && us[0].key !in m) {
      assert u in Forwarded(m', us[1..]);
      ForwardedFrom(m', us[1..]);
      assert u in us[1..];
      var j :| 0 <= j < |us| - 1 && us[1..][j] == u;
      assert us[0].key != us[j + 1].key;
      ForwardedRemovals(m', us[1..], u);
    }
  }

  /** A flush leaves an engine that agreed with the store agreeing with it, and the engine accepts the list. */
  lemma EngineFollowsStore(vals: Powers, us: seq<Update>)
    requires forall k :: k in vals ==> vals[k] >= 1
    requires DistinctKeys(us) && forall u :: u in us ==> u.power >= 0
    ensures EngineAccepts(vals, Forwarded(vals, us))
    ensures EngineApply(vals, Forwarded(vals, us)) == Apply(vals, us)
  {
    var fwd := Forwarded(vals, us);
    ForwardedFrom(vals, us);
    ApplyForwarded(vals, us);
    ApplyIsPatch(vals, fwd);
    forall u | u in fwd && u.power == 0 ensures u.key in vals {
      ForwardedRemovals(vals, us, u);
    }
  }

  /** The keys an update list creates are among its own, and none of them was present. */
  lemma {:induction false} CreatedAbsent(m: Powers, us: seq<Update>)
    requires DistinctKeys(us)
    ensures forall k :: k in Created(m, us) <==> k !in m && exists u :: u in us && u.key == k && u.power >= 1
    decreases |us|
  {
    if us != [] {
      var m' := Apply1(m, us[0]);
      CreatedAbsent(m', us[1..]);
      assert us == [us[0]] + us[1..];
      forall k ensures k in Created(m, us) <==> k !in m && exists u :: u in us && u.key == k && u.power >= 1 {
        if k == us[0].key {
          forall u | u in us[1..] ensures u.key != k {
            var j :| 0 <= j < |us| - 1 && us[1..][j] == u;
            assert us[0].key != us[j + 1].key;
          }
        } else {
          assert k in m <==> k in m';
          assert forall u :: u in us && u.key == k <==> u in us[1..] && u.key == k;
        }
      }
    }
  }

  // ---------------------------------------------------------------- changeover

  /** The zero-power updates for the standalone validators the initial set does not name. */
  function Retired(standalone: seq<Key>, initial: seq<Update>): seq<Update> {
    if standalone == [] then [] else
    (if HasKey(initial, standalone[0]) then [] else [Update(standalone[0], 0)])
      + Retired(standalone[1..], initial)
  }

  /** They are the zero-power updates of exactly the standalone validators without an initial update ... */
  lemma {:induction false} RetiredMembers(standalone: seq<Key>, initial: seq<Update>)
    ensures forall u :: u in Retired(standalone, initial) <==>
              u.power == 0 && u.key in standalone && !HasKey(initial, u.key)
    decreases |standalone|
  {
    if standalone != [] {
      RetiredMembers(standalone[1..], initial);
      assert standalone == [standalone[0]] + standalone[1..];
    }
  }

  ghost predicate Follows(keys: seq<Key>, a: Key, b: Key) {
    exists p, q :: 0 <= p < q < |keys| && keys[p] == a && keys[q] == b
  }

  /** ... in the order in which the standalone module lists them. */
  lemma {:induction false} RetiredInOrder(standalone: seq<Key>, initial: seq<Update>, i: nat, j: nat)
    requires i < j < |Retired(standalone, initial)|
    ensures Follows(standalone, Retired(standalone, initial)[i].key, Retired(standalone, initial)[j].key)
    decreases |standalone|
  {
    var zeros, tail := Retired(standalone, initial), standalone[1..];
    var rest := Retired(tail, initial);
    var shift := |zeros| - |rest|;
    assert zeros[j] == rest[j - shift];
    if i >= shift {
      assert zeros[i] == rest[i - shift];
      RetiredInOrder(tail, initial, i - shift, j - shift);
      FollowsBehind(standalone, zeros[i].key, zeros[j].key);
    } else {
      assert rest[j - shift] in rest;
      RetiredMembers(tail, initial);
      var q :| 0 <= q < |tail| && tail[q] == zeros[j].key;
      assert standalone[0] == zeros[i].key && standalone[q + 1] == zeros[j].key;
    }
  }

  lemma FollowsBehind(keys: seq<Key>, a: Key, b: Key)
    requires keys != [] && Follows(keys[1..], a, b)
    ensures Follows(keys, a, b)
  {
    var p, q :| 0 <= p < q < |keys[1..]| && keys[1..][p] == a && keys[1..][q] == b;
    assert keys[p + 1] == a && keys[q + 1] == b;
  }

  lemma {:induction false} RetiredKeys(standalone: seq<Key>, initial: seq<Update>)
    requires forall i, j :: 0 <= i < j < |standalone| ==> standalone[i] != standalone[j]
    ensures DistinctKeys(Retired(standalone, initial))
    ensures forall u :: u in Retired(standalone, initial) <==>
              u.power == 0 && u.key in standalone && !HasKey(initial, u.key)
    decreases |standalone|
  {
    RetiredMembers(standalone, initial);
    if standalone != [] {
      RetiredKeys(standalone[1..], initial);
    }
  }

  lemma PatchReplaces(engine: Powers, full: Powers, zeros: Powers)
    requires forall k :: k in full ==> full[k] >= 1
    requires forall k :: k in zeros ==> zeros[k] == 0 && k !in full
    requires forall k :: k in engine ==> k in full || k in zeros
    ensures Patch(engine, full + zeros) == Patch(map[], full)
  {
  }

  lemma RetiredWrites(standalone: seq<Key>, initial: seq<Update>)
    requires forall i, j :: 0 <= i < j < |standalone| ==> standalone[i] != standalone[j]
    ensures var zeros := LastWrite(Retired(standalone, initial));
            && (forall k :: k in zeros ==> zeros[k] == 0 && k !in LastWrite(initial))
            && (forall k :: k in standalone ==> k in LastWrite(initial) || k in zeros)
  {
    var zeros := Retired(standalone, initial);
    RetiredKeys(standalone, initial);
    LastWriteDistinct(zeros);
    forall k | k in LastWrite(zeros) ensures LastWrite(zeros)[k] == 0 && k !in LastWrite(initial) {
      assert Update(k, LastWrite(zeros)[k]) in zeros;
      LastWriteKeys(initial, k);
    }
    forall k | k in standalone && k !in LastWrite(initial) ensures k in LastWrite(zeros) {
      LastWriteKeys(initial, k);
      assert Update(k, 0) in zeros;
    }
  }

  /** The changeover list turns the standalone set into exactly the initial provider set. */
  lemma ChangeoverReplacesSet(engine: Powers, standalone: seq<Key>, initial: seq<Update>)
    requires forall i, j :: 0 <= i < j < |standalone| ==> standalone[i] != standalone[j]
    requires forall k :: k in engine <==> k in standalone
    requires DistinctKeys(initial) && forall u :: u in initial ==> u.power >= 1
    ensures EngineAccepts(engine, initial + Retired(standalone, initial))
    ensures EngineApply(engine, initial + Retired(standalone, initial)) == Apply(map[], initial)
  {
    var zeros := Retired(standalone, initial);
    RetiredKeys(standalone, initial);
    RetiredWrites(standalone, initial);
    LastWriteConcat(initial, zeros);
    LastWriteDistinct(initial);
    ApplyIsPatch(map[], initial);
    forall k | k in LastWrite(initial) ensures LastWrite(initial)[k] >= 1 {
      assert Update(k, LastWrite(initial)[k]) in initial;
    }
    PatchReplaces(engine, LastWrite(initial), LastWrite(zeros));
    forall i, j | 0 <= i < |initial| && 0 <= j < |zeros| ensures initial[i].key != zeros[j].key {
      assert zeros[j] in zeros && initial[i] in initial;
    }
  }
}
