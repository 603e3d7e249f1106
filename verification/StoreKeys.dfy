/** Store keys: fixed-width big-endian numbers under one-byte prefixes, and the order a store iterates them in. */
module StoreKeys {
  import opened Common
  import opened Ordering

  /** The n low bytes of x, most significant first. */
  function BigEndian(n: nat, x: nat): (b: Bytes)
    ensures |b| == n
  {
    if n == 0 then [] else BigEndian(n - 1, x / 256) + [x % 256]
  }

  function FromBigEndian(b: Bytes): nat {
    if b == [] then 0 else FromBigEndian(b[..|b| - 1]) * 256 + b[|b| - 1]
  }

  function Power256(n: nat): nat {
    if n == 0 then 1 else 256 * Power256(n - 1)
  }

  lemma {:induction false} BigEndianRoundTrip(n: nat, x: nat)
    requires x < Power256(n)
    ensures FromBigEndian(BigEndian(n, x)) == x
  {
    if n > 0 {
      BigEndianRoundTrip(n - 1, x / 256);
      assert BigEndian(n, x)[..n - 1] == BigEndian(n - 1, x / 256);
    }
  }

  lemma {:induction false} LessOnLastByte(a: Bytes, b: Bytes, c: byte, d: byte)
    requires |a| == |b|
    ensures Less(a + [c], b + [d]) <==> Less(a, b) || (a == b && c < d)
    decreases |a|
  {
    if a == [] {
      assert a + [c] == [c] && b + [d] == [d];
      assert [c][1..] == [] && [d][1..] == [];
    } else {
      assert (a + [c])[1..] == a[1..] + [c] && (b + [d])[1..] == b[1..] + [d];
      LessOnLastByte(a[1..], b[1..], c, d);
      assert a == [a[0]] + a[1..] && b == [b[0]] + b[1..];
    }
  }

  /** The byte order of big-endian numbers is their numeric order. */
  lemma {:induction false} BigEndianOrder(n: nat, x: nat, y: nat)
    requires x < Power256(n) && y < Power256(n)
    ensures Less(BigEndian(n, x), BigEndian(n, y)) <==> x < y
  {
    if n > 0 {
      BigEndianOrder(n - 1, x / 256, y / 256);
      LessOnLastByte(BigEndian(n - 1, x / 256), BigEndian(n - 1, y / 256), x % 256, y % 256);
      BigEndianRoundTrip(n - 1, x / 256);
      BigEndianRoundTrip(n - 1, y / 256);
    }
  }

  lemma Power256Of8()
    ensures Power256(8) == TWO_TO_64
  {
    assert Power256(4) == 0x1_0000_0000;
    assert Power256(6) == 0x1_0000_0000_0000;
  }

  /** The conversion uint64(height) of a signed height. */
  function ToUint64(height: int): (u: nat)
    ensures u < TWO_TO_64
  {
    height % TWO_TO_64
  }

  lemma ToUint64OfInt64(x: int)
    requires -0x8000_0000_0000_0000 <= x < 0x8000_0000_0000_0000
    ensures ToUint64(x) == if x < 0 then x + TWO_TO_64 else x
  {
  }

  function PendingDataPacketsV1Key(idx: nat): Bytes { [15] + BigEndian(8, idx) }

  function HeightValsetUpdateIDKey(height: nat): Bytes { [13] + BigEndian(8, height) }

  function HistoricalInfoKey(height: int): Bytes { [11] + BigEndian(8, ToUint64(height)) }

  /** The number stored in a key after its prefix byte. */
  function IdxOfKey(key: Bytes): nat
    requires key != []
  {
    FromBigEndian(key[1..])
  }

  /** For each key family: byte order is numeric order, and the number can be read back. */
  lemma KeyFamiliesKeepOrder(x: nat, y: nat)
    requires x < TWO_TO_64 && y < TWO_TO_64
    ensures Less(PendingDataPacketsV1Key(x), PendingDataPacketsV1Key(y)) <==> x < y
    ensures Less(HeightValsetUpdateIDKey(x), HeightValsetUpdateIDKey(y)) <==> x < y
    ensures IdxOfKey(PendingDataPacketsV1Key(x)) == x && IdxOfKey(HeightValsetUpdateIDKey(x)) == x
  {
    Power256Of8();
    BigEndianOrder(8, x, y);
    BigEndianRoundTrip(8, x);
    LessUnderPrefix([15], BigEndian(8, x), BigEndian(8, y));
    LessUnderPrefix([13], BigEndian(8, x), BigEndian(8, y));
  }

  /** Historical entries iterate in height order exactly among heights of one sign:
      a negative height comes after every other one. */
  lemma HistoricalKeyOrder(x: int, y: int)
    requires -0x8000_0000_0000_0000 <= x < 0x8000_0000_0000_0000
    requires -0x8000_0000_0000_0000 <= y < 0x8000_0000_0000_0000
    ensures Less(HistoricalInfoKey(x), HistoricalInfoKey(y)) <==> (if (x < 0) == (y < 0) then x < y else y < 0)
  {
    Power256Of8();
    BigEndianOrder(8, ToUint64(x), ToUint64(y));
    LessUnderPrefix([11], BigEndian(8, ToUint64(x)), BigEndian(8, ToUint64(y)));
    ToUint64OfInt64(x);
    ToUint64OfInt64(y);
  }

  // ---------------------------------------------------------------- queue keys

  /** The keys of the packets with indexes lo up to hi, in index order. */
  function QueueKeys(lo: nat, hi: nat): (ks: seq<Bytes>)
    requires lo <= hi
    ensures |ks| == hi - lo
    ensures forall i :: 0 <= i < hi - lo ==> ks[i] == PendingDataPacketsV1Key(lo + i)
    decreases hi - lo
  {
    if lo == hi then [] else QueueKeys(lo, hi - 1) + [PendingDataPacketsV1Key(hi - 1)]
  }

  lemma QueueKeysSorted(lo: nat, hi: nat)
    requires lo <= hi <= TWO_TO_64
    ensures Sorted(Less, QueueKeys(lo, hi))
  {
    var qs := QueueKeys(lo, hi);
    hide Less, PendingDataPacketsV1Key, QueueKeys;
    forall i, j | 0 <= i < j < |qs| ensures Less(qs[i], qs[j]) {
      KeyFamiliesKeepOrder(lo + i, lo + j);
    }
  }

  /** A store iterates the queue in index order. */
  lemma QueueIteration(keys: set<Bytes>, lo: nat, hi: nat)
    requires lo <= hi <= TWO_TO_64
    requires forall k :: k in keys <==> k in QueueKeys(lo, hi)
    ensures StrictTotal(Less) && InOrder(Less, keys) == QueueKeys(lo, hi)
  {
    QueueKeysSorted(lo, hi);
    LessIsStrictTotal();
    SortedUnique(Less, InOrder(Less, keys), QueueKeys(lo, hi));
  }

  lemma QueueKeyDistinct(x: nat, y: nat)
    requires x < TWO_TO_64 && y < TWO_TO_64 && x != y
    ensures PendingDataPacketsV1Key(x) != PendingDataPacketsV1Key(y)
  {
    KeyFamiliesKeepOrder(x, y);
    KeyFamiliesKeepOrder(y, x);
  }

  /** A packet stored under idx comes last in iteration order exactly when every live index is smaller.
      So the queue is first-in first-out until the stored index wraps at 2^64, and not beyond while packets wait. */
  lemma AppendedComesLast(live: set<nat>, idx: nat)
    requires idx < TWO_TO_64 && forall i :: i in live ==> i < TWO_TO_64
    ensures (forall i :: i in live ==> Less(PendingDataPacketsV1Key(i), PendingDataPacketsV1Key(idx)))
       <==> (forall i :: i in live ==> i < idx)
  {
    forall i | i in live
      ensures Less(PendingDataPacketsV1Key(i), PendingDataPacketsV1Key(idx)) <==> i < idx
    {
      KeyFamiliesKeepOrder(i, idx);
    }
  }

  /** A store iterator: the keys of a prefix in ascending byte order. */
  method AscendingKeys(keys: set<Bytes>) returns (ks: seq<Bytes>)
    ensures StrictTotal(Less) && ks == InOrder(Less, keys)
  {
    var unordered := Elements(keys);
    LessIsStrictTotal();
    ks := SortSlice(Less, unordered);
    SortedUnique(Less, ks, InOrder(Less, keys));
  }

  /** Iterating the height map yields the heights in numeric order. */
  method AscendingHeights(heights: set<nat>) returns (hs: seq<nat>)
    requires forall h :: h in heights ==> h < TWO_TO_64
    ensures hs == InOrder(NatLess, heights)
  {
    var ks := AscendingKeys(HeightKeys(heights));
    hs := [];
    for i := 0 to |ks|
      invariant |hs| == i
      invariant forall j :: 0 <= j < i ==> hs[j] in heights && ks[j] == HeightValsetUpdateIDKey(hs[j])
    {
      HeightOfKey(heights, ks[i]);
      hs := hs + [IdxOfKey(ks[i])];
    }
    HeightKeysInOrder(heights, ks, hs);
  }

  // ---------------------------------------------------------------- iterating by address

  ghost predicate Injective(address: Bytes -> Bytes) {
    forall a, b :: address(a) == address(b) ==> a == b
  }

  /** The order of validators by their addresses. */
  function ByAddress(address: Bytes -> Bytes): (Bytes, Bytes) -> bool {
    (a, b) => Less(address(a), address(b))
  }

  lemma AddressesAreInOrder(address: Bytes -> Bytes)
    requires Injective(address)
    ensures StrictTotal(ByAddress(address))
  {
    var lt := ByAddress(address);
    LessIsStrictTotal();
    forall a, b ensures a == b || lt(a, b) || lt(b, a) {
      assert address(a) == address(b) ==> a == b;
    }
  }

  /** Iterating over what is stored under addresses. */
  method AscendingByAddress(address: Bytes -> Bytes, keys: set<Bytes>) returns (ks: seq<Bytes>)
    requires Injective(address)
    ensures StrictTotal(ByAddress(address)) && ks == InOrder(ByAddress(address), keys)
  {
    var unordered := Elements(keys);
    AddressesAreInOrder(address);
    ks := SortSlice(ByAddress(address), unordered);
    SortedUnique(ByAddress(address), ks, InOrder(ByAddress(address), keys));
  }

  function HeightKeys(heights: set<nat>): set<Bytes> {
    set h | h in heights :: HeightValsetUpdateIDKey(h)
  }

  lemma HeightOfKey(heights: set<nat>, key: Bytes)
    requires key in HeightKeys(heights) && forall h :: h in heights ==> h < TWO_TO_64
    ensures key != [] && IdxOfKey(key) in heights && HeightValsetUpdateIDKey(IdxOfKey(key)) == key
  {
    var h :| h in heights && key == HeightValsetUpdateIDKey(h);
    KeyFamiliesKeepOrder(h, h);
  }

  lemma HeightKeysInOrder(heights: set<nat>, ks: seq<Bytes>, hs: seq<nat>)
    requires forall h :: h in heights ==> h < TWO_TO_64
    requires |ks| == |hs| && Sorted(Less, ks)
    requires forall j :: 0 <= j < |ks| ==> hs[j] in heights && ks[j] == HeightValsetUpdateIDKey(hs[j])
    requires forall h :: h in heights ==> HeightValsetUpdateIDKey(h) in ks
    ensures hs == InOrder(NatLess, heights)
  {
    forall i, j | 0 <= i < j < |hs| ensures NatLess(hs[i], hs[j]) {
      KeyFamiliesKeepOrder(hs[i], hs[j]);
    }
    forall h | h in heights ensures h in hs {
      assert HeightValsetUpdateIDKey(h) in ks;
      var i :| 0 <= i < |ks| && ks[i] == HeightValsetUpdateIDKey(h);
      KeyFamiliesKeepOrder(h, hs[i]);
      KeyFamiliesKeepOrder(hs[i], h);
    }
    SortedUnique(NatLess, hs, InOrder(NatLess, heights));
  }
}
