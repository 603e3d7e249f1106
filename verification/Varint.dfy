/** Base 128 varints: the backward-writing encoder, its length, and the reading loop with its limits. */
module Varint {
  import opened Common
  import opened Ordering

  const TWO_TO_63: nat := 0x8000_0000_0000_0000

  datatype WireError =
    | IntOverflow | UnexpectedEOF | InvalidLength | UnexpectedEndOfGroup
    | IllegalWireType | IllegalTag | EndGroup | WrongWireType | NestedError

  datatype Result<+T> = Ok(value: T) | Err(error: WireError)

  /** The signed 64-bit number with the bits of x. */
  function ToInt64(x: nat): (r: int)
    requires x < TWO_TO_64
    ensures 0 - TWO_TO_63 <= r < TWO_TO_63 && (r == x || r == x - TWO_TO_64)
  {
    if x < TWO_TO_63 then x else x - TWO_TO_64
  }

  // ---------------------------------------------------------------- encoding

  /** Seven bits a byte, least significant first, the top bit set on all but the last. */
  function Encode(v: nat): (b: Bytes)
    ensures b != []
  {
    if v < 128 then [v] else [v % 128 + 128] + Encode(v / 128)
  }

  /** math/bits.Len64: the number of bits of x. */
  function Len64(x: nat): nat {
    if x == 0 then 0 else 1 + Len64(x / 2)
  }

  /** The length of a varint, computed from its number of bits; x|1 sets the lowest bit. */
  function SovWire(x: nat): nat {
    var odd := if x % 2 == 0 then x + 1 else x;
    (Len64(odd) + 6) / 7
  }

  lemma Len64Half(x: nat, y: nat)
    requires x >= 1 && y == x / 2
    ensures Len64(x) == 1 + Len64(y)
  {
  }

  lemma Len64Of128(x: nat)
    requires x >= 128
    ensures Len64(x) == 7 + Len64(x / 128)
  {
    Len64Half(x, x / 2);
    Len64Half(x / 2, x / 4);
    Len64Half(x / 4, x / 8);
    Len64Half(x / 8, x / 16);
    Len64Half(x / 16, x / 32);
    Len64Half(x / 32, x / 64);
    Len64Half(x / 64, x / 128);
  }

  function Pow2(n: nat): nat { if n == 0 then 1 else 2 * Pow2(n - 1) }

  lemma {:induction false} Len64Below(x: nat, n: nat)
    requires x < Pow2(n)
    ensures Len64(x) <= n
    decreases n
  {
    if x > 0 {
      Len64Below(x / 2, n - 1);
    }
  }

  lemma SmallLen64(x: nat)
    requires 1 <= x < 128
    ensures 1 <= Len64(x) <= 7
  {
    assert Pow2(4) == 16;
    assert Pow2(7) == 128;
    Len64Below(x, 7);
  }

  /** The computed length is the length. */
  lemma {:induction false} SovWireIsLength(v: nat)
    ensures SovWire(v) == |Encode(v)|
    decreases v
  {
    if v < 128 {
      SmallLen64(if v % 2 == 0 then v + 1 else v);
    } else {
      SovWireIsLength(v / 128);
      Len64Of128(if v % 2 == 0 then v + 1 else v);
      var odd := if v % 2 == 0 then v + 1 else v;
      OddHalves(v);
    }
  }

  /** Setting the lowest bit does not reach the bits above it. */
  lemma OddHalves(v: nat)
    requires v >= 128
    ensures var odd := if v % 2 == 0 then v + 1 else v;
            var high := if v / 128 % 2 == 0 then v / 128 + 1 else v / 128;
            odd / 128 == v / 128 && Len64(v / 128) == Len64(high)
  {
    var h := v / 128;
    if h % 2 == 0 {
      assert Len64(h) == 1 + Len64(h / 2) && Len64(h + 1) == 1 + Len64((h + 1) / 2);
    }
  }

  /** The bytes s stand in the buffer just before the offset; nothing else has changed. */
  predicate Written(before: Bytes, offset: nat, s: Bytes, after: Bytes) {
    |s| <= offset <= |before| && after == before[..offset - |s|] + s + before[offset..]
  }

  /** Two pieces written one in front of the other. */
  lemma WrittenTwice(before: Bytes, offset: nat, s: Bytes, between: Bytes, t: Bytes, after: Bytes)
    requires Written(before, offset, s, between) && Written(between, offset - |s|, t, after)
    ensures Written(before, offset, t + s, after)
  {
    var i := offset - |s|;
    assert between[..i - |t|] == before[..i - |t|];
    assert between[i..] == s + before[offset..];
  }

  lemma WrittenBetween(before: Bytes, base: nat, offset: nat, after: Bytes)
    requires base <= offset <= |before| == |after|
    requires after[..base] == before[..base] && after[offset..] == before[offset..]
    ensures Written(before, offset, after[base..offset], after)
  {
    assert after == after[..base] + after[base..offset] + after[offset..];
  }

  /** Writes v so that it ends just before the offset, and returns where it begins. */
  method EncodeVarintWire(dAtA: array<byte>, offset: nat, v: nat) returns (base: nat)
    requires v < TWO_TO_64 && SovWire(v) <= offset <= dAtA.Length
    modifies dAtA
    ensures base == offset - |Encode(v)|
    ensures Written(old(dAtA[..]), offset, Encode(v), dAtA[..])
  {
    hide SovWire, Written;
    base := offset - SovWire(v);
    SovWireIsLength(v);
    var at, rest := base, v;
    while rest >= 128
      invariant base <= at < offset && at + |Encode(rest)| == offset
      invariant dAtA[base..at] + Encode(rest) == Encode(v)
      invariant dAtA[..base] == old(dAtA[..base]) && dAtA[offset..] == old(dAtA[offset..])
    {
      ghost var done := dAtA[base..at];
      dAtA[at] := rest % 128 + 128;
      assert dAtA[base..at + 1] == done + [rest % 128 + 128];
      rest, at := rest / 128, at + 1;
    }
    ghost var done := dAtA[base..at];
    dAtA[at] := rest;
    assert dAtA[base..offset] == done + [rest];
    WrittenBetween(old(dAtA[..]), base, offset, dAtA[..]);
  }

  // ---------------------------------------------------------------- decoding

  /** The bits a byte adds after k others: seven, but of the tenth byte only the lowest fits into 64 bits. */
  function Low(x: byte, k: nat): nat {
    if k == 9 then x % 2 else if x < 128 then x else x - 128
  }

  /** The value of a varint of which k bytes have been read before index i, and the index behind it.
      Reading stops with an error past ten bytes. */
  function Decode(b: Bytes, i: nat, k: nat): (r: Result<(nat, nat)>)
    requires k <= 10
    ensures r.Ok? ==> i < r.value.1 <= |b| && r.value.1 <= i + 10 - k
    decreases 10 - k
  {
    if k == 10 then Err(IntOverflow)
    else if i >= |b| then Err(UnexpectedEOF)
    else
      var low := Low(b[i], k);
      if b[i] < 128 then Ok((low, i + 1))
      else
        match Decode(b, i + 1, k + 1)
        case Err(e) => Err(e)
        case Ok((v, next)) => Ok((low + 128 * v, next))
  }

  /** What fits into the bytes after the k-th. */
  function Capacity(k: nat): nat
    requires k <= 9
    decreases 9 - k
  {
    if k == 9 then 2 else 128 * Capacity(k + 1)
  }

  lemma {:induction false} CapacityLarge(k: nat)
    requires k < 9
    ensures Capacity(k) >= 128
    decreases 9 - k
  {
    if k < 8 {
      CapacityLarge(k + 1);
    }
  }

  lemma CapacityOf64()
    ensures Capacity(0) == TWO_TO_64
  {
    assert Capacity(7) == 0x8000;
    assert Capacity(5) == 0x2000_0000;
    assert Capacity(3) == 0x800_0000_0000;
    assert Capacity(1) == 0x200_0000_0000_0000;
  }

  lemma {:induction false} DecodeInRange(b: Bytes, i: nat, k: nat)
    requires k <= 9 && Decode(b, i, k).Ok?
    ensures Decode(b, i, k).value.0 < Capacity(k)
    decreases 9 - k
  {
    var v := Decode(b, i, k).value.0;
    if k == 9 {
      assert Decode(b, i + 1, 10) == Err(IntOverflow);
      assert v == Low(b[i], 9);
    } else if b[i] >= 128 {
      DecodeInRange(b, i + 1, k + 1);
      assert v == Low(b[i], k) + 128 * Decode(b, i + 1, k + 1).value.0;
    } else {
      CapacityLarge(k);
    }
  }

  /** Every varint that is read is a 64-bit number. */
  lemma DecodeIsUint64(b: Bytes, i: nat)
    requires Decode(b, i, 0).Ok?
    ensures Decode(b, i, 0).value.0 < TWO_TO_64
  {
    CapacityOf64();
    DecodeInRange(b, i, 0);
  }

  // ---------------------------------------------------------------- what a varint is

  /** v >> (7 * j). */
  function Shr(v: nat, j: nat): nat
    decreases j
  {
    if j == 0 then v else Shr(v / 128, j - 1)
  }

  /** An encoding is the shortest one: its j-th byte holds the j-th seven bits, all bytes but the last have the top
      bit set, no bits are left behind the last byte, and some are left behind the last but one. */
  lemma {:induction false} EncodedBits(v: nat)
    ensures var s := Encode(v);
            && Shr(v, |s|) == 0 && (|s| > 1 ==> Shr(v, |s| - 1) != 0)
            && (forall j :: 0 <= j < |s| ==>
                  s[j] == if j < |s| - 1 then Shr(v, j) % 128 + 128 else Shr(v, j) % 128)
    decreases v
  {
    if v >= 128 {
      EncodedBits(v / 128);
      var s, rest := Encode(v), Encode(v / 128);
      forall j | 0 < j < |s|
        ensures s[j] == rest[j - 1] && Shr(v, j) == Shr(v / 128, j - 1)
      {
      }
    }
  }

  lemma LowIs(x: byte, k: nat)
    ensures Low(x, k) == x % if k == 9 then 2 else 128
  {
  }

  lemma LastSevenBits(low: nat, rest: nat)
    requires low < 128
    ensures (low + 128 * rest) / 128 == rest && (low + 128 * rest) % 128 == low
  {
  }

  /** What is read ends at the first byte with a clear top bit, the tenth at the latest, and has no bits left there. */
  lemma {:induction false} DecodedLength(b: Bytes, i: nat, k: nat)
    requires k <= 9 && Decode(b, i, k).Ok?
    ensures var (v, next) := Decode(b, i, k).value;
            && i < next <= |b| && next <= i + 10 - k && b[next - 1] < 128
            && (forall j :: i <= j < next - 1 ==> b[j] >= 128)
            && Shr(v, next - i) == 0
    decreases 10 - k
  {
    hide Low;
    LowIs(b[i], k);
    if b[i] >= 128 {
      assert Decode(b, i + 1, k + 1).Ok?;
      assert Decode(b, i + 1, 10).Err?;
      DecodedLength(b, i + 1, k + 1);
      LastSevenBits(Low(b[i], k), Decode(b, i + 1, k + 1).value.0);
    } else {
      assert Decode(b, i, k).value == (Low(b[i], k), i + 1);
    }
  }

  /** Its j-th byte holds the j-th seven bits of the value; the tenth byte holds the last bit. */
  lemma {:induction false} DecodedBits(b: Bytes, i: nat, k: nat, j: nat)
    requires k <= 9 && Decode(b, i, k).Ok? && i + j < Decode(b, i, k).value.1
    ensures Shr(Decode(b, i, k).value.0, j) % 128 == b[i + j] % if k + j == 9 then 2 else 128
    decreases 10 - k
  {
    hide Low;
    LowIs(b[i], k);
    if b[i] >= 128 {
      assert Decode(b, i + 1, k + 1).Ok?;
      assert Decode(b, i + 1, 10).Err?;
      LastSevenBits(Low(b[i], k), Decode(b, i + 1, k + 1).value.0);
      if j > 0 {
        DecodedBits(b, i + 1, k + 1, j - 1);
      }
    } else {
      assert Decode(b, i, k).value == (Low(b[i], k), i + 1);
    }
  }

  /** Reading fails in two ways only: ten bytes with the top bit set, or fewer of them and nothing behind. */
  lemma DecodeFails(b: Bytes, i: nat)
    requires i <= |b|
    ensures Decode(b, i, 0) == Err(IntOverflow) <==> i + 10 <= |b| && forall j :: i <= j < i + 10 ==> b[j] >= 128
    ensures Decode(b, i, 0) == Err(UnexpectedEOF) <==> |b| < i + 10 && forall j :: i <= j < |b| ==> b[j] >= 128
    ensures Decode(b, i, 0).Err? ==> Decode(b, i, 0).error in {IntOverflow, UnexpectedEOF}
  {
    FailsFrom(b, i, 0);
  }

  lemma {:induction false} FailsFrom(b: Bytes, i: nat, k: nat)
    requires k <= 10 && i <= |b|
    ensures var r := Decode(b, i, k);
            && (r == Err(IntOverflow) <==> i + 10 - k <= |b| && forall j :: i <= j < i + 10 - k ==> b[j] >= 128)
            && (r == Err(UnexpectedEOF) <==> |b| < i + 10 - k && forall j :: i <= j < |b| ==> b[j] >= 128)
            && (r.Err? ==> r.error == IntOverflow || r.error == UnexpectedEOF)
    decreases 10 - k
  {
    if k < 10 && i < |b| && b[i] >= 128 {
      FailsFrom(b, i + 1, k + 1);
    }
  }

  // ---------------------------------------------------------------- round trip

  /** The bytes s stand in b at index i. */
  predicate At(b: Bytes, i: nat, s: Bytes) {
    i + |s| <= |b| && forall k :: 0 <= k < |s| ==> b[i + k] == s[k]
  }

  lemma AtConcat(b: Bytes, i: nat, x: Bytes, y: Bytes)
    requires At(b, i, x + y)
    ensures At(b, i, x) && At(b, i + |x|, y)
  {
    assert forall k :: 0 <= k < |x| ==> (x + y)[k] == x[k];
    assert forall k :: 0 <= k < |y| ==> (x + y)[|x| + k] == y[k];
  }

  /** Decoding an encoded number gives it back and takes exactly its bytes, wherever they stand. */
  lemma {:induction false} DecodeEncoded(b: Bytes, i: nat, v: nat, k: nat)
    requires k <= 9 && v < Capacity(k) && At(b, i, Encode(v))
    ensures Decode(b, i, k) == Ok((v, i + |Encode(v)|))
    decreases v
  {
    if v >= 128 {
      AtConcat(b, i, [v % 128 + 128], Encode(v / 128));
      assert b[i + 0] == Encode(v)[0];
      DecodeEncoded(b, i + 1, v / 128, k + 1);
    } else {
      assert b[i + 0] == Encode(v)[0];
    }
  }

  /** Every 64-bit number survives. */
  lemma DecodeUint64(b: Bytes, i: nat, v: nat)
    requires v < TWO_TO_64 && At(b, i, Encode(v))
    ensures Decode(b, i, 0) == Ok((v, i + |Encode(v)|))
  {
    CapacityOf64();
    DecodeEncoded(b, i, v, 0);
  }

  /** The same bytes read the same in another buffer: the bytes behind the varint do not matter. */
  lemma {:induction false} DecodeMoved(b: Bytes, i: nat, c: Bytes, j: nat, k: nat)
    requires k <= 10 && Decode(b, i, k).Ok? && At(c, j, b[i..Decode(b, i, k).value.1])
    ensures Decode(c, j, k) == Ok((Decode(b, i, k).value.0, j + Decode(b, i, k).value.1 - i))
    decreases 10 - k
  {
    var next := Decode(b, i, k).value.1;
    assert c[j + 0] == b[i..next][0];
    if b[i] >= 128 {
      assert b[i..next] == [b[i]] + b[i + 1..next];
      AtConcat(c, j, [b[i]], b[i + 1..next]);
      DecodeMoved(b, i + 1, c, j + 1, k + 1);
    }
  }

  /** x << (7 * k), before anything is lost at the top. */
  function Shifted(x: nat, k: nat): nat {
    if k == 0 then x else 128 * Shifted(x, k - 1)
  }

  lemma {:induction false} ShiftedSum(low: nat, v: nat, k: nat)
    ensures Shifted(low + 128 * v, k) == Shifted(low, k) + Shifted(v, k + 1)
  {
    if k > 0 {
      ShiftedSum(low, v, k - 1);
    }
  }

  /** The whole varint, when k bytes of value `value` have been read before the rest. */
  function Resume(value: nat, k: nat, rest: Result<(nat, nat)>): Result<(nat, nat)> {
    match rest
    case Err(e) => Err(e)
    case Ok((v, next)) => Ok((value + Shifted(v, k), next))
  }

  lemma ResumeStep(b: Bytes, i: nat, k: nat, value: nat)
    requires k < 10 && i < |b|
    ensures Resume(value, k, Decode(b, i, k))
         == if b[i] < 128 then Ok((value + Shifted(Low(b[i], k), k), i + 1))
            else Resume(value + Shifted(Low(b[i], k), k), k + 1, Decode(b, i + 1, k + 1))
  {
    var tail := Decode(b, i + 1, k + 1);
    if b[i] >= 128 && tail.Ok? {
      ShiftedSum(Low(b[i], k), tail.value.0, k);
    }
    hide Shifted, Low;
  }

  lemma ResumeEnds(b: Bytes, start: nat)
    ensures Decode(b, start, 0) == Resume(0, 0, Decode(b, start, 0))
    ensures forall i: nat :: Decode(b, i, 10) == Err(IntOverflow)
    ensures forall i: nat, k: nat :: i >= |b| && k < 10 ==> Decode(b, i, k) == Err(UnexpectedEOF)
  {
  }

  /** The reading loop: ten bytes at most, none beyond the buffer. Returns the value and the next index. */
  method ReadVarint(dAtA: Bytes, start: nat) returns (r: Result<(nat, nat)>)
    requires start <= |dAtA|
    ensures r == Decode(dAtA, start, 0)
  {
    ResumeEnds(dAtA, start);
    hide Decode, Shifted, Low;
    var value: nat, i: nat, k: nat := 0, start, 0;
    while true
      invariant k <= 10 && i == start + k <= |dAtA|
      invariant Decode(dAtA, start, 0) == Resume(value, k, Decode(dAtA, i, k))
      decreases 10 - k
    {
      if k == 10 {
        return Err(IntOverflow);
      }
      if i >= |dAtA| {
        return Err(UnexpectedEOF);
      }
      ResumeStep(dAtA, i, k, value);
      var b := dAtA[i];
      var low := Low(b, k);
      if b < 128 {
        value := value + Shifted(low, k);
        return Ok((value, i + 1));
      }
      value, i, k := value + Shifted(low, k), i + 1, k + 1;
    }
  }
}
