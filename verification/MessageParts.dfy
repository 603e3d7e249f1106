/** Optional and repeated fields: their sizes, how they are written backwards, and how they are merged. */
module MessageParts {
  import opened Ordering
  import opened Varint
  import opened WireFields
  import opened WireEncoding

  // ---------------------------------------------------------------- fields of messages

  /** A repeated field: one entry for each element. */
  function Repeated(num: int, list: seq<Bytes>): (fs: seq<Field>)
    ensures |fs| == |list|
  {
    seq(|list|, k requires 0 <= k < |list| => BytesField(num, list[k]))
  }

  /** A number is left out if it is zero, a string if it is empty. */
  function OptionalNumber(num: int, value: nat): seq<Field> {
    if value == 0 then [] else [NumberField(num, value)]
  }

  function OptionalBytes(num: int, data: Bytes): seq<Field> {
    if data == [] then [] else [BytesField(num, data)]
  }

  function CollectedHere(f: Field, num: int): seq<Bytes> {
    if f.BytesField? && f.num == num then [f.data] else []
  }

  /** The data of the entries with this number, in order. */
  function Collected(fs: seq<Field>, num: int): seq<Bytes> {
    if fs == [] then []
    else CollectedHere(fs[0], num) + Collected(fs[1..], num)
  }

  /** The last entry with this number counts. */
  function LastNumber(fs: seq<Field>, num: int, before: nat): nat {
    if fs == [] then before
    else if fs[|fs| - 1].NumberField? && fs[|fs| - 1].num == num then fs[|fs| - 1].value
    else LastNumber(fs[..|fs| - 1], num, before)
  }

  function LastBytes(fs: seq<Field>, num: int, before: Bytes): Bytes {
    if fs == [] then before
    else if fs[|fs| - 1].BytesField? && fs[|fs| - 1].num == num then fs[|fs| - 1].data
    else LastBytes(fs[..|fs| - 1], num, before)
  }

  lemma {:induction false} CollectedConcat(xs: seq<Field>, ys: seq<Field>, num: int)
    ensures Collected(xs + ys, num) == Collected(xs, num) + Collected(ys, num)
  {
    hide CollectedHere;
    if xs == [] {
      assert xs + ys == ys;
    } else {
      CollectedConcat(xs[1..], ys, num);
      assert (xs + ys)[1..] == xs[1..] + ys;
      Associative(CollectedHere(xs[0], num), Collected(xs[1..], num), Collected(ys, num));
    }
  }

  lemma {:induction false} LastNumberConcat(xs: seq<Field>, ys: seq<Field>, num: int, before: nat)
    ensures LastNumber(xs + ys, num, before) == LastNumber(ys, num, LastNumber(xs, num, before))
    decreases |ys|
  {
    if ys == [] {
      assert xs + ys == xs;
    } else {
      assert (xs + ys)[..|xs + ys| - 1] == xs + ys[..|ys| - 1];
      LastNumberConcat(xs, ys[..|ys| - 1], num, before);
    }
  }

  lemma {:induction false} LastBytesConcat(xs: seq<Field>, ys: seq<Field>, num: int, before: Bytes)
    ensures LastBytes(xs + ys, num, before) == LastBytes(ys, num, LastBytes(xs, num, before))
    decreases |ys|
  {
    if ys == [] {
      assert xs + ys == xs;
    } else {
      assert (xs + ys)[..|xs + ys| - 1] == xs + ys[..|ys| - 1];
      LastBytesConcat(xs, ys[..|ys| - 1], num, before);
    }
  }

  /** The entries of a repeated field come back in order, and under no other number. */
  lemma {:induction false} RepeatedCollected(num: int, list: seq<Bytes>, other: int)
    ensures Collected(Repeated(num, list), other) == if other == num then list else []
    decreases |list|
  {
    if list != [] {
      RepeatedCollected(num, list[1..], other);
      assert Repeated(num, list)[1..] == Repeated(num, list[1..]);
    }
  }

  lemma {:induction false} RepeatedHasNoNumber(num: int, list: seq<Bytes>, other: int, before: nat)
    ensures LastNumber(Repeated(num, list), other, before) == before
    decreases |list|
  {
    if list != [] {
      RepeatedHasNoNumber(num, list[..|list| - 1], other, before);
      assert Repeated(num, list)[..|list| - 1] == Repeated(num, list[..|list| - 1]);
    }
  }

  /** What stands on the wire for a list: key, length and data of each element. */
  function Delimited(key: byte, list: seq<Bytes>): Bytes {
    if list == [] then [] else [key] + Encode(|list[0]|) + list[0] + Delimited(key, list[1..])
  }

  lemma {:induction false} RepeatedBytes(num: nat, list: seq<Bytes>)
    requires AllWritable(Repeated(num, list)) && num < 16
    ensures EncodeFields(Repeated(num, list)) == Delimited(num * 8 + 2, list)
    decreases |list|
  {
    hide Encode;
    if list != [] {
      var fs := Repeated(num, list);
      assert fs[1..] == Repeated(num, list[1..]);
      RepeatedBytes(num, list[1..]);
      assert Writable(fs[0]);
      assert EncodeField(fs[0]) == [num * 8 + 2] + (Encode(|list[0]|) + list[0]);
    }
  }

  predicate FitsInt(list: seq<Bytes>) {
    forall k :: 0 <= k < |list| ==> |list[k]| < TWO_TO_63
  }

  // ---------------------------------------------------------------- sizes and writing

  /** The bytes of a repeated field. */
  method RepeatedSize(num: nat, list: seq<Bytes>) returns (n: nat)
    requires AllWritable(Repeated(num, list))
    ensures n == |EncodeFields(Repeated(num, list))|
  {
    n := 0;
    ghost var fs := Repeated(num, list);
    assert fs[..0] == [];
    for k := 0 to |list|
      invariant n == |EncodeFields(fs[..k])|
    {
      n := n + 1 + |list[k]| + SovWire(|list[k]|);
      FieldLength(fs[k]);
      OneMoreField(fs, k);
    }
    assert fs[..|list|] == fs;
  }

  lemma OneMoreField(fs: seq<Field>, k: nat)
    requires AllWritable(fs) && k < |fs|
    ensures EncodeFields(fs[..k + 1]) == EncodeFields(fs[..k]) + EncodeField(fs[k])
  {
    hide EncodeField;
    assert fs[..k + 1] == fs[..k] + [fs[k]];
    EncodeFieldsConcat(fs[..k], [fs[k]]);
    assert EncodeFields([fs[k]]) == EncodeField(fs[k]);
  }

  method OptionalNumberSize(num: nat, value: nat) returns (n: nat)
    requires AllWritable(OptionalNumber(num, value))
    ensures n == |EncodeFields(OptionalNumber(num, value))|
  {
    n := 0;
    if value != 0 {
      n := 1 + SovWire(value);
      assert AllWritable([NumberField(num, value)]);
      assert Writable([NumberField(num, value)][0]);
      FieldLength(NumberField(num, value));
    }
  }

  method OptionalBytesSize(num: nat, data: Bytes) returns (n: nat)
    requires AllWritable(OptionalBytes(num, data))
    ensures n == |EncodeFields(OptionalBytes(num, data))|
  {
    n := 0;
    if |data| > 0 {
      n := 1 + |data| + SovWire(|data|);
      assert Writable([BytesField(num, data)][0]);
      FieldLength(BytesField(num, data));
    }
  }

  /** Writes a repeated field, the last element first, so that it ends just before the offset. */
  method PutRepeated(dAtA: array<byte>, offset: nat, num: nat, list: seq<Bytes>) returns (i: nat)
    requires AllWritable(Repeated(num, list)) && |EncodeFields(Repeated(num, list))| <= offset <= dAtA.Length
    modifies dAtA
    ensures i == offset - |EncodeFields(Repeated(num, list))|
    ensures Written(old(dAtA[..]), offset, EncodeFields(Repeated(num, list)), dAtA[..])
  {
    hide EncodeField, Written;
    ghost var fs := Repeated(num, list);
    i := offset;
    var k := |list|;
    assert fs[k..] == [] && fs[0..] == fs;
    NothingWritten(dAtA[..], offset);
    while k > 0
      invariant k <= |list| && i == offset - |EncodeFields(fs[k..])|
      invariant Written(old(dAtA[..]), offset, EncodeFields(fs[k..]), dAtA[..])
    {
      k := k - 1;
      SuffixFits(fs, k);
      ghost var before := dAtA[..];
      assert fs[k..][1..] == fs[k + 1..];
      i := PutBytes(dAtA, i, num, list[k]);
      WrittenTwice(old(dAtA[..]), offset, EncodeFields(fs[k + 1..]), before, EncodeField(fs[k]), dAtA[..]);
    }
  }

  lemma NothingWritten(before: Bytes, offset: nat)
    requires offset <= |before|
    ensures Written(before, offset, [], before)
  {
  }

  lemma SuffixFits(fs: seq<Field>, k: nat)
    requires AllWritable(fs) && k <= |fs|
    ensures |EncodeFields(fs[k..])| <= |EncodeFields(fs)|
    ensures k < |fs| ==> EncodeFields(fs[k..]) == EncodeField(fs[k]) + EncodeFields(fs[k..][1..])
  {
    hide EncodeField;
    assert fs == fs[..k] + fs[k..];
    EncodeFieldsConcat(fs[..k], fs[k..]);
  }

  method PutOptionalNumber(dAtA: array<byte>, offset: nat, num: nat, value: nat) returns (i: nat)
    requires AllWritable(OptionalNumber(num, value))
    requires |EncodeFields(OptionalNumber(num, value))| <= offset <= dAtA.Length
    modifies dAtA
    ensures i == offset - |EncodeFields(OptionalNumber(num, value))|
    ensures Written(old(dAtA[..]), offset, EncodeFields(OptionalNumber(num, value)), dAtA[..])
  {
    hide EncodeField, Written;
    i := offset;
    NothingWritten(dAtA[..], offset);
    if value != 0 {
      assert Writable([NumberField(num, value)][0]);
      assert EncodeFields([NumberField(num, value)]) == EncodeField(NumberField(num, value));
      i := PutNumber(dAtA, i, num, value);
    }
  }

  method PutOptionalBytes(dAtA: array<byte>, offset: nat, num: nat, data: Bytes) returns (i: nat)
    requires AllWritable(OptionalBytes(num, data))
    requires |EncodeFields(OptionalBytes(num, data))| <= offset <= dAtA.Length
    modifies dAtA
    ensures i == offset - |EncodeFields(OptionalBytes(num, data))|
    ensures Written(old(dAtA[..]), offset, EncodeFields(OptionalBytes(num, data)), dAtA[..])
  {
    hide EncodeField, Written;
    i := offset;
    NothingWritten(dAtA[..], offset);
    if |data| > 0 {
      assert Writable([BytesField(num, data)][0]);
      assert EncodeFields([BytesField(num, data)]) == EncodeField(BytesField(num, data));
      i := PutBytes(dAtA, i, num, data);
    }
  }

  lemma WrittenThrice(before: Bytes, c: Bytes, one: Bytes, b: Bytes, two: Bytes, a: Bytes, after: Bytes)
    requires Written(before, |before|, c, one) && Written(one, |before| - |c|, b, two)
    requires |b| + |c| <= |before| && Written(two, |before| - |c| - |b|, a, after)
    ensures Written(before, |before|, a + (b + c), after)
  {
    hide Written;
    WrittenTwice(before, |before|, c, one, b, two);
    WrittenTwice(before, |before|, b + c, two, a, after);
  }

  lemma PartsWritable(xs: seq<Field>, ys: seq<Field>)
    requires AllWritable(xs + ys)
    ensures AllWritable(xs) && AllWritable(ys)
  {
    forall k | 0 <= k < |xs| ensures Writable(xs[k]) {
      assert (xs + ys)[k] == xs[k];
    }
    forall k | 0 <= k < |ys| ensures Writable(ys[k]) {
      assert (xs + ys)[|xs| + k] == ys[k];
    }
  }
}
