/** Writing fields backwards into a buffer, and reading back what was written. */
module WireEncoding {
  import opened Common
  import opened Ordering
  import opened Varint
  import opened SkipWire
  import opened WireFields

  /** A field whose key is one byte and whose value fits the wire format. */
  predicate Writable(f: Field) {
    1 <= f.num < 16
    && match f
       case NumberField(_, value) => value < TWO_TO_64
       case BytesField(_, data) => |data| < TWO_TO_63
  }

  predicate AllWritable(fs: seq<Field>) {
    forall k :: 0 <= k < |fs| ==> Writable(fs[k])
  }

  /** The field in its shortest spelling. */
  function Canonical(f: Field): Raw
    requires Writable(f)
  {
    match f
    case NumberField(num, value) => RawVarint([num * 8], Encode(value))
    case BytesField(num, data) => RawBytes([num * 8 + 2], Encode(|data|), data)
  }

  function EncodeField(f: Field): Bytes
    requires Writable(f)
  {
    Spell(Canonical(f))
  }

  function EncodeFields(fs: seq<Field>): Bytes
    requires AllWritable(fs)
  {
    if fs == [] then [] else EncodeField(fs[0]) + EncodeFields(fs[1..])
  }

  lemma {:induction false} EncodeFieldsConcat(xs: seq<Field>, ys: seq<Field>)
    requires AllWritable(xs) && AllWritable(ys)
    ensures AllWritable(xs + ys) && EncodeFields(xs + ys) == EncodeFields(xs) + EncodeFields(ys)
  {
    hide EncodeField;
    if xs == [] {
      assert xs + ys == ys;
    } else {
      EncodeFieldsConcat(xs[1..], ys);
      assert (xs + ys)[1..] == xs[1..] + ys;
      assert xs + ys == [xs[0]] + (xs[1..] + ys);
    }
  }

  /** The length of a field as it is computed from its value. */
  lemma FieldLength(f: Field)
    requires Writable(f)
    ensures f.NumberField? ==> |EncodeField(f)| == 1 + SovWire(f.value)
    ensures f.BytesField? ==> |EncodeField(f)| == 1 + |f.data| + SovWire(|f.data|)
  {
    hide Encode, SovWire;
    SovWireIsLength(if f.NumberField? then f.value else |f.data|);
  }

  // ---------------------------------------------------------------- writing

  /** Writes the key of a field in front of its payload. */
  method PutKey(dAtA: array<byte>, offset: nat, key: byte) returns (i: nat)
    requires 1 <= offset <= dAtA.Length
    modifies dAtA
    ensures i == offset - 1 && Written(old(dAtA[..]), offset, [key], dAtA[..])
  {
    i := offset - 1;
    dAtA[i] := key;
  }

  method CopyBytes(dAtA: array<byte>, offset: nat, data: Bytes) returns (i: nat)
    requires |data| <= offset <= dAtA.Length
    modifies dAtA
    ensures i == offset - |data| && Written(old(dAtA[..]), offset, data, dAtA[..])
  {
    i := offset - |data|;
    forall k | 0 <= k < |data| {
      dAtA[i + k] := data[k];
    }
  }

  /** Writes a length-delimited field so that it ends just before the offset, and returns where it begins. */
  method PutBytes(dAtA: array<byte>, offset: nat, num: nat, data: Bytes) returns (i: nat)
    requires Writable(BytesField(num, data)) && |EncodeField(BytesField(num, data))| <= offset <= dAtA.Length
    modifies dAtA
    ensures i == offset - |EncodeField(BytesField(num, data))|
    ensures Written(old(dAtA[..]), offset, EncodeField(BytesField(num, data)), dAtA[..])
  {
    hide Encode, SovWire, Written;
    FieldLength(BytesField(num, data));
    SovWireIsLength(|data|);
    i := CopyBytes(dAtA, offset, data);
    ghost var one := dAtA[..];
    i := EncodeVarintWire(dAtA, i, |data|);
    ghost var two := dAtA[..];
    i := PutKey(dAtA, i, num * 8 + 2);
    WrittenTwice(old(dAtA[..]), offset, data, one, Encode(|data|), two);
    WrittenTwice(old(dAtA[..]), offset, Encode(|data|) + data, two, [num * 8 + 2], dAtA[..]);
  }

  /** Writes a number so that it ends just before the offset, and returns where it begins. */
  method PutNumber(dAtA: array<byte>, offset: nat, num: nat, value: nat) returns (i: nat)
    requires Writable(NumberField(num, value)) && |EncodeField(NumberField(num, value))| <= offset <= dAtA.Length
    modifies dAtA
    ensures i == offset - |EncodeField(NumberField(num, value))|
    ensures Written(old(dAtA[..]), offset, EncodeField(NumberField(num, value)), dAtA[..])
  {
    hide Encode, SovWire, Written;
    FieldLength(NumberField(num, value));
    SovWireIsLength(value);
    i := EncodeVarintWire(dAtA, offset, value);
    ghost var one := dAtA[..];
    i := PutKey(dAtA, i, num * 8);
    WrittenTwice(old(dAtA[..]), offset, Encode(value), one, [num * 8], dAtA[..]);
  }

  // ---------------------------------------------------------------- reading back

  predicate AllKnownTo(fs: seq<Field>, schema: Schema) {
    forall k :: 0 <= k < |fs| ==> KnownTo(fs[k], schema)
  }

  lemma SpellsEncoded(v: nat)
    requires v < TWO_TO_64
    ensures Spells(Encode(v), v) && ValueOf(Encode(v)) == v
  {
    hide Encode, Decode;
    DecodeUint64(Encode(v), 0, v);
  }

  lemma KeyByte(num: nat, wireType: nat)
    requires 1 <= num < 16 && wireType < 8
    ensures IsKey([num * 8 + wireType], wireType) && ToInt32(ValueOf([num * 8 + wireType]) / 8) == num
  {
    assert Decode([num * 8 + wireType], 0, 0) == Ok((num * 8 + wireType, 1));
  }

  /** What is written for a field is accepted and means the field. */
  lemma CanonicalMeans(f: Field, schema: Schema)
    requires Writable(f) && KnownTo(f, schema)
    ensures Accepted(Canonical(f), schema) && Meaning(Canonical(f), schema) == Known(f)
  {
    hide Encode, Decode, Spells, ToInt32;
    match f
    case NumberField(num, value) =>
      KeyByte(num, 0);
      SpellsEncoded(value);
    case BytesField(num, data) =>
      KeyByte(num, 2);
      SpellsEncoded(|data|);
  }

  function CanonicalAll(fs: seq<Field>): seq<Raw>
    requires AllWritable(fs)
  {
    if fs == [] then [] else [Canonical(fs[0])] + CanonicalAll(fs[1..])
  }

  lemma {:induction false} CanonicalAllMeans(fs: seq<Field>, schema: Schema)
    requires AllWritable(fs) && AllKnownTo(fs, schema)
    ensures SpellAll(CanonicalAll(fs)) == EncodeFields(fs)
    ensures AllAccepted(CanonicalAll(fs), schema) && MeaningAll(CanonicalAll(fs), schema) == fs
  {
    hide Canonical, Accepted, Meaning, Spell;
    if fs != [] {
      CanonicalMeans(fs[0], schema);
      CanonicalAllMeans(fs[1..], schema);
      assert CanonicalAll(fs)[1..] == CanonicalAll(fs[1..]);
      assert CanonicalAll(fs)[0] == Canonical(fs[0]);
    }
  }

  /** Parsing the written fields gives them back, in order. */
  lemma FieldsRoundTrip(fs: seq<Field>, schema: Schema)
    requires AllWritable(fs) && AllKnownTo(fs, schema) && |EncodeFields(fs)| < TWO_TO_63
    ensures Parse(EncodeFields(fs), 0, schema) == Ok(fs)
  {
    hide Parse, EncodeFields;
    CanonicalAllMeans(fs, schema);
    ParseIsMeaning(EncodeFields(fs), schema, fs);
  }

  // ---------------------------------------------------------------- unknown fields

  lemma Associative<T>(x: seq<T>, y: seq<T>, z: seq<T>)
    ensures x + (y + z) == x + y + z
  {
  }

  lemma {:induction false} AcceptedConcat(xs: seq<Raw>, ys: seq<Raw>, schema: Schema)
    requires AllAccepted(xs, schema) && AllAccepted(ys, schema)
    ensures AllAccepted(xs + ys, schema)
    ensures MeaningAll(xs + ys, schema) == MeaningAll(xs, schema) + MeaningAll(ys, schema)
  {
    hide Accepted, Meaning, FieldsIn;
    if xs == [] {
      assert xs + ys == ys;
    } else {
      AcceptedConcat(xs[1..], ys, schema);
      assert (xs + ys)[1..] == xs[1..] + ys;
      assert (xs + ys)[0] == xs[0];
      Associative(FieldsIn(Meaning(xs[0], schema)), MeaningAll(xs[1..], schema), MeaningAll(ys, schema));
    }
  }

  predicate AllUnknown(us: seq<Raw>, schema: Schema) {
    forall k :: 0 <= k < |us| ==> NumOf(us[k]) !in schema
  }

  lemma {:induction false} UnknownsMeanNothing(us: seq<Raw>, schema: Schema)
    requires AllAccepted(us, schema) && AllUnknown(us, schema)
    ensures MeaningAll(us, schema) == []
  {
    if us != [] {
      UnknownsMeanNothing(us[1..], schema);
    }
  }

  /** Well-formed fields and groups with unknown numbers may stand between any two fields of an accepted message:
      the parsed message is the same. */
  lemma UnknownFieldsAreTransparent(xs: seq<Raw>, us: seq<Raw>, ys: seq<Raw>, schema: Schema)
    requires AllAccepted(xs, schema) && AllAccepted(us, schema) && AllAccepted(ys, schema) && AllUnknown(us, schema)
    requires |SpellAll(xs + us + ys)| < TWO_TO_63 && |SpellAll(xs + ys)| < TWO_TO_63
    ensures Parse(SpellAll(xs + us + ys), 0, schema) == Parse(SpellAll(xs + ys), 0, schema)
    ensures Parse(SpellAll(xs + ys), 0, schema) == Ok(MeaningAll(xs, schema) + MeaningAll(ys, schema))
  {
    hide Parse, SpellAll, AllAccepted, MeaningAll;
    UnknownsMeanNothing(us, schema);
    AcceptedConcat(xs, us, schema);
    AcceptedConcat(xs + us, ys, schema);
    AcceptedConcat(xs, ys, schema);
    assert MeaningAll(xs, schema) + [] == MeaningAll(xs, schema);
    AcceptedParsed(SpellAll(xs + us + ys), 0, xs + us + ys, schema);
    AcceptedParsed(SpellAll(xs + ys), 0, xs + ys, schema);
  }
}
