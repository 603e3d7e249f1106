/** Parsing a protobuf message: which byte strings are accepted, and what fields they carry. */
module WireFields {
  import opened Common
  import opened Ordering
  import opened Varint
  import opened SkipWire

  const TWO_TO_31: nat := 0x8000_0000
  const TWO_TO_32: nat := 0x1_0000_0000

  /** A field is a number, a byte string, or a nested message, of which only is known whether it can be parsed. */
  datatype Kind = NumberKind | BytesKind | MessageKind(accepts: Bytes -> bool)

  /** The fields a message knows. */
  type Schema = map<int, Kind>

  datatype Field = NumberField(num: int, value: nat) | BytesField(num: int, data: Bytes)

  datatype Item = Known(field: Field) | Unknown

  /** The signed 32-bit number with the low bits of x. */
  function ToInt32(x: nat): int {
    if x % TWO_TO_32 < TWO_TO_31 then x % TWO_TO_32 else x % TWO_TO_32 - TWO_TO_32
  }

  /** It is the only number in range that differs from x by a multiple of 2^32. */
  lemma ToInt32Is(x: nat, r: int, q: int)
    requires x == r + q * TWO_TO_32 && 0 - TWO_TO_31 <= r < TWO_TO_31
    ensures ToInt32(x) == r
  {
    var low := if r >= 0 then r else r + TWO_TO_32;
    assert x == low + (if r >= 0 then q else q - 1) * TWO_TO_32;
    assert x % TWO_TO_32 == low;
  }

  // ---------------------------------------------------------------- one field

  /** A varint as the value of a field, and the index behind it. */
  function ReadNumber(b: Bytes, i: nat, num: int): (r: Result<(Item, nat)>)
    requires i <= |b| < TWO_TO_63
    ensures r.Ok? ==> i < r.value.1 <= |b|
  {
    match Decode(b, i, 0)
    case Err(e) => Err(e)
    case Ok((v, next)) => Ok((Known(NumberField(num, v)), next))
  }

  /** A length and as many bytes, and the index behind them. */
  function ReadBytes(b: Bytes, i: nat, num: int): (r: Result<(Item, nat)>)
    requires i <= |b| < TWO_TO_63
    ensures r.Ok? ==> i < r.value.1 <= |b|
  {
    match Decode(b, i, 0)
    case Err(e) => Err(e)
    case Ok((length, next)) =>
      DecodeIsUint64(b, i);
      if ToInt64(length) < 0 then Err(InvalidLength)
      else if ToInt64(next + length) < 0 then Err(InvalidLength)
      else if next + length > |b| then Err(UnexpectedEOF)
      else Ok((Known(BytesField(num, b[next..next + length])), next + length))
  }

  /** A byte string that must be a nested message. */
  function ReadMessage(b: Bytes, i: nat, num: int, accepts: Bytes -> bool): (r: Result<(Item, nat)>)
    requires i <= |b| < TWO_TO_63
    ensures r.Ok? ==> i < r.value.1 <= |b|
  {
    var field := ReadBytes(b, i, num);
    if field.Ok? && field.value.0.Known? && field.value.0.field.BytesField? && !accepts(field.value.0.field.data)
    then Err(NestedError) else field
  }

  /** A field that the message does not know. */
  function ReadUnknown(b: Bytes, i: nat): (r: Result<(Item, nat)>)
    requires i < |b| < TWO_TO_63
    ensures r.Ok? ==> i < r.value.1 <= |b|
  {
    match SkipFrom(b[i..], 0, 0)
    case Err(e) => Err(e)
    case Ok(n) =>
      if ToInt64(i + n) < 0 then Err(InvalidLength)
      else if i + n > |b| then Err(UnexpectedEOF)
      else Ok((Unknown, i + n))
  }

  /** What stands at index i, given the key that ends at `next`. */
  function ReadPayload(b: Bytes, i: nat, wire: nat, next: nat, schema: Schema): (r: Result<(Item, nat)>)
    requires i < next <= |b| < TWO_TO_63
    ensures r.Ok? ==> i < r.value.1 <= |b|
  {
    var num := ToInt32(wire / 8);
    if wire % 8 == 4 then Err(EndGroup)
    else if num <= 0 then Err(IllegalTag)
    else if num !in schema then ReadUnknown(b, i)
    else if schema[num].NumberKind? then
      if wire % 8 != 0 then Err(WrongWireType) else ReadNumber(b, next, num)
    else
      if wire % 8 != 2 then Err(WrongWireType)
      else
        match schema[num]
        case MessageKind(accepts) => ReadMessage(b, next, num, accepts)
        case _ => ReadBytes(b, next, num)
  }

  function ReadField(b: Bytes, i: nat, schema: Schema): (r: Result<(Item, nat)>)
    requires i < |b| < TWO_TO_63
    ensures r.Ok? ==> i < r.value.1 <= |b|
  {
    match Decode(b, i, 0)
    case Err(e) => Err(e)
    case Ok((wire, next)) => ReadPayload(b, i, wire, next, schema)
  }

  function FieldsIn(item: Item): seq<Field> {
    match item
    case Known(f) => [f]
    case Unknown => []
  }

  /** The known fields from index i to the end of the buffer. */
  function Parse(b: Bytes, i: nat, schema: Schema): Result<seq<Field>>
    requires i <= |b| < TWO_TO_63
    decreases |b| - i
  {
    if i == |b| then Ok([])
    else
      match ReadField(b, i, schema)
      case Err(e) => Err(e)
      case Ok((item, next)) =>
        match Parse(b, next, schema)
        case Err(e) => Err(e)
        case Ok(fields) => Ok(FieldsIn(item) + fields)
  }

  /** What is parsed altogether, once `done` has been parsed and the rest is still to come. */
  function After(done: seq<Field>, rest: Result<seq<Field>>): Result<seq<Field>> {
    match rest
    case Err(e) => Err(e)
    case Ok(fields) => Ok(done + fields)
  }

  lemma ParseStep(b: Bytes, i: nat, schema: Schema, done: seq<Field>)
    requires i < |b| < TWO_TO_63
    ensures match ReadField(b, i, schema)
            case Err(e) => After(done, Parse(b, i, schema)) == Err(e)
            case Ok((item, next)) =>
              After(done, Parse(b, i, schema)) == After(done + FieldsIn(item), Parse(b, next, schema))
  {
    hide ReadField, FieldsIn;
    if ReadField(b, i, schema).Ok? {
      var (item, next) := ReadField(b, i, schema).value;
      if Parse(b, next, schema).Ok? {
        var rest := Parse(b, next, schema).value;
        assert done + (FieldsIn(item) + rest) == done + FieldsIn(item) + rest;
      }
    }
  }

  lemma ParseStart(b: Bytes, schema: Schema)
    requires |b| < TWO_TO_63
    ensures Parse(b, 0, schema) == After([], Parse(b, 0, schema))
  {
    if Parse(b, 0, schema).Ok? {
      assert [] + Parse(b, 0, schema).value == Parse(b, 0, schema).value;
    }
  }

  lemma ParseEnd(b: Bytes, schema: Schema)
    requires |b| < TWO_TO_63
    ensures Parse(b, |b|, schema) == Ok([])
  {
  }

  predicate KnownTo(f: Field, schema: Schema) {
    && f.num in schema
    && match schema[f.num] {
         case NumberKind => f.NumberField?
         case BytesKind => f.BytesField?
         case MessageKind(accepts) => f.BytesField? && accepts(f.data)
       }
  }

  method NextField(dAtA: Bytes, i: nat, schema: Schema) returns (r: Result<(Item, nat)>)
    requires i < |dAtA| < TWO_TO_63
    ensures r == ReadField(dAtA, i, schema)
    ensures r.Ok? && r.value.0.Known? ==>
              && KnownTo(r.value.0.field, schema)
              && (r.value.0.field.NumberField? ==> r.value.0.field.value < TWO_TO_64)
  {
    hide Decode, SkipFrom, ToInt32;
    var key := ReadVarint(dAtA, i);
    if key.Err? {
      return Err(key.error);
    }
    var (wire, next) := key.value;
    var fieldNum, wireType := ToInt32(wire / 8), wire % 8;
    if wireType == 4 {
      return Err(EndGroup);
    }
    if fieldNum <= 0 {
      return Err(IllegalTag);
    }
    if fieldNum !in schema {
      var skippy := SkipWire.SkipWire(dAtA[i..]);
      if skippy.Err? {
        return Err(skippy.error);
      }
      if ToInt64(i + skippy.value) < 0 {
        return Err(InvalidLength);
      }
      if i + skippy.value > |dAtA| {
        return Err(UnexpectedEOF);
      }
      return Ok((Unknown, i + skippy.value));
    }
    if wireType != (if schema[fieldNum].NumberKind? then 0 else 2) {
      return Err(WrongWireType);
    }
    var payload := ReadVarint(dAtA, next);
    if payload.Err? {
      return Err(payload.error);
    }
    var (value, start) := payload.value;
    DecodeIsUint64(dAtA, next);
    if schema[fieldNum].NumberKind? {
      return Ok((Known(NumberField(fieldNum, value)), start));
    }
    if ToInt64(value) < 0 || ToInt64(start + value) < 0 {
      return Err(InvalidLength);
    }
    if start + value > |dAtA| {
      return Err(UnexpectedEOF);
    }
    var data := dAtA[start..start + value];
    if schema[fieldNum].MessageKind? && !schema[fieldNum].accepts(data) {
      return Err(NestedError);
    }
    return Ok((Known(BytesField(fieldNum, data)), start + value));
  }

  // ---------------------------------------------------------------- accepted messages

  function NumOf(r: Raw): int {
    ToInt32(ValueOf(r.key) / 8)
  }

  /** A well-formed field that a message with this schema can hold: known fields have their wire type. */
  predicate Accepted(r: Raw, schema: Schema) {
    WellFormed(r) && NumOf(r) > 0
    && (NumOf(r) in schema ==>
          match schema[NumOf(r)] {
            case NumberKind => r.RawVarint?
            case BytesKind => r.RawBytes?
            case MessageKind(accepts) => r.RawBytes? && accepts(r.data)
          })
  }

  predicate AllAccepted(rs: seq<Raw>, schema: Schema) {
    rs == [] || (Accepted(rs[0], schema) && AllAccepted(rs[1..], schema))
  }

  /** What a field means: its number and value, or nothing if the number is unknown. */
  function Meaning(r: Raw, schema: Schema): Item
    requires Accepted(r, schema)
  {
    if NumOf(r) !in schema then Unknown
    else if schema[NumOf(r)].NumberKind? then Known(NumberField(NumOf(r), ValueOf(r.payload)))
    else Known(BytesField(NumOf(r), r.data))
  }

  function MeaningAll(rs: seq<Raw>, schema: Schema): seq<Field>
    requires AllAccepted(rs, schema)
  {
    if rs == [] then [] else FieldsIn(Meaning(rs[0], schema)) + MeaningAll(rs[1..], schema)
  }

  // ---------------------------------------------------------------- accepted messages are parsed

  lemma KeyOf(r: Raw)
    requires WellFormed(r)
    ensures IsKey(r.key, WireTypeOf(r)) && |r.key| > 0
    ensures exists payload :: Spell(r) == r.key + payload
  {
    hide Decode, AllWellFormed, SpellAll;
    match r
    case RawGroup(key, body, endKey) => assert Spell(r) == key + (SpellAll(body) + endKey);
    case _ => assert Spell(r) == r.key + PayloadOf(r);
  }

  /** The key of a field that stands in the buffer is read. */
  lemma KeyAt(b: Bytes, i: nat, r: Raw)
    requires WellFormed(r) && At(b, i, Spell(r))
    ensures |r.key| > 0 && i + |r.key| <= |b|
    ensures Decode(b, i, 0) == Ok((ValueOf(r.key), i + |r.key|))
    ensures ValueOf(r.key) % 8 == WireTypeOf(r)
  {
    hide Decode, WellFormed, Spell;
    KeyOf(r);
    var payload :| Spell(r) == r.key + payload;
    AtConcat(b, i, r.key, payload);
    DecodeAt(b, i, r.key, ValueOf(r.key));
  }

  lemma UnknownRead(b: Bytes, i: nat, r: Raw)
    requires WellFormed(r) && i < |b| < TWO_TO_63 && At(b, i, Spell(r))
    ensures ReadUnknown(b, i) == Ok((Unknown, i + |Spell(r)|))
  {
    hide WellFormed, Spell, SkipFrom;
    assert At(b[i..], 0, Spell(r)) by {
      forall k | 0 <= k < |Spell(r)| ensures b[i..][0 + k] == Spell(r)[k] {
        assert b[i + k] == Spell(r)[k];
      }
    }
    SkipField(b[i..], 0, r, 0);
  }

  lemma NumberRead(b: Bytes, i: nat, r: Raw, num: int)
    requires WellFormed(r) && r.RawVarint? && i <= |b| < TWO_TO_63 && At(b, i, r.payload)
    ensures ReadNumber(b, i, num) == Ok((Known(NumberField(num, ValueOf(r.payload))), i + |r.payload|))
  {
    hide Decode;
    DecodeAt(b, i, r.payload, ValueOf(r.payload));
  }

  lemma BytesRead(b: Bytes, i: nat, r: Raw, num: int)
    requires WellFormed(r) && r.RawBytes? && i <= |b| < TWO_TO_63 && At(b, i, r.length + r.data)
    ensures ReadBytes(b, i, num) == Ok((Known(BytesField(num, r.data)), i + |r.length + r.data|))
  {
    hide Decode;
    AtConcat(b, i, r.length, r.data);
    DecodeAt(b, i, r.length, |r.data|);
    var start := i + |r.length|;
    assert b[start..start + |r.data|] == r.data;
  }

  lemma FieldRead(b: Bytes, i: nat, r: Raw, schema: Schema)
    requires Accepted(r, schema) && i < |b| < TWO_TO_63 && At(b, i, Spell(r))
    ensures ReadField(b, i, schema) == Ok((Meaning(r, schema), i + |Spell(r)|))
  {
    hide Decode, ReadUnknown, ReadNumber, ReadBytes, ToInt32;
    KeyAt(b, i, r);
    if NumOf(r) !in schema {
      hide WellFormed, Spell;
      UnknownRead(b, i, r);
    } else if schema[NumOf(r)].NumberKind? {
      AtConcat(b, i, r.key, r.payload);
      NumberRead(b, i + |r.key|, r, NumOf(r));
    } else {
      AtConcat(b, i, r.key, r.length + r.data);
      BytesRead(b, i + |r.key|, r, NumOf(r));
    }
  }

  lemma {:induction false} AcceptedParsed(b: Bytes, i: nat, rs: seq<Raw>, schema: Schema)
    requires AllAccepted(rs, schema) && |b| < TWO_TO_63
    requires At(b, i, SpellAll(rs)) && i + |SpellAll(rs)| == |b|
    ensures Parse(b, i, schema) == Ok(MeaningAll(rs, schema))
    decreases rs
  {
    hide ReadField, Accepted, Spell, Meaning;
    if rs != [] {
      AtConcat(b, i, Spell(rs[0]), SpellAll(rs[1..]));
      SpellNonempty(rs[0], schema);
      FieldRead(b, i, rs[0], schema);
      AcceptedParsed(b, i + |Spell(rs[0])|, rs[1..], schema);
    }
  }

  lemma SpellNonempty(r: Raw, schema: Schema)
    requires Accepted(r, schema)
    ensures |Spell(r)| > 0
  {
    hide WellFormed, Spell;
    KeyOf(r);
  }

  // ---------------------------------------------------------------- only accepted messages are parsed

  /** A key in front of what has been read makes an accepted field. */
  lemma ReadIsField(b: Bytes, i: nat, schema: Schema) returns (r: Raw)
    requires i < |b| < TWO_TO_63 && ReadField(b, i, schema).Ok?
    ensures Accepted(r, schema)
    ensures ReadField(b, i, schema) == Ok((Meaning(r, schema), i + |Spell(r)|))
    ensures Spell(r) == b[i..ReadField(b, i, schema).value.1]
  {
    hide Decode, ReadUnknown, ReadNumber, ReadBytes, ToInt32, WellFormed, Spell, IsKey;
    var (wire, next) := Decode(b, i, 0).value;
    PrefixIsVarint(b, i);
    KeyRead(b[i..next], wire);
    var num := ToInt32(wire / 8);
    if num !in schema {
      r := UnknownIsField(b, i);
    } else if schema[num].NumberKind? {
      r := NumberIsField(b, next, b[i..next], num);
      assert b[i..next] + b[next..ReadField(b, i, schema).value.1] == b[i..ReadField(b, i, schema).value.1];
    } else {
      r := BytesIsField(b, next, b[i..next], num);
      assert b[i..next] + b[next..ReadField(b, i, schema).value.1] == b[i..ReadField(b, i, schema).value.1];
    }
  }

  lemma UnknownIsField(b: Bytes, i: nat) returns (r: Raw)
    requires i < |b| < TWO_TO_63 && ReadUnknown(b, i).Ok?
    ensures ReadUnknown(b, i).value.0 == Unknown
    ensures WellFormed(r) && Spell(r) == b[i..ReadUnknown(b, i).value.1]
    ensures Decode(b, i, 0).Ok? && ValueOf(r.key) == Decode(b, i, 0).value.0
  {
    hide WellFormed, Spell, SkipFrom, Decode;
    var n := SkipFrom(b[i..], 0, 0).value;
    r := SkippedField(b[i..], n);
    assert b[i..][..n] == b[i..i + n];
    assert At(b, i, Spell(r));
    KeyAt(b, i, r);
  }

  lemma NumberIsField(b: Bytes, i: nat, key: Bytes, num: int) returns (r: Raw)
    requires i <= |b| < TWO_TO_63 && ReadNumber(b, i, num).Ok? && IsKey(key, 0)
    ensures WellFormed(r) && r.RawVarint? && r.key == key
    ensures Spell(r) == key + b[i..ReadNumber(b, i, num).value.1]
    ensures ReadNumber(b, i, num).value.0 == Known(NumberField(num, ValueOf(r.payload)))
  {
    hide Decode;
    PrefixIsVarint(b, i);
    r := RawVarint(key, b[i..Decode(b, i, 0).value.1]);
  }

  lemma BytesIsField(b: Bytes, i: nat, key: Bytes, num: int) returns (r: Raw)
    requires i <= |b| < TWO_TO_63 && ReadBytes(b, i, num).Ok? && IsKey(key, 2)
    ensures WellFormed(r) && r.RawBytes? && r.key == key
    ensures Spell(r) == key + b[i..ReadBytes(b, i, num).value.1]
    ensures ReadBytes(b, i, num).value.0 == Known(BytesField(num, r.data))
  {
    hide Decode;
    var (length, next) := Decode(b, i, 0).value;
    DecodeIsUint64(b, i);
    PrefixIsVarint(b, i);
    r := RawBytes(key, b[i..next], b[next..next + length]);
    assert b[i..next] + b[next..next + length] == b[i..next + length];
  }

  lemma {:induction false} ParsedAccepted(b: Bytes, i: nat, schema: Schema) returns (rs: seq<Raw>)
    requires i <= |b| < TWO_TO_63 && Parse(b, i, schema).Ok?
    ensures AllAccepted(rs, schema) && SpellAll(rs) == b[i..]
    ensures Parse(b, i, schema) == Ok(MeaningAll(rs, schema))
    decreases |b| - i
  {
    hide ReadField, Accepted, Spell, Meaning;
    rs := [];
    if i < |b| {
      var next := ReadField(b, i, schema).value.1;
      var r := ReadIsField(b, i, schema);
      var rest := ParsedAccepted(b, next, schema);
      rs := [r] + rest;
      assert rs[1..] == rest;
      assert b[i..next] + b[next..] == b[i..];
    }
  }

  /** A byte string is parsed into these fields exactly if it is a sequence of well-formed fields and groups, with the
      right wire type where the number is known and nested messages that can be parsed, that mean these fields;
      unknown ones mean nothing. */
  lemma ParseIsMeaning(b: Bytes, schema: Schema, fields: seq<Field>)
    requires |b| < TWO_TO_63
    ensures Parse(b, 0, schema) == Ok(fields)
            <==> exists rs :: AllAccepted(rs, schema) && SpellAll(rs) == b && MeaningAll(rs, schema) == fields
  {
    hide Parse, AllAccepted, SpellAll, MeaningAll;
    if Parse(b, 0, schema) == Ok(fields) {
      var rs := ParsedAccepted(b, 0, schema);
      assert b[0..] == b;
    }
    if rs :| AllAccepted(rs, schema) && SpellAll(rs) == b && MeaningAll(rs, schema) == fields {
      AcceptedParsed(b, 0, rs, schema);
    }
  }
}
