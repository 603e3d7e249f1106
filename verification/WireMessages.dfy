/** Three messages of the protocol: how they are sized, written backwards into a buffer, and parsed back. */
module WireMessages {
  import opened Common
  import opened Ordering
  import opened Varint
  import opened WireFields
  import opened WireEncoding
  import opened MessageParts

  const HANDSHAKE: Schema := map[1 := BytesKind, 2 := BytesKind]
  const MATURED: Schema := map[1 := NumberKind]

  /** `accepts` says which byte strings are encoded validator updates. */
  function ValsetChangeSchema(accepts: Bytes -> bool): Schema {
    map[1 := MessageKind(accepts), 2 := NumberKind, 3 := BytesKind]
  }

  // ---------------------------------------------------------------- ValidatorSetChangePacketData

  datatype ValsetChange = ValsetChange(updates: seq<Bytes>, id: nat, acks: seq<Bytes>) {
    /** Numbers have 64 bits and byte strings a length. */
    predicate Valid() {
      FitsInt(updates) && id < TWO_TO_64 && FitsInt(acks)
    }

    /** Its fields in the order of their numbers. */
    function Fields(): (fs: seq<Field>) {
      Repeated(1, updates) + OptionalNumber(2, id) + Repeated(3, acks)
    }

    /** Its bytes. */
    function Encoded(): Bytes
      requires Valid()
    {
      ValsetChangeWritable(this);
      EncodeFields(Fields())
    }

    /** Elements are appended; of the numbers the last one counts. */
    function Merge(fs: seq<Field>): ValsetChange {
      ValsetChange(updates + Collected(fs, 1), LastNumber(fs, 2, id), acks + Collected(fs, 3))
    }
  }

  /** One more field: an element is appended, a number replaced. */
  lemma ValsetChangeTakes(m: ValsetChange, fs: seq<Field>, f: Field, accepts: Bytes -> bool)
    requires KnownTo(f, ValsetChangeSchema(accepts))
    ensures m.Merge(fs + [f])
         == var before := m.Merge(fs);
            if f.NumberField? then before.(id := f.value)
            else if f.num == 1 then before.(updates := before.updates + [f.data])
            else before.(acks := before.acks + [f.data])
  {
    assert forall num :: Collected([f], num) == if f.BytesField? && f.num == num then [f.data] else [];
    assert LastNumber([f], 2, m.Merge(fs).id) == if f.NumberField? then f.value else m.Merge(fs).id;
    hide Collected, LastNumber;
    CollectedConcat(fs, [f], 1);
    CollectedConcat(fs, [f], 3);
    LastNumberConcat(fs, [f], 2, m.id);
    if f.BytesField? {
      Associative(m.updates, Collected(fs, 1), Collected([f], 1));
      Associative(m.acks, Collected(fs, 3), Collected([f], 3));
    }
  }

  const NO_CHANGE := ValsetChange([], 0, [])

  lemma ValsetChangeWritable(m: ValsetChange)
    requires m.Valid()
    ensures AllWritable(m.Fields())
  {
    forall f | f in m.Fields() ensures Writable(f) {
      if f in Repeated(1, m.updates) {
      } else if f in Repeated(3, m.acks) {
      } else {
        assert f in OptionalNumber(2, m.id);
      }
    }
  }

  lemma ValsetChangeKnown(m: ValsetChange, accepts: Bytes -> bool)
    requires forall u :: u in m.updates ==> accepts(u)
    ensures AllKnownTo(m.Fields(), ValsetChangeSchema(accepts))
  {
    forall f | f in m.Fields() ensures KnownTo(f, ValsetChangeSchema(accepts)) {
      if f in Repeated(1, m.updates) {
        assert f.data in m.updates;
      } else if f in Repeated(3, m.acks) {
      } else {
        assert f in OptionalNumber(2, m.id);
      }
    }
  }

  lemma ValsetChangeMerged(m: ValsetChange)
    ensures NO_CHANGE.Merge(m.Fields()) == m
  {
    hide Repeated, OptionalNumber, Collected, LastNumber;
    ValsetChangeLists(m, 1);
    ValsetChangeLists(m, 3);
    ValsetChangeNumber(m);
  }

  lemma ValsetChangeLists(m: ValsetChange, num: int)
    requires num != 2
    ensures Collected(m.Fields(), num) == if num == 1 then m.updates else if num == 3 then m.acks else []
  {
    var a, b, c := Repeated(1, m.updates), OptionalNumber(2, m.id), Repeated(3, m.acks);
    RepeatedCollected(1, m.updates, num);
    RepeatedCollected(3, m.acks, num);
    assert Collected(b, num) == [];
    hide Repeated, OptionalNumber, Collected;
    CollectedConcat(a + b, c, num);
    CollectedConcat(a, b, num);
  }

  lemma ValsetChangeNumber(m: ValsetChange)
    ensures LastNumber(m.Fields(), 2, 0) == m.id
  {
    var a, b, c := Repeated(1, m.updates), OptionalNumber(2, m.id), Repeated(3, m.acks);
    assert LastNumber(b, 2, 0) == m.id;
    hide Repeated, OptionalNumber, LastNumber;
    LastNumberConcat(a + b, c, 2, 0);
    LastNumberConcat(a, b, 2, 0);
    RepeatedHasNoNumber(1, m.updates, 2, 0);
    RepeatedHasNoNumber(3, m.acks, 2, m.id);
  }

  /** Parsing an encoded message gives its fields back, and they merge into the message. */
  lemma ValsetChangeRoundTrip(m: ValsetChange, accepts: Bytes -> bool)
    requires m.Valid() && |m.Encoded()| < TWO_TO_63 && forall u :: u in m.updates ==> accepts(u)
    ensures Parse(m.Encoded(), 0, ValsetChangeSchema(accepts)) == Ok(m.Fields())
    ensures NO_CHANGE.Merge(m.Fields()) == m
  {
    hide Parse, EncodeFields, NO_CHANGE.Merge, ValsetChangeSchema;
    ValsetChangeWritable(m);
    ValsetChangeKnown(m, accepts);
    ValsetChangeMerged(m);
    FieldsRoundTrip(m.Fields(), ValsetChangeSchema(accepts));
  }

  /** With any codec for updates that gives back what it encodes, the parsed message holds the updates themselves. */
  lemma UpdatesRoundTrip<U>(
    us: seq<U>, id: nat, acks: seq<Bytes>, encode: U -> Bytes, parse: Bytes -> Option<U>, m: ValsetChange)
    requires forall u :: u in us ==> parse(encode(u)) == Some(u)
    requires m == ValsetChange(seq(|us|, k requires 0 <= k < |us| => encode(us[k])), id, acks)
    requires m.Valid() && |m.Encoded()| < TWO_TO_63
    ensures var parsed := Parse(m.Encoded(), 0, ValsetChangeSchema(b => parse(b).Some?));
            && parsed.Ok?
            && var got := NO_CHANGE.Merge(parsed.value);
               && got.id == id && got.acks == acks
               && |got.updates| == |us| && forall k :: 0 <= k < |us| ==> parse(got.updates[k]) == Some(us[k])
  {
    hide Parse, m.Encoded, NO_CHANGE.Merge, ValsetChangeSchema;
    forall b | b in m.updates ensures parse(b).Some? {
      var k :| 0 <= k < |us| && m.updates[k] == b;
      assert us[k] in us;
    }
    ValsetChangeRoundTrip(m, b => parse(b).Some?);
  }

  class ValidatorSetChangePacketData {
    /** The updates, encoded. */
    var validatorUpdates: seq<Bytes>
    var valsetUpdateId: nat
    var slashAcks: seq<Bytes>

    constructor ()
      ensures View() == NO_CHANGE
    {
      validatorUpdates, valsetUpdateId, slashAcks := [], 0, [];
    }

    function View(): ValsetChange
      reads this
    {
      ValsetChange(validatorUpdates, valsetUpdateId, slashAcks)
    }

    method Size() returns (n: nat)
      requires View().Valid()
      ensures n == |View().Encoded()|
    {
      ValsetChangeParts(View());
      hide EncodeFields, AllWritable, Repeated, OptionalNumber, View().Fields, View().Encoded;
      var updates := RepeatedSize(1, validatorUpdates);
      var number := OptionalNumberSize(2, valsetUpdateId);
      var acks := RepeatedSize(3, slashAcks);
      n := updates + number + acks;
    }

    /** Writes the message backwards to the end of the buffer, and nothing in front of it. */
    method MarshalToSizedBuffer(dAtA: array<byte>) returns (n: nat)
      requires View().Valid() && |View().Encoded()| <= dAtA.Length
      modifies dAtA
      ensures n == |View().Encoded()|
      ensures Written(old(dAtA[..]), dAtA.Length, View().Encoded(), dAtA[..])
    {
      ValsetChangeParts(View());
      hide EncodeFields, Written, AllWritable, Repeated, OptionalNumber, View().Fields, View().Encoded;
      var i := PutRepeated(dAtA, dAtA.Length, 3, slashAcks);
      ghost var one := dAtA[..];
      i := PutOptionalNumber(dAtA, i, 2, valsetUpdateId);
      ghost var two := dAtA[..];
      i := PutRepeated(dAtA, i, 1, validatorUpdates);
      n := dAtA.Length - i;
      WrittenThrice(old(dAtA[..]), EncodeFields(Repeated(3, slashAcks)), one,
                    EncodeFields(OptionalNumber(2, valsetUpdateId)), two,
                    EncodeFields(Repeated(1, validatorUpdates)), dAtA[..]);
    }

    method Marshal() returns (dAtA: Bytes)
      requires View().Valid()
      ensures dAtA == View().Encoded()
    {
      var size := Size();
      var buffer := new byte[size];
      var n := MarshalToSizedBuffer(buffer);
      dAtA := buffer[..n];
    }

    /** Merges what is parsed into the message; `accepts` says which updates can be parsed in turn. */
    method Unmarshal(dAtA: Bytes, accepts: Bytes -> bool) returns (r: Result<()>)
      requires |dAtA| < TWO_TO_63 && valsetUpdateId < TWO_TO_64
      modifies this
      ensures valsetUpdateId < TWO_TO_64
      ensures match Parse(dAtA, 0, ValsetChangeSchema(accepts))
              case Err(e) => r == Err(e)
              case Ok(fields) => r == Ok(()) && View() == old(View()).Merge(fields)
    {
      hide Parse, ReadField;
      var i := 0;
      ghost var done: seq<Field> := [];
      ParseStart(dAtA, ValsetChangeSchema(accepts));
      while i < |dAtA|
        invariant i <= |dAtA| && valsetUpdateId < TWO_TO_64
        invariant View() == old(View()).Merge(done)
        invariant Parse(dAtA, 0, ValsetChangeSchema(accepts))
               == After(done, Parse(dAtA, i, ValsetChangeSchema(accepts)))
      {
        var field := NextField(dAtA, i, ValsetChangeSchema(accepts));
        ParseStep(dAtA, i, ValsetChangeSchema(accepts), done);
        if field.Err? {
          return Err(field.error);
        }
        var (item, next) := field.value;
        match item {
          case Known(f) =>
            ValsetChangeTakes(old(View()), done, f, accepts);
            Take(f, accepts);
            done := done + [f];
          case Unknown =>
            assert done + [] == done;
        }
        i := next;
      }
      ParseEnd(dAtA, ValsetChangeSchema(accepts));
      assert done + [] == done;
      return Ok(());
    }

    method Take(f: Field, accepts: Bytes -> bool)
      requires KnownTo(f, ValsetChangeSchema(accepts))
      modifies this
      ensures View() == if f.NumberField? then old(View()).(id := f.value)
                        else if f.num == 1 then old(View()).(updates := old(View()).updates + [f.data])
                        else old(View()).(acks := old(View()).acks + [f.data])
    {
      match f {
        case BytesField(num, data) =>
          if num == 1 {
            validatorUpdates := validatorUpdates + [data];
          } else {
            slashAcks := slashAcks + [data];
          }
        case NumberField(_, value) =>
          valsetUpdateId := value;
      }
    }
  }

  lemma ValsetChangeParts(m: ValsetChange)
    requires m.Valid()
    ensures AllWritable(Repeated(1, m.updates)) && AllWritable(OptionalNumber(2, m.id))
    ensures AllWritable(Repeated(3, m.acks))
    ensures m.Encoded()
         == EncodeFields(Repeated(1, m.updates))
            + (EncodeFields(OptionalNumber(2, m.id)) + EncodeFields(Repeated(3, m.acks)))
  {
    var a, b, c := Repeated(1, m.updates), OptionalNumber(2, m.id), Repeated(3, m.acks);
    ValsetChangeWritable(m);
    hide EncodeFields, Repeated, OptionalNumber;
    PartsWritable(a + b, c);
    PartsWritable(a, b);
    EncodeFieldsConcat(a + b, c);
    EncodeFieldsConcat(a, b);
  }

  /** The message byte by byte: the updates, the id unless it is zero, and the acknowledgements, each under its key. */
  lemma ValsetChangeBytes(m: ValsetChange)
    requires m.Valid()
    ensures m.Encoded() == Delimited(0x0A, m.updates) + (if m.id == 0 then [] else [0x10] + Encode(m.id))
                           + Delimited(0x1A, m.acks)
  {
    ValsetChangeParts(m);
    RepeatedBytes(1, m.updates);
    RepeatedBytes(3, m.acks);
    NumberBytes(2, m.id);
    hide EncodeFields, Repeated, OptionalNumber, Delimited, Encode, m.Encoded;
  }

  lemma NumberBytes(num: nat, value: nat)
    requires AllWritable(OptionalNumber(num, value)) && num < 16
    ensures EncodeFields(OptionalNumber(num, value)) == if value == 0 then [] else [num * 8] + Encode(value)
  {
    hide Encode;
    if value != 0 {
      assert Writable([NumberField(num, value)][0]);
      assert EncodeFields([NumberField(num, value)]) == EncodeField(NumberField(num, value));
    }
  }

  // ---------------------------------------------------------------- VSCMaturedPacketData

  datatype Matured = Matured(id: nat) {
    predicate Valid() {
      id < TWO_TO_64
    }

    function Fields(): seq<Field> {
      OptionalNumber(1, id)
    }

    function Encoded(): Bytes
      requires Valid()
    {
      EncodeFields(Fields())
    }

    /** The last number counts. */
    function Merge(fs: seq<Field>): Matured {
      Matured(LastNumber(fs, 1, id))
    }
  }

  /** Parsing an encoded message gives its fields back, and they merge into the message. */
  lemma MaturedRoundTrip(m: Matured)
    requires m.Valid() && |m.Encoded()| < TWO_TO_63
    ensures Parse(m.Encoded(), 0, MATURED) == Ok(m.Fields())
    ensures Matured(0).Merge(m.Fields()) == m
  {
    hide Parse, EncodeFields;
    FieldsRoundTrip(m.Fields(), MATURED);
  }

  /** The message byte by byte: nothing for the id 0. */
  lemma MaturedBytes(m: Matured)
    requires m.Valid()
    ensures m.Encoded() == if m.id == 0 then [] else [0x08] + Encode(m.id)
  {
    NumberBytes(1, m.id);
  }

  class VSCMaturedPacketData {
    var valsetUpdateId: nat

    constructor ()
      ensures View() == Matured(0)
    {
      valsetUpdateId := 0;
    }

    function View(): Matured
      reads this
    {
      Matured(valsetUpdateId)
    }

    method Size() returns (n: nat)
      requires View().Valid()
      ensures n == |View().Encoded()|
    {
      assert AllWritable(OptionalNumber(1, valsetUpdateId));
      hide EncodeFields, OptionalNumber;
      n := OptionalNumberSize(1, valsetUpdateId);
    }

    /** Writes the message backwards to the end of the buffer, and nothing in front of it. */
    method MarshalToSizedBuffer(dAtA: array<byte>) returns (n: nat)
      requires View().Valid() && |View().Encoded()| <= dAtA.Length
      modifies dAtA
      ensures n == |View().Encoded()|
      ensures Written(old(dAtA[..]), dAtA.Length, View().Encoded(), dAtA[..])
    {
      assert AllWritable(OptionalNumber(1, valsetUpdateId));
      hide EncodeFields, Written, OptionalNumber;
      var i := PutOptionalNumber(dAtA, dAtA.Length, 1, valsetUpdateId);
      n := dAtA.Length - i;
    }

    method Marshal() returns (dAtA: Bytes)
      requires View().Valid()
      ensures dAtA == View().Encoded()
    {
      var size := Size();
      var buffer := new byte[size];
      var n := MarshalToSizedBuffer(buffer);
      dAtA := buffer[..n];
    }

    /** Merges what is parsed into the message. */
    method Unmarshal(dAtA: Bytes) returns (r: Result<()>)
      requires |dAtA| < TWO_TO_63 && valsetUpdateId < TWO_TO_64
      modifies this
      ensures valsetUpdateId < TWO_TO_64
      ensures match Parse(dAtA, 0, MATURED)
              case Err(e) => r == Err(e)
              case Ok(fields) => r == Ok(()) && View() == old(View()).Merge(fields)
    {
      hide Parse, ReadField;
      var i := 0;
      ghost var done: seq<Field> := [];
      ParseStart(dAtA, MATURED);
      while i < |dAtA|
        invariant i <= |dAtA| && valsetUpdateId < TWO_TO_64
        invariant View() == old(View()).Merge(done)
        invariant Parse(dAtA, 0, MATURED) == After(done, Parse(dAtA, i, MATURED))
      {
        var field := NextField(dAtA, i, MATURED);
        ParseStep(dAtA, i, MATURED, done);
        if field.Err? {
          return Err(field.error);
        }
        var (item, next) := field.value;
        match item {
          case Known(f) =>
            LastNumberConcat(done, [f], 1, old(valsetUpdateId));
            valsetUpdateId := f.value;
            done := done + [f];
          case Unknown =>
            assert done + [] == done;
        }
        i := next;
      }
      ParseEnd(dAtA, MATURED);
      assert done + [] == done;
      return Ok(());
    }
  }

  // ---------------------------------------------------------------- HandshakeMetadata

  datatype Handshake = Handshake(providerFeePoolAddr: Bytes, version: Bytes) {
    predicate Valid() {
      |providerFeePoolAddr| < TWO_TO_63 && |version| < TWO_TO_63
    }

    function Fields(): seq<Field> {
      OptionalBytes(1, providerFeePoolAddr) + OptionalBytes(2, version)
    }

    function Encoded(): Bytes
      requires Valid()
    {
      EncodeFields(Fields())
    }

    /** Of the strings with the same number the last one counts. */
    function Merge(fs: seq<Field>): Handshake {
      Handshake(LastBytes(fs, 1, providerFeePoolAddr), LastBytes(fs, 2, version))
    }
  }

  const NO_METADATA := Handshake([], [])

  /** Parsing an encoded message gives its fields back, and they merge into the message. */
  lemma HandshakeRoundTrip(m: Handshake)
    requires m.Valid() && |m.Encoded()| < TWO_TO_63
    ensures Parse(m.Encoded(), 0, HANDSHAKE) == Ok(m.Fields())
    ensures NO_METADATA.Merge(m.Fields()) == m
  {
    hide Parse, EncodeFields, LastBytes;
    FieldsRoundTrip(m.Fields(), HANDSHAKE);
    HandshakeMerged(m, 1);
    HandshakeMerged(m, 2);
  }

  lemma HandshakeMerged(m: Handshake, num: int)
    requires num == 1 || num == 2
    ensures LastBytes(m.Fields(), num, []) == if num == 1 then m.providerFeePoolAddr else m.version
  {
    LastBytesConcat(OptionalBytes(1, m.providerFeePoolAddr), OptionalBytes(2, m.version), num, []);
  }

  lemma HandshakeParts(m: Handshake)
    requires m.Valid()
    ensures AllWritable(OptionalBytes(1, m.providerFeePoolAddr)) && AllWritable(OptionalBytes(2, m.version))
    ensures m.Encoded()
         == EncodeFields(OptionalBytes(1, m.providerFeePoolAddr)) + EncodeFields(OptionalBytes(2, m.version))
  {
    EncodeFieldsConcat(OptionalBytes(1, m.providerFeePoolAddr), OptionalBytes(2, m.version));
  }

  /** The message byte by byte: both strings in order, each under its key unless it is empty. */
  lemma HandshakeBytes(m: Handshake)
    requires m.Valid()
    ensures m.Encoded()
         == (if m.providerFeePoolAddr == [] then [] else Delimited(0x0A, [m.providerFeePoolAddr]))
            + if m.version == [] then [] else Delimited(0x12, [m.version])
  {
    HandshakeParts(m);
    StringBytes(1, m.providerFeePoolAddr);
    StringBytes(2, m.version);
    hide EncodeFields, OptionalBytes, Delimited, m.Encoded;
  }

  lemma StringBytes(num: nat, data: Bytes)
    requires AllWritable(OptionalBytes(num, data)) && num < 16
    ensures EncodeFields(OptionalBytes(num, data)) == if data == [] then [] else Delimited(num * 8 + 2, [data])
  {
    if data != [] {
      assert Repeated(num, [data]) == [BytesField(num, data)];
      RepeatedBytes(num, [data]);
    }
  }

  class HandshakeMetadata {
    var providerFeePoolAddr: Bytes
    var version: Bytes

    constructor ()
      ensures View() == NO_METADATA
    {
      providerFeePoolAddr, version := [], [];
    }

    function View(): Handshake
      reads this
    {
      Handshake(providerFeePoolAddr, version)
    }

    method Size() returns (n: nat)
      requires View().Valid()
      ensures n == |View().Encoded()|
    {
      HandshakeParts(View());
      hide EncodeFields, OptionalBytes, View().Encoded;
      var address := OptionalBytesSize(1, providerFeePoolAddr);
      var ver := OptionalBytesSize(2, version);
      n := address + ver;
    }

    /** Writes the message backwards to the end of the buffer, and nothing in front of it. */
    method MarshalToSizedBuffer(dAtA: array<byte>) returns (n: nat)
      requires View().Valid() && |View().Encoded()| <= dAtA.Length
      modifies dAtA
      ensures n == |View().Encoded()|
      ensures Written(old(dAtA[..]), dAtA.Length, View().Encoded(), dAtA[..])
    {
      HandshakeParts(View());
      hide EncodeFields, Written, OptionalBytes, AllWritable, View().Encoded;
      var i := PutOptionalBytes(dAtA, dAtA.Length, 2, version);
      ghost var one := dAtA[..];
      i := PutOptionalBytes(dAtA, i, 1, providerFeePoolAddr);
      n := dAtA.Length - i;
      WrittenTwice(old(dAtA[..]), dAtA.Length, EncodeFields(OptionalBytes(2, version)), one,
                   EncodeFields(OptionalBytes(1, providerFeePoolAddr)), dAtA[..]);
    }

    method Marshal() returns (dAtA: Bytes)
      requires View().Valid()
      ensures dAtA == View().Encoded()
    {
      var size := Size();
      var buffer := new byte[size];
      var n := MarshalToSizedBuffer(buffer);
      dAtA := buffer[..n];
    }

    /** Merges what is parsed into the message. */
    method Unmarshal(dAtA: Bytes) returns (r: Result<()>)
      requires |dAtA| < TWO_TO_63
      modifies this
      ensures match Parse(dAtA, 0, HANDSHAKE)
              case Err(e) => r == Err(e)
              case Ok(fields) => r == Ok(()) && View() == old(View()).Merge(fields)
    {
      hide Parse, ReadField;
      var i := 0;
      ghost var done: seq<Field> := [];
      ParseStart(dAtA, HANDSHAKE);
      while i < |dAtA|
        invariant i <= |dAtA|
        invariant View() == old(View()).Merge(done)
        invariant Parse(dAtA, 0, HANDSHAKE) == After(done, Parse(dAtA, i, HANDSHAKE))
      {
        var field := NextField(dAtA, i, HANDSHAKE);
        ParseStep(dAtA, i, HANDSHAKE, done);
        if field.Err? {
          return Err(field.error);
        }
        var (item, next) := field.value;
        match item {
          case Known(f) =>
            LastBytesConcat(done, [f], 1, old(providerFeePoolAddr));
            LastBytesConcat(done, [f], 2, old(version));
            if f.num == 1 {
              providerFeePoolAddr := f.data;
            } else {
              version := f.data;
            }
            done := done + [f];
          case Unknown =>
            assert done + [] == done;
        }
        i := next;
      }
      ParseEnd(dAtA, HANDSHAKE);
      assert done + [] == done;
      return Ok(());
    }
  }
}
