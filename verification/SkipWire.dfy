/** Skipping an unknown field of a protobuf message: exactly one well-formed field or group. */
module SkipWire {
  import opened Ordering
  import opened Varint

  // ---------------------------------------------------------------- the skipping loop

  /** The index behind a payload at index i, as a signed 64-bit number, and the change of group depth.
      The index may pass the end of the buffer. */
  function Payload(b: Bytes, i: nat, wireType: nat): (r: Result<(int, int)>)
    requires i <= |b| < TWO_TO_63
    ensures r.Ok? ==> (r.value.0 < 0 || i <= r.value.0 < TWO_TO_63) && -1 <= r.value.1 <= 1
  {
    if wireType == 0 then
      match Decode(b, i, 0)
      case Err(e) => Err(e)
      case Ok((_, next)) => Ok((next, 0))
    else if wireType == 1 then Ok((ToInt64(i + 8), 0))
    else if wireType == 2 then
      match Decode(b, i, 0)
      case Err(e) => Err(e)
      case Ok((length, next)) =>
        DecodeIsUint64(b, i);
        if ToInt64(length) < 0 then Err(InvalidLength) else Ok((ToInt64(next + ToInt64(length)), 0))
    else if wireType == 3 then Ok((i, 1))
    else if wireType == 4 then Ok((i, -1))
    else if wireType == 5 then Ok((ToInt64(i + 4), 0))
    else Err(IllegalWireType)
  }

  /** One key with its payload at index i. */
  function Step(b: Bytes, i: nat): (r: Result<(int, int)>)
    requires i < |b| < TWO_TO_63
    ensures r.Ok? ==> (r.value.0 < 0 || i < r.value.0 < TWO_TO_63) && -1 <= r.value.1 <= 1
  {
    match Decode(b, i, 0)
    case Err(e) => Err(e)
    case Ok((wire, next)) => Payload(b, next, wire % 8)
  }

  /** The index behind the field at index i, inside `depth` open groups. */
  function SkipFrom(b: Bytes, i: nat, depth: nat): (r: Result<nat>)
    requires |b| < TWO_TO_63
    ensures r.Ok? ==> i < r.value < TWO_TO_63
    decreases |b| - i
  {
    if i >= |b| then Err(UnexpectedEOF)
    else match Step(b, i)
      case Err(e) => Err(e)
      case Ok((end, delta)) =>
        if delta == -1 && depth == 0 then Err(UnexpectedEndOfGroup)
        else if end < 0 then Err(InvalidLength)
        else if depth + delta == 0 then Ok(end)
        else SkipFrom(b, end, depth + delta)
  }

  method ReadStep(dAtA: Bytes, i: nat) returns (r: Result<(int, int)>)
    requires i < |dAtA| < TWO_TO_63
    ensures r == Step(dAtA, i)
  {
    var key := ReadVarint(dAtA, i);
    if key.Err? {
      return Err(key.error);
    }
    var (wire, next) := key.value;
    match wire % 8 {
      case 0 =>
        var payload := ReadVarint(dAtA, next);
        if payload.Err? {
          return Err(payload.error);
        }
        return Ok((payload.value.1, 0));
      case 1 => return Ok((ToInt64(next + 8), 0));
      case 2 =>
        var payload := ReadVarint(dAtA, next);
        if payload.Err? {
          return Err(payload.error);
        }
        DecodeIsUint64(dAtA, next);
        var length := ToInt64(payload.value.0);
        if length < 0 {
          return Err(InvalidLength);
        }
        return Ok((ToInt64(payload.value.1 + length), 0));
      case 3 => return Ok((next, 1));
      case 4 => return Ok((next, -1));
      case 5 => return Ok((ToInt64(next + 4), 0));
      case _ => return Err(IllegalWireType);
    }
  }

  /** The skipping loop, with one iteration for each key. */
  method SkipWire(dAtA: Bytes) returns (r: Result<nat>)
    requires |dAtA| < TWO_TO_63
    ensures r == SkipFrom(dAtA, 0, 0)
  {
    hide Step;
    var i: nat, depth: nat := 0, 0;
    while i < |dAtA|
      invariant SkipFrom(dAtA, i, depth) == SkipFrom(dAtA, 0, 0)
      decreases |dAtA| - i
    {
      var step := ReadStep(dAtA, i);
      if step.Err? {
        return Err(step.error);
      }
      var (end, delta) := step.value;
      if delta == -1 && depth == 0 {
        return Err(UnexpectedEndOfGroup);
      }
      if end < 0 {
        return Err(InvalidLength);
      }
      i, depth := end, depth + delta;
      if depth == 0 {
        return Ok(i);
      }
    }
    return Err(UnexpectedEOF);
  }

  // ---------------------------------------------------------------- well-formed fields

  /** A field of the wire format. Keys, payloads and lengths are varints in any accepted spelling. The format also wants
      the end mark of a group to carry the number of the group; the code does not compare them, nor does this. */
  datatype Raw =
    | RawVarint(key: Bytes, payload: Bytes)
    | RawFixed64(key: Bytes, data: Bytes)
    | RawBytes(key: Bytes, length: Bytes, data: Bytes)
    | RawGroup(key: Bytes, body: seq<Raw>, endKey: Bytes)
    | RawFixed32(key: Bytes, data: Bytes)

  /** The bytes v are one varint of value x. */
  predicate Spells(v: Bytes, x: nat) {
    Decode(v, 0, 0) == Ok((x, |v|))
  }

  function ValueOf(v: Bytes): nat {
    if Decode(v, 0, 0).Ok? then Decode(v, 0, 0).value.0 else 0
  }

  predicate IsVarint(v: Bytes) {
    Spells(v, ValueOf(v))
  }

  predicate IsKey(v: Bytes, wireType: nat) {
    IsVarint(v) && ValueOf(v) % 8 == wireType
  }

  predicate WellFormed(r: Raw) {
    match r
    case RawVarint(key, payload) => IsKey(key, 0) && IsVarint(payload)
    case RawFixed64(key, data) => IsKey(key, 1) && |data| == 8
    case RawBytes(key, length, data) => IsKey(key, 2) && Spells(length, |data|)
    case RawGroup(key, body, endKey) => IsKey(key, 3) && AllWellFormed(body) && IsKey(endKey, 4)
    case RawFixed32(key, data) => IsKey(key, 5) && |data| == 4
  }

  predicate AllWellFormed(rs: seq<Raw>) {
    rs == [] || (WellFormed(rs[0]) && AllWellFormed(rs[1..]))
  }

  function Spell(r: Raw): Bytes {
    match r
    case RawVarint(key, payload) => key + payload
    case RawFixed64(key, data) => key + data
    case RawBytes(key, length, data) => key + (length + data)
    case RawGroup(key, body, endKey) => key + (SpellAll(body) + endKey)
    case RawFixed32(key, data) => key + data
  }

  function SpellAll(rs: seq<Raw>): Bytes {
    if rs == [] then [] else Spell(rs[0]) + SpellAll(rs[1..])
  }

  // ---------------------------------------------------------------- a well-formed field is skipped exactly

  /** A varint reads the same wherever it stands. */
  lemma DecodeAt(b: Bytes, i: nat, v: Bytes, x: nat)
    requires At(b, i, v) && Spells(v, x)
    ensures Decode(b, i, 0) == Ok((x, i + |v|))
  {
    assert v[0..|v|] == v;
    DecodeMoved(v, 0, b, i, 0);
  }

  predicate IsScalar(r: Raw) { !r.RawGroup? }

  function PayloadOf(r: Raw): Bytes
    requires IsScalar(r)
  {
    match r
    case RawVarint(_, payload) => payload
    case RawFixed64(_, data) => data
    case RawBytes(_, length, data) => length + data
    case RawFixed32(_, data) => data
  }

  function WireTypeOf(r: Raw): nat {
    match r
    case RawVarint(_, _) => 0
    case RawFixed64(_, _) => 1
    case RawBytes(_, _, _) => 2
    case RawGroup(_, _, _) => 3
    case RawFixed32(_, _) => 5
  }

  lemma PayloadOver(b: Bytes, i: nat, r: Raw)
    requires WellFormed(r) && IsScalar(r) && i <= |b| < TWO_TO_63 && At(b, i, PayloadOf(r))
    ensures Payload(b, i, WireTypeOf(r)) == Ok((i + |PayloadOf(r)|, 0))
  {
    match r
    case RawVarint(_, payload) => DecodeAt(b, i, payload, ValueOf(payload));
    case RawFixed64(_, _) =>
    case RawBytes(_, length, data) =>
      AtConcat(b, i, length, data);
      DecodeAt(b, i, length, |data|);
    case RawFixed32(_, _) =>
  }

  /** A key at index i: the step goes on behind it. */
  lemma StepOverKey(b: Bytes, i: nat, key: Bytes, wireType: nat)
    requires IsKey(key, wireType) && |b| < TWO_TO_63 && At(b, i, key)
    ensures |key| > 0 && Step(b, i) == Payload(b, i + |key|, wireType)
  {
    DecodeAt(b, i, key, ValueOf(key));
  }

  lemma SpellScalar(r: Raw)
    requires IsScalar(r) && WellFormed(r)
    ensures Spell(r) == r.key + PayloadOf(r) && IsKey(r.key, WireTypeOf(r))
  {
  }

  /** One key with its payload that is no group. */
  lemma StepOverScalar(b: Bytes, i: nat, r: Raw)
    requires WellFormed(r) && IsScalar(r) && |b| < TWO_TO_63 && At(b, i, Spell(r))
    ensures |Spell(r)| > 0 && i + |Spell(r)| <= |b|
    ensures Step(b, i) == Ok((i + |Spell(r)|, 0))
  {
    hide Payload, Step, Spells, Decode;
    SpellScalar(r);
    AtConcat(b, i, r.key, PayloadOf(r));
    StepOverKey(b, i, r.key, WireTypeOf(r));
    PayloadOver(b, i + |r.key|, r);
  }

  /** What skipping does behind one key with its payload. */
  function SkipBehind(b: Bytes, end: nat, depth: nat): Result<nat>
    requires |b| < TWO_TO_63
  {
    if depth == 0 then Ok(end) else SkipFrom(b, end, depth)
  }

  /** Skipping at a well-formed field moves right behind it, the group depth unchanged. */
  lemma {:induction false} SkipField(b: Bytes, i: nat, r: Raw, depth: nat)
    requires WellFormed(r) && |b| < TWO_TO_63 && At(b, i, Spell(r))
    ensures |Spell(r)| > 0
    ensures SkipFrom(b, i, depth) == SkipBehind(b, i + |Spell(r)|, depth)
    decreases r, 1
  {
    hide Step, At, IsKey, SpellAll;
    match r
    case RawGroup(key, body, endKey) => SkipGroup(b, i, key, body, endKey, depth);
    case _ => StepOverScalar(b, i, r);
  }

  lemma GroupStart(b: Bytes, i: nat, key: Bytes, depth: nat)
    requires IsKey(key, 3) && |b| < TWO_TO_63 && At(b, i, key)
    ensures |key| > 0 && SkipFrom(b, i, depth) == SkipFrom(b, i + |key|, depth + 1)
  {
    hide Decode, IsKey;
    StepOverKey(b, i, key, 3);
  }

  lemma GroupEnd(b: Bytes, i: nat, key: Bytes, depth: nat)
    requires IsKey(key, 4) && |b| < TWO_TO_63 && At(b, i, key)
    ensures SkipFrom(b, i, depth + 1) == SkipBehind(b, i + |key|, depth)
  {
    hide Decode, IsKey;
    StepOverKey(b, i, key, 4);
  }

  lemma {:induction false} SkipGroup(b: Bytes, i: nat, key: Bytes, body: seq<Raw>, endKey: Bytes, depth: nat)
    requires IsKey(key, 3) && AllWellFormed(body) && IsKey(endKey, 4)
    requires |b| < TWO_TO_63 && At(b, i, key + (SpellAll(body) + endKey))
    ensures |key| > 0
    ensures SkipFrom(b, i, depth) == SkipBehind(b, i + |key + (SpellAll(body) + endKey)|, depth)
    decreases body, 1
  {
    hide SkipFrom, IsKey, SpellAll;
    AtConcat(b, i, key, SpellAll(body) + endKey);
    AtConcat(b, i + |key|, SpellAll(body), endKey);
    GroupStart(b, i, key, depth);
    SkipFields(b, i + |key|, body, depth + 1);
    GroupEnd(b, i + |key| + |SpellAll(body)|, endKey, depth);
  }

  lemma {:induction false} SkipFields(b: Bytes, i: nat, rs: seq<Raw>, depth: nat)
    requires AllWellFormed(rs) && |b| < TWO_TO_63 && At(b, i, SpellAll(rs)) && depth > 0
    ensures SkipFrom(b, i, depth) == SkipFrom(b, i + |SpellAll(rs)|, depth)
    decreases rs, 0
  {
    hide SkipFrom, WellFormed, Spell;
    if rs != [] {
      AtConcat(b, i, Spell(rs[0]), SpellAll(rs[1..]));
      SkipField(b, i, rs[0], depth);
      SkipFields(b, i + |Spell(rs[0])|, rs[1..], depth);
    }
  }

  // ---------------------------------------------------------------- only well-formed fields are skipped

  /** What remains of an open group: its last fields and its end. */
  datatype Block = Block(body: seq<Raw>, endKey: Bytes)

  predicate GoodBlock(b: Block) {
    AllWellFormed(b.body) && IsKey(b.endKey, 4)
  }

  predicate GoodBlocks(bs: seq<Block>) {
    forall k :: 0 <= k < |bs| ==> GoodBlock(bs[k])
  }

  function SpellBlock(b: Block): Bytes {
    SpellAll(b.body) + b.endKey
  }

  function SpellBlocks(bs: seq<Block>): Bytes {
    if bs == [] then [] else SpellBlock(bs[0]) + SpellBlocks(bs[1..])
  }

  /** A varint read inside a buffer is one on its own. */
  lemma PrefixIsVarint(b: Bytes, i: nat)
    requires Decode(b, i, 0).Ok?
    ensures Spells(b[i..Decode(b, i, 0).value.1], Decode(b, i, 0).value.0)
  {
    DecodeMoved(b, i, b[i..Decode(b, i, 0).value.1], 0, 0);
  }

  /** A length and as many bytes, if they stay inside the buffer. */
  lemma BytesPayload(b: Bytes, i: nat, key: Bytes) returns (r: Raw)
    requires i <= |b| < TWO_TO_63 && IsKey(key, 2) && Payload(b, i, 2).Ok?
    requires i <= Payload(b, i, 2).value.0 <= |b|
    ensures WellFormed(r) && IsScalar(r) && Spell(r) == key + b[i..Payload(b, i, 2).value.0]
  {
    var (length, next) := Decode(b, i, 0).value;
    var end := Payload(b, i, 2).value.0;
    assert end == next + length by {
      DecodeIsUint64(b, i);
      hide Decode;
    }
    hide Payload, Decode;
    PrefixIsVarint(b, i);
    r := RawBytes(key, b[i..next], b[next..end]);
    assert b[i..next] + b[next..end] == b[i..end];
  }

  /** A payload that is no group mark and stays inside the buffer is that of a well-formed field. */
  lemma PayloadIsScalar(b: Bytes, i: nat, key: Bytes, wireType: nat) returns (r: Raw)
    requires i <= |b| < TWO_TO_63 && IsKey(key, wireType)
    requires Payload(b, i, wireType).Ok? && Payload(b, i, wireType).value.1 == 0
    requires i <= Payload(b, i, wireType).value.0 <= |b|
    ensures WellFormed(r) && IsScalar(r) && Spell(r) == key + b[i..Payload(b, i, wireType).value.0]
  {
    hide Decode;
    if wireType == 0 {
      PrefixIsVarint(b, i);
      r := RawVarint(key, b[i..Decode(b, i, 0).value.1]);
    } else if wireType == 1 {
      r := RawFixed64(key, b[i..i + 8]);
    } else if wireType == 2 {
      r := BytesPayload(b, i, key);
    } else {
      r := RawFixed32(key, b[i..i + 4]);
    }
  }

  /** One step over no group passes a well-formed field, if it stays inside the buffer. */
  lemma StepIsScalar(b: Bytes, i: nat) returns (r: Raw)
    requires i < |b| < TWO_TO_63 && Step(b, i).Ok? && Step(b, i).value.1 == 0 && 0 <= Step(b, i).value.0 <= |b|
    ensures WellFormed(r) && IsScalar(r) && Spell(r) == b[i..Step(b, i).value.0]
  {
    hide Payload, Spells, WellFormed, Spell;
    var (wire, next) := Decode(b, i, 0).value;
    PrefixIsVarint(b, i);
    KeyRead(b[i..next], wire);
    r := PayloadIsScalar(b, next, b[i..next], wire % 8);
    assert b[i..next] + b[next..Step(b, i).value.0] == b[i..Step(b, i).value.0];
  }

  lemma KeyRead(v: Bytes, wire: nat)
    requires Spells(v, wire)
    ensures IsKey(v, wire % 8)
  {
  }

  /** One step into or out of a group passes its key. */
  lemma StepIsMark(b: Bytes, i: nat)
    requires i < |b| < TWO_TO_63 && Step(b, i).Ok? && Step(b, i).value.1 != 0
    ensures i < Step(b, i).value.0 <= |b|
    ensures IsKey(b[i..Step(b, i).value.0], if Step(b, i).value.1 == 1 then 3 else 4)
  {
    hide Spells;
    var (wire, next) := Decode(b, i, 0).value;
    PrefixIsVarint(b, i);
    KeyRead(b[i..next], wire);
  }

  /** The blocks with one more field in front. */
  function InFront(r: Raw, bs: seq<Block>): seq<Block>
    requires bs != []
  {
    [Block([r] + bs[0].body, bs[0].endKey)] + bs[1..]
  }

  lemma InFrontSpells(r: Raw, bs: seq<Block>)
    requires bs != [] && WellFormed(r) && GoodBlocks(bs)
    ensures GoodBlocks(InFront(r, bs)) && SpellBlocks(InFront(r, bs)) == Spell(r) + SpellBlocks(bs)
  {
    hide WellFormed, Spell, IsKey;
    var body := [r] + bs[0].body;
    assert body[1..] == bs[0].body;
    assert GoodBlock(bs[0]);
    assert InFront(r, bs)[1..] == bs[1..];
    assert Spell(r) + SpellBlocks(bs) == Spell(r) + SpellAll(bs[0].body) + bs[0].endKey + SpellBlocks(bs[1..]);
  }

  /** The innermost open group, closed by its first block, becomes a field of the group around it. */
  lemma CloseGroup(key: Bytes, bs: seq<Block>) returns (r: Raw)
    requires IsKey(key, 3) && |bs| >= 2 && GoodBlocks(bs)
    ensures WellFormed(r) && Spell(r) + SpellBlocks(bs[1..]) == key + SpellBlocks(bs)
    ensures r == RawGroup(key, bs[0].body, bs[0].endKey)
  {
    hide IsKey, SpellAll;
    assert GoodBlock(bs[0]);
    r := RawGroup(key, bs[0].body, bs[0].endKey);
    assert Spell(r) == key + SpellBlock(bs[0]);
    assert Spell(r) + SpellBlocks(bs[1..]) == key + (SpellBlock(bs[0]) + SpellBlocks(bs[1..]));
  }

  /** What skipping passes inside `depth` open groups is their remaining fields and their ends. */
  lemma {:induction false} SkippedBlocks(b: Bytes, i: nat, depth: nat, n: nat) returns (bs: seq<Block>)
    requires |b| < TWO_TO_63 && depth > 0 && SkipFrom(b, i, depth) == Ok(n) && n <= |b|
    ensures |bs| == depth && GoodBlocks(bs) && SpellBlocks(bs) == b[i..n]
    decreases |b| - i
  {
    hide Step, WellFormed, Spell, SpellBlocks, IsKey, SpellAll;
    var (end, delta) := Step(b, i).value;
    assert b[i..n] == b[i..end] + b[end..n];
    if delta == 0 {
      var r := StepIsScalar(b, i);
      bs := SkippedBlocks(b, end, depth, n);
      InFrontSpells(r, bs);
      bs := InFront(r, bs);
    } else if delta == 1 {
      StepIsMark(b, i);
      bs := SkippedBlocks(b, end, depth + 1, n);
      var r := CloseGroup(b[i..end], bs);
      InFrontSpells(r, bs[1..]);
      bs := InFront(r, bs[1..]);
    } else {
      StepIsMark(b, i);
      var rest: seq<Block> := [];
      if depth > 1 {
        rest := SkippedBlocks(b, end, depth - 1, n);
      }
      bs := EndInFront(b[i..end], rest);
    }
  }

  lemma EndInFront(endKey: Bytes, rest: seq<Block>) returns (bs: seq<Block>)
    requires IsKey(endKey, 4) && GoodBlocks(rest)
    ensures |bs| == |rest| + 1 && GoodBlocks(bs) && SpellBlocks(bs) == endKey + SpellBlocks(rest)
    ensures rest == [] ==> SpellBlocks(bs) == endKey
  {
    bs := [Block([], endKey)] + rest;
    assert bs[1..] == rest;
    assert SpellBlock(bs[0]) == endKey;
  }

  lemma SkippedField(b: Bytes, n: nat) returns (r: Raw)
    requires |b| < TWO_TO_63 && SkipFrom(b, 0, 0) == Ok(n) && n <= |b|
    ensures WellFormed(r) && Spell(r) == b[..n]
  {
    hide Step, WellFormed, Spell, SpellAll;
    var (end, delta) := Step(b, 0).value;
    if delta == 0 {
      r := StepIsScalar(b, 0);
    } else {
      StepIsMark(b, 0);
      var bs := SkippedBlocks(b, end, 1, n);
      r := GroupOf(b[..end], bs[0]);
      assert bs == [bs[0]];
      assert b[..n] == b[..end] + b[end..n];
    }
  }

  lemma GroupOf(key: Bytes, block: Block) returns (r: Raw)
    requires IsKey(key, 3) && GoodBlock(block)
    ensures WellFormed(r) && Spell(r) == key + SpellBlocks([block])
  {
    r := RawGroup(key, block.body, block.endKey);
    assert SpellBlocks([block]) == SpellBlock(block) + SpellBlocks([]) == SpellBlock(block);
  }

  /** Skipping ends inside the buffer exactly behind one well-formed field: a varint, eight or four bytes,
      a length with as many bytes, or a balanced group of such fields. */
  lemma SkipsExactlyOneField(b: Bytes, n: nat)
    requires n <= |b| < TWO_TO_63
    ensures SkipFrom(b, 0, 0) == Ok(n) <==> exists r :: WellFormed(r) && Spell(r) == b[..n]
  {
    hide SkipFrom, WellFormed, Spell;
    if SkipFrom(b, 0, 0) == Ok(n) {
      var r := SkippedField(b, n);
    }
    if r :| WellFormed(r) && Spell(r) == b[..n] {
      SkipField(b, 0, r, 0);
    }
  }
}
