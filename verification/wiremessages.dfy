/** What every generated Unmarshal shares: a loop over fields, each one read by its declared
    wire type and merged into the message, unknown ones skipped. */
module WireMessages {
  import opened Field
  import opened Wire
  import opened WireReader

  datatype Entry = Number(num: nat, value: nat) | Blob(num: nat, bytes: Bytes) | Skipped

  /** The declared wire type of each known field number. */
  type Schema = map<nat, nat>

  function ReadField(schema: Schema, data: Bytes, i: nat): (r: Read<Entry>)
    requires i <= |data|
    ensures r.Got? ==> i < r.next <= |data|
  {
    match ReadTag(data, i)
    case Bad(e) => Bad(e)
    case Got(t, j) =>
      if t.num !in schema then
        match SkipField(data, i) case Bad(e) => Bad(e) case Got(_, k) => Got(Skipped, k)
      else if t.wireType != schema[t.num] then Bad(WrongWireType)
      else if t.wireType == 0 then
        match ReadVarint(data, j) case Bad(e) => Bad(e) case Got(v, k) => Got(Number(t.num, v), k)
      else
        match ReadBytes(data, j) case Bad(e) => Bad(e) case Got(b, k) => Got(Blob(t.num, b), k)
  }

  /** Fields are merged in order of appearance until the cursor stands exactly at the end. */
  function ReadMessage<M>(schema: Schema, put: (M, Entry) -> Result<M, WireError>, m: M, data: Bytes, i: nat)
    : (r: Result<M, WireError>)
    requires i <= |data|
    decreases |data| - i
  {
    if i == |data| then Ok(m) else
    match ReadField(schema, data, i)
    case Bad(e) => Err(e)
    case Got(f, k) =>
      match put(m, f)
      case Err(e) => Err(e)
      case Ok(next) => ReadMessage(schema, put, next, data, k)
  }

  method DecodeField(schema: Schema, data: Bytes, preIndex: nat) returns (r: Read<Entry>)
    requires preIndex <= |data|
    ensures r == ReadField(schema, data, preIndex)
  {
    hide VarintFrom, SkipFrom;
    var tag := DecodeTag(data, preIndex);
    if tag.Bad? { return Bad(tag.error); }
    if tag.value.num !in schema {
      var skippy := DecodeUnknown(data, preIndex);
      return if skippy.Bad? then Bad(skippy.error) else Got(Skipped, skippy.next);
    }
    if tag.value.wireType != schema[tag.value.num] { return Bad(WrongWireType); }
    if tag.value.wireType == 0 {
      var v := DecodeVarint(data, tag.next);
      return if v.Bad? then Bad(v.error) else Got(Number(tag.value.num, v.value), v.next);
    }
    var b := DecodeBytes(data, tag.next);
    r := if b.Bad? then Bad(b.error) else Got(Blob(tag.value.num, b.value), b.next);
  }

  // ===== reading back what was written =====

  /** The fold of one repeated field into a message. */
  function PutAll<M>(put: (M, Entry) -> Result<M, WireError>, m: M, num: nat, bs: seq<Bytes>): Result<M, WireError> {
    if |bs| == 0 then Ok(m) else
    match put(m, Blob(num, bs[0])) case Err(e) => Err(e) case Ok(next) => PutAll(put, next, num, bs[1..])
  }

  lemma NumberReads(schema: Schema, data: Bytes, i: nat, tag: Byte, v: nat)
    requires At(data, i, EncUint(tag, v)) && 0 < v < U64
    requires 8 <= tag < 128 && tag % 8 == 0 && tag / 8 in schema && schema[tag / 8] == 0
    ensures ReadField(schema, data, i) == Got(Number(tag / 8, v), i + |EncUint(tag, v)|)
  {
    hide EncVarint, VarintFrom;
    AtSplit(data, i, [tag], EncVarint(v));
    TagReads(data, i, tag);
    UintReads(data, i + 1, v);
  }

  lemma BlobReads(schema: Schema, data: Bytes, i: nat, tag: Byte, b: Bytes)
    requires At(data, i, EncLen(tag, b)) && |data| < I63
    requires 8 <= tag < 128 && tag % 8 == 2 && tag / 8 in schema && schema[tag / 8] == 2
    ensures ReadField(schema, data, i) == Got(Blob(tag / 8, b), i + |EncLen(tag, b)|)
  {
    hide ReadTag, ReadBytes, EncVarint;
    LenReads(data, i, tag, b);
  }

  lemma {:induction false} RepReads<M>(schema: Schema, put: (M, Entry) -> Result<M, WireError>, m: M, data: Bytes,
                                       i: nat, tag: Byte, bs: seq<Bytes>, done: M)
    requires At(data, i, EncRep(tag, bs)) && |data| < I63
    requires 8 <= tag < 128 && tag % 8 == 2 && tag / 8 in schema && schema[tag / 8] == 2
    requires PutAll(put, m, tag / 8, bs) == Ok(done)
    ensures i + |EncRep(tag, bs)| <= |data|
    ensures ReadMessage(schema, put, m, data, i) == ReadMessage(schema, put, done, data, i + |EncRep(tag, bs)|)
    decreases |bs|
  {
    hide ReadField, EncLen;
    if |bs| > 0 {
      AtSplit(data, i, EncLen(tag, bs[0]), EncRep(tag, bs[1..]));
      BlobReads(schema, data, i, tag, bs[0]);
      var next := put(m, Blob(tag / 8, bs[0])).value;
      RepReads(schema, put, next, data, i + |EncLen(tag, bs[0])|, tag, bs[1..], done);
    }
  }

  lemma OptReads<M>(schema: Schema, put: (M, Entry) -> Result<M, WireError>, m: M, data: Bytes,
                    i: nat, tag: Byte, b: Bytes, done: M)
    requires At(data, i, EncOpt(tag, b)) && |data| < I63
    requires 8 <= tag < 128 && tag % 8 == 2 && tag / 8 in schema && schema[tag / 8] == 2
    requires if |b| == 0 then done == m else put(m, Blob(tag / 8, b)) == Ok(done)
    ensures i + |EncOpt(tag, b)| <= |data|
    ensures ReadMessage(schema, put, m, data, i) == ReadMessage(schema, put, done, data, i + |EncOpt(tag, b)|)
  {
    hide ReadField, EncLen;
    if |b| > 0 { BlobReads(schema, data, i, tag, b); }
  }

  lemma UintFieldReads<M>(schema: Schema, put: (M, Entry) -> Result<M, WireError>, m: M, data: Bytes,
                          i: nat, tag: Byte, v: nat, done: M)
    requires At(data, i, EncUint(tag, v)) && v < U64
    requires 8 <= tag < 128 && tag % 8 == 0 && tag / 8 in schema && schema[tag / 8] == 0
    requires if v == 0 then done == m else put(m, Number(tag / 8, v)) == Ok(done)
    ensures i + |EncUint(tag, v)| <= |data|
    ensures ReadMessage(schema, put, m, data, i) == ReadMessage(schema, put, done, data, i + |EncUint(tag, v)|)
  {
    hide ReadField, EncVarint;
    if v > 0 { NumberReads(schema, data, i, tag, v); }
  }

  /** A well-formed field of an unknown number changes nothing, wherever the cursor meets it. */
  lemma UnknownIgnored<M>(schema: Schema, put: (M, Entry) -> Result<M, WireError>, m: M, data: Bytes, i: nat,
                          u: Unknown)
    requires WellFormed(u) && 1 <= u.num < 0x8000_0000 && u.num !in schema
    requires At(data, i, EncUnknown(u)) && |data| < I63
    requires put(m, Skipped) == Ok(m)
    ensures i + |EncUnknown(u)| <= |data|
    ensures ReadMessage(schema, put, m, data, i) == ReadMessage(schema, put, m, data, i + |EncUnknown(u)|)
  {
    hide EncVarint, VarintFrom, SkipFrom;
    UnknownReads(data, i, u);
    UnknownTagReads(data, i, u);
  }

  lemma UnknownTagReads(data: Bytes, i: nat, u: Unknown)
    requires WellFormed(u) && 1 <= u.num < 0x8000_0000 && At(data, i, EncUnknown(u))
    ensures ReadTag(data, i).Got? && ReadTag(data, i).value.num == u.num
  {
    hide EncVarint, VarintFrom;
    var wire := UnknownWire(u);
    assert exists rest :: EncUnknown(u) == EncVarint(wire) + rest by {
      match u
      case Varint(n, v) => assert EncUnknown(u) == EncVarint(wire) + EncVarint(v);
      case Fixed64(n, b) => assert EncUnknown(u) == EncVarint(wire) + b;
      case Delimited(n, b) => assert EncUnknown(u) == EncVarint(wire) + (EncVarint(|b|) + b);
      case Group(n, us) => assert EncUnknown(u) == EncVarint(wire) + (EncUnknowns(us) + EncVarint(8 * n + 4));
      case Fixed32(n, b) => assert EncUnknown(u) == EncVarint(wire) + b;
    }
    var rest :| EncUnknown(u) == EncVarint(wire) + rest;
    AtSplit(data, i, EncVarint(wire), rest);
    UintReads(data, i, wire);
  }

  function UnknownWire(u: Unknown): (w: nat)
    ensures w / 8 == u.num && w % 8 != 4
  {
    8 * u.num + match u case Varint(_, _) => 0 case Fixed64(_, _) => 1 case Delimited(_, _) => 2
                case Group(_, _) => 3 case Fixed32(_, _) => 5
  }

  // ===== no accepted input is shorter than its message's own encoding =====

  lemma VarintIsMinimal(data: Bytes, i: nat)
    requires i <= |data|
    ensures var r := ReadVarint(data, i);
      r.Got? ==> r.value < U64 && |EncVarint(r.value)| <= r.next - i
  {
    hide EncVarint, VarintFrom;
    assert VarintLimit(0) == 1;
    VarintBounds(data, i, 0, 0);
    var r := ReadVarint(data, i);
    if r.Got? {
      PowValues();
      assert Pow128(10) == 128 * Pow128(9);
      VarintLength(r.value, r.next - i);
    }
  }

  /** A field read takes at least as many bytes as writing it back, and its numbers are
      64-bit values. */
  lemma FieldIsMinimal(schema: Schema, data: Bytes, i: nat, tag: Byte)
    requires i <= |data|
    ensures match ReadField(schema, data, i)
      case Got(Number(n, v), k) => v < U64 && |EncUint(tag, v)| <= k - i
      case Got(Blob(n, b), k) => |EncLen(tag, b)| <= k - i
      case _ => true
  {
    hide EncVarint, VarintFrom, SkipFrom;
    if ReadTag(data, i).Got? { VarintIsMinimal(data, ReadTag(data, i).next); }
  }

  // ===== what is refused =====

  /** A tag is refused for an end-of-group type and for a field number that is zero or
      negative as a 32-bit integer, and for nothing else. */
  lemma TagRefused(data: Bytes, i: nat, wire: nat)
    requires At(data, i, EncVarint(wire)) && wire < U64
    ensures i <= |data|
    ensures wire % 8 == 4 ==> ReadTag(data, i) == Bad(EndGroup)
    ensures var num := wire / 8 % 0x1_0000_0000;
      wire % 8 != 4 ==>
        if 1 <= num < 0x8000_0000 then ReadTag(data, i) == Got(Tag(num, wire % 8), i + |EncVarint(wire)|)
        else ReadTag(data, i) == Bad(IllegalTag)
  {
    hide EncVarint, VarintFrom;
    AtInside(data, i, EncVarint(wire));
    UintReads(data, i, wire);
  }

  /** A known field of another wire type than declared is refused. */
  lemma WrongTypeRefused(schema: Schema, data: Bytes, i: nat, num: nat, wireType: nat)
    requires 1 <= num < 0x1000_0000 && wireType < 8 && wireType != 4
    requires At(data, i, EncVarint(8 * num + wireType)) && num in schema && schema[num] != wireType
    ensures i <= |data| && ReadField(schema, data, i) == Bad(WrongWireType)
  {
    hide EncVarint, VarintFrom, ReadTag;
    TagRefused(data, i, 8 * num + wireType);
  }

  /** An unknown field of wire type 6 or 7 is refused. */
  lemma NoSuchTypeRefused(schema: Schema, data: Bytes, i: nat, num: nat, wireType: nat)
    requires 1 <= num < 0x1000_0000 && 6 <= wireType < 8
    requires At(data, i, EncVarint(8 * num + wireType)) && num !in schema
    ensures i <= |data| && ReadField(schema, data, i) == Bad(IllegalWireType)
  {
    hide EncVarint, VarintFrom, ReadTag;
    var wire := 8 * num + wireType;
    TagRefused(data, i, wire);
    AtInside(data, i, EncVarint(wire));
    var s := data[i..];
    assert s[0..|EncVarint(wire)|] == data[i..i + |EncVarint(wire)|];
    UintReads(s, 0, wire);
  }

  /** A length that is negative as a 64-bit integer is refused, and so is one that reaches
      past the input. */
  lemma LengthRefused(data: Bytes, i: nat, n: nat)
    requires At(data, i, EncVarint(n)) && n < U64 && |data| < I63
    ensures i <= |data|
    ensures n >= 0x8000_0000_0000_0000 ==> ReadBytes(data, i) == Bad(InvalidLength)
    ensures ReadBytes(data, i).Got? <==> i + |EncVarint(n)| + n <= |data|
  {
    hide EncVarint, VarintFrom;
    AtInside(data, i, EncVarint(n));
    UintReads(data, i, n);
  }

  /** Ten bytes without an end are an overflow, and an input that ends inside a varint is
      cut short. */
  lemma {:induction false} UnendedRefused(data: Bytes, i: nat, k: nat, acc: nat)
    requires i <= |data| && k <= 10
    requires forall p | i <= p < |data| && p < i + (10 - k) :: data[p] >= 128
    ensures VarintFrom(data, i, k, acc) == Bad(if i + (10 - k) <= |data| then IntOverflow else UnexpectedEOF)
    decreases 10 - k
  {
    hide Pow128;
    if k < 10 && i < |data| { UnendedRefused(data, i + 1, k + 1, acc + data[i] % 128 * Pow128(k) % U64); }
  }
}
