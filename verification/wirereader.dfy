/** The cursor-based reader of the generated code.  Lengths and cursors are 64-bit signed
    machine integers, so a sum that reaches 2^63 has wrapped to a negative number. */
module WireReader {
  import opened Field
  import opened Wire

  datatype WireError =
    | IntOverflow | UnexpectedEOF | InvalidLength | EndGroup | IllegalTag | WrongWireType | IllegalWireType
    | UnexpectedEndOfGroup

  const I63: int := 0x8000_0000_0000_0000

  datatype Read<+T> = Got(value: T, next: nat) | Bad(error: WireError)

  datatype Tag = Tag(num: nat, wireType: nat)

  function Pow128(k: nat): (r: nat)
    ensures r > 0
  {
    if k == 0 then 1 else 128 * Pow128(k - 1)
  }

  // ===== varints =====

  /** A varint read from `i`, after `k` bytes that contributed `acc`; the shift drops what
      leaves the 64-bit word. */
  function VarintFrom(data: Bytes, i: nat, k: nat, acc: nat): (r: Read<nat>)
    requires i <= |data|
    ensures r.Got? ==> i < r.next <= |data|
    decreases |data| - i
  {
    if k >= 10 then Bad(IntOverflow)
    else if i == |data| then Bad(UnexpectedEOF)
    else
      var v := acc + data[i] % 128 * Pow128(k) % U64;
      if data[i] < 128 then Got(v, i + 1) else VarintFrom(data, i + 1, k + 1, v)
  }

  function ReadVarint(data: Bytes, i: nat): (r: Read<nat>)
    requires i <= |data|
    ensures r.Got? ==> i < r.next <= |data|
  {
    VarintFrom(data, i, 0, 0)
  }

  method DecodeVarint(data: Bytes, start: nat) returns (r: Read<nat>)
    requires start <= |data|
    ensures r == ReadVarint(data, start)
  {
    var i, k := start, 0;
    var acc: nat := 0;
    while true
      invariant start <= i <= |data|
      invariant VarintFrom(data, i, k, acc) == ReadVarint(data, start)
      decreases |data| - i
    {
      if k >= 10 { return Bad(IntOverflow); }
      if i >= |data| { return Bad(UnexpectedEOF); }
      var b := data[i];
      i := i + 1;
      acc := acc + b % 128 * Pow128(k) % U64;
      if b < 128 { return Got(acc, i); }
      k := k + 1;
    }
  }

  /** What the first `k` bytes can contribute. */
  function VarintLimit(k: nat): (r: nat) {
    if k <= 9 then Pow128(k) else U64
  }

  lemma PowValues()
    ensures Pow128(9) == I63
  {
    assert Pow128(1) == 128 && Pow128(2) == 16384 && Pow128(3) == 2097152;
    assert Pow128(5) == 128 * (128 * Pow128(3));
    assert Pow128(7) == 128 * (128 * Pow128(5));
  }

  /** A byte's contribution: below the 64th bit nothing is dropped, and the tenth byte adds
      its lowest bit only. */
  lemma DigitFits(d: nat, k: nat, acc: nat)
    requires d < 128 && k < 10 && acc < VarintLimit(k)
    ensures acc + d * Pow128(k) % U64 < VarintLimit(k + 1)
    ensures k < 9 ==> d * Pow128(k) % U64 == d * Pow128(k)
  {
    var p := Pow128(k);
    PowValues();
    if k < 9 {
      PowGrows(k + 1, 9);
      assert d * p <= 127 * p;
      assert Pow128(k + 1) == 128 * p;
    } else {
      TopDigit(d);
    }
  }

  /** A varint is a 64-bit value, the loop's or-ing never carries, and `n` bytes carry less
      than 128^n. */
  lemma {:induction false} VarintBounds(data: Bytes, i: nat, k: nat, acc: nat)
    requires i <= |data| && k <= 10 && acc < VarintLimit(k)
    ensures var r := VarintFrom(data, i, k, acc);
      r.Got? ==> r.value < U64 && k + r.next - i <= 10 && r.value < VarintLimit(k + r.next - i)
    decreases |data| - i
  {
    hide VarintLimit, Pow128;
    if k < 10 && i < |data| {
      DigitFits(data[i] % 128, k, acc);
      VarintLimitIn64(k + 1);
      if data[i] >= 128 {
        var next := acc + data[i] % 128 * Pow128(k) % U64;
        VarintBounds(data, i + 1, k + 1, next);
      }
    }
  }

  /** A varint ends at its first byte below 128. */
  lemma {:induction false} VarintEnds(data: Bytes, i: nat, k: nat, acc: nat)
    requires i <= |data| && VarintFrom(data, i, k, acc).Got?
    ensures var next := VarintFrom(data, i, k, acc).next;
      data[next - 1] < 128 && forall p | i <= p < next - 1 :: data[p] >= 128
    decreases |data| - i
  {
    var v := acc + data[i] % 128 * Pow128(k) % U64;
    hide Pow128;
    if data[i] >= 128 { VarintEnds(data, i + 1, k + 1, v); }
  }

  /** The number a run of seven-bit digits writes, the low ones first. */
  function Digits(b: Bytes): nat {
    if |b| == 0 then 0 else b[0] % 128 + 128 * Digits(b[1..])
  }

  /** Whatever bytes are read, shortest form or not, the value is the number their digits write,
      cut to 64 bits. */
  lemma {:induction false} VarintValue(data: Bytes, i: nat, k: nat, acc: nat)
    requires i <= |data| && acc < VarintLimit(k) && VarintFrom(data, i, k, acc).Got?
    ensures var r := VarintFrom(data, i, k, acc);
      r.value == (acc + Digits(data[i..r.next]) * Pow128(k)) % U64
    decreases |data| - i
  {
    hide VarintLimit, Pow128, Digits;
    var r, d, p := VarintFrom(data, i, k, acc), data[i] % 128, Pow128(k);
    var v := acc + d * p % U64;
    DigitFits(d, k, acc);
    VarintLimitIn64(k + 1);
    DigitsFrom(data, i, r.next);
    if data[i] >= 128 {
      VarintValue(data, i + 1, k + 1, v);
      PowNext(k);
      Carried(acc, d, Digits(data[i + 1..r.next]), p);
    } else {
      Carried(acc, d, 0, p);
    }
  }

  lemma DigitsFrom(data: Bytes, i: nat, next: nat)
    requires i < next <= |data|
    ensures Digits(data[i..next]) == data[i] % 128 + 128 * Digits(data[i + 1..next])
    ensures next == i + 1 ==> Digits(data[i..next]) == data[i] % 128
  {
    assert data[i..next][1..] == data[i + 1..next];
  }

  /** Cutting one digit to 64 bits before the rest is added cuts the sum all the same. */
  lemma Carried(acc: nat, d: nat, rest: nat, p: nat)
    ensures (acc + d * p % U64 + rest * (128 * p)) % U64 == (acc + (d + 128 * rest) * p) % U64
    ensures acc + d * p % U64 < U64 ==> acc + d * p % U64 == (acc + d * p) % U64
  {
    var x := d * p;
    assert (d + 128 * rest) * p == x + rest * (128 * p);
    assert x == x / U64 * U64 + x % U64;
  }

  /** Byte `k` of a written varint is digit `k`, with the high bit on all but the last. */
  lemma {:induction false} VarintBytes(v: nat, k: nat)
    requires k < |EncVarint(v)|
    ensures EncVarint(v)[k] == v / Pow128(k) % 128 + (if k + 1 < |EncVarint(v)| then 128 else 0)
    decreases v
  {
    if k > 0 {
      NextDigit(v, k);
      hide Pow128;
      VarintBytes(v / 128, k - 1);
    }
  }

  lemma NextDigit(v: nat, k: nat)
    requires k > 0
    ensures v / Pow128(k) == v / 128 / Pow128(k - 1)
  {
    DivTwice(v / 128, v % 128, 128, Pow128(k - 1));
  }

  /** No digit is left out. */
  lemma {:induction false} VarintDigits(v: nat)
    ensures Digits(EncVarint(v)) == v
  {
    if v >= 128 {
      VarintDigits(v / 128);
      assert EncVarint(v)[1..] == EncVarint(v / 128);
    }
  }

  lemma TopDigit(d: nat)
    requires d < 128
    ensures d * I63 % U64 <= I63
  {
    assert d * I63 == d / 2 * U64 + d % 2 * I63;
    assert (d / 2 * U64 + d % 2 * I63) % U64 == d % 2 * I63;
  }

  lemma {:induction false} PowGrows(a: nat, b: nat)
    requires a <= b
    ensures Pow128(a) <= Pow128(b)
    decreases b
  {
    if a < b { PowGrows(a, b - 1); }
  }

  lemma VarintLimitIn64(k: nat)
    ensures VarintLimit(k) <= U64
  {
    PowValues();
    if k <= 9 { PowGrows(k, 9); }
  }

  /** A value below 128^n is written in at most `n` bytes. */
  lemma {:induction false} VarintLength(v: nat, n: nat)
    requires n >= 1 && v < Pow128(n)
    ensures |EncVarint(v)| <= n
  {
    if v >= 128 { VarintLength(v / 128, n - 1); }
  }

  /** `e` stands in `data` at `i`. */
  ghost predicate At(data: Bytes, i: nat, e: Bytes) {
    i + |e| <= |data| && data[i..i + |e|] == e
  }

  lemma AtInside(data: Bytes, i: nat, e: Bytes)
    requires At(data, i, e)
    ensures i + |e| <= |data| && (|e| > 0 ==> data[i] == e[0])
  {
  }

  lemma AtSplit(data: Bytes, i: nat, a: Bytes, b: Bytes)
    requires At(data, i, a + b)
    ensures At(data, i, a) && At(data, i + |a|, b)
  {
    var e := a + b;
    assert data[i..i + |a|] == e[..|a|] == a;
    assert data[i + |a|..i + |a| + |b|] == e[|a|..] == b;
  }

  lemma DigitStep(v: nat, p: nat, acc: nat)
    requires p > 0 && acc + v * p < U64
    ensures v % 128 * p % U64 == v % 128 * p
    ensures acc + v % 128 * p + v / 128 * (128 * p) == acc + v * p
  {
    var d, w := v % 128, v / 128;
    assert v == 128 * w + d;
    assert v * p == d * p + w * (128 * p);
    assert w * (128 * p) >= 0 && d * p >= 0;
  }

  lemma ShiftStaysSmall(k: nat, v: nat)
    requires k == 0 || v > 0
    requires v * Pow128(k) < U64
    ensures k < 10
  {
    PowValues();
    assert Pow128(10) == 128 * Pow128(9);
    if k >= 10 {
      PowGrows(10, k);
      Multiples(v, Pow128(k));
    }
  }

  lemma Multiples(v: nat, p: nat)
    requires v > 0
    ensures v * p >= p
  {
    assert v * p == p + (v - 1) * p;
  }

  lemma PowNext(k: nat)
    ensures Pow128(k + 1) == 128 * Pow128(k)
  {
  }

  /** One byte of the loop, when nothing leaves the 64-bit word. */
  lemma VarintByte(data: Bytes, i: nat, k: nat, acc: nat, b: Byte, d: nat)
    requires i < |data| && data[i] == b && k < 10 && d == b % 128 && d * Pow128(k) % U64 == d * Pow128(k)
    ensures b < 128 ==> VarintFrom(data, i, k, acc) == Got(acc + d * Pow128(k), i + 1)
    ensures d * Pow128(k) >= 0
    ensures b >= 128 ==> VarintFrom(data, i, k, acc) == VarintFrom(data, i + 1, k + 1, acc + d * Pow128(k))
  {
  }

  /** The reader inverts the writer on every 64-bit value. */
  lemma {:induction false} VarintReads(data: Bytes, i: nat, k: nat, acc: nat, v: nat)
    requires At(data, i, EncVarint(v)) && (k == 0 || v > 0) && acc + v * Pow128(k) < U64
    ensures VarintFrom(data, i, k, acc) == Got(acc + v * Pow128(k), i + |EncVarint(v)|)
    decreases v
  {
    hide Pow128, VarintFrom, At;
    var p := Pow128(k);
    assert v * p >= 0;
    ShiftStaysSmall(k, v);
    DigitStep(v, p, acc);
    if v < 128 {
      AtInside(data, i, [v]);
      VarintByte(data, i, k, acc, v, v);
    } else {
      var d, w := v % 128, v / 128;
      AtSplit(data, i, [d + 128], EncVarint(w));
      var acc' := acc + d * p;
      AtInside(data, i, [d + 128]);
      VarintByte(data, i, k, acc, d + 128, d);
      PowNext(k);
      VarintReads(data, i + 1, k + 1, acc', w);
    }
  }

  // ===== tags and length-delimited payloads =====

  /** The field number is truncated to a signed 32-bit integer. */
  function ReadTag(data: Bytes, i: nat): (r: Read<Tag>)
    requires i <= |data|
    ensures r.Got? ==> i < r.next <= |data| && 1 <= r.value.num < 0x8000_0000
  {
    match ReadVarint(data, i)
    case Bad(e) => Bad(e)
    case Got(wire, j) =>
      var num := wire / 8 % U32;
      if wire % 8 == 4 then Bad(EndGroup)
      else if num == 0 || num >= 0x8000_0000 then Bad(IllegalTag)
      else Got(Tag(num, wire % 8), j)
  }

  /** A length and that many bytes: a length of 2^63 or more is negative, and so is an end
      position that reaches 2^63. */
  function ReadBytes(data: Bytes, i: nat): (r: Read<Bytes>)
    requires i <= |data|
    ensures r.Got? ==> i < r.next <= |data| && i + |r.value| < r.next
  {
    match ReadVarint(data, i)
    case Bad(e) => Bad(e)
    case Got(n, j) =>
      if n >= I63 || j + n >= I63 then Bad(InvalidLength)
      else if j + n > |data| then Bad(UnexpectedEOF)
      else Got(data[j..j + n], j + n)
  }

  method DecodeTag(data: Bytes, i: nat) returns (r: Read<Tag>)
    requires i <= |data|
    ensures r == ReadTag(data, i)
  {
    var w := DecodeVarint(data, i);
    if w.Bad? { return Bad(w.error); }
    var fieldNum := w.value / 8 % U32;
    if w.value % 8 == 4 { return Bad(EndGroup); }
    if fieldNum == 0 || fieldNum >= 0x8000_0000 { return Bad(IllegalTag); }
    r := Got(Tag(fieldNum, w.value % 8), w.next);
  }

  method DecodeBytes(data: Bytes, i: nat) returns (r: Read<Bytes>)
    requires i <= |data|
    ensures r == ReadBytes(data, i)
  {
    var n := DecodeVarint(data, i);
    if n.Bad? { return Bad(n.error); }
    if n.value >= I63 { return Bad(InvalidLength); }
    var postIndex := n.next + n.value;
    if postIndex >= I63 { return Bad(InvalidLength); }
    if postIndex > |data| { return Bad(UnexpectedEOF); }
    r := Got(data[n.next..postIndex], postIndex);
  }

  lemma TagReads(data: Bytes, i: nat, tag: Byte)
    requires At(data, i, [tag]) && 8 <= tag < 128 && tag % 8 != 4
    ensures ReadTag(data, i) == Got(Tag(tag / 8, tag % 8), i + 1)
  {
    assert EncVarint(tag) == [tag];
    assert Pow128(0) == 1;
    VarintReads(data, i, 0, 0, tag);
  }

  lemma UintReads(data: Bytes, i: nat, v: nat)
    requires At(data, i, EncVarint(v)) && v < U64
    ensures ReadVarint(data, i) == Got(v, i + |EncVarint(v)|)
  {
    assert Pow128(0) == 1;
    VarintReads(data, i, 0, 0, v);
  }

  /** A length-delimited field read back. */
  lemma LenReads(data: Bytes, i: nat, tag: Byte, b: Bytes)
    requires At(data, i, EncLen(tag, b)) && 8 <= tag < 128 && tag % 8 == 2 && |data| < I63
    ensures ReadTag(data, i) == Got(Tag(tag / 8, 2), i + 1)
    ensures ReadBytes(data, i + 1) == Got(b, i + |EncLen(tag, b)|)
  {
    hide EncVarint, VarintFrom;
    AtSplit(data, i, [tag], EncVarint(|b|) + b);
    AtSplit(data, i + 1, EncVarint(|b|), b);
    TagReads(data, i, tag);
    UintReads(data, i + 1, |b|);
  }

  // ===== unknown fields =====

  /** The cursor and the group depth after one field of the given wire type. */
  function SkipValue(s: Bytes, i: nat, wireType: nat, depth: nat): (r: Result<(nat, nat), WireError>)
    requires i <= |s|
    ensures r.Ok? ==> r.value.0 >= i
  {
    if wireType == 0 then
      match ReadVarint(s, i) case Bad(e) => Err(e) case Got(_, j) => Ok((j, depth))
    else if wireType == 1 then Ok((i + 8, depth))
    else if wireType == 2 then
      match ReadVarint(s, i)
      case Bad(e) => Err(e)
      case Got(n, j) => if n >= I63 then Err(InvalidLength) else Ok((j + n, depth))
    else if wireType == 3 then Ok((i, depth + 1))
    else if wireType == 4 then if depth == 0 then Err(UnexpectedEndOfGroup) else Ok((i, depth - 1))
    else if wireType == 5 then Ok((i + 4, depth))
    else Err(IllegalWireType)
  }

  /** The length of the field that starts at `i`, inside `depth` open groups.  The cursor may
      run past the end; the caller checks. */
  function SkipFrom(s: Bytes, i: nat, depth: nat): (r: Result<nat, WireError>)
    ensures r.Ok? ==> i < r.value < I63
    decreases |s| - i
  {
    if i >= |s| then Err(UnexpectedEOF) else
    match ReadVarint(s, i)
    case Bad(e) => Err(e)
    case Got(wire, j) =>
      match SkipValue(s, j, wire % 8, depth)
      case Err(e) => Err(e)
      case Ok(p) =>
        if p.0 >= I63 then Err(InvalidLength)
        else if p.1 == 0 then Ok(p.0)
        else SkipFrom(s, p.0, p.1)
  }

  function SkipField(data: Bytes, pre: nat): (r: Read<()>)
    requires pre <= |data|
    ensures r.Got? ==> pre < r.next <= |data|
  {
    match SkipFrom(data[pre..], 0, 0)
    case Err(e) => Bad(e)
    case Ok(n) =>
      if pre + n >= I63 then Bad(InvalidLength)
      else if pre + n > |data| then Bad(UnexpectedEOF)
      else Got((), pre + n)
  }

  method Skip(s: Bytes) returns (r: Result<nat, WireError>)
    ensures r == SkipFrom(s, 0, 0)
  {
    hide VarintFrom, ReadVarint;
    var i, depth := 0, 0;
    while i < |s|
      invariant SkipFrom(s, i, depth) == SkipFrom(s, 0, 0)
      decreases |s| - i
    {
      var wire := DecodeVarint(s, i);
      if wire.Bad? { return Err(wire.error); }
      i := wire.next;
      match wire.value % 8 {
        case 0 =>
          var v := DecodeVarint(s, i);
          if v.Bad? { return Err(v.error); }
          i := v.next;
        case 1 => i := i + 8;
        case 2 =>
          var n := DecodeVarint(s, i);
          if n.Bad? { return Err(n.error); }
          if n.value >= I63 { return Err(InvalidLength); }
          i := n.next + n.value;
        case 3 => depth := depth + 1;
        case 4 =>
          if depth == 0 { return Err(UnexpectedEndOfGroup); }
          depth := depth - 1;
        case 5 => i := i + 4;
        case _ => return Err(IllegalWireType);
      }
      if i >= I63 { return Err(InvalidLength); }
      if depth == 0 { return Ok(i); }
    }
    r := Err(UnexpectedEOF);
  }

  method DecodeUnknown(data: Bytes, pre: nat) returns (r: Read<()>)
    requires pre <= |data|
    ensures r == SkipField(data, pre)
  {
    var n := Skip(data[pre..]);
    if n.Err? { return Bad(n.error); }
    if pre + n.value >= I63 { return Bad(InvalidLength); }
    if pre + n.value > |data| { return Bad(UnexpectedEOF); }
    r := Got((), pre + n.value);
  }

  /** A well-formed field of a schema this reader does not know. */
  datatype Unknown =
    | Varint(num: nat, value: nat)
    | Fixed64(num: nat, bytes: Bytes)
    | Delimited(num: nat, bytes: Bytes)
    | Group(num: nat, fields: seq<Unknown>)
    | Fixed32(num: nat, bytes: Bytes)

  predicate WellFormed(u: Unknown) {
    && u.num * 8 + 7 < U64
    && match u
       case Varint(_, v) => v < U64
       case Fixed64(_, b) => |b| == 8
       case Delimited(_, b) => true
       case Group(_, us) => forall k | 0 <= k < |us| :: WellFormed(us[k])
       case Fixed32(_, b) => |b| == 4
  }

  function EncUnknown(u: Unknown): Bytes {
    match u
    case Varint(n, v) => EncVarint(8 * n) + EncVarint(v)
    case Fixed64(n, b) => EncVarint(8 * n + 1) + b
    case Delimited(n, b) => EncVarint(8 * n + 2) + (EncVarint(|b|) + b)
    case Group(n, us) => EncVarint(8 * n + 3) + (EncUnknowns(us) + EncVarint(8 * n + 4))
    case Fixed32(n, b) => EncVarint(8 * n + 5) + b
  }

  function EncUnknowns(us: seq<Unknown>): Bytes {
    if |us| == 0 then [] else EncUnknown(us[0]) + EncUnknowns(us[1..])
  }

  function Resume(s: Bytes, i: nat, depth: nat): Result<nat, WireError> {
    if depth == 0 then Ok(i) else SkipFrom(s, i, depth)
  }

  /** One round of the skipper's loop over a tag that stands at `i`. */
  lemma SkipRound(s: Bytes, i: nat, depth: nat, wire: nat)
    requires At(s, i, EncVarint(wire)) && wire < U64
    ensures var j := i + |EncVarint(wire)|;
      && j <= |s|
      && SkipFrom(s, i, depth) == match SkipValue(s, j, wire % 8, depth)
                                  case Err(e) => Err(e)
                                  case Ok(p) => if p.0 >= I63 then Err(InvalidLength) else Resume(s, p.0, p.1)
  {
    hide EncVarint, VarintFrom, SkipValue;
    AtInside(s, i, EncVarint(wire));
    UintReads(s, i, wire);
  }

  lemma ResumeOpen(s: Bytes, i: nat, depth: nat)
    requires depth > 0
    ensures Resume(s, i, depth) == SkipFrom(s, i, depth)
  {
  }

  lemma SkipsPayload(s: Bytes, i: nat, depth: nat, wire: nat, b: Bytes)
    requires At(s, i, EncVarint(wire) + b) && wire < U64 && |s| < I63
    requires (wire % 8 == 1 && |b| == 8) || (wire % 8 == 5 && |b| == 4)
    ensures SkipFrom(s, i, depth) == Resume(s, i + |EncVarint(wire) + b|, depth)
  {
    hide EncVarint, VarintFrom, SkipFrom;
    AtSplit(s, i, EncVarint(wire), b);
    SkipRound(s, i, depth, wire);
  }

  lemma SkipsVarint(s: Bytes, i: nat, depth: nat, wire: nat, v: nat)
    requires At(s, i, EncVarint(wire) + EncVarint(v)) && wire < U64 && |s| < I63
    requires wire % 8 == 0 && v < U64
    ensures SkipFrom(s, i, depth) == Resume(s, i + |EncVarint(wire) + EncVarint(v)|, depth)
  {
    hide EncVarint, VarintFrom, SkipFrom;
    AtSplit(s, i, EncVarint(wire), EncVarint(v));
    SkipRound(s, i, depth, wire);
    UintReads(s, i + |EncVarint(wire)|, v);
  }

  lemma SkipsDelimited(s: Bytes, i: nat, depth: nat, wire: nat, b: Bytes)
    requires At(s, i, EncVarint(wire) + (EncVarint(|b|) + b)) && wire < U64 && |s| < I63
    requires wire % 8 == 2
    ensures SkipFrom(s, i, depth) == Resume(s, i + |EncVarint(wire) + (EncVarint(|b|) + b)|, depth)
  {
    hide EncVarint, VarintFrom, SkipFrom;
    AtSplit(s, i, EncVarint(wire), EncVarint(|b|) + b);
    var j := i + |EncVarint(wire)|;
    AtSplit(s, j, EncVarint(|b|), b);
    SkipRound(s, i, depth, wire);
    UintReads(s, j, |b|);
  }

  lemma SkipsMark(s: Bytes, i: nat, depth: nat, wire: nat)
    requires At(s, i, EncVarint(wire)) && wire < U64 && |s| < I63
    requires wire % 8 == 3 || (wire % 8 == 4 && depth > 0)
    ensures SkipFrom(s, i, depth)
         == Resume(s, i + |EncVarint(wire)|, if wire % 8 == 3 then depth + 1 else depth - 1)
  {
    hide EncVarint, VarintFrom, SkipFrom;
    SkipRound(s, i, depth, wire);
  }

  /** The skipper passes over exactly one well-formed field, however deeply groups nest. */
  lemma {:induction false} SkipsOneField(s: Bytes, i: nat, depth: nat, u: Unknown)
    requires WellFormed(u) && At(s, i, EncUnknown(u)) && |s| < I63
    ensures SkipFrom(s, i, depth) == Resume(s, i + |EncUnknown(u)|, depth)
    decreases u, 0
  {
    hide EncVarint, VarintFrom, SkipFrom, At, Resume;
    match u
    case Varint(n, v) => SkipsVarint(s, i, depth, 8 * n, v);
    case Fixed64(n, b) => SkipsPayload(s, i, depth, 8 * n + 1, b);
    case Delimited(n, b) => SkipsDelimited(s, i, depth, 8 * n + 2, b);
    case Fixed32(n, b) => SkipsPayload(s, i, depth, 8 * n + 5, b);
    case Group(n, us) => SkipsGroup(s, i, depth, n, us);
  }

  lemma {:induction false} SkipsGroup(s: Bytes, i: nat, depth: nat, n: nat, us: seq<Unknown>)
    requires WellFormed(Group(n, us)) && At(s, i, EncUnknown(Group(n, us))) && |s| < I63
    ensures SkipFrom(s, i, depth) == Resume(s, i + |EncUnknown(Group(n, us))|, depth)
    decreases us, 2
  {
    hide EncVarint, VarintFrom, SkipFrom, At, Resume;
    var open, close := EncVarint(8 * n + 3), EncVarint(8 * n + 4);
    var j := i + |open|;
    AtSplit(s, i, open, EncUnknowns(us) + close);
    AtSplit(s, j, EncUnknowns(us), close);
    SkipsMark(s, i, depth, 8 * n + 3);
    ResumeOpen(s, j, depth + 1);
    SkipsFields(s, j, depth + 1, us);
    SkipsMark(s, j + |EncUnknowns(us)|, depth + 1, 8 * n + 4);
  }

  lemma {:induction false} SkipsFields(s: Bytes, i: nat, depth: nat, us: seq<Unknown>)
    requires depth > 0 && At(s, i, EncUnknowns(us)) && |s| < I63
    requires forall k | 0 <= k < |us| :: WellFormed(us[k])
    ensures SkipFrom(s, i, depth) == SkipFrom(s, i + |EncUnknowns(us)|, depth)
    decreases us, 1
  {
    hide SkipFrom, EncUnknown;
    if |us| > 0 {
      AtSplit(s, i, EncUnknown(us[0]), EncUnknowns(us[1..]));
      SkipsOneField(s, i, depth, us[0]);
      SkipsFields(s, i + |EncUnknown(us[0])|, depth, us[1..]);
    }
  }

  lemma UnknownReads(data: Bytes, i: nat, u: Unknown)
    requires WellFormed(u) && At(data, i, EncUnknown(u)) && |data| < I63
    ensures SkipField(data, i) == Got((), i + |EncUnknown(u)|)
  {
    hide SkipFrom, EncUnknown;
    assert data[i..][..|EncUnknown(u)|] == data[i..i + |EncUnknown(u)|];
    SkipsOneField(data[i..], 0, 0, u);
  }
}
