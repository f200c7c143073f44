/** The wire form of a Transact message with its nested notes, and of its response with
    packed leaf indices.  Field number `n` of wire type 2 has the tag byte `8n + 2`. */
module TransactWire {
  import opened Field
  import opened Types
  import opened Wire
  import opened WireReader
  import opened WireMessages

  // ===== OutputNote =====

  function NoteField(m: OutputNote, n: nat): Bytes {
    if n == 1 then m.noteHash
    else if n == 2 then m.ephemeralX
    else if n == 3 then m.ephemeralY
    else if n == 4 then m.encAmount
    else if n == 5 then m.encSalt
    else if n == 6 then m.auditorEnc
    else if n == 7 then m.auditorAuthKeyX
    else if n == 8 then m.auditorAuthKeyY
    else m.auditorEncRecipient
  }

  function SetNoteField(m: OutputNote, n: nat, b: Bytes): OutputNote {
    if n == 1 then m.(noteHash := b)
    else if n == 2 then m.(ephemeralX := b)
    else if n == 3 then m.(ephemeralY := b)
    else if n == 4 then m.(encAmount := b)
    else if n == 5 then m.(encSalt := b)
    else if n == 6 then m.(auditorEnc := b)
    else if n == 7 then m.(auditorAuthKeyX := b)
    else if n == 8 then m.(auditorAuthKeyY := b)
    else m.(auditorEncRecipient := b)
  }

  /** Fields `n` to 9 of a note. */
  function EncNoteFrom(m: OutputNote, n: nat): Bytes
    requires 1 <= n <= 10
    decreases 10 - n
  {
    if n == 10 then [] else EncOpt(8 * n + 2, NoteField(m, n)) + EncNoteFrom(m, n + 1)
  }

  function EncNote(m: OutputNote): Bytes { EncNoteFrom(m, 1) }

  const NOTE: Schema := map[1 := 2, 2 := 2, 3 := 2, 4 := 2, 5 := 2, 6 := 2, 7 := 2, 8 := 2, 9 := 2]

  const EMPTY_NOTE := OutputNote([], [], [], [], [], [], [], [], [])

  function PutNote(m: OutputNote, f: Entry): Result<OutputNote, WireError> {
    match f
    case Blob(n, b) => Ok(SetNoteField(m, n, b))
    case _ => Ok(m)
  }

  function ReadNote(data: Bytes): Result<OutputNote, WireError> {
    ReadMessage(NOTE, PutNote, EMPTY_NOTE, data, 0)
  }

  function SizeNoteFrom(m: OutputNote, n: nat): nat
    requires 1 <= n <= 10
    decreases 10 - n
  {
    if n == 10 then 0 else SizeOpt(NoteField(m, n)) + SizeNoteFrom(m, n + 1)
  }

  lemma {:induction false} NoteSizeFrom(m: OutputNote, n: nat)
    requires 1 <= n <= 10
    ensures SizeNoteFrom(m, n) == |EncNoteFrom(m, n)|
    decreases 10 - n
  {
    if n < 10 {
      SizesOf(8 * n + 2, 0, NoteField(m, n));
      NoteSizeFrom(m, n + 1);
    }
  }

  method NoteSize(m: OutputNote) returns (n: nat)
    ensures n == |EncNote(m)|
  {
    hide SizeOpt, EncNoteFrom;
    NoteSizeFrom(m, 1);
    n := SizeOpt(m.noteHash) + SizeOpt(m.ephemeralX) + SizeOpt(m.ephemeralY);
    n := n + SizeOpt(m.encAmount) + SizeOpt(m.encSalt) + SizeOpt(m.auditorEnc);
    n := n + SizeOpt(m.auditorAuthKeyX) + SizeOpt(m.auditorAuthKeyY) + SizeOpt(m.auditorEncRecipient);
    NoteSizeUnrolled(m);
  }

  lemma NoteSizeUnrolled(m: OutputNote)
    ensures SizeNoteFrom(m, 1)
         == SizeOpt(m.noteHash) + SizeOpt(m.ephemeralX) + SizeOpt(m.ephemeralY) + SizeOpt(m.encAmount)
          + SizeOpt(m.encSalt) + SizeOpt(m.auditorEnc) + SizeOpt(m.auditorAuthKeyX) + SizeOpt(m.auditorAuthKeyY)
          + SizeOpt(m.auditorEncRecipient)
  {
    hide SizeOpt;
    assert SizeNoteFrom(m, 8) == SizeOpt(m.auditorAuthKeyY) + SizeOpt(m.auditorEncRecipient);
    assert SizeNoteFrom(m, 6) == SizeOpt(m.auditorEnc) + SizeOpt(m.auditorAuthKeyX) + SizeNoteFrom(m, 8);
    assert SizeNoteFrom(m, 4) == SizeOpt(m.encAmount) + SizeOpt(m.encSalt) + SizeNoteFrom(m, 6);
    assert SizeNoteFrom(m, 2) == SizeOpt(m.ephemeralX) + SizeOpt(m.ephemeralY) + SizeNoteFrom(m, 4);
  }

  /** Writes one field of a note in front of the later ones. */
  method PutNoteField(a: array<Byte>, i: nat, tag: Byte, b: Bytes, ghost m: OutputNote, ghost n: nat,
                      ghost s0: Bytes, ghost hi: nat)
    returns (j: nat)
    requires 1 <= n <= 9 && tag == 8 * n + 2 && b == NoteField(m, n)
    requires |EncNoteFrom(m, n)| <= hi <= a.Length && i + |EncNoteFrom(m, n + 1)| == hi
    requires Wrote(s0, a[..], i, hi, EncNoteFrom(m, n + 1))
    modifies a
    ensures j + |EncNoteFrom(m, n)| == hi && Wrote(s0, a[..], j, hi, EncNoteFrom(m, n))
  {
    hide EncOpt, Wrote;
    j := PutOpt(a, i, tag, b, s0, hi, EncNoteFrom(m, n + 1));
  }

  lemma {:induction false} NoteFieldsFit(m: OutputNote, n: nat)
    requires 1 <= n <= 10
    ensures |EncNoteFrom(m, n)| <= |EncNote(m)|
    decreases n
  {
    hide EncOpt, NoteField;
    if n > 1 { NoteFieldsFit(m, n - 1); }
  }

  /** Writes a note so that it ends just before `hi`. */
  method MarshalNoteTo(a: array<Byte>, hi: nat, m: OutputNote) returns (i: nat)
    requires |EncNote(m)| <= hi <= a.Length
    modifies a
    ensures i + |EncNote(m)| == hi && Wrote(old(a[..]), a[..], i, hi, EncNote(m))
  {
    hide EncNoteFrom, Wrote;
    forall n: nat | 1 <= n <= 10 ensures |EncNoteFrom(m, n)| <= |EncNote(m)| { NoteFieldsFit(m, n); }
    ghost var s0 := a[..];
    WroteNothing(s0, hi);
    NoteEnds(m);
    i := PutNoteField(a, hi, 0x4a, m.auditorEncRecipient, m, 9, s0, hi);
    i := PutNoteField(a, i, 0x42, m.auditorAuthKeyY, m, 8, s0, hi);
    i := PutNoteField(a, i, 0x3a, m.auditorAuthKeyX, m, 7, s0, hi);
    i := PutNoteField(a, i, 0x32, m.auditorEnc, m, 6, s0, hi);
    i := PutNoteField(a, i, 0x2a, m.encSalt, m, 5, s0, hi);
    i := PutNoteField(a, i, 0x22, m.encAmount, m, 4, s0, hi);
    i := PutNoteField(a, i, 0x1a, m.ephemeralY, m, 3, s0, hi);
    i := PutNoteField(a, i, 0x12, m.ephemeralX, m, 2, s0, hi);
    i := PutNoteField(a, i, 0xa, m.noteHash, m, 1, s0, hi);
  }

  lemma NoteEnds(m: OutputNote)
    ensures EncNoteFrom(m, 10) == []
  {
  }

  method UnmarshalNote(data: Bytes) returns (r: Result<OutputNote, WireError>)
    ensures r == ReadNote(data)
  {
    hide ReadField;
    var m, i := EMPTY_NOTE, 0;
    while i < |data|
      invariant i <= |data| && ReadMessage(NOTE, PutNote, m, data, i) == ReadNote(data)
      decreases |data| - i
    {
      var f := DecodeField(NOTE, data, i);
      if f.Bad? { return Err(f.error); }
      if f.value.Blob? { m := SetNoteField(m, f.value.num, f.value.bytes); }
      i := f.next;
    }
    r := Ok(m);
  }

  /** The fields below `n` of a note, the others empty. */
  function NoteUpTo(m: OutputNote, n: nat): OutputNote {
    OutputNote(
      if n > 1 then m.noteHash else [], if n > 2 then m.ephemeralX else [], if n > 3 then m.ephemeralY else [],
      if n > 4 then m.encAmount else [], if n > 5 then m.encSalt else [], if n > 6 then m.auditorEnc else [],
      if n > 7 then m.auditorAuthKeyX else [], if n > 8 then m.auditorAuthKeyY else [],
      if n > 9 then m.auditorEncRecipient else [])
  }

  lemma NoteStep(m: OutputNote, n: nat)
    requires 1 <= n <= 9
    ensures SetNoteField(NoteUpTo(m, n), n, NoteField(m, n)) == NoteUpTo(m, n + 1)
    ensures |NoteField(m, n)| == 0 ==> NoteUpTo(m, n) == NoteUpTo(m, n + 1)
  {
  }

  lemma {:induction false} NoteReads(m: OutputNote, data: Bytes, i: nat, n: nat)
    requires 1 <= n <= 10 && At(data, i, EncNoteFrom(m, n)) && |data| < I63
    ensures i + |EncNoteFrom(m, n)| <= |data|
    ensures ReadMessage(NOTE, PutNote, NoteUpTo(m, n), data, i)
         == ReadMessage(NOTE, PutNote, m, data, i + |EncNoteFrom(m, n)|)
    decreases 10 - n
  {
    hide EncOpt, ReadMessage, NoteUpTo, NoteField, SetNoteField, At;
    if n == 10 {
      AtInside(data, i, []);
      WholeNote(m);
    } else {
      var e := EncOpt(8 * n + 2, NoteField(m, n));
      AtSplit(data, i, e, EncNoteFrom(m, n + 1));
      NoteStep(m, n);
      OptReads(NOTE, PutNote, NoteUpTo(m, n), data, i, 8 * n + 2, NoteField(m, n), NoteUpTo(m, n + 1));
      NoteReads(m, data, i + |e|, n + 1);
    }
  }

  lemma WholeNote(m: OutputNote)
    ensures NoteUpTo(m, 10) == m && NoteUpTo(m, 1) == EMPTY_NOTE
  {
  }

  lemma NoteRoundTrip(m: OutputNote)
    requires |EncNote(m)| < I63
    ensures ReadNote(EncNote(m)) == Ok(m)
  {
    hide EncNoteFrom;
    var e := EncNote(m);
    assert e[0..|e|] == e;
    WholeNote(m);
    NoteReads(m, e, 0, 1);
  }

  lemma {:induction false} NoteGrows(m: OutputNote, k: nat, b: Bytes, n: nat)
    requires 1 <= n <= 10 && 1 <= k <= 9
    ensures |EncNoteFrom(SetNoteField(m, k, b), n)|
         <= |EncNoteFrom(m, n)| + (if k >= n then |EncLen(8 * k + 2, b)| else 0)
    decreases 10 - n
  {
    hide EncLen, SetNoteField;
    if n < 10 {
      SetGet(m, k, b, n);
      NoteGrows(m, k, b, n + 1);
    }
  }

  lemma SetGet(m: OutputNote, k: nat, b: Bytes, n: nat)
    requires 1 <= k <= 9 && 1 <= n <= 9
    ensures NoteField(SetNoteField(m, k, b), n) == if n == k then b else NoteField(m, n)
  {
  }

  lemma {:induction false} ReadNoteMinimal(m: OutputNote, data: Bytes, i: nat, done: OutputNote)
    requires i <= |data| && ReadMessage(NOTE, PutNote, m, data, i) == Ok(done)
    ensures |EncNote(done)| <= |EncNote(m)| + (|data| - i)
    decreases |data| - i
  {
    hide EncNoteFrom, EncLen, SetNoteField, ReadField;
    if i < |data| {
      var f := ReadField(NOTE, data, i);
      var next := PutNote(m, f.value).value;
      if f.value.Blob? {
        KnownNoteField(data, i, f.value, f.next);
        NoteGrows(m, f.value.num, f.value.bytes, 1);
        FieldIsMinimal(NOTE, data, i, 8 * f.value.num + 2);
      }
      ReadNoteMinimal(next, data, f.next, done);
    }
  }

  lemma KnownNoteField(data: Bytes, i: nat, f: Entry, k: nat)
    requires i <= |data| && ReadField(NOTE, data, i) == Got(f, k)
    ensures f.Blob? ==> 1 <= f.num <= 9
  {
  }

  lemma {:induction false} EmptyNoteFrom(n: nat)
    requires 1 <= n <= 10
    ensures EncNoteFrom(EMPTY_NOTE, n) == []
    decreases 10 - n
  {
    if n < 10 { EmptyNoteFrom(n + 1); }
  }

  lemma NoteNormalForm(data: Bytes, m: OutputNote)
    requires |data| < I63 && ReadNote(data) == Ok(m)
    ensures |EncNote(m)| <= |data| && ReadNote(EncNote(m)) == Ok(m)
  {
    hide EncNoteFrom;
    EmptyNoteFrom(1);
    ReadNoteMinimal(EMPTY_NOTE, data, 0, m);
    NoteRoundTrip(m);
  }

  // ===== MsgTransact =====

  function EncNotes(os: seq<OutputNote>): (r: seq<Bytes>)
    ensures |r| == |os|
  {
    seq(|os|, k requires 0 <= k < |os| => EncNote(os[k]))
  }

  function EncTransactField(m: MsgTransact, n: nat): Bytes {
    if n == 1 then EncOpt(0xa, m.sender)
    else if n == 2 then EncRep(0x12, m.nullifiers)
    else if n == 3 then EncRep(0x1a, m.merkleRoots)
    else if n == 4 then EncRep(0x22, EncNotes(m.outputs))
    else if n == 5 then EncOpt(0x2a, m.withdrawAmount)
    else if n == 6 then EncOpt(0x32, m.withdrawAddress)
    else if n == 7 then EncOpt(0x3a, m.denom)
    else if n == 8 then EncOpt(0x42, m.registrationRoot)
    else if n == 9 then EncOpt(0x4a, m.relayerFee)
    else EncOpt(0x52, m.proof)
  }

  function EncTransactFrom(m: MsgTransact, n: nat): Bytes
    requires 1 <= n <= 11
    decreases 11 - n
  {
    if n == 11 then [] else EncTransactField(m, n) + EncTransactFrom(m, n + 1)
  }

  function EncTransact(m: MsgTransact): Bytes { EncTransactFrom(m, 1) }

  const TRANSACT: Schema :=
    map[1 := 2, 2 := 2, 3 := 2, 4 := 2, 5 := 2, 6 := 2, 7 := 2, 8 := 2, 9 := 2, 10 := 2]

  const EMPTY_TRANSACT := MsgTransact([], [], [], [], [], [], [], [], [], [])

  function PutTransact(m: MsgTransact, f: Entry): Result<MsgTransact, WireError> {
    match f
    case Blob(n, b) =>
      if n == 4 then
        match ReadNote(b) case Err(e) => Err(e) case Ok(o) => Ok(m.(outputs := m.outputs + [o]))
      else
        Ok(if n == 1 then m.(sender := b)
           else if n == 2 then m.(nullifiers := m.nullifiers + [b])
           else if n == 3 then m.(merkleRoots := m.merkleRoots + [b])
           else if n == 5 then m.(withdrawAmount := b)
           else if n == 6 then m.(withdrawAddress := b)
           else if n == 7 then m.(denom := b)
           else if n == 8 then m.(registrationRoot := b)
           else if n == 9 then m.(relayerFee := b)
           else m.(proof := b))
    case _ => Ok(m)
  }

  function ReadTransact(m: MsgTransact, data: Bytes): Result<MsgTransact, WireError> {
    ReadMessage(TRANSACT, PutTransact, m, data, 0)
  }

  method UnmarshalTransact(m0: MsgTransact, data: Bytes) returns (r: Result<MsgTransact, WireError>)
    ensures r == ReadTransact(m0, data)
  {
    hide ReadField, ReadNote;
    var m, i := m0, 0;
    while i < |data|
      invariant i <= |data| && ReadMessage(TRANSACT, PutTransact, m, data, i) == ReadTransact(m0, data)
      decreases |data| - i
    {
      var f := DecodeField(TRANSACT, data, i);
      if f.Bad? { return Err(f.error); }
      if f.value.Blob? {
        var b := f.value.bytes;
        match f.value.num {
          case 1 => m := m.(sender := b);
          case 2 => m := m.(nullifiers := m.nullifiers + [b]);
          case 3 => m := m.(merkleRoots := m.merkleRoots + [b]);
          case 4 =>
            var o := UnmarshalNote(b);
            if o.Err? { return Err(o.error); }
            m := m.(outputs := m.outputs + [o.value]);
          case 5 => m := m.(withdrawAmount := b);
          case 6 => m := m.(withdrawAddress := b);
          case 7 => m := m.(denom := b);
          case 8 => m := m.(registrationRoot := b);
          case 9 => m := m.(relayerFee := b);
          case _ => m := m.(proof := b);
        }
      }
      i := f.next;
    }
    r := Ok(m);
  }

  lemma {:induction false} TransactFieldsFit(m: MsgTransact, n: nat)
    requires 1 <= n <= 11
    ensures |EncTransactFrom(m, n)| <= |EncTransact(m)|
    decreases n
  {
    hide EncTransactField;
    if n > 1 { TransactFieldsFit(m, n - 1); }
  }

  /** Writes the nested notes, last one first: each into the buffer in front of the later
      ones, then its length and tag. */
  method PutNotes(a: array<Byte>, i: nat, os: seq<OutputNote>, ghost s0: Bytes, ghost hi: nat, ghost done: Bytes)
    returns (j: nat)
    requires |EncRep(0x22, EncNotes(os))| <= i <= a.Length && Wrote(s0, a[..], i, hi, done)
    modifies a
    ensures j + |EncRep(0x22, EncNotes(os))| == i && Wrote(s0, a[..], j, hi, EncRep(0x22, EncNotes(os)) + done)
  {
    hide Wrote, EncNote, EncVarint;
    j := i;
    ghost var bs := EncNotes(os);
    var k := |os|;
    assert EncRep(0x22, bs[k..]) + done == done;
    while k > 0
      invariant 0 <= k <= |os|
      invariant j + |EncRep(0x22, bs[k..])| == i && Wrote(s0, a[..], j, hi, EncRep(0x22, bs[k..]) + done)
    {
      k := k - 1;
      RepTail(0x22, bs, k);
      RepFits(0x22, bs, k);
      ghost var tail := EncRep(0x22, bs[k + 1..]) + done;
      ghost var s1 := a[..];
      var mid := j;
      j := MarshalNoteTo(a, j, os[k]);
      j := PutLength(a, mid, j, 0x22, mid - j, s1, EncNote(os[k]));
      WroteMore(s0, s1, a[..], j, mid, hi, EncLen(0x22, bs[k]), tail);
      assert EncLen(0x22, bs[k]) + tail == EncRep(0x22, bs[k..]) + done;
    }
    assert bs[0..] == bs;
  }

  /** Fills exactly the last `|EncTransact(m)|` bytes of the buffer. */
  method MarshalTransactToSizedBuffer(a: array<Byte>, m: MsgTransact) returns (size: nat)
    requires |EncTransact(m)| <= a.Length
    modifies a
    ensures size == |EncTransact(m)| && Wrote(old(a[..]), a[..], a.Length - size, a.Length, EncTransact(m))
  {
    hide EncOpt, EncRep, EncNotes, Wrote;
    forall n: nat | 1 <= n <= 11 ensures |EncTransactFrom(m, n)| <= |EncTransact(m)| { TransactFieldsFit(m, n); }
    ghost var s0, hi := a[..], a.Length;
    WroteNothing(s0, hi);
    assert EncTransactFrom(m, 11) == [];
    var i := PutOpt(a, a.Length, 0x52, m.proof, s0, hi, EncTransactFrom(m, 11));
    i := PutOpt(a, i, 0x4a, m.relayerFee, s0, hi, EncTransactFrom(m, 10));
    i := PutOpt(a, i, 0x42, m.registrationRoot, s0, hi, EncTransactFrom(m, 9));
    i := PutOpt(a, i, 0x3a, m.denom, s0, hi, EncTransactFrom(m, 8));
    i := PutOpt(a, i, 0x32, m.withdrawAddress, s0, hi, EncTransactFrom(m, 7));
    i := PutOpt(a, i, 0x2a, m.withdrawAmount, s0, hi, EncTransactFrom(m, 6));
    i := PutNotes(a, i, m.outputs, s0, hi, EncTransactFrom(m, 5));
    i := PutRep(a, i, 0x1a, m.merkleRoots, s0, hi, EncTransactFrom(m, 4));
    i := PutRep(a, i, 0x12, m.nullifiers, s0, hi, EncTransactFrom(m, 3));
    i := PutOpt(a, i, 0xa, m.sender, s0, hi, EncTransactFrom(m, 2));
    size := a.Length - i;
  }

  lemma {:induction false} RepSizeBounds(tag: Byte, bs: seq<Bytes>)
    ensures forall k | 0 <= k < |bs| :: |bs[k]| <= |EncRep(tag, bs)|
  {
    if |bs| > 0 { RepSizeBounds(tag, bs[1..]); }
  }

  /** The size of field `n`, computed from lengths alone. */
  function SizeTransactField(m: MsgTransact, n: nat): nat {
    if n == 1 then SizeOpt(m.sender)
    else if n == 2 then SizeRep(m.nullifiers)
    else if n == 3 then SizeRep(m.merkleRoots)
    else if n == 4 then SizeRep(EncNotes(m.outputs))
    else if n == 5 then SizeOpt(m.withdrawAmount)
    else if n == 6 then SizeOpt(m.withdrawAddress)
    else if n == 7 then SizeOpt(m.denom)
    else if n == 8 then SizeOpt(m.registrationRoot)
    else if n == 9 then SizeOpt(m.relayerFee)
    else SizeOpt(m.proof)
  }

  lemma TransactFieldSize(m: MsgTransact, n: nat)
    ensures SizeTransactField(m, n) == |EncTransactField(m, n)|
  {
    hide EncOpt, EncRep, SizeOpt, SizeRep, EncNotes, EncUint, SizeUint, EncLen, SizeLen;
    SizesOf(0xa, 0, m.sender);
    SizeRepIs(0x12, m.nullifiers);
    SizeRepIs(0x1a, m.merkleRoots);
    SizeRepIs(0x22, EncNotes(m.outputs));
    SizesOf(0x2a, 0, m.withdrawAmount);
    SizesOf(0x32, 0, m.withdrawAddress);
    SizesOf(0x3a, 0, m.denom);
    SizesOf(0x42, 0, m.registrationRoot);
    SizesOf(0x4a, 0, m.relayerFee);
    SizesOf(0x52, 0, m.proof);
  }

  lemma TransactUnrolled(m: MsgTransact)
    ensures |EncTransact(m)|
         == |EncTransactField(m, 1)| + |EncTransactField(m, 2)| + |EncTransactField(m, 3)| + |EncTransactField(m, 4)|
          + |EncTransactField(m, 5)| + |EncTransactField(m, 6)| + |EncTransactField(m, 7)| + |EncTransactField(m, 8)|
          + |EncTransactField(m, 9)| + |EncTransactField(m, 10)|
  {
    hide EncTransactField;
    assert |EncTransactFrom(m, 9)| == |EncTransactField(m, 9)| + |EncTransactField(m, 10)|;
    assert |EncTransactFrom(m, 7)| == |EncTransactField(m, 7)| + |EncTransactField(m, 8)| + |EncTransactFrom(m, 9)|;
    assert |EncTransactFrom(m, 5)| == |EncTransactField(m, 5)| + |EncTransactField(m, 6)| + |EncTransactFrom(m, 7)|;
    assert |EncTransactFrom(m, 3)| == |EncTransactField(m, 3)| + |EncTransactField(m, 4)| + |EncTransactFrom(m, 5)|;
  }

  method NotesSize(os: seq<OutputNote>, n0: nat) returns (n: nat)
    ensures n == n0 + SizeRep(EncNotes(os))
  {
    hide EncNote;
    n := n0;
    ghost var bs := EncNotes(os);
    for k := 0 to |os|
      invariant n + SizeRep(bs[k..]) == n0 + SizeRep(bs)
    {
      assert bs[k..][1..] == bs[k + 1..];
      var l := NoteSize(os[k]);
      n := n + (1 + l + Sov(l));
    }
  }

  method TransactSize(m: MsgTransact) returns (n: nat)
    ensures n == |EncTransact(m)|
  {
    hide EncTransactField, EncTransactFrom, SizeOpt, SizeRep, EncNotes;
    n := SizeOpt(m.sender);
    n := RepSize(m.nullifiers, n);
    n := RepSize(m.merkleRoots, n);
    n := NotesSize(m.outputs, n);
    n := n + SizeOpt(m.withdrawAmount) + SizeOpt(m.withdrawAddress) + SizeOpt(m.denom)
       + SizeOpt(m.registrationRoot) + SizeOpt(m.relayerFee) + SizeOpt(m.proof);
    TransactUnrolled(m);
    forall k: nat | 1 <= k <= 10 ensures SizeTransactField(m, k) == |EncTransactField(m, k)| {
      TransactFieldSize(m, k);
    }
  }

  method MarshalTransact(m: MsgTransact) returns (b: Bytes)
    ensures b == EncTransact(m)
  {
    hide EncTransact;
    var size := TransactSize(m);
    var a := new Byte[size];
    var n := MarshalTransactToSizedBuffer(a, m);
    b := a[..n];
  }

  // ----- round trip -----

  lemma {:induction false} PutNullifiers(m: MsgTransact, bs: seq<Bytes>)
    ensures PutAll(PutTransact, m, 2, bs) == Ok(m.(nullifiers := m.nullifiers + bs))
    decreases |bs|
  {
    hide ReadNote;
    if |bs| > 0 {
      PutNullifiers(m.(nullifiers := m.nullifiers + [bs[0]]), bs[1..]);
      assert m.nullifiers + [bs[0]] + bs[1..] == m.nullifiers + bs;
    } else { assert m.nullifiers + bs == m.nullifiers; }
  }

  lemma {:induction false} PutRoots(m: MsgTransact, bs: seq<Bytes>)
    ensures PutAll(PutTransact, m, 3, bs) == Ok(m.(merkleRoots := m.merkleRoots + bs))
    decreases |bs|
  {
    hide ReadNote;
    if |bs| > 0 {
      PutRoots(m.(merkleRoots := m.merkleRoots + [bs[0]]), bs[1..]);
      assert m.merkleRoots + [bs[0]] + bs[1..] == m.merkleRoots + bs;
    } else { assert m.merkleRoots + bs == m.merkleRoots; }
  }

  lemma {:induction false} PutOutputs(m: MsgTransact, os: seq<OutputNote>)
    requires forall k | 0 <= k < |os| :: |EncNotes(os)[k]| < I63
    ensures PutAll(PutTransact, m, 4, EncNotes(os)) == Ok(m.(outputs := m.outputs + os))
    decreases |os|
  {
    hide EncNote, ReadNote;
    if |os| > 0 {
      assert EncNotes(os)[0] == EncNote(os[0]);
      NoteRoundTrip(os[0]);
      assert EncNotes(os)[1..] == EncNotes(os[1..]);
      PutOutputs(m.(outputs := m.outputs + [os[0]]), os[1..]);
      assert m.outputs + [os[0]] + os[1..] == m.outputs + os;
    } else { assert m.outputs + os == m.outputs; }
  }

  /** The later of two singular values that were written; an empty one is not written. */
  function Later(a: Bytes, b: Bytes): Bytes {
    if |b| == 0 then a else b
  }

  /** What a message holding `m0` becomes when the fields below `n` of `m` are read into it. */
  function TransactUpTo(m0: MsgTransact, m: MsgTransact, n: nat): MsgTransact {
    MsgTransact(
      if n > 1 then Later(m0.sender, m.sender) else m0.sender,
      if n > 2 then m0.nullifiers + m.nullifiers else m0.nullifiers,
      if n > 3 then m0.merkleRoots + m.merkleRoots else m0.merkleRoots,
      if n > 4 then m0.outputs + m.outputs else m0.outputs,
      if n > 5 then Later(m0.withdrawAmount, m.withdrawAmount) else m0.withdrawAmount,
      if n > 6 then Later(m0.withdrawAddress, m.withdrawAddress) else m0.withdrawAddress,
      if n > 7 then Later(m0.denom, m.denom) else m0.denom,
      if n > 8 then Later(m0.registrationRoot, m.registrationRoot) else m0.registrationRoot,
      if n > 9 then Later(m0.relayerFee, m.relayerFee) else m0.relayerFee,
      if n > 10 then Later(m0.proof, m.proof) else m0.proof)
  }

  /** Lists are joined, single fields replaced by later ones. */
  function MergeTransact(m0: MsgTransact, m: MsgTransact): MsgTransact {
    TransactUpTo(m0, m, 11)
  }

  lemma RepFieldReads(m0: MsgTransact, m: MsgTransact, data: Bytes, i: nat, n: nat)
    requires n == 2 || n == 3 || n == 4
    requires At(data, i, EncTransactField(m, n)) && |data| < I63
    ensures i + |EncTransactField(m, n)| <= |data|
    ensures ReadMessage(TRANSACT, PutTransact, TransactUpTo(m0, m, n), data, i)
         == ReadMessage(TRANSACT, PutTransact, TransactUpTo(m0, m, n + 1), data, i + |EncTransactField(m, n)|)
  {
    hide ReadMessage, PutTransact, TransactUpTo, EncRep, EncOpt, EncNotes, At;
    if n == 2 {
      NullifiersRead(m0, m, data, i);
    } else if n == 3 {
      RootsRead(m0, m, data, i);
    } else {
      OutputsRead(m0, m, data, i);
    }
  }

  lemma NullifiersRead(m0: MsgTransact, m: MsgTransact, data: Bytes, i: nat)
    requires At(data, i, EncRep(0x12, m.nullifiers)) && |data| < I63
    ensures i + |EncRep(0x12, m.nullifiers)| <= |data|
    ensures ReadMessage(TRANSACT, PutTransact, TransactUpTo(m0, m, 2), data, i)
         == ReadMessage(TRANSACT, PutTransact, TransactUpTo(m0, m, 3), data, i + |EncRep(0x12, m.nullifiers)|)
  {
    hide ReadMessage, PutTransact, PutAll, EncRep, At;
    var from, to := TransactUpTo(m0, m, 2), TransactUpTo(m0, m, 3);
    PutNullifiers(from, m.nullifiers);
    RepReads(TRANSACT, PutTransact, from, data, i, 0x12, m.nullifiers, to);
  }

  lemma RootsRead(m0: MsgTransact, m: MsgTransact, data: Bytes, i: nat)
    requires At(data, i, EncRep(0x1a, m.merkleRoots)) && |data| < I63
    ensures i + |EncRep(0x1a, m.merkleRoots)| <= |data|
    ensures ReadMessage(TRANSACT, PutTransact, TransactUpTo(m0, m, 3), data, i)
         == ReadMessage(TRANSACT, PutTransact, TransactUpTo(m0, m, 4), data, i + |EncRep(0x1a, m.merkleRoots)|)
  {
    hide ReadMessage, PutTransact, PutAll, EncRep, At;
    var from, to := TransactUpTo(m0, m, 3), TransactUpTo(m0, m, 4);
    PutRoots(from, m.merkleRoots);
    RepReads(TRANSACT, PutTransact, from, data, i, 0x1a, m.merkleRoots, to);
  }

  lemma OutputsRead(m0: MsgTransact, m: MsgTransact, data: Bytes, i: nat)
    requires At(data, i, EncRep(0x22, EncNotes(m.outputs))) && |data| < I63
    ensures i + |EncRep(0x22, EncNotes(m.outputs))| <= |data|
    ensures ReadMessage(TRANSACT, PutTransact, TransactUpTo(m0, m, 4), data, i)
         == ReadMessage(TRANSACT, PutTransact, TransactUpTo(m0, m, 5), data, i + |EncRep(0x22, EncNotes(m.outputs))|)
  {
    hide ReadMessage, PutTransact, PutAll, EncRep, EncNotes, At;
    var bs := EncNotes(m.outputs);
    var from, to := TransactUpTo(m0, m, 4), TransactUpTo(m0, m, 5);
    AtInside(data, i, EncRep(0x22, bs));
    RepSizeBounds(0x22, bs);
    PutOutputs(from, m.outputs);
    RepReads(TRANSACT, PutTransact, from, data, i, 0x22, bs, to);
  }

  function TransactOpt(m: MsgTransact, n: nat): Bytes {
    if n == 1 then m.sender
    else if n == 5 then m.withdrawAmount
    else if n == 6 then m.withdrawAddress
    else if n == 7 then m.denom
    else if n == 8 then m.registrationRoot
    else if n == 9 then m.relayerFee
    else m.proof
  }

  lemma OptFieldReads(m0: MsgTransact, m: MsgTransact, data: Bytes, i: nat, n: nat)
    requires n == 1 || 5 <= n <= 10
    requires At(data, i, EncTransactField(m, n)) && |data| < I63
    ensures i + |EncTransactField(m, n)| <= |data|
    ensures ReadMessage(TRANSACT, PutTransact, TransactUpTo(m0, m, n), data, i)
         == ReadMessage(TRANSACT, PutTransact, TransactUpTo(m0, m, n + 1), data, i + |EncTransactField(m, n)|)
  {
    hide ReadMessage, EncOpt, ReadNote, At;
    var b := TransactOpt(m, n);
    assert EncTransactField(m, n) == EncOpt(8 * n + 2, b);
    OptReads(TRANSACT, PutTransact, TransactUpTo(m0, m, n), data, i, 8 * n + 2, b, TransactUpTo(m0, m, n + 1));
  }

  lemma {:induction false} TransactReads(m0: MsgTransact, m: MsgTransact, data: Bytes, i: nat, n: nat)
    requires 1 <= n <= 11 && At(data, i, EncTransactFrom(m, n)) && |data| < I63
    ensures i + |EncTransactFrom(m, n)| <= |data|
    ensures ReadMessage(TRANSACT, PutTransact, TransactUpTo(m0, m, n), data, i)
         == ReadMessage(TRANSACT, PutTransact, MergeTransact(m0, m), data, i + |EncTransactFrom(m, n)|)
    decreases 11 - n
  {
    hide EncTransactField, ReadMessage, TransactUpTo, PutTransact, At;
    if n == 11 {
      AtInside(data, i, []);
    } else {
      var e := EncTransactField(m, n);
      AtSplit(data, i, e, EncTransactFrom(m, n + 1));
      if 2 <= n <= 4 { RepFieldReads(m0, m, data, i, n); } else { OptFieldReads(m0, m, data, i, n); }
      TransactReads(m0, m, data, i + |e|, n + 1);
    }
  }

  /** Reading on from message m0 over an encoding of m ends behind it with the merged message. */
  lemma WholeTransactReads(m0: MsgTransact, m: MsgTransact, data: Bytes, i: nat)
    requires At(data, i, EncTransact(m)) && |data| < I63
    ensures i + |EncTransact(m)| <= |data|
    ensures ReadMessage(TRANSACT, PutTransact, m0, data, i)
         == ReadMessage(TRANSACT, PutTransact, MergeTransact(m0, m), data, i + |EncTransact(m)|)
  {
    hide EncTransactFrom, ReadMessage, PutTransact, MergeTransact, At;
    assert TransactUpTo(m0, m, 1) == m0;
    TransactReads(m0, m, data, i, 1);
  }

  lemma IntoEmptyTransact(m: MsgTransact)
    ensures MergeTransact(EMPTY_TRANSACT, m) == m
  {
    assert [] + m.nullifiers == m.nullifiers && [] + m.merkleRoots == m.merkleRoots && [] + m.outputs == m.outputs;
  }

  /** Marshal then Unmarshal is the identity on every message, nested notes included. */
  lemma TransactRoundTrip(m: MsgTransact)
    requires |EncTransact(m)| < I63
    ensures ReadTransact(EMPTY_TRANSACT, EncTransact(m)) == Ok(m)
  {
    hide EncTransact, MergeTransact;
    var e := EncTransact(m);
    assert e[0..|e|] == e;
    IntoEmptyTransact(m);
    WholeTransactReads(EMPTY_TRANSACT, m, e, 0);
  }

  /** Two encodings one behind the other read as the merged message. */
  lemma TransactConcat(a: MsgTransact, b: MsgTransact)
    requires |EncTransact(a) + EncTransact(b)| < I63
    ensures ReadTransact(EMPTY_TRANSACT, EncTransact(a) + EncTransact(b)) == Ok(MergeTransact(a, b))
  {
    hide EncTransact, MergeTransact;
    var x := EncTransact(a) + EncTransact(b);
    assert x[0..|x|] == x;
    AtSplit(x, 0, EncTransact(a), EncTransact(b));
    IntoEmptyTransact(a);
    WholeTransactReads(EMPTY_TRANSACT, a, x, 0);
    WholeTransactReads(a, b, x, |EncTransact(a)|);
  }

  lemma TransactFieldGrows(m: MsgTransact, m': MsgTransact, n: nat, b: Bytes, k: nat)
    requires 1 <= n <= 10 && 1 <= k <= 10 && |b| < I63 && PutTransact(m, Blob(n, b)) == Ok(m')
    ensures |EncTransactField(m', k)| <= |EncTransactField(m, k)| + (if k == n then |EncLen(8 * n + 2, b)| else 0)
  {
    hide EncRep, EncLen, EncNotes, ReadNote;
    if n == 2 {
      RepAppend(0x12, m.nullifiers, b);
    } else if n == 3 {
      RepAppend(0x1a, m.merkleRoots, b);
    } else if n == 4 {
      OutputGrows(m.outputs, ReadNote(b).value, b);
    }
  }

  lemma OutputGrows(os: seq<OutputNote>, o: OutputNote, b: Bytes)
    requires ReadNote(b) == Ok(o) && |b| < I63
    ensures |EncRep(0x22, EncNotes(os + [o]))| <= |EncRep(0x22, EncNotes(os))| + |EncLen(0x22, b)|
  {
    hide ReadNote, EncNote, EncRep, EncVarint;
    assert EncNotes(os + [o]) == EncNotes(os) + [EncNote(o)];
    RepAppend(0x22, EncNotes(os), EncNote(o));
    NoteNormalForm(b, o);
    VarintLengthGrows(|EncNote(o)|, |b|);
  }

  lemma {:induction false} TransactGrows(m: MsgTransact, m': MsgTransact, n: nat, b: Bytes, k: nat)
    requires 1 <= n <= 10 && 1 <= k <= 11 && |b| < I63 && PutTransact(m, Blob(n, b)) == Ok(m')
    ensures |EncTransactFrom(m', k)| <= |EncTransactFrom(m, k)| + (if k <= n then |EncLen(8 * n + 2, b)| else 0)
    decreases 11 - k
  {
    hide EncTransactField, PutTransact, EncLen;
    if k < 11 {
      TransactFieldGrows(m, m', n, b, k);
      TransactGrows(m, m', n, b, k + 1);
    }
  }

  lemma {:induction false} ReadTransactMinimal(m: MsgTransact, data: Bytes, i: nat, done: MsgTransact)
    requires i <= |data| < I63 && ReadMessage(TRANSACT, PutTransact, m, data, i) == Ok(done)
    ensures |EncTransact(done)| <= |EncTransact(m)| + (|data| - i)
    decreases |data| - i
  {
    hide EncTransactFrom, EncLen, PutTransact, ReadField;
    if i < |data| {
      var f := ReadField(TRANSACT, data, i);
      var next := PutTransact(m, f.value).value;
      KnownField(data, i, f.value, f.next);
      if f.value.Blob? {
        TransactGrows(m, next, f.value.num, f.value.bytes, 1);
        FieldIsMinimal(TRANSACT, data, i, 8 * f.value.num + 2);
      } else {
        SkippedKeeps(m, f.value);
      }
      ReadTransactMinimal(next, data, f.next, done);
    }
  }

  lemma KnownField(data: Bytes, i: nat, f: Entry, k: nat)
    requires i <= |data| < I63 && ReadField(TRANSACT, data, i) == Got(f, k)
    ensures f.Blob? ==> 1 <= f.num <= 10 && |f.bytes| < I63
  {
  }

  lemma SkippedKeeps(m: MsgTransact, f: Entry)
    requires !f.Blob?
    ensures PutTransact(m, f) == Ok(m)
  {
  }

  lemma {:induction false} EmptyTransactFrom(n: nat)
    requires 1 <= n <= 11
    ensures EncTransactFrom(EMPTY_TRANSACT, n) == []
    decreases 11 - n
  {
    if n < 11 { EmptyTransactFrom(n + 1); }
  }

  /** Every accepted input means the same as the canonical form of its message, which is
      never longer. */
  lemma TransactNormalForm(data: Bytes, m: MsgTransact)
    requires |data| < I63 && ReadTransact(EMPTY_TRANSACT, data) == Ok(m)
    ensures |EncTransact(m)| <= |data| && ReadTransact(EMPTY_TRANSACT, EncTransact(m)) == Ok(m)
  {
    hide EncTransactFrom;
    EmptyTransactFrom(1);
    ReadTransactMinimal(EMPTY_TRANSACT, data, 0, m);
    TransactRoundTrip(m);
  }

  // ===== MsgTransactResponse =====

  function EncPacked(vs: seq<nat>): Bytes {
    if |vs| == 0 then [] else EncVarint(vs[0]) + EncPacked(vs[1..])
  }

  function EncIndices(vs: seq<nat>): Bytes {
    if |vs| == 0 then [] else EncLen(0xa, EncPacked(vs))
  }

  function EncResponse(m: MsgTransactResponse): Bytes {
    EncIndices(m.leafIndices) + EncOpt(0x12, m.merkleRoot)
  }

  ghost predicate Words(vs: seq<nat>) {
    forall k | 0 <= k < |vs| :: vs[k] < U64
  }

  lemma PackedSnoc(vs: seq<nat>, v: nat)
    ensures EncPacked(vs + [v]) == EncPacked(vs) + EncVarint(v)
  {
    hide EncVarint;
    if |vs| > 0 {
      assert (vs + [v])[1..] == vs[1..] + [v];
      PackedSnoc(vs[1..], v);
    } else {
      assert (vs + [v])[1..] == [];
      assert EncPacked([]) == [];
    }
  }

  lemma WordLength(v: nat)
    requires v < U64
    ensures |EncVarint(v)| <= 10
  {
    hide EncVarint;
    PowValues();
    assert Pow128(10) == 128 * Pow128(9);
    VarintLength(v, 10);
  }

  /** Packs into a scratch buffer of ten bytes a number; no 64-bit value needs more. */
  method PackIndices(vs: seq<nat>) returns (b: Bytes)
    requires Words(vs)
    ensures b == EncPacked(vs)
  {
    var scratch := new Byte[|vs| * 10];
    var j := 0;
    for k := 0 to |vs|
      invariant 0 <= j <= 10 * k && scratch[..j] == EncPacked(vs[..k])
    {
      WordLength(vs[k]);
      assert vs[..k + 1] == vs[..k] + [vs[k]];
      PackedSnoc(vs[..k], vs[k]);
      j := PackOne(scratch, j, vs[k]);
    }
    assert vs[..|vs|] == vs;
    b := scratch[..j];
  }

  method PackOne(scratch: array<Byte>, start: nat, v: nat) returns (j: nat)
    requires start + |EncVarint(v)| <= scratch.Length
    modifies scratch
    ensures j == start + |EncVarint(v)| && scratch[..j] == old(scratch[..start]) + EncVarint(v)
  {
    j := start;
    var num := v;
    while num >= 128
      invariant start <= j && j + |EncVarint(num)| == start + |EncVarint(v)|
      invariant scratch[..j] + EncVarint(num) == old(scratch[..start]) + EncVarint(v)
      decreases num
    {
      ghost var before := scratch[..j];
      scratch[j] := num % 128 + 128;
      assert scratch[..j + 1] == before + [num % 128 + 128];
      num := num / 128;
      j := j + 1;
    }
    ghost var before := scratch[..j];
    scratch[j] := num;
    assert scratch[..j + 1] == before + [num];
    j := j + 1;
  }

  method MarshalResponseToSizedBuffer(a: array<Byte>, m: MsgTransactResponse) returns (size: nat)
    requires Words(m.leafIndices) && |EncResponse(m)| <= a.Length
    modifies a
    ensures size == |EncResponse(m)| && Wrote(old(a[..]), a[..], a.Length - size, a.Length, EncResponse(m))
  {
    hide EncOpt, EncLen, EncPacked, Wrote, Words;
    ghost var s0, hi := a[..], a.Length;
    WroteNothing(s0, hi);
    ghost var e := EncOpt(0x12, m.merkleRoot);
    assert e + [] == e;
    var i := PutOpt(a, a.Length, 0x12, m.merkleRoot, s0, hi, []);
    if |m.leafIndices| > 0 {
      var packed := PackIndices(m.leafIndices);
      i := PutLen(a, i, 0xa, packed, s0, hi, e);
    } else {
      assert [] + e == e;
    }
    size := a.Length - i;
  }

  method ResponseSize(m: MsgTransactResponse) returns (n: nat)
    ensures n == |EncResponse(m)|
  {
    hide EncVarint, Sov;
    n := 0;
    SizesOf(0x12, 0, m.merkleRoot);
    if |m.leafIndices| > 0 {
      var l := 0;
      var vs := m.leafIndices;
      for k := 0 to |vs|
        invariant l + |EncPacked(vs[k..])| == |EncPacked(vs)|
      {
        SovIsLength(vs[k]);
        assert vs[k..][1..] == vs[k + 1..];
        l := l + Sov(vs[k]);
      }
      SizesOf(0xa, 0, EncPacked(vs));
      n := n + (1 + Sov(l) + l);
    }
    if |m.merkleRoot| > 0 { n := n + (1 + |m.merkleRoot| + Sov(|m.merkleRoot|)); }
  }

  method MarshalResponse(m: MsgTransactResponse) returns (b: Bytes)
    requires Words(m.leafIndices)
    ensures b == EncResponse(m)
  {
    hide EncResponse;
    var size := ResponseSize(m);
    var a := new Byte[size];
    var n := MarshalResponseToSizedBuffer(a, m);
    b := a[..n];
  }

  /** Numbers are read until the cursor reaches `end`.  Each one is bounded by the whole
      input, not by `end`: a last number that straddles it is read to its own end. */
  function ReadIndices(vs: seq<nat>, data: Bytes, i: nat, end: nat): (r: Read<seq<nat>>)
    requires i <= |data|
    ensures r.Got? ==> i <= r.next <= |data|
    decreases |data| - i
  {
    if i >= end then Got(vs, i) else
    match ReadVarint(data, i)
    case Bad(e) => Bad(e)
    case Got(v, k) => ReadIndices(vs + [v], data, k, end)
  }

  /** Leaf indices are accepted one by one or packed. */
  function ReadResponseField(m: MsgTransactResponse, data: Bytes, i: nat): (r: Read<MsgTransactResponse>)
    requires i <= |data|
    ensures r.Got? ==> i < r.next <= |data|
  {
    match ReadTag(data, i)
    case Bad(e) => Bad(e)
    case Got(t, j) =>
      if t.num == 1 then
        if t.wireType == 0 then
          match ReadVarint(data, j)
          case Bad(e) => Bad(e)
          case Got(v, k) => Got(m.(leafIndices := m.leafIndices + [v]), k)
        else if t.wireType == 2 then
          match ReadBytes(data, j)
          case Bad(e) => Bad(e)
          case Got(b, end) =>
            match ReadIndices(m.leafIndices, data, end - |b|, end)
            case Bad(e) => Bad(e)
            case Got(vs, k) => Got(m.(leafIndices := vs), k)
        else Bad(WrongWireType)
      else if t.num == 2 then
        if t.wireType != 2 then Bad(WrongWireType) else
        match ReadBytes(data, j) case Bad(e) => Bad(e) case Got(b, k) => Got(m.(merkleRoot := b), k)
      else
        match SkipField(data, i) case Bad(e) => Bad(e) case Got(_, k) => Got(m, k)
  }

  /** A response's own fields are refused under any other type. */
  lemma ResponseTypeRefused(m: MsgTransactResponse, data: Bytes, i: nat, num: nat, wireType: nat)
    requires At(data, i, EncVarint(8 * num + wireType)) && wireType < 8 && wireType != 4
    requires (num == 1 && wireType != 0 && wireType != 2) || (num == 2 && wireType != 2)
    ensures i <= |data| && ReadResponseField(m, data, i) == Bad(WrongWireType)
  {
    TagRefused(data, i, 8 * num + wireType);
    hide EncVarint, ReadTag, ReadVarint, ReadBytes, ReadIndices, SkipField;
  }

  /** A well-formed field of a later schema is passed over whole. */
  lemma ResponseIgnoresUnknown(m: MsgTransactResponse, data: Bytes, i: nat, u: Unknown)
    requires WellFormed(u) && 3 <= u.num < 0x8000_0000 && At(data, i, EncUnknown(u)) && |data| < I63
    ensures i <= |data| && ReadResponseField(m, data, i) == Got(m, i + |EncUnknown(u)|)
  {
    UnknownReads(data, i, u);
    UnknownTagReads(data, i, u);
    hide EncUnknown, ReadTag, ReadVarint, ReadBytes, ReadIndices, SkipField, WellFormed;
  }

  function ReadResponse(m: MsgTransactResponse, data: Bytes, i: nat): Result<MsgTransactResponse, WireError>
    requires i <= |data|
    decreases |data| - i
  {
    if i == |data| then Ok(m) else
    match ReadResponseField(m, data, i)
    case Bad(e) => Err(e)
    case Got(next, k) => ReadResponse(next, data, k)
  }

  method DecodeIndices(vs0: seq<nat>, data: Bytes, start: nat, postIndex: nat) returns (r: Read<seq<nat>>)
    requires start <= |data|
    ensures r == ReadIndices(vs0, data, start, postIndex)
  {
    hide VarintFrom;
    var vs, i := vs0, start;
    while i < postIndex
      invariant i <= |data| && ReadIndices(vs, data, i, postIndex) == ReadIndices(vs0, data, start, postIndex)
      decreases |data| - i
    {
      var v := DecodeVarint(data, i);
      if v.Bad? { return Bad(v.error); }
      vs := vs + [v.value];
      i := v.next;
    }
    r := Got(vs, i);
  }

  method UnmarshalResponse(m0: MsgTransactResponse, data: Bytes) returns (r: Result<MsgTransactResponse, WireError>)
    ensures r == ReadResponse(m0, data, 0)
  {
    hide ReadTag, ReadBytes, ReadVarint, ReadIndices, SkipField;
    var m, i := m0, 0;
    while i < |data|
      invariant i <= |data| && ReadResponse(m, data, i) == ReadResponse(m0, data, 0)
      decreases |data| - i
    {
      var tag := DecodeTag(data, i);
      if tag.Bad? { return Err(tag.error); }
      if tag.value.num == 1 {
        if tag.value.wireType == 0 {
          var v := DecodeVarint(data, tag.next);
          if v.Bad? { return Err(v.error); }
          m := m.(leafIndices := m.leafIndices + [v.value]);
          i := v.next;
        } else if tag.value.wireType == 2 {
          var b := DecodeBytes(data, tag.next);
          if b.Bad? { return Err(b.error); }
          var vs := DecodeIndices(m.leafIndices, data, b.next - |b.value|, b.next);
          if vs.Bad? { return Err(vs.error); }
          m := m.(leafIndices := vs.value);
          i := vs.next;
        } else {
          return Err(WrongWireType);
        }
      } else if tag.value.num == 2 {
        if tag.value.wireType != 2 { return Err(WrongWireType); }
        var b := DecodeBytes(data, tag.next);
        if b.Bad? { return Err(b.error); }
        m := m.(merkleRoot := b.value);
        i := b.next;
      } else {
        var skippy := DecodeUnknown(data, i);
        if skippy.Bad? { return Err(skippy.error); }
        i := skippy.next;
      }
    }
    r := Ok(m);
  }

  lemma {:induction false} IndicesRead(vs: seq<nat>, ws: seq<nat>, data: Bytes, i: nat, end: nat)
    requires Words(ws) && At(data, i, EncPacked(ws)) && end == i + |EncPacked(ws)|
    ensures i <= |data| && ReadIndices(vs, data, i, end) == Got(vs + ws, end)
    decreases |ws|
  {
    hide EncVarint, VarintFrom;
    if |ws| > 0 {
      AtSplit(data, i, EncVarint(ws[0]), EncPacked(ws[1..]));
      UintReads(data, i, ws[0]);
      IndicesRead(vs + [ws[0]], ws[1..], data, i + |EncVarint(ws[0])|, end);
      assert vs + [ws[0]] + ws[1..] == vs + ws;
    } else {
      assert vs + ws == vs;
    }
  }

  /** The packed block and the root are read back whole. */
  lemma ResponseRoundTrip(m: MsgTransactResponse)
    requires Words(m.leafIndices) && |EncResponse(m)| < I63
    ensures ReadResponse(MsgTransactResponse([], []), EncResponse(m), 0) == Ok(m)
  {
    hide EncVarint, VarintFrom, EncLen, EncPacked, SkipField, ReadTag, ReadBytes, ReadIndices;
    var e := EncResponse(m);
    assert e[0..|e|] == e;
    var e1 := EncIndices(m.leafIndices);
    AtSplit(e, 0, e1, EncOpt(0x12, m.merkleRoot));
    var m1 := MsgTransactResponse(m.leafIndices, []);
    IndicesFieldReads(m.leafIndices, e);
    assert ReadResponse(MsgTransactResponse([], []), e, 0) == ReadResponse(m1, e, |e1|);
    if |m.merkleRoot| > 0 {
      LenReads(e, |e1|, 0x12, m.merkleRoot);
    }
  }

  lemma IndicesFieldReads(vs: seq<nat>, e: Bytes)
    requires Words(vs) && At(e, 0, EncIndices(vs)) && |e| < I63
    ensures |vs| > 0 ==> ReadResponseField(MsgTransactResponse([], []), e, 0)
                         == Got(MsgTransactResponse(vs, []), |EncIndices(vs)|)
  {
    hide EncVarint, VarintFrom, EncPacked, SkipField, ReadTag, ReadBytes, ReadIndices;
    if |vs| > 0 {
      var b := EncPacked(vs);
      LenReads(e, 0, 0xa, b);
      AtSplit(e, 0, [0xa], EncVarint(|b|) + b);
      AtSplit(e, 1, EncVarint(|b|), b);
      IndicesRead([], vs, e, 1 + |EncVarint(|b|)|, |EncIndices(vs)|);
      assert [] + vs == vs;
    }
  }

  /** The packed reader stays inside its block exactly when the block is empty or its last
      byte ends a number.  Otherwise the last number runs on into the bytes behind. */
  lemma {:induction false} PackedConfinedIff(vs: seq<nat>, data: Bytes, i: nat, end: nat)
    requires i <= end <= |data| && ReadIndices(vs, data, i, end).Got?
    ensures ReadIndices(vs, data, i, end).next >= end
    ensures ReadIndices(vs, data, i, end).next == end <==> i == end || data[end - 1] < 128
    decreases |data| - i
  {
    hide VarintFrom;
    if i < end {
      var r := ReadVarint(data, i);
      VarintEnds(data, i, 0, 0);
      if r.next <= end {
        PackedConfinedIff(vs + [r.value], data, r.next, end);
      } else {
        assert data[end - 1] >= 128;
      }
    }
  }

  /** A block of one byte whose only number needs two: the reader borrows the byte behind the
      block instead of refusing. */
  lemma PackedOverrun()
    ensures var data: Bytes := [0xa, 0x1, 0x80, 0x1];
      ReadBytes(data, 1) == Got([0x80], 3) && ReadResponse(MsgTransactResponse([], []), data, 0)
                                              == Ok(MsgTransactResponse([128], []))
  {
    hide VarintFrom, SkipField, ReadVarint, ReadIndices;
    var data: Bytes := [0xa, 0x1, 0x80, 0x1];
    OverrunVarints(data);
    OverrunIndices(data);
    assert data[2..3] == [0x80];
    var m := MsgTransactResponse([128], []);
    assert ReadResponseField(MsgTransactResponse([], []), data, 0) == Got(m, 4);
    assert ReadResponse(m, data, 4) == Ok(m);
  }

  lemma OverrunIndices(data: Bytes)
    requires data == [0xa, 0x1, 0x80, 0x1]
    ensures ReadIndices([], data, 2, 3) == Got([128], 4)
  {
    hide VarintFrom;
    OverrunVarints(data);
    assert ReadIndices([128], data, 4, 3) == Got([128], 4);
    assert [] + [128] == [128];
  }

  lemma OverrunVarints(data: Bytes)
    requires data == [0xa, 0x1, 0x80, 0x1]
    ensures ReadVarint(data, 0) == Got(10, 1) && ReadVarint(data, 1) == Got(1, 2) && ReadVarint(data, 2) == Got(128, 4)
  {
    assert Pow128(1) == 128 && Pow128(0) == 1;
    assert VarintFrom(data, 3, 1, 0) == Got(128, 4);
  }

  /** The same indices sent one field each are accepted and mean the same message. */
  function EncUnpacked(vs: seq<nat>): Bytes {
    if |vs| == 0 then [] else [0x8] + EncVarint(vs[0]) + EncUnpacked(vs[1..])
  }

  lemma {:induction false} UnpackedReads(m: MsgTransactResponse, ws: seq<nat>, data: Bytes, i: nat)
    requires Words(ws) && At(data, i, EncUnpacked(ws))
    ensures i + |EncUnpacked(ws)| <= |data|
    ensures ReadResponse(m, data, i)
         == ReadResponse(m.(leafIndices := m.leafIndices + ws), data, i + |EncUnpacked(ws)|)
    decreases |ws|
  {
    hide EncVarint, VarintFrom, ReadBytes, ReadIndices, SkipField, ReadTag;
    if |ws| > 0 {
      var v, rest := EncVarint(ws[0]), EncUnpacked(ws[1..]);
      assert EncUnpacked(ws) == [0x8] + (v + rest);
      AtSplit(data, i, [0x8], v + rest);
      AtSplit(data, i + 1, v, rest);
      TagReads(data, i, 0x8);
      UintReads(data, i + 1, ws[0]);
      var next := m.(leafIndices := m.leafIndices + [ws[0]]);
      assert ReadResponse(m, data, i) == ReadResponse(next, data, i + 1 + |v|);
      UnpackedReads(next, ws[1..], data, i + 1 + |v|);
      assert m.leafIndices + [ws[0]] + ws[1..] == m.leafIndices + ws;
    } else {
      assert m.leafIndices + ws == m.leafIndices;
    }
  }
}
