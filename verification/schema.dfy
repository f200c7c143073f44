/** The message declarations, field by field, as a reference the hand-sized encoders must meet:
    the generated code knows tag bytes, the declarations know field numbers and types. */
module Schemas {
  import opened Field
  import opened Types
  import opened Wire
  import opened TreeWire
  import opened TransactWire

  /** A declared field with its value. */
  datatype Declared =
    | Uint(num: nat, value: nat)
    | Blob(num: nat, bytes: Bytes)
    | Blobs(num: nat, list: seq<Bytes>)
    | Uints(num: nat, values: seq<nat>)

  /** Field number and wire type make the tag, itself a varint. */
  function Delimited(num: nat, b: Bytes): Bytes {
    EncVarint(8 * num + 2) + (EncVarint(|b|) + b)
  }

  function EachDelimited(num: nat, list: seq<Bytes>): Bytes {
    if |list| == 0 then [] else Delimited(num, list[0]) + EachDelimited(num, list[1..])
  }

  function Varints(vs: seq<nat>): Bytes {
    if |vs| == 0 then [] else EncVarint(vs[0]) + Varints(vs[1..])
  }

  /** Zero and empty are left out; numbers in a list are packed. */
  function EncDeclared(f: Declared): Bytes {
    match f
    case Uint(n, v) => if v == 0 then [] else EncVarint(8 * n) + EncVarint(v)
    case Blob(n, b) => if |b| == 0 then [] else Delimited(n, b)
    case Blobs(n, list) => EachDelimited(n, list)
    case Uints(n, vs) => if |vs| == 0 then [] else Delimited(n, Varints(vs))
  }

  /** Fields in the order of declaration. */
  function EncMessage(fs: seq<Declared>): Bytes {
    if |fs| == 0 then [] else EncDeclared(fs[0]) + EncMessage(fs[1..])
  }

  // ===== the declarations =====

  function TreeState(m: Types.TreeState): seq<Declared> {
    [Uint(1, m.treeId), Blobs(2, m.commitments), Blobs(3, m.frontier), Uint(4, m.nextIndex), Blob(5, m.merkleRoot),
     Blobs(6, m.rootHistory)]
  }

  function AuditorDataEntry(m: Types.AuditorDataEntry): seq<Declared> {
    [Blob(1, m.txHash), Blob(2, m.data)]
  }

  function OutputNote(m: Types.OutputNote): seq<Declared> {
    [Blob(1, m.noteHash), Blob(2, m.ephemeralX), Blob(3, m.ephemeralY), Blob(4, m.encAmount), Blob(5, m.encSalt),
     Blob(6, m.auditorEnc), Blob(7, m.auditorAuthKeyX), Blob(8, m.auditorAuthKeyY), Blob(9, m.auditorEncRecipient)]
  }

  function Nested(os: seq<Types.OutputNote>): seq<Bytes> {
    seq(|os|, k requires 0 <= k < |os| => EncMessage(OutputNote(os[k])))
  }

  function MsgTransact(m: Types.MsgTransact): seq<Declared> {
    [Blob(1, m.sender), Blobs(2, m.nullifiers), Blobs(3, m.merkleRoots), Blobs(4, Nested(m.outputs)),
     Blob(5, m.withdrawAmount), Blob(6, m.withdrawAddress), Blob(7, m.denom), Blob(8, m.registrationRoot),
     Blob(9, m.relayerFee), Blob(10, m.proof)]
  }

  function MsgTransactResponse(m: Types.MsgTransactResponse): seq<Declared> {
    [Uints(1, m.leafIndices), Blob(2, m.merkleRoot)]
  }

  // ===== the encoders follow them =====

  lemma SmallVarint(v: nat)
    requires v < 128
    ensures EncVarint(v) == [v]
  {
  }

  lemma {:induction false} RepIs(num: nat, list: seq<Bytes>)
    requires num < 15
    ensures EncRep(8 * num + 2, list) == EncDeclared(Blobs(num, list))
  {
    SmallVarint(8 * num + 2);
    hide EncVarint;
    if |list| > 0 { RepIs(num, list[1..]); }
  }

  lemma OptIs(num: nat, b: Bytes)
    requires num < 15
    ensures EncOpt(8 * num + 2, b) == EncDeclared(Blob(num, b))
  {
    SmallVarint(8 * num + 2);
    hide EncVarint;
  }

  lemma UintIs(num: nat, v: nat)
    requires num < 15
    ensures EncUint(8 * num, v) == EncDeclared(Uint(num, v))
  {
    SmallVarint(8 * num);
    hide EncVarint;
  }

  lemma Next(fs: seq<Declared>, k: nat)
    requires k < |fs|
    ensures EncMessage(fs[k..]) == EncDeclared(fs[k]) + EncMessage(fs[k + 1..])
  {
    hide EncDeclared;
    assert fs[k..][0] == fs[k] && fs[k..][1..] == fs[k + 1..];
  }

  lemma Last(fs: seq<Declared>)
    ensures EncMessage(fs[|fs|..]) == [] && fs[0..] == fs
  {
  }

  /** The tree encoder writes the declared message. */
  lemma TreeFollows(m: Types.TreeState)
    ensures EncTree(m) == EncMessage(TreeState(m))
  {
    hide EncUint, EncRep, EncOpt, EncDeclared, EncMessage;
    var fs := TreeState(m);
    UintIs(1, m.treeId);
    RepIs(2, m.commitments);
    RepIs(3, m.frontier);
    UintIs(4, m.nextIndex);
    OptIs(5, m.merkleRoot);
    RepIs(6, m.rootHistory);
    Last(fs);
    Next(fs, 5);
    Next(fs, 4);
    Next(fs, 3);
    Next(fs, 2);
    Next(fs, 1);
    Next(fs, 0);
    var e := EncRep(0x32, m.rootHistory);
    assert e + [] == e;
  }

  lemma AuditorFollows(m: Types.AuditorDataEntry)
    ensures EncAuditor(m) == EncMessage(AuditorDataEntry(m))
  {
    hide EncOpt, EncDeclared, EncMessage;
    var fs := AuditorDataEntry(m);
    OptIs(1, m.txHash);
    OptIs(2, m.data);
    Last(fs);
    Next(fs, 1);
    Next(fs, 0);
    var e := EncOpt(0x12, m.data);
    assert e + [] == e;
  }

  lemma NoteDeclares(m: Types.OutputNote, n: nat)
    requires 1 <= n <= 9
    ensures |OutputNote(m)| == 9 && OutputNote(m)[n - 1] == Blob(n, NoteField(m, n))
  {
  }

  lemma {:induction false} NoteFollowsFrom(m: Types.OutputNote, n: nat)
    requires 1 <= n <= 10
    ensures EncNoteFrom(m, n) == EncMessage(OutputNote(m)[n - 1..])
    decreases 10 - n
  {
    hide EncOpt, EncDeclared, EncMessage, NoteField, OutputNote;
    NoteDeclares(m, 1);
    if n < 10 {
      NoteDeclares(m, n);
      OptIs(n, NoteField(m, n));
      NoteFollowsFrom(m, n + 1);
      Next(OutputNote(m), n - 1);
    } else {
      Last(OutputNote(m));
    }
  }

  lemma NoteFollows(m: Types.OutputNote)
    ensures EncNote(m) == EncMessage(OutputNote(m))
  {
    hide EncNoteFrom, EncMessage, OutputNote;
    NoteFollowsFrom(m, 1);
    Last(OutputNote(m));
  }

  lemma NestedFollow(os: seq<Types.OutputNote>)
    ensures EncNotes(os) == Nested(os)
  {
    hide EncNote, EncMessage, OutputNote;
    forall k | 0 <= k < |os| ensures EncNotes(os)[k] == Nested(os)[k] { NoteFollows(os[k]); }
  }

  lemma TransactDeclares(m: Types.MsgTransact, n: nat)
    requires 1 <= n <= 10
    ensures |MsgTransact(m)| == 10 && EncTransactField(m, n) == EncDeclared(MsgTransact(m)[n - 1])
  {
    hide EncOpt, EncRep, EncDeclared, EncNotes, Nested;
    NestedFollow(m.outputs);
    OptIs(1, m.sender);
    RepIs(2, m.nullifiers);
    RepIs(3, m.merkleRoots);
    RepIs(4, Nested(m.outputs));
    OptIs(5, m.withdrawAmount);
    OptIs(6, m.withdrawAddress);
    OptIs(7, m.denom);
    OptIs(8, m.registrationRoot);
    OptIs(9, m.relayerFee);
    OptIs(10, m.proof);
  }

  lemma {:induction false} TransactFollowsFrom(m: Types.MsgTransact, n: nat)
    requires 1 <= n <= 11
    ensures |MsgTransact(m)| == 10 && EncTransactFrom(m, n) == EncMessage(MsgTransact(m)[n - 1..])
    decreases 11 - n
  {
    hide EncDeclared, EncMessage, EncTransactField, MsgTransact;
    TransactDeclares(m, 1);
    if n < 11 {
      TransactDeclares(m, n);
      TransactFollowsFrom(m, n + 1);
      Next(MsgTransact(m), n - 1);
    } else {
      Last(MsgTransact(m));
    }
  }

  /** The transact encoder writes the declared message, nested notes included. */
  lemma TransactFollows(m: Types.MsgTransact)
    ensures EncTransact(m) == EncMessage(MsgTransact(m))
  {
    hide EncTransactFrom, EncMessage, MsgTransact;
    TransactFollowsFrom(m, 1);
    Last(MsgTransact(m));
  }

  lemma {:induction false} PackedIs(vs: seq<nat>)
    ensures EncPacked(vs) == Varints(vs)
  {
    hide EncVarint;
    if |vs| > 0 { PackedIs(vs[1..]); }
  }

  /** The response encoder writes the declared message, indices packed. */
  lemma ResponseFollows(m: Types.MsgTransactResponse)
    ensures EncResponse(m) == EncMessage(MsgTransactResponse(m))
  {
    SmallVarint(10);
    hide EncVarint, EncOpt, EncMessage, EncPacked, Varints;
    var fs := MsgTransactResponse(m);
    PackedIs(m.leafIndices);
    assert EncIndices(m.leafIndices) == EncDeclared(Uints(1, m.leafIndices));
    OptIs(2, m.merkleRoot);
    hide EncDeclared, EncIndices;
    Last(fs);
    Next(fs, 1);
    Next(fs, 0);
    var e := EncOpt(0x12, m.merkleRoot);
    assert e + [] == e;
  }
}
