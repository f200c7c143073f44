/** A chain restored from a snapshot cannot be told from the one the snapshot was taken of. */
module Restored {
  import opened Field
  import opened Merkle
  import opened Types
  import opened Forest
  import opened ForestInvariant
  import opened PublicInputs
  import opened Pool
  import opened PoolProofs
  import opened Genesis
  import R = Registration

  /** What an import leaves in place of the registration state `g`: levels never written are
      present but empty, and the root is stored even before the first insert. */
  function FullFrontier(m: map<nat, Bytes>): map<nat, Bytes> {
    map l: nat | l < DEFAULT_REG_TREE_DEPTH :: Slot(m, l)
  }

  function NormIds(h: Hash2, g: R.Reg): R.Reg {
    R.Reg(g.next, g.leaves, FullFrontier(g.frontier), Some(R.RegRoot(h, g)), g.used)
  }

  function Norm(env: Env, s: Pool): Pool {
    s.(ids := NormIds(env.hash2, s.ids))
  }

  // ===== the round trip =====

  lemma {:induction false} RegPutAllAt(m: map<nat, Bytes>, bs: seq<Bytes>, n: nat, i: nat)
    requires n <= |bs|
    ensures var m' := RegPutAll(m, bs, n);
            if i < n then i in m' && m'[i] == bs[i] else (i in m' <==> i in m) && Slot(m', i) == Slot(m, i)
  {
    if n > 0 { RegPutAllAt(m, bs, n - 1, i); }
  }

  /** Any snapshot's identity tree: the nodes it lists, its root when it lists one, and the empty
      tree's root otherwise. */
  lemma ImportedIds(h: Hash2, gs: GenesisState, i: nat)
    ensures var g := ImportIds(gs);
      && g.next == gs.regNextIndex
      && (i in g.leaves <==> i < |gs.regCommitments|) && (i in g.leaves ==> g.leaves[i] == gs.regCommitments[i])
      && (i in g.frontier <==> i < |gs.regFrontier|) && (i in g.frontier ==> g.frontier[i] == gs.regFrontier[i])
      && R.RegRoot(h, g) == if |gs.regMerkleRoot| == 0 then ZeroRootBytes(h, 20) else gs.regMerkleRoot
  {
    RegPutAllAt(map[], gs.regCommitments, |gs.regCommitments|, i);
    RegPutAllAt(map[], gs.regFrontier, |gs.regFrontier|, i);
  }

  lemma RegLeavesRestore(leaves: map<nat, Bytes>, n: nat)
    requires R.RegKeys(leaves, n)
    ensures RegPutAll(map[], RegSlotSeq(leaves, n), n) == leaves
  {
    var bs := RegSlotSeq(leaves, n);
    var m' := RegPutAll(map[], bs, n);
    forall i: nat ensures (i in m' <==> i in leaves) && (i in m' ==> m'[i] == leaves[i]) {
      RegPutAllAt(map[], bs, n, i);
      assert R.RegKeyAt(leaves, n, i);
    }
  }

  lemma RegFrontierRestores(m: map<nat, Bytes>)
    ensures RegPutAll(map[], RegSlotSeq(m, DEFAULT_REG_TREE_DEPTH), DEFAULT_REG_TREE_DEPTH) == FullFrontier(m)
  {
    var bs, full := RegSlotSeq(m, DEFAULT_REG_TREE_DEPTH), FullFrontier(m);
    var m' := RegPutAll(map[], bs, |bs|);
    forall i: nat ensures (i in m' <==> i in full) && (i in m' ==> m'[i] == full[i]) {
      RegPutAllAt(map[], bs, |bs|, i);
    }
  }

  lemma RegValues(g: R.Reg)
    requires R.RegKeys(g.leaves, g.next) && UsedOk<nat>(g.leaves, g.used)
    ensures Values(RegSlotSeq(g.leaves, g.next)) == g.used
  {
    var bs := RegSlotSeq(g.leaves, g.next);
    forall x: Fe ensures x in Values(bs) <==> x in g.used {
      assert x in g.used <==> ValueStored<nat>(g.leaves, x);
      if x in Values(bs) {
        var b :| b in bs && SetBytes(b) == x;
        var i :| 0 <= i < |bs| && bs[i] == b;
        assert R.RegKeyAt(g.leaves, g.next, i);
        assert i in g.leaves && SetBytes(g.leaves[i]) == x;
      }
      if x in g.used {
        var i :| i in g.leaves && SetBytes(g.leaves[i]) == x;
        assert R.RegKeyAt(g.leaves, g.next, i);
        assert bs[i] in bs;
      }
    }
  }

  lemma IdsRoundTrip(h: Hash2, g: R.Reg, gs: GenesisState)
    requires R.RegInv(h, DEFAULT_REG_TREE_DEPTH, g) && ExportedIds(h, g, gs)
    ensures ImportIds(gs) == NormIds(h, g)
  {
    assert |R.RegRoot(h, g)| == 32;
    hide FullFrontier, RegPutAll, RegSlotSeq, Values, FrontierOk, RootBytes, R.RegRoot, UsedOk;
    RegLeavesRestore(g.leaves, g.next);
    RegFrontierRestores(g.frontier);
    RegValues(g);
  }

  /** `r` is the part of `m` under the names listed so far. */
  ghost predicate PartOf(names: seq<Bytes>, r: map<Bytes, Bytes>, m: map<Bytes, Bytes>) {
    && (forall c :: c in names ==> c in r)
    && (forall c :: c in r ==> c in m && r[c] == m[c])
  }

  lemma PartGrows(names: seq<Bytes>, r: map<Bytes, Bytes>, m: map<Bytes, Bytes>, c: Bytes)
    requires PartOf(names, r, m) && c in m
    ensures PartOf(names + [c], r[c := m[c]], m)
  {
  }

  lemma PartComplete(names: seq<Bytes>, r: map<Bytes, Bytes>, m: map<Bytes, Bytes>)
    requires PartOf(names, r, m) && forall c :: c in m ==> c in names
    ensures r == m
  {
  }

  function Hashes(es: seq<AuditorDataEntry>, n: nat): seq<Bytes>
    requires n <= |es|
  {
    if n == 0 then [] else Hashes(es, n - 1) + [es[n - 1].txHash]
  }

  function Names(es: seq<VerificationKeyEntry>, n: nat): seq<Bytes>
    requires n <= |es|
  {
    if n == 0 then [] else Names(es, n - 1) + [es[n - 1].circuitName]
  }

  lemma {:induction false} HashListed(es: seq<AuditorDataEntry>, n: nat, i: nat)
    requires i < n <= |es|
    ensures es[i].txHash in Hashes(es, n)
  {
    if i < n - 1 { HashListed(es, n - 1, i); }
  }

  lemma {:induction false} NameListed(es: seq<VerificationKeyEntry>, n: nat, i: nat)
    requires i < n <= |es|
    ensures es[i].circuitName in Names(es, n)
  {
    if i < n - 1 { NameListed(es, n - 1, i); }
  }

  lemma {:induction false} AuditorRestores(es: seq<AuditorDataEntry>, m: map<Bytes, Bytes>, n: nat)
    requires ListsAuditor(es, m) && n <= |es|
    ensures PartOf(Hashes(es, n), ImportAuditor(es, n), m)
    decreases n
  {
    if n > 0 {
      AuditorRestores(es, m, n - 1);
      var e := es[n - 1];
      assert e in es;
      PartGrows(Hashes(es, n - 1), ImportAuditor(es, n - 1), m, e.txHash);
    }
  }

  /** Stored keys are in the normal form the import would give them. */
  ghost predicate KeysNormal(env: Env, vks: map<Bytes, Bytes>) {
    forall c :: c in vks ==> env.normalizeVK(vks[c]) == Some(vks[c])
  }

  lemma {:induction false} KeysRestore(env: Env, es: seq<VerificationKeyEntry>, m: map<Bytes, Bytes>, n: nat)
    requires ListsKeys(es, m) && n <= |es| && KeysNormal(env, m)
    ensures ImportKeys(env, es, n).Some? && PartOf(Names(es, n), ImportKeys(env, es, n).value, m)
    decreases n
  {
    if n > 0 {
      hide PartOf;
      KeysRestore(env, es, m, n - 1);
      var e := es[n - 1];
      assert e in es;
      PartGrows(Names(es, n - 1), ImportKeys(env, es, n - 1).value, m, e.circuitName);
    }
  }

  lemma AuditorTable(es: seq<AuditorDataEntry>, m: map<Bytes, Bytes>)
    requires ListsAuditor(es, m)
    ensures ImportAuditor(es, |es|) == m
  {
    AuditorRestores(es, m, |es|);
    forall k | k in m ensures k in Hashes(es, |es|) {
      var i :| 0 <= i < |es| && es[i] == AuditorDataEntry(k, m[k]);
      HashListed(es, |es|, i);
    }
    PartComplete(Hashes(es, |es|), ImportAuditor(es, |es|), m);
  }

  lemma KeyTable(env: Env, es: seq<VerificationKeyEntry>, m: map<Bytes, Bytes>)
    requires ListsKeys(es, m) && KeysNormal(env, m)
    ensures ImportKeys(env, es, |es|) == Some(m)
  {
    KeysRestore(env, es, m, |es|);
    hide PartOf, ImportKeys;
    forall k | k in m ensures k in Names(es, |es|) {
      var i :| 0 <= i < |es| && es[i] == VerificationKeyEntry(k, m[k]);
      NameListed(es, |es|, i);
    }
    PartComplete(Names(es, |es|), ImportKeys(env, es, |es|).value, m);
  }

  /** Exporting a reachable state and importing it into an empty store gives that state back,
      up to registration frontier levels that are never read before being written. */
  lemma RoundTrip(env: Env, d: nat, s: Pool, gs: GenesisState)
    requires PoolInv(env, d, s) && Settled(s.notes) && KeysNormal(env, s.vks)
    requires ExportOf(env, s, gs)
    ensures Import(env, gs, s.bank) == Ok(Norm(env, s))
  {
    hide Inv, R.RegInv, Settled, KeysNormal, ExportedNotes, ExportedIds, Lists, ListsAuditor, ListsKeys,
      ImportNotes, ImportIds, ImportKeys, ImportAuditor, Values, NormIds;
    NotesRoundTrip(env.hash2, d, s.notes, gs);
    IdsRoundTrip(env.hash2, s.ids, gs);
    ListedValues(gs.nullifiers, s.nullifiers);
    KeyTable(env, gs.verificationKeys, s.vks);
    AuditorTable(gs.auditorData, s.auditorData);
  }

  /** A second export of the restored state may be the very same snapshot. */
  lemma SameExports(env: Env, s: Pool, gs: GenesisState)
    ensures ExportOf(env, s, gs) <==> ExportOf(env, Norm(env, s), gs)
  {
    hide ExportedNotes, Lists, ListsAuditor, ListsKeys;
    var m := s.ids.frontier;
    forall i: nat | i < DEFAULT_REG_TREE_DEPTH ensures Slot(FullFrontier(m), i) == Slot(m, i) {}
    assert RegSlotSeq(FullFrontier(m), DEFAULT_REG_TREE_DEPTH) == RegSlotSeq(m, DEFAULT_REG_TREE_DEPTH);
  }

  // ===== the restored chain behaves the same =====

  lemma {:induction false} CursorReadsBelow(h: Hash2, fr: nat -> Fe, fr': nat -> Fe, index: nat, c: Fe, l: nat)
    requires forall i: nat | i < l :: fr(i) == fr'(i)
    ensures Cursor(h, fr, index, c, l) == Cursor(h, fr', index, c, l)
    decreases l
  {
    if l > 0 { CursorReadsBelow(h, fr, fr', index, c, l - 1); }
  }

  lemma FullFrontierReads(m: map<nat, Bytes>, l: nat)
    requires l <= DEFAULT_REG_TREE_DEPTH
    ensures forall i: nat | i < l :: R.RegFrontierAt(m)(i) == R.RegFrontierAt(FullFrontier(m))(i)
  {
  }

  lemma NormWalk(h: Hash2, m: map<nat, Bytes>, index: nat, c: Fe)
    ensures R.RegWalkWrites(h, FullFrontier(m), index, c, DEFAULT_REG_TREE_DEPTH)
         == FullFrontier(R.RegWalkWrites(h, m, index, c, DEFAULT_REG_TREE_DEPTH))
    ensures Cursor(h, R.RegFrontierAt(FullFrontier(m)), index, c, DEFAULT_REG_TREE_DEPTH)
         == Cursor(h, R.RegFrontierAt(m), index, c, DEFAULT_REG_TREE_DEPTH)
  {
    hide Cursor, FeBytes;
    var d := DEFAULT_REG_TREE_DEPTH;
    var full, w := FullFrontier(m), R.RegWalkWrites(h, m, index, c, DEFAULT_REG_TREE_DEPTH);
    var w' := R.RegWalkWrites(h, full, index, c, d);
    forall i: nat ensures (i in w' <==> i in FullFrontier(w)) && (i in w' ==> w'[i] == FullFrontier(w)[i]) {
      R.RegWalkWritesAt(h, m, index, c, d, i);
      R.RegWalkWritesAt(h, full, index, c, d, i);
      if i < d {
        FullFrontierReads(m, i);
        CursorReadsBelow(h, R.RegFrontierAt(m), R.RegFrontierAt(full), index, c, i);
      }
    }
    FullFrontierReads(m, d);
    CursorReadsBelow(h, R.RegFrontierAt(m), R.RegFrontierAt(full), index, c, d);
  }

  lemma NormInsert(h: Hash2, g: R.Reg, c: Bytes)
    ensures R.InsertReg(h, DEFAULT_REG_TREE_DEPTH, NormIds(h, g), c)
         == match R.InsertReg(h, DEFAULT_REG_TREE_DEPTH, g, c)
            case Ok(g') => Ok(NormIds(h, g'))
            case Err(e) => Err(e)
  {
    hide R.RegWalkWrites, FullFrontier, Cursor, Pow2, SetBytes, FeBytes;
    NormWalk(h, g.frontier, g.next, SetBytes(c));
  }

  lemma NormRoot(h: Hash2, g: R.Reg)
    ensures R.RegRoot(h, NormIds(h, g)) == R.RegRoot(h, g)
  {
  }

  /** Both chains answer alike, and the answers leave them matching again. */
  ghost predicate Alike(env: Env, a: Handled, b: Handled) {
    match a
    case Ok(o) => b == Ok(Outcome(Norm(env, o.pool), o.response))
    case Err(e) => b == Err(e)
  }

  lemma RegisterAlike(env: Env, s: Pool, msg: MsgRegister, txHash: Bytes)
    ensures Alike(env, Register(env, s, msg, txHash), Register(env, Norm(env, s), msg, txHash))
  {
    hide CheckRegister, R.InsertReg, R.RegRoot;
    NormInsert(env.hash2, s.ids, msg.identityCommitment);
    var r := R.InsertReg(env.hash2, DEFAULT_REG_TREE_DEPTH, s.ids, msg.identityCommitment);
    if r.Ok? { NormRoot(env.hash2, r.value); }
  }

  lemma DepositAlike(env: Env, s: Pool, msg: MsgDeposit, txHash: Bytes)
    ensures Alike(env, Deposit(env, s, msg, txHash), Deposit(env, Norm(env, s), msg, txHash))
  {
    hide CheckDeposit, InsertNote, Send, NormIds, StoreAuditorData;
  }

  lemma TransactAlike(env: Env, s: Pool, msg: MsgTransact)
    requires |msg.nullifiers| >= 2 && |msg.merkleRoots| >= 2 && |msg.outputs| >= 2
    ensures Alike(env, Transact(env, s, msg), Transact(env, Norm(env, s), msg))
  {
    hide SpendInputsOf, CheckTransactProof, CreateOutputs, PayBoth, NormIds, R.RegRoot;
    NormRoot(env.hash2, s.ids);
  }

  /** Every message gets the same answer from a state and from its restored form. */
  lemma DeliverAlike(env: Env, s: Pool, msg: Msg)
    ensures Alike(env, Deliver(env, s, msg), Deliver(env, Norm(env, s), msg))
  {
    hide Register, Deposit, Transact, NormIds;
    match msg
    case RegisterMsg(m, txHash) => RegisterAlike(env, s, m, txHash);
    case DepositMsg(m, txHash) => DepositAlike(env, s, m, txHash);
    case TransactMsg(m) =>
      if ValidateTransact(env, m) == None {
        ValidatedFields(env, m);
        TransactAlike(env, s, m);
      }
    case _ =>
  }

  datatype Answer = Answered(response: Response) | Refused(error: Error)

  function AnswerOf(r: Handled): Answer {
    match r case Ok(o) => Answered(o.response) case Err(e) => Refused(e)
  }

  /** What the senders of a run's messages are told, in order. */
  function Answers(env: Env, s: Pool, msgs: seq<Msg>): seq<Answer>
    decreases |msgs|
  {
    if |msgs| == 0 then []
    else [AnswerOf(Deliver(env, s, msgs[0]))] + Answers(env, Step(env, s, msgs[0]), msgs[1..])
  }

  /** So whole runs match, step for step: the same answers and matching states. */
  lemma {:induction false} RunsAlike(env: Env, s: Pool, msgs: seq<Msg>)
    ensures Run(env, Norm(env, s), msgs) == Norm(env, Run(env, s, msgs))
    ensures Answers(env, Norm(env, s), msgs) == Answers(env, s, msgs)
    decreases |msgs|
  {
    if |msgs| > 0 {
      hide Deliver, Norm;
      DeliverAlike(env, s, msgs[0]);
      RunsAlike(env, Step(env, s, msgs[0]), msgs[1..]);
    }
  }

  // ===== reachable states can be exported =====

  /** The key normaliser accepts its own output unchanged. */
  ghost predicate NormalizerStable(env: Env) {
    forall x, y :: env.normalizeVK(x) == Some(y) ==> env.normalizeVK(y) == Some(y)
  }

  lemma InsertSettles(h: Hash2, d: nat, f: Forest, c: Bytes, r: Inserted)
    requires Inv(h, d, f) && InsertNote(h, d, f, c) == Ok(r)
    ensures Settled(r.forest)
  {
    InsertNoteKeepsInv(h, d, f, c, InsertNote(h, d, f, c));
    assert r == Append(h, d, Prepared(h, d, f), c);
    AppendSettles(h, d, Prepared(h, d, f), c, r);
    LastSettlesAll(h, d, r.forest);
  }

  lemma LastSettlesAll(h: Hash2, d: nat, f: Forest)
    requires Inv(h, d, f) && NextIndex(f, f.activeTree) > 0
    ensures Settled(f)
  {
    hide TreesOk, UsedOk, NextIndex;
    forall t: nat | t < f.treeCount ensures NextIndex(f, t) > 0 {
      assert FullIfOld(d, f, t);
    }
  }

  lemma AppendSettles(h: Hash2, d: nat, f: Forest, c: Bytes, r: Inserted)
    requires r == Append(h, d, f, c)
    ensures NextIndex(r.forest, r.forest.activeTree) > 0
  {
  }

  ghost predicate Exportable(env: Env, s: Pool) {
    Settled(s.notes) && KeysNormal(env, s.vks)
  }

  lemma CreateOutputSettles(env: Env, d: nat, c: Created, noteHash: Bytes, c': Created)
    requires Inv(env.hash2, d, c.notes) && Settled(c.notes) && CreateOutput(env, d, c, noteHash) == Ok(c')
    ensures Inv(env.hash2, d, c'.notes) && Settled(c'.notes)
  {
    hide InsertNote, Inv, Settled;
    if noteHash != ZERO32 {
      InsertSettles(env.hash2, d, c.notes, noteHash, InsertNote(env.hash2, d, c.notes, noteHash).value);
    }
    CreateOutputKeepsInv(env, d, c, noteHash, c');
  }

  lemma CreateOutputsSettle(env: Env, d: nat, notes: Forest, msg: MsgTransact, c: Created)
    requires |msg.outputs| >= 2 && CreateOutputs(env, d, notes, msg) == Ok(c)
    requires Inv(env.hash2, d, notes) && Settled(notes)
    ensures Settled(c.notes)
  {
    hide Inv, CreateOutput, Settled;
    var none := Created(notes, MsgTransactResponse([], []));
    var c1 := CreateOutput(env, d, none, msg.outputs[0].noteHash).value;
    CreateOutputSettles(env, d, none, msg.outputs[0].noteHash, c1);
    CreateOutputSettles(env, d, c1, msg.outputs[1].noteHash, c);
  }

  lemma DeliverKeepsExportable(env: Env, d: nat, s: Pool, msg: Msg, o: Outcome)
    requires PoolInv(env, d, s) && Exportable(env, s) && NormalizerStable(env) && Deliver(env, s, msg) == Ok(o)
    ensures Exportable(env, o.pool)
  {
    hide Inv, R.RegInv, Transact, Deposit, InsertNote, R.InsertReg, Settled;
    match msg
    case DepositMsg(m, txHash) =>
      DepositParts(env, s, m, txHash, o);
      InsertSettles(env.hash2, d, s.notes, m.noteCommitment, InsertNote(env.hash2, d, s.notes, m.noteCommitment).value);
    case TransactMsg(m) =>
      TransactParts(env, s, m, o);
      CreateOutputsSettle(env, d, s.notes, m, CreateOutputs(env, d, s.notes, m).value);
    case _ =>
  }

  lemma {:induction false} RunKeepsExportable(env: Env, d: nat, s: Pool, msgs: seq<Msg>)
    requires PoolInv(env, d, s) && Exportable(env, s) && NormalizerStable(env)
    requires forall m :: m in msgs ==> KeepsDepth(d, m)
    ensures PoolInv(env, d, Run(env, s, msgs)) && Exportable(env, Run(env, s, msgs))
    decreases |msgs|
  {
    hide PoolInv, Exportable, Deliver, NormalizerStable;
    if |msgs| > 0 {
      var r := Deliver(env, s, msgs[0]);
      if r.Ok? { DeliverKeepsExportable(env, d, s, msgs[0], r.value); }
      StepKeepsInv(env, d, s, msgs[0]);
      RunKeepsExportable(env, d, Step(env, s, msgs[0]), msgs[1..]);
    }
  }

  /** Import itself brings every key into normal form, whatever the snapshot holds, so what it
      leaves can be exported and imported again. */
  lemma ImportedKeysNormal(env: Env, gs: GenesisState, bank: Bank, s: Pool)
    requires NormalizerStable(env) && Import(env, gs, bank) == Ok(s)
    ensures KeysNormal(env, s.vks)
  {
    hide ImportNotes, ImportIds, ImportAuditor, Values, ImportKeys;
    var es := gs.verificationKeys;
    ImportedKeys(env, es, |es|, s.vks);
    forall c | c in s.vks ensures env.normalizeVK(s.vks[c]) == Some(s.vks[c]) {
      assert NamedKey(es, |es|, c);
      var i := LastNamed(es, |es|, c);
      assert LastKey(es, |es|, i);
    }
  }

  lemma LastNamed(es: seq<VerificationKeyEntry>, n: nat, c: Bytes) returns (i: nat)
    requires NamedKey(es, n, c)
    ensures LastKey(es, n, i) && es[i].circuitName == c
  {
    if es[n - 1].circuitName == c {
      i := n - 1;
    } else {
      assert NamedKey(es, n - 1, c);
      i := LastNamed(es, n - 1, c);
    }
  }

  lemma NoKeysNormal(env: Env)
    ensures KeysNormal(env, map[])
  {
  }

  /** From the empty chain: run any messages, export, import elsewhere, and run any more; the
      two chains give the same answers to every later message and end in matching states. */
  lemma RestoredChainBehavesTheSame(env: Env, params: Params, bank: Bank, before: seq<Msg>, gs: GenesisState,
                                    after: seq<Msg>)
    requires NormalizerStable(env) && forall m :: m in before ==> KeepsDepth(params.Depth(), m)
    requires ExportOf(env, Run(env, StartState(params, bank), before), gs)
    ensures var s := Run(env, StartState(params, bank), before);
            var r := Import(env, gs, s.bank);
            && r.Ok? && Run(env, r.value, after) == Norm(env, Run(env, s, after))
            && Answers(env, r.value, after) == Answers(env, s, after)
  {
    hide PoolInv, ExportOf, Norm, Run, Answers, Import, NormalizerStable, KeysNormal;
    var d, s0 := params.Depth(), StartState(params, bank);
    StartInv(env, params, bank);
    assert KeysNormal(env, s0.vks) by { NoKeysNormal(env); }
    RunKeepsExportable(env, d, s0, before);
    RoundTrip(env, d, Run(env, s0, before), gs);
    RunsAlike(env, Run(env, s0, before), after);
  }
}
