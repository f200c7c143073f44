/** What holds in every run, whatever governance does to the tree depth: the root index counts
    the slots, the used-sets are the leaf values, and no value sits at two leaves. */
module AnyDepth {
  import opened Field
  import opened Merkle
  import opened Types
  import opened Forest
  import opened ForestProofs
  import opened ForestInvariant
  import opened PublicInputs
  import opened Pool
  import opened Outputs
  import opened DepthChange
  import P = PoolProofs
  import R = Registration

  ghost predicate LeavesCounted(f: Forest, t: nat) {
    Keys(f.leaves, t, NextIndex(f, t)) && (t >= f.treeCount ==> NextIndex(f, t) == 0)
  }

  /** The part of a forest's invariant that no depth appears in. */
  ghost predicate Loose(f: Forest) {
    && (forall t: nat :: LeavesCounted(f, t))
    && (f.treeCount > 0 ==> f.activeTree < f.treeCount)
    && UsedOk<(nat, nat)>(f.leaves, f.used)
    && IndexOk(f)
  }

  lemma CreateKeepsLoose(h: Hash2, e: nat, f: Forest, g: Forest)
    requires Loose(f) && g == CreateTree(h, e, f)
    ensures Loose(g) && g.used == f.used && NextIndex(g, g.activeTree) == 0 && g.treeCount > 0
  {
    hide UsedOk, Keys, ZeroFrontier, ZeroRootBytes, Put, Reindex;
    CreateTreeKeepsIndex(h, e, f);
    hide IndexOk;
    forall t: nat ensures LeavesCounted(g, t) {
      assert LeavesCounted(f, t) && LeavesCounted(f, f.treeCount);
    }
  }

  lemma PreparedKeepsLoose(h: Hash2, e: nat, f: Forest, g: Forest)
    requires Loose(f) && g == Prepared(h, e, f)
    ensures Loose(g) && g.used == f.used && g.treeCount > 0 && NextIndex(g, g.activeTree) < Pow2(e)
  {
    hide Loose, CreateTree;
    var g1 := EnsureTree(h, e, f);
    if f.treeCount == 0 { CreateKeepsLoose(h, e, f, g1); }
    if NextIndex(g1, g1.activeTree) >= Pow2(e) { CreateKeepsLoose(h, e, g1, g); }
  }

  lemma AppendKeepsLoose(h: Hash2, e: nat, f: Forest, c: Bytes, g: Forest)
    requires Loose(f) && f.treeCount > 0 && SetBytes(c) !in f.used
    requires g == Append(h, e, f, c).forest
    ensures Loose(g)
  {
    hide UsedOk, SetBytes, WalkWrites, WalkRoot, Put, Reindex;
    AppendKeepsIndex(h, e, f, c);
    hide IndexOk;
    var a, n := f.activeTree, NextIndex(f, f.activeTree);
    assert LeavesCounted(f, a) && KeyAt(f.leaves, a, n, n);
    UseFreshValue<(nat, nat)>(f.leaves, f.used, (a, n), c);
    LeafKeysGrow(f.leaves, a, n, c);
    forall t: nat ensures LeavesCounted(g, t) {
      assert LeavesCounted(f, t);
      if t != a {
        PutElsewhere(f.leaves, (a, n), c, t);
        SameKeys(f.leaves, f.leaves[(a, n) := c], t, NextIndex(f, t));
      }
    }
  }

  /** At any depth an insert succeeds exactly on a fresh value and keeps the loose invariant. */
  lemma InsertKeepsLoose(h: Hash2, e: nat, f: Forest, c: Bytes, r: Result<Inserted, Error>)
    requires Loose(f) && r == InsertNote(h, e, f, c)
    ensures r.Ok? <==> SetBytes(c) !in f.used
    ensures r.Err? ==> r.error == DuplicateCommitment
    ensures r.Ok? ==> Loose(r.value.forest)
  {
    hide Loose, Prepared, Append, SetBytes;
    var g := Prepared(h, e, f);
    PreparedKeepsLoose(h, e, f, g);
    if r.Ok? { AppendKeepsLoose(h, e, g, c, r.value.forest); }
  }

  // ===== runs of the chain =====

  ghost predicate LoosePool(env: Env, s: Pool) {
    Loose(s.notes) && R.RegInv(env.hash2, DEFAULT_REG_TREE_DEPTH, s.ids)
  }

  lemma CreateOutputKeepsLoose(env: Env, e: nat, c: Created, noteHash: Bytes, c': Created)
    requires Loose(c.notes) && CreateOutput(env, e, c, noteHash) == Ok(c')
    ensures Loose(c'.notes)
  {
    hide Loose, InsertNote;
    if noteHash != ZERO32 {
      InsertKeepsLoose(env.hash2, e, c.notes, noteHash, InsertNote(env.hash2, e, c.notes, noteHash));
    }
  }

  lemma CreateOutputsKeepLoose(env: Env, s: Pool, msg: MsgTransact, c: Created)
    requires |msg.outputs| >= 2 && CreateOutputs(env, s.params.Depth(), s.notes, msg) == Ok(c)
    requires Loose(s.notes)
    ensures Loose(c.notes)
  {
    hide Loose, CreateOutput;
    var e, none := s.params.Depth(), Created(s.notes, MsgTransactResponse([], []));
    var c1 := CreateOutput(env, e, none, msg.outputs[0].noteHash).value;
    CreateOutputKeepsLoose(env, e, none, msg.outputs[0].noteHash, c1);
    CreateOutputKeepsLoose(env, e, c1, msg.outputs[1].noteHash, c);
  }

  lemma DeliverKeepsLoose(env: Env, s: Pool, msg: Msg, o: Outcome)
    requires LoosePool(env, s) && Deliver(env, s, msg) == Ok(o)
    ensures LoosePool(env, o.pool)
  {
    hide Loose, R.RegInv, Register, Transact, Deposit, InsertNote, R.InsertReg, CreateOutputs, ValidateTransact;
    match msg
    case RegisterMsg(m, txHash) =>
      P.RegisterParts(env, s, m, txHash, o);
      var g := R.InsertReg(env.hash2, DEFAULT_REG_TREE_DEPTH, s.ids, m.identityCommitment);
      R.InsertRegKeepsInv(env.hash2, DEFAULT_REG_TREE_DEPTH, s.ids, m.identityCommitment, g);
    case DepositMsg(m, txHash) =>
      P.DepositParts(env, s, m, txHash, o);
      InsertKeepsLoose(env.hash2, s.params.Depth(), s.notes, m.noteCommitment,
                       InsertNote(env.hash2, s.params.Depth(), s.notes, m.noteCommitment));
    case TransactMsg(m) =>
      ValidatedFields(env, m);
      P.TransactParts(env, s, m, o);
      CreateOutputsKeepLoose(env, s, m, CreateOutputs(env, s.params.Depth(), s.notes, m).value);
    case _ =>
  }

  /** Over every run, depth changes included: each index entry counts its slots, each used-set
      is the set of its tree's leaf values, and no value occurs at two leaves. */
  lemma {:induction false} RunKeepsLoose(env: Env, s: Pool, msgs: seq<Msg>)
    requires LoosePool(env, s)
    ensures LoosePool(env, Run(env, s, msgs))
    decreases |msgs|
  {
    hide LoosePool, Deliver;
    if |msgs| > 0 {
      var r := Deliver(env, s, msgs[0]);
      if r.Ok? { DeliverKeepsLoose(env, s, msgs[0], r.value); }
      RunKeepsLoose(env, Step(env, s, msgs[0]), msgs[1..]);
    }
  }

  lemma StartLoose(env: Env, params: Params, bank: Bank)
    ensures LoosePool(env, P.StartState(params, bank))
  {
    P.StartInv(env, params, bank);
    var f := EMPTY;
    forall t: nat ensures LeavesCounted(f, t) {}
  }

  /** The same from the empty pool, where it needs no hypothesis at all. */
  lemma EveryReachableStateIsLoose(env: Env, params: Params, bank: Bank, msgs: seq<Msg>)
    ensures var s := Run(env, P.StartState(params, bank), msgs);
      && IndexOk(s.notes) && UsedOk<(nat, nat)>(s.notes.leaves, s.notes.used)
      && UsedOk<nat>(s.ids.leaves, s.ids.used)
  {
    hide Run, P.StartState, IndexOk, UsedOk;
    StartLoose(env, params, bank);
    RunKeepsLoose(env, P.StartState(params, bank), msgs);
  }

  // ===== roots, when the depth changes during a run =====

  /** Whether a message puts a note into the forest. */
  predicate Inserts(env: Env, s: Pool, msg: Msg) {
    && Deliver(env, s, msg).Ok?
    && match msg
       case DepositMsg(_, _) => true
       case TransactMsg(m) => |m.outputs| == 2 && exists k :: 0 <= k < 2 && m.outputs[k].noteHash != ZERO32
       case _ => false
  }

  /** The depth of the last insert, after one more message. */
  function LastDepth(env: Env, d: nat, s: Pool, msg: Msg): nat {
    if Inserts(env, s, msg) then s.params.Depth() else d
  }

  /** No inserting message of the run finds the active tree exactly full at the depth of the
      last insert and the depth parameter raised since. */
  predicate SafeMessages(env: Env, d: nat, s: Pool, msgs: seq<Msg>)
    decreases |msgs|
  {
    |msgs| > 0 ==>
      && (Inserts(env, s, msgs[0]) ==> SafeChange(d, s.params.Depth(), s.notes))
      && SafeMessages(env, LastDepth(env, d, s, msgs[0]), Step(env, s, msgs[0]), msgs[1..])
  }

  /** The root a message reports, if it inserted anything. */
  function ReportedRoot(r: Response): Bytes {
    match r case Leaf(_, root) => root case Transacted(t) => t.merkleRoot case Done => []
  }

  ghost predicate RightReport(env: Env, s: Pool, msg: Msg) {
    Inserts(env, s, msg) ==>
      var o := Deliver(env, s, msg).value;
      ReportedRoot(o.response) == ActiveRoot(env, s.params.Depth(), o.pool.notes)
  }

  ghost predicate RightReports(env: Env, s: Pool, msgs: seq<Msg>)
    decreases |msgs|
  {
    |msgs| > 0 ==> RightReport(env, s, msgs[0]) && RightReports(env, Step(env, s, msgs[0]), msgs[1..])
  }

  lemma OutputAtDepth(env: Env, d: nat, e: nat, c: Created, noteHash: Bytes, c': Created)
    requires Aligned(env.hash2, d, c.notes) && SafeChange(d, e, c.notes)
    requires CreateOutput(env, e, c, noteHash) == Ok(c')
    ensures if noteHash == ZERO32 then c' == c else
      Aligned(env.hash2, e, c'.notes) && c'.response.merkleRoot == ActiveRoot(env, e, c'.notes)
  {
    hide Aligned, InsertNote, RootBytes;
    if noteHash != ZERO32 {
      InsertAtOtherDepth(env.hash2, d, e, c.notes, noteHash, InsertNote(env.hash2, e, c.notes, noteHash).value);
    }
  }

  lemma OutputsAtDepth(env: Env, d: nat, s: Pool, msg: MsgTransact, c: Created)
    requires |msg.outputs| == 2 && CreateOutputs(env, s.params.Depth(), s.notes, msg) == Ok(c)
    requires Aligned(env.hash2, d, s.notes)
    ensures var e := s.params.Depth();
      if msg.outputs[0].noteHash == ZERO32 && msg.outputs[1].noteHash == ZERO32 then c.notes == s.notes
      else SafeChange(d, e, s.notes) ==>
        Aligned(env.hash2, e, c.notes) && c.response.merkleRoot == ActiveRoot(env, e, c.notes)
  {
    hide Aligned, CreateOutput, ActiveRoot;
    var e, none := s.params.Depth(), Created(s.notes, MsgTransactResponse([], []));
    var c1 := CreateOutput(env, e, none, msg.outputs[0].noteHash).value;
    if SafeChange(d, e, s.notes) {
      OutputAtDepth(env, d, e, none, msg.outputs[0].noteHash, c1);
      OutputAtDepth(env, if msg.outputs[0].noteHash == ZERO32 then d else e, e, c1, msg.outputs[1].noteHash, c);
    } else {
      DummyKeeps(env, e, none, msg.outputs[0].noteHash);
      DummyKeeps(env, e, c1, msg.outputs[1].noteHash);
    }
  }

  lemma DummyKeeps(env: Env, e: nat, c: Created, noteHash: Bytes)
    ensures noteHash == ZERO32 ==> CreateOutput(env, e, c, noteHash) == Ok(c)
  {
  }

  lemma TransactAtDepth(env: Env, d: nat, s: Pool, msg: Msg, o: Outcome)
    requires msg.TransactMsg? && Deliver(env, s, msg) == Ok(o)
    requires Aligned(env.hash2, d, s.notes)
    requires Inserts(env, s, msg) ==> SafeChange(d, s.params.Depth(), s.notes)
    ensures RightReport(env, s, msg) && Aligned(env.hash2, LastDepth(env, d, s, msg), o.pool.notes)
  {
    hide Aligned, Transact, CreateOutputs, ValidateTransact, ActiveRoot;
    var m := msg.transact;
    ValidatedFields(env, m);
    P.TransactParts(env, s, m, o);
    OutputsAtDepth(env, d, s, m, CreateOutputs(env, s.params.Depth(), s.notes, m).value);
    assert Inserts(env, s, msg) <==> !(m.outputs[0].noteHash == ZERO32 && m.outputs[1].noteHash == ZERO32);
  }

  lemma DepositAtDepth(env: Env, d: nat, s: Pool, msg: Msg, o: Outcome)
    requires msg.DepositMsg? && Deliver(env, s, msg) == Ok(o)
    requires Aligned(env.hash2, d, s.notes) && SafeChange(d, s.params.Depth(), s.notes)
    ensures RightReport(env, s, msg) && Aligned(env.hash2, s.params.Depth(), o.pool.notes)
  {
    hide Aligned, InsertNote, RootBytes, CheckDeposit, Send;
    var m, e := msg.deposit, s.params.Depth();
    P.DepositParts(env, s, m, msg.txHash, o);
    var i := InsertNote(env.hash2, e, s.notes, m.noteCommitment).value;
    InsertAtOtherDepth(env.hash2, d, e, s.notes, m.noteCommitment, i);
  }

  lemma OthersKeepNotes(env: Env, s: Pool, msg: Msg, o: Outcome)
    requires Deliver(env, s, msg) == Ok(o) && !msg.DepositMsg? && !msg.TransactMsg?
    ensures o.pool.notes == s.notes
  {
    hide R.InsertReg, CheckRegister;
  }

  lemma StepAtDepth(env: Env, d: nat, s: Pool, msg: Msg)
    requires Aligned(env.hash2, d, s.notes)
    requires Inserts(env, s, msg) ==> SafeChange(d, s.params.Depth(), s.notes)
    ensures RightReport(env, s, msg) && Aligned(env.hash2, LastDepth(env, d, s, msg), Step(env, s, msg).notes)
  {
    hide Aligned, RightReport, Deliver;
    var r := Deliver(env, s, msg);
    if r.Ok? {
      if msg.DepositMsg? {
        DepositAtDepth(env, d, s, msg, r.value);
      } else if msg.TransactMsg? {
        TransactAtDepth(env, d, s, msg, r.value);
      } else {
        OthersKeepNotes(env, s, msg, r.value);
        NothingInserted(env, s, msg);
      }
    } else {
      NothingInserted(env, s, msg);
    }
  }

  lemma NothingInserted(env: Env, s: Pool, msg: Msg)
    requires !Inserts(env, s, msg)
    ensures RightReport(env, s, msg)
  {
  }

  /** Over any run of messages, governance messages that change the depth among them, every
      root reported is the padded root, at the depth then in force, of the tree that took the
      note, as long as no insert meets an exactly full tree under a raised depth. */
  lemma {:induction false} ReportsAtChangingDepths(env: Env, d: nat, s: Pool, msgs: seq<Msg>)
    requires Aligned(env.hash2, d, s.notes) && SafeMessages(env, d, s, msgs)
    ensures RightReports(env, s, msgs)
    decreases |msgs|
  {
    if |msgs| > 0 {
      hide Aligned, RightReport, Step, Inserts, LastDepth;
      StepAtDepth(env, d, s, msgs[0]);
      ReportsAtChangingDepths(env, LastDepth(env, d, s, msgs[0]), Step(env, s, msgs[0]), msgs[1..]);
    }
  }
}
