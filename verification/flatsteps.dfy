/** Every message as the list of byte writes its handler makes, in the handler's order, and
    whole runs on the byte store. */
module FlatSteps {
  import opened Field
  import opened Merkle
  import opened Types
  import opened Forest
  import opened PublicInputs
  import opened Pool
  import opened FlatStore
  import K = StoreKeys
  import P = PoolProofs
  import R = Registration

  // ===== lists on the parts of the state =====

  function OnAllNotes(f: Forest, us: seq<NoteUpdate>): Forest
    decreases |us|
  {
    if |us| == 0 then f else OnAllNotes(OnNotes(f, us[0]), us[1..])
  }

  function OnAllIds(g: R.Reg, us: seq<IdUpdate>): R.Reg
    decreases |us|
  {
    if |us| == 0 then g else OnAllIds(OnIds(g, us[0]), us[1..])
  }

  function Notes(us: seq<NoteUpdate>): seq<Update> {
    seq(|us|, i requires 0 <= i < |us| => Note(us[i]))
  }

  function Ids(us: seq<IdUpdate>): seq<Update> {
    seq(|us|, i requires 0 <= i < |us| => Id(us[i]))
  }

  lemma {:induction false} NotesThen(f: Forest, a: seq<NoteUpdate>, b: seq<NoteUpdate>)
    ensures OnAllNotes(f, a + b) == OnAllNotes(OnAllNotes(f, a), b)
    decreases |a|
  {
    hide OnNotes;
    if |a| == 0 {
      assert a + b == b;
    } else {
      assert (a + b)[1..] == a[1..] + b;
      NotesThen(OnNotes(f, a[0]), a[1..], b);
    }
  }

  lemma {:induction false} IdsThen(g: R.Reg, a: seq<IdUpdate>, b: seq<IdUpdate>)
    ensures OnAllIds(g, a + b) == OnAllIds(OnAllIds(g, a), b)
    decreases |a|
  {
    hide OnIds;
    if |a| == 0 {
      assert a + b == b;
    } else {
      assert (a + b)[1..] == a[1..] + b;
      IdsThen(OnIds(g, a[0]), a[1..], b);
    }
  }

  lemma {:induction false} AllThen(s: Pool, a: seq<Update>, b: seq<Update>)
    ensures OnAll(s, a + b) == OnAll(OnAll(s, a), b)
    decreases |a|
  {
    hide On;
    if |a| == 0 {
      assert a + b == b;
    } else {
      assert (a + b)[1..] == a[1..] + b;
      AllThen(On(s, a[0]), a[1..], b);
    }
  }

  lemma {:induction false} OnlyNotes(s: Pool, us: seq<NoteUpdate>)
    ensures OnAll(s, Notes(us)) == s.(notes := OnAllNotes(s.notes, us))
    decreases |us|
  {
    hide OnNotes;
    if |us| > 0 {
      assert Notes(us)[1..] == Notes(us[1..]);
      OnlyNotes(s.(notes := OnNotes(s.notes, us[0])), us[1..]);
    }
  }

  lemma {:induction false} OnlyIds(s: Pool, us: seq<IdUpdate>)
    ensures OnAll(s, Ids(us)) == s.(ids := OnAllIds(s.ids, us))
    decreases |us|
  {
    hide OnIds;
    if |us| > 0 {
      assert Ids(us)[1..] == Ids(us[1..]);
      OnlyIds(s.(ids := OnIds(s.ids, us[0])), us[1..]);
    }
  }

  // ===== the root index =====

  function IncrUpdates(index: map<Fe, nat>, root: Bytes): seq<NoteUpdate> {
    if |root| == 0 then [] else [SetIndex(SetBytes(root), RefCount(index, root) + 1)]
  }

  function DecrUpdates(index: map<Fe, nat>, root: Bytes): seq<NoteUpdate> {
    if |root| == 0 then []
    else if RefCount(index, root) <= 1 then [DropIndex(SetBytes(root))]
    else [SetIndex(SetBytes(root), RefCount(index, root) - 1)]
  }

  lemma OneNote(f: Forest, u: NoteUpdate)
    ensures OnAllNotes(f, [u]) == OnNotes(f, u) && OnAllNotes(f, []) == f
  {
    hide OnNotes;
    assert [u][1..] == [];
  }

  lemma IncrIs(f: Forest, root: Bytes)
    ensures OnAllNotes(f, IncrUpdates(f.rootIndex, root)) == f.(rootIndex := RefIncr(f.rootIndex, root))
  {
    hide SetBytes, RefCount, OnAllNotes;
    OneNote(f, SetIndex(SetBytes(root), RefCount(f.rootIndex, root) + 1));
  }

  lemma DecrIs(f: Forest, root: Bytes)
    ensures OnAllNotes(f, DecrUpdates(f.rootIndex, root)) == f.(rootIndex := RefDecr(f.rootIndex, root))
  {
    hide SetBytes, RefCount, OnAllNotes;
    var x, n := SetBytes(root), RefCount(f.rootIndex, root);
    OneNote(f, if n <= 1 then DropIndex(x) else SetIndex(x, n - 1));
  }

  /** The index writes behind a slot that changed from `was` to `v`. */
  function MoveUpdates(index: map<Fe, nat>, was: Bytes, v: Bytes): seq<NoteUpdate> {
    IncrUpdates(index, v) + DecrUpdates(RefIncr(index, v), was)
  }

  lemma MoveIs(f: Forest, was: Bytes, v: Bytes)
    ensures OnAllNotes(f, MoveUpdates(f.rootIndex, was, v))
         == f.(rootIndex := RefDecr(RefIncr(f.rootIndex, v), was))
  {
    hide RefIncr, RefDecr, IncrUpdates, DecrUpdates, OnAllNotes;
    var f1 := f.(rootIndex := RefIncr(f.rootIndex, v));
    NotesThen(f, IncrUpdates(f.rootIndex, v), DecrUpdates(f1.rootIndex, was));
    IncrIs(f, v);
    DecrIs(f1, was);
  }

  function RootUpdates(f: Forest, t: nat, v: Bytes): seq<NoteUpdate> {
    var was := Slot(f.treeRoot, t);
    if was == v then [] else [SetRoot(t, v)] + MoveUpdates(f.rootIndex, was, v)
  }

  function HistoryUpdates(f: Forest, t: nat, i: nat, v: Bytes): seq<NoteUpdate> {
    var was := Slot(f.history, (t, i));
    if was == v then [] else [SetHistory(t, i, v)] + MoveUpdates(f.rootIndex, was, v)
  }

  lemma RootIs(f: Forest, t: nat, v: Bytes)
    ensures OnAllNotes(f, RootUpdates(f, t, v))
         == f.(treeRoot := Put(f.treeRoot, t, v), rootIndex := Reindex(f.rootIndex, Slot(f.treeRoot, t), v))
  {
    hide RefIncr, RefDecr, MoveUpdates, Slot;
    var was, f1 := Slot(f.treeRoot, t), f.(treeRoot := f.treeRoot[t := v]);
    if was != v {
      var rest := MoveUpdates(f.rootIndex, was, v);
      assert ([SetRoot(t, v)] + rest)[1..] == rest;
      MoveIs(f1, was, v);
    }
  }

  lemma HistoryIs(f: Forest, t: nat, i: nat, v: Bytes)
    ensures OnAllNotes(f, HistoryUpdates(f, t, i, v))
         == f.(history := Put(f.history, (t, i), v), rootIndex := Reindex(f.rootIndex, Slot(f.history, (t, i)), v))
  {
    hide RefIncr, RefDecr, MoveUpdates, Slot;
    var was, f1 := Slot(f.history, (t, i)), f.(history := f.history[(t, i) := v]);
    if was != v {
      var rest := MoveUpdates(f.rootIndex, was, v);
      assert ([SetHistory(t, i, v)] + rest)[1..] == rest;
      MoveIs(f1, was, v);
    }
  }

  // ===== opening a tree =====

  function ZeroUpdates(h: Hash2, t: nat, l: nat): seq<NoteUpdate> {
    if l == 0 then [] else ZeroUpdates(h, t, l - 1) + [SetFrontier(t, l - 1, ZeroRootBytes(h, l - 1))]
  }

  lemma {:induction false} ZeroIs(h: Hash2, f: Forest, t: nat, l: nat)
    ensures OnAllNotes(f, ZeroUpdates(h, t, l)) == f.(frontier := ZeroFrontier(h, f.frontier, t, l))
  {
    hide ZeroRootBytes, OnAllNotes;
    OneNote(f, SetFrontier(t, 0, []));
    if l > 0 {
      var u := SetFrontier(t, l - 1, ZeroRootBytes(h, l - 1));
      ZeroIs(h, f, t, l - 1);
      NotesThen(f, ZeroUpdates(h, t, l - 1), [u]);
      OneNote(f.(frontier := ZeroFrontier(h, f.frontier, t, l - 1)), u);
    }
  }

  function CreateUpdates(h: Hash2, d: nat, f: Forest): seq<NoteUpdate> {
    var t := f.treeCount;
    ZeroUpdates(h, t, d) + RootUpdates(f, t, ZeroRootBytes(h, d)) + [SetNext(t, 0), SetCount(t + 1), SetActive(t)]
  }

  lemma CreateIs(h: Hash2, d: nat, f: Forest)
    ensures OnAllNotes(f, CreateUpdates(h, d, f)) == CreateTree(h, d, f)
  {
    var t, root := f.treeCount, ZeroRootBytes(h, d);
    var last := [SetNext(t, 0), SetCount(t + 1), SetActive(t)];
    var f1 := f.(frontier := ZeroFrontier(h, f.frontier, t, d));
    var f2 := OnAllNotes(f1, RootUpdates(f1, t, root));
    hide ZeroRootBytes, ZeroFrontier, ZeroUpdates, RootUpdates, Put, Reindex, Slot;
    ZeroIs(h, f, t, d);
    RootIs(f1, t, root);
    SameRootUpdates(f, f1, t, root);
    NotesThen(f, ZeroUpdates(h, t, d) + RootUpdates(f, t, root), last);
    NotesThen(f, ZeroUpdates(h, t, d), RootUpdates(f, t, root));
    LastThree(f2, t);
  }

  lemma SameRootUpdates(f: Forest, g: Forest, t: nat, v: Bytes)
    requires f.treeRoot == g.treeRoot && f.rootIndex == g.rootIndex
    ensures RootUpdates(f, t, v) == RootUpdates(g, t, v)
  {
  }

  lemma LastThree(f: Forest, t: nat)
    ensures OnAllNotes(f, [SetNext(t, 0), SetCount(t + 1), SetActive(t)])
         == f.(nextIndex := f.nextIndex[t := 0], treeCount := t + 1, activeTree := t)
  {
    var us := [SetNext(t, 0), SetCount(t + 1), SetActive(t)];
    assert us[1..] == [SetCount(t + 1), SetActive(t)] && us[1..][1..] == [SetActive(t)];
    var f1 := f.(nextIndex := f.nextIndex[t := 0]);
    OneNote(f1.(treeCount := t + 1), SetActive(t));
  }

  // ===== inserting a note =====

  function WalkUpdates(h: Hash2, m: Keyed, t: nat, index: nat, c: Fe, l: nat): seq<NoteUpdate> {
    if l == 0 then []
    else if Shr(index, l - 1) % 2 == 0 then
      WalkUpdates(h, m, t, index, c, l - 1)
      + [SetFrontier(t, l - 1, FeBytes(Cursor(h, FrontierAt(m, t), index, c, l - 1)))]
    else WalkUpdates(h, m, t, index, c, l - 1)
  }

  lemma {:induction false} WalkIs(h: Hash2, m: Keyed, f: Forest, t: nat, index: nat, c: Fe, l: nat)
    requires f.frontier == m
    ensures OnAllNotes(f, WalkUpdates(h, m, t, index, c, l)) == f.(frontier := WalkWrites(h, m, t, index, c, l))
    decreases l
  {
    hide FeBytes, Cursor, Shr, OnAllNotes, FrontierAt;
    OneNote(f, SetFrontier(t, 0, []));
    if l > 0 {
      WalkIs(h, m, f, t, index, c, l - 1);
      if Shr(index, l - 1) % 2 == 0 {
        var u := SetFrontier(t, l - 1, FeBytes(Cursor(h, FrontierAt(m, t), index, c, l - 1)));
        NotesThen(f, WalkUpdates(h, m, t, index, c, l - 1), [u]);
        OneNote(f.(frontier := WalkWrites(h, m, t, index, c, l - 1)), u);
      }
    }
  }

  /** Root and history writes, the second seeing the index the first left. */
  function BothRootUpdates(f: Forest, t: nat, i: nat, v: Bytes): seq<NoteUpdate> {
    RootUpdates(f, t, v)
    + HistoryUpdates(f.(rootIndex := Reindex(f.rootIndex, Slot(f.treeRoot, t), v)), t, i, v)
  }

  lemma BothRootsAre(f: Forest, t: nat, i: nat, v: Bytes)
    ensures OnAllNotes(f, BothRootUpdates(f, t, i, v))
         == f.(treeRoot := Put(f.treeRoot, t, v), history := Put(f.history, (t, i), v),
               rootIndex := Reindex(Reindex(f.rootIndex, Slot(f.treeRoot, t), v), Slot(f.history, (t, i)), v))
  {
    hide RootUpdates, Put, Reindex, Slot;
    var index := Reindex(f.rootIndex, Slot(f.treeRoot, t), v);
    var f1 := f.(treeRoot := Put(f.treeRoot, t, v), rootIndex := index);
    var g := f.(rootIndex := index);
    assert HistoryUpdates(g, t, i, v) == HistoryUpdates(f1, t, i, v);
    hide HistoryUpdates;
    NotesThen(f, RootUpdates(f, t, v), HistoryUpdates(g, t, i, v));
    RootIs(f, t, v);
    HistoryIs(f1, t, i, v);
  }

  function LeafUpdates(h: Hash2, d: nat, f: Forest, t: nat, c: Bytes): seq<NoteUpdate> {
    var n, root := NextIndex(f, t), WalkRoot(h, d, f, t, c);
    [SetLeaf(t, n, c)] + WalkUpdates(h, f.frontier, t, n, SetBytes(c), d)
    + BothRootUpdates(f, t, n % MAX_ROOT_HISTORY, root) + [SetNext(t, n + 1)]
  }

  lemma LeafIs(h: Hash2, d: nat, f: Forest, t: nat, c: Bytes)
    ensures OnAllNotes(f, LeafUpdates(h, d, f, t, c)) == InsertLeaf(h, d, f, t, c)
  {
    hide WalkUpdates, WalkWrites, WalkRoot, BothRootUpdates, SetBytes, Put, Reindex, Slot;
    var n, root := NextIndex(f, t), WalkRoot(h, d, f, t, c);
    var a, b := [SetLeaf(t, n, c)], WalkUpdates(h, f.frontier, t, n, SetBytes(c), d);
    var i := n % MAX_ROOT_HISTORY;
    var r, e := BothRootUpdates(f, t, i, root), [SetNext(t, n + 1)];
    var f1 := f.(leaves := f.leaves[(t, n) := c]);
    var f2 := f1.(frontier := WalkWrites(h, f.frontier, t, n, SetBytes(c), d));
    OneNote(f, SetLeaf(t, n, c));
    WalkIs(h, f.frontier, f1, t, n, SetBytes(c), d);
    SameBothRoots(f, f2, t, i, root);
    BothRootsAre(f2, t, i, root);
    OneNote(OnAllNotes(f2, r), SetNext(t, n + 1));
    hide OnAllNotes;
    NotesThen(f, a + b + r, e);
    NotesThen(f, a + b, r);
    NotesThen(f, a, b);
  }

  lemma SameBothRoots(f: Forest, g: Forest, t: nat, i: nat, v: Bytes)
    requires f.treeRoot == g.treeRoot && f.history == g.history && f.rootIndex == g.rootIndex
    ensures BothRootUpdates(f, t, i, v) == BothRootUpdates(g, t, i, v)
  {
  }

  function OpenUpdates(h: Hash2, d: nat, f: Forest): seq<NoteUpdate> {
    if f.treeCount == 0 then CreateUpdates(h, d, f) else []
  }

  function RoomUpdates(h: Hash2, d: nat, f: Forest): seq<NoteUpdate> {
    if NextIndex(f, f.activeTree) >= Pow2(d) then CreateUpdates(h, d, f) else []
  }

  /** All writes of a successful `InsertNote`. */
  function InsertUpdates(h: Hash2, d: nat, f: Forest, c: Bytes): seq<NoteUpdate> {
    var g := Prepared(h, d, f);
    OpenUpdates(h, d, f) + RoomUpdates(h, d, EnsureTree(h, d, f)) + LeafUpdates(h, d, g, g.activeTree, c)
    + [MarkUsed(SetBytes(c))]
  }

  lemma OpenIs(h: Hash2, d: nat, f: Forest)
    ensures OnAllNotes(f, OpenUpdates(h, d, f)) == EnsureTree(h, d, f)
  {
    hide CreateUpdates, CreateTree;
    CreateIs(h, d, f);
  }

  lemma RoomIs(h: Hash2, d: nat, f: Forest)
    ensures OnAllNotes(f, RoomUpdates(h, d, f)) == MakeRoom(h, d, f)
  {
    hide CreateUpdates, CreateTree, Pow2;
    CreateIs(h, d, f);
  }

  lemma InsertIs(h: Hash2, d: nat, f: Forest, c: Bytes, i: Inserted)
    requires InsertNote(h, d, f, c) == Ok(i)
    ensures OnAllNotes(f, InsertUpdates(h, d, f, c)) == i.forest
  {
    hide OpenUpdates, RoomUpdates, LeafUpdates, EnsureTree, MakeRoom, InsertLeaf, WalkRoot, SetBytes, OnAllNotes;
    var f1, g := EnsureTree(h, d, f), Prepared(h, d, f);
    var a, b, l := OpenUpdates(h, d, f), RoomUpdates(h, d, f1), LeafUpdates(h, d, g, g.activeTree, c);
    var f3, u := InsertLeaf(h, d, g, g.activeTree, c), MarkUsed(SetBytes(c));
    OpenIs(h, d, f);
    RoomIs(h, d, f1);
    LeafIs(h, d, g, g.activeTree, c);
    OneNote(f3, u);
    NotesThen(f, a + b + l, [u]);
    NotesThen(f, a + b, l);
    NotesThen(f, a, b);
  }

  // ===== inserting an identity =====

  function RegWalkUpdates(h: Hash2, m: map<nat, Bytes>, index: nat, c: Fe, l: nat): seq<IdUpdate> {
    if l == 0 then []
    else if Shr(index, l - 1) % 2 == 0 then
      RegWalkUpdates(h, m, index, c, l - 1)
      + [SetRegFrontier(l - 1, FeBytes(Cursor(h, R.RegFrontierAt(m), index, c, l - 1)))]
    else RegWalkUpdates(h, m, index, c, l - 1)
  }

  lemma OneId(g: R.Reg, u: IdUpdate)
    ensures OnAllIds(g, [u]) == OnIds(g, u) && OnAllIds(g, []) == g
  {
    hide OnIds;
    assert [u][1..] == [];
  }

  lemma {:induction false} RegWalkIs(h: Hash2, m: map<nat, Bytes>, g: R.Reg, index: nat, c: Fe, l: nat)
    requires g.frontier == m
    ensures OnAllIds(g, RegWalkUpdates(h, m, index, c, l)) == g.(frontier := R.RegWalkWrites(h, m, index, c, l))
    decreases l
  {
    hide FeBytes, Cursor, Shr, OnAllIds, R.RegFrontierAt;
    OneId(g, SetRegFrontier(0, []));
    if l > 0 {
      RegWalkIs(h, m, g, index, c, l - 1);
      if Shr(index, l - 1) % 2 == 0 {
        var u := SetRegFrontier(l - 1, FeBytes(Cursor(h, R.RegFrontierAt(m), index, c, l - 1)));
        IdsThen(g, RegWalkUpdates(h, m, index, c, l - 1), [u]);
        OneId(g.(frontier := R.RegWalkWrites(h, m, index, c, l - 1)), u);
      }
    }
  }

  function RegUpdates(h: Hash2, d: nat, g: R.Reg, c: Bytes): seq<IdUpdate> {
    [SetRegLeaf(g.next, c)] + RegWalkUpdates(h, g.frontier, g.next, SetBytes(c), d)
    + [SetRegRoot(R.RegWalkRoot(h, d, g, c)), SetRegNext(g.next + 1), MarkRegUsed(SetBytes(c))]
  }

  lemma RegIs(h: Hash2, d: nat, g: R.Reg, c: Bytes)
    ensures OnAllIds(g, RegUpdates(h, d, g, c)) == R.RegAppend(h, d, g, c)
  {
    hide RegWalkUpdates, R.RegWalkWrites, R.RegWalkRoot, SetBytes;
    var x, root := SetBytes(c), R.RegWalkRoot(h, d, g, c);
    var a, b := [SetRegLeaf(g.next, c)], RegWalkUpdates(h, g.frontier, g.next, x, d);
    var e := [SetRegRoot(root), SetRegNext(g.next + 1), MarkRegUsed(x)];
    var g1 := g.(leaves := g.leaves[g.next := c]);
    var g2 := g1.(frontier := R.RegWalkWrites(h, g.frontier, g.next, x, d));
    OneId(g, SetRegLeaf(g.next, c));
    RegWalkIs(h, g.frontier, g1, g.next, x, d);
    LastIds(g2, root, g.next + 1, x);
    hide OnAllIds;
    IdsThen(g, a + b, e);
    IdsThen(g, a, b);
  }

  lemma LastIds(g: R.Reg, root: Bytes, n: nat, x: Fe)
    ensures OnAllIds(g, [SetRegRoot(root), SetRegNext(n), MarkRegUsed(x)])
         == g.(root := Some(root), next := n, used := g.used + {x})
  {
    var us := [SetRegRoot(root), SetRegNext(n), MarkRegUsed(x)];
    assert us[1..] == [SetRegNext(n), MarkRegUsed(x)] && us[1..][1..] == [MarkRegUsed(x)];
    OneId(g.(root := Some(root), next := n), MarkRegUsed(x));
  }

  // ===== messages =====

  function AuditorUpdates(txHash: Bytes, data: Bytes): seq<Update> {
    if |data| > 0 then [SetAuditorData(txHash, data)] else []
  }

  function SpendUpdates(n: Bytes): seq<Update> {
    if n == ZERO32 then [] else [MarkSpent(SetBytes(n))]
  }

  function OutputUpdates(env: Env, d: nat, f: Forest, noteHash: Bytes): seq<Update> {
    if noteHash == ZERO32 then [] else Notes(InsertUpdates(env.hash2, d, f, noteHash))
  }

  /** The forest after the first output slot. */
  function AfterOutput(env: Env, d: nat, f: Forest, noteHash: Bytes): Forest {
    match CreateOutput(env, d, Created(f, MsgTransactResponse([], [])), noteHash)
    case Ok(c) => c.notes
    case Err(_) => f
  }

  function TransactUpdates(env: Env, s: Pool, msg: MsgTransact): seq<Update>
    requires |msg.nullifiers| >= 2 && |msg.outputs| >= 2
  {
    var d, first := s.params.Depth(), msg.outputs[0].noteHash;
    SpendUpdates(msg.nullifiers[0]) + SpendUpdates(msg.nullifiers[1])
    + OutputUpdates(env, d, s.notes, first)
    + OutputUpdates(env, d, AfterOutput(env, d, s.notes, first), msg.outputs[1].noteHash)
  }

  /** The writes of a successful message, in order; a failed one leaves none. */
  function UpdatesOf(env: Env, s: Pool, msg: Msg): seq<Update> {
    if Deliver(env, s, msg).Err? then [] else
    match msg
    case RegisterMsg(m, txHash) =>
      Ids(RegUpdates(env.hash2, DEFAULT_REG_TREE_DEPTH, s.ids, m.identityCommitment))
      + AuditorUpdates(txHash, m.auditorEncryptedData)
    case DepositMsg(m, txHash) =>
      Notes(InsertUpdates(env.hash2, s.params.Depth(), s.notes, m.noteCommitment))
      + AuditorUpdates(txHash, m.auditorEncryptedData)
    case TransactMsg(m) =>
      if |m.nullifiers| >= 2 && |m.outputs| >= 2 then TransactUpdates(env, s, m) else []
    case UpdateParamsMsg(_, p) => [SetParams(p)]
    case SetKeyMsg(_, circuit, data) =>
      if env.normalizeVK(data).Some? then [SetKey(circuit, env.normalizeVK(data).value)] else []
  }

  lemma OneUpdate(s: Pool, u: Update)
    ensures OnAll(s, [u]) == On(s, u)
  {
    hide On;
    assert [u][1..] == [];
  }

  lemma AuditorIs(s: Pool, txHash: Bytes, data: Bytes)
    ensures OnAll(s, AuditorUpdates(txHash, data))
         == s.(auditorData := Types.StoreAuditorData(s.auditorData, txHash, data))
  {
    if |data| > 0 { OneUpdate(s, SetAuditorData(txHash, data)); }
  }

  lemma SpendIs(env: Env, s: Pool, notes: Forest, n: Bytes, root: Bytes, ns: set<Fe>)
    requires SpendInput(env, notes, s.nullifiers, n, root) == Ok(ns)
    ensures OnAll(s, SpendUpdates(n)) == s.(nullifiers := ns)
  {
    hide SetBytes, IsValidRootAnyTree;
    if n != ZERO32 { OneUpdate(s, MarkSpent(SetBytes(n))); }
  }

  lemma OutputIs(env: Env, d: nat, s: Pool, c: Created, noteHash: Bytes, c': Created)
    requires CreateOutput(env, d, c, noteHash) == Ok(c') && s.notes == c.notes
    ensures OnAll(s, OutputUpdates(env, d, c.notes, noteHash)) == s.(notes := c'.notes)
    ensures AfterOutput(env, d, c.notes, noteHash) == c'.notes
  {
    hide InsertNote, InsertUpdates;
    if noteHash != ZERO32 {
      var i := InsertNote(env.hash2, d, c.notes, noteHash).value;
      InsertIs(env.hash2, d, c.notes, noteHash, i);
      OnlyNotes(s, InsertUpdates(env.hash2, d, c.notes, noteHash));
    }
  }

  lemma TransactIs(env: Env, s: Pool, msg: MsgTransact, o: Outcome)
    requires |msg.nullifiers| == |msg.merkleRoots| == |msg.outputs| == 2
    requires Transact(env, s, msg) == Ok(o)
    ensures OnAll(s, TransactUpdates(env, s, msg)).(bank := o.pool.bank) == o.pool
  {
    P.TransactParts(env, s, msg, o);
    TransactRest(env, s, msg, o);
    hide Transact, SpendInput, CreateOutput, AfterOutput, OutputUpdates, SpendUpdates, PayBoth, R.RegRoot,
      CheckTransactProof;
    var d := s.params.Depth();
    var none := Created(s.notes, MsgTransactResponse([], []));
    var h0, h1 := msg.outputs[0].noteHash, msg.outputs[1].noteHash;
    var ns := SpendInput(env, s.notes, s.nullifiers, msg.nullifiers[0], msg.merkleRoots[0]).value;
    var c := CreateOutput(env, d, none, h0).value;
    var c2 := CreateOutputs(env, d, s.notes, msg).value;
    var s1, s2 := s.(nullifiers := ns), s.(nullifiers := o.pool.nullifiers);
    var s3 := s2.(notes := c.notes);
    SpendIs(env, s, s.notes, msg.nullifiers[0], msg.merkleRoots[0], ns);
    SpendIs(env, s1, s.notes, msg.nullifiers[1], msg.merkleRoots[1], o.pool.nullifiers);
    OutputIs(env, d, s2, none, h0, c);
    OutputIs(env, d, s3, c, h1, c2);
    var a, b := SpendUpdates(msg.nullifiers[0]), SpendUpdates(msg.nullifiers[1]);
    var e, g := OutputUpdates(env, d, s.notes, h0), OutputUpdates(env, d, c.notes, h1);
    hide OnAll;
    AllThen(s, a + b + e, g);
    AllThen(s, a + b, e);
    AllThen(s, a, b);
  }

  lemma TransactRest(env: Env, s: Pool, msg: MsgTransact, o: Outcome)
    requires |msg.nullifiers| == |msg.merkleRoots| == |msg.outputs| == 2
    requires Transact(env, s, msg) == Ok(o)
    ensures o.pool.auditorData == s.auditorData
  {
    hide SpendInputsOf, CheckTransactProof, CreateOutputs, PayBoth, R.RegRoot;
  }

  lemma DepositIs(env: Env, s: Pool, msg: MsgDeposit, txHash: Bytes, o: Outcome)
    requires Deposit(env, s, msg, txHash) == Ok(o)
    ensures OnAll(s, Notes(InsertUpdates(env.hash2, s.params.Depth(), s.notes, msg.noteCommitment))
                     + AuditorUpdates(txHash, msg.auditorEncryptedData)).(bank := o.pool.bank) == o.pool
  {
    hide InsertNote, InsertUpdates, CheckDeposit, Send, OnAll, AuditorUpdates;
    var d, us := s.params.Depth(), InsertUpdates(env.hash2, s.params.Depth(), s.notes, msg.noteCommitment);
    var i := InsertNote(env.hash2, d, s.notes, msg.noteCommitment).value;
    InsertIs(env.hash2, d, s.notes, msg.noteCommitment, i);
    OnlyNotes(s, us);
    AuditorIs(s.(notes := i.forest), txHash, msg.auditorEncryptedData);
    AllThen(s, Notes(us), AuditorUpdates(txHash, msg.auditorEncryptedData));
  }

  lemma RegisterIs(env: Env, s: Pool, msg: MsgRegister, txHash: Bytes, o: Outcome)
    requires Register(env, s, msg, txHash) == Ok(o)
    ensures OnAll(s, Ids(RegUpdates(env.hash2, DEFAULT_REG_TREE_DEPTH, s.ids, msg.identityCommitment))
                     + AuditorUpdates(txHash, msg.auditorEncryptedData)) == o.pool
  {
    hide R.RegAppend, RegUpdates, CheckRegister, OnAll, AuditorUpdates, Pow2;
    var us := RegUpdates(env.hash2, DEFAULT_REG_TREE_DEPTH, s.ids, msg.identityCommitment);
    RegIs(env.hash2, DEFAULT_REG_TREE_DEPTH, s.ids, msg.identityCommitment);
    OnlyIds(s, us);
    AuditorIs(s.(ids := o.pool.ids), txHash, msg.auditorEncryptedData);
    AllThen(s, Ids(us), AuditorUpdates(txHash, msg.auditorEncryptedData));
  }

  lemma GovernanceIs(env: Env, s: Pool, msg: Msg, o: Outcome)
    requires Deliver(env, s, msg) == Ok(o) && (msg.UpdateParamsMsg? || msg.SetKeyMsg?)
    ensures OnAll(s, UpdatesOf(env, s, msg)) == o.pool
  {
    if msg.UpdateParamsMsg? {
      OneUpdate(s, SetParams(msg.params));
    } else {
      OneUpdate(s, SetKey(msg.circuit, env.normalizeVK(msg.data).value));
    }
  }

  /** A message does to the state exactly what its list of writes does, the bank aside. */
  lemma StepIsUpdates(env: Env, s: Pool, msg: Msg)
    ensures OnAll(s, UpdatesOf(env, s, msg)).(bank := Step(env, s, msg).bank) == Step(env, s, msg)
  {
    hide Register, Deposit, Transact, ValidateTransact, OnAll, TransactUpdates, InsertUpdates, RegUpdates,
      AuditorUpdates;
    var r := Deliver(env, s, msg);
    if r.Ok? {
      match msg
      case RegisterMsg(m, txHash) => RegisterIs(env, s, m, txHash, r.value);
      case DepositMsg(m, txHash) => DepositIs(env, s, m, txHash, r.value);
      case TransactMsg(m) =>
        ValidatedFields(env, m);
        TransactIs(env, s, m, r.value);
      case _ => GovernanceIs(env, s, msg, r.value);
    } else {
      NoUpdates(s);
    }
  }

  lemma NoUpdates(s: Pool)
    ensures OnAll(s, []) == s
  {
  }

  // ===== runs on the bytes =====

  lemma BankIsApart(json: Json, s: Pool, flat: K.Flat, bank: Bank)
    requires Represents(json, s, flat)
    ensures Represents(json, s.(bank := bank), flat)
  {
    var m :| K.Stores(flat, m) && Describes(json, s, m);
    hide K.Stores;
    var s' := s.(bank := bank);
    forall k: K.StoreKey ensures EntryOk(json, s', k, Found(m, k)) {
      assert EntryOk(json, s, k, Found(m, k));
    }
  }

  /** One message on the bytes. */
  lemma StepOnBytes(env: Env, json: Json, s: Pool, flat: K.Flat, msg: Msg)
    requires Represents(json, s, flat) && AllFit(UpdatesOf(env, s, msg))
    ensures Represents(json, Step(env, s, msg), FlatAll(json, flat, UpdatesOf(env, s, msg)))
  {
    hide Represents, Step, UpdatesOf, FlatAll, OnAll, AllFit;
    var us := UpdatesOf(env, s, msg);
    UpdatesAreWrites(json, s, flat, us);
    StepIsUpdates(env, s, msg);
    BankIsApart(json, OnAll(s, us), FlatAll(json, flat, us), Step(env, s, msg).bank);
  }

  /** No number of the run outgrows its fixed width. */
  ghost predicate FittingRun(env: Env, s: Pool, msgs: seq<Msg>)
    decreases |msgs|
  {
    |msgs| > 0 ==> AllFit(UpdatesOf(env, s, msgs[0])) && FittingRun(env, Step(env, s, msgs[0]), msgs[1..])
  }

  ghost function FlatRun(env: Env, json: Json, s: Pool, flat: K.Flat, msgs: seq<Msg>): K.Flat
    requires FittingRun(env, s, msgs)
    decreases |msgs|
  {
    if |msgs| == 0 then flat
    else FlatRun(env, json, Step(env, s, msgs[0]), FlatAll(json, flat, UpdatesOf(env, s, msgs[0])), msgs[1..])
  }

  /** Whole runs: the byte store, changed by nothing but the handlers' writes and deletes,
      holds the state machine's state all along. */
  lemma {:induction false} RunOnBytes(env: Env, json: Json, s: Pool, flat: K.Flat, msgs: seq<Msg>)
    requires Represents(json, s, flat) && FittingRun(env, s, msgs)
    ensures Represents(json, Run(env, s, msgs), FlatRun(env, json, s, flat, msgs))
    decreases |msgs|
  {
    hide Represents, Step, UpdatesOf, FlatAll, AllFit;
    if |msgs| > 0 {
      StepOnBytes(env, json, s, flat, msgs[0]);
      RunOnBytes(env, json, Step(env, s, msgs[0]), FlatAll(json, flat, UpdatesOf(env, s, msgs[0])), msgs[1..]);
    }
  }

  /** The empty byte store is the empty chain with default parameters. */
  lemma EmptyBytes(json: Json, bank: Bank)
    ensures Represents(json, P.StartState(DEFAULT_PARAMS, bank), map[])
  {
    var m: K.Typed := map[];
    var s := P.StartState(DEFAULT_PARAMS, bank);
    assert K.Stores(map[], m);
    forall k: K.StoreKey ensures EntryOk(json, s, k, Found(m, k)) {}
  }
}
