/** Insertion when governance changes the tree depth between inserts.

    Every insert still writes the padded root of its tree at the depth of that insert,
    with one exception: the depth is raised while the active tree is exactly full.  The
    walk then reads a frontier level that no earlier walk completed. */
module DepthChange {
  import opened Field
  import opened Merkle
  import opened Forest
  import opened ForestInvariant
  import opened ForestLog

  /** What the last insert, at depth `d`, left for the next one. */
  ghost predicate Aligned(h: Hash2, d: nat, f: Forest) {
    f.treeCount > 0 ==>
      && NextIndex(f, f.activeTree) <= Pow2(d)
      && FrontierOk(h, FrontierAt(f.frontier, f.activeTree), Leaves(f, f.activeTree), d)
  }

  /** An increase from `d` to `e` must not meet an active tree with exactly 2^d leaves. */
  predicate SafeChange(d: nat, e: nat, f: Forest) {
    f.treeCount > 0 && e > d ==> NextIndex(f, f.activeTree) != Pow2(d)
  }

  lemma {:induction false} Pow2Grows(a: nat, b: nat)
    requires a <= b
    ensures Pow2(a) <= Pow2(b)
    decreases b
  {
    if a < b { Pow2Grows(a, b - 1); }
  }

  /** A frontier that is right at depth `d` is right at any depth, unless the tree is full at
      `d` and the new depth is greater. */
  lemma FrontierAtOtherDepth(h: Hash2, fr: nat -> Fe, ls: seq<Fe>, d: nat, e: nat)
    requires FrontierOk(h, fr, ls, d) && |ls| <= Pow2(d) && (e > d ==> |ls| != Pow2(d))
    ensures FrontierOk(h, fr, ls, e)
  {
    hide Node, Shr;
    forall l: nat | l < e && Shr(|ls|, l) % 2 == 1
      ensures fr(l) == Node(h, ls, l, Shr(|ls|, l) - 1)
    {
      if l >= d {
        Pow2Grows(d, l);
        ShrTop(|ls|, l);
      }
    }
  }

  lemma CreatedAligned(h: Hash2, e: nat, f: Forest)
    ensures Aligned(h, e, CreateTree(h, e, f)) && NextIndex(CreateTree(h, e, f), f.treeCount) == 0
    ensures CreateTree(h, e, f).treeCount > 0 && CreateTree(h, e, f).activeTree == f.treeCount
  {
    hide Node, Shr;
    var g := CreateTree(h, e, f);
    assert Leaves(g, f.treeCount) == [];
    EmptyTree(h, FrontierAt(g.frontier, f.treeCount), e);
  }

  lemma PreparedAligned(h: Hash2, d: nat, e: nat, f: Forest, g: Forest)
    requires Aligned(h, d, f) && SafeChange(d, e, f) && g == Prepared(h, e, f)
    ensures Aligned(h, e, g) && g.treeCount > 0 && NextIndex(g, g.activeTree) < Pow2(e)
  {
    hide FrontierOk, CreateTree;
    if f.treeCount == 0 {
      CreatedAligned(h, e, f);
    } else if NextIndex(f, f.activeTree) >= Pow2(e) {
      CreatedAligned(h, e, f);
    } else {
      FrontierAtOtherDepth(h, FrontierAt(f.frontier, f.activeTree), Leaves(f, f.activeTree), d, e);
    }
  }

  lemma WalkAligned(h: Hash2, e: nat, ls: seq<Fe>, frontier: Keyed, t: nat, c: Fe)
    requires FrontierOk(h, FrontierAt(frontier, t), ls, e)
    ensures FrontierOk(h, FrontierAt(WalkWrites(h, frontier, t, |ls|, c, e), t), ls + [c], e)
  {
    hide Node, Shr, Cursor, WalkWrites, FrontierOk;
    var frontier' := WalkWrites(h, frontier, t, |ls|, c, e);
    var before, after := FrontierAt(frontier, t), FrontierAt(frontier', t);
    forall l: nat | l < e
      ensures after(l) == if Shr(|ls|, l) % 2 == 0 then Cursor(h, before, |ls|, c, l) else before(l)
    {
      WalkWritesAt(h, frontier, t, |ls|, c, e, t, l);
      SetBytesFeBytes(Cursor(h, before, |ls|, c, l));
    }
    WalkKeepsFrontier(h, before, after, ls, c, e);
  }

  /** One insert at its own depth. */
  lemma InsertAtOtherDepth(h: Hash2, d: nat, e: nat, f: Forest, c: Bytes, i: Inserted)
    requires Aligned(h, d, f) && SafeChange(d, e, f) && InsertNote(h, e, f, c) == Ok(i)
    ensures Aligned(h, e, i.forest)
    ensures i.root == RootBytes(h, e, Leaves(i.forest, i.treeId)) && i.treeId == i.forest.activeTree
    ensures i.leafIndex + 1 == |Leaves(i.forest, i.treeId)| && Leaves(i.forest, i.treeId)[i.leafIndex] == SetBytes(c)
  {
    hide FrontierOk, Prepared, WalkWrites, Cursor, PaddedRoot, Put, Reindex;
    var g := Prepared(h, e, f);
    PreparedAligned(h, d, e, f, g);
    var t := g.activeTree;
    var ls := Leaves(g, t);
    var frontier := WalkWrites(h, g.frontier, t, |ls|, SetBytes(c), e);
    LeavesGrow(g, t, c, frontier, i.root);
    WalkAligned(h, e, ls, g.frontier, t, SetBytes(c));
    WalkComputesRoot(h, FrontierAt(g.frontier, t), ls, SetBytes(c), e);
    assert i.forest == WriteLeaf(g, t, c, frontier, i.root).(used := g.used + {SetBytes(c)});
    assert Leaves(i.forest, t) == Leaves(WriteLeaf(g, t, c, frontier, i.root), t);
    assert |ls| + 1 <= Pow2(e);
  }

  // ===== runs =====

  datatype Insert = Insert(depth: nat, commitment: Bytes)

  /** No insert of the run raises the depth over an exactly full active tree.  A refused
      insert is rolled back and leaves the depth of the last successful one in force. */
  predicate SafeRun(h: Hash2, d: nat, f: Forest, ops: seq<Insert>)
    decreases |ops|
  {
    |ops| == 0 ||
    match InsertNote(h, ops[0].depth, f, ops[0].commitment)
    case Err(_) => SafeRun(h, d, f, ops[1..])
    case Ok(i) => SafeChange(d, ops[0].depth, f) && SafeRun(h, ops[0].depth, i.forest, ops[1..])
  }

  ghost predicate RightRoot(h: Hash2, op: Insert, i: Inserted) {
    i.root == RootBytes(h, op.depth, Leaves(i.forest, i.treeId))
  }

  ghost predicate RightRoots(h: Hash2, f: Forest, ops: seq<Insert>)
    decreases |ops|
  {
    |ops| == 0 ||
    match InsertNote(h, ops[0].depth, f, ops[0].commitment)
    case Err(_) => RightRoots(h, f, ops[1..])
    case Ok(i) => RightRoot(h, ops[0], i) && RightRoots(h, i.forest, ops[1..])
  }

  /** Over any run of inserts at changing depths, every root written is the padded root of
      its tree at the depth of that insert. */
  lemma {:induction false} RootsAtChangingDepths(h: Hash2, d: nat, f: Forest, ops: seq<Insert>)
    requires Aligned(h, d, f) && SafeRun(h, d, f, ops)
    ensures RightRoots(h, f, ops)
    decreases |ops|
  {
    hide InsertNote, Aligned;
    if |ops| > 0 {
      match InsertNote(h, ops[0].depth, f, ops[0].commitment)
      case Err(_) => RootsAtChangingDepths(h, d, f, ops[1..]);
      case Ok(i) =>
        InsertAtOtherDepth(h, d, ops[0].depth, f, ops[0].commitment, i);
        RootsAtChangingDepths(h, ops[0].depth, i.forest, ops[1..]);
    }
  }

  // ===== the exception =====

  /** What was hashed, level by level: by the walk, and in the tree it should have followed. */
  ghost predicate LevelAsked(h: Hash2, q: Asked, fr: nat -> Fe, ls: seq<Fe>, c: Fe, d: nat, l: nat) {
    && q(Node(h, ls + [c], l, 0), Node(h, ls + [c], l, 1))
    && (if l == d then q(fr(l), Cursor(h, fr, |ls|, c, l)) else q(Cursor(h, fr, |ls|, c, l), ZeroHash(h, l)))
  }

  lemma {:induction false} ShrOfPower(d: nat, l: nat)
    ensures l <= d ==> Shr(Pow2(d), l) == Pow2(d - l)
    ensures l > d ==> Shr(Pow2(d), l) == 0
  {
    if l > 0 { ShrOfPower(d, l - 1); }
  }

  /** Above level `d` the walk and the tree both pair with empty subtrees, so they agree at
      one level exactly when they agree at the level below. */
  lemma {:induction false} AgreeAbove(h: Hash2, q: Asked, fr: nat -> Fe, ls: seq<Fe>, c: Fe, d: nat, l: nat)
    requires FrontierOk(h, fr, ls, d) && |ls| == Pow2(d) && l > d && CollisionFree(h, q)
    requires forall k: nat | d <= k < l :: LevelAsked(h, q, fr, ls, c, d, k)
    ensures Cursor(h, fr, |ls|, c, l) == Node(h, ls + [c], l, 0) <==> fr(d) == PaddedRoot(h, ls, d)
  {
    hide CollisionFree, FrontierOk;
    var m := l - 1;
    var cur, ns := Cursor(h, fr, |ls|, c, m), ls + [c];
    ShrOfPower(d, m);
    assert LevelAsked(h, q, fr, ls, c, d, m);
    assert Node(h, ns, l, 0) == h(Node(h, ns, m, 0), Node(h, ns, m, 1));
    if m == d {
      CursorIsNode(h, fr, ls, c, d, d);
      CompleteNode(h, ls, c, d, 0);
      if h(fr(d), cur) == h(Node(h, ns, d, 0), Node(h, ns, d, 1)) {
        AskedPairsAgree(h, q, fr(d), cur, Node(h, ns, d, 0), Node(h, ns, d, 1));
      }
    } else {
      AgreeAbove(h, q, fr, ls, c, d, m);
      Pow2Grows(d + 1, m);
      EmptyNode(h, ns, m, 1);
      if h(cur, ZeroHash(h, m)) == h(Node(h, ns, m, 0), Node(h, ns, m, 1)) {
        AskedPairsAgree(h, q, cur, ZeroHash(h, m), Node(h, ns, m, 0), Node(h, ns, m, 1));
      }
    }
  }

  /** Raising the depth over an exactly full tree is harmless if and only if the stored
      frontier entry of level `d` happens to be the full tree's root. */
  lemma GrownFullTree(h: Hash2, q: Asked, f: Forest, t: nat, c: Bytes, d: nat, e: nat)
    requires FrontierOk(h, FrontierAt(f.frontier, t), Leaves(f, t), d) && NextIndex(f, t) == Pow2(d) && e > d
    requires CollisionFree(h, q)
    requires forall k: nat | d <= k < e ::
               LevelAsked(h, q, FrontierAt(f.frontier, t), Leaves(f, t), SetBytes(c), d, k)
    ensures WalkRoot(h, e, f, t, c) == RootBytes(h, e, Leaves(f, t) + [SetBytes(c)])
       <==> FrontierAt(f.frontier, t)(d) == PaddedRoot(h, Leaves(f, t), d)
  {
    hide Cursor, Node, FrontierOk, CollisionFree;
    AgreeAbove(h, q, FrontierAt(f.frontier, t), Leaves(f, t), SetBytes(c), d, e);
    SetBytesFeBytes(Cursor(h, FrontierAt(f.frontier, t), NextIndex(f, t), SetBytes(c), e));
    SetBytesFeBytes(PaddedRoot(h, Leaves(f, t) + [SetBytes(c)], e));
  }

  /** With a full active tree and a greater depth the insert goes into that very tree. */
  lemma GrownInsert(h: Hash2, f: Forest, c: Bytes, d: nat, e: nat)
    requires f.treeCount > 0 && NextIndex(f, f.activeTree) == Pow2(d) && d < e && SetBytes(c) !in f.used
    ensures InsertNote(h, e, f, c).Ok?
    ensures var i := InsertNote(h, e, f, c).value;
      && i.treeId == f.activeTree && i.root == WalkRoot(h, e, f, f.activeTree, c)
      && Leaves(i.forest, i.treeId) == Leaves(f, f.activeTree) + [SetBytes(c)]
  {
    hide WalkRoot, WalkWrites, SetBytes, Put, Reindex, LeafValues;
    Pow2Grows(d + 1, e);
    assert Prepared(h, e, f) == f;
    var t := f.activeTree;
    var frontier := WalkWrites(h, f.frontier, t, NextIndex(f, t), SetBytes(c), e);
    var root := WalkRoot(h, e, f, t, c);
    var g := WriteLeaf(f, t, c, frontier, root);
    LeavesGrow(f, t, c, frontier, root);
    var i := InsertNote(h, e, f, c).value;
    assert i.forest == g.(used := g.used + {SetBytes(c)});
    assert Leaves(i.forest, t) == Leaves(g, t);
  }

  /** After a run at one depth the entry is missing, so the insert at the greater depth
      succeeds and returns a wrong root. */
  lemma GrownAfterFixedDepth(h: Hash2, q: Asked, f: Forest, c: Bytes, d: nat, e: nat)
    requires Inv(h, d, f) && f.treeCount > 0 && NextIndex(f, f.activeTree) == Pow2(d) && 0 < d < e
    requires SetBytes(c) !in f.used
    requires CollisionFree(h, q) && NodeAsked(h, q, Leaves(f, f.activeTree), d - 1, 0)
    requires forall k: nat | d <= k < e ::
               LevelAsked(h, q, FrontierAt(f.frontier, f.activeTree), Leaves(f, f.activeTree), SetBytes(c), d, k)
    ensures InsertNote(h, e, f, c).Ok?
    ensures var i := InsertNote(h, e, f, c).value; i.root != RootBytes(h, e, Leaves(i.forest, i.treeId))
  {
    hide Cursor, WindowOk, SetBytes, UsedOk, ForestProofs.IndexOk, InsertNote;
    var t := f.activeTree;
    var ls := Leaves(f, t);
    assert TreeAt(h, d, f, t);
    assert KeyAt(f.frontier, t, d, d);
    EmptySlotIsZero(f.frontier, t, d);
    GrownFullTree(h, q, f, t, c, d, e);
    assert OnlyPreimage(h, q, Node(h, ls, d - 1, 0), Node(h, ls, d - 1, 1));
    GrownInsert(h, f, c, d, e);
  }

  /** The smallest case, for every hash: two notes at depth 1 from the empty store, a third at
      depth 2.  The insert pairs zero with the new half where the tree has the full half. */
  lemma GrownExample(h: Hash2, c0: Bytes, c1: Bytes, c2: Bytes)
    requires SetBytes(c0) != SetBytes(c1) && SetBytes(c2) !in {SetBytes(c0), SetBytes(c1)}
    ensures var f := InsertAll(h, 1, EMPTY, [c0, c1]);
      && f.Some? && InsertNote(h, 2, f.value, c2).Ok?
      && var i := InsertNote(h, 2, f.value, c2).value;
         var x0, x1, x2 := SetBytes(c0), SetBytes(c1), SetBytes(c2);
         && i.root == FeBytes(h(0, h(x2, 0)))
         && RootBytes(h, 2, Leaves(i.forest, i.treeId)) == FeBytes(h(h(x0, x1), h(x2, 0)))
  {
    hide SetBytes, FeBytes, InsertNote, InsertAll, Cursor, FrontierAt, PaddedRoot, Leaves;
    var f := TwoNotes(h, c0, c1);
    var fr, x2 := FrontierAt(f.frontier, 0), SetBytes(c2);
    assert NextIndex(f, 0) == |Leaves(f, 0)| == 2;
    GrownInsert(h, f, c2, 1, 2);
    EmptySlotIsZero(f.frontier, 0, 1);
    ShortWalk(h, fr, x2);
    ThreeLeaves(h, SetBytes(c0), SetBytes(c1), x2);
  }

  lemma ShortWalk(h: Hash2, fr: nat -> Fe, x: Fe)
    ensures Cursor(h, fr, 2, x, 2) == h(fr(1), h(x, 0))
  {
    assert Shr(2, 0) == 2 && Shr(2, 1) == 1;
    assert ZeroHash(h, 0) == 0;
    assert Cursor(h, fr, 2, x, 1) == h(x, 0);
  }

  lemma ThreeLeaves(h: Hash2, x0: Fe, x1: Fe, x2: Fe)
    ensures PaddedRoot(h, [x0, x1] + [x2], 2) == h(h(x0, x1), h(x2, 0))
  {
    var ls := [x0, x1] + [x2];
    assert Node(h, ls, 1, 0) == h(x0, x1);
    assert Node(h, ls, 1, 1) == h(x2, 0);
  }

  lemma TwoNotes(h: Hash2, c0: Bytes, c1: Bytes) returns (f: Forest)
    requires SetBytes(c0) != SetBytes(c1)
    ensures InsertAll(h, 1, EMPTY, [c0, c1]) == Some(f)
    ensures f.treeCount == 1 && f.activeTree == 0 && f.used == {SetBytes(c0), SetBytes(c1)}
    ensures Leaves(f, 0) == [SetBytes(c0), SetBytes(c1)] && (0, 1) !in f.frontier
  {
    hide SetBytes, InsertNote, Inv, Log, Leaves;
    EmptyInv(h, 1);
    assert Log(1, EMPTY) == [] by { EmptyLog(1); }
    var i := OneNote(h, EMPTY, c0);
    var j := OneNote(h, i.forest, c1);
    f := j.forest;
    assert [c0, c1][1..] == [c1] && [c1][1..] == [];
    assert InsertAll(h, 1, i.forest, [c1]) == Some(f);
    assert [] + [c0] + [c1] == [c0, c1];
    FirstTreeHolds(h, f, c0, c1);
  }

  lemma EmptyLog(d: nat)
    ensures Log(d, EMPTY) == []
  {
  }

  lemma FirstTreeHolds(h: Hash2, f: Forest, c0: Bytes, c1: Bytes)
    requires Inv(h, 1, f) && f.treeCount == 1 && Log(1, f) == [c0, c1] && NextIndex(f, 0) == 2
    ensures Leaves(f, 0) == [SetBytes(c0), SetBytes(c1)] && (0, 1) !in f.frontier
  {
    TreeIsBlock(h, 1, f, 0, 0);
    TreeIsBlock(h, 1, f, 0, 1);
    hide SetBytes, Log, FrontierOk, WindowOk, UsedOk, ForestProofs.IndexOk, LeafValues, PaddedRoot;
    assert TreeAt(h, 1, f, 0) && KeyAt(f.frontier, 0, 1, 1);
  }

  /** One of the first two notes at depth 1. */
  lemma OneNote(h: Hash2, f: Forest, c: Bytes) returns (i: Inserted)
    requires Inv(h, 1, f) && |Log(1, f)| <= 1 && SetBytes(c) !in f.used
    ensures InsertNote(h, 1, f, c) == Ok(i) && Inv(h, 1, i.forest)
    ensures Log(1, i.forest) == Log(1, f) + [c] && i.forest.used == f.used + {SetBytes(c)}
    ensures i.forest.treeCount == 1 && i.forest.activeTree == 0 && NextIndex(i.forest, 0) == |Log(1, f)| + 1
  {
    hide SetBytes, Inv, InsertNote, Log, RootBytes, SameTree;
    InsertNoteKeepsInv(h, 1, f, c, InsertNote(h, 1, f, c));
    i := InsertNote(h, 1, f, c).value;
    InsertNoteAppends(h, 1, f, c, i);
    InsertUses(h, 1, f, c, i);
    OnlyTree(h, 1, i.forest);
  }

  lemma OnlyTree(h: Hash2, d: nat, f: Forest)
    requires Inv(h, d, f) && f.treeCount == 1
    ensures f.activeTree == 0 && |Log(d, f)| == NextIndex(f, 0)
  {
    hide TreesOk, UsedOk, ForestProofs.IndexOk;
  }

  lemma EmptySlotIsZero(frontier: Keyed, t: nat, l: nat)
    requires (t, l) !in frontier
    ensures FrontierAt(frontier, t)(l) == 0
  {
  }
}
