/** The forest as one append-only log of notes, cut into blocks of `2^d`. */
module ForestLog {
  import opened Field
  import opened Merkle
  import opened Types
  import opened Forest
  import opened ForestProofs
  import opened ForestInvariant

  /** The number of notes in a forest whose full trees hold `b` leaves. */
  function LogSize(b: nat, f: Forest): nat {
    if f.treeCount == 0 then 0 else (f.treeCount - 1) * b + NextIndex(f, f.treeCount - 1)
  }

  function LogAt(b: nat, f: Forest, k: nat): Bytes
    requires b > 0
  {
    Slot(f.leaves, (k / b, k % b))
  }

  /** All notes in insertion order: number `k` is leaf `k % b` of tree `k / b`. */
  function BlockLog(b: nat, f: Forest): (log: seq<Bytes>)
    requires b > 0
    ensures |log| == LogSize(b, f)
  {
    seq(LogSize(b, f), (k: nat) => LogAt(b, f, k))
  }

  function Log(d: nat, f: Forest): seq<Bytes> {
    BlockLog(Pow2(d), f)
  }

  /** Where the active tree's next leaf falls in the log. */
  lemma NextPosition(b: nat, f: Forest)
    requires f.treeCount > 0 && f.activeTree == f.treeCount - 1 && NextIndex(f, f.activeTree) < b
    ensures LogSize(b, f) / b == f.activeTree
    ensures LogSize(b, f) % b == NextIndex(f, f.activeTree)
  {
    DivModOf(f.activeTree, NextIndex(f, f.activeTree), b);
  }

  lemma PositionsDiffer(j: nat, k: nat, b: nat)
    requires b > 0 && j != k
    ensures (j / b, j % b) != (k / b, k % b)
  {
    assert j == b * (j / b) + j % b;
    assert k == b * (k / b) + k % b;
  }

  lemma PreparedKeepsLog(h: Hash2, d: nat, f: Forest, g: Forest)
    requires Inv(h, d, f) && g == Prepared(h, d, f)
    ensures Log(d, g) == Log(d, f)
    ensures forall t: nat :: t < f.treeCount ==> SameTree(f, g, t)
  {
    var f0 := EnsureTree(h, d, f);
    if f.treeCount == 0 {
      CreateKeepsLog(h, d, f, f0);
      CreateKeepsInv(h, d, f, f0);
    }
    assert TreeAt(h, d, f0, f0.activeTree);
    if NextIndex(f0, f0.activeTree) >= Pow2(d) { CreateKeepsLog(h, d, f0, g); }
    forall t: nat | t < f.treeCount ensures SameTree(f, g, t) {
      if g.treeCount == f.treeCount { SameSelf(f, g, t); } else { CreateKeepsOldTree(h, d, f, t); }
    }
  }

  lemma CreateKeepsOldTree(h: Hash2, d: nat, f: Forest, t: nat)
    requires t != f.treeCount
    ensures SameTree(f, CreateTree(h, d, f), t)
  {
    var g := CreateTree(h, d, f);
    forall i: nat ensures SameSlot(f.frontier, g.frontier, t, i) {
      ZeroFrontierAt(h, f.frontier, f.treeCount, d, t, i);
    }
    forall i: nat ensures SameSlot(f.leaves, g.leaves, t, i) && SameSlot(f.history, g.history, t, i) {}
  }

  lemma CreateKeepsLog(h: Hash2, d: nat, f: Forest, g: Forest)
    requires Shape(d, f) && Closed(d, f) && g == CreateTree(h, d, f)
    ensures Log(d, g) == Log(d, f)
  {
    BlockCarried(f, g, Pow2(d));
  }

  lemma BlockCarried(f: Forest, g: Forest, b: nat)
    requires b > 0 && f.leaves == g.leaves
    requires g.treeCount == f.treeCount + 1 && NextIndex(g, f.treeCount) == 0
    requires f.treeCount > 0 ==> NextIndex(f, f.treeCount - 1) == b
    ensures BlockLog(b, g) == BlockLog(b, f)
  {
    if f.treeCount > 0 {
      assert (f.treeCount - 1) * b + b == f.treeCount * b;
    }
  }

  lemma WriteGrowsLog(f: Forest, g: Forest, b: nat, c: Bytes)
    requires f.treeCount > 0 && f.activeTree == f.treeCount - 1 && NextIndex(f, f.activeTree) < b
    requires g.leaves == f.leaves[(f.activeTree, NextIndex(f, f.activeTree)) := c]
    requires g.treeCount == f.treeCount && NextIndex(g, f.activeTree) == NextIndex(f, f.activeTree) + 1
    ensures BlockLog(b, g) == BlockLog(b, f) + [c]
  {
    var k := LogSize(b, f);
    NextPosition(b, f);
    assert LogSize(b, g) == k + 1;
    forall j: nat | j < k ensures LogAt(b, g, j) == LogAt(b, f, j) {
      PositionsDiffer(j, k, b);
    }
  }

  lemma AppendGrowsLog(h: Hash2, d: nat, f: Forest, c: Bytes, r: Inserted)
    requires Shape(d, f) && Ready(d, f) && r == Append(h, d, f, c)
    ensures Log(d, r.forest) == Log(d, f) + [c]
  {
    WriteGrowsLog(f, r.forest, Pow2(d), c);
  }

  /** The `k`-th successful insert lands at tree `k / 2^d`, index `k % 2^d`; the log grows by
      exactly that note, the tree count is the log length over `2^d` rounded up, and no
      earlier tree changes.  The returned root is that of the tree that took the note. */
  lemma InsertNoteAppends(h: Hash2, d: nat, f: Forest, c: Bytes, r: Inserted)
    requires Inv(h, d, f) && InsertNote(h, d, f, c) == Ok(r)
    ensures Log(d, r.forest) == Log(d, f) + [c]
    ensures r.treeId == |Log(d, f)| / Pow2(d) && r.leafIndex == |Log(d, f)| % Pow2(d)
    ensures r.forest.treeCount == r.treeId + 1
    ensures forall t: nat :: t < r.treeId ==> SameTree(f, r.forest, t)
    ensures r.root == RootBytes(h, d, Leaves(r.forest, r.treeId))
  {
    var g := Prepared(h, d, f);
    PreparedKeepsInv(h, d, f, g);
    PreparedKeepsLog(h, d, f, g);
    assert r == Append(h, d, g, c);
    AppendGrowsLog(h, d, g, c, r);
    NextPosition(Pow2(d), g);
    AppendKeepsOldTrees(h, d, g, c, r);
    forall t: nat | t < r.treeId ensures SameTree(f, r.forest, t) {
      PreparedOldTree(h, d, f, g, t);
      SameTreeTrans(f, g, r.forest, t);
    }
    AppendReturnsRoot(h, d, g, c, r);
  }

  lemma PreparedOldTree(h: Hash2, d: nat, f: Forest, g: Forest, t: nat)
    requires Inv(h, d, f) && g == Prepared(h, d, f) && t < g.activeTree
    ensures SameTree(f, g, t)
  {
    PreparedKeepsLog(h, d, f, g);
    assert g.activeTree <= f.treeCount;
  }

  lemma AppendKeepsOldTrees(h: Hash2, d: nat, f: Forest, c: Bytes, r: Inserted)
    requires r == Append(h, d, f, c)
    ensures forall t: nat :: t < f.activeTree ==> SameTree(f, r.forest, t)
  {
    var a, f' := f.activeTree, InsertLeaf(h, d, f, f.activeTree, c);
    forall t: nat | t < a ensures SameTree(f, r.forest, t) {
      WalkElsewhere(h, d, f.frontier, a, NextIndex(f, a), SetBytes(c), t);
      WriteKeepsOtherTree(f, a, c, f'.frontier, WalkRoot(h, d, f, a, c), t);
      SameSelf(f', r.forest, t);
      SameTreeTrans(f, f', r.forest, t);
    }
  }

  lemma AppendReturnsRoot(h: Hash2, d: nat, f: Forest, c: Bytes, r: Inserted)
    requires Inv(h, d, f) && Ready(d, f) && r == Append(h, d, f, c)
    ensures r.root == RootBytes(h, d, Leaves(r.forest, r.treeId))
  {
    var a := f.activeTree;
    assert TreeAt(h, d, f, a);
    InsertedRoot(h, d, f, a, c);
    LeavesGrow(f, a, c, WalkWrites(h, f.frontier, a, NextIndex(f, a), SetBytes(c), d), r.root);
  }

  /** Running a list of inserts from a forest; none if any of them is refused. */
  function InsertAll(h: Hash2, d: nat, f: Forest, cs: seq<Bytes>): Option<Forest>
    decreases |cs|
  {
    if |cs| == 0 then Some(f)
    else match InsertNote(h, d, f, cs[0])
      case Ok(r) => InsertAll(h, d, r.forest, cs[1..])
      case Err(_) => None
  }

  /** The log is the list of inserted notes, and every forest on the way is well formed. */
  lemma {:induction false} LogIsHistory(h: Hash2, d: nat, f: Forest, cs: seq<Bytes>, g: Forest)
    requires Inv(h, d, f) && InsertAll(h, d, f, cs) == Some(g)
    ensures Inv(h, d, g) && Log(d, g) == Log(d, f) + cs
    decreases |cs|
  {
    if |cs| > 0 {
      var r := InsertNote(h, d, f, cs[0]);
      OneMore(h, d, f, cs[0], r);
      LogIsHistory(h, d, r.value.forest, cs[1..], g);
      Regroup(Log(d, f), cs);
    }
  }

  lemma Regroup(a: seq<Bytes>, cs: seq<Bytes>)
    requires |cs| > 0
    ensures a + [cs[0]] + cs[1..] == a + cs
  {
  }

  lemma OneMore(h: Hash2, d: nat, f: Forest, c: Bytes, r: Result<Inserted, Error>)
    requires Inv(h, d, f) && r == InsertNote(h, d, f, c) && r.Ok?
    ensures Inv(h, d, r.value.forest) && Log(d, r.value.forest) == Log(d, f) + [c]
  {
    InsertNoteKeepsInv(h, d, f, c, r);
    InsertNoteAppends(h, d, f, c, r.value);
  }

  lemma BlockHolds(f: Forest, b: nat, t: nat, i: nat)
    requires t < f.treeCount && i < NextIndex(f, t) && i < b
    requires t + 1 < f.treeCount ==> NextIndex(f, t) == b
    ensures t * b + i < LogSize(b, f) && LogAt(b, f, t * b + i) == Slot(f.leaves, (t, i))
  {
    if t + 1 < f.treeCount { Gap(t, f.treeCount - 1, b); }
    DivModOf(t, i, b);
  }

  /** Tree `t` holds block `t` of the log. */
  lemma TreeIsBlock(h: Hash2, d: nat, f: Forest, t: nat, i: nat)
    requires Inv(h, d, f) && t < f.treeCount && i < NextIndex(f, t)
    ensures t * Pow2(d) + i < |Log(d, f)|
    ensures Leaves(f, t)[i] == SetBytes(Log(d, f)[t * Pow2(d) + i])
  {
    hide Pow2, SetBytes, FrontierOk, WindowOk, RootBytes, NoTree, UsedOk, IndexOk, Slot, Keys;
    assert TreeAt(h, d, f, t);
    assert FullIfOld(d, f, t);
    BlockHolds(f, Pow2(d), t, i);
  }
}
