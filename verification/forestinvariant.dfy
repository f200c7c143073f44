/** The invariant of a reachable forest of fixed depth, and its preservation.

    A tree is described by its leaf values `ls`; everything else stored for it is a
    function of them. */
module ForestInvariant {
  import opened Field
  import opened Merkle
  import opened Types
  import opened Forest
  import opened ForestProofs

  function RootBytes(h: Hash2, d: nat, ls: seq<Fe>): Bytes {
    FeBytes(PaddedRoot(h, ls, d))
  }

  /** Inserts whose root is still in the ring of a tree with `n` leaves. */
  predicate InWindow(n: nat, j: nat) {
    j < n <= j + MAX_ROOT_HISTORY
  }

  ghost predicate KeyAt(m: Keyed, t: nat, n: nat, i: nat) { (t, i) in m <==> i < n }

  /** Tree `t` occupies exactly the keys `(t, 0) .. (t, n - 1)` of `m`. */
  ghost predicate Keys(m: Keyed, t: nat, n: nat) {
    forall i: nat :: KeyAt(m, t, n, i)
  }

  ghost predicate SlotHolds(h: Hash2, d: nat, ls: seq<Fe>, history: Keyed, t: nat, j: nat) {
    j < |ls| && Slot(history, (t, j % MAX_ROOT_HISTORY)) == RootBytes(h, d, ls[..j + 1])
  }

  /** Slot `j % 100` holds the root after insert `j`, for the last 100 inserts. */
  ghost predicate WindowOk(h: Hash2, d: nat, ls: seq<Fe>, history: Keyed, t: nat) {
    forall j: nat :: InWindow(|ls|, j) ==> SlotHolds(h, d, ls, history, t, j)
  }

  /** What is stored for a tree with leaf values `ls`. */
  ghost predicate TreeStored(h: Hash2, d: nat, ls: seq<Fe>, frontier: Keyed, root: Bytes, history: Keyed, t: nat) {
    && |ls| <= Pow2(d)
    && root == RootBytes(h, d, ls)
    && Keys(frontier, t, d)
    && FrontierOk(h, FrontierAt(frontier, t), ls, d)
    && Keys(history, t, Min(|ls|, MAX_ROOT_HISTORY))
    && WindowOk(h, d, ls, history, t)
  }

  ghost predicate TreeOk(h: Hash2, d: nat, f: Forest, t: nat) {
    && t in f.nextIndex && t in f.treeRoot
    && Keys(f.leaves, t, f.nextIndex[t])
    && TreeStored(h, d, Leaves(f, t), f.frontier, f.treeRoot[t], f.history, t)
  }

  ghost predicate NoTree(f: Forest, t: nat) {
    && t !in f.nextIndex && t !in f.treeRoot
    && Keys(f.leaves, t, 0) && Keys(f.frontier, t, 0) && Keys(f.history, t, 0)
  }

  ghost predicate FullIfOld(d: nat, f: Forest, t: nat) {
    t + 1 < f.treeCount ==> NextIndex(f, t) == Pow2(d)
  }

  /** Trees are numbered from zero, the last one is active, and all others are full. */
  ghost predicate Shape(d: nat, f: Forest) {
    && f.activeTree == (if f.treeCount == 0 then 0 else f.treeCount - 1)
    && (forall t: nat :: FullIfOld(d, f, t))
  }

  ghost predicate TreeAt(h: Hash2, d: nat, f: Forest, t: nat) {
    if t < f.treeCount then TreeOk(h, d, f, t) else NoTree(f, t)
  }

  ghost predicate TreesOk(h: Hash2, d: nat, f: Forest) {
    forall t: nat :: TreeAt(h, d, f, t)
  }

  ghost predicate ValueStored<K(!new)>(leaves: map<K, Bytes>, x: Fe) {
    exists k :: k in leaves && SetBytes(leaves[k]) == x
  }

  /** The used-set is the set of leaf values. */
  ghost predicate Covers<K(!new)>(leaves: map<K, Bytes>, used: set<Fe>) {
    forall x: Fe {:trigger ValueStored(leaves, x)} :: x in used <==> ValueStored(leaves, x)
  }

  ghost predicate NoClash<K>(leaves: map<K, Bytes>, k: K, k': K) {
    k in leaves && k' in leaves && SetBytes(leaves[k]) == SetBytes(leaves[k']) ==> k == k'
  }

  /** No value sits at two leaves. */
  ghost predicate Distinct<K(!new)>(leaves: map<K, Bytes>) {
    forall k, k' :: NoClash(leaves, k, k')
  }

  ghost predicate UsedOk<K(!new)>(leaves: map<K, Bytes>, used: set<Fe>) {
    Covers(leaves, used) && Distinct(leaves)
  }

  ghost predicate Inv(h: Hash2, d: nat, f: Forest) {
    Shape(d, f) && TreesOk(h, d, f) && UsedOk<(nat, nat)>(f.leaves, f.used) && IndexOk(f)
  }

  // ===== writes to other trees =====

  ghost predicate SameSlot(m: Keyed, m': Keyed, t: nat, i: nat) {
    ((t, i) in m <==> (t, i) in m') && Slot(m, (t, i)) == Slot(m', (t, i))
  }

  ghost predicate SameAt(m: Keyed, m': Keyed, t: nat) {
    forall i: nat :: SameSlot(m, m', t, i)
  }

  lemma SameKeys(m: Keyed, m': Keyed, t: nat, n: nat)
    requires SameAt(m, m', t) && Keys(m, t, n)
    ensures Keys(m', t, n)
  {
    forall i: nat ensures KeyAt(m', t, n, i) {
      assert SameSlot(m, m', t, i) && KeyAt(m, t, n, i);
    }
  }

  lemma SameFrontier(h: Hash2, d: nat, ls: seq<Fe>, frontier: Keyed, frontier': Keyed, t: nat)
    requires SameAt(frontier, frontier', t)
    requires FrontierOk(h, FrontierAt(frontier, t), ls, d)
    ensures FrontierOk(h, FrontierAt(frontier', t), ls, d)
  {
    forall l: nat | l < d && Shr(|ls|, l) % 2 == 1
      ensures FrontierAt(frontier', t)(l) == Node(h, ls, l, Shr(|ls|, l) - 1)
    {
      assert SameSlot(frontier, frontier', t, l);
      assert FrontierAt(frontier, t)(l) == Node(h, ls, l, Shr(|ls|, l) - 1);
    }
  }

  lemma SameWindow(h: Hash2, d: nat, ls: seq<Fe>, history: Keyed, history': Keyed, t: nat)
    requires SameAt(history, history', t) && WindowOk(h, d, ls, history, t)
    ensures WindowOk(h, d, ls, history', t)
  {
    forall j: nat | InWindow(|ls|, j) ensures SlotHolds(h, d, ls, history', t, j) {
      assert SlotHolds(h, d, ls, history, t, j);
      assert SameSlot(history, history', t, j % MAX_ROOT_HISTORY);
    }
  }

  lemma SameLeaves(leaves: Keyed, leaves': Keyed, t: nat, n: nat)
    requires SameAt(leaves, leaves', t)
    ensures LeafValues(leaves, t, n) == LeafValues(leaves', t, n)
  {
    forall i: nat | i < n ensures LeafValues(leaves, t, n)[i] == LeafValues(leaves', t, n)[i] {
      assert SameSlot(leaves, leaves', t, i);
    }
  }

  /** `f` and `f'` store the same keys and values for tree `t`. */
  ghost predicate SameTree(f: Forest, f': Forest, t: nat) {
    && (t in f.nextIndex <==> t in f'.nextIndex) && NextIndex(f, t) == NextIndex(f', t)
    && (t in f.treeRoot <==> t in f'.treeRoot) && Slot(f.treeRoot, t) == Slot(f'.treeRoot, t)
    && SameAt(f.leaves, f'.leaves, t) && SameAt(f.frontier, f'.frontier, t) && SameAt(f.history, f'.history, t)
  }

  lemma SameTreeOk(h: Hash2, d: nat, f: Forest, f': Forest, t: nat)
    requires SameTree(f, f', t) && TreeOk(h, d, f, t)
    ensures TreeOk(h, d, f', t)
  {
    var ls := Leaves(f, t);
    SameLeaves(f.leaves, f'.leaves, t, NextIndex(f, t));
    SameKeys(f.leaves, f'.leaves, t, f.nextIndex[t]);
    SameKeys(f.frontier, f'.frontier, t, d);
    SameKeys(f.history, f'.history, t, Min(|ls|, MAX_ROOT_HISTORY));
    SameFrontier(h, d, ls, f.frontier, f'.frontier, t);
    SameWindow(h, d, ls, f.history, f'.history, t);
  }

  lemma SameTreeTrans(f: Forest, g: Forest, k: Forest, t: nat)
    requires SameTree(f, g, t) && SameTree(g, k, t)
    ensures SameTree(f, k, t)
  {
    SameAtTrans(f.leaves, g.leaves, k.leaves, t);
    SameAtTrans(f.frontier, g.frontier, k.frontier, t);
    SameAtTrans(f.history, g.history, k.history, t);
  }

  lemma SameAtTrans(a: Keyed, b: Keyed, c: Keyed, t: nat)
    requires SameAt(a, b, t) && SameAt(b, c, t)
    ensures SameAt(a, c, t)
  {
    forall i: nat ensures SameSlot(a, c, t, i) { assert SameSlot(a, b, t, i) && SameSlot(b, c, t, i); }
  }

  lemma SameNoTree(f: Forest, f': Forest, t: nat)
    requires SameTree(f, f', t) && NoTree(f, t)
    ensures NoTree(f', t)
  {
    SameKeys(f.leaves, f'.leaves, t, 0);
    SameKeys(f.frontier, f'.frontier, t, 0);
    SameKeys(f.history, f'.history, t, 0);
  }

  lemma SameTreeAt(h: Hash2, d: nat, f: Forest, f': Forest, t: nat)
    requires SameTree(f, f', t) && TreeAt(h, d, f, t) && (t < f.treeCount <==> t < f'.treeCount)
    ensures TreeAt(h, d, f', t)
  {
    if t < f.treeCount { SameTreeOk(h, d, f, f', t); } else { SameNoTree(f, f', t); }
  }

  lemma PutElsewhere(m: Keyed, k: (nat, nat), v: Bytes, t: nat)
    requires k.0 != t
    ensures SameAt(m, m[k := v], t) && SameAt(m, Put(m, k, v), t)
  {
    var m' := m[k := v];
    forall i: nat ensures SameSlot(m, m', t, i) {}
    forall i: nat ensures SameSlot(m, Put(m, k, v), t, i) {}
  }

  // ===== one insert =====

  /** The walk writes exactly the levels of tree `t` where the index bit is clear. */
  lemma {:induction false} WalkWritesAt(h: Hash2, m: Keyed, t: nat, index: nat, c: Fe, l: nat, t': nat, j: nat)
    ensures var m' := WalkWrites(h, m, t, index, c, l);
            if t' == t && j < l && Shr(index, j) % 2 == 0
            then (t', j) in m' && m'[(t', j)] == FeBytes(Cursor(h, FrontierAt(m, t), index, c, j))
            else SameSlot(m, m', t', j)
  {
    if l > 0 { WalkWritesAt(h, m, t, index, c, l - 1, t', j); }
  }

  lemma WalkKeepsStoredFrontier(h: Hash2, d: nat, ls: seq<Fe>, frontier: Keyed, t: nat, c: Fe)
    requires Keys(frontier, t, d) && FrontierOk(h, FrontierAt(frontier, t), ls, d)
    ensures var frontier' := WalkWrites(h, frontier, t, |ls|, c, d);
            Keys(frontier', t, d) && FrontierOk(h, FrontierAt(frontier', t), ls + [c], d)
  {
    var frontier' := WalkWrites(h, frontier, t, |ls|, c, d);
    var before, after := FrontierAt(frontier, t), FrontierAt(frontier', t);
    forall l: nat ensures KeyAt(frontier', t, d, l) {
      assert KeyAt(frontier, t, d, l);
      WalkWritesAt(h, frontier, t, |ls|, c, d, t, l);
    }
    forall l: nat | l < d
      ensures after(l) == if Shr(|ls|, l) % 2 == 0 then Cursor(h, before, |ls|, c, l) else before(l)
    {
      WalkWritesAt(h, frontier, t, |ls|, c, d, t, l);
      SetBytesFeBytes(Cursor(h, before, |ls|, c, l));
    }
    assert WalkedFrontier(h, before, after, |ls|, c, d);
    WalkKeepsFrontier(h, before, after, ls, c, d);
  }

  /** The new root takes the slot of the insert 100 before it; the other slots stay. */
  lemma InsertKeepsWindow(h: Hash2, d: nat, ls: seq<Fe>, history: Keyed, t: nat, c: Fe)
    requires Keys(history, t, Min(|ls|, MAX_ROOT_HISTORY)) && WindowOk(h, d, ls, history, t)
    ensures var history' := Put(history, (t, |ls| % MAX_ROOT_HISTORY), RootBytes(h, d, ls + [c]));
            Keys(history', t, Min(|ls| + 1, MAX_ROOT_HISTORY)) && WindowOk(h, d, ls + [c], history', t)
  {
    var slot := |ls| % MAX_ROOT_HISTORY;
    var history' := Put(history, (t, slot), RootBytes(h, d, ls + [c]));
    var size := Min(|ls| + 1, MAX_ROOT_HISTORY);
    forall i: nat ensures KeyAt(history', t, size, i) {
      assert KeyAt(history, t, Min(|ls|, MAX_ROOT_HISTORY), i);
    }
    forall j: nat | InWindow(|ls| + 1, j) ensures SlotHolds(h, d, ls + [c], history', t, j) {
      if j == |ls| {
        assert (ls + [c])[..j + 1] == ls + [c];
      } else {
        assert SlotHolds(h, d, ls, history, t, j);
        assert (ls + [c])[..j + 1] == ls[..j + 1];
        assert j % MAX_ROOT_HISTORY != slot;
      }
    }
  }

  /** The root written by an insert is the root of the full depth-`d` tree over all the
      tree's leaves, padded with zeros. */
  lemma InsertedRoot(h: Hash2, d: nat, f: Forest, t: nat, c: Bytes)
    requires TreeOk(h, d, f, t) && NextIndex(f, t) < Pow2(d)
    ensures WalkRoot(h, d, f, t, c) == RootBytes(h, d, Leaves(f, t) + [SetBytes(c)])
  {
    WalkComputesRoot(h, FrontierAt(f.frontier, t), Leaves(f, t), SetBytes(c), d);
  }

  lemma LeafValuesGrow(leaves: Keyed, t: nat, n: nat, c: Bytes)
    ensures LeafValues(leaves[(t, n) := c], t, n + 1) == LeafValues(leaves, t, n) + [SetBytes(c)]
  {
    hide SetBytes;
    var a, b := LeafValues(leaves[(t, n) := c], t, n + 1), LeafValues(leaves, t, n) + [SetBytes(c)];
    forall i: nat | i < n + 1 ensures a[i] == b[i] {}
  }

  lemma LeavesGrow(f: Forest, t: nat, c: Bytes, frontier: Keyed, root: Bytes)
    ensures Leaves(WriteLeaf(f, t, c, frontier, root), t) == Leaves(f, t) + [SetBytes(c)]
  {
    hide Put, Reindex, SetBytes, LeafValues;
    LeafValuesGrow(f.leaves, t, NextIndex(f, t), c);
  }

  lemma StoredGrows(h: Hash2, d: nat, ls: seq<Fe>, frontier: Keyed, root: Bytes, history: Keyed, t: nat,
                    c: Fe, frontier': Keyed)
    requires TreeStored(h, d, ls, frontier, root, history, t) && |ls| < Pow2(d)
    requires Keys(frontier', t, d) && FrontierOk(h, FrontierAt(frontier', t), ls + [c], d)
    ensures var root' := RootBytes(h, d, ls + [c]);
            TreeStored(h, d, ls + [c], frontier', root', Put(history, (t, |ls| % MAX_ROOT_HISTORY), root'), t)
  {
    InsertKeepsWindow(h, d, ls, history, t, c);
  }

  lemma WriteKeepsTree(h: Hash2, d: nat, f: Forest, t: nat, c: Bytes, frontier: Keyed, root: Bytes)
    requires TreeOk(h, d, f, t)
    requires TreeStored(h, d, Leaves(f, t) + [SetBytes(c)], frontier, root,
                        Put(f.history, (t, NextIndex(f, t) % MAX_ROOT_HISTORY), root), t)
    requires |root| > 0
    ensures TreeOk(h, d, WriteLeaf(f, t, c, frontier, root), t)
  {
    var f', n' := WriteLeaf(f, t, c, frontier, root), NextIndex(f, t) + 1;
    assert Leaves(f', t) == Leaves(f, t) + [SetBytes(c)] by { LeavesGrow(f, t, c, frontier, root); }
    assert t in f'.treeRoot && f'.treeRoot[t] == root;
    assert TreeStored(h, d, Leaves(f', t), f'.frontier, f'.treeRoot[t], f'.history, t);
    assert Keys(f'.leaves, t, n') by { LeafKeysGrow(f.leaves, t, NextIndex(f, t), c); }
  }

  lemma LeafKeysGrow(leaves: Keyed, t: nat, n: nat, c: Bytes)
    requires Keys(leaves, t, n)
    ensures Keys(leaves[(t, n) := c], t, n + 1)
  {
    var leaves', n' := leaves[(t, n) := c], n + 1;
    forall i: nat ensures KeyAt(leaves', t, n', i) {
      assert KeyAt(leaves, t, n, i);
    }
  }

  lemma InsertKeepsTree(h: Hash2, d: nat, f: Forest, t: nat, c: Bytes)
    requires TreeOk(h, d, f, t) && NextIndex(f, t) < Pow2(d)
    ensures TreeOk(h, d, InsertLeaf(h, d, f, t, c), t)
  {
    var x := SetBytes(c);
    InsertedRoot(h, d, f, t, c);
    WalkKeepsStoredFrontier(h, d, Leaves(f, t), f.frontier, t, x);
    var frontier' := WalkWrites(h, f.frontier, t, NextIndex(f, t), x, d);
    StoredGrows(h, d, Leaves(f, t), f.frontier, f.treeRoot[t], f.history, t, x, frontier');
    WriteKeepsTree(h, d, f, t, c, frontier', WalkRoot(h, d, f, t, c));
  }

  lemma WalkElsewhere(h: Hash2, d: nat, m: Keyed, t: nat, index: nat, c: Fe, t': nat)
    requires t' != t
    ensures SameAt(m, WalkWrites(h, m, t, index, c, d), t')
  {
    var m' := WalkWrites(h, m, t, index, c, d);
    forall i: nat ensures SameSlot(m, m', t', i) { WalkWritesAt(h, m, t, index, c, d, t', i); }
  }

  lemma WriteKeepsOtherTree(f: Forest, t: nat, c: Bytes, frontier: Keyed, root: Bytes, t': nat)
    requires t' != t && SameAt(f.frontier, frontier, t')
    ensures SameTree(f, WriteLeaf(f, t, c, frontier, root), t')
  {
    PutElsewhere(f.leaves, (t, NextIndex(f, t)), c, t');
    PutElsewhere(f.history, (t, NextIndex(f, t) % MAX_ROOT_HISTORY), root, t');
  }

  lemma UseFreshValue<K(!new)>(leaves: map<K, Bytes>, used: set<Fe>, k: K, c: Bytes)
    requires UsedOk(leaves, used) && k !in leaves && SetBytes(c) !in used
    ensures UsedOk(leaves[k := c], used + {SetBytes(c)})
  {
    var leaves', used' := leaves[k := c], used + {SetBytes(c)};
    forall x: Fe ensures x in used' <==> ValueStored(leaves', x) {
      assert x in used <==> ValueStored(leaves, x);
      if x in used {
        var k' :| k' in leaves && SetBytes(leaves[k']) == x;
        assert k' in leaves' && SetBytes(leaves'[k']) == x;
      } else if x == SetBytes(c) {
        assert k in leaves' && SetBytes(leaves'[k]) == x;
      }
    }
    assert !ValueStored(leaves, SetBytes(c));
    forall a, b ensures NoClash(leaves', a, b) {
      assert NoClash(leaves, a, b);
    }
  }

  /** Room in the active tree. */
  ghost predicate Ready(d: nat, f: Forest) {
    f.treeCount > 0 && NextIndex(f, f.activeTree) < Pow2(d)
  }

  lemma AppendKeepsTreeAt(h: Hash2, d: nat, f: Forest, c: Bytes, t: nat)
    requires Shape(d, f) && Ready(d, f) && TreeAt(h, d, f, f.activeTree) && TreeAt(h, d, f, t)
    ensures TreeAt(h, d, Append(h, d, f, c).forest, t)
  {
    var a, x := f.activeTree, SetBytes(c);
    var f', g := InsertLeaf(h, d, f, a, c), Append(h, d, f, c).forest;
    assert g == f'.(used := g.used);
    assert SameTree(f', g, t) by { SameSelf(f', g, t); }
    if t == a {
      InsertKeepsTree(h, d, f, a, c);
    } else {
      WalkElsewhere(h, d, f.frontier, a, NextIndex(f, a), x, t);
      WriteKeepsOtherTree(f, a, c, f'.frontier, WalkRoot(h, d, f, a, c), t);
      SameTreeAt(h, d, f, f', t);
    }
    SameTreeAt(h, d, f', g, t);
  }

  lemma SameSelf(f: Forest, g: Forest, t: nat)
    requires f.nextIndex == g.nextIndex && f.treeRoot == g.treeRoot
    requires f.leaves == g.leaves && f.frontier == g.frontier && f.history == g.history
    ensures SameTree(f, g, t)
  {
  }

  lemma AppendKeepsTrees(h: Hash2, d: nat, f: Forest, c: Bytes, g: Forest)
    requires Shape(d, f) && TreesOk(h, d, f) && Ready(d, f)
    requires g == Append(h, d, f, c).forest
    ensures TreesOk(h, d, g)
  {
    assert TreeAt(h, d, f, f.activeTree);
    forall t: nat ensures TreeAt(h, d, g, t) {
      assert TreeAt(h, d, f, t);
      AppendKeepsTreeAt(h, d, f, c, t);
    }
  }

  lemma AppendKeepsUsed(h: Hash2, d: nat, f: Forest, c: Bytes, g: Forest)
    requires TreesOk(h, d, f) && Ready(d, f) && Shape(d, f)
    requires UsedOk<(nat, nat)>(f.leaves, f.used) && SetBytes(c) !in f.used
    requires g == Append(h, d, f, c).forest
    ensures UsedOk<(nat, nat)>(g.leaves, g.used)
  {
    var a := f.activeTree;
    assert TreeAt(h, d, f, a);
    assert KeyAt(f.leaves, a, NextIndex(f, a), NextIndex(f, a));
    UseFreshValue<(nat, nat)>(f.leaves, f.used, (a, NextIndex(f, a)), c);
  }

  lemma AppendKeepsShape(h: Hash2, d: nat, f: Forest, c: Bytes, g: Forest)
    requires Shape(d, f) && Ready(d, f)
    requires g == Append(h, d, f, c).forest
    ensures Shape(d, g)
  {
    hide InsertLeaf, WriteLeaf, WalkRoot, Pow2;
    AppendMovesIndex(h, d, f, c, g);
    forall t: nat ensures FullIfOld(d, g, t) { assert FullIfOld(d, f, t); }
  }

  lemma AppendMovesIndex(h: Hash2, d: nat, f: Forest, c: Bytes, g: Forest)
    requires g == Append(h, d, f, c).forest
    ensures g.treeCount == f.treeCount && g.activeTree == f.activeTree
    ensures g.nextIndex == f.nextIndex[f.activeTree := NextIndex(f, f.activeTree) + 1]
  {
    hide WalkRoot, WalkWrites, Put, Reindex;
  }

  lemma AppendKeepsInv(h: Hash2, d: nat, f: Forest, c: Bytes, g: Forest)
    requires Inv(h, d, f) && Ready(d, f) && SetBytes(c) !in f.used
    requires g == Append(h, d, f, c).forest
    ensures Inv(h, d, g)
  {
    assert TreesOk(h, d, g) by { AppendKeepsTrees(h, d, f, c, g); }
    assert Shape(d, g) by { AppendKeepsShape(h, d, f, c, g); }
    assert UsedOk<(nat, nat)>(g.leaves, g.used) by { AppendKeepsUsed(h, d, f, c, g); }
    assert IndexOk(g) by { AppendKeepsIndex(h, d, f, c); }
  }

  // ===== opening a tree =====

  lemma {:induction false} ZeroFrontierAt(h: Hash2, m: Keyed, t: nat, l: nat, t': nat, j: nat)
    ensures var m' := ZeroFrontier(h, m, t, l);
            if t' == t && j < l then (t', j) in m' && m'[(t', j)] == ZeroRootBytes(h, j)
            else SameSlot(m, m', t', j)
  {
    if l > 0 { ZeroFrontierAt(h, m, t, l - 1, t', j); }
  }

  lemma NewTreeStored(h: Hash2, d: nat, frontier: Keyed, history: Keyed, t: nat)
    requires Keys(frontier, t, 0) && Keys(history, t, 0)
    ensures TreeStored(h, d, [], ZeroFrontier(h, frontier, t, d), ZeroRootBytes(h, d), history, t)
  {
    var frontier' := ZeroFrontier(h, frontier, t, d);
    EmptyTree(h, FrontierAt(frontier', t), d);
    forall l: nat ensures KeyAt(frontier', t, d, l) {
      assert KeyAt(frontier, t, 0, l);
      ZeroFrontierAt(h, frontier, t, d, t, l);
    }
  }

  lemma CreateKeepsTreeAt(h: Hash2, d: nat, f: Forest, t: nat)
    requires TreeAt(h, d, f, t)
    ensures TreeAt(h, d, CreateTree(h, d, f), t)
  {
    var g := CreateTree(h, d, f);
    if t == f.treeCount {
      NewTreeStored(h, d, f.frontier, f.history, t);
      assert Leaves(g, t) == [];
    } else {
      forall i: nat ensures SameSlot(f.frontier, g.frontier, t, i) {
        ZeroFrontierAt(h, f.frontier, f.treeCount, d, t, i);
      }
      assert SameAt(f.leaves, g.leaves, t) && SameAt(f.history, g.history, t);
      SameTreeAt(h, d, f, g, t);
    }
  }

  /** A new tree may be opened when there is none or the active one is full. */
  ghost predicate Closed(d: nat, f: Forest) {
    f.treeCount > 0 ==> NextIndex(f, f.activeTree) == Pow2(d)
  }

  lemma CreateKeepsInv(h: Hash2, d: nat, f: Forest, g: Forest)
    requires Inv(h, d, f) && Closed(d, f)
    requires g == CreateTree(h, d, f)
    ensures Inv(h, d, g) && Ready(d, g) && g.used == f.used
  {
    forall t: nat ensures TreeAt(h, d, g, t) {
      assert TreeAt(h, d, f, t);
      CreateKeepsTreeAt(h, d, f, t);
    }
    forall t: nat ensures FullIfOld(d, g, t) { assert FullIfOld(d, f, t); }
    CreateTreeKeepsIndex(h, d, f);
  }

  lemma PreparedKeepsInv(h: Hash2, d: nat, f: Forest, g: Forest)
    requires Inv(h, d, f) && g == Prepared(h, d, f)
    ensures Inv(h, d, g) && Ready(d, g) && g.used == f.used
  {
    var f0 := EnsureTree(h, d, f);
    if f.treeCount == 0 { CreateKeepsInv(h, d, f, f0); }
    assert TreeAt(h, d, f0, f0.activeTree);
    if NextIndex(f0, f0.activeTree) >= Pow2(d) { CreateKeepsInv(h, d, f0, g); }
  }

  /** Every insert into a well-formed forest succeeds unless the value is already a leaf,
      and keeps the forest well formed.  In particular `TreeFull` is never returned. */
  lemma InsertNoteKeepsInv(h: Hash2, d: nat, f: Forest, c: Bytes, r: Result<Inserted, Error>)
    requires Inv(h, d, f) && r == InsertNote(h, d, f, c)
    ensures r.Ok? <==> SetBytes(c) !in f.used
    ensures r.Err? ==> r.error == DuplicateCommitment
    ensures r.Ok? ==> Inv(h, d, r.value.forest)
  {
    var f1 := Prepared(h, d, f);
    PreparedKeepsInv(h, d, f, f1);
    if r.Ok? { AppendKeepsInv(h, d, f1, c, r.value.forest); }
  }

  lemma InsertUses(h: Hash2, d: nat, f: Forest, c: Bytes, r: Inserted)
    requires InsertNote(h, d, f, c) == Ok(r)
    ensures r.forest.used == f.used + {SetBytes(c)}
  {
  }

  lemma EmptyInv(h: Hash2, d: nat)
    ensures Inv(h, d, EMPTY)
  {
    forall t: nat ensures TreeAt(h, d, EMPTY, t) {
      assert Keys(EMPTY.leaves, t, 0);
    }
    forall r: Fe ensures CountedAt(EMPTY.rootIndex, EMPTY.treeRoot, EMPTY.history, r) {
      assert Holders<nat>(EMPTY.treeRoot, r) == {};
      assert Holders<(nat, nat)>(EMPTY.history, r) == {};
    }
  }
}
