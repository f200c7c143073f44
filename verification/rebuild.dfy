/** Rebuilding the root index from the slots it indexes. */
module Rebuild {
  import opened Field
  import opened Types
  import opened Forest
  import opened ForestProofs

  /** The current roots of trees below `t`. */
  function RootsBelow(roots: map<nat, Bytes>, t: nat): map<nat, Bytes> {
    map k | k in roots && k < t :: roots[k]
  }

  /** The history slots a walk has visited when it reaches slot `i` of tree `t`. */
  function HistoryBelow(history: Keyed, t: nat, i: nat): Keyed {
    map k | k in history && (k.0 < t || (k.0 == t && k.1 < i)) && k.1 < MAX_ROOT_HISTORY :: history[k]
  }

  /** Only one index counts a given set of slots. */
  lemma CountsUnique(a: map<Fe, nat>, b: map<Fe, nat>, roots: map<nat, Bytes>, history: Keyed)
    requires Counts(a, roots, history) && Counts(b, roots, history)
    ensures a == b
  {
    forall r: Fe ensures (r in a <==> r in b) && (r in a ==> a[r] == b[r]) {
      assert CountedAt(a, roots, history, r) && CountedAt(b, roots, history, r);
    }
  }

  /** Recording one more slot, in the walk's order. */
  lemma RecordRoot(index: map<Fe, nat>, roots: map<nat, Bytes>, history: Keyed, all: map<nat, Bytes>, t: nat)
    requires Counts(index, roots, history)
    requires roots == RootsBelow(all, t)
    ensures Counts(RefIncr(index, Slot(all, t)), RootsBelow(all, t + 1), history)
  {
    var v := Slot(all, t);
    PutRootKeepsCounts(index, roots, history, t, v);
    assert Slot(roots, t) == [];
    if |v| > 0 {
      assert RootsBelow(all, t + 1) == roots[t := v];
    } else {
      SkipEmptyRoot(index, roots, history, all, t);
    }
  }

  lemma SkipEmptyRoot(index: map<Fe, nat>, roots: map<nat, Bytes>, history: Keyed, all: map<nat, Bytes>, t: nat)
    requires Counts(index, roots, history) && roots == RootsBelow(all, t) && Slot(all, t) == []
    ensures Counts(index, RootsBelow(all, t + 1), history)
  {
    var roots' := RootsBelow(all, t + 1);
    forall r: Fe ensures CountedAt(index, roots', history, r) {
      assert CountedAt(index, roots, history, r);
      assert Holders<nat>(roots', r) == Holders<nat>(roots, r);
    }
  }

  lemma RecordHistory(index: map<Fe, nat>, roots: map<nat, Bytes>, all: Keyed, t: nat, i: nat)
    requires i < MAX_ROOT_HISTORY
    requires Counts(index, roots, HistoryBelow(all, t, i))
    ensures Counts(RefIncr(index, Slot(all, (t, i))), roots, HistoryBelow(all, t, i + 1))
  {
    var v, history := Slot(all, (t, i)), HistoryBelow(all, t, i);
    PutHistoryKeepsCounts(index, roots, history, (t, i), v);
    assert Slot(history, (t, i)) == [];
    if |v| > 0 {
      assert HistoryBelow(all, t, i + 1) == history[(t, i) := v];
    } else {
      SkipEmptyHistory(index, roots, all, t, i);
    }
  }

  lemma SkipEmptyHistory(index: map<Fe, nat>, roots: map<nat, Bytes>, all: Keyed, t: nat, i: nat)
    requires Counts(index, roots, HistoryBelow(all, t, i)) && Slot(all, (t, i)) == []
    ensures Counts(index, roots, HistoryBelow(all, t, i + 1))
  {
    var history, history' := HistoryBelow(all, t, i), HistoryBelow(all, t, i + 1);
    forall r: Fe ensures CountedAt(index, roots, history', r) {
      assert CountedAt(index, roots, history, r);
      assert Holders<(nat, nat)>(history', r) == Holders<(nat, nat)>(history, r);
    }
  }

  lemma NextTree(history: Keyed, t: nat)
    ensures HistoryBelow(history, t, MAX_ROOT_HISTORY) == HistoryBelow(history, t + 1, 0)
  {
  }

  lemma NothingCounted(roots: map<nat, Bytes>, history: Keyed)
    ensures Counts(map[], RootsBelow(roots, 0), HistoryBelow(history, 0, 0))
  {
    var roots', history' := RootsBelow(roots, 0), HistoryBelow(history, 0, 0);
    forall r: Fe ensures CountedAt(map[], roots', history', r) {
      assert Holders<nat>(roots', r) == {};
      assert Holders<(nat, nat)>(history', r) == {};
    }
  }

  /** What a rebuild leaves: the count over the slots of existing trees, whatever the index
      held before. */
  ghost predicate Rebuilt(f: Forest, g: Forest) {
    && g == f.(rootIndex := g.rootIndex)
    && Counts(g.rootIndex, RootsBelow(f.treeRoot, f.treeCount), HistoryBelow(f.history, f.treeCount, 0))
  }

  /** The rebuilt index is a function of the slots alone. */
  lemma RebuildIgnoresIndex(f1: Forest, f2: Forest, g1: Forest, g2: Forest)
    requires Rebuilt(f1, g1) && Rebuilt(f2, g2)
    requires f1.treeCount == f2.treeCount && f1.treeRoot == f2.treeRoot && f1.history == f2.history
    ensures g1.rootIndex == g2.rootIndex
  {
    CountsUnique(g1.rootIndex, g2.rootIndex,
                 RootsBelow(f1.treeRoot, f1.treeCount), HistoryBelow(f1.history, f1.treeCount, 0));
  }

  lemma RebuildIdempotent(f: Forest, g: Forest, k: Forest)
    requires Rebuilt(f, g) && Rebuilt(g, k)
    ensures k == g
  {
    RebuildIgnoresIndex(f, g, g, k);
  }

  /** When the index already counts the slots and no slot lies outside the walk, a rebuild
      changes nothing; conversely only such an index survives. */
  lemma RebuildFixesExactly(f: Forest, g: Forest)
    requires Rebuilt(f, g)
    requires forall t :: t in f.treeRoot ==> t < f.treeCount
    requires forall k :: k in f.history ==> k.0 < f.treeCount && k.1 < MAX_ROOT_HISTORY
    ensures g == f <==> IndexOk(f)
    ensures IndexOk(g)
  {
    assert RootsBelow(f.treeRoot, f.treeCount) == f.treeRoot;
    assert HistoryBelow(f.history, f.treeCount, 0) == f.history;
    if IndexOk(f) { CountsUnique(f.rootIndex, g.rootIndex, f.treeRoot, f.history); }
  }
}
