/** What every forest operation keeps, and what follows from it: the counting invariant of
    the root index, the padded-root theorem for every tree, the exact set of accepted
    roots, and the forest as one append-only log. */
module ForestProofs {
  import opened Field
  import opened Merkle
  import opened Types
  import opened Forest

  // ===== the root index counts slots =====

  ghost predicate Holds(b: Bytes, r: Fe) {
    |b| > 0 && SetBytes(b) == r
  }

  /** The slots of `m` whose content denotes `r`. */
  ghost function Holders<K>(m: map<K, Bytes>, r: Fe): set<K> {
    set k | k in m && Holds(m[k], r)
  }

  /** How many root slots hold `r`, over every tree's current root and history ring. */
  ghost function SlotCount(roots: map<nat, Bytes>, history: Keyed, r: Fe): nat {
    |Holders<nat>(roots, r)| + |Holders<(nat, nat)>(history, r)|
  }

  ghost predicate EntryIs(index: map<Fe, nat>, r: Fe, n: nat) {
    (r in index <==> n > 0) && (r in index ==> index[r] == n)
  }

  ghost predicate CountedAt(index: map<Fe, nat>, roots: map<nat, Bytes>, history: Keyed, r: Fe) {
    EntryIs(index, r, SlotCount(roots, history, r))
  }

  /** The index is the slot count: entries with count zero are absent. */
  ghost predicate Counts(index: map<Fe, nat>, roots: map<nat, Bytes>, history: Keyed) {
    forall r: Fe :: CountedAt(index, roots, history, r)
  }

  ghost predicate IndexOk(f: Forest) {
    Counts(f.rootIndex, f.treeRoot, f.history)
  }

  lemma CardWithout<K>(s: set<K>, k: K)
    ensures |s| == |s - {k}| + (if k in s then 1 else 0)
  {
    if k in s { assert s == (s - {k}) + {k}; } else { assert s == s - {k}; }
  }

  /** Overwriting one slot moves one unit of count from the old value to the new. */
  lemma HoldersUpdate<K>(m: map<K, Bytes>, k: K, v: Bytes, r: Fe)
    ensures |Holders(m[k := v], r)| + (if Holds(Slot(m, k), r) then 1 else 0)
         == |Holders(m, r)| + (if Holds(v, r) then 1 else 0)
  {
    var before, after := Holders(m, r), Holders(m[k := v], r);
    assert k in before <==> Holds(Slot(m, k), r);
    assert k in after <==> Holds(v, r);
    CardWithout(before, k);
    CardWithout(after, k);
    assert before - {k} == after - {k} by {
      forall x ensures x in before - {k} <==> x in after - {k} {}
    }
  }

  /** The same for the index entry: one reference gained by `v`, one released by `was`. */
  lemma ReindexEntry(index: map<Fe, nat>, was: Bytes, v: Bytes, r: Fe, n: nat)
    requires EntryIs(index, r, n)
    requires Holds(was, r) ==> n > 0
    ensures EntryIs(Reindex(index, was, v), r, n + (if Holds(v, r) then 1 else 0) - (if Holds(was, r) then 1 else 0))
  {
  }

  lemma PutRootKeepsCounts(index: map<Fe, nat>, roots: map<nat, Bytes>, history: Keyed,
                           t: nat, v: Bytes)
    requires Counts(index, roots, history)
    ensures Counts(Reindex(index, Slot(roots, t), v), Put(roots, t, v), history)
  {
    var was, roots' := Slot(roots, t), roots[t := v];
    if was != v {
      forall r: Fe ensures CountedAt(Reindex(index, was, v), roots', history, r) {
        assert CountedAt(index, roots, history, r);
        HoldersUpdate<nat>(roots, t, v, r);
        if Holds(was, r) { assert t in Holders<nat>(roots, r); }
        ReindexEntry(index, was, v, r, SlotCount(roots, history, r));
      }
    }
  }

  lemma PutHistoryKeepsCounts(index: map<Fe, nat>, roots: map<nat, Bytes>, history: Keyed,
                              slot: (nat, nat), v: Bytes)
    requires Counts(index, roots, history)
    ensures Counts(Reindex(index, Slot(history, slot), v), roots, Put(history, slot, v))
  {
    var was, history' := Slot(history, slot), history[slot := v];
    if was != v {
      forall r: Fe ensures CountedAt(Reindex(index, was, v), roots, history', r) {
        assert CountedAt(index, roots, history, r);
        HoldersUpdate<(nat, nat)>(history, slot, v, r);
        if Holds(was, r) { assert slot in Holders<(nat, nat)>(history, r); }
        ReindexEntry(index, was, v, r, SlotCount(roots, history, r));
      }
    }
  }

  lemma CreateTreeKeepsIndex(h: Hash2, d: nat, f: Forest)
    requires IndexOk(f)
    ensures IndexOk(CreateTree(h, d, f))
  {
    PutRootKeepsCounts(f.rootIndex, f.treeRoot, f.history, f.treeCount, ZeroRootBytes(h, d));
  }

  /** The counting invariant survives every insert, from any forest in which it holds:
      it does not depend on the trees being well formed. */
  lemma WriteLeafKeepsIndex(f: Forest, t: nat, c: Bytes, frontier: Keyed, root: Bytes)
    requires IndexOk(f)
    ensures IndexOk(WriteLeaf(f, t, c, frontier, root))
  {
    PutRootKeepsCounts(f.rootIndex, f.treeRoot, f.history, t, root);
    PutHistoryKeepsCounts(Reindex(f.rootIndex, Slot(f.treeRoot, t), root), Put(f.treeRoot, t, root), f.history,
                          (t, NextIndex(f, t) % MAX_ROOT_HISTORY), root);
  }

  lemma AppendKeepsIndex(h: Hash2, d: nat, f: Forest, c: Bytes)
    requires IndexOk(f)
    ensures IndexOk(Append(h, d, f, c).forest)
  {
    var t := f.activeTree;
    var frontier := WalkWrites(h, f.frontier, t, NextIndex(f, t), SetBytes(c), d);
    WriteLeafKeepsIndex(f, t, c, frontier, WalkRoot(h, d, f, t, c));
  }

  lemma PreparedKeepsIndex(h: Hash2, d: nat, f: Forest)
    requires IndexOk(f)
    ensures IndexOk(Prepared(h, d, f))
  {
    CreateTreeKeepsIndex(h, d, f);
    CreateTreeKeepsIndex(h, d, EnsureTree(h, d, f));
  }

  lemma InsertNoteKeepsIndex(h: Hash2, d: nat, f: Forest, c: Bytes, r: Inserted)
    requires IndexOk(f) && InsertNote(h, d, f, c) == Ok(r)
    ensures IndexOk(r.forest)
  {
    PreparedKeepsIndex(h, d, f);
    assert r == Append(h, d, Prepared(h, d, f), c);
    AppendKeepsIndex(h, d, Prepared(h, d, f), c);
  }
}
