/** The keeper: the module's store and the operations that update it in place.

    Each field is one typed region of the key-value store (module `StoreKeys` relates the
    regions to the flat byte store).  A region whose getter returns a default for a missing
    key is read through that getter. */
module Keepers {
  import opened Field
  import opened Merkle
  import opened Types
  import opened Forest
  import opened ForestProofs
  import opened ForestInvariant
  import opened Rebuild
  import F = Forest
  import R = Registration

  /** A forest whose regions are those written by a leaf insert is the result of the insert. */
  lemma IsWriteLeaf(f: Forest, g: Forest, t: nat, c: Bytes, root: Bytes, slot: nat)
    requires slot == NextIndex(f, t) % MAX_ROOT_HISTORY
    requires g.treeCount == f.treeCount && g.activeTree == f.activeTree && g.used == f.used
    requires g.nextIndex == f.nextIndex[t := NextIndex(f, t) + 1]
    requires g.leaves == f.leaves[(t, NextIndex(f, t)) := c]
    requires g.treeRoot == Put(f.treeRoot, t, root) && g.history == Put(f.history, (t, slot), root)
    requires g.rootIndex == Reindex(Reindex(f.rootIndex, Slot(f.treeRoot, t), root), Slot(f.history, (t, slot)), root)
    ensures g == WriteLeaf(f, t, c, g.frontier, root)
  {
    hide Put, Reindex;
  }

  /** Where an insert put its leaf, and the root it produced. */
  datatype Placed = Placed(root: Bytes, leafIndex: nat, treeId: nat)

  class Keeper {
    const h: Hash2

    var params: Params
    var treeCount: nat
    var activeTree: nat
    var nextIndex: map<nat, nat>
    var leaves: Keyed
    var frontier: Keyed
    var treeRoot: map<nat, Bytes>
    var history: Keyed
    var rootIndex: map<Fe, nat>
    var used: set<Fe>

    var regNext: nat
    var regLeaves: map<nat, Bytes>
    var regFrontier: map<nat, Bytes>
    var regRoot: Option<Bytes>
    var regUsed: set<Fe>

    var nullifiers: set<Fe>
    var vks: map<Bytes, Bytes>
    var auditorData: map<Bytes, Bytes>

    /** A keeper over an empty store. */
    constructor (h: Hash2, params: Params)
      ensures this.h == h && this.params == params
      ensures Notes() == EMPTY && Identities() == R.NOBODY
      ensures nullifiers == {} && vks == map[] && auditorData == map[]
    {
      this.h := h;
      this.params := params;
      treeCount, activeTree, nextIndex := 0, 0, map[];
      leaves, frontier, treeRoot, history := map[], map[], map[], map[];
      rootIndex, used := map[], {};
      regNext, regLeaves, regFrontier, regRoot, regUsed := 0, map[], map[], None, {};
      nullifiers, vks, auditorData := {}, map[], map[];
    }

    function Notes(): Forest
      reads this`treeCount, this`activeTree, this`nextIndex, this`leaves, this`frontier, this`treeRoot,
            this`history, this`rootIndex, this`used
    {
      Forest(treeCount, activeTree, nextIndex, leaves, frontier, treeRoot, history, rootIndex, used)
    }

    function Identities(): R.Reg
      reads this`regNext, this`regLeaves, this`regFrontier, this`regRoot, this`regUsed
    {
      R.Reg(regNext, regLeaves, regFrontier, regRoot, regUsed)
    }

    /** Puts saved note trees back. */
    method RestoreNotes(f: Forest)
      modifies this`treeCount, this`activeTree, this`nextIndex, this`leaves, this`frontier, this`treeRoot,
               this`history, this`rootIndex, this`used
      ensures Notes() == f
    {
      treeCount, activeTree, nextIndex := f.treeCount, f.activeTree, f.nextIndex;
      leaves, frontier := f.leaves, f.frontier;
      treeRoot, history, rootIndex, used := f.treeRoot, f.history, f.rootIndex, f.used;
    }

    method RestoreIdentities(g: R.Reg)
      modifies this`regNext, this`regLeaves, this`regFrontier, this`regRoot, this`regUsed
      ensures Identities() == g && Notes() == old(Notes())
    {
      hide Notes;
      regNext, regLeaves, regFrontier, regRoot, regUsed := g.next, g.leaves, g.frontier, g.root, g.used;
    }

    /** Puts the regions outside the trees back. */
    method RestoreRest(params: Params, nullifiers: set<Fe>, vks: map<Bytes, Bytes>, auditorData: map<Bytes, Bytes>)
      modifies this`params, this`nullifiers, this`vks, this`auditorData
      ensures this.params == params && this.nullifiers == nullifiers
      ensures this.vks == vks && this.auditorData == auditorData
      ensures Notes() == old(Notes()) && Identities() == old(Identities())
    {
      hide Notes, Identities;
      this.params, this.nullifiers, this.vks, this.auditorData := params, nullifiers, vks, auditorData;
    }

    method SetParams(params: Params)
      modifies this`params
      ensures this.params == params
      ensures Notes() == old(Notes()) && Identities() == old(Identities())
    {
      hide Notes, Identities;
      this.params := params;
    }

    method SetVerificationKey(circuit: Bytes, key: Bytes)
      modifies this`vks
      ensures vks == old(vks)[circuit := key]
      ensures Notes() == old(Notes()) && Identities() == old(Identities())
    {
      hide Notes, Identities;
      vks := vks[circuit := key];
    }

    // ----- root reverse index -----

    method RootIndexIncr(root: Bytes)
      modifies this`rootIndex
      ensures rootIndex == RefIncr(old(rootIndex), root)
    {
      if |root| == 0 { return; }
      var n := RefCount(rootIndex, root);
      rootIndex := rootIndex[SetBytes(root) := n + 1];
    }

    method RootIndexDecr(root: Bytes)
      modifies this`rootIndex
      ensures rootIndex == RefDecr(old(rootIndex), root)
    {
      if |root| == 0 { return; }
      var n := RefCount(rootIndex, root);
      if n <= 1 {
        rootIndex := rootIndex - {SetBytes(root)};
        return;
      }
      rootIndex := rootIndex[SetBytes(root) := n - 1];
    }

    /** Writes a tree's current root and moves one reference from the value it displaces. */
    method SetTreeRootIndexed(t: nat, newRoot: Bytes)
      modifies this`treeRoot, this`rootIndex
      ensures treeRoot == Put(old(treeRoot), t, newRoot)
      ensures rootIndex == Reindex(old(rootIndex), Slot(old(treeRoot), t), newRoot)
    {
      var was := Slot(treeRoot, t);
      if was == newRoot { return; }
      treeRoot := treeRoot[t := newRoot];
      RootIndexIncr(newRoot);
      RootIndexDecr(was);
    }

    /** Writes a ring slot, releasing the root it overwrites. */
    method SetRootHistoryIndexed(t: nat, slot: nat, newRoot: Bytes)
      modifies this`history, this`rootIndex
      ensures history == Put(old(history), (t, slot), newRoot)
      ensures rootIndex == Reindex(old(rootIndex), Slot(old(history), (t, slot)), newRoot)
    {
      var was := Slot(history, (t, slot));
      if was == newRoot { return; }
      history := history[(t, slot) := newRoot];
      RootIndexIncr(newRoot);
      RootIndexDecr(was);
    }

    method ClearRootIndex()
      modifies this`rootIndex
      ensures rootIndex == map[]
    {
      var stale := rootIndex.Keys;
      while stale != {}
        invariant rootIndex.Keys == stale
        decreases stale
      {
        var key :| key in stale;
        rootIndex := rootIndex - {key};
        stale := stale - {key};
      }
    }

    /** Tallies every root slot of every tree. */
    method CountSlots() returns (counts: map<Fe, nat>)
      ensures Counts(counts, RootsBelow(treeRoot, treeCount), HistoryBelow(history, treeCount, 0))
    {
      counts := map[];
      NothingCounted(treeRoot, history);
      for t := 0 to treeCount
        invariant Counts(counts, RootsBelow(treeRoot, t), HistoryBelow(history, t, 0))
      {
        RecordRoot(counts, RootsBelow(treeRoot, t), HistoryBelow(history, t, 0), treeRoot, t);
        counts := RefIncr(counts, Slot(treeRoot, t));
        for slot := 0 to MAX_ROOT_HISTORY
          invariant Counts(counts, RootsBelow(treeRoot, t + 1), HistoryBelow(history, t, slot))
        {
          RecordHistory(counts, RootsBelow(treeRoot, t + 1), history, t, slot);
          counts := RefIncr(counts, Slot(history, (t, slot)));
        }
        NextTree(history, t);
      }
    }

    method WriteRootIndex(counts: map<Fe, nat>)
      requires rootIndex == map[]
      modifies this`rootIndex
      ensures rootIndex == counts
    {
      var left := counts.Keys;
      while left != {}
        invariant left <= counts.Keys
        invariant rootIndex.Keys == counts.Keys - left
        invariant forall r :: r in rootIndex ==> rootIndex[r] == counts[r]
        decreases left
      {
        var r :| r in left;
        rootIndex := rootIndex[r := counts[r]];
        left := left - {r};
      }
    }

    /** Discards the index and recounts the slots of existing trees. */
    method RebuildRootIndex()
      modifies this`rootIndex
      ensures Rebuilt(old(Notes()), Notes())
    {
      ClearRootIndex();
      var counts := CountSlots();
      WriteRootIndex(counts);
    }

    // ----- note trees -----

    method ZeroOutFrontier(t: nat, depth: nat)
      modifies this`frontier
      ensures frontier == ZeroFrontier(h, old(frontier), t, depth)
    {
      for level := 0 to depth
        invariant frontier == ZeroFrontier(h, old(frontier), t, level)
      {
        frontier := frontier[(t, level) := ZeroRootBytes(h, level)];
      }
    }

    method CreateTree() returns (treeId: nat)
      modifies this`frontier, this`treeRoot, this`rootIndex, this`nextIndex, this`treeCount, this`activeTree
      ensures Notes() == F.CreateTree(h, params.Depth(), old(Notes())) && treeId == old(treeCount)
      ensures Identities() == old(Identities())
    {
      hide Put, Reindex, ZeroFrontier, ZeroRootBytes, Slot;
      treeId := treeCount;
      var depth := params.Depth();
      ZeroOutFrontier(treeId, depth);
      SetTreeRootIndexed(treeId, ZeroRootBytes(h, depth));
      nextIndex := nextIndex[treeId := 0];
      treeCount := treeCount + 1;
      activeTree := treeId;
    }

    method EnsureTreeExists()
      modifies this`frontier, this`treeRoot, this`rootIndex, this`nextIndex, this`treeCount, this`activeTree
      ensures Notes() == EnsureTree(h, params.Depth(), old(Notes())) && Identities() == old(Identities())
    {
      if treeCount == 0 {
        var _ := CreateTree();
      }
    }

    /** Walks from leaf `index` of tree `t` to the root: at a left child the cursor becomes the
        frontier entry and meets a zero subtree, at a right child it meets the entry. */
    method WalkUp(t: nat, index: nat, x: Fe, depth: nat) returns (current: Fe)
      modifies this`frontier
      ensures current == Cursor(h, FrontierAt(old(frontier), t), index, x, depth)
      ensures frontier == WalkWrites(h, old(frontier), t, index, x, depth)
    {
      current := x;
      var idx := index;
      ghost var before := frontier;
      for level := 0 to depth
        invariant idx == Shr(index, level)
        invariant current == Cursor(h, FrontierAt(before, t), index, x, level)
        invariant frontier == WalkWrites(h, before, t, index, x, level)
      {
        if idx % 2 == 0 {
          frontier := frontier[(t, level) := FeBytes(current)];
          current := h(current, ZeroHash(h, level));
        } else {
          WalkWritesAt(h, before, t, index, x, level, t, level);
          var left := SetBytes(Slot(frontier, (t, level)));
          current := h(left, current);
        }
        idx := idx / 2;
      }
    }

    /** Writes leaf `index` of tree `t` and everything that follows from it. */
    method PlaceLeaf(t: nat, index: nat, commitment: Bytes, depth: nat) returns (newRoot: Bytes)
      requires index == NextIndex(Notes(), t)
      modifies this`leaves, this`frontier, this`treeRoot, this`history, this`rootIndex, this`nextIndex
      ensures newRoot == WalkRoot(h, depth, old(Notes()), t, commitment)
      ensures Notes() == InsertLeaf(h, depth, old(Notes()), t, commitment)
    {
      hide Put, Reindex, WalkWrites, Cursor, FeBytes, SetBytes, Slot;
      ghost var f := Notes();
      leaves := leaves[(t, index) := commitment];
      var current := WalkUp(t, index, SetBytes(commitment), depth);
      newRoot := FeBytes(current);
      SetTreeRootIndexed(t, newRoot);
      SetRootHistoryIndexed(t, index % MAX_ROOT_HISTORY, newRoot);
      nextIndex := nextIndex[t := index + 1];
      IsWriteLeaf(f, Notes(), t, commitment, newRoot, index % MAX_ROOT_HISTORY);
    }

    /** Inserts a leaf into tree `t` using the frontier. */
    method InsertLeafIntoTree(t: nat, commitment: Bytes, depth: nat) returns (r: Result<Placed, Error>)
      modifies this`leaves, this`frontier, this`treeRoot, this`history, this`rootIndex, this`nextIndex
      ensures NextIndex(old(Notes()), t) >= Pow2(depth) ==> r == Err(TreeFull) && Notes() == old(Notes())
      ensures NextIndex(old(Notes()), t) < Pow2(depth) ==>
                && r == Ok(Placed(WalkRoot(h, depth, old(Notes()), t, commitment), NextIndex(old(Notes()), t), t))
                && Notes() == InsertLeaf(h, depth, old(Notes()), t, commitment)
    {
      var index := NextIndex(Notes(), t);
      if index >= Pow2(depth) { return Err(TreeFull); }
      var newRoot := PlaceLeaf(t, index, commitment, depth);
      r := Ok(Placed(newRoot, index, t));
    }

    /** Inserts into the active tree and marks the commitment as used. */
    method InsertAndMark(t: nat, commitment: Bytes, depth: nat) returns (r: Result<Placed, Error>)
      requires t == activeTree
      modifies this`leaves, this`frontier, this`treeRoot, this`history, this`rootIndex, this`nextIndex, this`used
      ensures NextIndex(old(Notes()), t) >= Pow2(depth) ==> r == Err(TreeFull)
      ensures NextIndex(old(Notes()), t) < Pow2(depth) ==>
                && r == Ok(Placed(WalkRoot(h, depth, old(Notes()), t, commitment), NextIndex(old(Notes()), t), t))
                && Notes() == Append(h, depth, old(Notes()), commitment).forest
      ensures Identities() == old(Identities())
    {
      hide Identities, InsertLeaf, WalkRoot, Pow2, SetBytes;
      r := InsertLeafIntoTree(t, commitment, depth);
      if r.Err? { return; }
      used := used + {SetBytes(commitment)};
    }

    /** Appends a note to the forest, opening a new tree when the active one is full. */
    method InsertNote(commitment: Bytes) returns (r: Result<Placed, Error>)
      modifies this`leaves, this`frontier, this`treeRoot, this`history, this`rootIndex, this`nextIndex,
               this`treeCount, this`activeTree, this`used
      ensures var i := F.InsertNote(h, params.Depth(), old(Notes()), commitment);
              if i.Ok?
              then r == Ok(Placed(i.value.root, i.value.leafIndex, i.value.treeId)) && Notes() == i.value.forest
              else r == Err(i.error)
      ensures Identities() == old(Identities())
    {
      hide Identities, Put, Reindex, WalkRoot, ZeroFrontier, InsertLeaf, Pow2, SetBytes;
      var depth := params.Depth();
      ghost var f := Notes();
      EnsureTreeExists();
      if SetBytes(commitment) in used { return Err(DuplicateCommitment); }
      var treeId := activeTree;
      var nextIdx := NextIndex(Notes(), treeId);
      if nextIdx >= Pow2(depth) {
        treeId := CreateTree();
      }
      assert Notes() == Prepared(h, depth, f) && treeId == activeTree;
      r := InsertAndMark(treeId, commitment, depth);
    }

    // ----- registration tree -----

    method RegWalkUp(index: nat, x: Fe, depth: nat) returns (current: Fe)
      modifies this`regFrontier
      ensures current == Cursor(h, R.RegFrontierAt(old(regFrontier)), index, x, depth)
      ensures regFrontier == R.RegWalkWrites(h, old(regFrontier), index, x, depth)
    {
      current := x;
      var idx := index;
      ghost var before := regFrontier;
      for level := 0 to depth
        invariant idx == Shr(index, level)
        invariant current == Cursor(h, R.RegFrontierAt(before), index, x, level)
        invariant regFrontier == R.RegWalkWrites(h, before, index, x, level)
      {
        if idx % 2 == 0 {
          regFrontier := regFrontier[level := FeBytes(current)];
          current := h(current, ZeroHash(h, level));
        } else {
          R.RegWalkWritesAt(h, before, index, x, level, level);
          var left := SetBytes(Slot(regFrontier, level));
          current := h(left, current);
        }
        idx := idx / 2;
      }
    }

    /** Writes the next identity and everything that follows from it. */
    method PlaceIdentity(commitment: Bytes, depth: nat) returns (newRoot: Bytes)
      modifies this`regLeaves, this`regFrontier, this`regRoot, this`regNext
      ensures newRoot == R.RegWalkRoot(h, depth, old(Identities()), commitment)
      ensures Identities() == R.RegAppend(h, depth, old(Identities()), commitment).(used := regUsed)
    {
      hide R.RegWalkWrites, Cursor, SetBytes, FeBytes;
      var index := regNext;
      regLeaves := regLeaves[index := commitment];
      var current := RegWalkUp(index, SetBytes(commitment), depth);
      newRoot := FeBytes(current);
      regRoot := Some(newRoot);
      regNext := index + 1;
    }

    method InsertLeafSingleTree(commitment: Bytes, depth: nat) returns (r: Result<Placed, Error>)
      modifies this`regLeaves, this`regFrontier, this`regRoot, this`regNext
      ensures old(regNext) >= Pow2(depth) ==> r == Err(TreeFull) && Identities() == old(Identities())
      ensures old(regNext) < Pow2(depth) ==>
                && r == Ok(Placed(R.RegWalkRoot(h, depth, old(Identities()), commitment), old(regNext), 0))
                && Identities() == R.RegAppend(h, depth, old(Identities()), commitment).(used := regUsed)
      ensures Notes() == old(Notes())
    {
      hide Notes, Identities, R.RegAppend, R.RegWalkRoot, Pow2;
      var index := regNext;
      if index >= Pow2(depth) { return Err(TreeFull); }
      var newRoot := PlaceIdentity(commitment, depth);
      r := Ok(Placed(newRoot, index, 0));
    }

    method InsertRegCommitment(commitment: Bytes) returns (r: Result<Placed, Error>)
      modifies this`regLeaves, this`regFrontier, this`regRoot, this`regNext, this`regUsed
      ensures var g := R.InsertReg(h, DEFAULT_REG_TREE_DEPTH, old(Identities()), commitment);
              if g.Ok? then r == Ok(Placed(R.RegRoot(h, g.value), old(regNext), 0)) && Identities() == g.value
              else r == Err(g.error) && Identities() == old(Identities())
      ensures Notes() == old(Notes())
    {
      hide Notes, R.RegWalkWrites, R.RegWalkRoot, Pow2, SetBytes;
      if SetBytes(commitment) in regUsed { return Err(DuplicateCommitment); }
      r := InsertLeafSingleTree(commitment, DEFAULT_REG_TREE_DEPTH);
      if r.Err? { return; }
      UseIdentity(commitment);
    }

    method UseIdentity(commitment: Bytes)
      modifies this`regUsed
      ensures Identities() == old(Identities()).(used := old(regUsed) + {SetBytes(commitment)})
      ensures Notes() == old(Notes())
    {
      hide Notes;
      regUsed := regUsed + {SetBytes(commitment)};
    }

    // ----- nullifiers, root checks -----

    /** Whether the key of a nullifier is present. */
    predicate IsNullifierSpent(nullifier: Bytes)
      reads this`nullifiers
    {
      SetBytes(nullifier) in nullifiers
    }

    /** From now on every encoding of this nullifier counts as spent, and nothing else changes. */
    method MarkNullifierSpent(nullifier: Bytes)
      modifies this`nullifiers
      ensures nullifiers == old(nullifiers) + {SetBytes(nullifier)}
      ensures forall b: Bytes :: IsNullifierSpent(b) <==>
                old(IsNullifierSpent(b)) || CanonicalFieldBytes(b) == CanonicalFieldBytes(nullifier)
      ensures Notes() == old(Notes()) && Identities() == old(Identities())
    {
      hide Notes, Identities, CanonicalFieldBytes;
      nullifiers := nullifiers + {SetBytes(nullifier)};
      forall b: Bytes
        ensures CanonicalFieldBytes(b) == CanonicalFieldBytes(nullifier) <==> SetBytes(b) == SetBytes(nullifier)
      {
        CanonicalIffSameElement(b, nullifier);
      }
    }

    method StoreAuditorData(txHash: Bytes, data: Bytes)
      modifies this`auditorData
      ensures auditorData == Types.StoreAuditorData(old(auditorData), txHash, data)
      ensures Notes() == old(Notes()) && Identities() == old(Identities())
    {
      hide Notes, Identities;
      if |data| > 0 { auditorData := auditorData[txHash := data]; }
    }

    /** The scan of one tree's slots, slot by slot. */
    method IsKnownRoot(t: nat, root: Bytes) returns (known: bool)
      ensures known <==> F.IsKnownRoot(h, Notes(), t, root)
    {
      if Slot(treeRoot, t) == root { return true; }
      for i := 0 to MAX_ROOT_HISTORY
        invariant forall j: nat :: j < i ==> Slot(history, (t, j)) != root
      {
        if Slot(history, (t, i)) == root { return true; }
      }
      known := root == ZeroRootBytes(h, DEFAULT_TREE_DEPTH);
    }
  }
}
