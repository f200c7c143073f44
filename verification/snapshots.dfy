/** Export and import as the keeper performs them: loops over trees, slots and key ranges. */
module Snapshots {
  import opened Field
  import opened Types
  import opened Forest
  import opened Keepers
  import opened Genesis
  import R = Registration

  // ===== export =====

  method ExportSlots(k: Keeper, t: nat, depth: nat) returns (tree: TreeState)
    ensures tree == ExportTree(k.h, depth, k.Notes(), t)
  {
    var n := NextIndex(k.Notes(), t);
    var commitments, frontier, ring: seq<Bytes> := [], [], [];
    for i := 0 to n
      invariant commitments == SlotSeq(k.leaves, t, i)
    {
      commitments := commitments + [Slot(k.leaves, (t, i))];
    }
    for level := 0 to depth
      invariant frontier == SlotSeq(k.frontier, t, level)
    {
      frontier := frontier + [Slot(k.frontier, (t, level))];
    }
    for i := 0 to MAX_ROOT_HISTORY
      invariant ring == Ring(k.history, t, i)
    {
      if (t, i) in k.history { ring := ring + [k.history[(t, i)]]; }
    }
    tree := TreeState(t, commitments, frontier, n, TreeRoot(k.h, k.Notes(), t), ring);
  }

  method ExportTrees(k: Keeper) returns (trees: seq<TreeState>)
    ensures TreesExported(k.h, k.params.Depth(), k.Notes(), trees)
  {
    hide ExportTree;
    trees := [];
    for t := 0 to k.treeCount
      invariant |trees| == t
      invariant forall i: nat :: i < t ==> trees[i] == ExportTree(k.h, k.params.Depth(), k.Notes(), i)
    {
      var tree := ExportSlots(k, t, k.params.Depth());
      trees := trees + [tree];
    }
  }

  method ExportRegSlots(m: map<nat, Bytes>, n: nat) returns (bs: seq<Bytes>)
    ensures bs == RegSlotSeq(m, n)
  {
    bs := [];
    for i := 0 to n
      invariant bs == RegSlotSeq(m, i)
    {
      bs := bs + [Slot(m, i)];
    }
  }

  /** Reads every key of a field-element region, in the store's iteration order. */
  method ListElements(xs: set<Fe>) returns (bs: seq<Bytes>)
    ensures Lists(bs, xs)
  {
    bs := [];
    var left := xs;
    while left != {}
      invariant left <= xs && Lists(bs, xs - left)
      decreases left
    {
      var x :| x in left;
      SetBytesFeBytes(x);
      ListsGrows(bs, xs - left, x);
      assert xs - (left - {x}) == (xs - left) + {x};
      bs := bs + [FeBytes(x)];
      left := left - {x};
    }
    assert xs - left == xs;
  }

  lemma ListsGrows(bs: seq<Bytes>, xs: set<Fe>, x: Fe)
    requires Lists(bs, xs) && x !in xs
    ensures Lists(bs + [FeBytes(x)], xs + {x})
  {
    SetBytesFeBytes(x);
  }

  lemma TakeBack(m: map<Bytes, Bytes>, left: set<Bytes>, c: Bytes)
    requires left <= m.Keys && c in left
    ensures m - (left - {c}) == (m - left)[c := m[c]] && c !in m - left
  {
  }

  lemma AuditorDataGrow(es: seq<AuditorDataEntry>, m: map<Bytes, Bytes>, c: Bytes, v: Bytes)
    requires ListsAuditor(es, m) && c !in m
    ensures ListsAuditor(es + [AuditorDataEntry(c, v)], m[c := v])
  {
    assert |m[c := v]| == |m| + 1;
  }

  lemma VerificationKeysGrow(es: seq<VerificationKeyEntry>, m: map<Bytes, Bytes>, c: Bytes, v: Bytes)
    requires ListsKeys(es, m) && c !in m
    ensures ListsKeys(es + [VerificationKeyEntry(c, v)], m[c := v])
  {
    assert |m[c := v]| == |m| + 1;
  }

  method ListAuditorData(m: map<Bytes, Bytes>) returns (es: seq<AuditorDataEntry>)
    ensures ListsAuditor(es, m)
  {
    assert ListsAuditor([], m - m.Keys);
    hide ListsAuditor;
    es := [];
    var left := m.Keys;
    while left != {}
      invariant left <= m.Keys && ListsAuditor(es, m - left)
      decreases left
    {
      var c :| c in left;
      TakeBack(m, left, c);
      AuditorDataGrow(es, m - left, c, m[c]);
      es := es + [AuditorDataEntry(c, m[c])];
      left := left - {c};
    }
    assert m - left == m;
  }

  method ListVerificationKeys(m: map<Bytes, Bytes>) returns (es: seq<VerificationKeyEntry>)
    ensures ListsKeys(es, m)
  {
    assert ListsKeys([], m - m.Keys);
    hide ListsKeys;
    es := [];
    var left := m.Keys;
    while left != {}
      invariant left <= m.Keys && ListsKeys(es, m - left)
      decreases left
    {
      var c :| c in left;
      TakeBack(m, left, c);
      VerificationKeysGrow(es, m - left, c, m[c]);
      es := es + [VerificationKeyEntry(c, m[c])];
      left := left - {c};
    }
    assert m - left == m;
  }

  method ExportGenesis(k: Keeper) returns (gs: GenesisState)
    ensures gs.params == Some(k.params)
    ensures ExportedNotes(k.h, k.params.Depth(), k.Notes(), gs) && ExportedIds(k.h, k.Identities(), gs)
    ensures Lists(gs.nullifiers, k.nullifiers)
    ensures ListsAuditor(gs.auditorData, k.auditorData) && ListsKeys(gs.verificationKeys, k.vks)
  {
    hide TreesExported, Lists, ListsAuditor, ListsKeys, RegSlotSeq, R.RegRoot;
    var trees := ExportTrees(k);
    var regCommitments := ExportRegSlots(k.regLeaves, k.regNext);
    var regFrontier := ExportRegSlots(k.regFrontier, DEFAULT_REG_TREE_DEPTH);
    var nullifiers := ListElements(k.nullifiers);
    var used := ListElements(k.used);
    var auditorData := ListAuditorData(k.auditorData);
    var keys := ListVerificationKeys(k.vks);
    gs := GenesisState(Some(k.params), trees, k.activeTree, k.treeCount, regCommitments, regFrontier, k.regNext,
                       R.RegRoot(k.h, k.Identities()), nullifiers, used, auditorData, keys);
  }

  // ===== import =====

  method PutCommitments(k: Keeper, t: nat, cs: seq<Bytes>)
    modifies k`leaves
    ensures k.leaves == PutAll(old(k.leaves), t, cs, |cs|)
  {
    for i := 0 to |cs|
      invariant k.leaves == PutAll(old(k.leaves), t, cs, i)
    {
      k.leaves := k.leaves[(t, i) := cs[i]];
    }
  }

  method PutFrontier(k: Keeper, t: nat, fs: seq<Bytes>)
    modifies k`frontier
    ensures k.frontier == PutAll(old(k.frontier), t, fs, |fs|)
  {
    for i := 0 to |fs|
      invariant k.frontier == PutAll(old(k.frontier), t, fs, i)
    {
      k.frontier := k.frontier[(t, i) := fs[i]];
    }
  }

  /** Root and ring go through the indexed setters, which is what rebuilds the index. */
  method PutRoots(k: Keeper, t: nat, root: Bytes, ring: seq<Bytes>)
    modifies k`treeRoot, k`history, k`rootIndex
    ensures var (roots, index) := ImportRoot(old(k.Notes()), t, root);
            && k.treeRoot == roots
            && k.history == RingHistory(old(k.history), t, ring, |ring|)
            && k.rootIndex == RingIndex(index, old(k.history), t, ring, |ring|)
  {
    hide Put, Reindex;
    if |root| > 0 { k.SetTreeRootIndexed(t, root); }
    ghost var index := k.rootIndex;
    for i := 0 to |ring|
      invariant k.treeRoot == ImportRoot(old(k.Notes()), t, root).0
      invariant k.history == RingHistory(old(k.history), t, ring, i)
      invariant k.rootIndex == RingIndex(index, old(k.history), t, ring, i)
    {
      k.SetRootHistoryIndexed(t, i, ring[i]);
    }
  }

  method PutTree(k: Keeper, tree: TreeState)
    modifies k`leaves, k`frontier, k`nextIndex, k`treeRoot, k`history, k`rootIndex
    ensures k.Notes() == ImportTree(old(k.Notes()), tree)
  {
    hide PutAll, RingHistory, RingIndex, Put, Reindex;
    PutCommitments(k, tree.treeId, tree.commitments);
    PutFrontier(k, tree.treeId, tree.frontier);
    if tree.nextIndex > 0 { k.nextIndex := k.nextIndex[tree.treeId := tree.nextIndex]; }
    PutRoots(k, tree.treeId, tree.merkleRoot, tree.rootHistory);
  }

  method PutUsed(k: Keeper, cs: seq<Bytes>)
    requires k.used == {}
    modifies k`used
    ensures k.used == Values(cs)
  {
    for i := 0 to |cs|
      invariant k.used == Values(cs[..i])
    {
      assert cs[..i + 1] == cs[..i] + [cs[i]];
      k.used := k.used + {SetBytes(cs[i])};
    }
    assert cs[..|cs|] == cs;
  }

  method PutTrees(k: Keeper, trees: seq<TreeState>)
    requires k.Notes() == EMPTY
    modifies k`leaves, k`frontier, k`nextIndex, k`treeRoot, k`history, k`rootIndex
    ensures k.Notes() == ImportTrees(EMPTY, trees, |trees|)
  {
    hide ImportTree, Keeper.Notes;
    for i := 0 to |trees|
      invariant k.Notes() == ImportTrees(EMPTY, trees, i)
    {
      PutTree(k, trees[i]);
    }
  }

  method PutNotes(k: Keeper, gs: GenesisState)
    requires k.Notes() == EMPTY
    modifies k`leaves, k`frontier, k`nextIndex, k`treeRoot, k`history, k`rootIndex, k`treeCount, k`activeTree, k`used
    ensures k.Notes() == ImportNotes(gs) && k.Identities() == old(k.Identities())
  {
    hide Keeper.Identities, ImportTrees, Values;
    PutTrees(k, gs.trees);
    ImportLeavesUsed(gs.trees, |gs.trees|);
    k.activeTree := gs.activeTreeId;
    k.treeCount := gs.treeCount;
    PutUsed(k, gs.commitmentsUsed);
  }

  lemma {:induction false} ImportLeavesUsed(trees: seq<TreeState>, n: nat)
    requires n <= |trees|
    ensures ImportTrees(EMPTY, trees, n).used == {}
  {
    if n > 0 {
      ImportLeavesUsed(trees, n - 1);
      ImportTreeKeepsRest(ImportTrees(EMPTY, trees, n - 1), trees[n - 1]);
    }
  }

  method PutIdentityLeaves(k: Keeper, cs: seq<Bytes>)
    requires k.regLeaves == map[] && k.regUsed == {}
    modifies k`regLeaves, k`regUsed
    ensures k.regLeaves == RegPutAll(map[], cs, |cs|) && k.regUsed == Values(cs)
  {
    for i := 0 to |cs|
      invariant k.regLeaves == RegPutAll(map[], cs, i) && k.regUsed == Values(cs[..i])
    {
      assert cs[..i + 1] == cs[..i] + [cs[i]];
      k.regLeaves := k.regLeaves[i := cs[i]];
      k.regUsed := k.regUsed + {SetBytes(cs[i])};
    }
    assert cs[..|cs|] == cs;
  }

  method PutIdentityFrontier(k: Keeper, fs: seq<Bytes>)
    requires k.regFrontier == map[]
    modifies k`regFrontier
    ensures k.regFrontier == RegPutAll(map[], fs, |fs|)
  {
    for i := 0 to |fs|
      invariant k.regFrontier == RegPutAll(map[], fs, i)
    {
      k.regFrontier := k.regFrontier[i := fs[i]];
    }
  }

  method PutIdentities(k: Keeper, gs: GenesisState)
    requires k.Identities() == R.NOBODY
    modifies k`regNext, k`regLeaves, k`regFrontier, k`regRoot, k`regUsed
    ensures k.Identities() == ImportIds(gs) && k.Notes() == old(k.Notes())
  {
    hide Keeper.Notes, RegPutAll, Values;
    PutIdentityLeaves(k, gs.regCommitments);
    PutIdentityFrontier(k, gs.regFrontier);
    if gs.regNextIndex > 0 { k.regNext := gs.regNextIndex; }
    if |gs.regMerkleRoot| > 0 { k.regRoot := Some(gs.regMerkleRoot); }
  }

  method PutNullifiers(k: Keeper, ns: seq<Bytes>)
    requires k.nullifiers == {}
    modifies k`nullifiers
    ensures k.nullifiers == Values(ns)
    ensures k.Notes() == old(k.Notes()) && k.Identities() == old(k.Identities())
  {
    for i := 0 to |ns|
      invariant k.nullifiers == Values(ns[..i])
    {
      assert ns[..i + 1] == ns[..i] + [ns[i]];
      k.nullifiers := k.nullifiers + {SetBytes(ns[i])};
    }
    assert ns[..|ns|] == ns;
  }

  method PutTables(k: Keeper, env: Env, gs: GenesisState) returns (ok: bool)
    requires k.vks == map[] && k.auditorData == map[]
    modifies k`vks, k`auditorData
    ensures k.auditorData == ImportAuditor(gs.auditorData, |gs.auditorData|)
    ensures var keys := ImportKeys(env, gs.verificationKeys, |gs.verificationKeys|);
            if ok then keys == Some(k.vks) else keys == None
    ensures k.Notes() == old(k.Notes()) && k.Identities() == old(k.Identities())
  {
    var es, ks := gs.auditorData, gs.verificationKeys;
    for i := 0 to |es|
      invariant k.auditorData == ImportAuditor(es, i) && k.vks == map[]
    {
      k.auditorData := k.auditorData[es[i].txHash := es[i].data];
    }
    for i := 0 to |ks|
      invariant k.auditorData == ImportAuditor(es, |es|)
      invariant ImportKeys(env, ks, i) == Some(k.vks)
    {
      var key := env.normalizeVK(ks[i].vkData);
      if key.None? {
        NoKeysAfter(env, ks, i, |ks|);
        return false;
      }
      k.vks := k.vks[ks[i].circuitName := key.value];
    }
    ok := true;
  }

  lemma {:induction false} NoKeysAfter(env: Env, ks: seq<VerificationKeyEntry>, i: nat, n: nat)
    requires i < n <= |ks| && env.normalizeVK(ks[i].vkData).None?
    ensures ImportKeys(env, ks, n).None?
    decreases n
  {
    if i < n - 1 { NoKeysAfter(env, ks, i, n - 1); }
  }

  /** Imports a snapshot into an empty store; refuses a snapshot with an unusable key. */
  method InitGenesis(k: Keeper, env: Env, gs: GenesisState) returns (ok: bool)
    requires k.Notes() == EMPTY && k.Identities() == R.NOBODY
    requires k.nullifiers == {} && k.vks == map[] && k.auditorData == map[]
    modifies k
    ensures ok <==> ImportKeys(env, gs.verificationKeys, |gs.verificationKeys|).Some?
    ensures ok ==> Some(k.vks) == ImportKeys(env, gs.verificationKeys, |gs.verificationKeys|)
    ensures k.params == if gs.params.Some? then gs.params.value else DEFAULT_PARAMS
    ensures k.Notes() == ImportNotes(gs) && k.Identities() == ImportIds(gs)
    ensures k.nullifiers == Values(gs.nullifiers)
    ensures k.auditorData == ImportAuditor(gs.auditorData, |gs.auditorData|)
  {
    hide Values, ImportNotes, ImportIds, ImportKeys, ImportAuditor;
    hide Keeper.Notes, Keeper.Identities;
    k.SetParams(if gs.params.Some? then gs.params.value else DEFAULT_PARAMS);
    PutNotes(k, gs);
    PutIdentities(k, gs);
    PutNullifiers(k, gs.nullifiers);
    ok := PutTables(k, env, gs);
  }
}
