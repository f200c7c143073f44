/** Snapshots: what export writes, what import reads back, and why the restored chain behaves
    as the old one did. */
module Genesis {
  import opened Field
  import opened Merkle
  import opened Types
  import opened Forest
  import opened ForestProofs
  import opened ForestInvariant
  import opened Rebuild
  import opened Pool
  import R = Registration

  // ===== export =====

  /** Entries `0 .. n - 1` of tree `t`; a missing entry is written as no bytes. */
  function SlotSeq(m: Keyed, t: nat, n: nat): (bs: seq<Bytes>)
    ensures |bs| == n
  {
    seq(n, (i: nat) => Slot(m, (t, i)))
  }

  function RegSlotSeq(m: map<nat, Bytes>, n: nat): (bs: seq<Bytes>)
    ensures |bs| == n
  {
    seq(n, (i: nat) => Slot(m, i))
  }

  /** The ring slots below `n` that were ever written, moved together. */
  function Ring(history: Keyed, t: nat, n: nat): seq<Bytes> {
    if n == 0 then []
    else if (t, n - 1) in history then Ring(history, t, n - 1) + [history[(t, n - 1)]]
    else Ring(history, t, n - 1)
  }

  function ExportTree(h: Hash2, depth: nat, f: Forest, t: nat): TreeState {
    TreeState(t, SlotSeq(f.leaves, t, NextIndex(f, t)), SlotSeq(f.frontier, t, depth), NextIndex(f, t),
              TreeRoot(h, f, t), Ring(f.history, t, MAX_ROOT_HISTORY))
  }

  /** `bs` lists the canonical encodings of `xs`, each once, in whatever order. */
  ghost predicate Lists(bs: seq<Bytes>, xs: set<Fe>) {
    && |bs| == |xs|
    && (forall b :: b in bs ==> CanonicalFieldBytes(b) == b && SetBytes(b) in xs)
    && (forall x :: x in xs ==> FeBytes(x) in bs)
  }

  ghost predicate ListsAuditor(es: seq<AuditorDataEntry>, m: map<Bytes, Bytes>) {
    && |es| == |m|
    && (forall e :: e in es ==> e.txHash in m && m[e.txHash] == e.data)
    && (forall k :: k in m ==> AuditorDataEntry(k, m[k]) in es)
  }

  ghost predicate ListsKeys(es: seq<VerificationKeyEntry>, m: map<Bytes, Bytes>) {
    && |es| == |m|
    && (forall e :: e in es ==> e.circuitName in m && m[e.circuitName] == e.vkData)
    && (forall k :: k in m ==> VerificationKeyEntry(k, m[k]) in es)
  }

  ghost predicate TreesExported(h: Hash2, depth: nat, f: Forest, trees: seq<TreeState>) {
    && |trees| == f.treeCount
    && (forall t: nat :: t < f.treeCount ==> trees[t] == ExportTree(h, depth, f, t))
  }

  ghost predicate ExportedNotes(h: Hash2, depth: nat, f: Forest, gs: GenesisState) {
    && gs.treeCount == f.treeCount && gs.activeTreeId == f.activeTree
    && TreesExported(h, depth, f, gs.trees)
    && Lists(gs.commitmentsUsed, f.used)
  }

  ghost predicate ExportedIds(h: Hash2, g: R.Reg, gs: GenesisState) {
    && gs.regNextIndex == g.next
    && gs.regCommitments == RegSlotSeq(g.leaves, g.next)
    && gs.regFrontier == RegSlotSeq(g.frontier, DEFAULT_REG_TREE_DEPTH)
    && gs.regMerkleRoot == R.RegRoot(h, g)
  }

  /** `gs` is an export of `s`. */
  ghost predicate ExportOf(env: Env, s: Pool, gs: GenesisState) {
    && gs.params == Some(s.params)
    && ExportedNotes(env.hash2, s.params.Depth(), s.notes, gs)
    && ExportedIds(env.hash2, s.ids, gs)
    && Lists(gs.nullifiers, s.nullifiers)
    && ListsAuditor(gs.auditorData, s.auditorData)
    && ListsKeys(gs.verificationKeys, s.vks)
  }

  // ===== import =====

  function PutAll(m: Keyed, t: nat, bs: seq<Bytes>, n: nat): Keyed
    requires n <= |bs|
  {
    if n == 0 then m else PutAll(m, t, bs, n - 1)[(t, n - 1) := bs[n - 1]]
  }

  function RegPutAll(m: map<nat, Bytes>, bs: seq<Bytes>, n: nat): map<nat, Bytes>
    requires n <= |bs|
  {
    if n == 0 then m else RegPutAll(m, bs, n - 1)[n - 1 := bs[n - 1]]
  }

  function RingHistory(history: Keyed, t: nat, ring: seq<Bytes>, n: nat): Keyed
    requires n <= |ring|
  {
    if n == 0 then history else Put(RingHistory(history, t, ring, n - 1), (t, n - 1), ring[n - 1])
  }

  function RingIndex(index: map<Fe, nat>, history: Keyed, t: nat, ring: seq<Bytes>, n: nat): map<Fe, nat>
    requires n <= |ring|
  {
    if n == 0 then index
    else Reindex(RingIndex(index, history, t, ring, n - 1),
                 Slot(RingHistory(history, t, ring, n - 1), (t, n - 1)), ring[n - 1])
  }

  function ImportRoot(f: Forest, t: nat, root: Bytes): (map<nat, Bytes>, map<Fe, nat>) {
    if |root| == 0 then (f.treeRoot, f.rootIndex)
    else (Put(f.treeRoot, t, root), Reindex(f.rootIndex, Slot(f.treeRoot, t), root))
  }

  function ImportTree(f: Forest, tree: TreeState): Forest {
    var t, n := tree.treeId, tree.nextIndex;
    var (roots, index) := ImportRoot(f, t, tree.merkleRoot);
    Forest(f.treeCount, f.activeTree, if n > 0 then f.nextIndex[t := n] else f.nextIndex,
           PutAll(f.leaves, t, tree.commitments, |tree.commitments|),
           PutAll(f.frontier, t, tree.frontier, |tree.frontier|),
           roots, RingHistory(f.history, t, tree.rootHistory, |tree.rootHistory|),
           RingIndex(index, f.history, t, tree.rootHistory, |tree.rootHistory|), f.used)
  }

  function ImportTrees(f: Forest, trees: seq<TreeState>, n: nat): Forest
    requires n <= |trees|
  {
    if n == 0 then f else ImportTree(ImportTrees(f, trees, n - 1), trees[n - 1])
  }

  function Values(bs: seq<Bytes>): set<Fe> {
    set b | b in bs :: SetBytes(b)
  }

  function ImportNotes(gs: GenesisState): Forest {
    ImportTrees(EMPTY, gs.trees, |gs.trees|).(treeCount := gs.treeCount, activeTree := gs.activeTreeId,
                                              used := Values(gs.commitmentsUsed))
  }

  function ImportIds(gs: GenesisState): R.Reg {
    R.Reg(gs.regNextIndex, RegPutAll(map[], gs.regCommitments, |gs.regCommitments|),
          RegPutAll(map[], gs.regFrontier, |gs.regFrontier|),
          if |gs.regMerkleRoot| > 0 then Some(gs.regMerkleRoot) else None,
          Values(gs.regCommitments))
  }

  function ImportAuditor(es: seq<AuditorDataEntry>, n: nat): map<Bytes, Bytes>
    requires n <= |es|
  {
    if n == 0 then map[] else ImportAuditor(es, n - 1)[es[n - 1].txHash := es[n - 1].data]
  }

  /** Stores each key in normal form; none at all when one of them has none. */
  function ImportKeys(env: Env, es: seq<VerificationKeyEntry>, n: nat): Option<map<Bytes, Bytes>>
    requires n <= |es|
  {
    if n == 0 then Some(map[])
    else
      var before := ImportKeys(env, es, n - 1);
      if before.None? || env.normalizeVK(es[n - 1].vkData).None? then None
      else Some(before.value[es[n - 1].circuitName := env.normalizeVK(es[n - 1].vkData).value])
  }

  /** Importing a snapshot into an empty store, beside an existing bank. */
  function Import(env: Env, gs: GenesisState, bank: Bank): Result<Pool, Error> {
    var keys := ImportKeys(env, gs.verificationKeys, |gs.verificationKeys|);
    if keys.None? then Err(InvalidVK)
    else Ok(Pool(if gs.params.Some? then gs.params.value else DEFAULT_PARAMS,
                 ImportNotes(gs), ImportIds(gs), Values(gs.nullifiers), keys.value,
                 ImportAuditor(gs.auditorData, |gs.auditorData|), bank))
  }

  // ===== any snapshot, exported or written by hand =====

  /** Entry `i` is the last of the first `n` under its circuit name. */
  ghost predicate LastKey(es: seq<VerificationKeyEntry>, n: nat, i: nat) {
    i < n <= |es| && forall j | i < j < n :: es[j].circuitName != es[i].circuitName
  }

  ghost predicate NamedKey(es: seq<VerificationKeyEntry>, n: nat, c: Bytes) {
    n <= |es| && exists i | 0 <= i < n :: es[i].circuitName == c
  }

  /** Import succeeds exactly when every listed key has a normal form. */
  lemma {:induction false} ImportSucceeds(env: Env, es: seq<VerificationKeyEntry>, n: nat)
    requires n <= |es|
    ensures ImportKeys(env, es, n).Some? <==> forall i | 0 <= i < n :: env.normalizeVK(es[i].vkData).Some?
  {
    if n > 0 { ImportSucceeds(env, es, n - 1); }
  }

  /** Then each listed circuit name, and no other, holds the normal form of its last entry. */
  lemma {:induction false} ImportedKeys(env: Env, es: seq<VerificationKeyEntry>, n: nat, m: map<Bytes, Bytes>)
    requires n <= |es| && ImportKeys(env, es, n) == Some(m)
    ensures forall c :: c in m <==> NamedKey(es, n, c)
    ensures forall i: nat :: LastKey(es, n, i) ==>
              es[i].circuitName in m && env.normalizeVK(es[i].vkData) == Some(m[es[i].circuitName])
  {
    if n > 0 {
      var before := ImportKeys(env, es, n - 1).value;
      var last, key := es[n - 1].circuitName, env.normalizeVK(es[n - 1].vkData).value;
      assert m == before[last := key];
      hide ImportKeys;
      ImportedKeys(env, es, n - 1, before);
      forall c ensures c in m <==> NamedKey(es, n, c) { assert c in before <==> NamedKey(es, n - 1, c); }
      forall i: nat | LastKey(es, n, i)
        ensures es[i].circuitName in m && env.normalizeVK(es[i].vkData) == Some(m[es[i].circuitName])
      {
        if i < n - 1 { assert LastKey(es, n - 1, i); }
      }
    }
  }

  ghost predicate LastData(es: seq<AuditorDataEntry>, n: nat, i: nat) {
    i < n <= |es| && forall j | i < j < n :: es[j].txHash != es[i].txHash
  }

  ghost predicate NamedData(es: seq<AuditorDataEntry>, n: nat, x: Bytes) {
    n <= |es| && exists i | 0 <= i < n :: es[i].txHash == x
  }

  /** Each listed transaction hash, and no other, holds the data of its last entry. */
  lemma {:induction false} ImportedAuditorData(es: seq<AuditorDataEntry>, n: nat)
    requires n <= |es|
    ensures var m := ImportAuditor(es, n);
      && (forall x :: x in m <==> NamedData(es, n, x))
      && (forall i: nat :: LastData(es, n, i) ==> es[i].txHash in m && m[es[i].txHash] == es[i].data)
  {
    if n > 0 {
      ImportedAuditorData(es, n - 1);
      var before, m := ImportAuditor(es, n - 1), ImportAuditor(es, n);
      forall x ensures x in m <==> NamedData(es, n, x) { assert x in before <==> NamedData(es, n - 1, x); }
      forall i: nat | LastData(es, n, i) ensures es[i].txHash in m && m[es[i].txHash] == es[i].data {
        if i < n - 1 { assert LastData(es, n - 1, i); }
      }
    }
  }

  /** Whatever trees a snapshot lists, in whatever order and however often, the imported index
      counts the imported slots. */
  lemma {:induction false} ImportedIndex(trees: seq<TreeState>, n: nat)
    requires n <= |trees|
    ensures IndexOk(ImportTrees(EMPTY, trees, n))
  {
    hide ImportTree, Counts;
    if n > 0 {
      ImportedIndex(trees, n - 1);
      ImportTreeKeepsCounts(ImportTrees(EMPTY, trees, n - 1), trees[n - 1]);
    } else {
      EmptyInv((x, y) => 0, 0);
    }
  }

  /** Listed bytes are spent or used afterwards in whatever encoding they are listed; the
      registration used-set is the set of listed identities. */
  lemma ImportedMarks(env: Env, gs: GenesisState, bank: Bank, s: Pool)
    requires Import(env, gs, bank) == Ok(s)
    ensures forall x: Fe :: x in s.nullifiers <==> exists b :: b in gs.nullifiers && SetBytes(b) == x
    ensures forall x: Fe :: x in s.notes.used <==> exists b :: b in gs.commitmentsUsed && SetBytes(b) == x
    ensures forall x: Fe :: x in s.ids.used <==> exists b :: b in gs.regCommitments && SetBytes(b) == x
    ensures s.params == if gs.params.Some? then gs.params.value else DEFAULT_PARAMS
    ensures s.notes.treeCount == gs.treeCount && s.notes.activeTree == gs.activeTreeId
    ensures s.ids.next == gs.regNextIndex && s.bank == bank
    ensures IndexOk(s.notes)
  {
    hide SetBytes, ImportKeys, ImportTrees, ImportAuditor, RegPutAll;
    ImportedIndex(gs.trees, |gs.trees|);
  }

  // ===== notes come back exactly =====

  lemma {:induction false} PutAllAt(m: Keyed, t: nat, bs: seq<Bytes>, n: nat, t': nat, i: nat)
    requires n <= |bs|
    ensures var m' := PutAll(m, t, bs, n);
            if t' == t && i < n then (t', i) in m' && m'[(t', i)] == bs[i] else SameSlot(m, m', t', i)
  {
    if n > 0 { PutAllAt(m, t, bs, n - 1, t', i); }
  }

  lemma {:induction false} RingHistoryAt(m: Keyed, t: nat, ring: seq<Bytes>, n: nat, t': nat, i: nat)
    requires n <= |ring|
    ensures var m' := RingHistory(m, t, ring, n);
            if t' == t && i < n then Slot(m', (t', i)) == ring[i] else SameSlot(m, m', t', i)
  {
    if n > 0 { RingHistoryAt(m, t, ring, n - 1, t', i); }
  }

  /** A part of a tree that an entry of a snapshot may give. */
  datatype Part = NextOf | RootOf | LeafOf(index: nat) | NodeOf(level: nat) | RingOf(slot: nat)

  predicate Gives(x: TreeState, t: nat, p: Part) {
    x.treeId == t && match p
                     case NextOf => x.nextIndex > 0
                     case RootOf => |x.merkleRoot| > 0
                     case LeafOf(i) => i < |x.commitments|
                     case NodeOf(l) => l < |x.frontier|
                     case RingOf(i) => i < |x.rootHistory|
  }

  ghost predicate Lacks(f: Forest, t: nat, p: Part) {
    match p
    case NextOf => t !in f.nextIndex
    case RootOf => t !in f.treeRoot
    case LeafOf(i) => (t, i) !in f.leaves
    case NodeOf(l) => (t, l) !in f.frontier
    case RingOf(i) => (t, i) !in f.history
  }

  /** Part `p` of tree `t` is what entry `x` gives. */
  ghost predicate Holds(f: Forest, t: nat, p: Part, x: TreeState)
    requires Gives(x, t, p)
  {
    match p
    case NextOf => NextIndex(f, t) == x.nextIndex
    case RootOf => Slot(f.treeRoot, t) == x.merkleRoot
    case LeafOf(i) => (t, i) in f.leaves && f.leaves[(t, i)] == x.commitments[i]
    case NodeOf(l) => (t, l) in f.frontier && f.frontier[(t, l)] == x.frontier[l]
    case RingOf(i) => Slot(f.history, (t, i)) == x.rootHistory[i]
  }

  /** Entry `j` is the last of the first `n` that gives this part. */
  ghost predicate LastGives(trees: seq<TreeState>, n: nat, t: nat, p: Part, j: nat) {
    j < n <= |trees| && Gives(trees[j], t, p) && forall k | j < k < n :: !Gives(trees[k], t, p)
  }

  ghost predicate NoneGives(trees: seq<TreeState>, n: nat, t: nat, p: Part) {
    n <= |trees| && forall k | 0 <= k < n :: !Gives(trees[k], t, p)
  }

  lemma ImportTreeGives(g: Forest, x: TreeState, t: nat, p: Part)
    ensures Gives(x, t, p) ==> Holds(ImportTree(g, x), t, p, x)
    ensures !Gives(x, t, p) ==> (Lacks(g, t, p) ==> Lacks(ImportTree(g, x), t, p))
    ensures !Gives(x, t, p) ==> forall y | Gives(y, t, p) && Holds(g, t, p, y) :: Holds(ImportTree(g, x), t, p, y)
  {
    hide PutAll, RingHistory, RingIndex, Reindex;
    match p
    case LeafOf(i) => PutAllAt(g.leaves, x.treeId, x.commitments, |x.commitments|, t, i);
    case NodeOf(l) => PutAllAt(g.frontier, x.treeId, x.frontier, |x.frontier|, t, l);
    case RingOf(i) => RingHistoryAt(g.history, x.treeId, x.rootHistory, |x.rootHistory|, t, i);
    case _ =>
  }

  /** Each part is what the last entry giving it says, and a part no entry gives is absent. */
  ghost predicate AsListed(f: Forest, trees: seq<TreeState>, n: nat, t: nat, p: Part) {
    && (NoneGives(trees, n, t, p) ==> Lacks(f, t, p))
    && (forall j: nat :: LastGives(trees, n, t, p, j) ==> Holds(f, t, p, trees[j]))
  }

  lemma ImportTreeAsListed(f: Forest, trees: seq<TreeState>, n: nat, t: nat, p: Part)
    requires n < |trees| && AsListed(f, trees, n, t, p)
    ensures AsListed(ImportTree(f, trees[n]), trees, n + 1, t, p)
  {
    hide Gives, Holds, Lacks, ImportTree;
    var f' := ImportTree(f, trees[n]);
    ImportTreeGives(f, trees[n], t, p);
    forall j: nat | LastGives(trees, n + 1, t, p, j) ensures Holds(f', t, p, trees[j]) {
      if j < n { assert LastGives(trees, n, t, p, j); }
    }
  }

  /** So it is for every list of trees, in whatever order and with whatever repeats. */
  lemma {:induction false} ImportedTrees(trees: seq<TreeState>, n: nat, t: nat, p: Part)
    requires n <= |trees|
    ensures AsListed(ImportTrees(EMPTY, trees, n), trees, n, t, p)
  {
    hide ImportTree, AsListed;
    if n > 0 {
      ImportedTrees(trees, n - 1, t, p);
      ImportTreeAsListed(ImportTrees(EMPTY, trees, n - 1), trees, n - 1, t, p);
    } else {
      NothingListed(trees, t, p);
    }
  }

  lemma NothingListed(trees: seq<TreeState>, t: nat, p: Part)
    ensures AsListed(EMPTY, trees, 0, t, p)
  {
    hide Gives;
  }

  lemma {:induction false} RingKeepsCounts(index: map<Fe, nat>, roots: map<nat, Bytes>, m: Keyed, t: nat,
                                           ring: seq<Bytes>, n: nat)
    requires n <= |ring| && Counts(index, roots, m)
    ensures Counts(RingIndex(index, m, t, ring, n), roots, RingHistory(m, t, ring, n))
  {
    if n > 0 {
      hide Counts, Put, Reindex;
      RingKeepsCounts(index, roots, m, t, ring, n - 1);
      PutHistoryKeepsCounts(RingIndex(index, m, t, ring, n - 1), roots, RingHistory(m, t, ring, n - 1),
                            (t, n - 1), ring[n - 1]);
    }
  }

  /** The written slots are the first ones, so moving them together moves nothing. */
  lemma {:induction false} RingIsPrefix(history: Keyed, t: nat, size: nat, n: nat)
    requires Keys(history, t, size)
    ensures |Ring(history, t, n)| == Min(size, n)
    ensures forall i: nat :: i < Min(size, n) ==> Ring(history, t, n)[i] == Slot(history, (t, i))
  {
    if n > 0 {
      assert KeyAt(history, t, size, n - 1);
      RingIsPrefix(history, t, size, n - 1);
    }
  }

  lemma ImportTreeKeepsCounts(g: Forest, tree: TreeState)
    requires IndexOk(g)
    ensures IndexOk(ImportTree(g, tree))
  {
    hide Counts, Put, Reindex, PutAll, RingHistory, RingIndex;
    var (roots, index) := ImportRoot(g, tree.treeId, tree.merkleRoot);
    assert Counts(index, roots, g.history) by {
      PutRootKeepsCounts(g.rootIndex, g.treeRoot, g.history, tree.treeId, tree.merkleRoot);
    }
    RingKeepsCounts(index, roots, g.history, tree.treeId, tree.rootHistory, |tree.rootHistory|);
  }

  lemma ImportTreeElsewhere(g: Forest, tree: TreeState, t: nat)
    requires t != tree.treeId
    ensures SameTree(g, ImportTree(g, tree), t)
  {
    hide PutAll, RingHistory, RingIndex, Reindex;
    var g' := ImportTree(g, tree);
    forall i: nat
      ensures SameSlot(g.leaves, g'.leaves, t, i) && SameSlot(g.frontier, g'.frontier, t, i)
      ensures SameSlot(g.history, g'.history, t, i)
    {
      PutAllAt(g.leaves, tree.treeId, tree.commitments, |tree.commitments|, t, i);
      PutAllAt(g.frontier, tree.treeId, tree.frontier, |tree.frontier|, t, i);
      RingHistoryAt(g.history, tree.treeId, tree.rootHistory, |tree.rootHistory|, t, i);
    }
  }

  /** Writing `bs` as the entries of an absent tree restores the map they were read from. */
  lemma PutAllRestores(m: Keyed, source: Keyed, t: nat, n: nat)
    requires Keys(m, t, 0) && Keys(source, t, n)
    ensures SameAt(source, PutAll(m, t, SlotSeq(source, t, n), n), t)
  {
    var bs := SlotSeq(source, t, n);
    var m' := PutAll(m, t, bs, n);
    forall i: nat ensures SameSlot(source, m', t, i) {
      PutAllAt(m, t, bs, n, t, i);
      assert KeyAt(m, t, 0, i) && KeyAt(source, t, n, i);
    }
  }

  lemma RingRestores(m: Keyed, source: Keyed, t: nat, size: nat, ring: seq<Bytes>)
    requires Keys(m, t, 0) && Keys(source, t, size) && size <= MAX_ROOT_HISTORY
    requires ring == Ring(source, t, MAX_ROOT_HISTORY) && forall b :: b in ring ==> |b| > 0
    ensures SameAt(source, RingHistory(m, t, ring, |ring|), t)
  {
    RingIsPrefix(source, t, size, MAX_ROOT_HISTORY);
    var m' := RingHistory(m, t, ring, |ring|);
    forall i: nat ensures SameSlot(source, m', t, i) {
      RingHistoryAt(m, t, ring, |ring|, t, i);
      assert KeyAt(m, t, 0, i) && KeyAt(source, t, size, i);
    }
  }

  lemma {:induction false} RingNonEmpty(history: Keyed, t: nat, n: nat)
    requires forall i: nat :: i < n && (t, i) in history ==> |Slot(history, (t, i))| > 0
    ensures forall b :: b in Ring(history, t, n) ==> |b| > 0
  {
    if n > 0 {
      RingNonEmpty(history, t, n - 1);
      if (t, n - 1) in history { assert |Slot(history, (t, n - 1))| > 0; }
    }
  }

  lemma TreeRingNonEmpty(h: Hash2, d: nat, f: Forest, t: nat)
    requires TreeOk(h, d, f, t)
    ensures forall b :: b in Ring(f.history, t, MAX_ROOT_HISTORY) ==> |b| > 0
  {
    var ls := Leaves(f, t);
    forall i: nat | i < MAX_ROOT_HISTORY && (t, i) in f.history ensures |Slot(f.history, (t, i))| > 0 {
      assert KeyAt(f.history, t, Min(|ls|, MAX_ROOT_HISTORY), i);
      var j := |ls| - 1 - (|ls| - 1 - i) % MAX_ROOT_HISTORY;
      assert InWindow(|ls|, j) && j % MAX_ROOT_HISTORY == i;
      assert SlotHolds(h, d, ls, f.history, t, j);
    }
    RingNonEmpty(f.history, t, MAX_ROOT_HISTORY);
  }

  lemma ImportTreeRestores(h: Hash2, d: nat, f: Forest, g: Forest, t: nat)
    requires TreeOk(h, d, f, t) && NextIndex(f, t) > 0 && NoTree(g, t)
    ensures SameTree(f, ImportTree(g, ExportTree(h, d, f, t)), t)
  {
    hide PutAll, RingHistory, RingIndex, Reindex, FrontierOk, WindowOk, RootBytes, SlotSeq, Ring, Pow2;
    var n, ls := NextIndex(f, t), Leaves(f, t);
    TreeRingNonEmpty(h, d, f, t);
    assert |f.treeRoot[t]| > 0 by { RootNotEmpty(h, d, f, t); }
    PutAllRestores(g.leaves, f.leaves, t, n);
    PutAllRestores(g.frontier, f.frontier, t, d);
    RingRestores(g.history, f.history, t, Min(|ls|, MAX_ROOT_HISTORY), Ring(f.history, t, MAX_ROOT_HISTORY));
  }

  lemma RootNotEmpty(h: Hash2, d: nat, f: Forest, t: nat)
    requires TreeOk(h, d, f, t)
    ensures |f.treeRoot[t]| == 32
  {
  }

  /** Every tree has a leaf: a tree is only opened by the insert that fills its first slot. */
  ghost predicate Settled(f: Forest) {
    forall t: nat :: t < f.treeCount ==> NextIndex(f, t) > 0
  }

  ghost predicate Imported(f: Forest, g: Forest, k: nat, t: nat) {
    if t < k then SameTree(f, g, t) else NoTree(g, t)
  }

  /** After importing the first `k` trees, exactly those are back, and the index counts them. */
  ghost predicate FirstTreesBack(f: Forest, g: Forest, k: nat) {
    && IndexOk(g) && g.treeCount == 0 && g.activeTree == 0 && g.used == {}
    && (forall t: nat :: Imported(f, g, k, t))
  }

  lemma {:induction false} ImportTreesRestore(h: Hash2, d: nat, f: Forest, trees: seq<TreeState>, k: nat, g: Forest)
    requires TreesOk(h, d, f) && Settled(f) && TreesExported(h, d, f, trees) && k <= |trees|
    requires g == ImportTrees(EMPTY, trees, k)
    ensures FirstTreesBack(f, g, k)
    decreases k
  {
    hide TreesOk, Settled, FirstTreesBack, ImportTree, TreesExported;
    if k == 0 {
      NothingImported(h, d, f);
    } else {
      var g0 := ImportTrees(EMPTY, trees, k - 1);
      ImportTreesRestore(h, d, f, trees, k - 1, g0);
      ImportNextTree(h, d, f, trees, k - 1, g0, g);
    }
  }

  lemma ImportNextTree(h: Hash2, d: nat, f: Forest, trees: seq<TreeState>, k: nat, g0: Forest, g: Forest)
    requires TreesOk(h, d, f) && Settled(f) && TreesExported(h, d, f, trees) && k < |trees|
    requires FirstTreesBack(f, g0, k) && g == ImportTree(g0, trees[k])
    ensures FirstTreesBack(f, g, k + 1)
  {
    assert TreeAt(h, d, f, k);
    assert NextIndex(f, k) > 0 && trees[k] == ExportTree(h, d, f, k);
    hide Settled, TreesExported, TreesOk, IndexOk, ExportTree, TreeOk, NoTree, SameTree, ImportTree, Imported;
    ImportTreeKeepsCounts(g0, trees[k]);
    ImportTreeKeepsRest(g0, trees[k]);
    var k' := k + 1;
    forall t: nat ensures Imported(f, g, k', t) {
      assert Imported(f, g0, k, t);
      ImportedOne(h, d, f, g0, k, trees[k], t);
    }
  }

  lemma NothingImported(h: Hash2, d: nat, f: Forest)
    ensures FirstTreesBack(f, EMPTY, 0)
  {
    hide IndexOk, TreeOk;
    EmptyInv(h, d);
    forall t: nat ensures Imported(f, EMPTY, 0, t) { assert TreeAt(h, d, EMPTY, t); }
  }

  lemma ImportTreeKeepsRest(g: Forest, tree: TreeState)
    ensures var g' := ImportTree(g, tree);
            g'.treeCount == g.treeCount && g'.activeTree == g.activeTree && g'.used == g.used
  {
  }

  lemma ImportedOne(h: Hash2, d: nat, f: Forest, g0: Forest, k: nat, tree: TreeState, t: nat)
    requires k < f.treeCount && TreeOk(h, d, f, k) && NextIndex(f, k) > 0
    requires tree == ExportTree(h, d, f, k) && Imported(f, g0, k, t)
    ensures Imported(f, ImportTree(g0, tree), k + 1, t)
  {
    var g := ImportTree(g0, tree);
    TreeRingNonEmpty(h, d, f, k);
    hide TreeOk, ImportTree, SameTree, NoTree;
    if t == k {
      ImportTreeRestores(h, d, f, g0, t);
    } else {
      ImportTreeElsewhere(g0, tree, t);
      if t < k { SameTreeTrans(f, g0, g, t); } else { SameNoTree(g0, g, t); }
    }
  }

  lemma SameEverywhere(m: Keyed, m': Keyed)
    requires forall t: nat :: SameAt(m, m', t)
    ensures m == m'
  {
    forall t: nat, i: nat ensures SameSlot(m, m', t, i) { assert SameAt(m, m', t); }
    forall k | k in m ensures k in m' && m'[k] == m[k] { assert SameSlot(m, m', k.0, k.1); }
    forall k | k in m' ensures k in m { assert SameSlot(m, m', k.0, k.1); }
  }

  lemma AbsentInBoth(m: Keyed, m': Keyed, t: nat)
    requires Keys(m, t, 0) && Keys(m', t, 0)
    ensures SameAt(m, m', t)
  {
    forall i: nat ensures SameSlot(m, m', t, i) { assert KeyAt(m, t, 0, i) && KeyAt(m', t, 0, i); }
  }

  lemma ImportedIsSame(h: Hash2, d: nat, f: Forest, g: Forest, t: nat)
    requires TreeAt(h, d, f, t) && Imported(f, g, f.treeCount, t)
    ensures SameTree(f, g, t)
  {
    if t >= f.treeCount {
      AbsentInBoth(f.leaves, g.leaves, t);
      AbsentInBoth(f.frontier, g.frontier, t);
      AbsentInBoth(f.history, g.history, t);
    }
  }

  /** Two forests that agree on every tree store the same five maps. */
  lemma SameTreesSameMaps(f: Forest, g: Forest)
    requires forall t: nat :: SameTree(f, g, t)
    ensures f.leaves == g.leaves && f.frontier == g.frontier && f.history == g.history
    ensures f.nextIndex == g.nextIndex && f.treeRoot == g.treeRoot
  {
    forall t: nat
      ensures SameAt(f.leaves, g.leaves, t) && SameAt(f.frontier, g.frontier, t) && SameAt(f.history, g.history, t)
    {
      assert SameTree(f, g, t);
    }
    SameEverywhere(f.leaves, g.leaves);
    SameEverywhere(f.frontier, g.frontier);
    SameEverywhere(f.history, g.history);
    forall t: nat
      ensures (t in f.nextIndex <==> t in g.nextIndex) && (t in f.treeRoot <==> t in g.treeRoot)
    {
      assert SameTree(f, g, t);
    }
    forall t | t in f.nextIndex ensures f.nextIndex[t] == g.nextIndex[t] { assert SameTree(f, g, t); }
    forall t | t in f.treeRoot ensures f.treeRoot[t] == g.treeRoot[t] { assert SameTree(f, g, t); }
  }

  lemma ListedValues(bs: seq<Bytes>, xs: set<Fe>)
    requires Lists(bs, xs)
    ensures Values(bs) == xs
  {
    forall x | x in xs ensures x in Values(bs) {
      SetBytesFeBytes(x);
      assert FeBytes(x) in bs;
    }
  }

  /** The note forest comes back exactly: the compacted ring in its own slots, and the index,
      which is not in the snapshot, rebuilt entry for entry. */
  lemma NotesRoundTrip(h: Hash2, d: nat, f: Forest, gs: GenesisState)
    requires Inv(h, d, f) && ExportedNotes(h, d, f, gs)
    requires Settled(f)
    ensures ImportNotes(gs) == f
  {
    var g := ImportTrees(EMPTY, gs.trees, |gs.trees|);
    ImportTreesRestore(h, d, f, gs.trees, |gs.trees|, g);
    hide ImportTrees, Lists, UsedOk, Shape;
    forall t: nat ensures SameTree(f, g, t) {
      assert TreeAt(h, d, f, t) && Imported(f, g, f.treeCount, t);
      ImportedIsSame(h, d, f, g, t);
    }
    SameTreesSameMaps(f, g);
    CountsUnique(f.rootIndex, g.rootIndex, f.treeRoot, f.history);
    ListedValues(gs.commitmentsUsed, f.used);
  }
}
