/** The note forest as a value: what each keeper operation on note trees, root slots and
    the root index does, without saying how.  The class `Keeper` is proved against these
    functions; `ForestProofs` proves what they promise. */
module Forest {
  import opened Field
  import opened Merkle
  import opened Types

  /** Entries of a tree, by tree and position. */
  type Keyed = map<(nat, nat), Bytes>

  datatype Forest = Forest(
    treeCount: nat,
    activeTree: nat,
    nextIndex: map<nat, nat>,
    leaves: Keyed,
    frontier: Keyed,
    treeRoot: map<nat, Bytes>,
    history: Keyed,
    rootIndex: map<Fe, nat>,
    used: set<Fe>)

  const EMPTY: Forest := Forest(0, 0, map[], map[], map[], map[], map[], map[], {})

  function NextIndex(f: Forest, t: nat): nat {
    if t in f.nextIndex then f.nextIndex[t] else 0
  }

  function ZeroRootBytes(h: Hash2, d: nat): Bytes {
    FeBytes(ZeroHash(h, d))
  }

  function TreeRoot(h: Hash2, f: Forest, t: nat): Bytes {
    if t in f.treeRoot then f.treeRoot[t] else ZeroRootBytes(h, DEFAULT_TREE_DEPTH)
  }

  /** A slot's content; a slot never written reads as no bytes. */
  function Slot<K>(m: map<K, Bytes>, k: K): Bytes {
    if k in m then m[k] else []
  }

  /** The stored left siblings of tree `t`, as the walk reads them. */
  function FrontierAt(frontier: Keyed, t: nat): nat -> Fe {
    (l: nat) => SetBytes(Slot(frontier, (t, l)))
  }

  /** The first `n` leaf values of tree `t`, in insertion order. */
  function LeafValues(leaves: Keyed, t: nat, n: nat): (ls: seq<Fe>)
    ensures |ls| == n
  {
    seq(n, (i: nat) => SetBytes(Slot(leaves, (t, i))))
  }

  function Leaves(f: Forest, t: nat): (ls: seq<Fe>)
    ensures |ls| == NextIndex(f, t)
  {
    LeafValues(f.leaves, t, NextIndex(f, t))
  }

  // ----- the root index -----

  function RefCount(index: map<Fe, nat>, root: Bytes): nat {
    if |root| == 0 then 0
    else if SetBytes(root) in index then index[SetBytes(root)] else 0
  }

  function RefIncr(index: map<Fe, nat>, root: Bytes): map<Fe, nat> {
    if |root| == 0 then index else index[SetBytes(root) := RefCount(index, root) + 1]
  }

  function RefDecr(index: map<Fe, nat>, root: Bytes): map<Fe, nat> {
    if |root| == 0 then index
    else if RefCount(index, root) <= 1 then index - {SetBytes(root)}
    else index[SetBytes(root) := RefCount(index, root) - 1]
  }

  /** Writing a root slot, and the index update that goes with it: nothing happens when the
      bytes do not change. */
  function Put<K>(m: map<K, Bytes>, k: K, v: Bytes): map<K, Bytes> {
    if Slot(m, k) == v then m else m[k := v]
  }

  function Reindex(index: map<Fe, nat>, was: Bytes, v: Bytes): map<Fe, nat> {
    if was == v then index else RefDecr(RefIncr(index, v), was)
  }

  // ----- trees -----

  function ZeroFrontier(h: Hash2, m: Keyed, t: nat, l: nat): Keyed {
    if l == 0 then m else ZeroFrontier(h, m, t, l - 1)[(t, l - 1) := ZeroRootBytes(h, l - 1)]
  }

  function CreateTree(h: Hash2, d: nat, f: Forest): Forest {
    var t, root := f.treeCount, ZeroRootBytes(h, d);
    Forest(t + 1, t, f.nextIndex[t := 0], f.leaves, ZeroFrontier(h, f.frontier, t, d),
           Put(f.treeRoot, t, root), f.history, Reindex(f.rootIndex, Slot(f.treeRoot, t), root), f.used)
  }

  function EnsureTree(h: Hash2, d: nat, f: Forest): Forest {
    if f.treeCount == 0 then CreateTree(h, d, f) else f
  }

  /** The frontier entries the walk overwrites below level `l`. */
  function WalkWrites(h: Hash2, m: Keyed, t: nat, index: nat, c: Fe, l: nat): Keyed {
    if l == 0 then m
    else if Shr(index, l - 1) % 2 == 0 then
      WalkWrites(h, m, t, index, c, l - 1)[(t, l - 1) := FeBytes(Cursor(h, FrontierAt(m, t), index, c, l - 1))]
    else WalkWrites(h, m, t, index, c, l - 1)
  }

  function WalkRoot(h: Hash2, d: nat, f: Forest, t: nat, c: Bytes): Bytes {
    FeBytes(Cursor(h, FrontierAt(f.frontier, t), NextIndex(f, t), SetBytes(c), d))
  }

  /** Writing leaf `c` at the end of tree `t`, whose walk reached `root`. */
  function WriteLeaf(f: Forest, t: nat, c: Bytes, frontier: Keyed, root: Bytes): Forest {
    var n, slot := NextIndex(f, t), (t, NextIndex(f, t) % MAX_ROOT_HISTORY);
    Forest(f.treeCount, f.activeTree, f.nextIndex[t := n + 1], f.leaves[(t, n) := c], frontier,
           Put(f.treeRoot, t, root), Put(f.history, slot, root),
           Reindex(Reindex(f.rootIndex, Slot(f.treeRoot, t), root), Slot(f.history, slot), root), f.used)
  }

  function InsertLeaf(h: Hash2, d: nat, f: Forest, t: nat, c: Bytes): Forest {
    WriteLeaf(f, t, c, WalkWrites(h, f.frontier, t, NextIndex(f, t), SetBytes(c), d), WalkRoot(h, d, f, t, c))
  }

  datatype Inserted = Inserted(forest: Forest, root: Bytes, leafIndex: nat, treeId: nat)

  function MakeRoom(h: Hash2, d: nat, f: Forest): Forest {
    if NextIndex(f, f.activeTree) >= Pow2(d) then CreateTree(h, d, f) else f
  }

  /** The forest an insert works on: at least one tree, and room in the active one. */
  function Prepared(h: Hash2, d: nat, f: Forest): Forest {
    MakeRoom(h, d, EnsureTree(h, d, f))
  }

  /** Appending a note to the active tree, which has room. */
  function Append(h: Hash2, d: nat, f: Forest, c: Bytes): Inserted {
    var t := f.activeTree;
    var f' := InsertLeaf(h, d, f, t, c);
    Inserted(f'.(used := f'.used + {SetBytes(c)}), WalkRoot(h, d, f, t, c), NextIndex(f, t), t)
  }

  function InsertPrepared(h: Hash2, d: nat, f: Forest, c: Bytes): Result<Inserted, Error> {
    if SetBytes(c) in f.used then Err(DuplicateCommitment)
    else if NextIndex(f, f.activeTree) >= Pow2(d) then Err(TreeFull)
    else Ok(Append(h, d, f, c))
  }

  function InsertNote(h: Hash2, d: nat, f: Forest, c: Bytes): Result<Inserted, Error> {
    InsertPrepared(h, d, Prepared(h, d, f), c)
  }

  // ----- root validation -----

  /** The one-read lookup. */
  predicate IsValidRootAnyTree(h: Hash2, f: Forest, root: Bytes) {
    root == ZeroRootBytes(h, DEFAULT_TREE_DEPTH) || RefCount(f.rootIndex, root) > 0
  }

  /** The scan of one tree's slots. */
  predicate IsKnownRoot(h: Hash2, f: Forest, t: nat, root: Bytes) {
    || Slot(f.treeRoot, t) == root
    || (exists i: nat :: i < MAX_ROOT_HISTORY && Slot(f.history, (t, i)) == root)
    || root == ZeroRootBytes(h, DEFAULT_TREE_DEPTH)
  }
}
