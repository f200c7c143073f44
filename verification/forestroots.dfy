/** Which roots a reachable forest accepts, and why the one-read lookup may replace the scan. */
module ForestRoots {
  import opened Field
  import opened Merkle
  import opened Types
  import opened Forest
  import opened ForestProofs
  import opened ForestInvariant

  /** A tree with `n` leaves still answers for the root it had after `j` inserts: one of its
      last 100 inserts, or none at all if it is empty. */
  predicate Recent(n: nat, j: nat) {
    j <= n < j + MAX_ROOT_HISTORY && (j == 0 ==> n == 0)
  }

  ghost predicate RootOfTree(h: Hash2, d: nat, f: Forest, r: Fe, t: nat, j: nat) {
    t < f.treeCount && Recent(NextIndex(f, t), j) && r == PaddedRoot(h, Leaves(f, t)[..j], d)
  }

  /** The accepted roots, described without the index or the ring. */
  ghost predicate Accepted(h: Hash2, d: nat, f: Forest, r: Fe) {
    r == ZeroHash(h, DEFAULT_TREE_DEPTH) || exists t: nat, j: nat :: RootOfTree(h, d, f, r, t, j)
  }

  lemma HolderExists<K>(m: map<K, Bytes>, r: Fe, k: K)
    requires k in m && Holds(m[k], r)
    ensures |Holders(m, r)| > 0
  {
    assert k in Holders(m, r);
  }

  lemma SomeHolder<K>(m: map<K, Bytes>, r: Fe) returns (k: K)
    requires |Holders(m, r)| > 0
    ensures k in m && Holds(m[k], r)
  {
    k :| k in Holders(m, r);
  }

  lemma CanonicalHolds(x: Fe, r: Fe)
    ensures Holds(FeBytes(x), r) <==> x == r
  {
    SetBytesFeBytes(x);
  }

  lemma RecentRootHeld(h: Hash2, d: nat, f: Forest, r: Fe, t: nat, j: nat)
    requires TreesOk(h, d, f) && RootOfTree(h, d, f, r, t, j)
    ensures SlotCount(f.treeRoot, f.history, r) > 0
  {
    assert TreeAt(h, d, f, t);
    var ls := Leaves(f, t);
    CanonicalHolds(r, r);
    if j == |ls| {
      assert ls[..j] == ls;
      HolderExists<nat>(f.treeRoot, r, t);
    } else {
      var slot := (j - 1) % MAX_ROOT_HISTORY;
      assert SlotHolds(h, d, ls, f.history, t, j - 1);
      assert KeyAt(f.history, t, Min(|ls|, MAX_ROOT_HISTORY), slot);
      HolderExists<(nat, nat)>(f.history, r, (t, slot));
    }
  }

  /** The insert whose root sits in ring slot `i` of a tree with `n` leaves. */
  function SlotInsert(n: nat, i: nat): (j: nat)
    requires i < Min(n, MAX_ROOT_HISTORY)
    ensures InWindow(n, j) && j % MAX_ROOT_HISTORY == i
  {
    n - 1 - (n - 1 - i) % MAX_ROOT_HISTORY
  }

  lemma HeldRootRecent(h: Hash2, d: nat, f: Forest, r: Fe)
    requires TreesOk(h, d, f) && SlotCount(f.treeRoot, f.history, r) > 0
    ensures exists t: nat, j: nat :: RootOfTree(h, d, f, r, t, j)
  {
    hide SetBytes, FeBytes, PaddedRoot, FrontierOk;
    if |Holders<nat>(f.treeRoot, r)| > 0 {
      var t := SomeHolder<nat>(f.treeRoot, r);
      assert TreeAt(h, d, f, t);
      var ls := Leaves(f, t);
      assert ls[..|ls|] == ls;
      CanonicalHolds(PaddedRoot(h, ls, d), r);
      assert RootOfTree(h, d, f, r, t, |ls|);
    } else {
      var k := SomeHolder<(nat, nat)>(f.history, r);
      var (t, i) := k;
      assert TreeAt(h, d, f, t);
      var ls := Leaves(f, t);
      assert KeyAt(f.history, t, 0, i) || KeyAt(f.history, t, Min(|ls|, MAX_ROOT_HISTORY), i);
      var j := SlotInsert(|ls|, i);
      assert SlotHolds(h, d, ls, f.history, t, j);
      CanonicalHolds(PaddedRoot(h, ls[..j + 1], d), r);
      assert RootOfTree(h, d, f, r, t, j + 1);
    }
  }

  /** In every reachable forest the lookup accepts exactly: the default empty root, and for
      each tree the padded roots after its last 100 inserts. */
  lemma AcceptedExactly(h: Hash2, d: nat, f: Forest, r: Fe)
    requires Inv(h, d, f)
    ensures IsValidRootAnyTree(h, f, FeBytes(r)) <==> Accepted(h, d, f, r)
  {
    SetBytesFeBytes(r);
    assert CountedAt(f.rootIndex, f.treeRoot, f.history, r);
    assert FeBytes(r) == ZeroRootBytes(h, DEFAULT_TREE_DEPTH) <==> r == ZeroHash(h, DEFAULT_TREE_DEPTH) by {
      SetBytesFeBytes(ZeroHash(h, DEFAULT_TREE_DEPTH));
    }
    if SlotCount(f.treeRoot, f.history, r) > 0 { HeldRootRecent(h, d, f, r); }
    forall t: nat, j: nat | RootOfTree(h, d, f, r, t, j)
      ensures SlotCount(f.treeRoot, f.history, r) > 0
    {
      RecentRootHeld(h, d, f, r, t, j);
    }
  }

  /** The root `r` was tree `t`'s after `j` inserts; an empty tree has its empty root. */
  ghost predicate Occurs(h: Hash2, d: nat, f: Forest, r: Fe, t: nat, j: nat) {
    && t < f.treeCount && j <= NextIndex(f, t) && (j == 0 ==> NextIndex(f, t) == 0)
    && r == PaddedRoot(h, Leaves(f, t)[..j], d)
  }

  /** Fewer than 100 later inserts went into tree `t`. */
  predicate Fresh(f: Forest, t: nat, j: nat) { NextIndex(f, t) - j < MAX_ROOT_HISTORY }

  /** A root is refused exactly from the moment 100 later inserts went into every tree that
      ever had it, counted in each tree from its last occurrence there. */
  lemma RootExpires(h: Hash2, d: nat, f: Forest, r: Fe)
    requires Inv(h, d, f) && r != ZeroHash(h, DEFAULT_TREE_DEPTH)
    ensures !IsValidRootAnyTree(h, f, FeBytes(r)) <==>
              forall t: nat, j: nat :: Occurs(h, d, f, r, t, j) ==> !Fresh(f, t, j)
  {
    hide Inv, IsValidRootAnyTree, PaddedRoot;
    AcceptedExactly(h, d, f, r);
    forall t: nat, j: nat | RootOfTree(h, d, f, r, t, j)
      ensures Occurs(h, d, f, r, t, j) && Fresh(f, t, j)
    {
    }
    forall t: nat, j: nat | Occurs(h, d, f, r, t, j) && Fresh(f, t, j)
      ensures RootOfTree(h, d, f, r, t, j)
    {
    }
  }

  /** A tree whose root slot was never written reads as the empty tree of default depth. */
  lemma UnwrittenRootIsEmpty(h: Hash2, f: Forest, t: nat)
    requires t !in f.treeRoot
    ensures TreeRoot(h, f, t) == RootBytes(h, 20, [])
  {
    hide FeBytes, Node;
    EmptyTree(h, (l: nat) => 0, 20);
  }

  // ===== the lookup against the scan =====

  /** The lookup this index replaced: every slot of every tree, plus the empty root. */
  ghost predicate Scan(h: Hash2, f: Forest, root: Bytes) {
    if f.treeCount == 0 then root == ZeroRootBytes(h, DEFAULT_TREE_DEPTH)
    else exists t: nat :: t < f.treeCount && IsKnownRoot(h, f, t, root)
  }

  /** Every non-empty slot content is a canonical encoding stored under a scanned key. */
  ghost predicate SlotsCanonical(f: Forest) {
    && (forall t :: t in f.treeRoot ==> t < f.treeCount && CanonicalSlot(f.treeRoot[t]))
    && (forall k :: k in f.history ==>
          k.0 < f.treeCount && k.1 < MAX_ROOT_HISTORY && CanonicalSlot(f.history[k]))
  }

  predicate CanonicalSlot(b: Bytes) { b == CanonicalFieldBytes(b) }

  lemma InvSlotsCanonical(h: Hash2, d: nat, f: Forest)
    requires TreesOk(h, d, f)
    ensures SlotsCanonical(f)
  {
    forall t | t in f.treeRoot ensures t < f.treeCount && CanonicalSlot(f.treeRoot[t]) {
      assert TreeAt(h, d, f, t);
      SetBytesFeBytes(PaddedRoot(h, Leaves(f, t), d));
    }
    forall k | k in f.history
      ensures k.0 < f.treeCount && k.1 < MAX_ROOT_HISTORY && CanonicalSlot(f.history[k])
    {
      var (t, i) := k;
      assert TreeAt(h, d, f, t);
      var ls := Leaves(f, t);
      assert KeyAt(f.history, t, 0, i) || KeyAt(f.history, t, Min(|ls|, MAX_ROOT_HISTORY), i);
      var j := SlotInsert(|ls|, i);
      assert SlotHolds(h, d, ls, f.history, t, j);
      SetBytesFeBytes(PaddedRoot(h, ls[..j + 1], d));
    }
  }

  lemma HeldIffScanned(h: Hash2, f: Forest, root: Bytes)
    requires SlotsCanonical(f) && |root| > 0
    ensures (exists t: nat :: t < f.treeCount && IsKnownRoot(h, f, t, root)) ==>
              root == ZeroRootBytes(h, DEFAULT_TREE_DEPTH)
              || (CanonicalSlot(root) && SlotCount(f.treeRoot, f.history, SetBytes(root)) > 0)
    ensures CanonicalSlot(root) && SlotCount(f.treeRoot, f.history, SetBytes(root)) > 0 ==>
              exists t: nat :: t < f.treeCount && IsKnownRoot(h, f, t, root)
  {
    var r := SetBytes(root);
    forall t: nat | t < f.treeCount && IsKnownRoot(h, f, t, root) && root != ZeroRootBytes(h, DEFAULT_TREE_DEPTH)
      ensures CanonicalSlot(root) && SlotCount(f.treeRoot, f.history, r) > 0
    {
      if Slot(f.treeRoot, t) == root {
        HolderExists<nat>(f.treeRoot, r, t);
      } else {
        var i: nat :| i < MAX_ROOT_HISTORY && Slot(f.history, (t, i)) == root;
        HolderExists<(nat, nat)>(f.history, r, (t, i));
      }
    }
    if CanonicalSlot(root) && SlotCount(f.treeRoot, f.history, r) > 0 {
      if |Holders<nat>(f.treeRoot, r)| > 0 {
        var t := SomeHolder<nat>(f.treeRoot, r);
        assert Slot(f.treeRoot, t) == root;
        assert IsKnownRoot(h, f, t, root);
      } else {
        var k := SomeHolder<(nat, nat)>(f.history, r);
        assert Slot(f.history, (k.0, k.1)) == root;
        assert IsKnownRoot(h, f, k.0, root);
      }
    }
  }

  /** Some ring slot of an existing tree was never written. */
  predicate HasUnwrittenSlot(f: Forest) {
    exists t: nat :: t < f.treeCount && NextIndex(f, t) < MAX_ROOT_HISTORY
  }

  /** Exactly when the lookup and the scan agree on a byte string.  A non-empty one must be
      the canonical encoding of its element, unless that element is not indexed at all.  The
      empty one is found by the scan in any slot never written. */
  lemma LookupAgreesWithScan(h: Hash2, d: nat, f: Forest, root: Bytes)
    requires Inv(h, d, f)
    ensures (IsValidRootAnyTree(h, f, root) <==> Scan(h, f, root))
       <==> (if |root| == 0 then !HasUnwrittenSlot(f)
             else root == CanonicalFieldBytes(root) || SetBytes(root) !in f.rootIndex)
  {
    if |root| == 0 { EmptyAgrees(h, d, f); } else { NonEmptyAgrees(h, d, f, root); }
  }

  lemma EmptyAgrees(h: Hash2, d: nat, f: Forest)
    requires Inv(h, d, f)
    ensures !IsValidRootAnyTree(h, f, [])
    ensures Scan(h, f, []) <==> HasUnwrittenSlot(f)
  {
    hide SetBytes, FeBytes, PaddedRoot, FrontierOk, WindowOk;
    forall t: nat | t < f.treeCount
      ensures IsKnownRoot(h, f, t, []) <==> NextIndex(f, t) < MAX_ROOT_HISTORY
    {
      EmptyKnown(h, d, f, t);
    }
    if HasUnwrittenSlot(f) {
      var t: nat :| t < f.treeCount && NextIndex(f, t) < MAX_ROOT_HISTORY;
      assert IsKnownRoot(h, f, t, []);
    }
  }

  lemma EmptyKnown(h: Hash2, d: nat, f: Forest, t: nat)
    requires TreesOk(h, d, f) && t < f.treeCount
    ensures IsKnownRoot(h, f, t, []) <==> NextIndex(f, t) < MAX_ROOT_HISTORY
  {
    hide SetBytes, FeBytes, PaddedRoot, FrontierOk;
    assert TreeAt(h, d, f, t);
    var n := NextIndex(f, t);
    if n < MAX_ROOT_HISTORY {
      assert KeyAt(f.history, t, n, n);
      assert Slot(f.history, (t, n)) == [];
    }
    forall i: nat | i < MAX_ROOT_HISTORY && n >= MAX_ROOT_HISTORY ensures Slot(f.history, (t, i)) != [] {
      assert KeyAt(f.history, t, MAX_ROOT_HISTORY, i);
      assert SlotHolds(h, d, Leaves(f, t), f.history, t, SlotInsert(n, i));
    }
  }

  lemma NonEmptyAgrees(h: Hash2, d: nat, f: Forest, root: Bytes)
    requires Inv(h, d, f) && |root| > 0
    ensures (IsValidRootAnyTree(h, f, root) <==> Scan(h, f, root))
       <==> (root == CanonicalFieldBytes(root) || SetBytes(root) !in f.rootIndex)
  {
    InvSlotsCanonical(h, d, f);
    HeldIffScanned(h, f, root);
    SetBytesFeBytes(ZeroHash(h, DEFAULT_TREE_DEPTH));
    assert CountedAt(f.rootIndex, f.treeRoot, f.history, SetBytes(root));
    if f.treeCount > 0 && root == ZeroRootBytes(h, DEFAULT_TREE_DEPTH) {
      assert IsKnownRoot(h, f, 0, root);
    }
    if f.treeCount == 0 && SlotCount(f.treeRoot, f.history, SetBytes(root)) > 0 {
      HeldRootRecent(h, d, f, SetBytes(root));
    }
  }

  /** The second encoding of any accepted root tells the two apart: the lookup takes it, the
      scan does not. */
  lemma SecondEncodingTellsApart(h: Hash2, d: nat, f: Forest, r: Fe)
    requires Inv(h, d, f) && r in f.rootIndex
    ensures SetBytes(ToBe(r + P, 32)) == r
    ensures IsValidRootAnyTree(h, f, ToBe(r + P, 32)) && !Scan(h, f, ToBe(r + P, 32))
  {
    hide Scan, Inv;
    var b := ToBe(r + P, 32);
    PowersOf256();
    BeValueToBe(r + P, 32);
    assert SetBytes(b) == r by { assert (r + P) % P == r; }
    ValidIffCanonical(b);
    IndexedIsAccepted(h, d, f, b);
    LookupAgreesWithScan(h, d, f, b);
  }

  lemma IndexedIsAccepted(h: Hash2, d: nat, f: Forest, b: Bytes)
    requires Inv(h, d, f) && |b| > 0 && SetBytes(b) in f.rootIndex
    ensures IsValidRootAnyTree(h, f, b)
  {
    hide SetBytes, Shape, TreesOk, UsedOk;
    assert CountedAt(f.rootIndex, f.treeRoot, f.history, SetBytes(b));
  }
}
