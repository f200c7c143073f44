/** The registration tree: a single tree with the same frontier walk and its own used-set. */
module Registration {
  import opened Field
  import opened Merkle
  import opened Types
  import opened Forest
  import opened ForestInvariant

  datatype Reg = Reg(
    next: nat,
    leaves: map<nat, Bytes>,
    frontier: map<nat, Bytes>,
    root: Option<Bytes>,
    used: set<Fe>)

  const NOBODY: Reg := Reg(0, map[], map[], None, {})

  function RegFrontierAt(frontier: map<nat, Bytes>): nat -> Fe {
    (l: nat) => SetBytes(Slot(frontier, l))
  }

  function RegLeaves(g: Reg): (ls: seq<Fe>)
    ensures |ls| == g.next
  {
    seq(g.next, (i: nat) => SetBytes(Slot(g.leaves, i)))
  }

  function RegRoot(h: Hash2, g: Reg): Bytes {
    if g.root.Some? then g.root.value else ZeroRootBytes(h, DEFAULT_REG_TREE_DEPTH)
  }

  function RegWalkWrites(h: Hash2, m: map<nat, Bytes>, index: nat, c: Fe, l: nat): map<nat, Bytes> {
    if l == 0 then m
    else if Shr(index, l - 1) % 2 == 0 then
      RegWalkWrites(h, m, index, c, l - 1)[l - 1 := FeBytes(Cursor(h, RegFrontierAt(m), index, c, l - 1))]
    else RegWalkWrites(h, m, index, c, l - 1)
  }

  function RegWalkRoot(h: Hash2, d: nat, g: Reg, c: Bytes): Bytes {
    FeBytes(Cursor(h, RegFrontierAt(g.frontier), g.next, SetBytes(c), d))
  }

  function RegAppend(h: Hash2, d: nat, g: Reg, c: Bytes): Reg {
    Reg(g.next + 1, g.leaves[g.next := c], RegWalkWrites(h, g.frontier, g.next, SetBytes(c), d),
        Some(RegWalkRoot(h, d, g, c)), g.used + {SetBytes(c)})
  }

  function InsertReg(h: Hash2, d: nat, g: Reg, c: Bytes): Result<Reg, Error> {
    if SetBytes(c) in g.used then Err(DuplicateCommitment)
    else if g.next >= Pow2(d) then Err(TreeFull)
    else Ok(RegAppend(h, d, g, c))
  }

  ghost predicate RegKeyAt(m: map<nat, Bytes>, n: nat, i: nat) { i in m <==> i < n }

  ghost predicate RegKeys(m: map<nat, Bytes>, n: nat) {
    forall i: nat :: RegKeyAt(m, n, i)
  }

  ghost predicate LevelBelow(m: map<nat, Bytes>, d: nat, l: nat) { l in m ==> l < d }

  /** The registration tree holds the padded root of its leaves; before the first insert it
      has no root at all.  Frontier levels may be missing, but none that is read. */
  ghost predicate RegInv(h: Hash2, d: nat, g: Reg) {
    && g.next <= Pow2(d)
    && RegKeys(g.leaves, g.next)
    && (forall l: nat :: LevelBelow(g.frontier, d, l))
    && FrontierOk(h, RegFrontierAt(g.frontier), RegLeaves(g), d)
    && g.root == (if g.next == 0 then None else Some(RootBytes(h, d, RegLeaves(g))))
    && UsedOk<nat>(g.leaves, g.used)
  }

  lemma {:induction false} RegWalkWritesAt(h: Hash2, m: map<nat, Bytes>, index: nat, c: Fe, l: nat, j: nat)
    ensures var m' := RegWalkWrites(h, m, index, c, l);
            if j < l && Shr(index, j) % 2 == 0
            then j in m' && m'[j] == FeBytes(Cursor(h, RegFrontierAt(m), index, c, j))
            else (j in m' <==> j in m) && Slot(m', j) == Slot(m, j)
  {
    if l > 0 { RegWalkWritesAt(h, m, index, c, l - 1, j); }
  }

  lemma RegWalkKeepsFrontier(h: Hash2, d: nat, ls: seq<Fe>, frontier: map<nat, Bytes>, c: Fe)
    requires FrontierOk(h, RegFrontierAt(frontier), ls, d)
    requires forall l: nat :: LevelBelow(frontier, d, l)
    ensures var frontier' := RegWalkWrites(h, frontier, |ls|, c, d);
            && (forall l: nat :: LevelBelow(frontier', d, l))
            && FrontierOk(h, RegFrontierAt(frontier'), ls + [c], d)
  {
    var frontier' := RegWalkWrites(h, frontier, |ls|, c, d);
    var before, after := RegFrontierAt(frontier), RegFrontierAt(frontier');
    forall l: nat ensures LevelBelow(frontier', d, l) {
      assert LevelBelow(frontier, d, l);
      RegWalkWritesAt(h, frontier, |ls|, c, d, l);
    }
    forall l: nat | l < d
      ensures after(l) == if Shr(|ls|, l) % 2 == 0 then Cursor(h, before, |ls|, c, l) else before(l)
    {
      RegWalkWritesAt(h, frontier, |ls|, c, d, l);
      SetBytesFeBytes(Cursor(h, before, |ls|, c, l));
    }
    assert WalkedFrontier(h, before, after, |ls|, c, d);
    WalkKeepsFrontier(h, before, after, ls, c, d);
  }

  lemma RegLeavesGrow(h: Hash2, d: nat, g: Reg, c: Bytes)
    requires RegKeys(g.leaves, g.next)
    ensures RegLeaves(RegAppend(h, d, g, c)) == RegLeaves(g) + [SetBytes(c)]
    ensures RegKeys(RegAppend(h, d, g, c).leaves, g.next + 1)
  {
    var g', n' := RegAppend(h, d, g, c), g.next + 1;
    forall i: nat ensures RegKeyAt(g'.leaves, n', i) { assert RegKeyAt(g.leaves, g.next, i); }
  }

  lemma RegAppendKeepsInv(h: Hash2, d: nat, g: Reg, c: Bytes, g': Reg)
    requires RegInv(h, d, g) && g.next < Pow2(d) && SetBytes(c) !in g.used
    requires g' == RegAppend(h, d, g, c)
    ensures RegInv(h, d, g')
    ensures RegLeaves(g') == RegLeaves(g) + [SetBytes(c)]
  {
    RegLeavesGrow(h, d, g, c);
    RegWalkKeepsFrontier(h, d, RegLeaves(g), g.frontier, SetBytes(c));
    assert g'.root == Some(RootBytes(h, d, RegLeaves(g'))) by {
      WalkComputesRoot(h, RegFrontierAt(g.frontier), RegLeaves(g), SetBytes(c), d);
    }
    assert RegKeyAt(g.leaves, g.next, g.next);
    UseFreshValue<nat>(g.leaves, g.used, g.next, c);
  }

  /** A registration succeeds exactly when its value is new and the tree has room, and the
      new root is the padded root over all identities. */
  lemma InsertRegKeepsInv(h: Hash2, d: nat, g: Reg, c: Bytes, r: Result<Reg, Error>)
    requires RegInv(h, d, g) && r == InsertReg(h, d, g, c)
    ensures r.Ok? <==> SetBytes(c) !in g.used && g.next < Pow2(d)
    ensures r.Ok? ==> RegInv(h, d, r.value) && RegLeaves(r.value) == RegLeaves(g) + [SetBytes(c)]
    ensures r.Ok? ==> RegRoot(h, r.value) == RootBytes(h, d, RegLeaves(r.value))
  {
    if r.Ok? { RegAppendKeepsInv(h, d, g, c, r.value); }
  }

  lemma NobodyInv(h: Hash2, d: nat)
    ensures RegInv(h, d, NOBODY)
  {
    EmptyTree(h, RegFrontierAt(NOBODY.frontier), d);
    assert RegLeaves(NOBODY) == [];
  }
}
