/** The zero-padded binary hash tree, the frontier walk that computes its root
    incrementally, and the meaning of a Merkle opening.

    The two-to-one hash is a parameter throughout: nothing about it is assumed,
    except in the opening lemmas, where it must not collide on a stated set. */
module Merkle {
  import opened Field

  type Hash2 = (Fe, Fe) -> Fe

  /** The root of an all-zero subtree of height `l`. */
  function ZeroHash(h: Hash2, l: nat): Fe
  {
    if l == 0 then 0 else h(ZeroHash(h, l - 1), ZeroHash(h, l - 1))
  }

  /** Node `k` of level `l` in the infinite tree whose leaves are `ls` padded with zeros. */
  function Node(h: Hash2, ls: seq<Fe>, l: nat, k: nat): Fe
  {
    if l == 0 then (if k < |ls| then ls[k] else 0)
    else h(Node(h, ls, l - 1, 2 * k), Node(h, ls, l - 1, 2 * k + 1))
  }

  /** The root of the full tree of depth `d` over `ls` padded with zero leaves. */
  function PaddedRoot(h: Hash2, ls: seq<Fe>, d: nat): Fe
  {
    Node(h, ls, d, 0)
  }

  function Shr(n: nat, l: nat): nat
  {
    if l == 0 then n else Shr(n, l - 1) / 2
  }

  lemma {:induction false} ShrBounds(n: nat, l: nat)
    ensures Shr(n, l) * Pow2(l) <= n < (Shr(n, l) + 1) * Pow2(l)
  {
    if l > 0 {
      ShrBounds(n, l - 1);
      HalvedBounds(n, Shr(n, l - 1), Pow2(l - 1));
    }
  }

  lemma HalvedBounds(n: nat, q: nat, p: nat)
    requires q * p <= n < (q + 1) * p
    ensures (q / 2) * (2 * p) <= n < (q / 2 + 1) * (2 * p)
  {
    var r := q / 2;
    MulMono(2 * r, q, p);
    MulMono(q + 1, 2 * r + 2, p);
    assert r * (2 * p) == (2 * r) * p;
    assert (r + 1) * (2 * p) == (2 * r + 2) * p;
  }

  lemma ShrTop(n: nat, d: nat)
    requires n < Pow2(d)
    ensures Shr(n, d) == 0
  {
    ShrBounds(n, d);
    if Shr(n, d) >= 1 { MulMono(1, Shr(n, d), Pow2(d)); }
  }

  /** Incrementing carries into level `l` exactly when every lower bit was set. */
  lemma {:induction false} ShrSucc(n: nat, l: nat)
    ensures Shr(n + 1, l) == Shr(n, l) || Shr(n + 1, l) == Shr(n, l) + 1
    ensures Shr(n + 1, l) == Shr(n, l) + 1 ==> (n + 1) == Shr(n + 1, l) * Pow2(l)
  {
    if l > 0 {
      ShrSucc(n, l - 1);
      if Shr(n + 1, l) == Shr(n, l) + 1 {
        assert Shr(n + 1, l - 1) == 2 * Shr(n + 1, l);
        assert Shr(n + 1, l - 1) * Pow2(l - 1) == Shr(n + 1, l) * Pow2(l);
      }
    }
  }

  // ----- which leaves a node depends on -----

  /** A subtree starting past the last leaf is all zeros. */
  lemma {:induction false} EmptyNode(h: Hash2, ls: seq<Fe>, l: nat, k: nat)
    requires |ls| <= k * Pow2(l)
    ensures Node(h, ls, l, k) == ZeroHash(h, l)
  {
    if l > 0 {
      var p := Pow2(l - 1);
      assert (2 * k) * p == k * Pow2(l);
      assert (2 * k + 1) * p == (2 * k) * p + p;
      EmptyNode(h, ls, l - 1, 2 * k);
      EmptyNode(h, ls, l - 1, 2 * k + 1);
    }
  }

  /** Appending a leaf leaves every subtree that ends before it unchanged. */
  lemma {:induction false} CompleteNode(h: Hash2, ls: seq<Fe>, c: Fe, l: nat, k: nat)
    requires (k + 1) * Pow2(l) <= |ls|
    ensures Node(h, ls + [c], l, k) == Node(h, ls, l, k)
  {
    if l > 0 {
      var p := Pow2(l - 1);
      assert (2 * k + 2) * p == (k + 1) * Pow2(l);
      assert (2 * k + 1) * p == (2 * k + 2) * p - p;
      CompleteNode(h, ls, c, l - 1, 2 * k);
      CompleteNode(h, ls, c, l - 1, 2 * k + 1);
    }
  }

  // ----- the frontier walk -----

  /** What the walk holds when it reaches level `l`, inserting `c` at `index` with the
      stored left siblings `fr`. */
  function Cursor(h: Hash2, fr: nat -> Fe, index: nat, c: Fe, l: nat): Fe
  {
    if l == 0 then c
    else if Shr(index, l - 1) % 2 == 0 then h(Cursor(h, fr, index, c, l - 1), ZeroHash(h, l - 1))
    else h(fr(l - 1), Cursor(h, fr, index, c, l - 1))
  }

  /** The entries of a frontier that mean something after `ls`: at each level whose bit
      is set in the next index, the completed left sibling.  Entries at the other
      levels may hold partial subtrees and are never read before being overwritten. */
  ghost predicate FrontierOk(h: Hash2, fr: nat -> Fe, ls: seq<Fe>, d: nat)
  {
    forall l: nat | l < d && Shr(|ls|, l) % 2 == 1 :: fr(l) == Node(h, ls, l, Shr(|ls|, l) - 1)
  }

  /** `after` is the frontier left by a walk: levels where the index bit is clear were
      overwritten with the cursor, the others were only read. */
  ghost predicate WalkedFrontier(h: Hash2, before: nat -> Fe, after: nat -> Fe, index: nat, c: Fe, d: nat)
  {
    forall l: nat | l < d ::
      after(l) == if Shr(index, l) % 2 == 0 then Cursor(h, before, index, c, l) else before(l)
  }

  /** The sibling of the path node at level `l`: empty on the right, complete on the left. */
  lemma SiblingNode(h: Hash2, ls: seq<Fe>, c: Fe, l: nat)
    ensures Shr(|ls|, l) % 2 == 0 ==> Node(h, ls + [c], l, Shr(|ls|, l) + 1) == ZeroHash(h, l)
    ensures Shr(|ls|, l) % 2 == 1 ==>
              Node(h, ls + [c], l, Shr(|ls|, l) - 1) == Node(h, ls, l, Shr(|ls|, l) - 1)
  {
    ShrBounds(|ls|, l);
    if Shr(|ls|, l) % 2 == 0 {
      EmptyNode(h, ls + [c], l, Shr(|ls|, l) + 1);
    } else {
      CompleteNode(h, ls, c, l, Shr(|ls|, l) - 1);
    }
  }

  /** Hashing the path node with its sibling gives the path node one level up. */
  lemma ParentNode(h: Hash2, ls: seq<Fe>, c: Fe, l: nat, cur: Fe, left: Fe)
    requires cur == Node(h, ls + [c], l, Shr(|ls|, l))
    requires Shr(|ls|, l) % 2 == 1 ==> left == Node(h, ls, l, Shr(|ls|, l) - 1)
    ensures Shr(|ls|, l) % 2 == 0 ==> h(cur, ZeroHash(h, l)) == Node(h, ls + [c], l + 1, Shr(|ls|, l + 1))
    ensures Shr(|ls|, l) % 2 == 1 ==> h(left, cur) == Node(h, ls + [c], l + 1, Shr(|ls|, l + 1))
  {
    hide Pow2, ZeroHash;
    SiblingNode(h, ls, c, l);
    var idx, k := Shr(|ls|, l), Shr(|ls|, l + 1);
    assert k == idx / 2;
    assert Node(h, ls + [c], l + 1, k) == h(Node(h, ls + [c], l, 2 * k), Node(h, ls + [c], l, 2 * k + 1));
  }

  /** At every level the walk holds the node of the enlarged tree above the new leaf. */
  lemma {:induction false} CursorIsNode(h: Hash2, fr: nat -> Fe, ls: seq<Fe>, c: Fe, d: nat, l: nat)
    requires FrontierOk(h, fr, ls, d)
    requires l <= d
    ensures Cursor(h, fr, |ls|, c, l) == Node(h, ls + [c], l, Shr(|ls|, l))
  {
    if l > 0 {
      hide Pow2, ZeroHash, Node, Shr;
      CursorIsNode(h, fr, ls, c, d, l - 1);
      ParentNode(h, ls, c, l - 1, Cursor(h, fr, |ls|, c, l - 1), fr(l - 1));
    }
  }

  /** The walk's result is the padded root of the enlarged leaf list. */
  lemma WalkComputesRoot(h: Hash2, fr: nat -> Fe, ls: seq<Fe>, c: Fe, d: nat)
    requires FrontierOk(h, fr, ls, d)
    requires |ls| < Pow2(d)
    ensures Cursor(h, fr, |ls|, c, d) == PaddedRoot(h, ls + [c], d)
  {
    CursorIsNode(h, fr, ls, c, d, d);
    ShrTop(|ls|, d);
  }

  /** The entry of one level after the walk: a set bit of the new index was either just
      carried into, so the cursor completed there, or was set before and is kept. */
  lemma LevelAfterWalk(h: Hash2, ls: seq<Fe>, c: Fe, l: nat, cur: Fe, left: Fe)
    requires cur == Node(h, ls + [c], l, Shr(|ls|, l))
    requires Shr(|ls|, l) % 2 == 1 ==> left == Node(h, ls, l, Shr(|ls|, l) - 1)
    requires Shr(|ls| + 1, l) % 2 == 1
    ensures (if Shr(|ls|, l) % 2 == 0 then cur else left) == Node(h, ls + [c], l, Shr(|ls| + 1, l) - 1)
  {
    hide Node, Shr, Pow2;
    ShrSucc(|ls|, l);
    if Shr(|ls| + 1, l) == Shr(|ls|, l) {
      ShrBounds(|ls|, l);
      CompleteNode(h, ls, c, l, Shr(|ls|, l) - 1);
    }
  }

  /** The frontier a walk leaves behind is right for the enlarged leaf list. */
  lemma WalkKeepsFrontier(h: Hash2, before: nat -> Fe, after: nat -> Fe, ls: seq<Fe>, c: Fe, d: nat)
    requires FrontierOk(h, before, ls, d)
    requires WalkedFrontier(h, before, after, |ls|, c, d)
    ensures FrontierOk(h, after, ls + [c], d)
  {
    hide Node, Cursor, Shr;
    var n := |ls|;
    forall l: nat | l < d && Shr(|ls + [c]|, l) % 2 == 1
      ensures after(l) == Node(h, ls + [c], l, Shr(|ls + [c]|, l) - 1)
    {
      CursorIsNode(h, before, ls, c, d, l);
      LevelAfterWalk(h, ls, c, l, Cursor(h, before, n, c, l), before(l));
    }
  }

  /** With no leaves every frontier is right and the root is the zero root. */
  lemma EmptyTree(h: Hash2, fr: nat -> Fe, d: nat)
    ensures FrontierOk(h, fr, [], d)
    ensures PaddedRoot(h, [], d) == ZeroHash(h, d)
  {
    EmptyNode(h, [], d, 0);
    forall l: nat | l < d ensures Shr(0, l) == 0 { ShrZero(l); }
  }

  lemma {:induction false} ShrZero(l: nat)
    ensures Shr(0, l) == 0
  {
    if l > 0 { ShrZero(l - 1); }
  }

  // ----- Merkle openings -----

  /** The value an opening path reaches at level `l`, starting from `leaf` at `index`. */
  function Climb(h: Hash2, leaf: Fe, index: nat, path: seq<Fe>, l: nat): Fe
    requires l <= |path|
  {
    if l == 0 then leaf
    else if Shr(index, l - 1) % 2 == 0 then h(Climb(h, leaf, index, path, l - 1), path[l - 1])
    else h(path[l - 1], Climb(h, leaf, index, path, l - 1))
  }

  /** The pairs anyone has hashed.  Collision resistance is only ever used on such a set:
      no two-to-one function on a finite field is injective everywhere. */
  type Asked = (Fe, Fe) -> bool

  ghost predicate OnlyPreimage(h: Hash2, q: Asked, a: Fe, b: Fe)
  {
    h(a, b) != 0 && forall c, d :: q(c, d) && h(c, d) == h(a, b) ==> c == a && d == b
  }

  /** No two asked pairs share a hash, and none hashes to zero. */
  ghost predicate CollisionFree(h: Hash2, q: Asked)
  {
    forall a, b {:trigger OnlyPreimage(h, q, a, b)} :: q(a, b) ==> OnlyPreimage(h, q, a, b)
  }

  lemma AskedPairsAgree(h: Hash2, q: Asked, a: Fe, b: Fe, c: Fe, d: Fe)
    requires CollisionFree(h, q) && q(a, b) && q(c, d) && h(a, b) == h(c, d)
    ensures a == c && b == d && h(a, b) != 0
  {
    assert OnlyPreimage(h, q, a, b);
  }

  ghost predicate NodeAsked(h: Hash2, q: Asked, ls: seq<Fe>, l: nat, k: nat)
  {
    q(Node(h, ls, l, 2 * k), Node(h, ls, l, 2 * k + 1))
  }

  /** Every inner node of the padded tree over `ls` was computed by hashing an asked pair. */
  ghost predicate TreeAsked(h: Hash2, q: Asked, ls: seq<Fe>, d: nat)
  {
    forall l: nat, k: nat | l < d :: NodeAsked(h, q, ls, l, k)
  }

  ghost predicate StepAsked(h: Hash2, q: Asked, leaf: Fe, index: nat, path: seq<Fe>, l: nat)
    requires l < |path|
  {
    if Shr(index, l) % 2 == 0 then q(Climb(h, leaf, index, path, l), path[l])
    else q(path[l], Climb(h, leaf, index, path, l))
  }

  ghost predicate PathAsked(h: Hash2, q: Asked, leaf: Fe, index: nat, path: seq<Fe>)
  {
    forall l: nat | l < |path| :: StepAsked(h, q, leaf, index, path, l)
  }

  /** Equal hashes of asked pairs have equal components, so an opening that agrees with a
      tree at one level agrees with it at the level below. */
  lemma ClimbDown(h: Hash2, q: Asked, ls: seq<Fe>, leaf: Fe, index: nat, path: seq<Fe>, l: nat)
    requires CollisionFree(h, q)
    requires l < |path| && StepAsked(h, q, leaf, index, path, l)
    requires NodeAsked(h, q, ls, l, Shr(index, l + 1))
    requires Climb(h, leaf, index, path, l + 1) == Node(h, ls, l + 1, Shr(index, l + 1))
    ensures Climb(h, leaf, index, path, l) == Node(h, ls, l, Shr(index, l))
  {
    var k, cur := Shr(index, l + 1), Climb(h, leaf, index, path, l);
    var left, right := Node(h, ls, l, 2 * k), Node(h, ls, l, 2 * k + 1);
    assert k == Shr(index, l) / 2;
    assert Node(h, ls, l + 1, k) == h(left, right);
    if Shr(index, l) % 2 == 0 {
      AskedPairsAgree(h, q, cur, path[l], left, right);
    } else {
      AskedPairsAgree(h, q, path[l], cur, left, right);
    }
  }

  /** Binding: an opening that reaches the node of a padded tree opens that tree's own leaf. */
  lemma {:induction false} OpeningBinds(h: Hash2, q: Asked, ls: seq<Fe>, leaf: Fe, index: nat, path: seq<Fe>, l: nat)
    requires CollisionFree(h, q) && PathAsked(h, q, leaf, index, path)
    requires l <= |path| && TreeAsked(h, q, ls, |path|)
    requires Climb(h, leaf, index, path, l) == Node(h, ls, l, Shr(index, l))
    ensures leaf == if index < |ls| then ls[index] else 0
  {
    if l > 0 {
      assert StepAsked(h, q, leaf, index, path, l - 1);
      assert NodeAsked(h, q, ls, l - 1, Shr(index, l));
      ClimbDown(h, q, ls, leaf, index, path, l - 1);
      OpeningBinds(h, q, ls, leaf, index, path, l - 1);
    }
  }

  /** An opening of the zero root of any height can only open a zero-subtree root. */
  lemma {:induction false} ZeroOpening(h: Hash2, q: Asked, leaf: Fe, index: nat, path: seq<Fe>, l: nat, m: nat)
    requires CollisionFree(h, q) && PathAsked(h, q, leaf, index, path)
    requires l <= |path|
    requires forall i: nat | i < m :: q(ZeroHash(h, i), ZeroHash(h, i))
    requires Climb(h, leaf, index, path, l) == ZeroHash(h, m)
    ensures l <= m && leaf == ZeroHash(h, m - l)
  {
    if l > 0 {
      assert StepAsked(h, q, leaf, index, path, l - 1);
      var cur, z := Climb(h, leaf, index, path, l - 1), path[l - 1];
      var (a, b) := if Shr(index, l - 1) % 2 == 0 then (cur, z) else (z, cur);
      assert OnlyPreimage(h, q, a, b);
      if m > 0 {
        assert q(ZeroHash(h, m - 1), ZeroHash(h, m - 1));
        AskedPairsAgree(h, q, a, b, ZeroHash(h, m - 1), ZeroHash(h, m - 1));
        ZeroOpening(h, q, leaf, index, path, l - 1, m - 1);
      }
    }
  }
}
