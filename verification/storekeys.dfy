/** Store keys: how the keeper's typed regions share one flat byte store.

    `StoreKey` names an entry of a region; `Encode` is its byte key.  Decoding inverts
    encoding, so no two entries collide, and the flat store is the typed one in disguise. */
module StoreKeys {
  import opened Field

  datatype StoreKey =
    | Commitment(treeId: Uint64, index: Uint64)
    | Frontier(treeId: Uint64, level: Uint32)
    | RootHistory(treeId: Uint64, slot: Uint64)
    | TreeRoot(treeId: Uint64)
    | RootIndex(root: Fe)
    | TreeNextIndex(treeId: Uint64)
    | ActiveTreeId
    | TreeCount
    | RegCommitment(index: Uint64)
    | RegFrontier(level: Uint32)
    | RegRoot
    | RegNextIndex
    | CommitmentUsed(commitment: Fe)
    | RegCommitmentUsed(commitment: Fe)
    | Nullifier(nullifier: Fe)
    | Params
    | VK(circuit: Bytes)
    | AuditorData(txHash: Bytes)

  datatype Region =
    | Commitments | Frontiers | RootHistories | TreeRoots | RootIndices | TreeNextIndices | ActiveTreeIds | TreeCounts
    | RegCommitments | RegFrontiers | RegRoots | RegNextIndices | CommitmentsUsed | RegCommitmentsUsed
    | Nullifiers | ParamsRegion | VKs | AuditorDatas

  /** "nixpool/" */
  const MODULE_PREFIX: Bytes := [110, 105, 120, 112, 111, 111, 108, 47]

  /** What follows the module name in a region's prefix, in ASCII. */
  function Tail(r: Region): (b: Bytes)
    ensures 2 <= |b| <= 9
  {
    match r
    case Commitments => [99, 47]
    case Frontiers => [102, 47]
    case RootHistories => [114, 104, 47]
    case TreeRoots => [116, 114, 47]
    case RootIndices => [114, 105, 47]
    case TreeNextIndices => [116, 105, 47]
    case ActiveTreeIds => [97, 116, 105, 100]
    case TreeCounts => [116, 99]
    case RegCommitments => [114, 101, 103, 47, 99, 47]
    case RegFrontiers => [114, 101, 103, 47, 102, 47]
    case RegRoots => [114, 101, 103, 47, 114, 111, 111, 116]
    case RegNextIndices => [114, 101, 103, 47, 110, 105]
    case CommitmentsUsed => [117, 115, 101, 100, 47]
    case RegCommitmentsUsed => [114, 101, 103, 47, 117, 115, 101, 100, 47]
    case Nullifiers => [110, 47]
    case ParamsRegion => [112, 97, 114, 97, 109, 115]
    case VKs => [118, 107, 47]
    case AuditorDatas => [97, 100, 47]
  }

  function Prefix(r: Region): (b: Bytes)
    ensures 10 <= |b| <= 17
  {
    MODULE_PREFIX + Tail(r)
  }

  function RegionOf(k: StoreKey): Region {
    match k
    case Commitment(_, _) => Commitments
    case Frontier(_, _) => Frontiers
    case RootHistory(_, _) => RootHistories
    case TreeRoot(_) => TreeRoots
    case RootIndex(_) => RootIndices
    case TreeNextIndex(_) => TreeNextIndices
    case ActiveTreeId => ActiveTreeIds
    case TreeCount => TreeCounts
    case RegCommitment(_) => RegCommitments
    case RegFrontier(_) => RegFrontiers
    case RegRoot => RegRoots
    case RegNextIndex => RegNextIndices
    case CommitmentUsed(_) => CommitmentsUsed
    case RegCommitmentUsed(_) => RegCommitmentsUsed
    case Nullifier(_) => Nullifiers
    case Params => ParamsRegion
    case VK(_) => VKs
    case AuditorData(_) => AuditorDatas
  }

  /** What follows the prefix: fixed-width integers, a canonical element, or raw bytes. */
  function Suffix(k: StoreKey): Bytes {
    match k
    case Commitment(t, i) => ToBe(t, 8) + ToBe(i, 8)
    case Frontier(t, l) => ToBe(t, 8) + ToBe(l, 4)
    case RootHistory(t, i) => ToBe(t, 8) + ToBe(i, 8)
    case TreeRoot(t) => ToBe(t, 8)
    case RootIndex(x) => FeBytes(x)
    case TreeNextIndex(t) => ToBe(t, 8)
    case RegCommitment(i) => ToBe(i, 8)
    case RegFrontier(l) => ToBe(l, 4)
    case CommitmentUsed(x) => FeBytes(x)
    case RegCommitmentUsed(x) => FeBytes(x)
    case Nullifier(x) => FeBytes(x)
    case VK(name) => name
    case AuditorData(txHash) => txHash
    case _ => []
  }

  function Encode(k: StoreKey): Bytes {
    Prefix(RegionOf(k)) + Suffix(k)
  }

  // ===== decoding =====

  /** The region a key belongs to, read off the one to three characters that tell the
      prefixes apart. */
  function RegionAt(b: Bytes): Region
    requires |b| >= 10
  {
    match b[8]
    case 99 => Commitments
    case 102 => Frontiers
    case 110 => Nullifiers
    case 112 => ParamsRegion
    case 117 => CommitmentsUsed
    case 118 => VKs
    case 97 => if b[9] == 116 then ActiveTreeIds else AuditorDatas
    case 116 => if b[9] == 114 then TreeRoots else if b[9] == 105 then TreeNextIndices else TreeCounts
    case _ =>
      if b[9] == 104 then RootHistories
      else if b[9] == 105 then RootIndices
      else if |b| < 13 then RegNextIndices
      else if b[12] == 99 then RegCommitments
      else if b[12] == 102 then RegFrontiers
      else if b[12] == 114 then RegRoots
      else if b[12] == 117 then RegCommitmentsUsed
      else RegNextIndices
  }

  function KeyIn(r: Region, s: Bytes): Option<StoreKey> {
    match r
    case Commitments => if |s| == 16 then Some(Commitment(U64At(s[..8]), U64At(s[8..]))) else None
    case Frontiers => if |s| == 12 then Some(Frontier(U64At(s[..8]), U32At(s[8..]))) else None
    case RootHistories => if |s| == 16 then Some(RootHistory(U64At(s[..8]), U64At(s[8..]))) else None
    case TreeRoots => if |s| == 8 then Some(TreeRoot(U64At(s))) else None
    case RootIndices => if ValidFieldBytes(s) then Some(RootIndex(SetBytes(s))) else None
    case TreeNextIndices => if |s| == 8 then Some(TreeNextIndex(U64At(s))) else None
    case ActiveTreeIds => if |s| == 0 then Some(ActiveTreeId) else None
    case TreeCounts => if |s| == 0 then Some(TreeCount) else None
    case RegCommitments => if |s| == 8 then Some(RegCommitment(U64At(s))) else None
    case RegFrontiers => if |s| == 4 then Some(RegFrontier(U32At(s))) else None
    case RegRoots => if |s| == 0 then Some(RegRoot) else None
    case RegNextIndices => if |s| == 0 then Some(RegNextIndex) else None
    case CommitmentsUsed => if ValidFieldBytes(s) then Some(CommitmentUsed(SetBytes(s))) else None
    case RegCommitmentsUsed => if ValidFieldBytes(s) then Some(RegCommitmentUsed(SetBytes(s))) else None
    case Nullifiers => if ValidFieldBytes(s) then Some(Nullifier(SetBytes(s))) else None
    case ParamsRegion => if |s| == 0 then Some(Params) else None
    case VKs => Some(VK(s))
    case AuditorDatas => Some(AuditorData(s))
  }

  function U64At(b: Bytes): Uint64 { BeValue(b) % U64 }

  function U32At(b: Bytes): Uint32 { BeValue(b) % U32 }

  /** The entry a byte key denotes, if any. */
  function Decode(b: Bytes): Option<StoreKey> {
    if |b| < 10 || !(Prefix(RegionAt(b)) <= b) then None
    else KeyIn(RegionAt(b), b[|Prefix(RegionAt(b))|..])
  }

  /** The prefixes are told apart by their own bytes, whatever follows: none is a prefix of
      another. */
  lemma PrefixDecides(r: Region, b: Bytes)
    requires Prefix(r) <= b
    ensures |b| >= 10 && RegionAt(b) == r
  {
    var p := Prefix(r);
    assert b[8] == p[8] == Tail(r)[0] && b[9] == p[9] == Tail(r)[1];
    if |p| > 12 { assert b[12] == p[12] == Tail(r)[4]; }
  }

  lemma IntegerSuffix(v: nat, n: nat)
    requires n == 8 ==> v < U64
    requires n == 4 ==> v < U32
    requires n == 8 || n == 4
    ensures n == 8 ==> U64At(ToBe(v, n)) == v
    ensures n == 4 ==> U32At(ToBe(v, n)) == v
  {
    PowersOf256();
    BeValueToBe(v, n);
  }

  lemma SuffixRoundTrip(k: StoreKey)
    ensures KeyIn(RegionOf(k), Suffix(k)) == Some(k)
  {
    hide BeValue, ToBe, U64At, U32At, FeBytes, SetBytes, ValidFieldBytes;
    match k
    case Commitment(t, i) =>
      IntegerSuffix(t, 8);
      IntegerSuffix(i, 8);
      assert Suffix(k)[..8] == ToBe(t, 8) && Suffix(k)[8..] == ToBe(i, 8);
    case RootHistory(t, i) =>
      IntegerSuffix(t, 8);
      IntegerSuffix(i, 8);
      assert Suffix(k)[..8] == ToBe(t, 8) && Suffix(k)[8..] == ToBe(i, 8);
    case Frontier(t, l) =>
      IntegerSuffix(t, 8);
      IntegerSuffix(l, 4);
      assert Suffix(k)[..8] == ToBe(t, 8) && Suffix(k)[8..] == ToBe(l, 4);
    case TreeRoot(t) => IntegerSuffix(t, 8);
    case TreeNextIndex(t) => IntegerSuffix(t, 8);
    case RegCommitment(i) => IntegerSuffix(i, 8);
    case RegFrontier(l) => IntegerSuffix(l, 4);
    case RootIndex(x) => CanonicalSuffix(x);
    case CommitmentUsed(x) => CanonicalSuffix(x);
    case RegCommitmentUsed(x) => CanonicalSuffix(x);
    case Nullifier(x) => CanonicalSuffix(x);
    case _ =>
  }

  lemma CanonicalSuffix(x: Fe)
    ensures ValidFieldBytes(FeBytes(x)) && SetBytes(FeBytes(x)) == x
  {
    SetBytesFeBytes(x);
    ValidIffCanonical(FeBytes(x));
  }

  /** Every key constructor is injective and no two ranges meet: a byte key has one reading. */
  lemma DecodeEncode(k: StoreKey)
    ensures Decode(Encode(k)) == Some(k)
  {
    hide KeyIn, Suffix, Tail, RegionAt;
    var p := Prefix(RegionOf(k));
    PrefixDecides(RegionOf(k), Encode(k));
    SuffixRoundTrip(k);
    assert Encode(k)[|p|..] == Suffix(k);
  }

  lemma EncodeInjective(j: StoreKey, k: StoreKey)
    requires Encode(j) == Encode(k)
    ensures j == k
  {
    DecodeEncode(j);
    DecodeEncode(k);
  }

  // ===== the keys as the source builds them =====

  method PutBigEndian(a: array<Byte>, offset: nat, v: nat, n: nat)
    requires offset + n <= a.Length
    modifies a
    ensures a[offset..offset + n] == ToBe(v, n)
    ensures forall i | 0 <= i < a.Length && !(offset <= i < offset + n) :: a[i] == old(a[i])
  {
    var i, rest := n, v;
    while i > 0
      invariant 0 <= i <= n
      invariant ToBe(v, n) == ToBe(rest, i) + a[offset + i..offset + n]
      invariant forall j | 0 <= j < a.Length && !(offset + i <= j < offset + n) :: a[j] == old(a[j])
    {
      i := i - 1;
      ghost var tail := a[offset + i + 1..offset + n];
      a[offset + i] := rest % 256;
      assert a[offset + i..offset + n] == [rest % 256] + tail;
      rest := rest / 256;
    }
  }

  method CopyInto(a: array<Byte>, offset: nat, b: Bytes)
    requires offset + |b| <= a.Length
    modifies a
    ensures a[offset..offset + |b|] == b
    ensures forall i | 0 <= i < a.Length && !(offset <= i < offset + |b|) :: a[i] == old(a[i])
  {
    for i := 0 to |b|
      invariant a[offset..offset + i] == b[..i]
      invariant forall j | 0 <= j < a.Length && !(offset <= j < offset + i) :: a[j] == old(a[j])
    {
      a[offset + i] := b[i];
    }
  }

  lemma ThreeParts(b: Bytes, p: nat, n: nat, m: nat)
    requires |b| == p + n + m
    ensures b == b[0..p] + (b[p..p + n] + b[p + n..p + n + m])
  {
  }

  /** A fresh buffer holding a prefix and two integers, `n` and `m` bytes wide. */
  method PairKey(r: Region, t: nat, n: nat, i: nat, m: nat) returns (key: array<Byte>)
    ensures fresh(key) && key[..] == Prefix(r) + (ToBe(t, n) + ToBe(i, m))
  {
    hide Tail, ToBe;
    var p := Prefix(r);
    var len := |p|;
    key := new Byte[len + n + m](_ => 0);
    CopyInto(key, 0, p);
    PutBigEndian(key, len, t, n);
    assert key[0..len] == p;
    PutBigEndian(key, len + n, i, m);
    assert key[0..len] == p;
    assert key[len..len + n] == ToBe(t, n);
    ThreeParts(key[..], len, n, m);
  }

  method AppendBytes(r: Region, suffix: Bytes) returns (key: array<Byte>)
    ensures fresh(key) && key[..] == Prefix(r) + suffix
  {
    var p := Prefix(r);
    key := new Byte[|p| + |suffix|](_ => 0);
    CopyInto(key, 0, p);
    CopyInto(key, |p|, suffix);
    assert key[..] == key[0..|p|] + key[|p|..|p| + |suffix|];
  }

  method CommitmentKey(t: Uint64, i: Uint64) returns (key: array<Byte>)
    ensures fresh(key) && key[..] == Encode(Commitment(t, i))
  {
    hide Prefix;
    key := PairKey(Commitments, t, 8, i, 8);
  }

  method FrontierKey(t: Uint64, l: Uint32) returns (key: array<Byte>)
    ensures fresh(key) && key[..] == Encode(Frontier(t, l))
  {
    hide Prefix;
    key := PairKey(Frontiers, t, 8, l, 4);
  }

  method RootHistoryKey(t: Uint64, slot: Uint64) returns (key: array<Byte>)
    ensures fresh(key) && key[..] == Encode(RootHistory(t, slot))
  {
    hide Prefix;
    key := PairKey(RootHistories, t, 8, slot, 8);
  }

  /** The nullifier key of any encoding is the key of the element it denotes. */
  method NullifierKey(hash: Bytes) returns (key: array<Byte>)
    ensures fresh(key) && key[..] == Encode(Nullifier(SetBytes(hash)))
  {
    hide Prefix;
    key := AppendBytes(Nullifiers, CanonicalFieldBytes(hash));
  }

  method RootIndexKey(root: Bytes) returns (key: array<Byte>)
    ensures fresh(key) && key[..] == Encode(RootIndex(SetBytes(root)))
  {
    hide Prefix;
    key := AppendBytes(RootIndices, CanonicalFieldBytes(root));
  }

  // ===== the flat store =====

  type Typed = map<StoreKey, Bytes>
  type Flat = map<Bytes, Bytes>

  /** `flat` is the byte store of the typed regions `m`. */
  ghost predicate Stores(flat: Flat, m: Typed) {
    && (forall k :: k in m ==> Encode(k) in flat && flat[Encode(k)] == m[k])
    && (forall b :: b in flat ==> Decode(b).Some? && Decode(b).value in m && Encode(Decode(b).value) == b)
  }

  lemma FlatReads(flat: Flat, m: Typed, k: StoreKey)
    requires Stores(flat, m)
    ensures Encode(k) in flat <==> k in m
    ensures k in m ==> flat[Encode(k)] == m[k]
  {
    hide Encode, Decode;
    DecodeEncode(k);
  }

  lemma FlatWrites(flat: Flat, m: Typed, k: StoreKey, v: Bytes)
    requires Stores(flat, m)
    ensures Stores(flat[Encode(k) := v], m[k := v])
  {
    hide Encode, Decode;
    DecodeEncode(k);
    forall j | j in m[k := v]
      ensures Encode(j) in flat[Encode(k) := v] && flat[Encode(k) := v][Encode(j)] == m[k := v][j]
    {
      if Encode(j) == Encode(k) { EncodeInjective(j, k); }
    }
  }

  lemma FlatDeletes(flat: Flat, m: Typed, k: StoreKey)
    requires Stores(flat, m)
    ensures Stores(flat - {Encode(k)}, m - {k})
  {
    hide Encode, Decode;
    DecodeEncode(k);
    forall j | j in m - {k}
      ensures Encode(j) in flat - {Encode(k)} && (flat - {Encode(k)})[Encode(j)] == (m - {k})[j]
    {
      if Encode(j) == Encode(k) { EncodeInjective(j, k); }
    }
  }

  // ===== prefix iteration =====

  /** Byte-wise lexicographic order, strictly before. */
  predicate Before(a: Bytes, b: Bytes) {
    if |b| == 0 then false
    else if |a| == 0 then true
    else a[0] < b[0] || (a[0] == b[0] && Before(a[1..], b[1..]))
  }

  /** The first key after all keys with prefix `p`, for a prefix not ending in 0xFF. */
  function PrefixEnd(p: Bytes): Bytes
    requires |p| > 0 && p[|p| - 1] < 255
  {
    p[..|p| - 1] + [p[|p| - 1] + 1]
  }

  /** The key range an iterator walks is exactly the keys with that prefix. */
  lemma {:induction false} RangeIsPrefix(p: Bytes, b: Bytes)
    requires |p| > 0 && p[|p| - 1] < 255
    ensures !Before(b, p) && Before(b, PrefixEnd(p)) <==> p <= b
  {
    var e := PrefixEnd(p);
    if |b| > 0 {
      if |p| == 1 {
        assert e[1..] == [] && p[1..] == [];
      } else if b[0] == p[0] {
        assert e[1..] == PrefixEnd(p[1..]) && e[0] == p[0];
        RangeIsPrefix(p[1..], b[1..]);
        assert p <= b <==> p[1..] <= b[1..] by {
          assert p == [p[0]] + p[1..] && b == [b[0]] + b[1..];
        }
      } else {
        assert e[0] == p[0];
      }
    }
  }

  /** Iterating a region's prefix visits exactly that region's entries. */
  lemma IterationIsRegion(flat: Flat, m: Typed, r: Region, b: Bytes)
    requires Stores(flat, m)
    ensures var p := Prefix(r);
            |p| > 0 && p[|p| - 1] < 255 &&
            ((b in flat && !Before(b, p) && Before(b, PrefixEnd(p)))
             <==> exists k :: k in m && RegionOf(k) == r && Encode(k) == b)
  {
    hide RegionAt, KeyIn, Suffix, PrefixEnd, Before, Decode, RegionOf, Stores, Prefix;
    PrefixIsAscii(r);
    RangeIsPrefix(Prefix(r), b);
    if b in flat && Prefix(r) <= b { StoredUnderPrefix(flat, m, r, b); }
    forall k | k in m && RegionOf(k) == r && Encode(k) == b ensures b in flat && Prefix(r) <= b {
      FlatReads(flat, m, k);
    }
  }

  lemma PrefixIsAscii(r: Region)
    ensures Prefix(r)[|Prefix(r)| - 1] < 128
  {
    var p := Prefix(r);
    assert p[|p| - 1] == Tail(r)[|Tail(r)| - 1];
  }

  lemma StoredUnderPrefix(flat: Flat, m: Typed, r: Region, b: Bytes)
    requires Stores(flat, m) && b in flat && Prefix(r) <= b
    ensures exists k :: k in m && RegionOf(k) == r && Encode(k) == b
  {
    hide Tail, RegionAt, KeyIn, Suffix, Decode, RegionOf, Prefix;
    var k := Decode(b).value;
    PrefixDecides(RegionOf(k), Encode(k));
    PrefixDecides(r, b);
    assert k in m && RegionOf(k) == r && Encode(k) == b;
  }

  // ===== order =====

  /** Fixed-width big-endian numbers sort as numbers, then by what follows. */
  lemma {:induction false} BigEndianOrder(v: nat, w: nat, n: nat, x: Bytes, y: Bytes)
    requires v < Pow256(n) && w < Pow256(n)
    ensures Before(ToBe(v, n) + x, ToBe(w, n) + y) <==> v < w || (v == w && Before(x, y))
    decreases n
  {
    if n == 0 {
      assert ToBe(v, 0) + x == x && ToBe(w, 0) + y == y;
    } else {
      var a, b := [v % 256] + x, [w % 256] + y;
      assert ToBe(v, n) + x == ToBe(v / 256, n - 1) + a && ToBe(w, n) + y == ToBe(w / 256, n - 1) + b;
      BigEndianOrder(v / 256, w / 256, n - 1, a, b);
      assert a[1..] == x && b[1..] == y;
    }
  }

  lemma {:induction false} CommonPrefix(p: Bytes, x: Bytes, y: Bytes)
    ensures Before(p + x, p + y) <==> Before(x, y)
  {
    if |p| > 0 {
      assert (p + x)[1..] == p[1..] + x && (p + y)[1..] == p[1..] + y;
      CommonPrefix(p[1..], x, y);
    } else {
      assert p + x == x && p + y == y;
    }
  }

  lemma PairOrder(p: Bytes, t: Uint64, i: Uint64, u: Uint64, j: Uint64)
    ensures Before(p + (ToBe(t, 8) + ToBe(i, 8)), p + (ToBe(u, 8) + ToBe(j, 8))) <==> t < u || (t == u && i < j)
  {
    hide ToBe, Before, Pow256;
    PowersOf256();
    CommonPrefix(p, ToBe(t, 8) + ToBe(i, 8), ToBe(u, 8) + ToBe(j, 8));
    BigEndianOrder(t, u, 8, ToBe(i, 8), ToBe(j, 8));
    assert ToBe(i, 8) + [] == ToBe(i, 8) && ToBe(j, 8) + [] == ToBe(j, 8);
    BigEndianOrder(i, j, 8, [], []);
    NothingBefore();
  }

  lemma NothingBefore()
    ensures !Before([], [])
  {
  }

  /** Leaves, and ring slots, sort by tree and then by position, so an iterator meets the
      leaves of a tree in the order they were inserted. */
  lemma KeysInOrder(t: Uint64, i: Uint64, u: Uint64, j: Uint64)
    ensures Before(Encode(Commitment(t, i)), Encode(Commitment(u, j))) <==> t < u || (t == u && i < j)
    ensures Before(Encode(RootHistory(t, i)), Encode(RootHistory(u, j))) <==> t < u || (t == u && i < j)
  {
    hide ToBe, Before, Tail;
    PairOrder(Prefix(Commitments), t, i, u, j);
    PairOrder(Prefix(RootHistories), t, i, u, j);
  }

  /** So do frontier nodes, by tree and then by level. */
  lemma FrontierInOrder(t: Uint64, l: Uint32, u: Uint64, m: Uint32)
    ensures Before(Encode(Frontier(t, l)), Encode(Frontier(u, m))) <==> t < u || (t == u && l < m)
  {
    hide ToBe, Before, Tail, Pow256;
    PowersOf256();
    var p := Prefix(Frontiers);
    CommonPrefix(p, ToBe(t, 8) + ToBe(l, 4), ToBe(u, 8) + ToBe(m, 4));
    BigEndianOrder(t, u, 8, ToBe(l, 4), ToBe(m, 4));
    assert ToBe(l, 4) + [] == ToBe(l, 4) && ToBe(m, 4) + [] == ToBe(m, 4);
    BigEndianOrder(l, m, 4, [], []);
    NothingBefore();
  }

  // ===== the prefixes as text =====

  /** What follows `nixpool/` in a prefix. */
  function Text(r: Region): string {
    match r
    case Commitments => "c/"
    case Frontiers => "f/"
    case RootHistories => "rh/"
    case TreeRoots => "tr/"
    case RootIndices => "ri/"
    case TreeNextIndices => "ti/"
    case ActiveTreeIds => "atid"
    case TreeCounts => "tc"
    case RegCommitments => "reg/c/"
    case RegFrontiers => "reg/f/"
    case RegRoots => "reg/root"
    case RegNextIndices => "reg/ni"
    case CommitmentsUsed => "used/"
    case RegCommitmentsUsed => "reg/used/"
    case Nullifiers => "n/"
    case ParamsRegion => "params"
    case VKs => "vk/"
    case AuditorDatas => "ad/"
  }

  lemma TailText(r: Region)
    ensures IsAscii(Tail(r), Text(r))
  {
  }

  /** Every prefix is the ASCII of `nixpool/` and its region's text. */
  lemma PrefixText(r: Region)
    ensures IsAscii(Prefix(r), "nixpool/" + Text(r))
  {
    hide Tail, Text;
    TailText(r);
    var s := "nixpool/";
    assert IsAscii(MODULE_PREFIX, s);
    forall i | 0 <= i < |s + Text(r)| ensures Prefix(r)[i] == (s + Text(r))[i] as int {
      if i >= 8 { assert Tail(r)[i - 8] == Text(r)[i - 8] as int; }
    }
  }
}
