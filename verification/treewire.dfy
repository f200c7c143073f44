/** The wire form of a note tree in a snapshot, and of an auditor entry. */
module TreeWire {
  import opened Field
  import opened Types
  import opened Wire
  import opened WireReader
  import opened WireMessages

  // ===== TreeState =====

  /** The fields in the order of their numbers; zero and empty ones are omitted. */
  function EncTree(m: TreeState): Bytes {
    EncUint(0x8, m.treeId) +
    (EncRep(0x12, m.commitments) +
     (EncRep(0x1a, m.frontier) +
      (EncUint(0x20, m.nextIndex) +
       (EncOpt(0x2a, m.merkleRoot) +
        EncRep(0x32, m.rootHistory)))))
  }

  const TREE: Schema := map[1 := 0, 2 := 2, 3 := 2, 4 := 0, 5 := 2, 6 := 2]

  const EMPTY_TREE := TreeState(0, [], [], 0, [], [])

  function PutTree(m: TreeState, f: Entry): Result<TreeState, WireError> {
    match f
    case Number(n, v) => Ok(if n == 1 then m.(treeId := v) else m.(nextIndex := v))
    case Blob(n, b) =>
      Ok(if n == 2 then m.(commitments := m.commitments + [b])
         else if n == 3 then m.(frontier := m.frontier + [b])
         else if n == 5 then m.(merkleRoot := b)
         else m.(rootHistory := m.rootHistory + [b]))
    case Skipped => Ok(m)
  }

  function ReadTree(m: TreeState, data: Bytes): Result<TreeState, WireError> {
    ReadMessage(TREE, PutTree, m, data, 0)
  }

  method TreeSize(m: TreeState) returns (n: nat)
    ensures n == |EncTree(m)|
  {
    hide EncUint, EncRep, EncOpt, Sov, EncVarint;
    SizesOf(0x8, m.treeId, []);
    SizesOf(0x20, m.nextIndex, []);
    SizesOf(0x2a, 0, m.merkleRoot);
    SizeRepIs(0x12, m.commitments);
    SizeRepIs(0x1a, m.frontier);
    SizeRepIs(0x32, m.rootHistory);
    n := 0;
    if m.treeId != 0 { n := n + (1 + Sov(m.treeId)); }
    n := RepSize(m.commitments, n);
    n := RepSize(m.frontier, n);
    if m.nextIndex != 0 { n := n + (1 + Sov(m.nextIndex)); }
    if |m.merkleRoot| > 0 { n := n + (1 + |m.merkleRoot| + Sov(|m.merkleRoot|)); }
    n := RepSize(m.rootHistory, n);
  }

  /** Fills exactly the last `|EncTree(m)|` bytes of the buffer. */
  method MarshalTreeToSizedBuffer(a: array<Byte>, m: TreeState) returns (n: nat)
    requires |EncTree(m)| <= a.Length
    modifies a
    ensures n == |EncTree(m)| && Wrote(old(a[..]), a[..], a.Length - n, a.Length, EncTree(m))
  {
    hide EncUint, EncRep, EncOpt, Wrote;
    ghost var s0, hi := a[..], a.Length;
    WroteNothing(s0, hi);
    var i := PutRep(a, a.Length, 0x32, m.rootHistory, s0, hi, []);
    ghost var e1 := EncRep(0x32, m.rootHistory);
    assert e1 + [] == e1;
    i := PutOpt(a, i, 0x2a, m.merkleRoot, s0, hi, e1);
    ghost var e2 := EncOpt(0x2a, m.merkleRoot) + e1;
    i := PutUint(a, i, 0x20, m.nextIndex, s0, hi, e2);
    ghost var e3 := EncUint(0x20, m.nextIndex) + e2;
    i := PutRep(a, i, 0x1a, m.frontier, s0, hi, e3);
    ghost var e4 := EncRep(0x1a, m.frontier) + e3;
    i := PutRep(a, i, 0x12, m.commitments, s0, hi, e4);
    ghost var e5 := EncRep(0x12, m.commitments) + e4;
    i := PutUint(a, i, 0x8, m.treeId, s0, hi, e5);
    n := a.Length - i;
  }

  method MarshalTree(m: TreeState) returns (b: Bytes)
    ensures b == EncTree(m)
  {
    hide EncTree;
    var size := TreeSize(m);
    var a := new Byte[size];
    var n := MarshalTreeToSizedBuffer(a, m);
    b := a[..n];
  }

  method UnmarshalTree(m0: TreeState, data: Bytes) returns (r: Result<TreeState, WireError>)
    ensures r == ReadTree(m0, data)
  {
    hide ReadField;
    var m, i := m0, 0;
    while i < |data|
      invariant i <= |data| && ReadMessage(TREE, PutTree, m, data, i) == ReadTree(m0, data)
      decreases |data| - i
    {
      var f := DecodeField(TREE, data, i);
      if f.Bad? { return Err(f.error); }
      match f.value {
        case Number(n, v) => if n == 1 { m := m.(treeId := v); } else { m := m.(nextIndex := v); }
        case Blob(n, b) =>
          if n == 2 { m := m.(commitments := m.commitments + [b]); }
          else if n == 3 { m := m.(frontier := m.frontier + [b]); }
          else if n == 5 { m := m.(merkleRoot := b); }
          else { m := m.(rootHistory := m.rootHistory + [b]); }
        case Skipped =>
      }
      i := f.next;
    }
    r := Ok(m);
  }

  lemma {:induction false} PutCommitments(m: TreeState, bs: seq<Bytes>)
    ensures PutAll(PutTree, m, 2, bs) == Ok(m.(commitments := m.commitments + bs))
    decreases |bs|
  {
    if |bs| > 0 {
      PutCommitments(m.(commitments := m.commitments + [bs[0]]), bs[1..]);
      assert m.commitments + [bs[0]] + bs[1..] == m.commitments + bs;
    } else { assert m.commitments + bs == m.commitments; }
  }

  lemma {:induction false} PutFrontier(m: TreeState, bs: seq<Bytes>)
    ensures PutAll(PutTree, m, 3, bs) == Ok(m.(frontier := m.frontier + bs))
    decreases |bs|
  {
    if |bs| > 0 {
      PutFrontier(m.(frontier := m.frontier + [bs[0]]), bs[1..]);
      assert m.frontier + [bs[0]] + bs[1..] == m.frontier + bs;
    } else { assert m.frontier + bs == m.frontier; }
  }

  lemma {:induction false} PutRootHistory(m: TreeState, bs: seq<Bytes>)
    ensures PutAll(PutTree, m, 6, bs) == Ok(m.(rootHistory := m.rootHistory + bs))
    decreases |bs|
  {
    if |bs| > 0 {
      PutRootHistory(m.(rootHistory := m.rootHistory + [bs[0]]), bs[1..]);
      assert m.rootHistory + [bs[0]] + bs[1..] == m.rootHistory + bs;
    } else { assert m.rootHistory + bs == m.rootHistory; }
  }

  /** Lists are joined, single fields replaced by later ones that were written. */
  function MergeTree(a: TreeState, b: TreeState): TreeState {
    TreeState(if b.treeId == 0 then a.treeId else b.treeId, a.commitments + b.commitments, a.frontier + b.frontier,
              if b.nextIndex == 0 then a.nextIndex else b.nextIndex,
              if |b.merkleRoot| == 0 then a.merkleRoot else b.merkleRoot, a.rootHistory + b.rootHistory)
  }

  lemma IntoEmptyTree(m: TreeState)
    ensures MergeTree(EMPTY_TREE, m) == m
  {
    assert [] + m.commitments == m.commitments && [] + m.frontier == m.frontier && [] + m.rootHistory == m.rootHistory;
  }

  /** A tree written anywhere in the input is merged into what was read before, and reading
      goes on behind it. */
  lemma TreeReads(m0: TreeState, m: TreeState, data: Bytes, i: nat)
    requires At(data, i, EncTree(m)) && |data| < I63 && m.treeId < U64 && m.nextIndex < U64
    ensures i + |EncTree(m)| <= |data|
    ensures ReadMessage(TREE, PutTree, m0, data, i)
         == ReadMessage(TREE, PutTree, MergeTree(m0, m), data, i + |EncTree(m)|)
  {
    hide EncUint, EncRep, EncOpt, ReadMessage, PutAll, At;
    var e6 := EncRep(0x32, m.rootHistory);
    var e5 := EncOpt(0x2a, m.merkleRoot) + e6;
    var e4 := EncUint(0x20, m.nextIndex) + e5;
    var e3 := EncRep(0x1a, m.frontier) + e4;
    var e2 := EncRep(0x12, m.commitments) + e3;
    var m1 := m0.(treeId := if m.treeId == 0 then m0.treeId else m.treeId);
    AtSplit(data, i, EncUint(0x8, m.treeId), e2);
    UintFieldReads(TREE, PutTree, m0, data, i, 0x8, m.treeId, m1);
    var i1 := i + |EncUint(0x8, m.treeId)|;
    var m2 := m1.(commitments := m0.commitments + m.commitments);
    PutCommitments(m1, m.commitments);
    AtSplit(data, i1, EncRep(0x12, m.commitments), e3);
    RepReads(TREE, PutTree, m1, data, i1, 0x12, m.commitments, m2);
    var i2 := i1 + |EncRep(0x12, m.commitments)|;
    var m3 := m2.(frontier := m0.frontier + m.frontier);
    PutFrontier(m2, m.frontier);
    AtSplit(data, i2, EncRep(0x1a, m.frontier), e4);
    RepReads(TREE, PutTree, m2, data, i2, 0x1a, m.frontier, m3);
    TreeTailReads(m, m3, data, i2 + |EncRep(0x1a, m.frontier)|);
  }

  lemma TreeTailReads(m: TreeState, m3: TreeState, data: Bytes, i3: nat)
    requires |data| < I63 && m.nextIndex < U64
    requires At(data, i3, EncUint(0x20, m.nextIndex) + (EncOpt(0x2a, m.merkleRoot) + EncRep(0x32, m.rootHistory)))
    ensures var end := i3 + |EncUint(0x20, m.nextIndex) + (EncOpt(0x2a, m.merkleRoot) + EncRep(0x32, m.rootHistory))|;
      var m4 := m3.(nextIndex := if m.nextIndex == 0 then m3.nextIndex else m.nextIndex);
      var m5 := m4.(merkleRoot := if |m.merkleRoot| == 0 then m3.merkleRoot else m.merkleRoot);
      && end <= |data|
      && ReadMessage(TREE, PutTree, m3, data, i3)
         == ReadMessage(TREE, PutTree, m5.(rootHistory := m3.rootHistory + m.rootHistory), data, end)
  {
    hide EncUint, EncRep, EncOpt, ReadMessage, PutAll, At;
    var e6 := EncRep(0x32, m.rootHistory);
    var e5 := EncOpt(0x2a, m.merkleRoot) + e6;
    var m4 := m3.(nextIndex := if m.nextIndex == 0 then m3.nextIndex else m.nextIndex);
    AtSplit(data, i3, EncUint(0x20, m.nextIndex), e5);
    UintFieldReads(TREE, PutTree, m3, data, i3, 0x20, m.nextIndex, m4);
    var i4 := i3 + |EncUint(0x20, m.nextIndex)|;
    var m5 := m4.(merkleRoot := if |m.merkleRoot| == 0 then m3.merkleRoot else m.merkleRoot);
    AtSplit(data, i4, EncOpt(0x2a, m.merkleRoot), e6);
    OptReads(TREE, PutTree, m4, data, i4, 0x2a, m.merkleRoot, m5);
    var i5 := i4 + |EncOpt(0x2a, m.merkleRoot)|;
    PutRootHistory(m5, m.rootHistory);
    RepReads(TREE, PutTree, m5, data, i5, 0x32, m.rootHistory, m5.(rootHistory := m3.rootHistory + m.rootHistory));
  }

  /** Marshal then Unmarshal is the identity on every tree that fits in a Go slice. */
  lemma TreeRoundTrip(m: TreeState)
    requires m.treeId < U64 && m.nextIndex < U64 && |EncTree(m)| < I63
    ensures ReadTree(EMPTY_TREE, EncTree(m)) == Ok(m)
  {
    hide EncTree;
    var e := EncTree(m);
    assert e[0..|e|] == e;
    IntoEmptyTree(m);
    TreeReads(EMPTY_TREE, m, e, 0);
  }

  /** Two encodings one behind the other read as the merged tree: the last value of a single
      field wins, lists are joined. */
  lemma TreeConcat(a: TreeState, b: TreeState)
    requires a.treeId < U64 && a.nextIndex < U64 && b.treeId < U64 && b.nextIndex < U64
    requires |EncTree(a) + EncTree(b)| < I63
    ensures ReadTree(EMPTY_TREE, EncTree(a) + EncTree(b)) == Ok(MergeTree(a, b))
  {
    hide EncTree, MergeTree;
    var x := EncTree(a) + EncTree(b);
    assert x[0..|x|] == x;
    AtSplit(x, 0, EncTree(a), EncTree(b));
    IntoEmptyTree(a);
    TreeReads(EMPTY_TREE, a, x, 0);
    TreeReads(a, b, x, |EncTree(a)|);
  }

  /** A field of a later schema, before or after the known ones, is ignored. */
  lemma TreeIgnoresUnknown(m: TreeState, u: Unknown, data: Bytes)
    requires m.treeId < U64 && m.nextIndex < U64
    requires WellFormed(u) && 7 <= u.num < 0x8000_0000
    requires data == EncUnknown(u) + EncTree(m) || data == EncTree(m) + EncUnknown(u)
    requires |data| < I63
    ensures ReadTree(EMPTY_TREE, data) == Ok(m)
  {
    hide EncTree, EncUnknown, ReadField;
    assert data[0..|data|] == data;
    if data == EncUnknown(u) + EncTree(m) {
      AtSplit(data, 0, EncUnknown(u), EncTree(m));
      UnknownIgnored(TREE, PutTree, EMPTY_TREE, data, 0, u);
      IntoEmptyTree(m);
      TreeReads(EMPTY_TREE, m, data, |EncUnknown(u)|);
    } else {
      AtSplit(data, 0, EncTree(m), EncUnknown(u));
      IntoEmptyTree(m);
      TreeReads(EMPTY_TREE, m, data, 0);
      UnknownIgnored(TREE, PutTree, m, data, |EncTree(m)|, u);
    }
  }

  lemma PutTreeGrows(m: TreeState, data: Bytes, i: nat, f: Entry, k: nat)
    requires i <= |data| && ReadField(TREE, data, i) == Got(f, k)
    requires m.treeId < U64 && m.nextIndex < U64
    ensures var m' := PutTree(m, f).value;
      m'.treeId < U64 && m'.nextIndex < U64 && |EncTree(m')| <= |EncTree(m)| + (k - i)
  {
    hide EncRep, EncLen, EncUint, ReadTag, ReadBytes, ReadVarint, SkipField;
    match f
    case Number(n, v) => FieldIsMinimal(TREE, data, i, if n == 1 then 0x8 else 0x20);
    case Blob(n, b) =>
      FieldIsMinimal(TREE, data, i, if n == 2 then 0x12 else if n == 3 then 0x1a else if n == 5 then 0x2a else 0x32);
      RepAppend(0x12, m.commitments, b);
      RepAppend(0x1a, m.frontier, b);
      RepAppend(0x32, m.rootHistory, b);
    case Skipped =>
  }

  lemma {:induction false} ReadTreeMinimal(m: TreeState, data: Bytes, i: nat, done: TreeState)
    requires i <= |data| && ReadMessage(TREE, PutTree, m, data, i) == Ok(done)
    requires m.treeId < U64 && m.nextIndex < U64
    ensures done.treeId < U64 && done.nextIndex < U64
    ensures |EncTree(done)| <= |EncTree(m)| + (|data| - i)
    decreases |data| - i
  {
    hide EncTree, ReadField, PutTree;
    if i < |data| {
      var f := ReadField(TREE, data, i);
      PutTreeGrows(m, data, i, f.value, f.next);
      ReadTreeMinimal(PutTree(m, f.value).value, data, f.next, done);
    }
  }

  /** Every accepted input, with fields in any order, repeated, unknown or padded, means the
      same as the shorter or equal canonical form of its message. */
  lemma TreeNormalForm(data: Bytes, m: TreeState)
    requires |data| < I63 && ReadTree(EMPTY_TREE, data) == Ok(m)
    ensures |EncTree(m)| <= |data| && ReadTree(EMPTY_TREE, EncTree(m)) == Ok(m)
  {
    assert |EncTree(EMPTY_TREE)| == 0;
    ReadTreeMinimal(EMPTY_TREE, data, 0, m);
    TreeRoundTrip(m);
  }

  // ===== AuditorDataEntry =====

  function EncAuditor(m: AuditorDataEntry): Bytes {
    EncOpt(0xa, m.txHash) + EncOpt(0x12, m.data)
  }

  const AUDITOR: Schema := map[1 := 2, 2 := 2]

  function PutAuditor(m: AuditorDataEntry, f: Entry): Result<AuditorDataEntry, WireError> {
    match f
    case Blob(n, b) => Ok(if n == 1 then m.(txHash := b) else m.(data := b))
    case _ => Ok(m)
  }

  method MarshalAuditor(m: AuditorDataEntry) returns (b: Bytes)
    ensures b == EncAuditor(m)
  {
    hide EncOpt, Wrote, Sov;
    SizesOf(0xa, 0, m.txHash);
    SizesOf(0x12, 0, m.data);
    var size := 0;
    if |m.txHash| > 0 { size := size + (1 + |m.txHash| + Sov(|m.txHash|)); }
    if |m.data| > 0 { size := size + (1 + |m.data| + Sov(|m.data|)); }
    var a := new Byte[size];
    ghost var s0 := a[..];
    WroteNothing(s0, size);
    var i := PutOpt(a, size, 0x12, m.data, s0, size, []);
    assert EncOpt(0x12, m.data) + [] == EncOpt(0x12, m.data);
    i := PutOpt(a, i, 0xa, m.txHash, s0, size, EncOpt(0x12, m.data));
    WroteAll(s0, a[..], EncAuditor(m));
    b := a[..];
  }

  method UnmarshalAuditor(m0: AuditorDataEntry, data: Bytes) returns (r: Result<AuditorDataEntry, WireError>)
    ensures r == ReadMessage(AUDITOR, PutAuditor, m0, data, 0)
  {
    hide ReadField;
    var m, i := m0, 0;
    while i < |data|
      invariant i <= |data|
      invariant ReadMessage(AUDITOR, PutAuditor, m, data, i) == ReadMessage(AUDITOR, PutAuditor, m0, data, 0)
      decreases |data| - i
    {
      var f := DecodeField(AUDITOR, data, i);
      if f.Bad? { return Err(f.error); }
      if f.value.Blob? {
        if f.value.num == 1 { m := m.(txHash := f.value.bytes); } else { m := m.(data := f.value.bytes); }
      }
      i := f.next;
    }
    r := Ok(m);
  }

  lemma AuditorRoundTrip(m: AuditorDataEntry)
    requires |EncAuditor(m)| < I63
    ensures ReadMessage(AUDITOR, PutAuditor, AuditorDataEntry([], []), EncAuditor(m), 0) == Ok(m)
  {
    hide EncOpt, ReadField;
    var e := EncAuditor(m);
    assert e[0..|e|] == e;
    AtSplit(e, 0, EncOpt(0xa, m.txHash), EncOpt(0x12, m.data));
    var m1 := AuditorDataEntry(m.txHash, []);
    OptReads(AUDITOR, PutAuditor, AuditorDataEntry([], []), e, 0, 0xa, m.txHash, m1);
    OptReads(AUDITOR, PutAuditor, m1, e, |EncOpt(0xa, m.txHash)|, 0x12, m.data, m);
  }
}
