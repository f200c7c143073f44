/** The state machine's typed state and the bytes in the store: what each key holds, and that
    every write of the keeper is one write or delete of bytes. */
module FlatStore {
  import opened Field
  import opened Types
  import opened Forest
  import opened Pool
  import K = StoreKeys
  import R = Registration

  /** How parameters are written; the store keeps them as JSON. */
  type Json = Params -> Bytes

  // ===== what a key holds =====

  const PRESENT: Bytes := [1]

  function Found(m: K.Typed, k: K.StoreKey): Option<Bytes> {
    if k in m then Some(m[k]) else None
  }

  function At<T>(m: map<T, Bytes>, k: T): Option<Bytes> {
    if k in m then Some(m[k]) else None
  }

  function CountAt<T>(m: map<T, nat>, k: T): Option<Bytes> {
    if k in m then Some(ToBe(m[k], 8)) else None
  }

  function MarkAt(xs: set<Fe>, x: Fe): Option<Bytes> {
    if x in xs then Some(PRESENT) else None
  }

  /** A counter is eight big-endian bytes; an absent one reads as zero. */
  predicate Counter(o: Option<Bytes>, n: nat) {
    o == Some(ToBe(n, 8)) || (o == None && n == 0)
  }

  predicate NoteEntry(f: Forest, k: K.StoreKey, o: Option<Bytes>) {
    match k
    case Commitment(t, i) => o == At<(nat, nat)>(f.leaves, (t, i))
    case Frontier(t, l) => o == At<(nat, nat)>(f.frontier, (t, l))
    case RootHistory(t, i) => o == At<(nat, nat)>(f.history, (t, i))
    case TreeRoot(t) => o == At<nat>(f.treeRoot, t)
    case RootIndex(x) => o == CountAt<Fe>(f.rootIndex, x)
    case TreeNextIndex(t) => o == CountAt<nat>(f.nextIndex, t)
    case ActiveTreeId => Counter(o, f.activeTree)
    case TreeCount => Counter(o, f.treeCount)
    case CommitmentUsed(x) => o == MarkAt(f.used, x)
    case _ => true
  }

  predicate IdEntry(g: R.Reg, k: K.StoreKey, o: Option<Bytes>) {
    match k
    case RegCommitment(i) => o == At<nat>(g.leaves, i)
    case RegFrontier(l) => o == At<nat>(g.frontier, l)
    case RegRoot => o == g.root
    case RegNextIndex => Counter(o, g.next)
    case RegCommitmentUsed(x) => o == MarkAt(g.used, x)
    case _ => true
  }

  predicate OtherEntry(json: Json, s: Pool, k: K.StoreKey, o: Option<Bytes>) {
    match k
    case Nullifier(x) => o == MarkAt(s.nullifiers, x)
    case Params => o == Some(json(s.params)) || (o == None && s.params == DEFAULT_PARAMS)
    case VK(circuit) => o == At<Bytes>(s.vks, circuit)
    case AuditorData(txHash) => o == At<Bytes>(s.auditorData, txHash)
    case _ => true
  }

  predicate EntryOk(json: Json, s: Pool, k: K.StoreKey, o: Option<Bytes>) {
    NoteEntry(s.notes, k, o) && IdEntry(s.ids, k, o) && OtherEntry(json, s, k, o)
  }

  /** The keyed bytes `m` are the module's part of `s`; the bank keeps its own store. */
  ghost predicate Describes(json: Json, s: Pool, m: K.Typed) {
    forall k: K.StoreKey :: EntryOk(json, s, k, Found(m, k))
  }

  ghost predicate Represents(json: Json, s: Pool, flat: K.Flat) {
    exists m :: K.Stores(flat, m) && Describes(json, s, m)
  }

  function FlatGet(flat: K.Flat, k: K.StoreKey): Option<Bytes> {
    if K.Encode(k) in flat then Some(flat[K.Encode(k)]) else None
  }

  /** Reading the bytes under any key gives what the typed state says. */
  lemma FlatEntry(json: Json, s: Pool, flat: K.Flat, k: K.StoreKey)
    requires Represents(json, s, flat)
    ensures EntryOk(json, s, k, FlatGet(flat, k))
  {
    hide EntryOk, K.Encode, K.Stores;
    var m :| K.Stores(flat, m) && Describes(json, s, m);
    K.FlatReads(flat, m, k);
    assert EntryOk(json, s, k, Found(m, k));
  }

  // ===== the keeper's writes =====

  datatype NoteUpdate =
    | SetLeaf(treeId: nat, index: nat, leaf: Bytes)
    | SetFrontier(treeId: nat, level: nat, node: Bytes)
    | SetHistory(treeId: nat, slot: nat, root: Bytes)
    | SetRoot(treeId: nat, root: Bytes)
    | SetIndex(value: Fe, count: nat)
    | DropIndex(value: Fe)
    | SetNext(treeId: nat, count: nat)
    | SetActive(treeId: nat)
    | SetCount(count: nat)
    | MarkUsed(value: Fe)

  datatype IdUpdate =
    | SetRegLeaf(index: nat, leaf: Bytes)
    | SetRegFrontier(level: nat, node: Bytes)
    | SetRegRoot(root: Bytes)
    | SetRegNext(count: nat)
    | MarkRegUsed(value: Fe)

  datatype Update =
    | Note(note: NoteUpdate)
    | Id(id: IdUpdate)
    | MarkSpent(value: Fe)
    | SetParams(params: Params)
    | SetKey(circuit: Bytes, key: Bytes)
    | SetAuditorData(txHash: Bytes, data: Bytes)

  /** The numbers of an update fit the fixed widths of keys and counters. */
  predicate NoteFits(u: NoteUpdate) {
    match u
    case SetLeaf(t, i, _) => t < U64 && i < U64
    case SetFrontier(t, l, _) => t < U64 && l < U32
    case SetHistory(t, i, _) => t < U64 && i < U64
    case SetRoot(t, _) => t < U64
    case SetIndex(_, n) => n < U64
    case SetNext(t, n) => t < U64 && n < U64
    case SetActive(t) => t < U64
    case SetCount(n) => n < U64
    case _ => true
  }

  predicate IdFits(u: IdUpdate) {
    match u
    case SetRegLeaf(i, _) => i < U64
    case SetRegFrontier(l, _) => l < U32
    case SetRegNext(n) => n < U64
    case _ => true
  }

  predicate Fits(u: Update) {
    match u case Note(n) => NoteFits(n) case Id(i) => IdFits(i) case _ => true
  }

  // ----- on the typed state -----

  function OnNotes(f: Forest, u: NoteUpdate): Forest {
    match u
    case SetLeaf(t, i, b) => f.(leaves := f.leaves[(t, i) := b])
    case SetFrontier(t, l, b) => f.(frontier := f.frontier[(t, l) := b])
    case SetHistory(t, i, b) => f.(history := f.history[(t, i) := b])
    case SetRoot(t, b) => f.(treeRoot := f.treeRoot[t := b])
    case SetIndex(x, n) => f.(rootIndex := f.rootIndex[x := n])
    case DropIndex(x) => f.(rootIndex := f.rootIndex - {x})
    case SetNext(t, n) => f.(nextIndex := f.nextIndex[t := n])
    case SetActive(t) => f.(activeTree := t)
    case SetCount(n) => f.(treeCount := n)
    case MarkUsed(x) => f.(used := f.used + {x})
  }

  function OnIds(g: R.Reg, u: IdUpdate): R.Reg {
    match u
    case SetRegLeaf(i, b) => g.(leaves := g.leaves[i := b])
    case SetRegFrontier(l, b) => g.(frontier := g.frontier[l := b])
    case SetRegRoot(b) => g.(root := Some(b))
    case SetRegNext(n) => g.(next := n)
    case MarkRegUsed(x) => g.(used := g.used + {x})
  }

  function On(s: Pool, u: Update): Pool {
    match u
    case Note(n) => s.(notes := OnNotes(s.notes, n))
    case Id(i) => s.(ids := OnIds(s.ids, i))
    case MarkSpent(x) => s.(nullifiers := s.nullifiers + {x})
    case SetParams(p) => s.(params := p)
    case SetKey(c, b) => s.(vks := s.vks[c := b])
    case SetAuditorData(x, b) => s.(auditorData := s.auditorData[x := b])
  }

  // ----- on the bytes -----

  function NoteKey(u: NoteUpdate): K.StoreKey
    requires NoteFits(u)
  {
    match u
    case SetLeaf(t, i, _) => K.Commitment(t, i)
    case SetFrontier(t, l, _) => K.Frontier(t, l)
    case SetHistory(t, i, _) => K.RootHistory(t, i)
    case SetRoot(t, _) => K.TreeRoot(t)
    case SetIndex(x, _) => K.RootIndex(x)
    case DropIndex(x) => K.RootIndex(x)
    case SetNext(t, _) => K.TreeNextIndex(t)
    case SetActive(_) => K.ActiveTreeId
    case SetCount(_) => K.TreeCount
    case MarkUsed(x) => K.CommitmentUsed(x)
  }

  /** The bytes written; none for a delete. */
  function NoteValue(u: NoteUpdate): Option<Bytes> {
    match u
    case SetLeaf(_, _, b) => Some(b)
    case SetFrontier(_, _, b) => Some(b)
    case SetHistory(_, _, b) => Some(b)
    case SetRoot(_, b) => Some(b)
    case SetIndex(_, n) => Some(ToBe(n, 8))
    case DropIndex(_) => None
    case SetNext(_, n) => Some(ToBe(n, 8))
    case SetActive(t) => Some(ToBe(t, 8))
    case SetCount(n) => Some(ToBe(n, 8))
    case MarkUsed(_) => Some(PRESENT)
  }

  function IdKey(u: IdUpdate): K.StoreKey
    requires IdFits(u)
  {
    match u
    case SetRegLeaf(i, _) => K.RegCommitment(i)
    case SetRegFrontier(l, _) => K.RegFrontier(l)
    case SetRegRoot(_) => K.RegRoot
    case SetRegNext(_) => K.RegNextIndex
    case MarkRegUsed(x) => K.RegCommitmentUsed(x)
  }

  function IdValue(u: IdUpdate): Option<Bytes> {
    match u
    case SetRegLeaf(_, b) => Some(b)
    case SetRegFrontier(_, b) => Some(b)
    case SetRegRoot(b) => Some(b)
    case SetRegNext(n) => Some(ToBe(n, 8))
    case MarkRegUsed(_) => Some(PRESENT)
  }

  function KeyOf(u: Update): K.StoreKey
    requires Fits(u)
  {
    match u
    case Note(n) => NoteKey(n)
    case Id(i) => IdKey(i)
    case MarkSpent(x) => K.Nullifier(x)
    case SetParams(_) => K.Params
    case SetKey(c, _) => K.VK(c)
    case SetAuditorData(x, _) => K.AuditorData(x)
  }

  function ValueOf(json: Json, u: Update): Option<Bytes> {
    match u
    case Note(n) => NoteValue(n)
    case Id(i) => IdValue(i)
    case MarkSpent(_) => Some(PRESENT)
    case SetParams(p) => Some(json(p))
    case SetKey(_, b) => Some(b)
    case SetAuditorData(_, b) => Some(b)
  }

  function Write(m: K.Typed, k: K.StoreKey, o: Option<Bytes>): K.Typed {
    match o case Some(b) => m[k := b] case None => m - {k}
  }

  /** One `Set` or one `Delete` of the byte store. */
  function FlatWrite(flat: K.Flat, k: K.StoreKey, o: Option<Bytes>): K.Flat {
    match o case Some(b) => flat[K.Encode(k) := b] case None => flat - {K.Encode(k)}
  }

  // ===== one update is one write =====

  lemma NoteWritten(f: Forest, u: NoteUpdate, k: K.StoreKey, o: Option<Bytes>)
    requires NoteFits(u) && NoteEntry(f, k, o)
    ensures NoteEntry(OnNotes(f, u), k, if k == NoteKey(u) then NoteValue(u) else o)
  {
    hide ToBe;
  }

  lemma IdWritten(g: R.Reg, u: IdUpdate, k: K.StoreKey, o: Option<Bytes>)
    requires IdFits(u) && IdEntry(g, k, o)
    ensures IdEntry(OnIds(g, u), k, if k == IdKey(u) then IdValue(u) else o)
  {
    hide ToBe;
  }

  lemma EntryWritten(json: Json, s: Pool, u: Update, k: K.StoreKey, o: Option<Bytes>)
    requires Fits(u) && EntryOk(json, s, k, o)
    ensures EntryOk(json, On(s, u), k, if k == KeyOf(u) then ValueOf(json, u) else o)
  {
    match u
    case Note(n) =>
      hide OnNotes, OnIds;
      NoteWritten(s.notes, n, k, o);
    case Id(i) =>
      hide OnNotes, OnIds;
      IdWritten(s.ids, i, k, o);
    case _ => hide OnNotes, OnIds, NoteKey, IdKey, ToBe;
  }

  /** Every write of the keeper is the write or delete of one key's bytes. */
  lemma UpdateIsWrite(json: Json, s: Pool, m: K.Typed, u: Update)
    requires Fits(u) && Describes(json, s, m)
    ensures Describes(json, On(s, u), Write(m, KeyOf(u), ValueOf(json, u)))
  {
    hide EntryOk, On, KeyOf, ValueOf;
    var w, o := KeyOf(u), ValueOf(json, u);
    var m', s' := Write(m, w, o), On(s, u);
    forall k: K.StoreKey ensures EntryOk(json, s', k, Found(m', k)) {
      assert EntryOk(json, s, k, Found(m, k));
      EntryWritten(json, s, u, k, Found(m, k));
      assert Found(m', k) == if k == w then o else Found(m, k);
    }
  }

  lemma WriteIsFlatWrite(flat: K.Flat, m: K.Typed, k: K.StoreKey, o: Option<Bytes>)
    requires K.Stores(flat, m)
    ensures K.Stores(FlatWrite(flat, k, o), Write(m, k, o))
  {
    hide K.Stores;
    match o
    case Some(b) => K.FlatWrites(flat, m, k, b);
    case None => K.FlatDeletes(flat, m, k);
  }

  // ===== lists of updates =====

  ghost predicate AllFit(us: seq<Update>) {
    forall i | 0 <= i < |us| :: Fits(us[i])
  }

  function OnAll(s: Pool, us: seq<Update>): Pool
    decreases |us|
  {
    if |us| == 0 then s else OnAll(On(s, us[0]), us[1..])
  }

  ghost function FlatAll(json: Json, flat: K.Flat, us: seq<Update>): K.Flat
    requires AllFit(us)
    decreases |us|
  {
    if |us| == 0 then flat
    else FlatAll(json, FlatWrite(flat, KeyOf(us[0]), ValueOf(json, us[0])), us[1..])
  }

  /** A list of updates on the state is the list of their writes on the bytes. */
  lemma {:induction false} UpdatesAreWrites(json: Json, s: Pool, flat: K.Flat, us: seq<Update>)
    requires Represents(json, s, flat) && AllFit(us)
    ensures Represents(json, OnAll(s, us), FlatAll(json, flat, us))
    decreases |us|
  {
    hide K.Stores, Describes, On, KeyOf, ValueOf, FlatWrite, Write, Fits;
    if |us| > 0 {
      var u := us[0];
      var m :| K.Stores(flat, m) && Describes(json, s, m);
      UpdateIsWrite(json, s, m, u);
      WriteIsFlatWrite(flat, m, KeyOf(u), ValueOf(json, u));
      UpdatesAreWrites(json, On(s, u), FlatWrite(flat, KeyOf(u), ValueOf(json, u)), us[1..]);
    }
  }

  // ===== nothing is lost in the bytes =====

  ghost predicate InRange2<V>(m: map<(nat, nat), V>, hi: int) {
    forall k :: k in m ==> k.0 < U64 && k.1 < hi
  }

  ghost predicate InRange1<V>(m: map<nat, V>, hi: int) {
    forall k :: k in m ==> k < hi
  }

  ghost predicate SmallCounts<T(!new)>(m: map<T, nat>) {
    forall k :: k in m ==> m[k] < U64
  }

  /** No number of the state needs more than its fixed width. */
  ghost predicate Small(s: Pool) {
    && InRange2(s.notes.leaves, U64) && InRange2(s.notes.frontier, U32) && InRange2(s.notes.history, U64)
    && InRange1(s.notes.treeRoot, U64) && InRange1(s.notes.nextIndex, U64)
    && SmallCounts(s.notes.rootIndex) && SmallCounts(s.notes.nextIndex)
    && s.notes.activeTree < U64 && s.notes.treeCount < U64
    && InRange1(s.ids.leaves, U64) && InRange1(s.ids.frontier, U32) && s.ids.next < U64
  }

  ghost predicate Injective(json: Json) {
    forall p, q :: json(p) == json(q) ==> p == q
  }

  lemma CounterBytes(m: nat, n: nat)
    requires m < U64 && n < U64 && ToBe(m, 8) == ToBe(n, 8)
    ensures m == n
  {
    PowersOf256();
    BeValueToBe(m, 8);
    BeValueToBe(n, 8);
  }

  lemma SameCounter(o: Option<Bytes>, m: nat, n: nat)
    requires m < U64 && n < U64 && Counter(o, m) && Counter(o, n)
    ensures m == n
  {
    if o.Some? { CounterBytes(m, n); }
  }

  ghost predicate SameAt<T, V>(m1: map<T, V>, m2: map<T, V>, k: T) {
    (k in m1 <==> k in m2) && (k in m1 ==> m1[k] == m2[k])
  }

  lemma EqualMaps<T(!new), V>(m1: map<T, V>, m2: map<T, V>)
    requires forall k :: k in m1 || k in m2 ==> SameAt(m1, m2, k)
    ensures m1 == m2
  {
    forall k | k in m1 ensures k in m2 && m1[k] == m2[k] { assert SameAt(m1, m2, k); }
    forall k | k in m2 ensures k in m1 { assert SameAt(m1, m2, k); }
  }

  /** Two states with the same bytes have the same entry under every key. */
  lemma SameEntry(json: Json, s1: Pool, s2: Pool, flat: K.Flat, k: K.StoreKey) returns (o: Option<Bytes>)
    requires Represents(json, s1, flat) && Represents(json, s2, flat)
    ensures EntryOk(json, s1, k, o) && EntryOk(json, s2, k, o)
  {
    hide EntryOk, FlatGet, Represents;
    o := FlatGet(flat, k);
    FlatEntry(json, s1, flat, k);
    FlatEntry(json, s2, flat, k);
  }

  lemma SameTreeMaps(json: Json, s1: Pool, s2: Pool, flat: K.Flat)
    requires Represents(json, s1, flat) && Represents(json, s2, flat) && Small(s1) && Small(s2)
    ensures s1.notes.leaves == s2.notes.leaves && s1.notes.frontier == s2.notes.frontier
    ensures s1.notes.history == s2.notes.history && s1.notes.treeRoot == s2.notes.treeRoot
  {
    hide Represents, IdEntry, OtherEntry;
    var f, g := s1.notes, s2.notes;
    forall k | k in f.leaves || k in g.leaves ensures SameAt<(nat, nat), Bytes>(f.leaves, g.leaves, k) {
      var o := SameEntry(json, s1, s2, flat, K.Commitment(k.0, k.1));
    }
    EqualMaps<(nat, nat), Bytes>(f.leaves, g.leaves);
    forall k | k in f.frontier || k in g.frontier ensures SameAt<(nat, nat), Bytes>(f.frontier, g.frontier, k) {
      var o := SameEntry(json, s1, s2, flat, K.Frontier(k.0, k.1));
    }
    EqualMaps<(nat, nat), Bytes>(f.frontier, g.frontier);
    forall k | k in f.history || k in g.history ensures SameAt<(nat, nat), Bytes>(f.history, g.history, k) {
      var o := SameEntry(json, s1, s2, flat, K.RootHistory(k.0, k.1));
    }
    EqualMaps<(nat, nat), Bytes>(f.history, g.history);
    forall k | k in f.treeRoot || k in g.treeRoot ensures SameAt<nat, Bytes>(f.treeRoot, g.treeRoot, k) {
      var o := SameEntry(json, s1, s2, flat, K.TreeRoot(k));
    }
    EqualMaps<nat, Bytes>(f.treeRoot, g.treeRoot);
  }

  lemma SameCounts(json: Json, s1: Pool, s2: Pool, flat: K.Flat)
    requires Represents(json, s1, flat) && Represents(json, s2, flat) && Small(s1) && Small(s2)
    ensures s1.notes.rootIndex == s2.notes.rootIndex && s1.notes.nextIndex == s2.notes.nextIndex
    ensures s1.notes.activeTree == s2.notes.activeTree && s1.notes.treeCount == s2.notes.treeCount
    ensures s1.notes.used == s2.notes.used
  {
    hide Represents, IdEntry, OtherEntry, ToBe;
    var f, g := s1.notes, s2.notes;
    forall k | k in f.rootIndex || k in g.rootIndex ensures SameAt<Fe, nat>(f.rootIndex, g.rootIndex, k) {
      var o := SameEntry(json, s1, s2, flat, K.RootIndex(k));
      if o.Some? { CounterBytes(f.rootIndex[k], g.rootIndex[k]); }
    }
    EqualMaps<Fe, nat>(f.rootIndex, g.rootIndex);
    forall k | k in f.nextIndex || k in g.nextIndex ensures SameAt<nat, nat>(f.nextIndex, g.nextIndex, k) {
      var o := SameEntry(json, s1, s2, flat, K.TreeNextIndex(k));
      if o.Some? { CounterBytes(f.nextIndex[k], g.nextIndex[k]); }
    }
    EqualMaps<nat, nat>(f.nextIndex, g.nextIndex);
    var a := SameEntry(json, s1, s2, flat, K.ActiveTreeId);
    SameCounter(a, f.activeTree, g.activeTree);
    var c := SameEntry(json, s1, s2, flat, K.TreeCount);
    SameCounter(c, f.treeCount, g.treeCount);
    forall x: Fe ensures x in f.used <==> x in g.used {
      var o := SameEntry(json, s1, s2, flat, K.CommitmentUsed(x));
    }
  }

  lemma SameIds(json: Json, s1: Pool, s2: Pool, flat: K.Flat)
    requires Represents(json, s1, flat) && Represents(json, s2, flat) && Small(s1) && Small(s2)
    ensures s1.ids == s2.ids
  {
    hide Represents, NoteEntry, OtherEntry, ToBe;
    var f, g := s1.ids, s2.ids;
    forall k | k in f.leaves || k in g.leaves ensures SameAt<nat, Bytes>(f.leaves, g.leaves, k) {
      var o := SameEntry(json, s1, s2, flat, K.RegCommitment(k));
    }
    EqualMaps<nat, Bytes>(f.leaves, g.leaves);
    forall k | k in f.frontier || k in g.frontier ensures SameAt<nat, Bytes>(f.frontier, g.frontier, k) {
      var o := SameEntry(json, s1, s2, flat, K.RegFrontier(k));
    }
    EqualMaps<nat, Bytes>(f.frontier, g.frontier);
    var r := SameEntry(json, s1, s2, flat, K.RegRoot);
    var n := SameEntry(json, s1, s2, flat, K.RegNextIndex);
    SameCounter(n, f.next, g.next);
    forall x: Fe ensures x in f.used <==> x in g.used {
      var o := SameEntry(json, s1, s2, flat, K.RegCommitmentUsed(x));
    }
  }

  lemma SameOthers(json: Json, s1: Pool, s2: Pool, flat: K.Flat)
    requires Represents(json, s1, flat) && Represents(json, s2, flat) && Injective(json)
    ensures s1.params == s2.params && s1.nullifiers == s2.nullifiers
    ensures s1.vks == s2.vks && s1.auditorData == s2.auditorData
  {
    hide Represents, NoteEntry, IdEntry;
    var p := SameEntry(json, s1, s2, flat, K.Params);
    forall x: Fe ensures x in s1.nullifiers <==> x in s2.nullifiers {
      var o := SameEntry(json, s1, s2, flat, K.Nullifier(x));
    }
    forall k | k in s1.vks || k in s2.vks ensures SameAt<Bytes, Bytes>(s1.vks, s2.vks, k) {
      var o := SameEntry(json, s1, s2, flat, K.VK(k));
    }
    EqualMaps<Bytes, Bytes>(s1.vks, s2.vks);
    forall k | k in s1.auditorData || k in s2.auditorData
      ensures SameAt<Bytes, Bytes>(s1.auditorData, s2.auditorData, k)
    {
      var o := SameEntry(json, s1, s2, flat, K.AuditorData(k));
    }
    EqualMaps<Bytes, Bytes>(s1.auditorData, s2.auditorData);
  }

  /** The bytes determine the state: two states with one byte store differ in the bank at
      most. */
  lemma BytesDetermineState(json: Json, s1: Pool, s2: Pool, flat: K.Flat)
    requires Represents(json, s1, flat) && Represents(json, s2, flat)
    requires Small(s1) && Small(s2) && Injective(json)
    ensures s1.(bank := s2.bank) == s2
  {
    hide Represents, Small, Injective;
    SameTreeMaps(json, s1, s2, flat);
    SameCounts(json, s1, s2, flat);
    SameIds(json, s1, s2, flat);
    SameOthers(json, s1, s2, flat);
  }
}
