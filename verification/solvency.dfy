/** Solvency over whole runs: the module account always covers the unspent notes.

    The circuits are not part of this model, so what an accepted proof means is a stated
    contract (`VerifierContract`): a deposit's note is worth at most the amount bound to it,
    and a transact proof names leaves with openings to its roots and balances its values.
    The two-to-one hash need only be free of collisions on the pairs somebody hashed. */
module Solvency {
  import opened Field
  import opened Merkle
  import opened Types
  import opened Forest
  import opened ForestInvariant
  import opened ForestRoots
  import opened PublicInputs
  import opened Pool
  import opened PoolProofs
  import R = Registration

  /** What only a note's owner knows: its value and the nullifier that spends it. */
  datatype Secrets = Secrets(value: Fe -> nat, nullifier: Fe -> Fe)

  // ===== sums of note values =====

  ghost function Total(v: Fe -> nat, xs: set<Fe>): nat {
    if xs == {} then 0 else var x :| x in xs; v(x) + Total(v, xs - {x})
  }

  lemma {:induction false} TotalWithout(v: Fe -> nat, xs: set<Fe>, y: Fe)
    requires y in xs
    ensures Total(v, xs) == v(y) + Total(v, xs - {y})
    decreases |xs|
  {
    var x :| x in xs && Total(v, xs) == v(x) + Total(v, xs - {x});
    if x != y {
      TotalWithout(v, xs - {x}, y);
      TotalWithout(v, xs - {y}, x);
      assert xs - {x} - {y} == xs - {y} - {x};
    }
  }

  lemma TotalWith(v: Fe -> nat, xs: set<Fe>, y: Fe)
    ensures Total(v, xs + {y}) <= Total(v, xs) + v(y)
  {
    if y in xs {
      assert xs + {y} == xs;
    } else {
      TotalWithout(v, xs + {y}, y);
      assert xs + {y} - {y} == xs;
    }
  }

  lemma {:induction false} TotalMono(v: Fe -> nat, xs: set<Fe>, ys: set<Fe>)
    requires xs <= ys
    ensures Total(v, xs) <= Total(v, ys)
    decreases |xs|
  {
    if xs != {} {
      var x :| x in xs;
      TotalWithout(v, xs, x);
      TotalWithout(v, ys, x);
      TotalMono(v, xs - {x}, ys - {x});
    }
  }

  // ===== the claim =====

  /** Inserted notes whose nullifier has not been spent.  No value sits at two leaves, so the
      used-set counts each note once. */
  ghost function Unspent(sec: Secrets, used: set<Fe>, nullifiers: set<Fe>): set<Fe> {
    set x | x in used && sec.nullifier(x) !in nullifiers
  }

  ghost function Owed(sec: Secrets, s: Pool): nat {
    Total(sec.value, Unspent(sec, s.notes.used, s.nullifiers))
  }

  ghost predicate Solvent(env: Env, sec: Secrets, denom: Bytes, s: Pool) {
    Owed(sec, s) <= Balance(s.bank, env.moduleAddr, denom)
  }

  // ===== what an accepted proof means =====

  /** One real input: a note, its nullifier, and an opening from the note to the root. */
  datatype Opening = Opening(leaf: Fe, index: nat, path: seq<Fe>)

  /** A note commitment is no zero-subtree hash. */
  ghost predicate NoteLike(h: Hash2, leaf: Fe) {
    forall k: nat :: leaf != ZeroHash(h, k)
  }

  ghost predicate Opens(h: Hash2, q: Asked, d: nat, o: Opening, root: Fe) {
    && |o.path| == d && o.index < Pow2(d) && NoteLike(h, o.leaf)
    && PathAsked(h, q, o.leaf, o.index, o.path)
    && Climb(h, o.leaf, o.index, o.path, d) == root
  }

  /** A non-zero nullifier belongs to an opened note; a zero one is a dummy worth nothing. */
  ghost predicate InputOk(env: Env, sec: Secrets, q: Asked, d: nat, n: Fe, root: Fe, o: Opening) {
    n != 0 ==> sec.nullifier(o.leaf) == n && Opens(env.hash2, q, d, o, root)
  }

  ghost function InputValue(sec: Secrets, n: Fe, o: Opening): nat {
    if n == 0 then 0 else sec.value(o.leaf)
  }

  ghost function OutputValue(sec: Secrets, c: Fe): nat {
    if c == 0 then 0 else sec.value(c)
  }

  ghost predicate Balances(sec: Secrets, pi: seq<Fe>, o1: Opening, o2: Opening)
    requires |pi| == TRANSACT_PI_COUNT
  {
    InputValue(sec, pi[0], o1) + InputValue(sec, pi[1], o2)
    == OutputValue(sec, pi[4]) + OutputValue(sec, pi[5]) + (pi[6] as int) + (pi[11] as int)
  }

  ghost predicate TransactSound(env: Env, sec: Secrets, q: Asked, d: nat, pi: seq<Fe>) {
    |pi| == TRANSACT_PI_COUNT &&
    exists o1, o2 ::
      && InputOk(env, sec, q, d, pi[0], pi[2], o1)
      && InputOk(env, sec, q, d, pi[1], pi[3], o2)
      && Balances(sec, pi, o1, o2)
  }

  ghost predicate DepositSound(sec: Secrets, pi: seq<Fe>) {
    |pi| == DEPOSIT_PI_COUNT ==> sec.value(pi[0]) <= pi[1] as int
  }

  /** The circuits' promise for one message in one state. */
  ghost predicate VerifierContract(env: Env, sec: Secrets, q: Asked, d: nat, s: Pool, msg: Msg) {
    match msg
    case DepositMsg(m, _) =>
      Parse(m.publicInputs).Some? && DEPOSIT in s.vks
      && env.verify(s.vks[DEPOSIT], m.proof, Parse(m.publicInputs).value)
      ==> DepositSound(sec, Parse(m.publicInputs).value)
    case TransactMsg(m) =>
      ValidateTransact(env, m) == None && |m.nullifiers| == |m.merkleRoots| == |m.outputs| == 2
      && AssembleTransactPublicInputs(env, m, s.params).Ok? && TRANSACT in s.vks
      && env.verify(s.vks[TRANSACT], m.proof, AssembleTransactPublicInputs(env, m, s.params).value)
      ==> TransactSound(env, sec, q, d, AssembleTransactPublicInputs(env, m, s.params).value)
    case _ => true
  }

  /** The pairs hashed into any accepted root are among the asked ones. */
  ghost predicate ForestAsked(h: Hash2, q: Asked, d: nat, f: Forest) {
    && (forall t: nat, j: nat | t < f.treeCount && j <= NextIndex(f, t) :: TreeAsked(h, q, Leaves(f, t)[..j], d))
    && (forall k: nat | k < DEFAULT_TREE_DEPTH :: q(ZeroHash(h, k), ZeroHash(h, k)))
  }

  ghost predicate OneDenom(params: Params, denom: Bytes) {
    forall x :: x in params.supportedDenoms ==> x == denom
  }

  /** The surroundings of one step: one denom, fixed depth, no message signed by the module
      account itself, honest circuits, and a hash nobody found a collision of. */
  ghost predicate FairStep(env: Env, sec: Secrets, q: Asked, d: nat, denom: Bytes, s: Pool, msg: Msg) {
    && OneDenom(s.params, denom)
    && KeepsDepth(d, msg)
    && (msg.DepositMsg? ==> env.bech32(msg.deposit.sender) != Some(env.moduleAddr))
    && CollisionFree(env.hash2, q) && ForestAsked(env.hash2, q, d, s.notes)
    && VerifierContract(env, sec, q, d, s, msg)
  }

  // ===== an accepted opening opens an inserted note =====

  lemma OpenedInTree(h: Hash2, q: Asked, d: nat, f: Forest, o: Opening, root: Fe, t: nat, j: nat)
    requires Inv(h, d, f) && CollisionFree(h, q) && ForestAsked(h, q, d, f)
    requires Opens(h, q, d, o, root) && RootOfTree(h, d, f, root, t, j)
    ensures o.leaf in f.used
  {
    var ls := Leaves(f, t);
    ShrTop(o.index, d);
    OpeningBinds(h, q, ls[..j], o.leaf, o.index, o.path, d);
    assert o.leaf != ZeroHash(h, 0);
    assert TreeAt(h, d, f, t);
    assert KeyAt(f.leaves, t, NextIndex(f, t), o.index);
    assert o.leaf == SetBytes(f.leaves[(t, o.index)]);
    assert ValueStored<(nat, nat)>(f.leaves, o.leaf);
  }

  lemma OpenedIsInserted(h: Hash2, q: Asked, d: nat, f: Forest, o: Opening, root: Fe)
    requires Inv(h, d, f) && CollisionFree(h, q) && ForestAsked(h, q, d, f)
    requires Opens(h, q, d, o, root) && IsValidRootAnyTree(h, f, FeBytes(root))
    ensures o.leaf in f.used
  {
    hide Inv, CollisionFree, TreeAsked, PathAsked, Climb, IsValidRootAnyTree, RootOfTree;
    AcceptedExactly(h, d, f, root);
    if root == ZeroHash(h, DEFAULT_TREE_DEPTH) {
      ZeroOpening(h, q, o.leaf, o.index, o.path, d, DEFAULT_TREE_DEPTH);
    } else {
      var t: nat, j: nat :| RootOfTree(h, d, f, root, t, j);
      OpenedInTree(h, q, d, f, o, root, t, j);
    }
  }

  // ===== spending and creating, in totals =====

  /** Spending slot `n`: what is owed falls by at least the value of the note it opens. */
  lemma SpendLowersOwed(env: Env, sec: Secrets, q: Asked, d: nat, s: Pool, ns: set<Fe>, n: Bytes, root: Bytes,
                        ns': set<Fe>, o: Opening)
    requires Inv(env.hash2, d, s.notes) && CollisionFree(env.hash2, q) && ForestAsked(env.hash2, q, d, s.notes)
    requires ValidFieldBytes(n) && ValidFieldBytes(root)
    requires SpendInput(env, s.notes, ns, n, root) == Ok(ns')
    requires InputOk(env, sec, q, d, SetBytes(n), SetBytes(root), o)
    ensures Total(sec.value, Unspent(sec, s.notes.used, ns')) + InputValue(sec, SetBytes(n), o)
         <= Total(sec.value, Unspent(sec, s.notes.used, ns))
  {
    hide Inv, CollisionFree, ForestAsked, Opens, Total, IsValidRootAnyTree;
    ZeroBytesDenoteZero(n);
    if n != ZERO32 {
      ValidIffCanonical(root);
      OpenedIsInserted(env.hash2, q, d, s.notes, o, SetBytes(root));
      var before, after := Unspent(sec, s.notes.used, ns), Unspent(sec, s.notes.used, ns');
      TotalWithout(sec.value, before, o.leaf);
      TotalMono(sec.value, after, before - {o.leaf});
    }
  }

  /** Creating output `c`: what is owed rises by at most its value. */
  lemma CreateRaisesOwed(env: Env, sec: Secrets, d: nat, c: Created, noteHash: Bytes, c': Created, ns: set<Fe>)
    requires ValidFieldBytes(noteHash)
    requires CreateOutput(env, d, c, noteHash) == Ok(c')
    ensures Total(sec.value, Unspent(sec, c'.notes.used, ns))
         <= Total(sec.value, Unspent(sec, c.notes.used, ns)) + OutputValue(sec, SetBytes(noteHash))
  {
    hide Total;
    ZeroBytesDenoteZero(noteHash);
    if noteHash != ZERO32 { InsertRaisesOwed(env, sec, d, c.notes, noteHash, c'.notes, ns); }
  }

  lemma InsertRaisesOwed(env: Env, sec: Secrets, d: nat, f: Forest, c: Bytes, f': Forest, ns: set<Fe>)
    requires InsertNote(env.hash2, d, f, c).Ok? && InsertNote(env.hash2, d, f, c).value.forest == f'
    ensures Total(sec.value, Unspent(sec, f'.used, ns))
         <= Total(sec.value, Unspent(sec, f.used, ns)) + sec.value(SetBytes(c))
  {
    hide Total;
    InsertUses(env.hash2, d, f, c, InsertNote(env.hash2, d, f, c).value);
    hide InsertNote;
    var x, before, after := SetBytes(c), Unspent(sec, f.used, ns), Unspent(sec, f'.used, ns);
    TotalWith(sec.value, before, x);
    TotalMono(sec.value, after, before + {x});
  }

  // ===== deposits =====

  lemma DepositKeepsSolvent(env: Env, sec: Secrets, d: nat, denom: Bytes, s: Pool, msg: MsgDeposit, txHash: Bytes,
                            o: Outcome)
    requires Deposit(env, s, msg, txHash) == Ok(o)
    requires OneDenom(s.params, denom) && env.bech32(msg.sender) != Some(env.moduleAddr)
    requires DepositSound(sec, Parse(msg.publicInputs).value)
    requires Solvent(env, sec, denom, s)
    ensures Solvent(env, sec, denom, o.pool)
  {
    hide Deposit, Total, Balance, Send, InsertNote, Parse;
    DepositParts(env, s, msg, txHash, o);
    var pi, amt := Parse(msg.publicInputs).value, CheckDeposit(env, s.params, s.vks, msg).value;
    SetBytesFeBytes(pi[0]);
    assert sec.value(SetBytes(msg.noteCommitment)) <= amt by { ReducedAtMost(amt); }
    InsertRaisesOwed(env, sec, s.params.Depth(), s.notes, msg.noteCommitment, o.pool.notes, s.nullifiers);
    SendMoves(s.bank, env.bech32(msg.sender).value, env.moduleAddr, msg.denom, amt, o.pool.bank, env.moduleAddr, denom);
  }

  lemma ReducedAtMost(n: nat)
    ensures n % P <= n
  {
  }

  // ===== transactions =====

  /** The four slots of a transaction change what is owed by at most outputs minus inputs. */
  lemma SlotsMoveOwed(env: Env, sec: Secrets, q: Asked, d: nat, s: Pool, msg: MsgTransact, ns: set<Fe>, c: Created,
                      o1: Opening, o2: Opening)
    requires PoolInv(env, d, s) && CollisionFree(env.hash2, q) && ForestAsked(env.hash2, q, d, s.notes)
    requires ValidateTransact(env, msg) == None && |msg.nullifiers| == |msg.merkleRoots| == |msg.outputs| == 2
    requires SpendInputsOf(env, s.notes, s.nullifiers, msg) == Ok(ns)
    requires CreateOutputs(env, s.params.Depth(), s.notes, msg) == Ok(c)
    requires InputOk(env, sec, q, d, SetBytes(msg.nullifiers[0]), SetBytes(msg.merkleRoots[0]), o1)
    requires InputOk(env, sec, q, d, SetBytes(msg.nullifiers[1]), SetBytes(msg.merkleRoots[1]), o2)
    ensures Total(sec.value, Unspent(sec, c.notes.used, ns))
            + InputValue(sec, SetBytes(msg.nullifiers[0]), o1) + InputValue(sec, SetBytes(msg.nullifiers[1]), o2)
         <= Owed(sec, s) + OutputValue(sec, SetBytes(msg.outputs[0].noteHash))
            + OutputValue(sec, SetBytes(msg.outputs[1].noteHash))
  {
    ValidatedFields(env, msg);
    hide Inv, R.RegInv, CollisionFree, ForestAsked, Total, Unspent, SpendInput, CreateOutput, InputOk, InputValue,
      OutputValue, ValidateTransact;
    var ns1 := SpendInput(env, s.notes, s.nullifiers, msg.nullifiers[0], msg.merkleRoots[0]).value;
    SpendLowersOwed(env, sec, q, d, s, s.nullifiers, msg.nullifiers[0], msg.merkleRoots[0], ns1, o1);
    SpendLowersOwed(env, sec, q, d, s, ns1, msg.nullifiers[1], msg.merkleRoots[1], ns, o2);
    var none := Created(s.notes, MsgTransactResponse([], []));
    var c1 := CreateOutput(env, d, none, msg.outputs[0].noteHash).value;
    CreateRaisesOwed(env, sec, d, none, msg.outputs[0].noteHash, c1, ns);
    CreateRaisesOwed(env, sec, d, c1, msg.outputs[1].noteHash, c, ns);
  }

  /** After the slots, the module account covers what is owed plus both payouts. */
  lemma PayoutsCovered(env: Env, sec: Secrets, q: Asked, d: nat, denom: Bytes, s: Pool, msg: MsgTransact,
                       ns: set<Fe>, c: Created)
    requires PoolInv(env, d, s) && CollisionFree(env.hash2, q) && ForestAsked(env.hash2, q, d, s.notes)
    requires ValidateTransact(env, msg) == None && |msg.nullifiers| == |msg.merkleRoots| == |msg.outputs| == 2
    requires SpendInputsOf(env, s.notes, s.nullifiers, msg) == Ok(ns)
    requires CreateOutputs(env, s.params.Depth(), s.notes, msg) == Ok(c)
    requires AssembleTransactPublicInputs(env, msg, s.params).Ok?
    requires TransactSound(env, sec, q, d, AssembleTransactPublicInputs(env, msg, s.params).value)
    requires Solvent(env, sec, denom, s)
    ensures Total(sec.value, Unspent(sec, c.notes.used, ns)) + Paid(env, msg.withdrawAmount) + Paid(env, msg.relayerFee)
         <= Balance(s.bank, env.moduleAddr, denom)
    ensures Paid(env, msg.withdrawAmount) >= 0 && Paid(env, msg.relayerFee) >= 0
  {
    hide PoolInv, CollisionFree, ForestAsked, Total, Unspent, InputOk, SpendInputsOf, CreateOutputs, Balance,
      AssembleTransactPublicInputs;
    var pi := AssembleTransactPublicInputs(env, msg, s.params).value;
    VectorParts(env, msg, s.params, pi);
    AmountsNotReduced(env, msg, s.params, pi);
    SpendSlots(msg, pi);
    hide ValidateTransact, SpendInputs;
    var o1, o2 :| InputOk(env, sec, q, d, pi[0], pi[2], o1) && InputOk(env, sec, q, d, pi[1], pi[3], o2)
                  && Balances(sec, pi, o1, o2);
    SlotsMoveOwed(env, sec, q, d, s, msg, ns, c, o1, o2);
  }

  lemma SpendSlots(msg: MsgTransact, pi: seq<Fe>)
    requires |msg.nullifiers| == |msg.merkleRoots| == |msg.outputs| == 2
    requires |pi| == TRANSACT_PI_COUNT && pi[..6] == SpendInputs(msg)
    ensures pi[0] == SetBytes(msg.nullifiers[0]) && pi[1] == SetBytes(msg.nullifiers[1])
    ensures pi[2] == SetBytes(msg.merkleRoots[0]) && pi[3] == SetBytes(msg.merkleRoots[1])
    ensures pi[4] == SetBytes(msg.outputs[0].noteHash) && pi[5] == SetBytes(msg.outputs[1].noteHash)
  {
    var v := pi[..6];
    assert pi[0] == v[0] && pi[1] == v[1] && pi[2] == v[2] && pi[3] == v[3] && pi[4] == v[4] && pi[5] == v[5];
  }

  lemma TransactKeepsSolvent(env: Env, sec: Secrets, q: Asked, d: nat, denom: Bytes, s: Pool, msg: MsgTransact,
                             o: Outcome)
    requires PoolInv(env, d, s) && FairStep(env, sec, q, d, denom, s, TransactMsg(msg))
    requires ValidateTransact(env, msg) == None && |msg.nullifiers| == |msg.merkleRoots| == |msg.outputs| == 2
    requires Transact(env, s, msg) == Ok(o) && Solvent(env, sec, denom, s)
    ensures Solvent(env, sec, denom, o.pool)
  {
    hide PoolInv, CollisionFree, ForestAsked, Total, Unspent, Transact, ValidateTransact, TransactSound, PayBoth,
      Balance, SpendInputsOf, CreateOutputs, Received, Paid;
    TransactParts(env, s, msg, o);
    var c := CreateOutputs(env, s.params.Depth(), s.notes, msg).value;
    PayoutsCovered(env, sec, q, d, denom, s, msg, o.pool.nullifiers, c);
    PayBothMoves(env, s, msg, o.pool.bank, env.moduleAddr, denom);
    ReceivedNonNegative(env, s, msg, o.pool.bank, env.moduleAddr, denom);
  }

  lemma ReceivedNonNegative(env: Env, s: Pool, msg: MsgTransact, b: Bank, who: Bytes, den: Bytes)
    requires PayBoth(env, s.params, s.bank, msg) == Ok(b)
    ensures Received(env, msg.withdrawAmount, msg.denom, msg.withdrawAddress, who, den) >= 0
    ensures Received(env, msg.relayerFee, msg.denom, msg.sender, who, den) >= 0
    ensures Paid(env, msg.withdrawAmount) >= 0 && Paid(env, msg.relayerFee) >= 0
  {
    hide Send;
  }

  // ===== steps and runs =====

  lemma DepositStep(env: Env, sec: Secrets, q: Asked, d: nat, denom: Bytes, s: Pool, msg: Msg, o: Outcome)
    requires msg.DepositMsg? && Deposit(env, s, msg.deposit, msg.txHash) == Ok(o)
    requires FairStep(env, sec, q, d, denom, s, msg) && Solvent(env, sec, denom, s)
    ensures Solvent(env, sec, denom, o.pool)
  {
    hide CollisionFree, ForestAsked, Deposit, Solvent, DepositSound, Parse, VerifyProof;
    DepositProved(env, s, msg.deposit, msg.txHash, o);
    DepositKeepsSolvent(env, sec, d, denom, s, msg.deposit, msg.txHash, o);
  }

  lemma TransactStep(env: Env, sec: Secrets, q: Asked, d: nat, denom: Bytes, s: Pool, msg: Msg, o: Outcome)
    requires msg.TransactMsg? && ValidateTransact(env, msg.transact) == None
    requires |msg.transact.nullifiers| == |msg.transact.merkleRoots| == |msg.transact.outputs| == 2
    requires Transact(env, s, msg.transact) == Ok(o)
    requires PoolInv(env, d, s) && FairStep(env, sec, q, d, denom, s, msg) && Solvent(env, sec, denom, s)
    ensures Solvent(env, sec, denom, o.pool)
  {
    hide PoolInv, CollisionFree, ForestAsked, Transact, Solvent, TransactSound, ValidateTransact, CheckTransactProof;
    TransactProved(env, s, msg.transact, o);
    TransactKeepsSolvent(env, sec, q, d, denom, s, msg.transact, o);
  }

  lemma StepKeepsSolvent(env: Env, sec: Secrets, q: Asked, d: nat, denom: Bytes, s: Pool, msg: Msg)
    requires PoolInv(env, d, s) && FairStep(env, sec, q, d, denom, s, msg) && Solvent(env, sec, denom, s)
    ensures Solvent(env, sec, denom, Step(env, s, msg))
  {
    hide PoolInv, FairStep, Transact, Deposit, Solvent, ValidateTransact, Register, UpdateParams, SetVerificationKey;
    var r := Deliver(env, s, msg);
    if r.Ok? {
      match msg
      case DepositMsg(_, _) => DepositStep(env, sec, q, d, denom, s, msg, r.value);
      case TransactMsg(m) =>
        ValidatedFields(env, m);
        TransactStep(env, sec, q, d, denom, s, msg, r.value);
      case _ => OthersOweTheSame(env, sec, denom, s, msg, r.value);
    }
  }

  /** No deposit passes without a proof the verifier accepts under the stored key. */
  lemma DepositProved(env: Env, s: Pool, msg: MsgDeposit, txHash: Bytes, o: Outcome)
    requires Deposit(env, s, msg, txHash) == Ok(o)
    ensures Parse(msg.publicInputs).Some?
    ensures DEPOSIT in s.vks && env.verify(s.vks[DEPOSIT], msg.proof, Parse(msg.publicInputs).value)
  {
    hide Parse, InsertNote, Send, VerifyDepositPublicInputs;
    DepositParts(env, s, msg, txHash, o);
  }

  /** No transaction passes without a proof of the assembled vector that the verifier accepts
      under the stored key. */
  lemma TransactProved(env: Env, s: Pool, msg: MsgTransact, o: Outcome)
    requires |msg.nullifiers| == |msg.merkleRoots| == |msg.outputs| == 2
    requires Transact(env, s, msg) == Ok(o)
    ensures AssembleTransactPublicInputs(env, msg, s.params).Ok? && TRANSACT in s.vks
    ensures env.verify(s.vks[TRANSACT], msg.proof, AssembleTransactPublicInputs(env, msg, s.params).value)
  {
    hide Transact, AssembleTransactPublicInputs;
    TransactParts(env, s, msg, o);
  }

  lemma OthersOweTheSame(env: Env, sec: Secrets, denom: Bytes, s: Pool, msg: Msg, o: Outcome)
    requires Deliver(env, s, msg) == Ok(o) && !msg.DepositMsg? && !msg.TransactMsg?
    requires Solvent(env, sec, denom, s)
    ensures Solvent(env, sec, denom, o.pool)
  {
    hide R.InsertReg, CheckRegister, Total, Unspent, Balance;
  }

  ghost predicate FairRun(env: Env, sec: Secrets, q: Asked, d: nat, denom: Bytes, s: Pool, msgs: seq<Msg>)
    decreases |msgs|
  {
    |msgs| > 0 ==> FairStep(env, sec, q, d, denom, s, msgs[0])
                   && FairRun(env, sec, q, d, denom, Step(env, s, msgs[0]), msgs[1..])
  }

  /** Along every fair run the module balance covers all unspent notes. */
  lemma {:induction false} AlwaysSolvent(env: Env, sec: Secrets, q: Asked, d: nat, denom: Bytes, s: Pool,
                                         msgs: seq<Msg>)
    requires PoolInv(env, d, s) && Solvent(env, sec, denom, s)
    requires FairRun(env, sec, q, d, denom, s, msgs)
    ensures Solvent(env, sec, denom, Run(env, s, msgs)) && PoolInv(env, d, Run(env, s, msgs))
    decreases |msgs|
  {
    if |msgs| > 0 {
      assert KeepsDepth(d, msgs[0]);
      hide PoolInv, Solvent, Step, FairStep;
      StepKeepsInv(env, d, s, msgs[0]);
      StepKeepsSolvent(env, sec, q, d, denom, s, msgs[0]);
      AlwaysSolvent(env, sec, q, d, denom, Step(env, s, msgs[0]), msgs[1..]);
    }
  }

  lemma StartSolvent(env: Env, sec: Secrets, denom: Bytes, params: Params, bank: Bank)
    ensures Solvent(env, sec, denom, StartState(params, bank))
  {
    assert Unspent(sec, {}, {}) == {};
  }

  /** A transaction that passes every other check is never refused for lack of funds. */
  lemma PayoutNeverShort(env: Env, sec: Secrets, q: Asked, d: nat, denom: Bytes, s: Pool, msg: MsgTransact)
    requires PoolInv(env, d, s) && FairStep(env, sec, q, d, denom, s, TransactMsg(msg)) && Solvent(env, sec, denom, s)
    requires ValidateTransact(env, msg) == None && |msg.nullifiers| == |msg.merkleRoots| == |msg.outputs| == 2
    ensures Transact(env, s, msg) != Err(InsufficientFunds)
  {
    hide PoolInv, CollisionFree, ForestAsked, Total, Unspent, ValidateTransact, TransactSound, Balance, PayOut,
      R.RegRoot;
    SpendNeverShort(env, s, msg);
    CreateNeverShort(env, s, msg);
    var ns := SpendInputsOf(env, s.notes, s.nullifiers, msg);
    var c := CreateOutputs(env, s.params.Depth(), s.notes, msg);
    if ns.Ok? && CheckTransactProof(env, s.params, s.vks, msg) == None && c.Ok? {
      PayoutsCovered(env, sec, q, d, denom, s, msg, ns.value, c.value);
      PayNeverShort(env, s, msg, denom);
    }
  }

  lemma SpendNeverShort(env: Env, s: Pool, msg: MsgTransact)
    requires |msg.nullifiers| >= 2 && |msg.merkleRoots| >= 2
    ensures SpendInputsOf(env, s.notes, s.nullifiers, msg) != Err(InsufficientFunds)
  {
    hide IsValidRootAnyTree;
  }

  lemma CreateNeverShort(env: Env, s: Pool, msg: MsgTransact)
    requires |msg.nullifiers| >= 2 && |msg.merkleRoots| >= 2 && |msg.outputs| >= 2
    ensures CreateOutputs(env, s.params.Depth(), s.notes, msg) != Err(InsufficientFunds)
    ensures CheckTransactProof(env, s.params, s.vks, msg) != Some(InsufficientFunds)
  {
    hide Prepared, Append;
  }

  lemma PayNeverShort(env: Env, s: Pool, msg: MsgTransact, denom: Bytes)
    requires OneDenom(s.params, denom)
    requires Paid(env, msg.withdrawAmount) >= 0 && Paid(env, msg.relayerFee) >= 0
    requires Paid(env, msg.withdrawAmount) + Paid(env, msg.relayerFee) <= Balance(s.bank, env.moduleAddr, denom)
    ensures PayBoth(env, s.params, s.bank, msg) != Err(InsufficientFunds)
  {
    hide Balance;
    var w := PayOut(env, s.params, s.bank, msg.withdrawAmount, msg.denom, msg.withdrawAddress, InvalidWithdraw);
    if w.Ok? {
      PayOutMoves(env, s.params, s.bank, msg.withdrawAmount, msg.denom, msg.withdrawAddress, InvalidWithdraw, w.value,
                  env.moduleAddr, denom);
    }
  }

  // ===== from the start =====

  /** No transaction of the run is refused for lack of funds. */
  ghost predicate NeverShort(env: Env, s: Pool, msgs: seq<Msg>)
    decreases |msgs|
  {
    |msgs| > 0 ==>
      && (msgs[0].TransactMsg? ==> Deliver(env, s, msgs[0]) != Err(InsufficientFunds))
      && NeverShort(env, Step(env, s, msgs[0]), msgs[1..])
  }

  lemma DeliveredNeverShort(env: Env, sec: Secrets, q: Asked, d: nat, denom: Bytes, s: Pool, msg: Msg)
    requires PoolInv(env, d, s) && FairStep(env, sec, q, d, denom, s, msg) && Solvent(env, sec, denom, s)
    ensures msg.TransactMsg? ==> Deliver(env, s, msg) != Err(InsufficientFunds)
  {
    hide PoolInv, FairStep, Solvent, Transact;
    if msg.TransactMsg? && Validate(env, msg) == None {
      ValidatedFields(env, msg.transact);
      PayoutNeverShort(env, sec, q, d, denom, s, msg.transact);
    }
  }

  lemma {:induction false} RunNeverShort(env: Env, sec: Secrets, q: Asked, d: nat, denom: Bytes, s: Pool,
                                         msgs: seq<Msg>)
    requires PoolInv(env, d, s) && Solvent(env, sec, denom, s)
    requires FairRun(env, sec, q, d, denom, s, msgs)
    ensures NeverShort(env, s, msgs)
    decreases |msgs|
  {
    if |msgs| > 0 {
      assert KeepsDepth(d, msgs[0]);
      hide PoolInv, Solvent, Step, FairStep, Deliver;
      DeliveredNeverShort(env, sec, q, d, denom, s, msgs[0]);
      StepKeepsInv(env, d, s, msgs[0]);
      StepKeepsSolvent(env, sec, q, d, denom, s, msgs[0]);
      RunNeverShort(env, sec, q, d, denom, Step(env, s, msgs[0]), msgs[1..]);
    }
  }

  /** From an empty pool, along any fair run: the module account covers all unspent notes at
      the end, and no transaction on the way was refused for lack of funds. */
  lemma PoolAlwaysPays(env: Env, sec: Secrets, q: Asked, denom: Bytes, params: Params, bank: Bank, msgs: seq<Msg>)
    requires FairRun(env, sec, q, params.Depth(), denom, StartState(params, bank), msgs)
    ensures NeverShort(env, StartState(params, bank), msgs)
    ensures Solvent(env, sec, denom, Run(env, StartState(params, bank), msgs))
  {
    hide PoolInv, Solvent, FairRun, Run, NeverShort, StartState;
    var s := StartState(params, bank);
    StartInv(env, params, bank);
    StartSolvent(env, sec, denom, params, bank);
    RunNeverShort(env, sec, q, params.Depth(), denom, s, msgs);
    AlwaysSolvent(env, sec, q, params.Depth(), denom, s, msgs);
  }
}
