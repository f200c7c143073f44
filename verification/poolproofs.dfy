/** What every run of the chain keeps: well-formed trees, single spend, exact payouts. */
module PoolProofs {
  import opened Field
  import opened Types
  import opened Forest
  import opened ForestInvariant
  import opened PublicInputs
  import opened Pool
  import R = Registration

  ghost predicate PoolInv(env: Env, d: nat, s: Pool) {
    && s.params.Depth() == d
    && Inv(env.hash2, d, s.notes)
    && R.RegInv(env.hash2, DEFAULT_REG_TREE_DEPTH, s.ids)
  }

  /** Governance leaves the depth of the note trees alone. */
  predicate KeepsDepth(d: nat, msg: Msg) {
    msg.UpdateParamsMsg? ==> msg.params.Depth() == d
  }

  function StartState(params: Params, bank: Bank): Pool {
    Pool(params, EMPTY, R.NOBODY, {}, map[], map[], bank)
  }

  lemma StartInv(env: Env, params: Params, bank: Bank)
    ensures PoolInv(env, params.Depth(), StartState(params, bank))
  {
    EmptyInv(env.hash2, params.Depth());
    R.NobodyInv(env.hash2, DEFAULT_REG_TREE_DEPTH);
  }

  lemma CreateOutputKeepsInv(env: Env, d: nat, c: Created, noteHash: Bytes, c': Created)
    requires Inv(env.hash2, d, c.notes) && CreateOutput(env, d, c, noteHash) == Ok(c')
    ensures Inv(env.hash2, d, c'.notes)
  {
    hide Inv, InsertNote;
    if noteHash != ZERO32 {
      InsertNoteKeepsInv(env.hash2, d, c.notes, noteHash, InsertNote(env.hash2, d, c.notes, noteHash));
    }
  }

  lemma CreateOutputsKeepInv(env: Env, s: Pool, msg: MsgTransact, c: Created)
    requires |msg.outputs| >= 2 && CreateOutputs(env, s.params.Depth(), s.notes, msg) == Ok(c)
    requires Inv(env.hash2, s.params.Depth(), s.notes)
    ensures Inv(env.hash2, s.params.Depth(), c.notes)
  {
    hide Inv, CreateOutput;
    var d, none := s.params.Depth(), Created(s.notes, MsgTransactResponse([], []));
    var c1 := CreateOutput(env, d, none, msg.outputs[0].noteHash).value;
    CreateOutputKeepsInv(env, d, none, msg.outputs[0].noteHash, c1);
    CreateOutputKeepsInv(env, d, c1, msg.outputs[1].noteHash, c);
  }

  /** What a successful transact message did. */
  lemma TransactParts(env: Env, s: Pool, msg: MsgTransact, o: Outcome)
    requires |msg.nullifiers| >= 2 && |msg.merkleRoots| >= 2 && |msg.outputs| >= 2
    requires Transact(env, s, msg) == Ok(o)
    ensures R.RegRoot(env.hash2, s.ids) == msg.registrationRoot
    ensures SpendInputsOf(env, s.notes, s.nullifiers, msg) == Ok(o.pool.nullifiers)
    ensures CheckTransactProof(env, s.params, s.vks, msg) == None
    ensures CreateOutputs(env, s.params.Depth(), s.notes, msg).Ok?
    ensures o.pool.notes == CreateOutputs(env, s.params.Depth(), s.notes, msg).value.notes
    ensures o.response == Transacted(CreateOutputs(env, s.params.Depth(), s.notes, msg).value.response)
    ensures PayBoth(env, s.params, s.bank, msg) == Ok(o.pool.bank)
    ensures o.pool.params == s.params && o.pool.ids == s.ids && o.pool.vks == s.vks
  {
    hide SpendInputsOf, CheckTransactProof, CreateOutputs, PayBoth, R.RegRoot;
  }

  lemma DepositParts(env: Env, s: Pool, msg: MsgDeposit, txHash: Bytes, o: Outcome)
    requires Deposit(env, s, msg, txHash) == Ok(o)
    ensures CheckDeposit(env, s.params, s.vks, msg).Ok? && env.bech32(msg.sender).Some?
    ensures Send(s.bank, env.bech32(msg.sender).value, env.moduleAddr, msg.denom,
                 CheckDeposit(env, s.params, s.vks, msg).value) == Some(o.pool.bank)
    ensures InsertNote(env.hash2, s.params.Depth(), s.notes, msg.noteCommitment).Ok?
    ensures o.pool.notes == InsertNote(env.hash2, s.params.Depth(), s.notes, msg.noteCommitment).value.forest
    ensures o.pool.nullifiers == s.nullifiers && o.pool.params == s.params && o.pool.ids == s.ids
    ensures o.pool.vks == s.vks
  {
    hide InsertNote, Send;
  }

  lemma RegisterParts(env: Env, s: Pool, msg: MsgRegister, txHash: Bytes, o: Outcome)
    requires Register(env, s, msg, txHash) == Ok(o)
    ensures R.InsertReg(env.hash2, DEFAULT_REG_TREE_DEPTH, s.ids, msg.identityCommitment) == Ok(o.pool.ids)
    ensures o.pool.notes == s.notes && o.pool.params == s.params && o.pool.nullifiers == s.nullifiers
  {
    hide R.InsertReg, CheckRegister;
  }

  lemma HandleKeepsInv(env: Env, d: nat, s: Pool, msg: Msg, o: Outcome)
    requires PoolInv(env, d, s) && KeepsDepth(d, msg) && Deliver(env, s, msg) == Ok(o)
    ensures PoolInv(env, d, o.pool)
  {
    hide Inv, R.RegInv, Register, Transact, Deposit, InsertNote, R.InsertReg, CreateOutputs, ValidateTransact;
    match msg
    case RegisterMsg(m, txHash) =>
      RegisterParts(env, s, m, txHash, o);
      var g := R.InsertReg(env.hash2, DEFAULT_REG_TREE_DEPTH, s.ids, m.identityCommitment);
      R.InsertRegKeepsInv(env.hash2, DEFAULT_REG_TREE_DEPTH, s.ids, m.identityCommitment, g);
    case DepositMsg(m, txHash) =>
      DepositParts(env, s, m, txHash, o);
      InsertNoteKeepsInv(env.hash2, d, s.notes, m.noteCommitment, InsertNote(env.hash2, d, s.notes, m.noteCommitment));
    case TransactMsg(m) =>
      ValidatedFields(env, m);
      TransactParts(env, s, m, o);
      CreateOutputsKeepInv(env, s, m, CreateOutputs(env, s.params.Depth(), s.notes, m).value);
    case _ =>
  }

  lemma StepKeepsInv(env: Env, d: nat, s: Pool, msg: Msg)
    requires PoolInv(env, d, s) && KeepsDepth(d, msg)
    ensures PoolInv(env, d, Step(env, s, msg))
  {
    hide PoolInv, Deliver;
    var r := Deliver(env, s, msg);
    if r.Ok? { HandleKeepsInv(env, d, s, msg, r.value); }
  }

  /** Every reachable state is well formed: each tree holds the padded roots of its leaves,
      its ring the last 100 of them, the index counts the slots, and the used-sets are the
      leaf values. */
  lemma {:induction false} RunKeepsInv(env: Env, d: nat, s: Pool, msgs: seq<Msg>)
    requires PoolInv(env, d, s) && forall m :: m in msgs ==> KeepsDepth(d, m)
    ensures PoolInv(env, d, Run(env, s, msgs))
    decreases |msgs|
  {
    hide PoolInv, Step;
    if |msgs| > 0 {
      StepKeepsInv(env, d, s, msgs[0]);
      RunKeepsInv(env, d, Step(env, s, msgs[0]), msgs[1..]);
    }
  }

  // ===== single spend =====

  function ConsumedSlot(n: Bytes): seq<Fe> {
    if n == ZERO32 then [] else [SetBytes(n)]
  }

  /** The field values a message spends: its nullifiers, dummies left out. */
  function Consumed(env: Env, s: Pool, msg: Msg): seq<Fe> {
    if msg.TransactMsg? && Deliver(env, s, msg).Ok?
    then ConsumedSlot(msg.transact.nullifiers[0]) + ConsumedSlot(msg.transact.nullifiers[1])
    else []
  }

  function ConsumedBy(env: Env, s: Pool, msgs: seq<Msg>): seq<Fe>
    decreases |msgs|
  {
    if |msgs| == 0 then []
    else Consumed(env, s, msgs[0]) + ConsumedBy(env, Step(env, s, msgs[0]), msgs[1..])
  }

  /** The values in `xs` are new and different from one another, and `after` adds exactly them. */
  ghost predicate Spends(before: set<Fe>, xs: seq<Fe>, after: set<Fe>) {
    && (forall i, j :: 0 <= i < j < |xs| ==> xs[i] != xs[j])
    && (forall i :: 0 <= i < |xs| ==> xs[i] !in before)
    && after == before + (set i | 0 <= i < |xs| :: xs[i])
  }

  lemma SpendsTwice(a: set<Fe>, xs: seq<Fe>, b: set<Fe>, ys: seq<Fe>, c: set<Fe>)
    requires Spends(a, xs, b) && Spends(b, ys, c)
    ensures Spends(a, xs + ys, c)
  {
    var zs := xs + ys;
    forall i, j | 0 <= i < j < |zs| ensures zs[i] != zs[j] {
      if i < |xs| <= j { assert xs[i] in b && zs[j] == ys[j - |xs|]; }
    }
    forall x ensures x in c <==> x in a + (set i | 0 <= i < |zs| :: zs[i]) {
      if x in c && x !in b {
        var i :| 0 <= i < |ys| && ys[i] == x;
        assert zs[|xs| + i] == x;
      } else if x in b && x !in a {
        var i :| 0 <= i < |xs| && xs[i] == x;
        assert zs[i] == x;
      }
    }
  }

  lemma SpendInputSpends(env: Env, notes: Forest, ns: set<Fe>, n: Bytes, root: Bytes, ns': set<Fe>)
    requires SpendInput(env, notes, ns, n, root) == Ok(ns')
    ensures Spends(ns, ConsumedSlot(n), ns')
  {
    var xs := ConsumedSlot(n);
    var added := set i | 0 <= i < |xs| :: xs[i];
    if n != ZERO32 {
      assert xs[0] in added;
      assert added == {SetBytes(n)};
    }
    assert ns' == ns + added;
  }

  lemma DeliverSpends(env: Env, s: Pool, msg: Msg)
    ensures Spends(s.nullifiers, Consumed(env, s, msg), Step(env, s, msg).nullifiers)
  {
    var r := Deliver(env, s, msg);
    if msg.TransactMsg? && r.Ok? {
      hide Transact, SpendInput, Spends;
      var m := msg.transact;
      ValidatedFields(env, m);
      TransactParts(env, s, m, r.value);
      var ns1 := SpendInput(env, s.notes, s.nullifiers, m.nullifiers[0], m.merkleRoots[0]).value;
      SpendInputSpends(env, s.notes, s.nullifiers, m.nullifiers[0], m.merkleRoots[0], ns1);
      SpendInputSpends(env, s.notes, ns1, m.nullifiers[1], m.merkleRoots[1], r.value.pool.nullifiers);
      SpendsTwice(s.nullifiers, ConsumedSlot(m.nullifiers[0]), ns1,
                  ConsumedSlot(m.nullifiers[1]), r.value.pool.nullifiers);
    } else {
      OtherKeepsNullifiers(env, s, msg);
    }
  }

  lemma OtherKeepsNullifiers(env: Env, s: Pool, msg: Msg)
    requires !(msg.TransactMsg? && Deliver(env, s, msg).Ok?)
    ensures Step(env, s, msg).nullifiers == s.nullifiers
  {
    hide CheckDeposit, InsertNote, R.InsertReg, Send;
  }

  /** Single spend, over any run from any state: no field value is consumed twice, whatever
      its encoding and whichever slot or message names it, none that was already spent is
      consumed, and the spent set grows by exactly the consumed values. */
  lemma {:induction false} SingleSpend(env: Env, s: Pool, msgs: seq<Msg>)
    ensures Spends(s.nullifiers, ConsumedBy(env, s, msgs), Run(env, s, msgs).nullifiers)
    decreases |msgs|
  {
    if |msgs| > 0 {
      hide Spends, Step, Consumed;
      var s' := Step(env, s, msgs[0]);
      DeliverSpends(env, s, msgs[0]);
      SingleSpend(env, s', msgs[1..]);
      SpendsTwice(s.nullifiers, Consumed(env, s, msgs[0]), s'.nullifiers,
                  ConsumedBy(env, s', msgs[1..]), Run(env, s, msgs).nullifiers);
    }
  }

  /** Re-encoding a spent nullifier does not revive it. */
  lemma SpentUnderEveryEncoding(env: Env, s: Pool, msg: MsgTransact, k: nat)
    requires k < 2 && |msg.nullifiers| >= 2 && |msg.merkleRoots| >= 2 && |msg.outputs| >= 2
    requires msg.nullifiers[k] != ZERO32 && SetBytes(msg.nullifiers[k]) in s.nullifiers
    ensures Transact(env, s, msg).Err?
  {
    hide IsValidRootAnyTree, CheckTransactProof, CreateOutputs, PayBoth, R.RegRoot;
  }

  // ===== exact payouts =====

  lemma SendMoves(bank: Bank, sender: Bytes, receiver: Bytes, denom: Bytes, amt: nat, b: Bank, who: Bytes, den: Bytes)
    requires Send(bank, sender, receiver, denom, amt) == Some(b)
    ensures Balance(b, who, den) == Balance(bank, who, den)
              - (if who == sender && den == denom then amt else 0)
              + (if who == receiver && den == denom then amt else 0)
  {
  }

  /** What `PayOut` gives account `who`. */
  function Received(env: Env, amount: Bytes, denom: Bytes, address: Bytes, who: Bytes, den: Bytes): int {
    if !NoAmount(amount) && env.parseInt(amount).Some? && env.bech32(address) == Some(who) && den == denom
    then env.parseInt(amount).value else 0
  }

  function Paid(env: Env, amount: Bytes): int {
    if AmountOf(env, amount).Some? then AmountOf(env, amount).value else 0
  }

  lemma PayOutMoves(env: Env, params: Params, bank: Bank, amount: Bytes, denom: Bytes, address: Bytes, e: Error,
                    b: Bank, who: Bytes, den: Bytes)
    requires PayOut(env, params, bank, amount, denom, address, e) == Ok(b)
    ensures Balance(b, who, den) == Balance(bank, who, den) + Received(env, amount, denom, address, who, den)
              - (if who == env.moduleAddr && den == denom then Paid(env, amount) else 0)
    ensures Paid(env, amount) > 0 ==> denom in params.supportedDenoms && env.bech32(address).Some?
                                      && !env.blocked(env.bech32(address).value)
    ensures AmountOf(env, amount).Some? && Paid(env, amount) >= 0
  {
    if !NoAmount(amount) {
      SendMoves(bank, env.moduleAddr, env.bech32(address).value, denom, env.parseInt(amount).value, b, who, den);
    }
  }

  /** A successful transact moves exactly the integers its proof was checked against: input 6
      to the withdraw address and input 11 to the sender, out of the module account, in one
      supported denom; no other balance changes. */
  lemma TransactPaysExactly(env: Env, s: Pool, msg: MsgTransact, o: Outcome, pi: seq<Fe>, who: Bytes, den: Bytes)
    requires ValidateTransact(env, msg) == None && |msg.nullifiers| == |msg.merkleRoots| == |msg.outputs| == 2
    requires Transact(env, s, msg) == Ok(o)
    requires AssembleTransactPublicInputs(env, msg, s.params) == Ok(pi)
    ensures |pi| == TRANSACT_PI_COUNT
    ensures Balance(o.pool.bank, who, den) == Balance(s.bank, who, den)
              - (if who == env.moduleAddr && den == msg.denom then (pi[6] as int) + (pi[11] as int) else 0)
              + (if pi[6] != 0 && env.bech32(msg.withdrawAddress) == Some(who) && den == msg.denom
                 then pi[6] as int else 0)
              + (if pi[11] != 0 && env.bech32(msg.sender) == Some(who) && den == msg.denom then pi[11] as int else 0)
    ensures pi[6] > 0 || pi[11] > 0 ==> msg.denom in s.params.supportedDenoms
  {
    hide Transact, PayBoth, Balance;
    TransactParts(env, s, msg, o);
    AmountsNotReduced(env, msg, s.params, pi);
    VectorParts(env, msg, s.params, pi);
    hide ValidateTransact, AssembleTransactPublicInputs, AmountOf, Received, Paid, SpendInputs;
    ReceivedAmount(env, msg.withdrawAmount, msg.denom, msg.withdrawAddress, who, den, pi[6]);
    ReceivedAmount(env, msg.relayerFee, msg.denom, msg.sender, who, den, pi[11]);
    PayBothMoves(env, s, msg, o.pool.bank, who, den);
  }

  lemma ReceivedAmount(env: Env, amount: Bytes, denom: Bytes, address: Bytes, who: Bytes, den: Bytes, x: int)
    requires AmountOf(env, amount) == Some(x)
    ensures Paid(env, amount) == x
    ensures Received(env, amount, denom, address, who, den)
         == if x != 0 && env.bech32(address) == Some(who) && den == denom then x else 0
  {
  }

  lemma PayBothMoves(env: Env, s: Pool, msg: MsgTransact, b: Bank, who: Bytes, den: Bytes)
    requires PayBoth(env, s.params, s.bank, msg) == Ok(b)
    ensures Balance(b, who, den) == Balance(s.bank, who, den)
              - (if who == env.moduleAddr && den == msg.denom
                 then Paid(env, msg.withdrawAmount) + Paid(env, msg.relayerFee) else 0)
              + Received(env, msg.withdrawAmount, msg.denom, msg.withdrawAddress, who, den)
              + Received(env, msg.relayerFee, msg.denom, msg.sender, who, den)
    ensures Paid(env, msg.withdrawAmount) > 0 || Paid(env, msg.relayerFee) > 0 ==>
              msg.denom in s.params.supportedDenoms
  {
    hide PayOut, Balance, Received, Paid;
    var b1 := PayOut(env, s.params, s.bank, msg.withdrawAmount, msg.denom, msg.withdrawAddress, InvalidWithdraw).value;
    PayOutMoves(env, s.params, s.bank, msg.withdrawAmount, msg.denom, msg.withdrawAddress, InvalidWithdraw, b1,
                who, den);
    PayOutMoves(env, s.params, b1, msg.relayerFee, msg.denom, msg.sender, InvalidAddress, b, who, den);
  }
}
