/** Exactly which messages the chain accepts, and the whole state a success leaves: every check
    a handler makes appears here as a condition on the message and the state. */
module Acceptance {
  import opened Field
  import opened Merkle
  import opened Types
  import opened Forest
  import opened ForestInvariant
  import opened PublicInputs
  import opened Pool
  import PP = PoolProofs
  import R = Registration

  // ===== shared parts =====

  /** In any forest whatsoever an insert is refused for a used value and for nothing else. */
  lemma InsertAccepted(h: Hash2, d: nat, f: Forest, c: Bytes)
    ensures InsertNote(h, d, f, c).Ok? <==> SetBytes(c) !in f.used
    ensures InsertNote(h, d, f, c).Err? ==> InsertNote(h, d, f, c).error == DuplicateCommitment
  {
    hide SetBytes, Append, ZeroFrontier, ZeroRootBytes, Put, Reindex;
  }

  lemma InsertMarks(h: Hash2, d: nat, f: Forest, c: Bytes)
    requires InsertNote(h, d, f, c).Ok?
    ensures InsertNote(h, d, f, c).value.forest.used == f.used + {SetBytes(c)}
  {
    hide SetBytes, InsertNote;
    InsertUses(h, d, f, c, InsertNote(h, d, f, c).value);
  }

  /** The verifier, with the key stored for this circuit, accepts the proof of this vector. */
  predicate Proved(env: Env, s: Pool, circuit: Bytes, proof: Bytes, pi: seq<Fe>) {
    circuit in s.vks && env.verify(s.vks[circuit], proof, pi)
  }

  lemma ProofAccepted(env: Env, s: Pool, circuit: Bytes, proof: Bytes, pi: seq<Fe>)
    ensures VerifyProof(env, s.vks, circuit, proof, pi) == None <==> Proved(env, s, circuit, proof, pi)
  {
  }

  /** With an auditor configured, ciphertexts for it must be there, and never too long. */
  predicate AuditorServed(params: Params, data: Bytes) {
    |data| <= 4096 && (|params.auditorPubKey| > 0 ==> |data| > 0)
  }

  function WithAuditorData(m: map<Bytes, Bytes>, txHash: Bytes, data: Bytes): map<Bytes, Bytes> {
    if |data| == 0 then m else m[txHash := data]
  }

  // ===== registrations =====

  ghost predicate RegisterNames(s: Pool, m: MsgRegister, pi: seq<Fe>) {
    && m.publicInputs == Concat(pi) && |pi| == 9
    && m.identityCommitment == FeBytes(pi[0])
    && |s.params.chainBinding| > 0 && pi[1] == SetBytes(s.params.chainBinding)
    && NamesAuditor(s.params.auditorPubKey, pi[2], pi[3])
  }

  ghost predicate RegisterVectorOk(env: Env, s: Pool, m: MsgRegister, pi: seq<Fe>) {
    RegisterNames(s, m, pi) && Proved(env, s, REGISTRATION, m.proof, pi)
  }

  /** A registration must be well formed, carry a proof of a vector that names this identity,
      this chain and the auditor, and bring a new value to a tree with room. */
  ghost predicate RegisterOk(env: Env, s: Pool, m: MsgRegister) {
    && env.bech32(m.sender).Some? && ValidFieldBytes(m.identityCommitment) && |m.proof| > 0
    && AuditorServed(s.params, m.auditorEncryptedData)
    && (exists pi :: RegisterVectorOk(env, s, m, pi))
    && SetBytes(m.identityCommitment) !in s.ids.used && s.ids.next < Pow2(20)
  }

  lemma RegisterChecked(env: Env, s: Pool, m: MsgRegister)
    requires |m.auditorEncryptedData| <= 4096
    ensures CheckRegister(env, s.params, s.vks, m) == None <==>
              AuditorServed(s.params, m.auditorEncryptedData) && exists pi :: RegisterVectorOk(env, s, m, pi)
  {
    hide Parse, Concat, SetBytes, FeBytes, NamesAuditor, VerifyRegisterPublicInputs, VerifyProof, Proved;
    if Parse(m.publicInputs).Some? {
      var pi := Parse(m.publicInputs).value;
      ParseInvertsConcat(m.publicInputs, pi);
      RegisterVector(pi, m.identityCommitment, s.params);
      ProofAccepted(env, s, REGISTRATION, m.proof, pi);
      if CheckRegister(env, s.params, s.vks, m) == None { assert RegisterVectorOk(env, s, m, pi); }
    }
    forall pi | RegisterVectorOk(env, s, m, pi) ensures Parse(m.publicInputs) == Some(pi) {
      ParseInvertsConcat(m.publicInputs, pi);
    }
  }

  /** A registration is accepted if and only if all of that holds. */
  lemma RegisterAccepted(env: Env, s: Pool, m: MsgRegister, txHash: Bytes)
    ensures Deliver(env, s, RegisterMsg(m, txHash)).Ok? <==> RegisterOk(env, s, m)
  {
    hide CheckRegister, SetBytes, ValidFieldBytes, RegisterVectorOk, R.RegAppend, Pow2, Concat;
    if |m.auditorEncryptedData| <= 4096 { RegisterChecked(env, s, m); }
    forall pi | RegisterVectorOk(env, s, m, pi) ensures |m.publicInputs| >= 32 { VectorIsLong(env, s, m, pi); }
  }

  lemma VectorIsLong(env: Env, s: Pool, m: MsgRegister, pi: seq<Fe>)
    requires RegisterVectorOk(env, s, m, pi)
    ensures |m.publicInputs| == 288
  {
  }

  /** A successful registration appends its identity, reports its position and the padded root
      of all identities, keeps the auditor's data, and changes nothing else. */
  lemma RegisterAppends(env: Env, s: Pool, m: MsgRegister, txHash: Bytes, o: Outcome)
    requires R.RegInv(env.hash2, 20, s.ids) && Deliver(env, s, RegisterMsg(m, txHash)) == Ok(o)
    ensures R.RegLeaves(o.pool.ids) == R.RegLeaves(s.ids) + [SetBytes(m.identityCommitment)]
    ensures o.response == Leaf(|R.RegLeaves(s.ids)|, RootBytes(env.hash2, 20, R.RegLeaves(o.pool.ids)))
    ensures o.pool.ids.leaves == s.ids.leaves[s.ids.next := m.identityCommitment]
    ensures o.pool == s.(ids := o.pool.ids,
                         auditorData := WithAuditorData(s.auditorData, txHash, m.auditorEncryptedData))
  {
    hide CheckRegister, SetBytes, RootBytes, R.RegInv, R.RegRoot, R.RegWalkWrites, R.RegWalkRoot, R.RegLeaves, Pow2;
    PP.RegisterParts(env, s, m, txHash, o);
    R.InsertRegKeepsInv(env.hash2, 20, s.ids, m.identityCommitment, Ok(o.pool.ids));
    assert |R.RegLeaves(s.ids)| == s.ids.next;
  }

  /** The root a transaction must name is the padded root of all registered identities, from
      the empty tree on. */
  lemma RegRootIsPadded(h: Hash2, g: R.Reg)
    requires R.RegInv(h, 20, g)
    ensures R.RegRoot(h, g) == RootBytes(h, 20, R.RegLeaves(g))
  {
    hide FrontierOk, UsedOk, R.RegKeys, PaddedRoot, ZeroHash, Pow2, FeBytes;
    EmptyRoot(h, 20);
    if g.next == 0 { assert R.RegLeaves(g) == []; }
  }

  lemma EmptyRoot(h: Hash2, d: nat)
    ensures PaddedRoot(h, [], d) == ZeroHash(h, d)
  {
    EmptyTree(h, (l: nat) => 0, d);
  }

  // ===== deposits =====

  ghost predicate DepositNames(env: Env, s: Pool, m: MsgDeposit, amount: int, pi: seq<Fe>) {
    && m.publicInputs == Concat(pi) && |pi| == 8
    && m.noteCommitment == FeBytes(pi[0]) && pi[1] == amount % P && pi[2] == env.hash(Limbs(m.denom))
    && NamesAuditor(s.params.auditorPubKey, pi[3], pi[4])
  }

  ghost predicate DepositVectorOk(env: Env, s: Pool, m: MsgDeposit, amount: int, pi: seq<Fe>) {
    DepositNames(env, s, m, amount, pi) && Proved(env, s, DEPOSIT, m.proof, pi)
  }

  /** A deposit must be well formed, carry a proof of a vector that names this note, amount,
      denom and the auditor, be in a supported denom the sender has enough of, and bring a new
      note to a pool from which it can be withdrawn. */
  ghost predicate DepositOk(env: Env, s: Pool, m: MsgDeposit) {
    && env.bech32(m.sender).Some? && env.validDenom(m.denom)
    && env.parseInt(m.amount).Some? && env.parseInt(m.amount).value > 0
    && ValidFieldBytes(m.noteCommitment) && |m.proof| > 0
    && AuditorServed(s.params, m.auditorEncryptedData)
    && |s.params.chainBinding| > 0
    && (exists pi :: DepositVectorOk(env, s, m, env.parseInt(m.amount).value, pi))
    && m.denom in s.params.supportedDenoms
    && Balance(s.bank, env.bech32(m.sender).value, m.denom) >= env.parseInt(m.amount).value
    && SetBytes(m.noteCommitment) !in s.notes.used
  }

  lemma DepositChecked(env: Env, s: Pool, m: MsgDeposit)
    requires |m.auditorEncryptedData| <= 4096
    requires env.bech32(m.sender).Some? && env.validDenom(m.denom)
    requires env.parseInt(m.amount).Some? && env.parseInt(m.amount).value > 0
    ensures CheckDeposit(env, s.params, s.vks, m).Ok? <==>
              && AuditorServed(s.params, m.auditorEncryptedData) && |s.params.chainBinding| > 0
              && m.denom in s.params.supportedDenoms
              && exists pi :: DepositVectorOk(env, s, m, env.parseInt(m.amount).value, pi)
    ensures CheckDeposit(env, s.params, s.vks, m).Ok? ==>
              CheckDeposit(env, s.params, s.vks, m).value == env.parseInt(m.amount).value
  {
    hide Parse, Concat, SetBytes, FeBytes, Limbs, NamesAuditor, VerifyDepositPublicInputs, VerifyProof, Proved;
    var amount := env.parseInt(m.amount).value;
    if Parse(m.publicInputs).Some? {
      var pi := Parse(m.publicInputs).value;
      ParseInvertsConcat(m.publicInputs, pi);
      DepositVector(env, pi, m.noteCommitment, amount, m.denom, s.params);
      ProofAccepted(env, s, DEPOSIT, m.proof, pi);
      if CheckDeposit(env, s.params, s.vks, m).Ok? { assert DepositVectorOk(env, s, m, amount, pi); }
    }
    forall pi | DepositVectorOk(env, s, m, amount, pi) ensures Parse(m.publicInputs) == Some(pi) {
      ParseInvertsConcat(m.publicInputs, pi);
    }
  }

  lemma DepositVectorIsLong(env: Env, s: Pool, m: MsgDeposit, amount: int, pi: seq<Fe>)
    requires DepositVectorOk(env, s, m, amount, pi)
    ensures |m.publicInputs| == 256
  {
  }

  lemma SendAccepted(bank: Bank, sender: Bytes, receiver: Bytes, denom: Bytes, amt: nat)
    ensures Send(bank, sender, receiver, denom, amt).Some? <==> Balance(bank, sender, denom) >= amt
  {
  }

  /** A deposit is accepted if and only if all of that holds. */
  lemma DepositAccepted(env: Env, s: Pool, m: MsgDeposit, txHash: Bytes)
    ensures Deliver(env, s, DepositMsg(m, txHash)).Ok? <==> DepositOk(env, s, m)
  {
    hide CheckDeposit, SetBytes, ValidFieldBytes, DepositVectorOk, InsertNote, Send, Balance, Concat;
    if ValidateDeposit(env, m) == None {
      var amt := env.parseInt(m.amount).value;
      DepositChecked(env, s, m);
      SendAccepted(s.bank, env.bech32(m.sender).value, env.moduleAddr, m.denom, amt);
      InsertAccepted(env.hash2, s.params.Depth(), s.notes, m.noteCommitment);
    } else if DepositOk(env, s, m) {
      var amount := env.parseInt(m.amount).value;
      var pi :| DepositVectorOk(env, s, m, amount, pi);
      DepositVectorIsLong(env, s, m, amount, pi);
    }
  }

  /** Beside the note, the coins and the auditor's data a deposit changes nothing. */
  lemma DepositFrame(env: Env, s: Pool, m: MsgDeposit, txHash: Bytes, o: Outcome)
    requires Deliver(env, s, DepositMsg(m, txHash)) == Ok(o)
    ensures o.pool == s.(notes := o.pool.notes, bank := o.pool.bank,
                         auditorData := WithAuditorData(s.auditorData, txHash, m.auditorEncryptedData))
  {
    hide CheckDeposit, InsertNote, Send;
  }

  // ===== transactions =====

  /** An input slot is a dummy, or an unspent nullifier with an accepted root. */
  predicate InputSlotOk(env: Env, s: Pool, n: Bytes, root: Bytes) {
    n == ZERO32 || (SetBytes(n) !in s.nullifiers && IsValidRootAnyTree(env.hash2, s.notes, root))
  }

  predicate BothReal(a: Bytes, b: Bytes) { a != ZERO32 && b != ZERO32 }

  /** An output slot is a dummy or a new note. */
  predicate OutputSlotOk(s: Pool, c: Bytes) {
    c == ZERO32 || SetBytes(c) !in s.notes.used
  }

  predicate OutputsOk(s: Pool, a: Bytes, b: Bytes) {
    OutputSlotOk(s, a) && OutputSlotOk(s, b) && (BothReal(a, b) ==> a != b)
  }

  predicate NothingAsked(amount: Bytes) { amount == [] || amount == DIGIT_ZERO }

  /** The coins an amount string asks for. */
  function Asked(env: Env, amount: Bytes): int {
    if NothingAsked(amount) || env.parseInt(amount).None? then 0 else env.parseInt(amount).value
  }

  /** A payout asks for nothing, or for a positive 64-bit amount of a supported denom, to an
      address that may receive it. */
  predicate PayoutOk(env: Env, params: Params, amount: Bytes, denom: Bytes, address: Bytes) {
    !NothingAsked(amount) ==>
      && env.parseInt(amount).Some? && 0 < env.parseInt(amount).value < 0x1_0000_0000_0000_0000
      && |denom| > 0 && denom in params.supportedDenoms && env.validDenom(denom)
      && env.bech32(address).Some? && !env.blocked(env.bech32(address).value)
  }

  /** An amount string asks for nothing or writes a 64-bit number. */
  predicate WordAmount(env: Env, amount: Bytes) {
    !NothingAsked(amount) ==>
      env.parseInt(amount).Some? && 0 <= env.parseInt(amount).value < 0x1_0000_0000_0000_0000
  }

  /** The module account can pay both: the fee comes out of what the withdrawal left, unless
      that went to the module account itself. */
  predicate FundsOk(env: Env, s: Pool, m: MsgTransact) {
    var w, f, b := Asked(env, m.withdrawAmount), Asked(env, m.relayerFee), Balance(s.bank, env.moduleAddr, m.denom);
    && w <= b
    && f <= b - (if env.bech32(m.withdrawAddress) == Some(env.moduleAddr) then 0 else w)
  }

  ghost predicate TransactProvedOk(env: Env, s: Pool, m: MsgTransact, pi: seq<Fe>)
    requires |m.nullifiers| == |m.merkleRoots| == |m.outputs| == 2
  {
    Slots(env, m, s.params, pi) && Proved(env, s, TRANSACT, m.proof, pi)
  }

  predicate TransactWellFormed(env: Env, m: MsgTransact) {
    && env.bech32(m.sender).Some? && |m.proof| > 0
    && |m.nullifiers| == |m.merkleRoots| == |m.outputs| == 2
    && ValidFieldBytes(m.nullifiers[0]) && ValidFieldBytes(m.nullifiers[1])
    && ValidFieldBytes(m.merkleRoots[0]) && ValidFieldBytes(m.merkleRoots[1])
    && ValidFieldBytes(m.outputs[0].noteHash) && ValidFieldBytes(m.outputs[1].noteHash)
    && ValidFieldBytes(m.registrationRoot)
    && (|m.denom| > 0 ==> env.validDenom(m.denom))
  }

  ghost predicate TransactOk(env: Env, s: Pool, m: MsgTransact) {
    && TransactWellFormed(env, m)
    && m.registrationRoot == R.RegRoot(env.hash2, s.ids)
    && InputSlotOk(env, s, m.nullifiers[0], m.merkleRoots[0])
    && InputSlotOk(env, s, m.nullifiers[1], m.merkleRoots[1])
    && (BothReal(m.nullifiers[0], m.nullifiers[1]) ==> m.nullifiers[0] != m.nullifiers[1])
    && |s.params.chainBinding| > 0
    && (exists pi :: TransactProvedOk(env, s, m, pi))
    && OutputsOk(s, m.outputs[0].noteHash, m.outputs[1].noteHash)
    && PayoutOk(env, s.params, m.withdrawAmount, m.denom, m.withdrawAddress)
    && PayoutOk(env, s.params, m.relayerFee, m.denom, m.sender)
    && FundsOk(env, s, m)
  }

  lemma SpendsAccepted(env: Env, s: Pool, m: MsgTransact)
    requires |m.nullifiers| == |m.merkleRoots| == 2
    requires ValidFieldBytes(m.nullifiers[0]) && ValidFieldBytes(m.nullifiers[1])
    ensures SpendInputsOf(env, s.notes, s.nullifiers, m).Ok? <==>
              && InputSlotOk(env, s, m.nullifiers[0], m.merkleRoots[0])
              && InputSlotOk(env, s, m.nullifiers[1], m.merkleRoots[1])
              && (BothReal(m.nullifiers[0], m.nullifiers[1]) ==> m.nullifiers[0] != m.nullifiers[1])
  {
    hide SetBytes, IsValidRootAnyTree, ValidFieldBytes;
    if SetBytes(m.nullifiers[0]) == SetBytes(m.nullifiers[1]) { SameFieldBytes(m.nullifiers[0], m.nullifiers[1]); }
  }

  lemma OutputsAccepted(env: Env, s: Pool, m: MsgTransact)
    requires |m.outputs| == 2
    requires ValidFieldBytes(m.outputs[0].noteHash) && ValidFieldBytes(m.outputs[1].noteHash)
    ensures CreateOutputs(env, s.params.Depth(), s.notes, m).Ok? <==>
              OutputsOk(s, m.outputs[0].noteHash, m.outputs[1].noteHash)
  {
    hide SetBytes, InsertNote, ValidFieldBytes;
    var d, a, b := s.params.Depth(), m.outputs[0].noteHash, m.outputs[1].noteHash;
    if SetBytes(a) == SetBytes(b) { SameFieldBytes(a, b); }
    InsertAccepted(env.hash2, d, s.notes, a);
    InsertAccepted(env.hash2, d, s.notes, b);
    if a != ZERO32 && InsertNote(env.hash2, d, s.notes, a).Ok? {
      InsertMarks(env.hash2, d, s.notes, a);
      InsertAccepted(env.hash2, d, InsertNote(env.hash2, d, s.notes, a).value.forest, b);
    }
  }

  lemma ProofChecked(env: Env, s: Pool, m: MsgTransact)
    requires |m.nullifiers| == |m.merkleRoots| == |m.outputs| == 2
    ensures CheckTransactProof(env, s.params, s.vks, m) == None <==>
              |s.params.chainBinding| > 0 && exists pi :: TransactProvedOk(env, s, m, pi)
  {
    hide AssembleTransactPublicInputs, Slots, VerifyProof, Proved;
    var v := AssembleTransactPublicInputs(env, m, s.params);
    if v.Ok? {
      AssembledSlots(env, m, s.params, v.value);
      ProofAccepted(env, s, TRANSACT, m.proof, v.value);
      if Proved(env, s, TRANSACT, m.proof, v.value) { assert TransactProvedOk(env, s, m, v.value); }
    }
    forall pi | TransactProvedOk(env, s, m, pi) && |s.params.chainBinding| > 0 ensures v == Ok(pi) {
      AssembledSlots(env, m, s.params, pi);
    }
  }

  /** One payout, on a bank whose module account holds `b`. */
  lemma PayoutAccepted(env: Env, params: Params, bank: Bank, amount: Bytes, denom: Bytes, address: Bytes, e: Error)
    requires WordAmount(env, amount)
    ensures PayOut(env, params, bank, amount, denom, address, e).Ok? <==>
              && PayoutOk(env, params, amount, denom, address)
              && Asked(env, amount) <= Balance(bank, env.moduleAddr, denom)
    ensures Asked(env, amount) >= 0
  {
    hide Balance, Send;
    if !NothingAsked(amount) && env.parseInt(amount).value > 0 && env.bech32(address).Some? {
      SendAccepted(bank, env.moduleAddr, env.bech32(address).value, denom, env.parseInt(amount).value);
    }
  }

  lemma FirstPayoutLeaves(env: Env, s: Pool, m: MsgTransact, b: Bank)
    requires PayOut(env, s.params, s.bank, m.withdrawAmount, m.denom, m.withdrawAddress, InvalidWithdraw) == Ok(b)
    ensures Balance(b, env.moduleAddr, m.denom)
         == Balance(s.bank, env.moduleAddr, m.denom)
            - (if env.bech32(m.withdrawAddress) == Some(env.moduleAddr) then 0 else Asked(env, m.withdrawAmount))
  {
    hide Balance, PayOut;
    PP.PayOutMoves(env, s.params, s.bank, m.withdrawAmount, m.denom, m.withdrawAddress, InvalidWithdraw, b,
                  env.moduleAddr, m.denom);
  }

  lemma PayoutsAccepted(env: Env, s: Pool, m: MsgTransact)
    requires WordAmount(env, m.withdrawAmount) && WordAmount(env, m.relayerFee)
    ensures PayBoth(env, s.params, s.bank, m).Ok? <==>
              && PayoutOk(env, s.params, m.withdrawAmount, m.denom, m.withdrawAddress)
              && PayoutOk(env, s.params, m.relayerFee, m.denom, m.sender)
              && FundsOk(env, s, m)
  {
    hide PayOut, PayoutOk, Balance, Asked, NothingAsked;
    PayoutAccepted(env, s.params, s.bank, m.withdrawAmount, m.denom, m.withdrawAddress, InvalidWithdraw);
    var w := PayOut(env, s.params, s.bank, m.withdrawAmount, m.denom, m.withdrawAddress, InvalidWithdraw);
    if w.Ok? {
      FirstPayoutLeaves(env, s, m, w.value);
      PayoutAccepted(env, s.params, w.value, m.relayerFee, m.denom, m.sender, InvalidAddress);
    }
  }

  /** Validation asks for well-formed fields and for amounts that parse as 64-bit numbers. */
  lemma TransactValidated(env: Env, m: MsgTransact)
    ensures ValidateTransact(env, m) == None <==>
              && TransactWellFormed(env, m)
              && WordAmount(env, m.withdrawAmount) && WordAmount(env, m.relayerFee)
              && (Asked(env, m.withdrawAmount) > 0 ==> env.bech32(m.withdrawAddress).Some?)
  {
    hide ValidFieldBytes;
    if ValidateTransact(env, m) == None {
      ValidatedFields(env, m);
    } else if TransactWellFormed(env, m) {
      assert forall n :: n in m.nullifiers ==> n == m.nullifiers[0] || n == m.nullifiers[1];
      assert forall r :: r in m.merkleRoots ==> r == m.merkleRoots[0] || r == m.merkleRoots[1];
      assert forall o :: o in m.outputs ==> o == m.outputs[0] || o == m.outputs[1];
    }
  }

  /** A transaction is accepted if and only if all of `TransactOk` holds. */
  lemma TransactAccepted(env: Env, s: Pool, m: MsgTransact)
    ensures Deliver(env, s, TransactMsg(m)).Ok? <==> TransactOk(env, s, m)
  {
    hide ValidateTransact, TransactWellFormed, R.RegRoot, SpendInputsOf, CheckTransactProof, CreateOutputs, PayBoth,
      InputSlotOk, OutputsOk, FundsOk, TransactProvedOk;
    TransactValidated(env, m);
    if ValidateTransact(env, m) == None {
      ValidatedFields(env, m);
      SpendsAccepted(env, s, m);
      ProofChecked(env, s, m);
      OutputsAccepted(env, s, m);
      PayoutsAccepted(env, s, m);
    }
  }

  /** Beside notes, nullifiers and coins a transaction changes nothing. */
  lemma TransactFrame(env: Env, s: Pool, m: MsgTransact, o: Outcome)
    requires Deliver(env, s, TransactMsg(m)) == Ok(o)
    ensures o.pool == s.(notes := o.pool.notes, nullifiers := o.pool.nullifiers, bank := o.pool.bank)
  {
    hide ValidateTransact, SpendInputsOf, CheckTransactProof, CreateOutputs, PayBoth, R.RegRoot;
  }

  // ===== governance =====

  /** Parameters change only by the authority, only to valid ones, and nothing else changes. */
  lemma ParamsAccepted(env: Env, s: Pool, from: Bytes, p: Params)
    ensures var r := Deliver(env, s, UpdateParamsMsg(from, p));
      && (r.Ok? <==>
            && env.bech32(from) == Some(env.authority)
            && 1 <= p.treeDepth <= 40 && 1 <= p.regTreeDepth <= 40
            && |p.auditorPubKey| in {0, 64} && |p.chainBinding| <= 32)
      && (r.Ok? ==> r.value == Outcome(s.(params := p), Done))
    ensures UpdateParams(env, s, from, p).Ok? <==> Deliver(env, s, UpdateParamsMsg(from, p)).Ok?
  {
  }

  /** Keys change only by the authority, only for the three circuits, and are stored in normal
      form. */
  lemma KeyAccepted(env: Env, s: Pool, from: Bytes, circuit: Bytes, data: Bytes)
    ensures var r := Deliver(env, s, SetKeyMsg(from, circuit, data));
      && (r.Ok? <==>
            && env.bech32(from) == Some(env.authority) && |data| > 0
            && (circuit == DEPOSIT || circuit == TRANSACT || circuit == REGISTRATION)
            && env.normalizeVK(data).Some?)
      && (r.Ok? ==> r.value == Outcome(s.(vks := s.vks[circuit := env.normalizeVK(data).value]), Done))
  {
  }

  // ===== why a message is refused =====

  /** The first condition a refused registration fails, in the order they are tested. */
  ghost function RegisterReason(env: Env, s: Pool, m: MsgRegister): Error {
    if env.bech32(m.sender).None? then InvalidAddress
    else if !ValidFieldBytes(m.identityCommitment) then InvalidCommitment
    else if |m.proof| == 0 then InvalidProof
    else if |m.publicInputs| < 32 then InvalidPublicInputs
    else if |m.auditorEncryptedData| > 4096 then AuditorDataTooLarge
    else if !AuditorServed(s.params, m.auditorEncryptedData) then AuditorDataMissing
    else if !exists pi :: RegisterNames(s, m, pi) then InvalidPublicInputs
    else if REGISTRATION !in s.vks then VKNotFound
    else if !exists pi :: RegisterVectorOk(env, s, m, pi) then InvalidProof
    else if SetBytes(m.identityCommitment) in s.ids.used then DuplicateCommitment
    else TreeFull
  }

  lemma RegisterCheckReason(env: Env, s: Pool, m: MsgRegister)
    requires |m.auditorEncryptedData| <= 4096 && CheckRegister(env, s.params, s.vks, m).Some?
    ensures CheckRegister(env, s.params, s.vks, m).value ==
              if !AuditorServed(s.params, m.auditorEncryptedData) then AuditorDataMissing
              else if !exists pi :: RegisterNames(s, m, pi) then InvalidPublicInputs
              else if REGISTRATION !in s.vks then VKNotFound
              else InvalidProof
  {
    hide Parse, Concat, SetBytes, FeBytes, NamesAuditor, VerifyRegisterPublicInputs;
    if Parse(m.publicInputs).Some? {
      var pi := Parse(m.publicInputs).value;
      ParseInvertsConcat(m.publicInputs, pi);
      RegisterVector(pi, m.identityCommitment, s.params);
      if VerifyRegisterPublicInputs(pi, m.identityCommitment, s.params) == None { assert RegisterNames(s, m, pi); }
    }
    forall pi | RegisterNames(s, m, pi) ensures Parse(m.publicInputs) == Some(pi) {
      ParseInvertsConcat(m.publicInputs, pi);
    }
  }

  lemma RegisterVectorNames(env: Env, s: Pool, m: MsgRegister)
    ensures (exists pi :: RegisterVectorOk(env, s, m, pi)) ==>
              (exists pi :: RegisterNames(s, m, pi)) && REGISTRATION in s.vks
  {
    hide RegisterNames;
  }

  /** A refused registration is told the first condition it fails. */
  lemma RegisterRefused(env: Env, s: Pool, m: MsgRegister, txHash: Bytes)
    requires Deliver(env, s, RegisterMsg(m, txHash)).Err?
    ensures Deliver(env, s, RegisterMsg(m, txHash)).error == RegisterReason(env, s, m)
  {
    hide CheckRegister, SetBytes, ValidFieldBytes, RegisterNames, Proved, R.RegAppend, Pow2, RegisterVectorOk;
    if ValidateRegister(env, m) == None {
      RegisterChecked(env, s, m);
      RegisterVectorNames(env, s, m);
      if CheckRegister(env, s.params, s.vks, m).Some? { RegisterCheckReason(env, s, m); }
    }
  }

  /** The first condition a refused deposit fails. */
  ghost function DepositReason(env: Env, s: Pool, m: MsgDeposit): Error {
    var amt := env.parseInt(m.amount);
    if env.bech32(m.sender).None? then InvalidAddress
    else if !env.validDenom(m.denom) then InvalidDenom
    else if amt.None? || amt.value <= 0 then InsufficientFunds
    else if !ValidFieldBytes(m.noteCommitment) then InvalidCommitment
    else if |m.proof| == 0 then InvalidProof
    else if |m.publicInputs| < 32 then InvalidPublicInputs
    else if |m.auditorEncryptedData| > 4096 then AuditorDataTooLarge
    else if !AuditorServed(s.params, m.auditorEncryptedData) then AuditorDataMissing
    else if |s.params.chainBinding| == 0 || !exists pi :: DepositNames(env, s, m, amt.value, pi)
    then InvalidPublicInputs
    else if DEPOSIT !in s.vks then VKNotFound
    else if !exists pi :: DepositVectorOk(env, s, m, amt.value, pi) then InvalidProof
    else if m.denom !in s.params.supportedDenoms then InvalidDenom
    else if Balance(s.bank, env.bech32(m.sender).value, m.denom) < amt.value then InsufficientFunds
    else DuplicateCommitment
  }

  lemma DepositCheckReason(env: Env, s: Pool, m: MsgDeposit)
    requires |m.auditorEncryptedData| <= 4096
    requires env.bech32(m.sender).Some? && env.validDenom(m.denom)
    requires env.parseInt(m.amount).Some? && env.parseInt(m.amount).value > 0
    requires CheckDeposit(env, s.params, s.vks, m).Err?
    ensures CheckDeposit(env, s.params, s.vks, m).error ==
              var amount := env.parseInt(m.amount).value;
              if !AuditorServed(s.params, m.auditorEncryptedData) then AuditorDataMissing
              else if |s.params.chainBinding| == 0 || !exists pi :: DepositNames(env, s, m, amount, pi)
              then InvalidPublicInputs
              else if DEPOSIT !in s.vks then VKNotFound
              else if !exists pi :: DepositVectorOk(env, s, m, amount, pi) then InvalidProof
              else InvalidDenom
  {
    hide Parse, Concat, SetBytes, FeBytes, Limbs, NamesAuditor, VerifyDepositPublicInputs, Proved;
    var amount := env.parseInt(m.amount).value;
    if Parse(m.publicInputs).Some? {
      var pi := Parse(m.publicInputs).value;
      ParseInvertsConcat(m.publicInputs, pi);
      DepositVector(env, pi, m.noteCommitment, amount, m.denom, s.params);
      ProofAccepted(env, s, DEPOSIT, m.proof, pi);
      if VerifyDepositPublicInputs(env, pi, m.noteCommitment, amount, m.denom, s.params) == None {
        assert DepositNames(env, s, m, amount, pi);
        if Proved(env, s, DEPOSIT, m.proof, pi) { assert DepositVectorOk(env, s, m, amount, pi); }
      }
    }
    forall pi | DepositNames(env, s, m, amount, pi) ensures Parse(m.publicInputs) == Some(pi) {
      ParseInvertsConcat(m.publicInputs, pi);
    }
  }

  lemma DepositVectorNames(env: Env, s: Pool, m: MsgDeposit, amount: int)
    ensures (exists pi :: DepositVectorOk(env, s, m, amount, pi)) ==>
              (exists pi :: DepositNames(env, s, m, amount, pi)) && DEPOSIT in s.vks
  {
    hide DepositNames;
  }

  /** A refused deposit is told the first condition it fails. */
  lemma DepositRefused(env: Env, s: Pool, m: MsgDeposit, txHash: Bytes)
    requires Deliver(env, s, DepositMsg(m, txHash)).Err?
    ensures Deliver(env, s, DepositMsg(m, txHash)).error == DepositReason(env, s, m)
  {
    hide CheckDeposit, SetBytes, ValidFieldBytes, DepositNames, DepositVectorOk, InsertNote, Send, Balance;
    if ValidateDeposit(env, m) == None {
      var amt := env.parseInt(m.amount).value;
      DepositChecked(env, s, m);
      DepositVectorNames(env, s, m, amt);
      if CheckDeposit(env, s.params, s.vks, m).Err? {
        DepositCheckReason(env, s, m);
      } else {
        SendAccepted(s.bank, env.bech32(m.sender).value, env.moduleAddr, m.denom, amt);
        InsertAccepted(env.hash2, s.params.Depth(), s.notes, m.noteCommitment);
      }
    }
  }

  /** Why an input slot is refused, when another slot spent `other` before. */
  function InputReason(env: Env, s: Pool, n: Bytes, root: Bytes, other: Bytes): Option<Error> {
    if n == ZERO32 then None
    else if SetBytes(n) in s.nullifiers || n == other then Some(NullifierSpent)
    else if !IsValidRootAnyTree(env.hash2, s.notes, root) then Some(InvalidMerkleRoot)
    else None
  }

  /** Why a payout is refused, when the module account holds `b`. */
  function PayoutReason(env: Env, params: Params, amount: Bytes, denom: Bytes, address: Bytes, b: int): Option<Error> {
    if NothingAsked(amount) then None
    else if Asked(env, amount) == 0 then Some(InvalidWithdraw)
    else if denom !in params.supportedDenoms || |denom| == 0 then Some(InvalidDenom)
    else if env.bech32(address).Some? && env.blocked(env.bech32(address).value) then Some(Unauthorized)
    else if Asked(env, amount) > b then Some(InsufficientFunds)
    else None
  }

  /** The first condition a refused transaction fails. */
  ghost function TransactReason(env: Env, s: Pool, m: MsgTransact): Error {
    if env.bech32(m.sender).None? then InvalidAddress
    else if !(|m.nullifiers| == 2 && ValidFieldBytes(m.nullifiers[0]) && ValidFieldBytes(m.nullifiers[1]))
    then InvalidNullifier
    else if !(|m.merkleRoots| == 2 && ValidFieldBytes(m.merkleRoots[0]) && ValidFieldBytes(m.merkleRoots[1]))
    then InvalidMerkleRoot
    else if !(|m.outputs| == 2 && ValidFieldBytes(m.outputs[0].noteHash) && ValidFieldBytes(m.outputs[1].noteHash))
    then InvalidCommitment
    else if !ValidFieldBytes(m.registrationRoot) then InvalidMerkleRoot
    else if !WordAmount(env, m.withdrawAmount) then InvalidWithdraw
    else if Asked(env, m.withdrawAmount) > 0 && env.bech32(m.withdrawAddress).None? then InvalidWithdraw
    else if |m.denom| > 0 && !env.validDenom(m.denom) then InvalidDenom
    else if !WordAmount(env, m.relayerFee) then InvalidWithdraw
    else if |m.proof| == 0 then InvalidProof
    else if m.registrationRoot != R.RegRoot(env.hash2, s.ids) then InvalidMerkleRoot
    else AdmissionReason(env, s, m)
  }

  /** The same for a well-formed transaction under the current registration root. */
  ghost function AdmissionReason(env: Env, s: Pool, m: MsgTransact): Error
    requires |m.nullifiers| == |m.merkleRoots| == |m.outputs| == 2
  {
    var first := InputReason(env, s, m.nullifiers[0], m.merkleRoots[0], ZERO32);
    var second := InputReason(env, s, m.nullifiers[1], m.merkleRoots[1], m.nullifiers[0]);
    var b := Balance(s.bank, env.moduleAddr, m.denom);
    var left := b - (if env.bech32(m.withdrawAddress) == Some(env.moduleAddr) then 0 else Asked(env, m.withdrawAmount));
    var payout := PayoutReason(env, s.params, m.withdrawAmount, m.denom, m.withdrawAddress, b);
    var fee := PayoutReason(env, s.params, m.relayerFee, m.denom, m.sender, left);
    if first.Some? then first.value
    else if second.Some? then second.value
    else if |s.params.chainBinding| == 0 then InvalidPublicInputs
    else if TRANSACT !in s.vks then VKNotFound
    else if !exists pi :: TransactProvedOk(env, s, m, pi) then InvalidProof
    else if !OutputsOk(s, m.outputs[0].noteHash, m.outputs[1].noteHash) then DuplicateCommitment
    else if payout.Some? then payout.value
    else if fee.Some? then fee.value
    else Panic
  }

  lemma SpendsRefused(env: Env, s: Pool, m: MsgTransact)
    requires |m.nullifiers| == |m.merkleRoots| == 2
    requires ValidFieldBytes(m.nullifiers[0]) && ValidFieldBytes(m.nullifiers[1])
    ensures var first := InputReason(env, s, m.nullifiers[0], m.merkleRoots[0], ZERO32);
      var second := InputReason(env, s, m.nullifiers[1], m.merkleRoots[1], m.nullifiers[0]);
      var r := SpendInputsOf(env, s.notes, s.nullifiers, m);
      if first.Some? then r == Err(first.value)
      else if second.Some? then r == Err(second.value)
      else r.Ok?
  {
    hide SetBytes, IsValidRootAnyTree, ValidFieldBytes;
    if SetBytes(m.nullifiers[0]) == SetBytes(m.nullifiers[1]) { SameFieldBytes(m.nullifiers[0], m.nullifiers[1]); }
  }

  lemma ProofRefused(env: Env, s: Pool, m: MsgTransact)
    requires |m.nullifiers| == |m.merkleRoots| == |m.outputs| == 2
    requires WordAmount(env, m.withdrawAmount) && WordAmount(env, m.relayerFee)
    requires CheckTransactProof(env, s.params, s.vks, m).Some?
    ensures CheckTransactProof(env, s.params, s.vks, m).value ==
              if |s.params.chainBinding| == 0 then InvalidPublicInputs
              else if TRANSACT !in s.vks then VKNotFound
              else InvalidProof
  {
    hide TransactVector;
  }

  lemma OutputsRefused(env: Env, s: Pool, m: MsgTransact)
    requires |m.outputs| == 2
    ensures var r := CreateOutputs(env, s.params.Depth(), s.notes, m); r.Err? ==> r.error == DuplicateCommitment
  {
    hide SetBytes, InsertNote;
    var d := s.params.Depth();
    InsertAccepted(env.hash2, d, s.notes, m.outputs[0].noteHash);
    InsertAccepted(env.hash2, d, s.notes, m.outputs[1].noteHash);
    var r := InsertNote(env.hash2, d, s.notes, m.outputs[0].noteHash);
    if r.Ok? { InsertAccepted(env.hash2, d, r.value.forest, m.outputs[1].noteHash); }
  }

  lemma PayoutRefused(env: Env, params: Params, bank: Bank, amount: Bytes, denom: Bytes, address: Bytes, e: Error)
    requires WordAmount(env, amount) && (|denom| > 0 ==> env.validDenom(denom))
    requires Asked(env, amount) > 0 ==> env.bech32(address).Some?
    ensures var r := PayOut(env, params, bank, amount, denom, address, e);
      var why := PayoutReason(env, params, amount, denom, address, Balance(bank, env.moduleAddr, denom));
      if why.Some? then r == Err(why.value) else r.Ok?
  {
    hide Balance, Send;
    if !NothingAsked(amount) && env.parseInt(amount).value > 0 {
      SendAccepted(bank, env.moduleAddr, env.bech32(address).value, denom, env.parseInt(amount).value);
    }
  }

  lemma PayoutsRefused(env: Env, s: Pool, m: MsgTransact)
    requires WordAmount(env, m.withdrawAmount) && WordAmount(env, m.relayerFee)
    requires |m.denom| > 0 ==> env.validDenom(m.denom)
    requires Asked(env, m.withdrawAmount) > 0 ==> env.bech32(m.withdrawAddress).Some?
    requires env.bech32(m.sender).Some?
    ensures var b := Balance(s.bank, env.moduleAddr, m.denom);
      var toPool := env.bech32(m.withdrawAddress) == Some(env.moduleAddr);
      var left := b - (if toPool then 0 else Asked(env, m.withdrawAmount));
      var payout := PayoutReason(env, s.params, m.withdrawAmount, m.denom, m.withdrawAddress, b);
      var fee := PayoutReason(env, s.params, m.relayerFee, m.denom, m.sender, left);
      var r := PayBoth(env, s.params, s.bank, m);
      if payout.Some? then r == Err(payout.value) else if fee.Some? then r == Err(fee.value) else r.Ok?
  {
    hide Balance, PayOut, PayoutReason, Asked, WordAmount;
    PayoutRefused(env, s.params, s.bank, m.withdrawAmount, m.denom, m.withdrawAddress, InvalidWithdraw);
    var w := PayOut(env, s.params, s.bank, m.withdrawAmount, m.denom, m.withdrawAddress, InvalidWithdraw);
    if w.Ok? {
      FirstPayoutLeaves(env, s, m, w.value);
      PayoutRefused(env, s.params, w.value, m.relayerFee, m.denom, m.sender, InvalidAddress);
    }
  }

  lemma AdmissionRefused(env: Env, s: Pool, m: MsgTransact)
    requires ValidateTransact(env, m) == None && |m.nullifiers| == |m.merkleRoots| == |m.outputs| == 2
    requires m.registrationRoot == R.RegRoot(env.hash2, s.ids) && Transact(env, s, m).Err?
    ensures Transact(env, s, m).error == AdmissionReason(env, s, m)
  {
    TransactValidated(env, m);
    hide ValidateTransact, R.RegRoot, SpendInputsOf, CheckTransactProof, CreateOutputs, PayBoth, InputReason,
      PayoutReason, TransactProvedOk, Balance, Asked, WordAmount, ValidFieldBytes, OutputsOk;
    SpendsRefused(env, s, m);
    OutputsAccepted(env, s, m);
    ProofChecked(env, s, m);
    if CheckTransactProof(env, s.params, s.vks, m).Some? { ProofRefused(env, s, m); }
    ProofNeedsKey(env, s, m);
    OutputsRefused(env, s, m);
    PayoutsRefused(env, s, m);
  }

  lemma ProofNeedsKey(env: Env, s: Pool, m: MsgTransact)
    requires |m.nullifiers| == |m.merkleRoots| == |m.outputs| == 2
    ensures (exists pi :: TransactProvedOk(env, s, m, pi)) ==> TRANSACT in s.vks
  {
    hide Slots;
  }

  lemma ValidationRefused(env: Env, m: MsgTransact)
    requires ValidateTransact(env, m).Some?
    ensures forall s: Pool :: ValidateTransact(env, m).value == TransactReason(env, s, m)
  {
    hide ValidFieldBytes, AdmissionReason, R.RegRoot;
    forall k | k in m.nullifiers && |m.nullifiers| == 2 ensures k == m.nullifiers[0] || k == m.nullifiers[1] {}
    forall k | k in m.merkleRoots && |m.merkleRoots| == 2 ensures k == m.merkleRoots[0] || k == m.merkleRoots[1] {}
    forall k | k in m.outputs && |m.outputs| == 2 ensures k == m.outputs[0] || k == m.outputs[1] {}
    assert |m.nullifiers| == 2 ==> m.nullifiers[0] in m.nullifiers && m.nullifiers[1] in m.nullifiers;
    assert |m.merkleRoots| == 2 ==> m.merkleRoots[0] in m.merkleRoots && m.merkleRoots[1] in m.merkleRoots;
    assert |m.outputs| == 2 ==> m.outputs[0] in m.outputs && m.outputs[1] in m.outputs;
  }

  /** A refused transaction is told the first condition it fails. */
  lemma TransactRefused(env: Env, s: Pool, m: MsgTransact)
    requires Deliver(env, s, TransactMsg(m)).Err?
    ensures Deliver(env, s, TransactMsg(m)).error == TransactReason(env, s, m)
  {
    hide AdmissionReason, R.RegRoot, SpendInputsOf, CheckTransactProof, CreateOutputs, PayBoth, ValidFieldBytes,
      ValidateTransact;
    if ValidateTransact(env, m).Some? {
      ValidationRefused(env, m);
    } else {
      ValidatedFields(env, m);
      TransactValidated(env, m);
      if m.registrationRoot == R.RegRoot(env.hash2, s.ids) { AdmissionRefused(env, s, m); }
    }
  }

  // ===== fixed names and numbers =====

  lemma Names()
    ensures IsAscii(DEPOSIT, "deposit") && IsAscii(TRANSACT, "transact") && IsAscii(REGISTRATION, "registration")
    ensures IsAscii(ANIX, "anix") && IsAscii(DIGIT_ZERO, "0")
  {
  }

  /** A parameter depth of zero, which only a snapshot can bring, stands for twenty. */
  lemma DepthInForce(p: Params)
    ensures p.Depth() == if p.treeDepth == 0 then 20 else p.treeDepth
    ensures DEFAULT_PARAMS.Valid() && DEFAULT_PARAMS.Depth() == 20 && MAX_ROOT_HISTORY == 100
  {
  }
}
