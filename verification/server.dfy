/** The message server: handlers that change the keeper and the bank step by step, and the
    transaction around them that undoes a failed message. */
module Server {
  import opened Field
  import opened Types
  import opened Forest
  import opened PublicInputs
  import opened Pool
  import opened Keepers
  import P = Pool
  import F = Forest
  import R = Registration

  /** The bank as the module sees it. */
  class BankKeeper {
    var balances: Bank

    constructor (balances: Bank)
      ensures this.balances == balances
    {
      this.balances := balances;
    }

    method SendCoins(sender: Bytes, receiver: Bytes, denom: Bytes, amt: nat) returns (ok: bool)
      modifies this
      ensures ok <==> Send(old(balances), sender, receiver, denom, amt).Some?
      ensures ok ==> Send(old(balances), sender, receiver, denom, amt) == Some(balances)
      ensures !ok ==> balances == old(balances)
    {
      if Balance(balances, sender, denom) < amt { return false; }
      balances := balances[(sender, denom) := Balance(balances, sender, denom) - amt];
      balances := balances[(receiver, denom) := Balance(balances, receiver, denom) + amt];
      ok := true;
    }
  }

  lemma DepositPays(env: Env, params: Params, vks: map<Bytes, Bytes>, msg: MsgDeposit)
    ensures P.CheckDeposit(env, params, vks, msg).Ok? ==> env.bech32(msg.sender).Some?
  {
    hide Parse, VerifyDepositPublicInputs;
  }

  /** Where a transact stops, step by step. */
  lemma TransactFails(env: Env, s: Pool, msg: MsgTransact, e: Error)
    requires |msg.nullifiers| == |msg.merkleRoots| == |msg.outputs| == 2
    requires
      var d := s.params.Depth();
      if R.RegRoot(env.hash2, s.ids) != msg.registrationRoot then e == InvalidMerkleRoot
      else if SpendInputsOf(env, s.notes, s.nullifiers, msg).Err?
      then SpendInputsOf(env, s.notes, s.nullifiers, msg) == Err(e)
      else if CheckTransactProof(env, s.params, s.vks, msg).Some?
      then CheckTransactProof(env, s.params, s.vks, msg) == Some(e)
      else if P.CreateOutputs(env, d, s.notes, msg).Err? then P.CreateOutputs(env, d, s.notes, msg) == Err(e)
      else PayBoth(env, s.params, s.bank, msg) == Err(e)
    ensures P.Transact(env, s, msg) == Err(e)
  {
    hide SpendInputsOf, P.CreateOutputs, PayBoth, CheckTransactProof, R.RegRoot;
  }

  lemma TransactSucceeds(env: Env, s: Pool, msg: MsgTransact, ns: set<Fe>, c: Created, b: Bank)
    requires |msg.nullifiers| == |msg.merkleRoots| == |msg.outputs| == 2
    requires R.RegRoot(env.hash2, s.ids) == msg.registrationRoot
    requires SpendInputsOf(env, s.notes, s.nullifiers, msg) == Ok(ns)
    requires CheckTransactProof(env, s.params, s.vks, msg) == None
    requires P.CreateOutputs(env, s.params.Depth(), s.notes, msg) == Ok(c)
    requires PayBoth(env, s.params, s.bank, msg) == Ok(b)
    ensures P.Transact(env, s, msg)
         == Ok(Outcome(Pool(s.params, c.notes, s.ids, ns, s.vks, s.auditorData, b), Transacted(c.response)))
  {
    hide SpendInputsOf, P.CreateOutputs, PayBoth, CheckTransactProof, R.RegRoot;
  }

  lemma DepositFails(env: Env, s: Pool, msg: MsgDeposit, txHash: Bytes, e: Error)
    requires
      var checked := P.CheckDeposit(env, s.params, s.vks, msg);
      if checked.Err? then checked == Err(e)
      else if Send(s.bank, env.bech32(msg.sender).value, env.moduleAddr, msg.denom, checked.value).None?
      then e == InsufficientFunds
      else F.InsertNote(env.hash2, s.params.Depth(), s.notes, msg.noteCommitment) == Err(e)
    ensures P.Deposit(env, s, msg, txHash) == Err(e)
  {
    hide P.CheckDeposit, Send, F.InsertNote;
  }

  lemma DepositSucceeds(env: Env, s: Pool, msg: MsgDeposit, txHash: Bytes, amt: nat, b: Bank, i: Inserted)
    requires P.CheckDeposit(env, s.params, s.vks, msg) == Ok(amt)
    requires Send(s.bank, env.bech32(msg.sender).value, env.moduleAddr, msg.denom, amt) == Some(b)
    requires F.InsertNote(env.hash2, s.params.Depth(), s.notes, msg.noteCommitment) == Ok(i)
    ensures P.Deposit(env, s, msg, txHash)
         == Ok(Outcome(Pool(s.params, i.forest, s.ids, s.nullifiers, s.vks,
                                 StoreAuditorData(s.auditorData, txHash, msg.auditorEncryptedData), b),
                       Leaf(i.leafIndex, i.root)))
  {
    hide P.CheckDeposit, Send, F.InsertNote;
  }

  /** The method answered `r` and left `after`, as the handler's specification `o` says; a
      failed handler may leave anything. */
  ghost predicate Did(o: Handled, r: Result<Response, Error>, after: Pool) {
    match o
    case Ok(out) => r == Ok(out.response) && after == out.pool
    case Err(e) => r == Err(e)
  }

  class MsgServer {
    const env: Env
    const k: Keeper
    const bank: BankKeeper

    constructor (env: Env, k: Keeper, bank: BankKeeper)
      requires k.h == env.hash2
      ensures Linked() && this.env == env && this.k == k && this.bank == bank
    {
      this.env, this.k, this.bank := env, k, bank;
    }

    ghost predicate Linked() { k.h == env.hash2 }

    function View(): Pool
      reads k, bank
    {
      Pool(k.params, k.Notes(), k.Identities(), k.nullifiers, k.vks, k.auditorData, bank.balances)
    }

    method CheckRegister(msg: MsgRegister) returns (bad: Option<Error>)
      ensures bad == P.CheckRegister(env, k.params, k.vks, msg)
    {
      hide VerifyRegisterPublicInputs, Parse;
      if |k.params.auditorPubKey| > 0 && |msg.auditorEncryptedData| == 0 { return Some(AuditorDataMissing); }
      var pi := ParsePublicInputs(msg.publicInputs);
      if pi.Err? { return Some(pi.error); }
      bad := VerifyRegisterPublicInputs(pi.value, msg.identityCommitment, k.params);
      if bad.Some? { return Some(InvalidPublicInputs); }
      bad := VerifyProof(env, k.vks, REGISTRATION, msg.proof, pi.value);
    }

    method Register(msg: MsgRegister, txHash: Bytes) returns (r: Result<Response, Error>)
      requires Linked()
      modifies k
      ensures Did(P.Register(env, old(View()), msg, txHash), r, View())
    {
      hide P.CheckRegister, R.RegRoot, R.InsertReg, StoreAuditorData, Keeper.Notes;
      assert k.Identities().next == k.regNext;
      hide Keeper.Identities;
      var bad := CheckRegister(msg);
      if bad.Some? { return Err(bad.value); }
      var placed := k.InsertRegCommitment(msg.identityCommitment);
      if placed.Err? { return Err(placed.error); }
      k.StoreAuditorData(txHash, msg.auditorEncryptedData);
      r := Ok(Leaf(placed.value.leafIndex, placed.value.root));
    }

    method CheckDeposit(msg: MsgDeposit) returns (r: Result<nat, Error>)
      ensures r == P.CheckDeposit(env, k.params, k.vks, msg)
    {
      hide VerifyDepositPublicInputs, Parse;
      if |k.params.auditorPubKey| > 0 && |msg.auditorEncryptedData| == 0 { return Err(AuditorDataMissing); }
      var pi := ParsePublicInputs(msg.publicInputs);
      if pi.Err? { return Err(pi.error); }
      var amt := env.parseInt(msg.amount);
      if amt.None? { return Err(InsufficientFunds); }
      if |k.params.chainBinding| == 0 { return Err(InvalidPublicInputs); }
      var bad := VerifyDepositPublicInputs(env, pi.value, msg.noteCommitment, amt.value, msg.denom, k.params);
      if bad.Some? { return Err(InvalidPublicInputs); }
      bad := VerifyProof(env, k.vks, DEPOSIT, msg.proof, pi.value);
      if bad.Some? { return Err(bad.value); }
      if msg.denom !in k.params.supportedDenoms { return Err(InvalidDenom); }
      if env.bech32(msg.sender).None? { return Err(InvalidAddress); }
      if amt.value < 0 || !env.validDenom(msg.denom) { return Err(Panic); }
      r := Ok(amt.value);
    }

    /** The effects of a checked deposit: coins in, note in. */
    method TakeIn(sender: Bytes, denom: Bytes, amt: nat, note: Bytes) returns (r: Result<Placed, Error>)
      requires Linked()
      modifies k`leaves, k`frontier, k`treeRoot, k`history, k`rootIndex, k`nextIndex,
               k`treeCount, k`activeTree, k`used, bank
      ensures var b, i := Send(old(bank.balances), sender, env.moduleAddr, denom, amt),
                          F.InsertNote(env.hash2, k.params.Depth(), old(k.Notes()), note);
              match r
              case Ok(p) => b == Some(bank.balances) && i == Ok(Inserted(k.Notes(), p.root, p.leafIndex, p.treeId))
              case Err(e) => if b.None? then e == InsufficientFunds else i == Err(e)
      ensures k.Identities() == old(k.Identities())
    {
      hide F.InsertNote, Send, Keeper.Notes, Keeper.Identities;
      var sent := bank.SendCoins(sender, env.moduleAddr, denom, amt);
      if !sent { return Err(InsufficientFunds); }
      r := k.InsertNote(note);
    }

    method Deposit(msg: MsgDeposit, txHash: Bytes) returns (r: Result<Response, Error>)
      requires Linked()
      modifies k, bank
      ensures Did(P.Deposit(env, old(View()), msg, txHash), r, View())
    {
      hide P.CheckDeposit, F.InsertNote, Send, P.Deposit, StoreAuditorData, Keeper.Notes, Keeper.Identities;
      DepositPays(env, k.params, k.vks, msg);
      ghost var s := View();
      var checked := CheckDeposit(msg);
      if checked.Err? {
        DepositFails(env, s, msg, txHash, checked.error);
        return Err(checked.error);
      }
      var placed := TakeIn(env.bech32(msg.sender).value, msg.denom, checked.value, msg.noteCommitment);
      if placed.Err? {
        DepositFails(env, s, msg, txHash, placed.error);
        return Err(placed.error);
      }
      ghost var i := F.InsertNote(env.hash2, s.params.Depth(), s.notes, msg.noteCommitment).value;
      DepositSucceeds(env, s, msg, txHash, checked.value, bank.balances, i);
      k.StoreAuditorData(txHash, msg.auditorEncryptedData);
      r := Ok(Leaf(placed.value.leafIndex, placed.value.root));
    }

    /** Checks and marks the two input slots, in order. */
    method SpendInputs(msg: MsgTransact) returns (bad: Option<Error>)
      requires Linked() && |msg.nullifiers| == 2 && |msg.merkleRoots| == 2
      modifies k`nullifiers
      ensures bad.None? ==> SpendInputsOf(env, k.Notes(), old(k.nullifiers), msg) == Ok(k.nullifiers)
      ensures bad.Some? ==> SpendInputsOf(env, k.Notes(), old(k.nullifiers), msg) == Err(bad.value)
      ensures k.Notes() == old(k.Notes()) && k.Identities() == old(k.Identities())
    {
      hide SetBytes, IsValidRootAnyTree;
      ghost var s := View();
      ghost var after: Result<set<Fe>, Error> := Ok(k.nullifiers);
      for i := 0 to 2
        invariant View() == s.(nullifiers := k.nullifiers)
        invariant after == Ok(k.nullifiers)
        invariant i == 0 ==> k.nullifiers == s.nullifiers
        invariant i == 1 ==> after == SpendInput(env, s.notes, s.nullifiers, msg.nullifiers[0], msg.merkleRoots[0])
        invariant i == 2 ==> after == SpendInputsOf(env, s.notes, s.nullifiers, msg)
      {
        var n, root := msg.nullifiers[i], msg.merkleRoots[i];
        if n == ZERO32 { continue; }
        if SetBytes(n) in k.nullifiers { return Some(NullifierSpent); }
        if !IsValidRootAnyTree(env.hash2, k.Notes(), root) { return Some(InvalidMerkleRoot); }
        k.MarkNullifierSpent(n);
        after := Ok(k.nullifiers);
      }
      bad := None;
    }

    /** Inserts the two output slots, in order. */
    method CreateOutputs(msg: MsgTransact) returns (r: Result<MsgTransactResponse, Error>)
      requires Linked() && |msg.outputs| == 2
      modifies k`leaves, k`frontier, k`treeRoot, k`history, k`rootIndex, k`nextIndex,
               k`treeCount, k`activeTree, k`used
      ensures r.Ok? ==> P.CreateOutputs(env, k.params.Depth(), old(k.Notes()), msg) == Ok(Created(k.Notes(), r.value))
      ensures r.Err? ==> P.CreateOutputs(env, k.params.Depth(), old(k.Notes()), msg) == Err(r.error)
      ensures k.Identities() == old(k.Identities())
    {
      hide Prepared, InsertPrepared;
      ghost var s, d := View(), k.params.Depth();
      var response := MsgTransactResponse([], []);
      ghost var after: Result<Created, Error> := Ok(Created(s.notes, response));
      for i := 0 to 2
        invariant after == Ok(Created(k.Notes(), response))
        invariant i == 0 ==> k.Notes() == s.notes && response == MsgTransactResponse([], [])
        invariant i == 1 ==>
          after == CreateOutput(env, d, Created(s.notes, MsgTransactResponse([], [])), msg.outputs[0].noteHash)
        invariant i == 2 ==> after == P.CreateOutputs(env, d, s.notes, msg)
        invariant k.Identities() == s.ids
      {
        var noteHash := msg.outputs[i].noteHash;
        if noteHash == ZERO32 { continue; }
        var placed := k.InsertNote(noteHash);
        if placed.Err? { return Err(placed.error); }
        response := MsgTransactResponse(response.leafIndices + [placed.value.leafIndex], placed.value.root);
        after := Ok(Created(k.Notes(), response));
      }
      r := Ok(response);
    }

    method PayFromModule(amount: Bytes, denom: Bytes, address: Bytes, badAddress: Error) returns (bad: Option<Error>)
      modifies bank
      ensures PayOut(env, k.params, old(bank.balances), amount, denom, address, badAddress)
           == match bad { case None => Ok(bank.balances) case Some(e) => Err(e) }
    {
      hide Send;
      if NoAmount(amount) { return None; }
      var amt := env.parseInt(amount);
      if amt.None? || amt.value <= 0 { return Some(InvalidWithdraw); }
      if |denom| == 0 { return Some(InvalidDenom); }
      if denom !in k.params.supportedDenoms { return Some(InvalidDenom); }
      var receiver := env.bech32(address);
      if receiver.None? { return Some(badAddress); }
      if !env.validDenom(denom) { return Some(Panic); }
      if env.blocked(receiver.value) { return Some(Unauthorized); }
      var sent := bank.SendCoins(env.moduleAddr, receiver.value, denom, amt.value);
      bad := if sent then None else Some(InsufficientFunds);
    }

    /** The checks of a transact: registration root, input slots, proof. */
    method Admit(msg: MsgTransact) returns (bad: Option<Error>)
      requires Linked() && |msg.nullifiers| == |msg.merkleRoots| == |msg.outputs| == 2
      modifies k`nullifiers
      ensures bad.Some? ==> P.Transact(env, old(View()), msg) == Err(bad.value)
      ensures bad.None? ==>
                && R.RegRoot(env.hash2, k.Identities()) == msg.registrationRoot
                && SpendInputsOf(env, k.Notes(), old(k.nullifiers), msg) == Ok(k.nullifiers)
                && CheckTransactProof(env, k.params, k.vks, msg) == None
      ensures k.Notes() == old(k.Notes()) && k.Identities() == old(k.Identities())
    {
      hide SpendInputsOf, P.CreateOutputs, PayBoth, CheckTransactProof, R.RegRoot, P.Transact, Keeper.Notes,
        Keeper.Identities;
      ghost var s := View();
      if R.RegRoot(env.hash2, k.Identities()) != msg.registrationRoot {
        TransactFails(env, s, msg, InvalidMerkleRoot);
        return Some(InvalidMerkleRoot);
      }
      bad := SpendInputs(msg);
      if bad.None? { bad := CheckProof(msg); }
      if bad.Some? { TransactFails(env, s, msg, bad.value); }
    }

    /** The effects of an admitted transact: new notes, then payouts. */
    method Settle(msg: MsgTransact) returns (r: Result<MsgTransactResponse, Error>)
      requires Linked() && |msg.nullifiers| == |msg.merkleRoots| == |msg.outputs| == 2
      modifies k`leaves, k`frontier, k`treeRoot, k`history, k`rootIndex, k`nextIndex,
               k`treeCount, k`activeTree, k`used, bank
      ensures var c, b := P.CreateOutputs(env, k.params.Depth(), old(k.Notes()), msg),
                          PayBoth(env, k.params, old(bank.balances), msg);
              match r
              case Ok(response) => c == Ok(Created(k.Notes(), response)) && b == Ok(bank.balances)
              case Err(e) => if c.Err? then c == Err(e) else b == Err(e)
      ensures k.Identities() == old(k.Identities())
    {
      hide P.CreateOutputs, PayBoth, Keeper.Notes, Keeper.Identities;
      r := CreateOutputs(msg);
      if r.Err? { return; }
      var bad := PayOuts(msg);
      if bad.Some? { r := Err(bad.value); }
    }

    method Transact(msg: MsgTransact) returns (r: Result<Response, Error>)
      requires Linked() && |msg.nullifiers| == |msg.merkleRoots| == |msg.outputs| == 2
      modifies k, bank
      ensures Did(P.Transact(env, old(View()), msg), r, View())
    {
      hide SpendInputsOf, P.CreateOutputs, PayBoth, CheckTransactProof, R.RegRoot, P.Transact, Keeper.Notes,
        Keeper.Identities;
      ghost var s := View();
      var bad := Admit(msg);
      if bad.Some? { return Err(bad.value); }
      var settled := Settle(msg);
      if settled.Err? {
        TransactFails(env, s, msg, settled.error);
        return Err(settled.error);
      }
      TransactSucceeds(env, s, msg, k.nullifiers, Created(k.Notes(), settled.value), bank.balances);
      r := Ok(Transacted(settled.value));
    }

    method PayOuts(msg: MsgTransact) returns (bad: Option<Error>)
      modifies bank
      ensures bad.None? ==> PayBoth(env, k.params, old(bank.balances), msg) == Ok(bank.balances)
      ensures bad.Some? ==> PayBoth(env, k.params, old(bank.balances), msg) == Err(bad.value)
    {
      hide PayOut;
      bad := PayFromModule(msg.withdrawAmount, msg.denom, msg.withdrawAddress, InvalidWithdraw);
      if bad.Some? { return; }
      bad := PayFromModule(msg.relayerFee, msg.denom, msg.sender, InvalidAddress);
    }

    method CheckProof(msg: MsgTransact) returns (bad: Option<Error>)
      requires |msg.nullifiers| == |msg.merkleRoots| == |msg.outputs| == 2
      ensures bad == CheckTransactProof(env, k.params, k.vks, msg)
    {
      hide AssembleTransactPublicInputs;
      var assembled := AssembleInPlace(env, msg, k.params);
      if assembled.Err? { return Some(assembled.error); }
      bad := VerifyProof(env, k.vks, TRANSACT, msg.proof, assembled.value);
    }

    method UpdateParams(from: Bytes, params: Params) returns (r: Result<Response, Error>)
      modifies k`params
      ensures Did(P.UpdateParams(env, old(View()), from, params), r, View())
    {
      if env.bech32(from) != Some(env.authority) { return Err(Unauthorized); }
      if !params.Valid() { return Err(InvalidPublicInputs); }
      k.SetParams(params);
      r := Ok(Done);
    }

    method SetVerificationKey(from: Bytes, circuit: Bytes, data: Bytes) returns (r: Result<Response, Error>)
      modifies k`vks
      ensures Did(P.SetVerificationKey(env, old(View()), from, circuit, data), r, View())
    {
      if env.bech32(from) != Some(env.authority) { return Err(Unauthorized); }
      if circuit !in {DEPOSIT, TRANSACT, REGISTRATION} { return Err(VKNotFound); }
      var key := env.normalizeVK(data);
      if key.None? { return Err(InvalidVK); }
      k.SetVerificationKey(circuit, key.value);
      r := Ok(Done);
    }

    /** Puts a saved state back. */
    method Restore(s: Pool)
      modifies k, bank
      ensures View() == s
    {
      hide Keeper.Notes, Keeper.Identities;
      k.RestoreNotes(s.notes);
      k.RestoreIdentities(s.ids);
      k.RestoreRest(s.params, s.nullifiers, s.vks, s.auditorData);
      bank.balances := s.bank;
    }

    /** Runs the handler of a validated message; a failing handler may stop half way. */
    method Dispatch(msg: Msg) returns (r: Result<Response, Error>)
      requires Linked() && Validate(env, msg) == None
      modifies k, bank
      ensures Did(Handle(env, old(View()), msg), r, View())
    {
      match msg
      case RegisterMsg(m, txHash) => r := Register(m, txHash);
      case DepositMsg(m, txHash) => r := Deposit(m, txHash);
      case TransactMsg(m) =>
        ValidatedFields(env, m);
        r := Transact(m);
      case UpdateParamsMsg(from, params) => r := UpdateParams(from, params);
      case SetKeyMsg(from, circuit, data) => r := SetVerificationKey(from, circuit, data);
    }

    /** One transaction: all of the handler's writes, or none of them. */
    method Execute(msg: Msg) returns (r: Result<Response, Error>)
      requires Linked()
      modifies k, bank
      ensures View() == Step(env, old(View()), msg)
      ensures var o := Deliver(env, old(View()), msg);
              r == if o.Ok? then Ok(o.value.response) else Err(o.error)
    {
      hide Validate, Handle;
      var bad := Validate(env, msg);
      if bad.Some? { return Err(bad.value); }
      var saved := View();
      r := Dispatch(msg);
      if r.Err? { Restore(saved); }
    }
  }
}
