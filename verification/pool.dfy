/** The module as a state machine: its whole state as a value, and what each message does to
    it.  A message that fails leaves the state as it was, since the host chain discards the
    writes of a failed transaction.  The class `MsgServer` is proved against these functions. */
module Pool {
  import opened Field
  import opened Types
  import opened Forest
  import opened PublicInputs
  import R = Registration

  /** Balances by account and denom; a missing entry is zero. */
  type Bank = map<(Bytes, Bytes), nat>

  datatype Pool = Pool(
    params: Params,
    notes: Forest,
    ids: R.Reg,
    nullifiers: set<Fe>,
    vks: map<Bytes, Bytes>,
    auditorData: map<Bytes, Bytes>,
    bank: Bank)

  datatype Response =
    | Leaf(leafIndex: nat, merkleRoot: Bytes)
    | Transacted(response: MsgTransactResponse)
    | Done

  datatype Outcome = Outcome(pool: Pool, response: Response)

  type Handled = Result<Outcome, Error>

  // ----- parts the handlers share -----

  const DEPOSIT: Bytes := [100, 101, 112, 111, 115, 105, 116]
  const TRANSACT: Bytes := [116, 114, 97, 110, 115, 97, 99, 116]
  const REGISTRATION: Bytes := [114, 101, 103, 105, 115, 116, 114, 97, 116, 105, 111, 110]

  function VerifyProof(env: Env, vks: map<Bytes, Bytes>, circuit: Bytes, proof: Bytes, pi: seq<Fe>): Option<Error> {
    if circuit !in vks then Some(VKNotFound)
    else if env.verify(vks[circuit], proof, pi) then None
    else Some(InvalidProof)
  }

  function Balance(bank: Bank, who: Bytes, denom: Bytes): nat {
    if (who, denom) in bank then bank[(who, denom)] else 0
  }

  /** Moves coins, or nothing when the sender does not have them. */
  function Send(bank: Bank, sender: Bytes, receiver: Bytes, denom: Bytes, amt: nat): Option<Bank> {
    if Balance(bank, sender, denom) < amt then None
    else
      var b := bank[(sender, denom) := Balance(bank, sender, denom) - amt];
      Some(b[(receiver, denom) := Balance(b, receiver, denom) + amt])
  }

  // ----- register -----

  /** The checks a registration passes before anything is written. */
  function CheckRegister(env: Env, params: Params, vks: map<Bytes, Bytes>, msg: MsgRegister): Option<Error> {
    var pi := Parse(msg.publicInputs);
    if |params.auditorPubKey| > 0 && |msg.auditorEncryptedData| == 0 then Some(AuditorDataMissing)
    else if pi.None? then Some(InvalidPublicInputs)
    else if VerifyRegisterPublicInputs(pi.value, msg.identityCommitment, params).Some? then Some(InvalidPublicInputs)
    else VerifyProof(env, vks, REGISTRATION, msg.proof, pi.value)
  }

  function Register(env: Env, s: Pool, msg: MsgRegister, txHash: Bytes): Handled {
    if CheckRegister(env, s.params, s.vks, msg).Some? then Err(CheckRegister(env, s.params, s.vks, msg).value)
    else match R.InsertReg(env.hash2, DEFAULT_REG_TREE_DEPTH, s.ids, msg.identityCommitment)
      case Err(e) => Err(e)
      case Ok(g) =>
        Ok(Outcome(s.(ids := g, auditorData := StoreAuditorData(s.auditorData, txHash, msg.auditorEncryptedData)),
                   Leaf(s.ids.next, R.RegRoot(env.hash2, g))))
  }

  // ----- deposit -----

  /** The checks a deposit passes before any coin moves: the amount, when all pass. */
  function CheckDeposit(env: Env, params: Params, vks: map<Bytes, Bytes>, msg: MsgDeposit): Result<nat, Error> {
    var pi, amt := Parse(msg.publicInputs), env.parseInt(msg.amount);
    if |params.auditorPubKey| > 0 && |msg.auditorEncryptedData| == 0 then Err(AuditorDataMissing)
    else if pi.None? then Err(InvalidPublicInputs)
    else if amt.None? then Err(InsufficientFunds)
    else if |params.chainBinding| == 0 then Err(InvalidPublicInputs)
    else if VerifyDepositPublicInputs(env, pi.value, msg.noteCommitment, amt.value, msg.denom, params).Some?
    then Err(InvalidPublicInputs)
    else if VerifyProof(env, vks, DEPOSIT, msg.proof, pi.value).Some? then
      Err(VerifyProof(env, vks, DEPOSIT, msg.proof, pi.value).value)
    else if msg.denom !in params.supportedDenoms then Err(InvalidDenom)
    else if env.bech32(msg.sender).None? then Err(InvalidAddress)
    else if amt.value < 0 || !env.validDenom(msg.denom) then Err(Panic)
    else Ok(amt.value)
  }

  function Deposit(env: Env, s: Pool, msg: MsgDeposit, txHash: Bytes): Handled {
    match CheckDeposit(env, s.params, s.vks, msg)
    case Err(e) => Err(e)
    case Ok(amt) =>
      var bank := Send(s.bank, env.bech32(msg.sender).value, env.moduleAddr, msg.denom, amt);
      if bank.None? then Err(InsufficientFunds)
      else match InsertNote(env.hash2, s.params.Depth(), s.notes, msg.noteCommitment)
        case Err(e) => Err(e)
        case Ok(i) =>
          Ok(Outcome(s.(notes := i.forest, bank := bank.value,
                        auditorData := StoreAuditorData(s.auditorData, txHash, msg.auditorEncryptedData)),
                     Leaf(i.leafIndex, i.root)))
  }

  // ----- transact -----

  /** Spends one input slot: an all-zero nullifier is a dummy, any other must be unspent and
      come with an accepted root. */
  function SpendInput(env: Env, notes: Forest, nullifiers: set<Fe>, n: Bytes, root: Bytes): Result<set<Fe>, Error> {
    if n == ZERO32 then Ok(nullifiers)
    else if SetBytes(n) in nullifiers then Err(NullifierSpent)
    else if !IsValidRootAnyTree(env.hash2, notes, root) then Err(InvalidMerkleRoot)
    else Ok(nullifiers + {SetBytes(n)})
  }

  function SpendInputsOf(env: Env, notes: Forest, nullifiers: set<Fe>, msg: MsgTransact): Result<set<Fe>, Error>
    requires |msg.nullifiers| >= 2 && |msg.merkleRoots| >= 2
  {
    match SpendInput(env, notes, nullifiers, msg.nullifiers[0], msg.merkleRoots[0])
    case Err(e) => Err(e)
    case Ok(ns) => SpendInput(env, notes, ns, msg.nullifiers[1], msg.merkleRoots[1])
  }

  datatype Created = Created(notes: Forest, response: MsgTransactResponse)

  /** Inserts one output slot; an all-zero note hash is a dummy. */
  function CreateOutput(env: Env, d: nat, c: Created, noteHash: Bytes): Result<Created, Error> {
    if noteHash == ZERO32 then Ok(c)
    else match InsertNote(env.hash2, d, c.notes, noteHash)
      case Err(e) => Err(e)
      case Ok(i) => Ok(Created(i.forest, MsgTransactResponse(c.response.leafIndices + [i.leafIndex], i.root)))
  }

  function CreateOutputs(env: Env, d: nat, notes: Forest, msg: MsgTransact): Result<Created, Error>
    requires |msg.outputs| >= 2
  {
    match CreateOutput(env, d, Created(notes, MsgTransactResponse([], [])), msg.outputs[0].noteHash)
    case Err(e) => Err(e)
    case Ok(c) => CreateOutput(env, d, c, msg.outputs[1].noteHash)
  }

  /** Pays out of the module account, when the amount string asks for anything. */
  function PayOut(env: Env, params: Params, bank: Bank, amount: Bytes, denom: Bytes, address: Bytes,
                  badAddress: Error): Result<Bank, Error> {
    if NoAmount(amount) then Ok(bank)
    else if env.parseInt(amount).None? || env.parseInt(amount).value <= 0 then Err(InvalidWithdraw)
    else if |denom| == 0 || denom !in params.supportedDenoms then Err(InvalidDenom)
    else if env.bech32(address).None? then Err(badAddress)
    else if !env.validDenom(denom) then Err(Panic)
    else if env.blocked(env.bech32(address).value) then Err(Unauthorized)
    else match Send(bank, env.moduleAddr, env.bech32(address).value, denom, env.parseInt(amount).value)
      case None => Err(InsufficientFunds)
      case Some(b) => Ok(b)
  }

  function PayBoth(env: Env, params: Params, bank: Bank, msg: MsgTransact): Result<Bank, Error> {
    match PayOut(env, params, bank, msg.withdrawAmount, msg.denom, msg.withdrawAddress, InvalidWithdraw)
    case Err(e) => Err(e)
    case Ok(b) => PayOut(env, params, b, msg.relayerFee, msg.denom, msg.sender, InvalidAddress)
  }

  /** The proof check on the vector the handler builds itself. */
  function CheckTransactProof(env: Env, params: Params, vks: map<Bytes, Bytes>, msg: MsgTransact): Option<Error>
    requires |msg.nullifiers| >= 2 && |msg.merkleRoots| >= 2 && |msg.outputs| >= 2
  {
    match AssembleTransactPublicInputs(env, msg, params)
    case Err(e) => Some(e)
    case Ok(pi) => VerifyProof(env, vks, TRANSACT, msg.proof, pi)
  }

  function Transact(env: Env, s: Pool, msg: MsgTransact): Handled
    requires |msg.nullifiers| >= 2 && |msg.merkleRoots| >= 2 && |msg.outputs| >= 2
  {
    if R.RegRoot(env.hash2, s.ids) != msg.registrationRoot then Err(InvalidMerkleRoot)
    else match SpendInputsOf(env, s.notes, s.nullifiers, msg)
      case Err(e) => Err(e)
      case Ok(ns) =>
        if CheckTransactProof(env, s.params, s.vks, msg).Some?
        then Err(CheckTransactProof(env, s.params, s.vks, msg).value)
        else match CreateOutputs(env, s.params.Depth(), s.notes, msg)
          case Err(e) => Err(e)
          case Ok(c) =>
            match PayBoth(env, s.params, s.bank, msg)
            case Err(e) => Err(e)
            case Ok(b) => Ok(Outcome(s.(notes := c.notes, nullifiers := ns, bank := b), Transacted(c.response)))
  }

  // ----- all messages -----

  datatype Msg =
    | RegisterMsg(register: MsgRegister, txHash: Bytes)
    | DepositMsg(deposit: MsgDeposit, txHash: Bytes)
    | TransactMsg(transact: MsgTransact)
    | UpdateParamsMsg(from: Bytes, params: Params)
    | SetKeyMsg(from: Bytes, circuit: Bytes, data: Bytes)

  function ValidateRegister(env: Env, msg: MsgRegister): Option<Error> {
    if env.bech32(msg.sender).None? then Some(InvalidAddress)
    else if !ValidFieldBytes(msg.identityCommitment) then Some(InvalidCommitment)
    else if |msg.proof| == 0 then Some(InvalidProof)
    else if |msg.publicInputs| < 32 then Some(InvalidPublicInputs)
    else if |msg.auditorEncryptedData| > MAX_AUDITOR_DATA_SIZE then Some(AuditorDataTooLarge)
    else None
  }

  function ValidateDeposit(env: Env, msg: MsgDeposit): Option<Error> {
    if env.bech32(msg.sender).None? then Some(InvalidAddress)
    else if !env.validDenom(msg.denom) then Some(InvalidDenom)
    else if env.parseInt(msg.amount).None? || env.parseInt(msg.amount).value <= 0 then Some(InsufficientFunds)
    else if !ValidFieldBytes(msg.noteCommitment) then Some(InvalidCommitment)
    else if |msg.proof| == 0 then Some(InvalidProof)
    else if |msg.publicInputs| < 32 then Some(InvalidPublicInputs)
    else if |msg.auditorEncryptedData| > MAX_AUDITOR_DATA_SIZE then Some(AuditorDataTooLarge)
    else None
  }

  /** The stateless checks every message passes before its handler runs. */
  function Validate(env: Env, msg: Msg): Option<Error> {
    match msg
    case RegisterMsg(m, _) => ValidateRegister(env, m)
    case DepositMsg(m, _) => ValidateDeposit(env, m)
    case TransactMsg(m) => ValidateTransact(env, m)
    case UpdateParamsMsg(from, params) =>
      if env.bech32(from).None? then Some(InvalidAddress)
      else if !params.Valid() then Some(InvalidPublicInputs) else None
    case SetKeyMsg(from, circuit, data) =>
      if env.bech32(from).None? then Some(InvalidAddress)
      else if |circuit| == 0 || |data| == 0 then Some(VKNotFound) else None
  }

  function UpdateParams(env: Env, s: Pool, from: Bytes, params: Params): Handled {
    if env.bech32(from) != Some(env.authority) then Err(Unauthorized)
    else if !params.Valid() then Err(InvalidPublicInputs)
    else Ok(Outcome(s.(params := params), Done))
  }

  function SetVerificationKey(env: Env, s: Pool, from: Bytes, circuit: Bytes, data: Bytes): Handled {
    if env.bech32(from) != Some(env.authority) then Err(Unauthorized)
    else if circuit !in {DEPOSIT, TRANSACT, REGISTRATION} then Err(VKNotFound)
    else match env.normalizeVK(data)
      case None => Err(InvalidVK)
      case Some(key) => Ok(Outcome(s.(vks := s.vks[circuit := key]), Done))
  }

  function Handle(env: Env, s: Pool, msg: Msg): Handled
    requires Validate(env, msg) == None
  {
    match msg
    case RegisterMsg(m, txHash) => Register(env, s, m, txHash)
    case DepositMsg(m, txHash) => Deposit(env, s, m, txHash)
    case TransactMsg(m) => Transact(env, s, m)
    case UpdateParamsMsg(from, params) => UpdateParams(env, s, from, params)
    case SetKeyMsg(from, circuit, data) => SetVerificationKey(env, s, from, circuit, data)
  }

  function Deliver(env: Env, s: Pool, msg: Msg): Handled {
    if Validate(env, msg).Some? then Err(Validate(env, msg).value) else Handle(env, s, msg)
  }

  /** One step of the chain: the state changes only when the message succeeds. */
  function Step(env: Env, s: Pool, msg: Msg): Pool {
    match Deliver(env, s, msg)
    case Ok(o) => o.pool
    case Err(_) => s
  }

  function Run(env: Env, s: Pool, msgs: seq<Msg>): Pool
    decreases |msgs|
  {
    if |msgs| == 0 then s else Run(env, Step(env, s, msgs[0]), msgs[1..])
  }
}
