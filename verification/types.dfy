/** Errors, parameters and the messages and snapshots exchanged with the module.
    Go strings are byte strings here. */
module Types {
  import opened Field
  import opened Merkle

  const MAX_ROOT_HISTORY: nat := 100
  const DEFAULT_TREE_DEPTH: nat := 20
  const DEFAULT_REG_TREE_DEPTH: nat := 20
  const MAX_AUDITOR_DATA_SIZE: nat := 4096

  datatype Error =
    | InvalidProof | NullifierSpent | InvalidMerkleRoot | TreeFull | InvalidCommitment
    | InsufficientFunds | InvalidDenom | AuditorDataMissing | VKNotFound | InvalidPublicInputs
    | AuditorDataTooLarge | DuplicateCommitment | InvalidNullifier | InvalidWithdraw
    | InvalidAddress | Unauthorized | InvalidVK | Panic

  datatype Params = Params(
    treeDepth: nat,
    regTreeDepth: nat,
    auditorPubKey: Bytes,
    supportedDenoms: seq<Bytes>,
    chainBinding: Bytes)
  {
    /** A stored depth of zero stands for the default. */
    function Depth(): nat {
      if treeDepth == 0 then DEFAULT_TREE_DEPTH else treeDepth
    }

    predicate Valid() {
      && 0 < treeDepth <= 40
      && 0 < regTreeDepth <= 40
      && (|auditorPubKey| == 0 || |auditorPubKey| == 64)
      && |chainBinding| <= 32
    }
  }

  const ANIX: Bytes := [97, 110, 105, 120]

  const DEFAULT_PARAMS: Params := Params(DEFAULT_TREE_DEPTH, DEFAULT_REG_TREE_DEPTH, [], [ANIX], [])

  /** Everything the module uses but does not define: the two hashes, number, address and
      denom parsing, the proof verifier with its key normaliser, and the addresses the host
      chain fixes.  All are arbitrary fixed functions. */
  datatype Env = Env(
    hash2: Hash2,
    hash: seq<Fe> -> Fe,
    parseInt: Bytes -> Option<int>,
    bech32: Bytes -> Option<Bytes>,
    validDenom: Bytes -> bool,
    verify: (Bytes, Bytes, seq<Fe>) -> bool,
    normalizeVK: Bytes -> Option<Bytes>,
    moduleAddr: Bytes,
    authority: Bytes,
    blocked: Bytes -> bool)

  /** The state of one note tree in a snapshot. */
  datatype TreeState = TreeState(
    treeId: nat,
    commitments: seq<Bytes>,
    frontier: seq<Bytes>,
    nextIndex: nat,
    merkleRoot: Bytes,
    rootHistory: seq<Bytes>)

  datatype AuditorDataEntry = AuditorDataEntry(txHash: Bytes, data: Bytes)

  datatype VerificationKeyEntry = VerificationKeyEntry(circuitName: Bytes, vkData: Bytes)

  /** A snapshot of the module's store.  The root index and the registration used-set are
      not in it. */
  datatype GenesisState = GenesisState(
    params: Option<Params>,
    trees: seq<TreeState>,
    activeTreeId: nat,
    treeCount: nat,
    regCommitments: seq<Bytes>,
    regFrontier: seq<Bytes>,
    regNextIndex: nat,
    regMerkleRoot: Bytes,
    nullifiers: seq<Bytes>,
    commitmentsUsed: seq<Bytes>,
    auditorData: seq<AuditorDataEntry>,
    verificationKeys: seq<VerificationKeyEntry>)

  datatype OutputNote = OutputNote(
    noteHash: Bytes,
    ephemeralX: Bytes,
    ephemeralY: Bytes,
    encAmount: Bytes,
    encSalt: Bytes,
    auditorEnc: Bytes,
    auditorAuthKeyX: Bytes,
    auditorAuthKeyY: Bytes,
    auditorEncRecipient: Bytes)

  datatype MsgTransact = MsgTransact(
    sender: Bytes,
    nullifiers: seq<Bytes>,
    merkleRoots: seq<Bytes>,
    outputs: seq<OutputNote>,
    withdrawAmount: Bytes,
    withdrawAddress: Bytes,
    denom: Bytes,
    registrationRoot: Bytes,
    relayerFee: Bytes,
    proof: Bytes)

  datatype MsgTransactResponse = MsgTransactResponse(leafIndices: seq<nat>, merkleRoot: Bytes)

  datatype MsgDeposit = MsgDeposit(
    sender: Bytes,
    denom: Bytes,
    amount: Bytes,
    noteCommitment: Bytes,
    proof: Bytes,
    publicInputs: Bytes,
    auditorEncryptedData: Bytes)

  datatype MsgRegister = MsgRegister(
    sender: Bytes,
    identityCommitment: Bytes,
    proof: Bytes,
    publicInputs: Bytes,
    auditorEncryptedData: Bytes)

  /** Auditor ciphertexts are kept by transaction hash; a message without any stores nothing. */
  function StoreAuditorData(m: map<Bytes, Bytes>, txHash: Bytes, data: Bytes): map<Bytes, Bytes> {
    if |data| > 0 then m[txHash := data] else m
  }
}
