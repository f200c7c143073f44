# A verified model of the shielded pool

The module keeps private notes in append-only Merkle trees, a list of spent nullifiers, an
identity tree, and a pot of coins held by its module account. Users deposit coins for a note,
spend two notes for two new ones (and optionally withdraw coins), and register an identity. This
project models that state machine and its codecs in Dafny and proves what each promises.

`dafny verify dfyconfig.toml` checks everything.

## How the model is laid out

| files | content |
|---|---|
| `field.dfy`, `types.dfy` | bytes, field elements modulo the BN254 scalar prime, messages, parameters, errors |
| `merkle.dfy` | the zero-padded tree, the frontier walk, Merkle openings |
| `forest.dfy`, `forestproofs.dfy`, `forestinvariant.dfy` | the note forest as a value, the counting invariant of the root index, the invariant of reachable forests |
| `forestroots.dfy`, `forestlog.dfy`, `rebuild.dfy` | which roots are accepted and for how long, the forest as one log, the index repair |
| `depthchange.dfy`, `anydepth.dfy` | inserts and whole runs in which governance changes the tree depth |
| `registration.dfy` | the identity tree |
| `keeper.dfy` | the class `Keeper`: the same operations on a mutable store, proved against `forest.dfy` and `registration.dfy` |
| `publicinputs.dfy` | public-input vectors: parsing, string limbs, the checks, the assembled transact vector, message validation |
| `pool.dfy`, `poolproofs.dfy`, `solvency.dfy` | the chain as a state machine, single spend, exact payouts, solvency |
| `acceptance.dfy` | exactly which messages are accepted, what a success leaves, and which error a refusal gives |
| `outputs.dfy` | what a deposit or transact appends to the log and reports |
| `server.dfy` | the classes `MsgServer` and `BankKeeper`, proved against `pool.dfy`, with the rollback of failed transactions |
| `genesis.dfy`, `restored.dfy`, `snapshots.dfy` | export and import, and the behaviour of a restored chain |
| `storekeys.dfy`, `flatstore.dfy`, `flatsteps.dfy` | the byte layout of the flat store, what each key holds, every message as its list of byte writes |
| `address.dfy` | the hexadecimal address codec |
| `wire.dfy`, `wirereader.dfy`, `wiremessages.dfy`, `treewire.dfy`, `transactwire.dfy`, `schema.dfy` | the protobuf wire form, writer and reader, against the message declarations |

The class methods follow the source's control flow; each one ends in exactly the state a
specification function gives, and the theorems are about those functions and their runs. What the
specification functions themselves say is fixed by theorems that do not speak through them:
acceptance over the proof verifier and the 23 inputs, imports of arbitrary snapshots, addresses
over characters, wire messages over their declared fields, numbers over their digits.

Some readings that matter:

- The two-to-one hash `Hash2` is an arbitrary function. Nothing about it is assumed for the tree,
  index, window, log, single-spend and snapshot results. Where collision resistance is needed
  (solvency, and the failing half of a depth change) it is asked only on a stated set of hashed
  pairs, since no function from pairs of elements to elements is injective everywhere.
- The proof verifier, the string hash, bech32, decimal and denom parsing, and the verification-key
  normaliser are function-valued fields of `Types.Env`. What an accepted proof means for solvency
  is the predicate `Solvency.VerifierContract`, one message at a time.
- A failed message leaves the state untouched (`Pool.Step`); `Server.MsgServer.Execute` shows that
  the handlers plus the host chain's rollback do exactly that, although nullifiers are marked
  before the proof is checked.
- The varint reader adds what the source or-s in; `WireReader.VarintBounds` and
  `WireReader.DigitFits` show that the bits never overlap and where the 64-bit word cuts.

Where the code does less than its comments or a reader might expect, the model follows the code:

- The one-read root lookup and the scan of all slots disagree on a second encoding of a held root:
  the scan compares bytes, the lookup compares field elements. They also disagree on the empty
  byte string, which the scan finds in every slot never written.
  `ForestRoots.LookupAgreesWithScan` gives the exact condition for every byte string and
  `ForestRoots.SecondEncodingTellsApart` a failing input for every held root. Validated messages
  carry canonical roots only, so handlers never meet the difference.
- Raising the tree depth while the active tree is exactly full makes the next root wrong
  (`DepthChange.GrownAfterFixedDepth`, with the smallest case in `DepthChange.GrownExample`);
  `DepthChange.GrownFullTree` says exactly when it is harmless, and
  `AnyDepth.ReportsAtChangingDepths` that every other depth change is safe.
- The packed-integer reader bounds each number by the whole input and not by its own block.
  `TransactWire.PackedConfinedIff` says for every input when it stays inside;
  `TransactWire.PackedOverrun` is the smallest input on which it does not.
- The deposit check fixes the amount modulo the prime only: it cannot tell an amount from the one
  a prime higher (`PublicInputs.DepositAmountExactBelowPrime`). Transact amounts are below 2^64 and
  exact (`PublicInputs.AmountsNotReduced`).
- An auditor key of 1 to 63 bytes reads as the zero key in the assembled transact vector, while the
  deposit and register checks refuse every vector under it (`PublicInputs.AuditorInputs`).
  Parameter validation admits 0 or 64 bytes; `InitGenesis` itself stores what it is given.

## Model

| member | source | states |
|---|---|---|
| Field.CanonicalIffSameElement | types/keys.go:175-180 | two byte strings of any length have the same canonical form exactly when they denote the same field element |
| Field.ValidIffCanonical | types/msgs.go:93-101 | field bytes pass validation exactly when they are the canonical 32-byte encoding of an element |
| Field.ValueSplits | keeper/verify.go:209-230 | and are read so: what stands in front weighs 256 times more for each byte behind it |
| Field.ByteAt | types/keys.go:90-96 | bytes are big-endian: byte k of n is the digit of weight 256^(n-1-k) |
| Merkle.CursorIsNode | keeper/merkle.go:235-260 | with a right frontier the walk holds, at every level, the node of the enlarged tree above the new leaf |
| Merkle.WalkComputesRoot | keeper/merkle.go:230-263 | the walk's result is the root of the full depth-d tree over all leaves and the new one, padded with zero leaves |
| Merkle.WalkKeepsFrontier | keeper/merkle.go:235-260 | after the walk, every level whose bit is set in the new next index again holds its completed left subtree, although other levels were overwritten with partial ones |
| ForestInvariant.InsertNoteKeepsInv | keeper/merkle.go:151-208 | an insert fails exactly on a value already present, never with a full tree, and keeps the whole invariant: padded roots, frontier, ring window, reference counts, used-set equal to the leaf values, no value at two leaves, all trees but the last full |
| ForestInvariant.CreateKeepsInv | keeper/merkle.go:85-134 | opening a tree keeps the invariant when the active one is full or there is none |
| ForestInvariant.InsertKeepsWindow | keeper/merkle.go:272-274 | the ring write keeps slot j mod 100 equal to the root after insert j, for the last 100 inserts |
| ForestInvariant.UseFreshValue | keeper/merkle.go:157-166 | a fresh value at a new leaf keeps the used-set equal to the leaf values and the leaf values distinct |
| ForestProofs.HoldersUpdate | keeper/merkle.go:430-448 | overwriting one slot moves the number of slots holding a root by exactly the old and the new content |
| ForestProofs.ReindexEntry | keeper/merkle.go:465-499 | increment then decrement moves one entry's count by the same amounts, with absent for zero, also when old and new are two encodings of one element |
| ForestProofs.PutRootKeepsCounts | keeper/merkle.go:503-519 | writing any bytes as a tree's root keeps every index entry equal to its number of slots |
| ForestProofs.PutHistoryKeepsCounts | keeper/merkle.go:524-541 | writing any bytes into a ring slot keeps every index entry equal to its number of slots |
| ForestProofs.InsertNoteKeepsIndex | keeper/merkle.go:151-208 | an insert at any depth, in any state with a right index, leaves a right index |
| ForestRoots.AcceptedExactly | keeper/merkle.go:676-695 | the lookup accepts exactly the padded roots after each of the last min(n, 100) inserts of each tree, the empty root of a tree without inserts, and the default empty root |
| ForestRoots.RootExpires | keeper/merkle.go:524-541 | a root is refused exactly from the moment 100 later inserts went into every tree that ever had it, counted in each from its last occurrence |
| ForestRoots.UnwrittenRootIsEmpty | keeper/merkle.go:59-69 | a tree whose root was never written reports the empty root of the default depth |
| ForestRoots.LookupAgreesWithScan | keeper/merkle.go:629-695 | for every byte string the one-read lookup and the scan of all slots agree if and only if it is canonical or its element is not indexed; for the empty one, if and only if no existing tree has a slot never written |
| ForestRoots.SecondEncodingTellsApart | keeper/merkle.go:676-695 | the value of any held root plus the prime, in 32 bytes, is accepted by the lookup and not found by the scan |
| ForestLog.InsertNoteAppends | keeper/merkle.go:151-208 | an insert appends to one log: its tree is size div 2^d, its index size mod 2^d, it returns that tree's padded root, and earlier trees stay as they were |
| ForestLog.LogIsHistory | keeper/merkle.go:137-208 | after any run of inserts the log is the old log and the inserted notes, in order |
| ForestLog.TreeIsBlock | keeper/merkle.go:151-208 | leaf i of tree t is entry t * 2^d + i of the log |
| Registration.InsertRegKeepsInv | keeper/merkle.go:318-416 | a registration succeeds exactly for a new value while the tree has room, appends it, writes the padded root of all identities, and keeps the invariant with its own used-set |
| Rebuild.RebuildIgnoresIndex | keeper/merkle.go:562-623 | the rebuilt index depends on the slots alone, whatever the index held before |
| Rebuild.RebuildIdempotent | keeper/merkle.go:562-623 | rebuilding twice changes nothing more |
| Rebuild.RebuildFixesExactly | keeper/merkle.go:562-623 | with all slots in range the rebuild establishes the counting invariant, and changes nothing exactly when it already held |
| DepthChange.InsertAtOtherDepth | keeper/merkle.go:168-194 | an insert at a depth other than the last one's still writes the padded root at its own depth, unless the depth rose over an exactly full tree |
| DepthChange.RootsAtChangingDepths | keeper/merkle.go:211-284 | over any run of inserts, each at its own depth and none raising the depth over an exactly full active tree, every root written is right |
| DepthChange.GrownFullTree | keeper/merkle.go:246-257 | over an exactly full tree a raised depth gives the right root if and only if the stored entry at the old depth equals the full tree's root |
| DepthChange.GrownAfterFixedDepth | keeper/merkle.go:246-257 | after a run at one depth that entry is missing, so the insert succeeds and returns a root that is not its tree's |
| DepthChange.GrownExample | keeper/merkle.go:168-194 | two notes at depth 1 from the empty store, then one at depth 2: for every hash, the root returned and the root of the tree, side by side |
| AnyDepth.RunKeepsLoose | keeper/msg_server.go:60-409 | over every run, governance changing the depth included, each index entry counts its slots, each used-set is the set of its tree's leaf values, and no value occurs at two leaves |
| AnyDepth.EveryReachableStateIsLoose | keeper/msg_server.go:60-409 | the same for every state reached from the empty pool, with no hypothesis |
| AnyDepth.ReportsAtChangingDepths | keeper/msg_server.go:115-409 | over every run in which no insert meets an exactly full tree under a raised depth, every root a deposit or transact reports is the padded root of its tree at the depth then in force |
| Keepers.Keeper.SetTreeRootIndexed | keeper/merkle.go:503-519 | the stored root and the index become what the specification of the indexed write says, nothing else changes |
| Keepers.Keeper.SetRootHistoryIndexed | keeper/merkle.go:524-541 | the ring slot and the index become what the specification of the indexed write says |
| Keepers.Keeper.RebuildRootIndex | keeper/merkle.go:562-623 | the clearing, counting and writing loops end in a state whose index counts the slots of existing trees and whose other fields are untouched |
| Keepers.Keeper.CreateTree | keeper/merkle.go:85-134 | the loop over levels and the writes end in the specified new forest |
| Keepers.Keeper.WalkUp | keeper/merkle.go:235-260 | the loop with its shifting index returns the specified cursor and leaves the specified frontier |
| Keepers.Keeper.InsertLeafIntoTree | keeper/merkle.go:211-284 | refuses a full tree, otherwise ends in the specified forest with root, index and tree returned |
| Keepers.Keeper.InsertNote | keeper/merkle.go:151-208 | the result and the new forest are those of the specification of an insert |
| Keepers.Keeper.InsertLeafSingleTree | keeper/merkle.go:347-416 | the registration tree's own loop ends in the specified state |
| Keepers.Keeper.InsertRegCommitment | keeper/merkle.go:318-344 | the result and the new identity tree are those of the specification |
| Keepers.Keeper.MarkNullifierSpent | keeper/merkle.go:420-428 | afterwards a byte string counts as spent exactly when it did before or has the same canonical form as this nullifier |
| Keepers.Keeper.IsKnownRoot | keeper/merkle.go:629-659 | the scan loop finds a root exactly when some slot of the tree holds it or it is the default empty root |
| PublicInputs.ParseInvertsConcat | keeper/verify.go:182-196 | a byte string parses to a vector exactly when it is the concatenation of that vector's canonical encodings |
| PublicInputs.ParsePublicInputs | keeper/verify.go:182-196 | the chunk loop accepts and returns what the specification does and rejects a partial or non-canonical chunk |
| PublicInputs.UnchunkChunks | keeper/verify.go:209-230 | a decoder that knows the length recovers every string from its 31-byte limbs |
| PublicInputs.LimbIsInteger | keeper/verify.go:209-230 | every limb is the integer its bytes write, below the prime, so none is reduced |
| PublicInputs.LimbsInjective | keeper/verify.go:209-230 | two strings with the same limb list are equal, for all lengths |
| PublicInputs.LimbsLayout | keeper/verify.go:209-230 | the hashed list is the byte length as a 64-bit number, then for every k the integer of bytes 31k to 31k + 31 |
| PublicInputs.BuildLimbs | keeper/verify.go:209-230 | the limb loop builds that list |
| PublicInputs.DepositBinds | keeper/verify.go:321-352 | one vector passes the deposit check for one note, one amount modulo the prime, one denom up to a hash collision, and one auditor key |
| PublicInputs.DepositAmountExactBelowPrime | keeper/verify.go:321-352 | the vector holds the amount itself if and only if it lies in 0 to the prime, and the check gives any amount and the one a prime higher the same answer |
| PublicInputs.RegisterBinds | keeper/verify.go:282-317 | one vector passes the register check for one identity commitment, one chain and one auditor key |
| PublicInputs.RegisterVector | keeper/verify.go:282-317 | the accepted vectors are exactly those of nine inputs that start with the commitment, the chain, and the auditor key's halves when one is configured |
| PublicInputs.DepositVector | keeper/verify.go:321-352 | the accepted vectors are exactly those of eight inputs that start with the note, the amount modulo the prime, the hashed denom, and the auditor key's halves when one is configured |
| PublicInputs.AssembleInPlace | keeper/verify.go:356-437 | filling the 23 slots one by one gives the specified vector or its error |
| PublicInputs.AssembledSlots | keeper/verify.go:356-437 | a vector is the assembled one if and only if a chain is configured, both amounts parse, and every one of its 23 inputs is what the circuit reads there, the pool address among them |
| PublicInputs.VectorNamesPool | keeper/verify.go:390-405 | two chains or two pools with different elements never assemble the same vector |
| PublicInputs.ValidatedFields | types/msgs.go:123-195 | a validated transact has two canonical nullifiers, roots and note hashes, and amounts below 2^64 |
| PublicInputs.AmountsNotReduced | keeper/verify.go:382-422 | inputs 6 and 11 are the withdrawal and the fee as integers |
| PublicInputs.TransactBinds | keeper/verify.go:356-437 | validated messages with the same vector agree on nullifiers, roots, note hashes, registration root, withdrawal, fee, auditor ciphertexts and key, and on address and denom unless two strings collide under the hash |
| PublicInputs.AuditorInputs | keeper/verify.go:424-430 | inputs 18 and 19 are the halves of an auditor key of 64 bytes or more, and zero for any shorter key; a key of 1 to 63 bytes fails every deposit and register check |
| PoolProofs.RunKeepsInv | keeper/msg_server.go:60-432 | every run of messages that leave the note tree depth alone keeps the whole invariant of the note forest and the identity tree, ring windows included |
| PoolProofs.SingleSpend | keeper/msg_server.go:226-258 | over any run from any state the consumed nullifier values are pairwise different, none was spent before, and the spent set grows by exactly them, all-zero dummies aside |
| PoolProofs.SpentUnderEveryEncoding | keeper/msg_server.go:226-258 | no encoding of a spent value, in either slot, is accepted again |
| PoolProofs.TransactPaysExactly | keeper/msg_server.go:302-381 | a successful transact changes every balance by exactly the integers in inputs 6 and 11, out of the module account, to the withdraw address and the sender, in a supported denom |
| Acceptance.RegisterAccepted | keeper/msg_server.go:60-112 | a registration is accepted if and only if it is well formed, carries a vector naming this identity, chain and auditor and a proof the verifier accepts for it under the stored key, brings the auditor's data, and its value is new and the tree has room |
| Acceptance.RegisterAppends | keeper/msg_server.go:87-112 | a successful registration appends exactly its identity, reports its position and the padded root of all identities, keeps the auditor's data, and changes nothing else |
| Acceptance.RegRootIsPadded | keeper/merkle.go:306-316 | the root a transaction must name is the padded root of all identities, also before the first one |
| Acceptance.DepositAccepted | keeper/msg_server.go:115-210 | a deposit is accepted if and only if it is well formed, carries a vector naming this note, amount, denom and auditor and a proof the verifier accepts for it under the stored key, the denom is supported, the sender can pay, a chain is configured and the note is new |
| Acceptance.TransactAccepted | keeper/msg_server.go:214-387 | a transaction is accepted if and only if it is well formed, names the current registration root, each input slot is a dummy or unspent with an accepted root, the two are different, the verifier accepts its proof for the vector with the right value in each of 23 slots, its notes are new and different, and both payouts are allowed and covered |
| Acceptance.RegisterRefused | keeper/msg_server.go:60-112 | the error of a refused registration is that of the first condition it fails |
| Acceptance.DepositRefused | keeper/msg_server.go:115-210 | the same for deposits |
| Acceptance.TransactRefused | keeper/msg_server.go:214-387 | the same for transactions |
| Acceptance.ParamsAccepted | keeper/msg_server.go:390-409 | parameters change if and only if the authority asks and they are valid, by the handler alone as behind the stateless check, and nothing else changes |
| Acceptance.KeyAccepted | keeper/msg_server.go:412-432 | a key changes if and only if the authority asks, the circuit is one of three and the key has a normal form, which is what is stored |
| Outputs.DepositAppends | keeper/msg_server.go:115-210 | a successful deposit appends exactly its note, reports its position and the new padded root, and moves exactly the amount from the depositor to the module account |
| Outputs.TransactAppends | keeper/msg_server.go:277-300 | a successful transact appends exactly its real outputs in slot order, reports their positions, and returns the root of the tree the last one went to |
| Solvency.OpenedIsInserted | keeper/msg_server.go:226-258 | an opening to any accepted root opens a note that was inserted |
| Solvency.TransactProved | keeper/msg_server.go:262-275 | no transaction succeeds unless the verifier, with the stored transact key, accepts its proof of the assembled vector |
| Solvency.AlwaysSolvent | keeper/msg_server.go:115-387 | over any fair run in a one-denom pool the module balance stays at least the total value of inserted notes with unspent nullifiers |
| Solvency.PayoutNeverShort | keeper/msg_server.go:302-381 | in such a run no payout fails for lack of funds |
| Solvency.PoolAlwaysPays | keeper/msg_server.go:115-387 | from the empty pool along any fair run, no transaction is refused for lack of funds, and the pool is solvent at the end |
| Server.MsgServer.Register | keeper/msg_server.go:60-112 | the handler returns what the specification returns and, on success, leaves its state |
| Server.MsgServer.Deposit | keeper/msg_server.go:115-210 | the same for deposits, coins and note together |
| Server.MsgServer.Transact | keeper/msg_server.go:214-387 | the same for transactions, with nullifiers marked first and both payouts last |
| Server.MsgServer.Execute | keeper/msg_server.go:244-275 | with the rollback of failures one message is exactly one step of the state machine: all of its writes or none |
| Genesis.NotesRoundTrip | keeper/genesis.go:14-314 | importing an exported forest gives back the same forest, with the compacted ring in its original slots and the index rebuilt |
| Genesis.ImportSucceeds | keeper/genesis.go:134-150 | import succeeds if and only if every listed verification key has a normal form |
| Genesis.ImportedKeys | keeper/genesis.go:134-150 | for any snapshot, each listed circuit name and no other holds the normal form of its last key |
| Genesis.ImportedTrees | keeper/genesis.go:25-67 | for any list of trees, in any order and with repeats, each leaf, node, ring slot, root and counter is what the last entry giving it says, and is absent when none does |
| Genesis.ImportedIndex | keeper/genesis.go:25-67 | for any list of trees, in any order and with repeats, the imported index counts the imported slots |
| Genesis.ImportedMarks | keeper/genesis.go:15-124 | for any snapshot, spent and used values are exactly those listed in any encoding, and parameters, counters and index are in place |
| Restored.RoundTrip | keeper/genesis.go:14-314 | exporting any well-formed pool and importing it succeeds and gives the pool with unwritten registration levels filled in |
| Restored.ImportedIds | keeper/genesis.go:84-108 | any snapshot leaves exactly the identity leaves and nodes it lists, its root, and the empty root when it lists none |
| Restored.ImportedKeysNormal | keeper/genesis.go:134-150 | whatever a snapshot lists, the keys import leaves are in normal form, so they survive another export and import |
| Restored.SameExports | keeper/genesis.go:156-314 | a state and its restored form have the same exports |
| Restored.DeliverAlike | keeper/genesis.go:14-153 | a message succeeds or fails alike, with the same response, on a state and on its restored form |
| Restored.RunsAlike | keeper/genesis.go:14-153 | every later run gives the same answers on both and ends alike |
| Restored.RunKeepsExportable | keeper/genesis.go:156-314 | every reachable state can be exported |
| Restored.RestoredChainBehavesTheSame | keeper/genesis.go:14-314 | from the start state, any run, any export of it, its import, and any later run: the restored chain gives every later message the same answer and ends where the original does |
| Snapshots.ExportGenesis | keeper/genesis.go:156-314 | the export loops produce an export of the store's state |
| Snapshots.InitGenesis | keeper/genesis.go:14-153 | the import loops, writing key by key into a fresh store, end in the specified state |
| StoreKeys.DecodeEncode | types/keys.go:90-204 | every typed key is recovered from its bytes |
| StoreKeys.EncodeInjective | types/keys.go:90-204 | keys of different regions or different arguments never share bytes, field arguments up to their canonical value |
| StoreKeys.KeysInOrder | types/keys.go:90-114 | leaf and ring keys sort by tree and then by position, as numbers |
| StoreKeys.PrefixText | types/keys.go:22-63 | every prefix is the ASCII of its text |
| StoreKeys.PrefixDecides | types/keys.go:22-63 | a region's prefix begins the keys of that region only |
| StoreKeys.FlatReads | types/keys.go:90-204 | a flat byte store that holds a typed map answers each key as the typed map does |
| StoreKeys.FlatWrites | types/keys.go:90-204 | writing one key of the flat store is writing that entry of the typed map |
| StoreKeys.FlatDeletes | types/keys.go:90-204 | deleting one key of the flat store is deleting that entry |
| StoreKeys.IterationIsRegion | keeper/genesis.go:322-341 | iterating the byte range of a prefix meets exactly the entries of one region |
| FlatStore.FlatEntry | keeper/merkle.go:19-82 | under any key the byte store holds what the typed state says: raw bytes, eight-byte counters absent for zero, one-byte marks, counts absent for zero |
| FlatStore.UpdateIsWrite | keeper/merkle.go:465-541 | every assignment the keeper makes to the typed state is one write or delete of one key's bytes |
| FlatStore.BytesDetermineState | types/keys.go:90-204 | two states with the same bytes are the same, the bank aside |
| FlatSteps.StepIsUpdates | keeper/msg_server.go:60-432 | a message does to the state exactly what its list of writes does, in the handler's order, and a failed one writes nothing |
| FlatSteps.RunOnBytes | keeper/msg_server.go:60-432 | over whole runs the byte store, changed by nothing but those writes and deletes, holds the state machine's state, while no number outgrows its width |
| StoreKeys.CommitmentKey | types/keys.go:90-96 | the buffer filled in place is the encoding of the leaf key |
| StoreKeys.NullifierKey | types/keys.go:194-196 | the buffer is the encoding of the key of the nullifier's canonical value |
| Address.DecodeEncode | crypto/nixaddress.go:13-70 | decoding an encoded key returns the key, for every on-curve key |
| Address.NormalForm | crypto/nixaddress.go:26-70 | any accepted address decodes to the same key as its re-encoded form |
| Address.SameNumberSameBytes | crypto/nixaddress.go:82-100 | two accepted hexadecimal parts give the same bytes exactly when they write the same number |
| Address.PartAccepted | crypto/nixaddress.go:82-127 | a part is accepted exactly when at most 64 characters follow its prefix, each one of the 22 digits |
| Address.CaseIgnored | crypto/nixaddress.go:116-127 | changing the case of letters changes neither whether a part is accepted nor its bytes |
| Address.PrefixIgnored | crypto/nixaddress.go:83 | one `0x` in front changes nothing |
| Address.LeadingZerosIgnored | crypto/nixaddress.go:84-90 | zeros in front change nothing, up to 64 digits |
| Address.DecodedExactly | crypto/nixaddress.go:26-70 | an address names a key if and only if it is the prefix and three parts without colons: the commitment of X and Y in that order, X, and Y of a point on the curve |
| Address.DecodeAnyCase | crypto/nixaddress.go:13-70 | the encoding of an on-curve key decodes to it however its letters are cased |
| Address.EncodedForm | crypto/nixaddress.go:13-22 | an encoded address has 198 characters: the prefix and three fields of 64 lower-case digits |
| Address.ReadHex32 | crypto/nixaddress.go:82-127 | the padding and digit loops return what the specification does, errors included |
| Wire.SovIsLength | types/genesis.pb.go:827-829 | the size computed from the bit length is the number of bytes written |
| Wire.EncodeVarint | types/genesis.pb.go:677-687 | writes exactly the varint, ending at the given offset, and touches no other byte |
| Wire.PutRep | types/genesis.pb.go:556-565 | the backward loop over a repeated field writes all elements in order in front of what was there |
| WireReader.VarintReads | types/genesis.pb.go:1245-1259 | the reader returns every 64-bit value the writer wrote and stops behind it |
| WireReader.VarintBytes | types/genesis.pb.go:677-687 | byte k written is digit k of the number, the high bit set on all but the last |
| WireReader.VarintDigits | types/genesis.pb.go:677-687 | and the digits written make up the whole number |
| WireReader.VarintValue | types/genesis.pb.go:1245-1259 | whatever bytes are read, shortest form or not, the value is the number their seven-bit digits write, low ones first, cut to 64 bits |
| WireReader.VarintBounds | types/genesis.pb.go:1245-1259 | on any bytes the reader uses at most ten of them and its value fits 64 bits |
| WireReader.DecodeVarint | types/genesis.pb.go:1245-1259 | the shift loop terminates inside the input with the specified value or error |
| WireReader.Skip | types/genesis.pb.go:1692-1769 | the skipper's loop terminates on every byte string with the specified length or error, 64-bit wrap-around included |
| WireReader.SkipField | types/genesis.pb.go:1437-1449 | skipping an unknown field moves the cursor forward and never past the end |
| WireReader.SkipsOneField | types/genesis.pb.go:1692-1769 | the skipper passes over exactly one well-formed field, however deeply its groups nest |
| WireMessages.ReadField | types/genesis.pb.go:1243-1270 | every iteration either reports an error or moves the cursor forward inside the input |
| WireMessages.UnknownIgnored | types/genesis.pb.go:1437-1449 | a well-formed unknown field met anywhere changes no message |
| WireMessages.TagRefused | types/genesis.pb.go:1260-1267 | a tag is refused for an end-of-group type, for a field number that is zero or negative in 32 bits, and for nothing else |
| WireMessages.WrongTypeRefused | types/genesis.pb.go:1268-1272 | a known field of another wire type than declared is refused |
| WireMessages.LengthRefused | types/genesis.pb.go:1305-1315 | a length is accepted if and only if its payload ends inside the input, and a negative one is reported as such |
| WireMessages.UnendedRefused | types/genesis.pb.go:1245-1259 | ten bytes without an end are an overflow, and fewer at the end of the input are cut short |
| Schemas.TreeFollows | proto/nixprotocol/privacy/v1/genesis.proto:25-32 | the tree encoder writes the declared fields under their declared numbers and types |
| Schemas.AuditorFollows | proto/nixprotocol/privacy/v1/genesis.proto:34-37 | the same for auditor entries |
| Schemas.NoteFollows | proto/nixprotocol/privacy/v1/tx.proto:55-65 | the same for notes |
| Schemas.TransactFollows | proto/nixprotocol/privacy/v1/tx.proto:68-81 | the same for transactions, nested notes included |
| Schemas.ResponseFollows | proto/nixprotocol/privacy/v1/tx.proto:83-86 | the same for responses, indices packed |
| TreeWire.TreeSize | types/genesis.pb.go:756-791 | the size computed is the length of the encoding |
| TreeWire.MarshalTreeToSizedBuffer | types/genesis.pb.go:551-601 | the writer fills exactly the last Size bytes with the encoding and leaves all others |
| TreeWire.UnmarshalTree | types/genesis.pb.go:1240-1457 | the cursor loop terminates with the specified message or error |
| TreeWire.TreeRoundTrip | types/genesis.pb.go:536-1457 | unmarshal of marshal is the identity on every tree state |
| TreeWire.TreeConcat | types/genesis.pb.go:1240-1457 | two encodings one behind the other read as the merged tree: later scalars win where written, lists are joined |
| TreeWire.TreeIgnoresUnknown | types/genesis.pb.go:1437-1449 | a field of a later schema before or behind a tree state does not change what is read |
| TreeWire.TreeNormalForm | types/genesis.pb.go:1240-1457 | every accepted input re-encodes to at most as many bytes, which read as the same message |
| TreeWire.AuditorRoundTrip | types/genesis.pb.go:603-1575 | unmarshal of marshal is the identity on every auditor entry |
| TransactWire.MarshalNoteTo | types/tx.pb.go:1292-1361 | a nested note is written in place and ends where the caller says |
| TransactWire.TransactSize | types/tx.pb.go:1801-1854 | the size computed is the length of the encoding |
| TransactWire.MarshalTransactToSizedBuffer | types/tx.pb.go:1378-1465 | the writer fills exactly the last Size bytes with the encoding, nested notes included |
| TransactWire.UnmarshalTransact | types/tx.pb.go:3000-3375 | the cursor loop and the nested reader terminate with the specified message or error |
| TransactWire.NoteRoundTrip | types/tx.pb.go:1292-2999 | unmarshal of marshal is the identity on every note |
| TransactWire.TransactRoundTrip | types/tx.pb.go:1363-3375 | unmarshal of marshal is the identity on every message, nested notes included |
| TransactWire.TransactConcat | types/tx.pb.go:3000-3375 | two encodings one behind the other read as the merged message, nested notes joined in order |
| TransactWire.TransactNormalForm | types/tx.pb.go:3000-3375 | every accepted input re-encodes to at most as many bytes, which read as the same message |
| TransactWire.PackIndices | types/tx.pb.go:1494-1506 | the scratch buffer of ten bytes a number is never overrun and holds the packed numbers |
| TransactWire.MarshalResponseToSizedBuffer | types/tx.pb.go:1482-1513 | the writer fills exactly the last Size bytes with the encoding |
| TransactWire.UnmarshalResponse | types/tx.pb.go:3376-3535 | the cursor loop terminates with the specified message or error |
| TransactWire.ResponseRoundTrip | types/tx.pb.go:1467-3535 | unmarshal of marshal is the identity on every response with 64-bit indices |
| TransactWire.ResponseTypeRefused | types/tx.pb.go:3405-3481 | indices come as numbers or packed and the root as bytes; any other type is refused |
| TransactWire.ResponseIgnoresUnknown | types/tx.pb.go:3514-3526 | a well-formed field of a later schema is passed over whole |
| TransactWire.UnpackedReads | types/tx.pb.go:3406-3422 | indices sent one field each are read like a packed block |
| TransactWire.PackedConfinedIff | types/tx.pb.go:3460-3477 | a packed block that is read without error is read exactly to its end if and only if it is empty or its last byte is below 128; otherwise the cursor ends behind it |

## Left out

- Store and bank I/O errors, gas, events, logging and genesis validation outside `InitGenesis`: not part of the state machine.
- 64-bit counters: tree ids, leaf indices and counts are unbounded in the state machine; 2^64 inserts are out of reach. Key bytes and wire fields are 64-bit.
- The proof verifier, Poseidon2, verification-key decoding, bech32, decimal and denom parsing: arbitrary functions in `Types.Env`.
- Grumpkin arithmetic, key generation and ECIES: the address codec takes the on-curve test as a predicate.
- Query server, command line, module wiring, JSON of parameters, and the other generated message types: the same patterns or thin getters.
- PoolProofs.RunKeepsInv: the window of accepted roots is stated for one depth; when governance changes it, `AnyDepth` keeps the index, the used-sets and every new root, but the window, which then holds roots of several depths, is not restated.
- Solvency.AlwaysSolvent: one supported denom, since the rule that ties a note to its denom lives in a circuit that is not part of this model; no deposit signed by the module account; the verifier contract and collision freedom on the hashed pairs are hypotheses of each step.
- Keepers.Keeper.WalkUp: the walk is inside two longer functions in the source; here it is a method of its own for each tree.
- Keepers.Keeper.InsertNote: the class keeps the store as typed fields; its link to bytes is `FlatSteps`, which gives the same operations as lists of byte writes.
- FlatSteps.RunOnBytes: parameters are written by an arbitrary function to bytes, and import and `RebuildRootIndex` are not given as lists of writes.
- Restored.RoundTrip: an export without registrations holds empty frontier levels, which import writes; the store is assumed to accept an empty value.
- WireMessages.ReadField: the generated readers repeat the tag and wire-type checks in every case; here one function does them, given each field's declared wire type.
- TreeWire.UnmarshalTree: a failing read returns the error only, not the half-filled message, and an absent byte field is not told from an empty one.
- TransactWire.UnmarshalResponse: the element count that only pre-sizes the slice is not computed.
- TransactWire.ResponseRoundTrip: no normal form with a length bound, since a single unpacked index is one byte shorter than its packed form.
- Error values are classes, without their message texts; parameter errors of one validator share one class.
