/** What a successful deposit or transact reports and appends, in terms of the note log. */
module Outputs {
  import opened Field
  import opened Types
  import opened Forest
  import opened ForestInvariant
  import opened ForestLog
  import opened PublicInputs
  import opened Pool
  import opened PoolProofs
  import R = Registration

  /** The notes an output slot stands for: none for an all-zero dummy. */
  function Real(noteHash: Bytes): seq<Bytes> {
    if noteHash == ZERO32 then [] else [noteHash]
  }

  /** Reported indices are the log positions from `n` on, within their trees. */
  ghost predicate Positions(d: nat, n: nat, indices: seq<nat>) {
    forall i: nat | i < |indices| :: indices[i] == (n + i) % Pow2(d)
  }

  function ActiveRoot(env: Env, d: nat, f: Forest): Bytes {
    RootBytes(env.hash2, d, Leaves(f, f.activeTree))
  }

  lemma InsertReports(env: Env, d: nat, f: Forest, c: Bytes, i: Inserted)
    requires Inv(env.hash2, d, f) && InsertNote(env.hash2, d, f, c) == Ok(i)
    ensures Inv(env.hash2, d, i.forest) && Log(d, i.forest) == Log(d, f) + [c]
    ensures i.leafIndex == |Log(d, f)| % Pow2(d) && i.root == ActiveRoot(env, d, i.forest)
  {
    hide InsertNote, TreesOk, UsedOk, ForestProofs.IndexOk, Log;
    InsertNoteKeepsInv(env.hash2, d, f, c, InsertNote(env.hash2, d, f, c));
    InsertNoteAppends(env.hash2, d, f, c, i);
  }

  lemma CreateOutputAppends(env: Env, d: nat, c: Created, noteHash: Bytes, c': Created, n: nat)
    requires Inv(env.hash2, d, c.notes) && CreateOutput(env, d, c, noteHash) == Ok(c')
    requires |Log(d, c.notes)| == n + |c.response.leafIndices| && Positions(d, n, c.response.leafIndices)
    ensures Inv(env.hash2, d, c'.notes) && Log(d, c'.notes) == Log(d, c.notes) + Real(noteHash)
    ensures |c'.response.leafIndices| == |c.response.leafIndices| + |Real(noteHash)|
    ensures Positions(d, n, c'.response.leafIndices)
    ensures c'.response.merkleRoot
         == if noteHash == ZERO32 then c.response.merkleRoot else ActiveRoot(env, d, c'.notes)
    ensures noteHash == ZERO32 ==> c' == c
  {
    hide Inv, InsertNote, Log, ActiveRoot;
    if noteHash != ZERO32 {
      InsertReports(env, d, c.notes, noteHash, InsertNote(env.hash2, d, c.notes, noteHash).value);
    } else {
      assert Log(d, c.notes) + [] == Log(d, c.notes);
    }
  }

  /** A successful transact appends exactly its real outputs, first slot first, reports their
      positions, and returns the padded root of the tree the last one went to. */
  lemma TransactAppends(env: Env, d: nat, s: Pool, msg: MsgTransact, o: Outcome)
    requires PoolInv(env, d, s)
    requires |msg.nullifiers| == |msg.merkleRoots| == |msg.outputs| == 2
    requires Transact(env, s, msg) == Ok(o)
    ensures o.response.Transacted?
    ensures var a, b, r := Real(msg.outputs[0].noteHash), Real(msg.outputs[1].noteHash), o.response.response;
      && Log(d, o.pool.notes) == Log(d, s.notes) + a + b
      && |r.leafIndices| == |a| + |b| && Positions(d, |Log(d, s.notes)|, r.leafIndices)
      && r.merkleRoot == if |a| + |b| == 0 then [] else ActiveRoot(env, d, o.pool.notes)
  {
    hide Inv, R.RegInv, Transact, CreateOutput, Log, ActiveRoot, Positions;
    TransactParts(env, s, msg, o);
    var none := Created(s.notes, MsgTransactResponse([], []));
    var n := |Log(d, s.notes)|;
    var c1 := CreateOutput(env, d, none, msg.outputs[0].noteHash).value;
    var c2 := CreateOutputs(env, d, s.notes, msg).value;
    NothingReported(d, n);
    CreateOutputAppends(env, d, none, msg.outputs[0].noteHash, c1, n);
    CreateOutputAppends(env, d, c1, msg.outputs[1].noteHash, c2, n);
  }

  lemma NothingReported(d: nat, n: nat)
    ensures Positions(d, n, [])
  {
  }

  /** A successful deposit appends exactly its note, reports its position and the new root,
      and moves exactly the amount from the depositor to the module account. */
  lemma DepositAppends(env: Env, d: nat, s: Pool, msg: MsgDeposit, txHash: Bytes, o: Outcome, who: Bytes, den: Bytes)
    requires PoolInv(env, d, s) && Deposit(env, s, msg, txHash) == Ok(o)
    ensures Log(d, o.pool.notes) == Log(d, s.notes) + [msg.noteCommitment]
    ensures o.response == Leaf(|Log(d, s.notes)| % Pow2(d), ActiveRoot(env, d, o.pool.notes))
    ensures env.parseInt(msg.amount).Some? && env.bech32(msg.sender).Some? && msg.denom in s.params.supportedDenoms
    ensures var amt := env.parseInt(msg.amount).value;
      Balance(o.pool.bank, who, den) == Balance(s.bank, who, den)
        - (if env.bech32(msg.sender) == Some(who) && den == msg.denom then amt else 0)
        + (if who == env.moduleAddr && den == msg.denom then amt else 0)
  {
    hide Inv, R.RegInv, InsertNote, Log, ActiveRoot, Send, Balance, VerifyDepositPublicInputs, VerifyProof, Parse;
    DepositParts(env, s, msg, txHash, o);
    InsertReports(env, d, s.notes, msg.noteCommitment, InsertNote(env.hash2, d, s.notes, msg.noteCommitment).value);
    var amt := CheckDeposit(env, s.params, s.vks, msg).value;
    SendMoves(s.bank, env.bech32(msg.sender).value, env.moduleAddr, msg.denom, amt, o.pool.bank, who, den);
  }
}
