/** Public inputs: how messages are turned into the field elements a proof is checked
    against, and why equal public inputs mean equal messages. */
module PublicInputs {
  import opened Field
  import opened Types

  // ===== strings as field elements =====

  const LIMB_SIZE: nat := 31

  /** The bytes cut into 31-byte big-endian limbs, the last one possibly shorter. */
  function Chunks(b: Bytes): (limbs: seq<Fe>)
    ensures |limbs| == (|b| + 30) / 31
  {
    if |b| == 0 then []
    else var n := Min(LIMB_SIZE, |b|); [SetBytes(b[..n])] + Chunks(b[n..])
  }

  /** The hashed list: the byte length as a 64-bit number, then the limbs. */
  function Limbs(b: Bytes): seq<Fe> {
    [|b| % U64] + Chunks(b)
  }

  function StringToFe(env: Env, b: Bytes): Fe {
    env.hash(Limbs(b))
  }

  /** Rebuilds the bytes from the limbs and the length. */
  function Unchunk(limbs: seq<Fe>, len: nat): (b: Bytes)
    requires |limbs| == (len + 30) / 31
    ensures |b| == len
    decreases len
  {
    if len == 0 then []
    else var n := Min(LIMB_SIZE, len); ToBe(limbs[0], n) + Unchunk(limbs[1..], len - n)
  }

  lemma {:induction false} Pow256Mono(m: nat, n: nat)
    requires m <= n
    ensures Pow256(m) <= Pow256(n)
  {
    if m < n { Pow256Mono(m, n - 1); }
  }

  /** No limb reaches the modulus, so none is reduced. */
  lemma LimbNotReduced(b: Bytes)
    requires |b| <= LIMB_SIZE
    ensures SetBytes(b) == BeValue(b)
  {
    hide BeValue, Pow256;
    PowersOf256();
    BeValueBound(b);
    Pow256Mono(|b|, 31);
  }

  lemma LimbBack(c: Bytes)
    requires |c| <= LIMB_SIZE
    ensures ToBe(SetBytes(c), |c|) == c
  {
    LimbNotReduced(c);
    ToBeBeValue(c);
  }

  /** A decoder that knows the length recovers the string. */
  lemma {:induction false} UnchunkChunks(b: Bytes)
    ensures Unchunk(Chunks(b), |b|) == b
    decreases |b|
  {
    hide SetBytes, ToBe;
    if |b| > 0 {
      var n := Min(LIMB_SIZE, |b|);
      var head, tail := b[..n], b[n..];
      LimbBack(head);
      UnchunkChunks(tail);
      assert Chunks(b) == [SetBytes(head)] + Chunks(tail);
      assert b == head + tail;
    }
  }

  /** Limb `k` covers bytes `31k` up to `31k + 31`, or up to the end. */
  function Chunk(b: Bytes, k: nat): Bytes
    requires LIMB_SIZE * k <= |b|
  {
    b[LIMB_SIZE * k..Min(LIMB_SIZE * k + LIMB_SIZE, |b|)]
  }

  /** Every limb is the integer its bytes write: none reaches the modulus. */
  lemma {:induction false} LimbIsInteger(b: Bytes, k: nat)
    requires k < |Chunks(b)|
    ensures LIMB_SIZE * k < |b|
    ensures Chunks(b)[k] == BeValue(Chunk(b, k)) < P
    decreases |b|
  {
    hide SetBytes, BeValue;
    var n := Min(LIMB_SIZE, |b|);
    var tail := b[n..];
    assert Chunks(b) == [SetBytes(b[..n])] + Chunks(tail);
    if k == 0 {
      LimbNotReduced(b[..n]);
    } else {
      LimbIsInteger(tail, k - 1);
      assert Chunk(b, k) == Chunk(tail, k - 1);
    }
  }

  /** The length comes first, as a 64-bit number; then one integer for every 31 bytes. */
  lemma LimbsLayout(b: Bytes)
    ensures |Limbs(b)| == 1 + (|b| + 30) / 31 && Limbs(b)[0] == |b| % U64
    ensures forall k: nat :: LIMB_SIZE * k < |b| ==> k + 1 < |Limbs(b)| && Limbs(b)[k + 1] == BeValue(Chunk(b, k))
  {
    hide Chunks, BeValue;
    forall k: nat | LIMB_SIZE * k < |b| ensures k + 1 < |Limbs(b)| && Limbs(b)[k + 1] == BeValue(Chunk(b, k)) {
      LimbIsInteger(b, k);
    }
  }

  /** The limb list determines the string, for strings of any length. */
  lemma LimbsInjective(a: Bytes, b: Bytes)
    requires Limbs(a) == Limbs(b)
    ensures a == b
  {
    assert Chunks(a) == Limbs(a)[1..] == Limbs(b)[1..] == Chunks(b);
    assert |a| % U64 == Limbs(a)[0] == Limbs(b)[0] == |b| % U64;
    CloseAndCongruent(|a|, |b|);
    UnchunkChunks(a);
    UnchunkChunks(b);
  }

  lemma CloseAndCongruent(m: nat, n: nat)
    requires (m + 30) / 31 == (n + 30) / 31 && m % U64 == n % U64
    ensures m == n
  {
    var k := m / U64 - n / U64;
    assert m - n == k * U64 && -31 < m - n < 31;
  }

  /** Builds the limb list the way the source does, limb by limb. */
  method BuildLimbs(b: Bytes) returns (limbs: seq<Fe>)
    ensures limbs == Limbs(b)
  {
    hide SetBytes;
    limbs := [|b| % U64];
    var i := 0;
    while i < |b|
      invariant 0 <= i <= |b|
      invariant limbs + Chunks(b[i..]) == Limbs(b)
    {
      var end := if i + LIMB_SIZE > |b| then |b| else i + LIMB_SIZE;
      assert b[i..][..end - i] == b[i..end] && b[i..][end - i..] == b[end..];
      limbs := limbs + [SetBytes(b[i..end])];
      i := end;
    }
  }

  /** `a` and `b` are different strings the public inputs cannot tell apart: their limb lists
      collide under the hash, or one is empty and the other hashes to zero. */
  predicate Clash(env: Env, a: Bytes, b: Bytes) {
    && a != b
    && (if |a| == 0 then StringToFe(env, b) == 0
        else if |b| == 0 then StringToFe(env, a) == 0
        else Limbs(a) != Limbs(b) && env.hash(Limbs(a)) == env.hash(Limbs(b)))
  }

  function OptionalString(env: Env, b: Bytes): Fe {
    if |b| == 0 then 0 else StringToFe(env, b)
  }

  lemma OptionalStringBinds(env: Env, a: Bytes, b: Bytes)
    requires OptionalString(env, a) == OptionalString(env, b)
    ensures a == b || Clash(env, a, b)
  {
    if |a| > 0 && |b| > 0 && a != b {
      if Limbs(a) == Limbs(b) { LimbsInjective(a, b); }
    }
  }

  // ===== caller-supplied vectors =====

  function Concat(xs: seq<Fe>): (b: Bytes)
    ensures |b| == 32 * |xs|
  {
    if |xs| == 0 then [] else Concat(xs[..|xs| - 1]) + FeBytes(xs[|xs| - 1])
  }

  /** The vector a byte string denotes, cut into 32-byte chunks; none when a chunk is partial
      or not below the modulus. */
  function Parse(data: Bytes): Option<seq<Fe>> {
    if |data| % 32 != 0 then None else ParseChunks(data)
  }

  function ParseChunks(data: Bytes): (r: Option<seq<Fe>>)
    requires |data| % 32 == 0
  {
    if |data| == 0 then Some([])
    else
      var n := |data| - 32;
      var head := ParseChunks(data[..n]);
      if head.None? || BeValue(data[n..]) >= P then None else Some(head.value + [SetBytes(data[n..])])
  }

  lemma {:induction false} BadPrefix(data: Bytes, k: nat)
    requires |data| % 32 == 0 && 32 * k <= |data|
    requires ParseChunks(data[..32 * k]).None?
    ensures ParseChunks(data).None?
  {
    if 32 * k == |data| {
      assert data[..32 * k] == data;
    } else {
      assert data[..|data| - 32][..32 * k] == data[..32 * k];
      BadPrefix(data[..|data| - 32], k);
    }
  }

  method ParsePublicInputs(data: Bytes) returns (r: Result<seq<Fe>, Error>)
    ensures r == match Parse(data) { case Some(xs) => Ok(xs) case None => Err(InvalidPublicInputs) }
  {
    if |data| % 32 != 0 { return Err(InvalidPublicInputs); }
    var n := |data| / 32;
    var inputs: seq<Fe> := [];
    for i := 0 to n
      invariant ParseChunks(data[..32 * i]) == Some(inputs)
    {
      var chunk := data[i * 32..(i + 1) * 32];
      ghost var longer := data[..32 * (i + 1)];
      assert longer[..32 * i] == data[..32 * i] && longer[32 * i..] == chunk;
      if BeValue(chunk) >= P {
        BadPrefix(data, i + 1);
        return Err(InvalidPublicInputs);
      }
      inputs := inputs + [SetBytes(chunk)];
    }
    assert data[..32 * n] == data;
    r := Ok(inputs);
  }

  lemma ChunkIs(c: Bytes, x: Fe)
    requires |c| == 32
    ensures BeValue(c) < P && SetBytes(c) == x <==> c == FeBytes(x)
  {
    ValidIffCanonical(c);
    SetBytesFeBytes(x);
  }

  lemma ConcatSnoc(xs: seq<Fe>, data: Bytes)
    requires |xs| > 0 && |data| >= 32
    ensures var n, m := |data| - 32, |xs| - 1;
      data == Concat(xs) <==> data[..n] == Concat(xs[..m]) && data[n..] == FeBytes(xs[m])
  {
    hide FeBytes;
    var n, m := |data| - 32, |xs| - 1;
    var head, last := Concat(xs[..m]), FeBytes(xs[m]);
    assert Concat(xs) == head + last;
    assert data == data[..n] + data[n..];
    if data == head + last { assert data[..n] == head && data[n..] == last; }
  }

  lemma ParseSnoc(xs: seq<Fe>, data: Bytes)
    requires |xs| > 0 && |data| >= 32 && |data| % 32 == 0
    ensures var n, m := |data| - 32, |xs| - 1;
      Parse(data) == Some(xs) <==>
      Parse(data[..n]) == Some(xs[..m]) && BeValue(data[n..]) < P && SetBytes(data[n..]) == xs[m]
  {
    hide SetBytes, BeValue;
    var n, m := |data| - 32, |xs| - 1;
    var head, x := ParseChunks(data[..n]), SetBytes(data[n..]);
    assert xs == xs[..m] + [xs[m]];
    if head.Some? && head.value + [x] == xs {
      assert (head.value + [x])[..m] == head.value;
    }
  }

  /** Parsing inverts concatenation: exactly the concatenations of canonical encodings are
      accepted, and each is read back as the elements it was written from. */
  lemma {:induction false} ParseInvertsConcat(data: Bytes, xs: seq<Fe>)
    ensures Parse(data) == Some(xs) <==> data == Concat(xs)
    decreases |xs|
  {
    var n, m := |data| - 32, |xs| - 1;
    if |data| % 32 == 0 && n >= 0 && m >= 0 {
      hide Parse, Concat, SetBytes, BeValue, FeBytes;
      ParseInvertsConcat(data[..n], xs[..m]);
      ChunkIs(data[n..], xs[m]);
      ConcatSnoc(xs, data);
      ParseSnoc(xs, data);
    } else {
      hide SetBytes, BeValue, FeBytes;
    }
  }

  // ===== checks on caller-supplied vectors =====

  const DEPOSIT_PI_COUNT: nat := 8
  const REGISTER_PI_COUNT: nat := 9
  const TRANSACT_PI_COUNT: nat := 23

  /** With no auditor configured anything goes; otherwise the proof names that very key. */
  function VerifyAuditor(piX: Fe, piY: Fe, key: Bytes): Option<Error> {
    if |key| == 0 then None
    else if |key| < 64 then Some(InvalidPublicInputs)
    else if piX != SetBytes(key[..32]) || piY != SetBytes(key[32..64]) then Some(InvalidPublicInputs)
    else None
  }

  function VerifyRegisterPublicInputs(pi: seq<Fe>, commitment: Bytes, params: Params): Option<Error> {
    if |pi| != REGISTER_PI_COUNT then Some(InvalidPublicInputs)
    else if FeBytes(pi[0]) != commitment then Some(InvalidPublicInputs)
    else if |params.chainBinding| == 0 then Some(InvalidPublicInputs)
    else if pi[1] != SetBytes(params.chainBinding) then Some(InvalidPublicInputs)
    else VerifyAuditor(pi[2], pi[3], params.auditorPubKey)
  }

  function VerifyDepositPublicInputs(env: Env, pi: seq<Fe>, commitment: Bytes, amount: int, denom: Bytes,
                                     params: Params): Option<Error> {
    if |pi| != DEPOSIT_PI_COUNT then Some(InvalidPublicInputs)
    else if FeBytes(pi[0]) != commitment then Some(InvalidPublicInputs)
    else if pi[1] != amount % P then Some(InvalidPublicInputs)
    else if pi[2] != StringToFe(env, denom) then Some(InvalidPublicInputs)
    else VerifyAuditor(pi[3], pi[4], params.auditorPubKey)
  }

  /** A vector names the configured auditor key; with none configured it may name any. */
  predicate NamesAuditor(key: Bytes, x: Fe, y: Fe) {
    |key| == 0 || (|key| >= 64 && x == SetBytes(key[..32]) && y == SetBytes(key[32..64]))
  }

  /** Exactly the vectors a registration accepts, slot by slot. */
  lemma RegisterVector(pi: seq<Fe>, commitment: Bytes, params: Params)
    ensures VerifyRegisterPublicInputs(pi, commitment, params) == None <==>
              && |pi| == 9
              && commitment == FeBytes(pi[0])
              && |params.chainBinding| > 0 && pi[1] == SetBytes(params.chainBinding)
              && NamesAuditor(params.auditorPubKey, pi[2], pi[3])
  {
    hide SetBytes, FeBytes;
  }

  /** Exactly the vectors a deposit accepts: note, amount, denom, auditor key. */
  lemma DepositVector(env: Env, pi: seq<Fe>, commitment: Bytes, amount: int, denom: Bytes, params: Params)
    ensures VerifyDepositPublicInputs(env, pi, commitment, amount, denom, params) == None <==>
              && |pi| == 8
              && commitment == FeBytes(pi[0])
              && pi[1] == amount % P
              && pi[2] == env.hash(Limbs(denom))
              && NamesAuditor(params.auditorPubKey, pi[3], pi[4])
  {
    hide SetBytes, FeBytes, Limbs;
  }

  /** Two parameter sets name one auditor key, as far as field elements can tell. */
  predicate SameAuditor(k1: Bytes, k2: Bytes) {
    && |k1| >= 64 && |k2| >= 64
    && SetBytes(k1[..32]) == SetBytes(k2[..32])
    && SetBytes(k1[32..64]) == SetBytes(k2[32..64])
  }

  /** One accepted vector fits one deposit: the note is canonical and its own, the amount is
      fixed modulo the prime, the denom up to a hash collision, and with an auditor configured
      on both sides so is the key. */
  lemma DepositBinds(env: Env, pi: seq<Fe>, c1: Bytes, a1: int, d1: Bytes, p1: Params,
                     c2: Bytes, a2: int, d2: Bytes, p2: Params)
    requires VerifyDepositPublicInputs(env, pi, c1, a1, d1, p1) == None
    requires VerifyDepositPublicInputs(env, pi, c2, a2, d2, p2) == None
    ensures c1 == c2 && ValidFieldBytes(c1) && SetBytes(c1) == pi[0]
    ensures pi[1] == a1 % P == a2 % P
    ensures d1 == d2 || (Limbs(d1) != Limbs(d2) && env.hash(Limbs(d1)) == env.hash(Limbs(d2)))
    ensures |p1.auditorPubKey| > 0 && |p2.auditorPubKey| > 0 ==> SameAuditor(p1.auditorPubKey, p2.auditorPubKey)
  {
    hide SetBytes, Limbs;
    SetBytesFeBytes(pi[0]);
    ValidIffCanonical(c1);
    if Limbs(d1) == Limbs(d2) { LimbsInjective(d1, d2); }
  }

  /** The amount is the integer in the vector exactly when it is below the prime; and the
      check cannot tell any amount from the one a prime higher. */
  lemma DepositAmountExactBelowPrime(env: Env, pi: seq<Fe>, c: Bytes, a: int, d: Bytes, p: Params)
    ensures VerifyDepositPublicInputs(env, pi, c, a, d, p) == None ==> (pi[1] == a <==> 0 <= a < P)
    ensures VerifyDepositPublicInputs(env, pi, c, a + P, d, p) == VerifyDepositPublicInputs(env, pi, c, a, d, p)
  {
    assert (a + P) % P == a % P;
  }

  /** A registration proof fits one commitment, one chain and, with an auditor configured on
      both sides, one auditor key. */
  lemma RegisterBinds(pi: seq<Fe>, c1: Bytes, p1: Params, c2: Bytes, p2: Params)
    requires VerifyRegisterPublicInputs(pi, c1, p1) == None
    requires VerifyRegisterPublicInputs(pi, c2, p2) == None
    ensures c1 == c2 && ValidFieldBytes(c1) && SetBytes(c1) == pi[0]
    ensures |p1.chainBinding| > 0 && SetBytes(p1.chainBinding) == SetBytes(p2.chainBinding)
    ensures |p1.auditorPubKey| > 0 && |p2.auditorPubKey| > 0 ==> SameAuditor(p1.auditorPubKey, p2.auditorPubKey)
  {
    hide SetBytes;
    SetBytesFeBytes(pi[0]);
    ValidIffCanonical(c1);
  }

  // ===== the transact vector =====

  lemma EmptyDenotesZero(b: Bytes)
    ensures |b| == 0 ==> SetBytes(b) == 0
  {
  }

  const DIGIT_ZERO: Bytes := [48]

  /** Whether an amount string stands for "nothing to pay". */
  predicate NoAmount(s: Bytes) { s == [] || s == DIGIT_ZERO }

  function AmountOf(env: Env, s: Bytes): Option<int> {
    if NoAmount(s) then Some(0) else env.parseInt(s)
  }

  function AuditorCoordinate(key: Bytes, y: bool): Fe {
    if |key| < 64 then 0 else if y then SetBytes(key[32..64]) else SetBytes(key[..32])
  }

  /** Inputs 0-5: nullifiers, roots, new notes. */
  function SpendInputs(msg: MsgTransact): (pi: seq<Fe>)
    requires |msg.nullifiers| >= 2 && |msg.merkleRoots| >= 2 && |msg.outputs| >= 2
    ensures |pi| == 6
  {
    [ SetBytes(msg.nullifiers[0]), SetBytes(msg.nullifiers[1]),
      SetBytes(msg.merkleRoots[0]), SetBytes(msg.merkleRoots[1]),
      SetBytes(msg.outputs[0].noteHash), SetBytes(msg.outputs[1].noteHash) ]
  }

  /** Inputs 6-11: what leaves the pool, to whom, and on which chain. */
  function PayInputs(env: Env, msg: MsgTransact, params: Params, withdraw: int, fee: int): (pi: seq<Fe>)
    ensures |pi| == 6
  {
    [ withdraw % P, OptionalString(env, msg.withdrawAddress), OptionalString(env, msg.denom),
      SetBytes(params.chainBinding), SetBytes(env.moduleAddr), fee % P ]
  }

  /** Inputs 12-22: the auditor's ciphertexts and key, around the registration root. */
  function AuditInputs(msg: MsgTransact, params: Params): (pi: seq<Fe>)
    requires |msg.outputs| >= 2
    ensures |pi| == 11
  {
    var o1, o2 := msg.outputs[0], msg.outputs[1];
    [ SetBytes(o1.auditorEnc), SetBytes(o1.auditorAuthKeyX), SetBytes(o1.auditorAuthKeyY),
      SetBytes(o2.auditorEnc), SetBytes(o2.auditorAuthKeyX), SetBytes(o2.auditorAuthKeyY),
      AuditorCoordinate(params.auditorPubKey, false), AuditorCoordinate(params.auditorPubKey, true),
      SetBytes(msg.registrationRoot),
      SetBytes(o1.auditorEncRecipient), SetBytes(o2.auditorEncRecipient) ]
  }

  function TransactVector(env: Env, msg: MsgTransact, params: Params, withdraw: int, fee: int): (pi: seq<Fe>)
    requires |msg.nullifiers| >= 2 && |msg.merkleRoots| >= 2 && |msg.outputs| >= 2
    ensures |pi| == TRANSACT_PI_COUNT
  {
    SpendInputs(msg) + PayInputs(env, msg, params, withdraw, fee) + AuditInputs(msg, params)
  }

  function AssembleTransactPublicInputs(env: Env, msg: MsgTransact, params: Params): Result<seq<Fe>, Error>
    requires |msg.nullifiers| >= 2 && |msg.merkleRoots| >= 2 && |msg.outputs| >= 2
  {
    var withdraw, fee := AmountOf(env, msg.withdrawAmount), AmountOf(env, msg.relayerFee);
    if withdraw.None? || fee.None? || |params.chainBinding| == 0 then Err(InvalidPublicInputs)
    else Ok(TransactVector(env, msg, params, withdraw.value, fee.value))
  }

  /** Fills the 23 slots one by one, as the source does. */
  method AssembleInPlace(env: Env, msg: MsgTransact, params: Params) returns (r: Result<seq<Fe>, Error>)
    requires |msg.nullifiers| >= 2 && |msg.merkleRoots| >= 2 && |msg.outputs| >= 2
    ensures r == AssembleTransactPublicInputs(env, msg, params)
  {
    hide SpendInputs, PayInputs, AuditInputs;
    var pi := new Fe[TRANSACT_PI_COUNT](_ => 0);
    FillSpend(pi, msg);
    ghost var spend := pi[..6];
    var ok := FillPay(env, pi, msg, params);
    if !ok { return Err(InvalidPublicInputs); }
    ghost var pay := pi[6..12];
    assert pi[..12] == spend + pay;
    FillAudit(pi, msg, params);
    assert pi[..] == pi[..12] + pi[12..];
    r := Ok(pi[..]);
  }

  method FillSpend(pi: array<Fe>, msg: MsgTransact)
    requires pi.Length == TRANSACT_PI_COUNT
    requires |msg.nullifiers| >= 2 && |msg.merkleRoots| >= 2 && |msg.outputs| >= 2
    modifies pi
    ensures pi[..6] == SpendInputs(msg)
    ensures forall i | 6 <= i < TRANSACT_PI_COUNT :: pi[i] == old(pi[i])
  {
    hide SetBytes;
    pi[0], pi[1] := SetBytes(msg.nullifiers[0]), SetBytes(msg.nullifiers[1]);
    pi[2], pi[3] := SetBytes(msg.merkleRoots[0]), SetBytes(msg.merkleRoots[1]);
    pi[4], pi[5] := SetBytes(msg.outputs[0].noteHash), SetBytes(msg.outputs[1].noteHash);
  }

  lemma SixEqual(pi: seq<Fe>, want: seq<Fe>)
    requires |pi| == TRANSACT_PI_COUNT && |want| == 6
    requires pi[6] == want[0] && pi[7] == want[1] && pi[8] == want[2]
    requires pi[9] == want[3] && pi[10] == want[4] && pi[11] == want[5]
    ensures pi[6..12] == want
  {
  }

  /** Fills slots 6-11, all zero before; false when an amount does not parse or no chain is set. */
  method FillPay(env: Env, pi: array<Fe>, msg: MsgTransact, params: Params) returns (ok: bool)
    requires pi.Length == TRANSACT_PI_COUNT
    requires forall i | 6 <= i < 12 :: pi[i] == 0
    modifies pi
    ensures ok <==> AmountOf(env, msg.withdrawAmount).Some? && AmountOf(env, msg.relayerFee).Some?
                    && |params.chainBinding| > 0
    ensures ok ==> pi[6..12] == PayInputs(env, msg, params, AmountOf(env, msg.withdrawAmount).value,
                                          AmountOf(env, msg.relayerFee).value)
    ensures forall i | 0 <= i < TRANSACT_PI_COUNT && !(6 <= i < 12) :: pi[i] == old(pi[i])
  {
    hide AmountOf, OptionalString, SetBytes;
    ok := FillAmount(env, pi, 6, msg.withdrawAmount);
    if !ok { return; }
    FillString(env, pi, 7, msg.withdrawAddress);
    FillString(env, pi, 8, msg.denom);
    if |params.chainBinding| == 0 { return false; }
    pi[9] := SetBytes(params.chainBinding);
    EmptyDenotesZero(env.moduleAddr);
    if |env.moduleAddr| > 0 { pi[10] := SetBytes(env.moduleAddr); }
    ok := FillAmount(env, pi, 11, msg.relayerFee);
    if ok {
      SixEqual(pi[..], PayInputs(env, msg, params, AmountOf(env, msg.withdrawAmount).value,
                                 AmountOf(env, msg.relayerFee).value));
    }
  }

  method FillAmount(env: Env, pi: array<Fe>, k: nat, amount: Bytes) returns (ok: bool)
    requires k < pi.Length && pi[k] == 0
    modifies pi
    ensures ok <==> AmountOf(env, amount).Some?
    ensures ok ==> pi[k] == AmountOf(env, amount).value % P
    ensures forall i | 0 <= i < pi.Length && i != k :: pi[i] == old(pi[i])
  {
    if !NoAmount(amount) {
      var amt := env.parseInt(amount);
      if amt.None? { return false; }
      pi[k] := amt.value % P;
    }
    ok := true;
  }

  method FillString(env: Env, pi: array<Fe>, k: nat, s: Bytes)
    requires k < pi.Length && pi[k] == 0
    modifies pi
    ensures pi[k] == OptionalString(env, s)
    ensures forall i | 0 <= i < pi.Length && i != k :: pi[i] == old(pi[i])
  {
    if |s| > 0 { pi[k] := StringToFe(env, s); }
  }

  /** Eleven slots filled as specified are the audit half of the vector. */
  lemma AuditParts(pi: seq<Fe>, msg: MsgTransact, params: Params)
    requires |pi| == TRANSACT_PI_COUNT && |msg.outputs| >= 2
    requires pi[12] == SetBytes(msg.outputs[0].auditorEnc)
    requires pi[13] == SetBytes(msg.outputs[0].auditorAuthKeyX) && pi[14] == SetBytes(msg.outputs[0].auditorAuthKeyY)
    requires pi[15] == SetBytes(msg.outputs[1].auditorEnc)
    requires pi[16] == SetBytes(msg.outputs[1].auditorAuthKeyX) && pi[17] == SetBytes(msg.outputs[1].auditorAuthKeyY)
    requires pi[18] == AuditorCoordinate(params.auditorPubKey, false)
    requires pi[19] == AuditorCoordinate(params.auditorPubKey, true)
    requires pi[20] == SetBytes(msg.registrationRoot)
    requires pi[21] == SetBytes(msg.outputs[0].auditorEncRecipient)
    requires pi[22] == SetBytes(msg.outputs[1].auditorEncRecipient)
    ensures pi[12..] == AuditInputs(msg, params)
  {
    hide SetBytes, AuditorCoordinate;
  }

  method FillCiphertexts(pi: array<Fe>, msg: MsgTransact)
    requires pi.Length == TRANSACT_PI_COUNT && |msg.outputs| >= 2
    modifies pi
    ensures pi[12] == SetBytes(msg.outputs[0].auditorEnc)
    ensures pi[13] == SetBytes(msg.outputs[0].auditorAuthKeyX) && pi[14] == SetBytes(msg.outputs[0].auditorAuthKeyY)
    ensures pi[15] == SetBytes(msg.outputs[1].auditorEnc)
    ensures pi[16] == SetBytes(msg.outputs[1].auditorAuthKeyX) && pi[17] == SetBytes(msg.outputs[1].auditorAuthKeyY)
    ensures forall i | 0 <= i < TRANSACT_PI_COUNT && !(12 <= i < 18) :: pi[i] == old(pi[i])
  {
    hide SetBytes;
    pi[12] := SetBytes(msg.outputs[0].auditorEnc);
    pi[13], pi[14] := SetBytes(msg.outputs[0].auditorAuthKeyX), SetBytes(msg.outputs[0].auditorAuthKeyY);
    pi[15] := SetBytes(msg.outputs[1].auditorEnc);
    pi[16], pi[17] := SetBytes(msg.outputs[1].auditorAuthKeyX), SetBytes(msg.outputs[1].auditorAuthKeyY);
  }

  method FillAudit(pi: array<Fe>, msg: MsgTransact, params: Params)
    requires pi.Length == TRANSACT_PI_COUNT && |msg.outputs| >= 2
    requires pi[18] == 0 && pi[19] == 0
    modifies pi
    ensures pi[..12] == old(pi[..12]) && pi[12..] == AuditInputs(msg, params)
  {
    hide SetBytes, AuditInputs;
    FillCiphertexts(pi, msg);
    if |params.auditorPubKey| >= 64 {
      pi[18], pi[19] := SetBytes(params.auditorPubKey[..32]), SetBytes(params.auditorPubKey[32..64]);
    }
    pi[20] := SetBytes(msg.registrationRoot);
    pi[21], pi[22] := SetBytes(msg.outputs[0].auditorEncRecipient), SetBytes(msg.outputs[1].auditorEncRecipient);
    AuditParts(pi[..], msg, params);
  }

  // ===== the vector slot by slot =====

  function StringSlot(env: Env, b: Bytes): Fe {
    if |b| == 0 then 0 else env.hash(Limbs(b))
  }

  predicate AmountSlot(env: Env, s: Bytes, x: Fe) {
    if s == [] || s == DIGIT_ZERO then x == 0 else env.parseInt(s).Some? && x == env.parseInt(s).value % P
  }

  predicate AuditSlots(o: OutputNote, enc: Fe, x: Fe, y: Fe, recipient: Fe) {
    && enc == SetBytes(o.auditorEnc) && recipient == SetBytes(o.auditorEncRecipient)
    && x == SetBytes(o.auditorAuthKeyX) && y == SetBytes(o.auditorAuthKeyY)
  }

  predicate KeySlots(key: Bytes, x: Fe, y: Fe) {
    if |key| >= 64 then x == SetBytes(key[..32]) && y == SetBytes(key[32..64]) else x == y == 0
  }

  /** The circuit's 23 public inputs in its own order. */
  predicate Slots(env: Env, msg: MsgTransact, params: Params, pi: seq<Fe>)
    requires |msg.nullifiers| >= 2 && |msg.merkleRoots| >= 2 && |msg.outputs| >= 2
  {
    && |pi| == 23
    && pi[0] == SetBytes(msg.nullifiers[0]) && pi[1] == SetBytes(msg.nullifiers[1])
    && pi[2] == SetBytes(msg.merkleRoots[0]) && pi[3] == SetBytes(msg.merkleRoots[1])
    && pi[4] == SetBytes(msg.outputs[0].noteHash) && pi[5] == SetBytes(msg.outputs[1].noteHash)
    && AmountSlot(env, msg.withdrawAmount, pi[6])
    && pi[7] == StringSlot(env, msg.withdrawAddress) && pi[8] == StringSlot(env, msg.denom)
    && pi[9] == SetBytes(params.chainBinding) && pi[10] == SetBytes(env.moduleAddr)
    && AmountSlot(env, msg.relayerFee, pi[11])
    && AuditSlots(msg.outputs[0], pi[12], pi[13], pi[14], pi[21])
    && AuditSlots(msg.outputs[1], pi[15], pi[16], pi[17], pi[22])
    && KeySlots(params.auditorPubKey, pi[18], pi[19])
    && pi[20] == SetBytes(msg.registrationRoot)
  }

  lemma VectorIndex(a: seq<Fe>, b: seq<Fe>, c: seq<Fe>, pi: seq<Fe>)
    requires |a| == 6 && |b| == 6 && |c| == 11
    ensures pi == a + b + c <==>
              && |pi| == 23
              && (forall i | 0 <= i < 6 :: pi[i] == a[i])
              && (forall i | 0 <= i < 6 :: pi[6 + i] == b[i])
              && (forall i | 0 <= i < 11 :: pi[12 + i] == c[i])
  {
    var v := a + b + c;
    if |pi| == 23 && (forall i | 0 <= i < 6 :: pi[i] == a[i]) && (forall i | 0 <= i < 6 :: pi[6 + i] == b[i])
       && (forall i | 0 <= i < 11 :: pi[12 + i] == c[i]) {
      forall i | 0 <= i < 23 ensures pi[i] == v[i] {
        if 6 <= i < 12 {
          assert pi[6 + (i - 6)] == b[i - 6];
        } else if i >= 12 {
          assert pi[12 + (i - 12)] == c[i - 12];
        }
      }
    }
  }

  lemma SpendHalf(msg: MsgTransact, pi: seq<Fe>)
    requires |pi| == 23 && |msg.nullifiers| >= 2 && |msg.merkleRoots| >= 2 && |msg.outputs| >= 2
    ensures (forall i | 0 <= i < 6 :: pi[i] == SpendInputs(msg)[i]) <==>
              && pi[0] == SetBytes(msg.nullifiers[0]) && pi[1] == SetBytes(msg.nullifiers[1])
              && pi[2] == SetBytes(msg.merkleRoots[0]) && pi[3] == SetBytes(msg.merkleRoots[1])
              && pi[4] == SetBytes(msg.outputs[0].noteHash) && pi[5] == SetBytes(msg.outputs[1].noteHash)
  {
    hide SetBytes;
    var a := SpendInputs(msg);
    if forall i | 0 <= i < 6 :: pi[i] == a[i] {
      assert pi[0] == a[0] && pi[1] == a[1] && pi[2] == a[2] && pi[3] == a[3] && pi[4] == a[4] && pi[5] == a[5];
    }
  }

  lemma PayHalf(env: Env, msg: MsgTransact, params: Params, w: int, f: int, pi: seq<Fe>)
    requires |pi| == 23
    ensures (forall i | 0 <= i < 6 :: pi[6 + i] == PayInputs(env, msg, params, w, f)[i]) <==>
              && pi[6] == w % P && pi[11] == f % P
              && pi[7] == StringSlot(env, msg.withdrawAddress) && pi[8] == StringSlot(env, msg.denom)
              && pi[9] == SetBytes(params.chainBinding) && pi[10] == SetBytes(env.moduleAddr)
  {
    hide SetBytes, Limbs;
    var b := PayInputs(env, msg, params, w, f);
    if forall i | 0 <= i < 6 :: pi[6 + i] == b[i] {
      assert pi[6 + 0] == b[0] && pi[6 + 1] == b[1] && pi[6 + 2] == b[2];
      assert pi[6 + 3] == b[3] && pi[6 + 4] == b[4] && pi[6 + 5] == b[5];
    }
  }

  lemma AuditHalf(msg: MsgTransact, params: Params, pi: seq<Fe>)
    requires |pi| == 23 && |msg.outputs| >= 2
    ensures (forall i | 0 <= i < 11 :: pi[12 + i] == AuditInputs(msg, params)[i]) <==>
              && AuditSlots(msg.outputs[0], pi[12], pi[13], pi[14], pi[21])
              && AuditSlots(msg.outputs[1], pi[15], pi[16], pi[17], pi[22])
              && KeySlots(params.auditorPubKey, pi[18], pi[19])
              && pi[20] == SetBytes(msg.registrationRoot)
  {
    hide SetBytes;
    var c := AuditInputs(msg, params);
    if forall i | 0 <= i < 11 :: pi[12 + i] == c[i] {
      assert pi[12 + 0] == c[0] && pi[12 + 1] == c[1] && pi[12 + 2] == c[2] && pi[12 + 3] == c[3];
      assert pi[12 + 4] == c[4] && pi[12 + 5] == c[5] && pi[12 + 6] == c[6] && pi[12 + 7] == c[7];
      assert pi[12 + 8] == c[8] && pi[12 + 9] == c[9] && pi[12 + 10] == c[10];
    }
  }

  /** The assembled vector is exactly the one with the right value in every slot; there is one
      unless an amount does not parse or no chain is configured. */
  lemma AssembledSlots(env: Env, msg: MsgTransact, params: Params, pi: seq<Fe>)
    requires |msg.nullifiers| >= 2 && |msg.merkleRoots| >= 2 && |msg.outputs| >= 2
    ensures AssembleTransactPublicInputs(env, msg, params) == Ok(pi) <==>
              |params.chainBinding| > 0 && Slots(env, msg, params, pi)
  {
    hide SetBytes, SpendInputs, PayInputs, AuditInputs, StringSlot, AuditSlots, KeySlots;
    var w, f := AmountOf(env, msg.withdrawAmount), AmountOf(env, msg.relayerFee);
    if |pi| == 23 {
      SpendHalf(msg, pi);
      AuditHalf(msg, params, pi);
      if w.Some? && f.Some? { PayHalf(env, msg, params, w.value, f.value, pi); }
    }
    if w.Some? && f.Some? {
      VectorIndex(SpendInputs(msg), PayInputs(env, msg, params, w.value, f.value), AuditInputs(msg, params), pi);
    }
  }

  /** No vector serves two pools: the module account's element is in it, and so is the chain's. */
  lemma VectorNamesPool(env1: Env, m1: MsgTransact, p1: Params, env2: Env, m2: MsgTransact, p2: Params, pi: seq<Fe>)
    requires |m1.nullifiers| >= 2 && |m1.merkleRoots| >= 2 && |m1.outputs| >= 2
    requires |m2.nullifiers| >= 2 && |m2.merkleRoots| >= 2 && |m2.outputs| >= 2
    requires AssembleTransactPublicInputs(env1, m1, p1) == Ok(pi)
    requires AssembleTransactPublicInputs(env2, m2, p2) == Ok(pi)
    ensures SetBytes(env1.moduleAddr) == SetBytes(env2.moduleAddr) == pi[10]
    ensures SetBytes(p1.chainBinding) == SetBytes(p2.chainBinding) == pi[9]
  {
    hide SetBytes, AssembleTransactPublicInputs;
    AssembledSlots(env1, m1, p1, pi);
    AssembledSlots(env2, m2, p2, pi);
  }

  // ===== message validation =====

  function ValidateAmount(env: Env, s: Bytes): bool {
    env.parseInt(s).Some? && 0 <= env.parseInt(s).value < U64
  }

  /** The stateless check every transact message passes before its handler runs. */
  function ValidateTransact(env: Env, msg: MsgTransact): Option<Error> {
    if env.bech32(msg.sender).None? then Some(InvalidAddress)
    else if |msg.nullifiers| != 2 || exists n :: n in msg.nullifiers && !ValidFieldBytes(n) then Some(InvalidNullifier)
    else if |msg.merkleRoots| != 2 || exists r :: r in msg.merkleRoots && !ValidFieldBytes(r)
    then Some(InvalidMerkleRoot)
    else if |msg.outputs| != 2 || exists o :: o in msg.outputs && !ValidFieldBytes(o.noteHash)
    then Some(InvalidCommitment)
    else if !ValidFieldBytes(msg.registrationRoot) then Some(InvalidMerkleRoot)
    else if !NoAmount(msg.withdrawAmount)
            && (!ValidateAmount(env, msg.withdrawAmount)
                || (env.parseInt(msg.withdrawAmount).value > 0 && env.bech32(msg.withdrawAddress).None?))
    then Some(InvalidWithdraw)
    else if |msg.denom| > 0 && !env.validDenom(msg.denom) then Some(InvalidDenom)
    else if !NoAmount(msg.relayerFee) && !ValidateAmount(env, msg.relayerFee) then Some(InvalidWithdraw)
    else if |msg.proof| == 0 then Some(InvalidProof)
    else None
  }

  lemma ValidatedFields(env: Env, msg: MsgTransact)
    requires ValidateTransact(env, msg) == None
    ensures |msg.nullifiers| == |msg.merkleRoots| == |msg.outputs| == 2
    ensures ValidFieldBytes(msg.nullifiers[0]) && ValidFieldBytes(msg.nullifiers[1])
    ensures ValidFieldBytes(msg.merkleRoots[0]) && ValidFieldBytes(msg.merkleRoots[1])
    ensures ValidFieldBytes(msg.outputs[0].noteHash) && ValidFieldBytes(msg.outputs[1].noteHash)
    ensures ValidFieldBytes(msg.registrationRoot)
    ensures AmountOf(env, msg.withdrawAmount).Some? && 0 <= AmountOf(env, msg.withdrawAmount).value < U64
    ensures AmountOf(env, msg.relayerFee).Some? && 0 <= AmountOf(env, msg.relayerFee).value < U64
  {
    assert msg.nullifiers[0] in msg.nullifiers && msg.nullifiers[1] in msg.nullifiers;
    assert msg.merkleRoots[0] in msg.merkleRoots && msg.merkleRoots[1] in msg.merkleRoots;
    assert msg.outputs[0] in msg.outputs && msg.outputs[1] in msg.outputs;
  }

  lemma SameFieldBytes(a: Bytes, b: Bytes)
    requires ValidFieldBytes(a) && ValidFieldBytes(b) && SetBytes(a) == SetBytes(b)
    ensures a == b
  {
    ValidIffCanonical(a);
    ValidIffCanonical(b);
  }

  lemma VectorParts(env: Env, msg: MsgTransact, params: Params, pi: seq<Fe>)
    requires |msg.nullifiers| >= 2 && |msg.merkleRoots| >= 2 && |msg.outputs| >= 2
    requires AssembleTransactPublicInputs(env, msg, params) == Ok(pi)
    ensures |pi| == TRANSACT_PI_COUNT && pi[..6] == SpendInputs(msg)
    ensures pi[6] == AmountOf(env, msg.withdrawAmount).value % P && pi[11] == AmountOf(env, msg.relayerFee).value % P
    ensures pi[7] == OptionalString(env, msg.withdrawAddress) && pi[8] == OptionalString(env, msg.denom)
    ensures pi[9] == SetBytes(params.chainBinding) && pi[20] == SetBytes(msg.registrationRoot)
    ensures pi[12..] == AuditInputs(msg, params)
  {
    hide SetBytes, OptionalString, AuditorCoordinate, AmountOf;
    var w, f := AmountOf(env, msg.withdrawAmount).value, AmountOf(env, msg.relayerFee).value;
    var a, b, c := SpendInputs(msg), PayInputs(env, msg, params, w, f), AuditInputs(msg, params);
    assert pi == a + b + c;
    assert (a + b + c)[..6] == a && (a + b + c)[12..] == c;
    assert pi[6] == b[0] && pi[7] == b[1] && pi[8] == b[2] && pi[9] == b[3] && pi[11] == b[5];
    assert pi[20] == c[8];
  }

  /** Inputs 18 and 19 are the halves of the auditor key from 64 bytes on; a shorter key, one
      of 1 to 63 bytes included, reads as zero here, while the deposit and register checks
      refuse every vector under such a key. */
  lemma AuditorInputs(env: Env, msg: MsgTransact, params: Params, pi: seq<Fe>)
    requires |msg.nullifiers| >= 2 && |msg.merkleRoots| >= 2 && |msg.outputs| >= 2
    requires AssembleTransactPublicInputs(env, msg, params) == Ok(pi)
    ensures var key := params.auditorPubKey;
      && |pi| == TRANSACT_PI_COUNT
      && (|key| >= 64 ==> pi[18] == SetBytes(key[..32]) && pi[19] == SetBytes(key[32..64])
                          && VerifyAuditor(pi[18], pi[19], key) == None)
      && (|key| < 64 ==> pi[18] == pi[19] == 0)
      && (0 < |key| < 64 ==> forall x, y :: VerifyAuditor(x, y, key).Some?)
  {
    hide SetBytes;
    VectorParts(env, msg, params, pi);
    assert pi[18] == pi[12..][6] && pi[19] == pi[12..][7];
  }

  /** Validated amounts are the integers in inputs 6 and 11: nothing is reduced. */
  lemma AmountsNotReduced(env: Env, msg: MsgTransact, params: Params, pi: seq<Fe>)
    requires ValidateTransact(env, msg) == None
    requires |msg.nullifiers| >= 2 && |msg.merkleRoots| >= 2 && |msg.outputs| >= 2
    requires AssembleTransactPublicInputs(env, msg, params) == Ok(pi)
    ensures AmountOf(env, msg.withdrawAmount) == Some(pi[6] as int)
    ensures AmountOf(env, msg.relayerFee) == Some(pi[11] as int)
  {
    hide ValidFieldBytes, SetBytes, SpendInputs, PayInputs, AuditInputs;
    ValidatedFields(env, msg);
    VectorParts(env, msg, params, pi);
  }

  /** The spend half of the vector determines the six byte strings it was read from. */
  lemma SpendBinds(m1: MsgTransact, m2: MsgTransact)
    requires |m1.nullifiers| == |m1.merkleRoots| == |m1.outputs| == 2
    requires |m2.nullifiers| == |m2.merkleRoots| == |m2.outputs| == 2
    requires forall m, i | m in [m1, m2] && 0 <= i < 2 ::
      ValidFieldBytes(m.nullifiers[i]) && ValidFieldBytes(m.merkleRoots[i]) && ValidFieldBytes(m.outputs[i].noteHash)
    requires SpendInputs(m1) == SpendInputs(m2)
    ensures m1.nullifiers == m2.nullifiers && m1.merkleRoots == m2.merkleRoots
    ensures m1.outputs[0].noteHash == m2.outputs[0].noteHash && m1.outputs[1].noteHash == m2.outputs[1].noteHash
  {
    hide SetBytes, ValidFieldBytes;
    assert m1 in [m1, m2] && m2 in [m1, m2];
    forall i | 0 <= i < 2
      ensures m1.nullifiers[i] == m2.nullifiers[i] && m1.merkleRoots[i] == m2.merkleRoots[i]
      ensures m1.outputs[i].noteHash == m2.outputs[i].noteHash
    {
      assert SpendInputs(m1)[i] == SpendInputs(m2)[i];
      assert SpendInputs(m1)[2 + i] == SpendInputs(m2)[2 + i];
      assert SpendInputs(m1)[4 + i] == SpendInputs(m2)[4 + i];
      SameFieldBytes(m1.nullifiers[i], m2.nullifiers[i]);
      SameFieldBytes(m1.merkleRoots[i], m2.merkleRoots[i]);
      SameFieldBytes(m1.outputs[i].noteHash, m2.outputs[i].noteHash);
    }
  }

  /** Two notes carry the same ciphertexts for the auditor, as field elements. */
  predicate SameAudit(o1: OutputNote, o2: OutputNote) {
    && SetBytes(o1.auditorEnc) == SetBytes(o2.auditorEnc)
    && SetBytes(o1.auditorAuthKeyX) == SetBytes(o2.auditorAuthKeyX)
    && SetBytes(o1.auditorAuthKeyY) == SetBytes(o2.auditorAuthKeyY)
    && SetBytes(o1.auditorEncRecipient) == SetBytes(o2.auditorEncRecipient)
  }

  lemma AuditBinds(m1: MsgTransact, p1: Params, m2: MsgTransact, p2: Params)
    requires |m1.outputs| == |m2.outputs| == 2
    requires AuditInputs(m1, p1) == AuditInputs(m2, p2)
    ensures SetBytes(m1.registrationRoot) == SetBytes(m2.registrationRoot)
    ensures SameAudit(m1.outputs[0], m2.outputs[0]) && SameAudit(m1.outputs[1], m2.outputs[1])
    ensures |p1.auditorPubKey| >= 64 && |p2.auditorPubKey| >= 64 ==> SameAuditor(p1.auditorPubKey, p2.auditorPubKey)
  {
    hide SetBytes;
    var a, b := AuditInputs(m1, p1), AuditInputs(m2, p2);
    assert forall i | 0 <= i < 11 :: a[i] == b[i];
    assert a[0] == b[0] && a[1] == b[1] && a[2] == b[2] && a[3] == b[3] && a[4] == b[4] && a[5] == b[5];
    assert a[6] == b[6] && a[7] == b[7] && a[8] == b[8] && a[9] == b[9] && a[10] == b[10];
  }

  /** Two validated messages with one public-input vector spend the same nullifiers against
      the same roots, create the same notes, and pay the same amounts to the same address in
      the same denom, unless two named strings collide under the hash; and they give the same
      auditor the same ciphertexts. */
  lemma TransactBinds(env: Env, m1: MsgTransact, p1: Params, m2: MsgTransact, p2: Params, pi: seq<Fe>)
    requires ValidateTransact(env, m1) == None && ValidateTransact(env, m2) == None
    requires AssembleTransactPublicInputs(env, m1, p1) == Ok(pi)
    requires AssembleTransactPublicInputs(env, m2, p2) == Ok(pi)
    ensures m1.nullifiers == m2.nullifiers && m1.merkleRoots == m2.merkleRoots
    ensures m1.outputs[0].noteHash == m2.outputs[0].noteHash && m1.outputs[1].noteHash == m2.outputs[1].noteHash
    ensures m1.registrationRoot == m2.registrationRoot
    ensures AmountOf(env, m1.withdrawAmount) == AmountOf(env, m2.withdrawAmount) == Some(pi[6])
    ensures AmountOf(env, m1.relayerFee) == AmountOf(env, m2.relayerFee) == Some(pi[11])
    ensures m1.withdrawAddress == m2.withdrawAddress || Clash(env, m1.withdrawAddress, m2.withdrawAddress)
    ensures m1.denom == m2.denom || Clash(env, m1.denom, m2.denom)
    ensures SetBytes(p1.chainBinding) == SetBytes(p2.chainBinding)
    ensures SameAudit(m1.outputs[0], m2.outputs[0]) && SameAudit(m1.outputs[1], m2.outputs[1])
    ensures |p1.auditorPubKey| >= 64 && |p2.auditorPubKey| >= 64 ==> SameAuditor(p1.auditorPubKey, p2.auditorPubKey)
  {
    hide SetBytes, ValidFieldBytes, Limbs, AuditorCoordinate, StringToFe, Clash, SpendInputs, PayInputs, AuditInputs,
      SameAudit, SameAuditor;
    ValidatedFields(env, m1);
    ValidatedFields(env, m2);
    hide ValidateTransact, AmountOf, AssembleTransactPublicInputs;
    AmountsNotReduced(env, m1, p1, pi);
    AmountsNotReduced(env, m2, p2, pi);
    VectorParts(env, m1, p1, pi);
    VectorParts(env, m2, p2, pi);
    SpendBinds(m1, m2);
    AuditBinds(m1, p1, m2, p2);
    SameFieldBytes(m1.registrationRoot, m2.registrationRoot);
    OptionalStringBinds(env, m1.withdrawAddress, m2.withdrawAddress);
    OptionalStringBinds(env, m1.denom, m2.denom);
  }
}
