/** Bytes, big-endian integers and elements of the BN254 scalar field.

    A field element is an integer below the modulus `P`.  `SetBytes` is the
    reducing reader every handler and store key uses, so one element has several
    32-byte encodings; `FeBytes` writes the one canonical encoding. */
module Field {

  type Byte = x: int | 0 <= x < 256
  type Bytes = seq<Byte>

  const P: int := 21888242871839275222246405745257275088548364400416034343698204186575808495617

  type Fe = x: int | 0 <= x < P

  const U32: int := 0x1_0000_0000
  const U64: int := 0x1_0000_0000_0000_0000
  type Uint32 = x: int | 0 <= x < U32
  type Uint64 = x: int | 0 <= x < U64

  /** `b` is the ASCII of `s`. */
  predicate IsAscii(b: Bytes, s: string) {
    |b| == |s| && forall i :: 0 <= i < |s| ==> b[i] == s[i] as int
  }

  datatype Option<+T> = None | Some(value: T)

  datatype Result<+T, +E> = Ok(value: T) | Err(error: E)

  function Min(a: nat, b: nat): nat { if a <= b then a else b }

  function Pow2(n: nat): (r: nat)
    ensures r > 0
  {
    if n == 0 then 1 else 2 * Pow2(n - 1)
  }

  function Pow256(n: nat): (r: nat)
    ensures r > 0
  {
    if n == 0 then 1 else 256 * Pow256(n - 1)
  }

  /** The unsigned big-endian value of a byte string. */
  function BeValue(b: Bytes): (v: nat)
  {
    if |b| == 0 then 0 else 256 * BeValue(b[..|b| - 1]) + b[|b| - 1]
  }

  /** The `n` low-order bytes of `v`, most significant first. */
  function ToBe(v: nat, n: nat): (b: Bytes)
    ensures |b| == n
  {
    if n == 0 then [] else ToBe(v / 256, n - 1) + [v % 256]
  }

  lemma {:induction false} BeValueBound(b: Bytes)
    ensures BeValue(b) < Pow256(|b|)
  {
    if |b| > 0 { BeValueBound(b[..|b| - 1]); }
  }

  /** Writing then reading gives the value back, when it fits. */
  lemma {:induction false} BeValueToBe(v: nat, n: nat)
    requires v < Pow256(n)
    ensures BeValue(ToBe(v, n)) == v
  {
    if n > 0 {
      BeValueToBe(v / 256, n - 1);
      assert ToBe(v, n)[..n - 1] == ToBe(v / 256, n - 1);
    }
  }

  /** Reading then writing at the same width gives the bytes back. */
  lemma {:induction false} ToBeBeValue(b: Bytes)
    ensures ToBe(BeValue(b), |b|) == b
  {
    if |b| > 0 {
      ToBeBeValue(b[..|b| - 1]);
      assert b == b[..|b| - 1] + [b[|b| - 1]];
    }
  }

  /** Big-endian: what stands in front weighs 256 times more for each byte behind it. */
  lemma {:induction false} ValueSplits(a: Bytes, b: Bytes)
    ensures BeValue(a + b) == BeValue(a) * Pow256(|b|) + BeValue(b)
  {
    if |b| == 0 {
      assert a + b == a;
    } else {
      var front, last := b[..|b| - 1], b[|b| - 1];
      assert (a + b)[..|a + b| - 1] == a + front;
      ValueSplits(a, front);
      assert (a + b)[|a + b| - 1] == last;
      Regroup(BeValue(a), Pow256(|front|));
    }
  }

  lemma Regroup(x: nat, p: nat)
    ensures x * (256 * p) == 256 * (x * p)
  {
  }

  /** Byte `k` of `n` is the digit of weight 256^(n - 1 - k). */
  lemma {:induction false} ByteAt(v: nat, n: nat, k: nat)
    requires k < n
    ensures ToBe(v, n)[k] == v / Pow256(n - 1 - k) % 256
  {
    if k < n - 1 {
      ByteAt(v / 256, n - 1, k);
      DivTwice(v / 256, v % 256, 256, Pow256(n - 2 - k));
    }
  }

  /** Dividing by `m` and then by `p` is dividing by their product. */
  lemma DivTwice(n: nat, low: nat, m: nat, p: nat)
    requires low < m && p > 0
    ensures n / p == (m * n + low) / (m * p)
  {
    var q, s := n / p, n % p;
    assert n == q * p + s;
    Repack(m, p, q, s, low);
    DivModOf(q, s * m + low, m * p);
  }

  lemma Repack(m: nat, p: nat, q: nat, s: nat, low: nat)
    requires s < p && low < m
    ensures m * (q * p + s) + low == q * (m * p) + (s * m + low)
    ensures s * m + low < m * p
  {
    MulMono(s + 1, p, m);
  }

  lemma DivModOf(q: nat, r: nat, b: nat)
    requires r < b
    ensures (q * b + r) / b == q && (q * b + r) % b == r
  {
    var n := q * b + r;
    var q', r' := n / b, n % b;
    assert n == b * q' + r';
    if q' < q { Gap(q', q, b); } else if q < q' { Gap(q, q', b); }
  }

  lemma Gap(a: nat, c: nat, b: nat)
    requires a < c
    ensures a * b + b <= c * b
  {
    MulMono(a + 1, c, b);
  }

  lemma MulMono(a: int, b: int, p: nat)
    requires a <= b
    ensures a * p <= b * p
  {}

  lemma PowersOf256()
    ensures Pow256(4) == U32
    ensures Pow256(8) == U64
    ensures Pow256(31) < P && 2 * P < Pow256(32)
  {
    assert Pow256(4) == 0x1_0000_0000;
    assert Pow256(8) == 0x1_0000_0000 * Pow256(4) by {
      assert Pow256(6) == 0x1_0000 * Pow256(4);
    }
    assert Pow256(12) == U32 * Pow256(8) by { assert Pow256(10) == 0x1_0000 * Pow256(8); }
    assert Pow256(16) == U32 * Pow256(12) by { assert Pow256(14) == 0x1_0000 * Pow256(12); }
    assert Pow256(20) == U32 * Pow256(16) by { assert Pow256(18) == 0x1_0000 * Pow256(16); }
    assert Pow256(24) == U32 * Pow256(20) by { assert Pow256(22) == 0x1_0000 * Pow256(20); }
    assert Pow256(28) == U32 * Pow256(24) by { assert Pow256(26) == 0x1_0000 * Pow256(24); }
    assert Pow256(31) == 0x1_00_0000 * Pow256(28) by { assert Pow256(30) == 0x1_0000 * Pow256(28); }
    assert Pow256(32) == 256 * Pow256(31);
  }

  /** The element a byte string denotes: its big-endian value reduced mod `P`. */
  function SetBytes(b: Bytes): (x: Fe)
  {
    BeValue(b) % P
  }

  /** The canonical 32-byte encoding of an element. */
  function FeBytes(x: Fe): (b: Bytes)
    ensures |b| == 32
  {
    ToBe(x, 32)
  }

  /** The canonical encoding of whatever element `b` denotes. */
  function CanonicalFieldBytes(b: Bytes): (c: Bytes)
    ensures |c| == 32
  {
    FeBytes(SetBytes(b))
  }

  lemma FeBytesValue(x: Fe)
    ensures BeValue(FeBytes(x)) == x
  {
    PowersOf256();
    BeValueToBe(x, 32);
  }

  lemma SetBytesFeBytes(x: Fe)
    ensures SetBytes(FeBytes(x)) == x
  {
    FeBytesValue(x);
  }

  /** Two byte strings share a store key exactly when they denote one element. */
  lemma CanonicalIffSameElement(a: Bytes, b: Bytes)
    ensures CanonicalFieldBytes(a) == CanonicalFieldBytes(b) <==> SetBytes(a) == SetBytes(b)
    ensures CanonicalFieldBytes(CanonicalFieldBytes(a)) == CanonicalFieldBytes(a)
  {
    SetBytesFeBytes(SetBytes(a));
    SetBytesFeBytes(SetBytes(b));
  }

  /** What message validation accepts as a field element. */
  predicate ValidFieldBytes(b: Bytes)
  {
    |b| == 32 && BeValue(b) < P
  }

  /** Validation accepts exactly the canonical encodings, so an accepted string is
      determined by its element. */
  lemma ValidIffCanonical(b: Bytes)
    ensures ValidFieldBytes(b) <==> b == CanonicalFieldBytes(b)
  {
    if ValidFieldBytes(b) {
      ToBeBeValue(b);
      assert SetBytes(b) == BeValue(b);
    }
    if b == CanonicalFieldBytes(b) {
      FeBytesValue(SetBytes(b));
    }
  }

  /** The all-zero field bytes that mark a dummy input or output. */
  const ZERO32: Bytes := [
    0, 0, 0, 0, 0, 0, 0, 0, 0, 0, 0, 0, 0, 0, 0, 0,
    0, 0, 0, 0, 0, 0, 0, 0, 0, 0, 0, 0, 0, 0, 0, 0]

  lemma {:induction false} ToBeZero(n: nat)
    ensures forall i | 0 <= i < n :: ToBe(0, n)[i] == 0
  {
    if n > 0 { ToBeZero(n - 1); }
  }

  lemma ZeroBytesDenoteZero(b: Bytes)
    ensures ValidFieldBytes(b) ==> (b == ZERO32 <==> SetBytes(b) == 0)
    ensures SetBytes(ZERO32) == 0
  {
    ToBeZero(32);
    assert ZERO32 == FeBytes(0);
    SetBytesFeBytes(0);
    ValidIffCanonical(b);
  }
}
