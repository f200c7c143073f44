/** The protobuf wire format, as the generated code writes it: base-128 varints,
    length-delimited fields and a writer that fills a buffer from the back. */
module Wire {
  import opened Field

  // ===== encoded forms =====

  /** Seven bits a byte, low bits first, the high bit set on all but the last byte. */
  function EncVarint(v: nat): (b: Bytes)
    ensures |b| >= 1
  {
    if v < 128 then [v] else [v % 128 + 128] + EncVarint(v / 128)
  }

  function EncUint(tag: Byte, v: nat): Bytes {
    if v == 0 then [] else [tag] + EncVarint(v)
  }

  function EncLen(tag: Byte, b: Bytes): Bytes {
    [tag] + (EncVarint(|b|) + b)
  }

  /** A singular bytes field is omitted when empty. */
  function EncOpt(tag: Byte, b: Bytes): Bytes {
    if |b| == 0 then [] else EncLen(tag, b)
  }

  /** A repeated field writes every element, empty ones too. */
  function EncRep(tag: Byte, bs: seq<Bytes>): Bytes {
    if |bs| == 0 then [] else EncLen(tag, bs[0]) + EncRep(tag, bs[1..])
  }

  // ===== sizes =====

  function BitLen(x: nat): nat {
    if x == 0 then 0 else 1 + BitLen(x / 2)
  }

  /** The varint length, computed from the bit length of `v | 1`. */
  function Sov(v: nat): nat {
    (BitLen(if v % 2 == 0 then v + 1 else v) + 6) / 7
  }

  lemma BitLenBy7(v: nat)
    requires v >= 128
    ensures BitLen(v) == 7 + BitLen(v / 128)
  {
    var a, b, c := v / 2, v / 4, v / 8;
    var d, e, f := v / 16, v / 32, v / 64;
    assert a / 2 == b && b / 2 == c && c / 2 == d && d / 2 == e && e / 2 == f && f / 2 == v / 128;
    assert BitLen(v) == 2 + BitLen(b);
    assert BitLen(b) == 2 + BitLen(d);
    assert BitLen(d) == 2 + BitLen(f);
    assert BitLen(f) == 1 + BitLen(v / 128);
  }

  lemma BitLenOdd(v: nat)
    requires v > 0
    ensures BitLen(if v % 2 == 0 then v + 1 else v) == BitLen(v)
  {
    assert (v + 1) / 2 == v / 2 || v % 2 == 1;
  }

  lemma {:induction false} BitLenSmall(v: nat)
    requires 0 < v < 128
    ensures 1 <= BitLen(v) <= 7
  {
    var a, b, c := v / 2, v / 4, v / 8;
    var d, e, f := v / 16, v / 32, v / 64;
    assert a / 2 == b && b / 2 == c && c / 2 == d && d / 2 == e && e / 2 == f && f / 2 == 0;
    assert BitLen(f) <= 1;
    assert BitLen(e) <= 2;
    assert BitLen(d) <= 3;
    assert BitLen(c) <= 4;
    assert BitLen(b) <= 5;
    assert BitLen(a) <= 6;
  }

  /** The computed length is the written length. */
  lemma {:induction false} SovIsLength(v: nat)
    ensures Sov(v) == |EncVarint(v)|
  {
    if v == 0 {
      assert BitLen(1) == 1;
    } else {
      BitLenOdd(v);
      if v < 128 {
        BitLenSmall(v);
      } else {
        BitLenBy7(v);
        BitLenOdd(v / 128);
        SovIsLength(v / 128);
      }
    }
  }

  function SizeUint(v: nat): nat { if v == 0 then 0 else 1 + Sov(v) }

  function SizeLen(n: nat): nat { 1 + n + Sov(n) }

  function SizeOpt(b: Bytes): nat { if |b| == 0 then 0 else SizeLen(|b|) }

  function SizeRep(bs: seq<Bytes>): nat {
    if |bs| == 0 then 0 else SizeLen(|bs[0]|) + SizeRep(bs[1..])
  }

  lemma SizesOf(tag: Byte, v: nat, b: Bytes)
    ensures SizeUint(v) == |EncUint(tag, v)| && SizeLen(|b|) == |EncLen(tag, b)| && SizeOpt(b) == |EncOpt(tag, b)|
  {
    SovIsLength(v);
    SovIsLength(|b|);
  }

  lemma {:induction false} SizeRepIs(tag: Byte, bs: seq<Bytes>)
    ensures SizeRep(bs) == |EncRep(tag, bs)|
  {
    if |bs| > 0 {
      SizesOf(tag, 0, bs[0]);
      SizeRepIs(tag, bs[1..]);
    }
  }

  method RepSize(bs: seq<Bytes>, n0: nat) returns (n: nat)
    ensures n == n0 + SizeRep(bs)
  {
    n := n0;
    for k := 0 to |bs|
      invariant n + SizeRep(bs[k..]) == n0 + SizeRep(bs)
    {
      assert bs[k..][1..] == bs[k + 1..];
      n := n + (1 + |bs[k]| + Sov(|bs[k]|));
    }
  }

  lemma {:induction false} RepAppend(tag: Byte, bs: seq<Bytes>, b: Bytes)
    ensures |EncRep(tag, bs + [b])| == |EncRep(tag, bs)| + |EncLen(tag, b)|
  {
    hide EncLen;
    if |bs| > 0 {
      assert (bs + [b])[1..] == bs[1..] + [b];
      RepAppend(tag, bs[1..], b);
    } else {
      assert (bs + [b])[1..] == [];
    }
  }

  lemma {:induction false} VarintLengthGrows(v: nat, w: nat)
    requires v <= w
    ensures |EncVarint(v)| <= |EncVarint(w)|
  {
    if v >= 128 { VarintLengthGrows(v / 128, w / 128); }
  }

  // ===== the back-to-front writer =====

  /** `s1` is `s0` with exactly the bytes `lo .. hi` replaced by `e`. */
  ghost predicate Wrote(s0: Bytes, s1: Bytes, lo: nat, hi: nat, e: Bytes) {
    && |s0| == |s1| && lo + |e| == hi <= |s0|
    && s1 == s0[..lo] + e + s0[hi..]
  }

  lemma WroteNothing(s: Bytes, hi: nat)
    requires hi <= |s|
    ensures Wrote(s, s, hi, hi, [])
  {
  }

  /** Writing `e` in front of what was written extends it to the left. */
  lemma WroteMore(s0: Bytes, s1: Bytes, s2: Bytes, lo: nat, mid: nat, hi: nat, e: Bytes, done: Bytes)
    requires Wrote(s0, s1, mid, hi, done) && Wrote(s1, s2, lo, mid, e)
    ensures Wrote(s0, s2, lo, hi, e + done)
  {
    assert s1[mid..] == done + s0[hi..];
    assert s1[..lo] == s0[..lo];
  }

  lemma WroteAll(s0: Bytes, s1: Bytes, e: Bytes)
    requires Wrote(s0, s1, 0, |s0|, e)
    ensures s1 == e
  {
  }

  lemma WroteWithin(s0: Bytes, s1: Bytes, lo: nat, hi: nat, e: Bytes)
    requires |s0| == |s1| && lo <= hi <= |s0| && s1[lo..hi] == e
    requires forall i | 0 <= i < |s0| && !(lo <= i < hi) :: s1[i] == s0[i]
    ensures Wrote(s0, s1, lo, hi, e)
  {
    assert s1[..lo] == s0[..lo] && s1[hi..] == s0[hi..];
    assert s1 == s1[..lo] + s1[lo..hi] + s1[hi..];
  }

  lemma VarintStep(before: Bytes, rest: nat)
    ensures if rest < 128 then EncVarint(rest) == [rest] else
      && |EncVarint(rest)| == 1 + |EncVarint(rest / 128)|
      && before + EncVarint(rest) == before + [rest % 128 + 128] + EncVarint(rest / 128)
  {
  }

  /** Writes a varint so that it ends just before `offset`. */
  method EncodeVarint(a: array<Byte>, offset: nat, v: nat) returns (base: nat)
    requires Sov(v) <= offset <= a.Length
    modifies a
    ensures base + Sov(v) == offset && Wrote(old(a[..]), a[..], base, offset, EncVarint(v))
  {
    hide Sov, Wrote, EncVarint;
    SovIsLength(v);
    base := offset - Sov(v);
    var pos, rest := base, v;
    while rest >= 128
      invariant base <= pos <= offset && pos + |EncVarint(rest)| == offset
      invariant a[base..pos] + EncVarint(rest) == EncVarint(v)
      invariant forall i | 0 <= i < a.Length && !(base <= i < pos) :: a[i] == old(a[i])
      decreases rest
    {
      ghost var before := a[base..pos];
      VarintStep(before, rest);
      a[pos] := rest % 128 + 128;
      assert a[base..pos + 1] == before + [rest % 128 + 128];
      rest := rest / 128;
      pos := pos + 1;
    }
    ghost var before := a[base..pos];
    VarintStep(before, rest);
    a[pos] := rest;
    assert a[base..offset] == before + [rest];
    WroteWithin(old(a[..]), a[..], base, offset, EncVarint(v));
  }

  method PutByte(a: array<Byte>, i: nat, b: Byte) returns (j: nat)
    requires 1 <= i <= a.Length
    modifies a
    ensures j + 1 == i && Wrote(old(a[..]), a[..], j, i, [b])
  {
    j := i - 1;
    a[j] := b;
    assert a[..] == old(a[..])[..j] + [b] + old(a[..])[i..];
  }

  method PutBytes(a: array<Byte>, i: nat, b: Bytes) returns (j: nat)
    requires |b| <= i <= a.Length
    modifies a
    ensures j + |b| == i && Wrote(old(a[..]), a[..], j, i, b)
  {
    j := i - |b|;
    for k := 0 to |b|
      invariant a[j..j + k] == b[..k]
      invariant forall x | 0 <= x < a.Length && !(j <= x < j + k) :: a[x] == old(a[x])
    {
      a[j + k] := b[k];
    }
    WroteWithin(old(a[..]), a[..], j, i, b);
  }

  /** Writes one length-delimited field in front of what was written since `s0`. */
  method PutLen(a: array<Byte>, i: nat, tag: Byte, b: Bytes, ghost s0: Bytes, ghost hi: nat, ghost done: Bytes)
    returns (j: nat)
    requires |EncLen(tag, b)| <= i <= a.Length && Wrote(s0, a[..], i, hi, done)
    modifies a
    ensures j + |EncLen(tag, b)| == i && Wrote(s0, a[..], j, hi, EncLen(tag, b) + done)
  {
    hide EncVarint, Sov;
    SovIsLength(|b|);
    ghost var s1 := a[..];
    j := PutBytes(a, i, b);
    ghost var s2 := a[..];
    j := PutLength(a, i, j, tag, |b|, s1, b);
    WroteMore(s0, s1, a[..], j, i, hi, EncLen(tag, b), done);
  }

  /** Prefixes a payload already in place with its length and tag. */
  method PutLength(a: array<Byte>, ghost hi: nat, i: nat, tag: Byte, n: nat, ghost s0: Bytes, ghost payload: Bytes)
    returns (j: nat)
    requires 1 + |EncVarint(n)| <= i <= a.Length && Wrote(s0, a[..], i, hi, payload)
    modifies a
    ensures j + 1 + |EncVarint(n)| == i && Wrote(s0, a[..], j, hi, [tag] + (EncVarint(n) + payload))
  {
    hide EncVarint, Sov;
    SovIsLength(n);
    ghost var s1 := a[..];
    var k := EncodeVarint(a, i, n);
    ghost var s2 := a[..];
    WroteMore(s0, s1, s2, k, i, hi, EncVarint(n), payload);
    j := PutByte(a, k, tag);
    WroteMore(s0, s2, a[..], j, k, hi, [tag], EncVarint(n) + payload);
  }

  method PutOpt(a: array<Byte>, i: nat, tag: Byte, b: Bytes, ghost s0: Bytes, ghost hi: nat, ghost done: Bytes)
    returns (j: nat)
    requires |EncOpt(tag, b)| <= i <= a.Length && Wrote(s0, a[..], i, hi, done)
    modifies a
    ensures j + |EncOpt(tag, b)| == i && Wrote(s0, a[..], j, hi, EncOpt(tag, b) + done)
  {
    hide EncLen, Wrote;
    j := i;
    if |b| > 0 { j := PutLen(a, i, tag, b, s0, hi, done); } else { assert EncOpt(tag, b) + done == done; }
  }

  method PutUint(a: array<Byte>, i: nat, tag: Byte, v: nat, ghost s0: Bytes, ghost hi: nat, ghost done: Bytes)
    returns (j: nat)
    requires |EncUint(tag, v)| <= i <= a.Length && Wrote(s0, a[..], i, hi, done)
    modifies a
    ensures j + |EncUint(tag, v)| == i && Wrote(s0, a[..], j, hi, EncUint(tag, v) + done)
  {
    hide EncVarint;
    j := i;
    if v != 0 {
      j := PutLength(a, hi, i, tag, v, s0, done);
      assert [tag] + (EncVarint(v) + done) == EncUint(tag, v) + done;
    } else {
      assert EncUint(tag, v) + done == done;
    }
  }

  /** Writes a repeated field, last element first. */
  method PutRep(a: array<Byte>, i: nat, tag: Byte, bs: seq<Bytes>, ghost s0: Bytes, ghost hi: nat, ghost done: Bytes)
    returns (j: nat)
    requires |EncRep(tag, bs)| <= i <= a.Length && Wrote(s0, a[..], i, hi, done)
    modifies a
    ensures j + |EncRep(tag, bs)| == i && Wrote(s0, a[..], j, hi, EncRep(tag, bs) + done)
  {
    hide EncLen, Wrote;
    j := i;
    var k := |bs|;
    assert EncRep(tag, bs[k..]) + done == done;
    while k > 0
      invariant 0 <= k <= |bs|
      invariant j + |EncRep(tag, bs[k..])| == i && Wrote(s0, a[..], j, hi, EncRep(tag, bs[k..]) + done)
    {
      k := k - 1;
      RepTail(tag, bs, k);
      ghost var tail := EncRep(tag, bs[k + 1..]);
      RepFits(tag, bs, k);
      j := PutLen(a, j, tag, bs[k], s0, hi, tail + done);
      assert EncLen(tag, bs[k]) + (tail + done) == EncRep(tag, bs[k..]) + done;
    }
    assert bs[0..] == bs;
  }

  lemma RepTail(tag: Byte, bs: seq<Bytes>, k: nat)
    requires k < |bs|
    ensures EncRep(tag, bs[k..]) == EncLen(tag, bs[k]) + EncRep(tag, bs[k + 1..])
  {
    assert bs[k..][0] == bs[k] && bs[k..][1..] == bs[k + 1..];
  }

  lemma {:induction false} RepFits(tag: Byte, bs: seq<Bytes>, k: nat)
    requires k <= |bs|
    ensures |EncRep(tag, bs[k..])| <= |EncRep(tag, bs)|
    decreases k
  {
    assert bs[0..] == bs;
    if k > 0 {
      RepTail(tag, bs, k - 1);
      RepFits(tag, bs, k - 1);
    }
  }
}
