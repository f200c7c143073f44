/** Nix addresses: "nix:" and three hex fields, a commitment and a curve point. */
module Address {
  import opened Field
  import opened Merkle

  datatype AddressError = BadPrefix | BadShape | TooLong | BadDigit | OffCurve | WrongCommitment

  const COLON: Byte := 58
  const NIX: Bytes := [110, 105, 120, 58]

  /** The curve check and the commitment hash are foreign. */
  datatype Curve = Curve(onCurve: Bytes -> bool, hash2: Hash2)

  // ===== hex digits =====

  function HexNibble(c: Byte): (r: Option<nat>)
    ensures r.Some? ==> r.value < 16
  {
    if 48 <= c <= 57 then Some(c - 48)
    else if 97 <= c <= 102 then Some(c - 97 + 10)
    else if 65 <= c <= 70 then Some(c - 65 + 10)
    else None
  }

  function HexByte(hi: Byte, lo: Byte): Option<Byte> {
    if HexNibble(hi).None? || HexNibble(lo).None? then None
    else Some(16 * HexNibble(hi).value + HexNibble(lo).value)
  }

  function Digit(n: nat): Byte
    requires n < 16
  {
    if n < 10 then 48 + n else 97 + (n - 10)
  }

  /** Two lower-case digits a byte. */
  function Hex(b: Bytes): (s: Bytes)
    ensures |s| == 2 * |b|
  {
    if |b| == 0 then [] else [Digit(b[0] / 16), Digit(b[0] % 16)] + Hex(b[1..])
  }

  predicate AllHex(s: Bytes) {
    forall i :: 0 <= i < |s| ==> HexNibble(s[i]).Some?
  }

  /** The number a hex string writes, high digit first. */
  function HexValue(s: Bytes): nat
    requires AllHex(s)
  {
    if |s| == 0 then 0 else 16 * HexValue(s[..|s| - 1]) + HexNibble(s[|s| - 1]).value
  }

  function TrimPrefix(s: Bytes): Bytes {
    if |s| >= 2 && s[0] == 48 && s[1] == 120 then s[2..] else s
  }

  function Zeros(n: nat): (z: Bytes)
    ensures |z| == n
  {
    if n == 0 then [] else [48] + Zeros(n - 1)
  }

  /** Pads to 64 digits and reads 32 bytes. */
  function HexToBytes32(s: Bytes): Result<Bytes, AddressError> {
    var t := TrimPrefix(s);
    if |t| > 64 then Err(TooLong)
    else if !AllHex(t) then Err(BadDigit)
    else Ok(ToBe(HexValue(t), 32))
  }

  lemma {:induction false} ZerosAreHex(n: nat)
    ensures forall i :: 0 <= i < n ==> Zeros(n)[i] == 48
  {
    if n > 0 { ZerosAreHex(n - 1); }
  }

  lemma {:induction false} PaddingKeepsValue(n: nat, t: Bytes)
    ensures AllHex(Zeros(n) + t) <==> AllHex(t)
    ensures AllHex(t) ==> HexValue(Zeros(n) + t) == HexValue(t)
    decreases |t| + n
  {
    var s := Zeros(n) + t;
    ZerosAreHex(n);
    assert AllHex(s) ==> AllHex(t) by {
      forall i | 0 <= i < |t| && AllHex(s) ensures HexNibble(t[i]).Some? { assert s[n + i] == t[i]; }
    }
    if AllHex(t) {
      if |t| > 0 {
        assert s[..|s| - 1] == Zeros(n) + t[..|t| - 1];
        PaddingKeepsValue(n, t[..|t| - 1]);
      } else {
        assert s == Zeros(n);
        ZerosWorthNothing(n);
      }
    }
  }

  lemma {:induction false} ZerosSnoc(n: nat)
    ensures Zeros(n + 1) == Zeros(n) + [48]
  {
    if n > 0 { ZerosSnoc(n - 1); }
  }

  lemma {:induction false} ZerosWorthNothing(n: nat)
    ensures AllHex(Zeros(n)) && HexValue(Zeros(n)) == 0
  {
    ZerosAreHex(n);
    if n > 0 {
      ZerosSnoc(n - 1);
      ZerosWorthNothing(n - 1);
      assert Zeros(n)[..n - 1] == Zeros(n - 1);
    }
  }

  method PadTo64(s: Bytes) returns (t: Bytes)
    ensures |t| >= 64 && |s| <= |t| && t == Zeros(|t| - |s|) + s
    ensures |t| == 64 <==> |s| <= 64
  {
    t := s;
    while |t| < 64
      invariant |s| <= |t| && (|s| <= 64 <==> |t| <= 64)
      invariant t == Zeros(|t| - |s|) + s
    {
      ghost var z := Zeros(|t| - |s|);
      assert [48] + (z + s) == ([48] + z) + s;
      t := [48] + t;
    }
  }

  /** Reads digit pairs into a 32-byte array; none when a character is no digit. */
  method ReadDigits(t: Bytes) returns (r: Option<Bytes>)
    requires |t| == 64
    ensures r == if AllHex(t) then Some(ToBe(HexValue(t), 32)) else None
  {
    hide HexNibble, ToBe, HexValue;
    var result := new Byte[32](_ => 0);
    assert ToBe(HexValue(t[..0]), 0) == [];
    for i := 0 to 32
      invariant AllHex(t[..2 * i]) && result[..i] == ToBe(HexValue(t[..2 * i]), i)
    {
      var b := HexByte(t[i * 2], t[i * 2 + 1]);
      if b.None? { return None; }
      TwoDigits(t, i);
      result[i] := b.value;
      assert result[..i + 1] == result[..i] + [b.value];
    }
    assert t[..64] == t && result[..32] == result[..];
    r := Some(result[..]);
  }

  method ReadHex32(s: Bytes) returns (r: Result<Bytes, AddressError>)
    ensures r == HexToBytes32(s)
  {
    hide AllHex, HexValue, ToBe;
    var given := TrimPrefix(s);
    var t := PadTo64(given);
    PaddingKeepsValue(|t| - |given|, given);
    if |t| != 64 { return Err(TooLong); }
    var digits := ReadDigits(t);
    r := if digits.Some? then Ok(digits.value) else Err(BadDigit);
  }

  lemma TwoDigits(t: Bytes, i: nat)
    requires 2 * i + 2 <= |t| && AllHex(t[..2 * i]) && HexByte(t[i * 2], t[i * 2 + 1]).Some?
    ensures AllHex(t[..2 * (i + 1)])
    ensures ToBe(HexValue(t[..2 * (i + 1)]), i + 1)
         == ToBe(HexValue(t[..2 * i]), i) + [HexByte(t[i * 2], t[i * 2 + 1]).value]
  {
    hide HexNibble, ToBe;
    var a, b, c := t[..2 * i], t[..2 * i + 1], t[..2 * i + 2];
    assert c[..2 * i + 1] == b && b[..2 * i] == a;
    assert AllHex(c) by {
      forall j | 0 <= j < |c| ensures HexNibble(c[j]).Some? { if j < 2 * i { assert c[j] == a[j]; } }
    }
    var x := HexByte(t[i * 2], t[i * 2 + 1]).value;
    assert HexValue(c) == 256 * HexValue(a) + x;
    OneMoreByte(HexValue(a), x, i);
  }

  lemma OneMoreByte(v: nat, x: Byte, n: nat)
    ensures ToBe(256 * v + x, n + 1) == ToBe(v, n) + [x]
  {
    assert (256 * v + x) / 256 == v && (256 * v + x) % 256 == x;
  }

  // ===== printing then reading =====

  lemma DigitRoundTrip(n: nat)
    requires n < 16
    ensures HexNibble(Digit(n)) == Some(n) && Digit(n) != COLON && Digit(n) != 120
  {
  }

  lemma {:induction false} HexAt(b: Bytes, i: nat)
    requires i < |b|
    ensures Hex(b)[2 * i] == Digit(b[i] / 16) && Hex(b)[2 * i + 1] == Digit(b[i] % 16)
  {
    hide Digit;
    var tail := b[1..];
    assert Hex(b) == [Digit(b[0] / 16), Digit(b[0] % 16)] + Hex(tail);
    if i > 0 {
      assert b[i] == tail[i - 1];
      HexAt(tail, i - 1);
    }
  }

  lemma HexDigits(b: Bytes)
    ensures AllHex(Hex(b)) && forall i :: 0 <= i < |Hex(b)| ==> Hex(b)[i] != COLON && Hex(b)[i] != 120
  {
    forall i: nat | i < |Hex(b)|
      ensures HexNibble(Hex(b)[i]).Some? && Hex(b)[i] != COLON && Hex(b)[i] != 120
    {
      HexAt(b, i / 2);
      DigitRoundTrip(b[i / 2] / 16);
      DigitRoundTrip(b[i / 2] % 16);
    }
  }

  lemma {:induction false} HexPrefix(b: Bytes, i: nat)
    requires i <= |b|
    ensures AllHex(Hex(b)) && AllHex(Hex(b)[..2 * i])
    ensures HexValue(Hex(b)[..2 * i]) == BeValue(b[..i])
  {
    HexDigits(b);
    if i > 0 {
      HexPrefix(b, i - 1);
      HexAt(b, i - 1);
      DigitRoundTrip(b[i - 1] / 16);
      DigitRoundTrip(b[i - 1] % 16);
      var t := Hex(b);
      var a, m, c := t[..2 * i - 2], t[..2 * i - 1], t[..2 * i];
      assert c[..2 * i - 1] == m && m[..2 * i - 2] == a;
      assert b[..i][..i - 1] == b[..i - 1];
    }
  }

  lemma ReadPrinted(b: Bytes)
    requires |b| == 32
    ensures HexToBytes32(Hex(b)) == Ok(b)
  {
    HexDigits(b);
    HexPrefix(b, 32);
    assert TrimPrefix(Hex(b)) == Hex(b);
    assert Hex(b)[..64] == Hex(b) && b[..32] == b;
    ToBeBeValue(b);
  }

  // ===== addresses =====

  /** The position of the first colon, or the length. */
  function FirstColon(s: Bytes): (i: nat)
    ensures i <= |s| && (i < |s| ==> s[i] == COLON) && forall j :: 0 <= j < i ==> s[j] != COLON
  {
    if |s| == 0 || s[0] == COLON then 0 else 1 + FirstColon(s[1..])
  }

  function Split(s: Bytes): (parts: seq<Bytes>)
    decreases |s|
  {
    var i := FirstColon(s);
    if i == |s| then [s] else [s[..i]] + Split(s[i + 1..])
  }

  function Commitment(c: Curve, key: Bytes): Fe
    requires |key| == 64
  {
    c.hash2(SetBytes(key[..32]), SetBytes(key[32..]))
  }

  function Encode(c: Curve, key: Bytes): Bytes
    requires |key| == 64
  {
    NIX + (Hex(FeBytes(Commitment(c, key))) + [COLON] + (Hex(key[..32]) + [COLON] + Hex(key[32..])))
  }

  function Decode(c: Curve, s: Bytes): (r: Result<Bytes, AddressError>)
    ensures r.Ok? ==> |r.value| == 64 && c.onCurve(r.value)
  {
    if !(NIX <= s) then Err(BadPrefix) else
    var parts := Split(s[4..]);
    if |parts| != 3 then Err(BadShape) else
    var commitment, x, y := HexToBytes32(parts[0]), HexToBytes32(parts[1]), HexToBytes32(parts[2]);
    if commitment.Err? then Err(commitment.error)
    else if x.Err? then Err(x.error)
    else if y.Err? then Err(y.error)
    else
      var key := x.value + y.value;
      if !c.onCurve(key) then Err(OffCurve)
      else if SetBytes(commitment.value) != Commitment(c, key) then Err(WrongCommitment)
      else Ok(key)
  }

  lemma SplitOnce(a: Bytes, rest: Bytes)
    requires forall i :: 0 <= i < |a| ==> a[i] != COLON
    ensures Split(a + [COLON] + rest) == [a] + Split(rest)
  {
    var s := a + [COLON] + rest;
    var i := FirstColon(s);
    assert s[|a|] == COLON;
    assert forall j :: 0 <= j < |a| ==> s[j] == a[j];
    assert i == |a| && s[..i] == a && s[i + 1..] == rest;
  }

  lemma SplitNone(a: Bytes)
    requires forall i :: 0 <= i < |a| ==> a[i] != COLON
    ensures Split(a) == [a]
  {
  }

  /** Every on-curve key survives printing and reading, bytes and all. */
  lemma DecodeEncode(c: Curve, key: Bytes)
    requires |key| == 64 && c.onCurve(key)
    ensures Decode(c, Encode(c, key)) == Ok(key)
  {
    hide Hex, HexToBytes32, Split, SetBytes, FeBytes;
    var m, x, y := FeBytes(Commitment(c, key)), key[..32], key[32..];
    HexDigits(m);
    HexDigits(x);
    HexDigits(y);
    var tail := Hex(x) + [COLON] + Hex(y);
    SplitOnce(Hex(m), tail);
    SplitOnce(Hex(x), Hex(y));
    SplitNone(Hex(y));
    var s := Encode(c, key);
    assert NIX <= s && s[4..] == Hex(m) + [COLON] + tail;
    assert Split(s[4..]) == [Hex(m)] + ([Hex(x)] + [Hex(y)]);
    ReadPrinted(m);
    ReadPrinted(x);
    ReadPrinted(y);
    assert x + y == key;
    SetBytesFeBytes(Commitment(c, key));
  }

  /** Any accepted spelling -- upper case, 0x, short fields, a reducible commitment -- names
      the key its normal form names. */
  lemma NormalForm(c: Curve, s: Bytes)
    requires Decode(c, s).Ok?
    ensures Decode(c, Encode(c, Decode(c, s).value)) == Decode(c, s)
  {
    DecodeEncode(c, Decode(c, s).value);
  }

  /** Two hex fields read as the same bytes exactly when they write the same number. */
  lemma SameNumberSameBytes(s: Bytes, t: Bytes)
    requires HexToBytes32(s).Ok? && HexToBytes32(t).Ok?
    ensures HexToBytes32(s) == HexToBytes32(t) <==> HexValue(TrimPrefix(s)) == HexValue(TrimPrefix(t))
  {
    HexBound(TrimPrefix(s));
    HexBound(TrimPrefix(t));
    HexFits(TrimPrefix(s));
    HexFits(TrimPrefix(t));
  }

  // ===== spellings of one part =====

  /** The 22 hexadecimal digits, in ASCII. */
  predicate IsHexDigit(c: Byte) {
    c in {48, 49, 50, 51, 52, 53, 54, 55, 56, 57, 65, 66, 67, 68, 69, 70, 97, 98, 99, 100, 101, 102}
  }

  lemma DigitsAccepted(c: Byte)
    ensures HexNibble(c).Some? <==> IsHexDigit(c)
  {
  }

  /** Both cases of a letter have one value, in alphabetical order from ten. */
  lemma LetterValues()
    ensures HexNibble(65) == HexNibble(97) == Some(10) && HexNibble(66) == HexNibble(98) == Some(11)
    ensures HexNibble(67) == HexNibble(99) == Some(12) && HexNibble(68) == HexNibble(100) == Some(13)
    ensures HexNibble(69) == HexNibble(101) == Some(14) && HexNibble(70) == HexNibble(102) == Some(15)
    ensures forall n: nat :: n < 10 ==> HexNibble(48 + n) == Some(n)
  {
  }

  /** A part is accepted exactly when it has at most 64 characters behind its prefix, each of
      them one of the 22 digits. */
  lemma PartAccepted(s: Bytes)
    ensures HexToBytes32(s).Ok? <==>
              var t := TrimPrefix(s); |t| <= 64 && forall i | 0 <= i < |t| :: IsHexDigit(t[i])
  {
    hide HexNibble, IsHexDigit, HexValue, ToBe;
    var t := TrimPrefix(s);
    forall i | 0 <= i < |t| ensures HexNibble(t[i]).Some? <==> IsHexDigit(t[i]) { DigitsAccepted(t[i]); }
  }

  /** The same character, or the other case of a letter from a to f. */
  predicate SameLetter(c: Byte, d: Byte) {
    c == d || (97 <= c <= 102 && d == c - 32) || (65 <= c <= 70 && d == c + 32)
  }

  /** Two strings that differ in the case of hexadecimal letters only. */
  predicate SameButCase(s: Bytes, t: Bytes) {
    |s| == |t| && forall i :: 0 <= i < |s| ==> SameLetter(s[i], t[i])
  }

  lemma {:induction false} CaseKeepsValue(s: Bytes, t: Bytes)
    requires SameButCase(s, t)
    ensures AllHex(s) <==> AllHex(t)
    ensures AllHex(s) ==> HexValue(s) == HexValue(t)
  {
    assert forall i | 0 <= i < |s| :: HexNibble(s[i]) == HexNibble(t[i]);
    hide HexNibble;
    if |s| > 0 && AllHex(s) {
      var a, b := s[..|s| - 1], t[..|t| - 1];
      CaseKeepsValue(a, b);
    }
  }

  /** The case of letters changes neither whether a part is accepted nor its bytes. */
  lemma CaseIgnored(s: Bytes, t: Bytes)
    requires SameButCase(s, t)
    ensures HexToBytes32(s) == HexToBytes32(t)
  {
    hide HexValue, AllHex, ToBe;
    CaseKeepsValue(TrimPrefix(s), TrimPrefix(t));
  }

  /** One `0x` in front changes nothing. */
  lemma PrefixIgnored(t: Bytes)
    requires TrimPrefix(t) == t
    ensures HexToBytes32([48, 120] + t) == HexToBytes32(t)
  {
    hide HexValue, AllHex, ToBe;
    var s := [48, 120] + t;
    assert s[2..] == t;
  }

  /** Zeros in front change nothing, up to 64 digits. */
  lemma LeadingZerosIgnored(n: nat, t: Bytes)
    requires TrimPrefix(t) == t && TrimPrefix(Zeros(n) + t) == Zeros(n) + t && n + |t| <= 64
    ensures HexToBytes32(Zeros(n) + t) == HexToBytes32(t)
  {
    hide HexValue, AllHex, ToBe, TrimPrefix;
    PaddingKeepsValue(n, t);
  }

  // ===== spellings of one address =====

  predicate NoColon(s: Bytes) {
    forall i :: 0 <= i < |s| ==> s[i] != COLON
  }

  /** Three parts are what stands between two colons and the ends. */
  lemma ThreePartsExactly(s: Bytes, a: Bytes, x: Bytes, y: Bytes)
    ensures Split(s) == [a, x, y] <==>
              NoColon(a) && NoColon(x) && NoColon(y) && s == a + [COLON] + (x + [COLON] + y)
  {
    if Split(s) == [a, x, y] { ThreePartsJoin(s, a, x, y); }
    if NoColon(a) && NoColon(x) && NoColon(y) && s == a + [COLON] + (x + [COLON] + y) {
      hide Split;
      SplitOnce(a, x + [COLON] + y);
      SplitOnce(x, y);
      SplitNone(y);
      assert [a] + ([x] + [y]) == [a, x, y];
    }
  }

  lemma SplitUnfold(s: Bytes)
    ensures var i := FirstColon(s);
      if i == |s| then Split(s) == [s] else Split(s) == [s[..i]] + Split(s[i + 1..])
  {
  }

  lemma FirstPart(s: Bytes, parts: seq<Bytes>)
    requires Split(s) == parts && |parts| > 0
    ensures NoColon(parts[0])
    ensures if |parts| == 1 then s == parts[0] else
              |parts[0]| < |s| && s == parts[0] + [COLON] + s[|parts[0]| + 1..]
              && Split(s[|parts[0]| + 1..]) == parts[1..]
  {
    hide Split, FirstColon;
    SplitUnfold(s);
    var i := FirstColon(s);
    if i < |s| {
      assert s == s[..i] + [s[i]] + s[i + 1..];
      assert parts[1..] == Split(s[i + 1..]);
      SplitNonEmpty(s[i + 1..]);
    }
  }

  lemma SplitNonEmpty(s: Bytes)
    ensures |Split(s)| > 0
  {
  }

  lemma ThreePartsJoin(s: Bytes, a: Bytes, x: Bytes, y: Bytes)
    requires Split(s) == [a, x, y]
    ensures NoColon(a) && NoColon(x) && NoColon(y) && s == a + [COLON] + (x + [COLON] + y)
  {
    hide Split;
    FirstPart(s, [a, x, y]);
    assert [a, x, y][1..] == [x, y] && [x, y][1..] == [y];
    var r := s[|a| + 1..];
    FirstPart(r, [x, y]);
    FirstPart(r[|x| + 1..], [y]);
  }

  /** An address names a key exactly when it is `nix:` and three parts without colons: the
      commitment of the coordinates, X and Y, of a point on the curve. */
  lemma DecodedExactly(c: Curve, s: Bytes, key: Bytes)
    ensures Decode(c, s) == Ok(key) <==>
              && |key| == 64 && c.onCurve(key)
              && exists a, x, y :: NamesKey(c, s, key, a, x, y)
  {
    hide HexToBytes32, SetBytes, Split;
    if Decode(c, s) == Ok(key) {
      var parts := Split(s[4..]);
      var a, x, y := parts[0], parts[1], parts[2];
      assert parts == [a, x, y];
      ThreePartsExactly(s[4..], a, x, y);
      assert s == NIX + s[4..];
      var hx, hy := HexToBytes32(x).value, HexToBytes32(y).value;
      PartIs32(x);
      PartIs32(y);
      assert key == hx + hy && key[..32] == hx && key[32..] == hy;
      assert NamesKey(c, s, key, a, x, y);
    }
    forall a, x, y | |key| == 64 && c.onCurve(key) && NamesKey(c, s, key, a, x, y) ensures Decode(c, s) == Ok(key) {
      var tail := a + [COLON] + (x + [COLON] + y);
      assert NIX <= s && s[4..] == tail;
      ThreePartsExactly(tail, a, x, y);
      assert key[..32] + key[32..] == key;
    }
  }

  lemma PartIs32(s: Bytes)
    ensures HexToBytes32(s).Ok? ==> |HexToBytes32(s).value| == 32
  {
  }

  ghost predicate NamesKey(c: Curve, s: Bytes, key: Bytes, a: Bytes, x: Bytes, y: Bytes)
    requires |key| == 64
  {
    && s == NIX + (a + [COLON] + (x + [COLON] + y)) && NoColon(a) && NoColon(x) && NoColon(y)
    && HexToBytes32(x) == Ok(key[..32]) && HexToBytes32(y) == Ok(key[32..])
    && HexToBytes32(a).Ok?
    && SetBytes(HexToBytes32(a).value) == c.hash2(SetBytes(key[..32]), SetBytes(key[32..]))
  }

  lemma NixCase(s: Bytes, t: Bytes)
    requires SameButCase(s, t)
    ensures NIX <= s <==> NIX <= t
    ensures NIX <= s ==> SameButCase(s[4..], t[4..])
  {
    if |s| >= 4 {
      assert NIX <= s <==> s[0] == 110 && s[1] == 105 && s[2] == 120 && s[3] == 58;
      assert NIX <= t <==> t[0] == 110 && t[1] == 105 && t[2] == 120 && t[3] == 58;
      assert SameLetter(s[0], t[0]) && SameLetter(s[1], t[1]) && SameLetter(s[2], t[2]) && SameLetter(s[3], t[3]);
    }
  }

  /** Changing the case of hexadecimal letters anywhere in an address changes nothing. */
  lemma AddressCaseIgnored(c: Curve, s: Bytes, t: Bytes)
    requires SameButCase(s, t)
    ensures Decode(c, s) == Decode(c, t)
  {
    hide HexToBytes32, SetBytes, SameButCase, Split, Commitment;
    NixCase(s, t);
    if NIX <= s {
      SplitCase(s[4..], t[4..]);
      var p, q := Split(s[4..]), Split(t[4..]);
      if |p| == 3 {
        CaseIgnored(p[0], q[0]);
        CaseIgnored(p[1], q[1]);
        CaseIgnored(p[2], q[2]);
      }
    }
  }

  lemma {:induction false} FirstColonCase(s: Bytes, t: Bytes)
    requires SameButCase(s, t)
    ensures FirstColon(s) == FirstColon(t)
  {
    if |s| > 0 {
      assert SameLetter(s[0], t[0]);
      if s[0] != COLON { FirstColonCase(s[1..], t[1..]); }
    }
  }

  lemma {:induction false} SplitCase(s: Bytes, t: Bytes)
    requires SameButCase(s, t)
    ensures |Split(s)| == |Split(t)| && forall k :: 0 <= k < |Split(s)| ==> SameButCase(Split(s)[k], Split(t)[k])
    decreases |s|
  {
    hide Split, SameLetter, FirstColon;
    FirstColonCase(s, t);
    SplitUnfold(s);
    SplitUnfold(t);
    var i := FirstColon(s);
    if i < |s| {
      var a, b := s[i + 1..], t[i + 1..];
      SplitCase(a, b);
      assert SameButCase(s[..i], t[..i]);
      var p, q := Split(s), Split(t);
      forall k | 0 <= k < |p| ensures SameButCase(p[k], q[k]) {
        if k > 0 { assert p[k] == Split(a)[k - 1] && q[k] == Split(b)[k - 1]; }
      }
    }
  }

  /** An encoded key decodes to itself however its letters are cased. */
  lemma DecodeAnyCase(c: Curve, key: Bytes, s: Bytes)
    requires |key| == 64 && c.onCurve(key) && SameButCase(Encode(c, key), s)
    ensures Decode(c, s) == Ok(key)
  {
    hide Decode, Encode;
    DecodeEncode(c, key);
    AddressCaseIgnored(c, Encode(c, key), s);
  }

  predicate LowerDigit(c: Byte) { 48 <= c <= 57 || 97 <= c <= 102 }

  lemma HexIsLower(b: Bytes)
    ensures forall i :: 0 <= i < |Hex(b)| ==> LowerDigit(Hex(b)[i])
  {
    forall i: nat | i < |Hex(b)| ensures LowerDigit(Hex(b)[i]) { HexAt(b, i / 2); }
  }

  /** An address is `nix:` and three fields of 64 lower-case digits between colons. */
  lemma EncodedForm(c: Curve, key: Bytes)
    requires |key| == 64
    ensures var s := Encode(c, key);
      && |s| == 198 && s[..4] == [110, 105, 120, 58] && s[68] == COLON && s[133] == COLON
      && forall i | 4 <= i < 198 && i != 68 && i != 133 :: LowerDigit(s[i])
  {
    hide Hex, LowerDigit, FeBytes;
    var m, x, y := FeBytes(Commitment(c, key)), key[..32], key[32..];
    HexIsLower(m);
    HexIsLower(x);
    HexIsLower(y);
    var s := Encode(c, key);
    assert s[4..68] == Hex(m) && s[69..133] == Hex(x) && s[134..] == Hex(y);
    forall i | 4 <= i < 198 && i != 68 && i != 133 ensures LowerDigit(s[i]) {
      if i < 68 {
        assert s[i] == Hex(m)[i - 4];
      } else if i < 133 {
        assert s[i] == Hex(x)[i - 69];
      } else {
        assert s[i] == Hex(y)[i - 134];
      }
    }
  }

  // ===== sizes =====

  function Pow16(n: nat): (r: nat)
    ensures r > 0
  {
    if n == 0 then 1 else 16 * Pow16(n - 1)
  }

  lemma {:induction false} HexBound(s: Bytes)
    requires AllHex(s)
    ensures HexValue(s) < Pow16(|s|)
  {
    if |s| > 0 { HexBound(s[..|s| - 1]); }
  }

  lemma {:induction false} Pow16Grows(m: nat, n: nat)
    requires m <= n
    ensures Pow16(m) <= Pow16(n)
  {
    if m < n { Pow16Grows(m, n - 1); }
  }

  lemma {:induction false} Pow16Square(n: nat)
    ensures Pow16(2 * n) == Pow256(n)
  {
    if n > 0 {
      Pow16Square(n - 1);
      assert Pow16(2 * n) == 16 * Pow16(2 * n - 1) == 256 * Pow16(2 * n - 2);
    }
  }

  lemma HexFits(s: Bytes)
    requires AllHex(s) && |s| <= 64
    ensures BeValue(ToBe(HexValue(s), 32)) == HexValue(s)
  {
    hide HexValue, BeValue, ToBe, Pow16, Pow256;
    HexBound(s);
    Pow16Grows(|s|, 64);
    Pow16Square(32);
    BeValueToBe(HexValue(s), 32);
  }
}
