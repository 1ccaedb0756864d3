/** Reduction of scalars modulo the group order L. */
module Ed25519Scalar {
  import opened Bytes
  import opened Modular
  import Bits

  const L: int := 0x1000_0000_0000_0000_0000_0000_0000_0000_14DE_F9DE_A2F7_9CD6_5812_631A_5CF5_D3ED
  const C: int := 0x14DE_F9DE_A2F7_9CD6_5812_631A_5CF5_D3ED
  const TWO248: int := 0x100_0000_0000_0000_0000_0000_0000_0000_0000_0000_0000_0000_0000_0000_0000_0000
  const TWO256: int := 0x1_0000_0000_0000_0000_0000_0000_0000_0000_0000_0000_0000_0000_0000_0000_0000_0000

  const LBytes: seq<byte> :=
    [0xed, 0xd3, 0xf5, 0x5c, 0x1a, 0x63, 0x12, 0x58, 0xd6, 0x9c, 0xf7, 0xa2, 0xde, 0xf9, 0xde, 0x14,
     0, 0, 0, 0, 0, 0, 0, 0, 0, 0, 0, 0, 0, 0, 0, 0x10]

  /////////////////////////////////////////////////////////////////////////////
  // Digits in base 256, possibly negative or oversized
  /////////////////////////////////////////////////////////////////////////////

  function Val(s: seq<int>): int {
    if s == [] then 0 else s[0] + 256 * Val(s[1..])
  }

  lemma {:induction false} ValUpdate(s: seq<int>, k: nat, x: int)
    requires k < |s|
    ensures Val(s[k := s[k] + x]) == Val(s) + x * Pow256(k)
  {
    if k == 0 {
      assert s[0 := s[0] + x][1..] == s[1..];
    } else {
      ValUpdate(s[1..], k - 1, x);
      assert s[k := s[k] + x][1..] == s[1..][k - 1 := s[1..][k - 1] + x];
      MulAssoc(256, x, Pow256(k - 1));
      assert x * Pow256(k) == 256 * (x * Pow256(k - 1));
    }
  }

  lemma {:induction false} ValAppend(a: seq<int>, b: seq<int>)
    ensures Val(a + b) == Val(a) + Pow256(|a|) * Val(b)
  {
    if a == [] {
      assert a + b == b;
    } else {
      assert (a + b)[1..] == a[1..] + b;
      ValAppend(a[1..], b);
      MulAssoc(256, Pow256(|a| - 1), Val(b));
    }
  }

  lemma ValSnoc(s: seq<int>, i: nat)
    requires |s| == i + 1
    ensures Val(s) == Val(s[..i]) + Pow256(i) * s[i]
  {
    assert s == s[..i] + [s[i]];
    ValAppend(s[..i], [s[i]]);
    assert [s[i]][1..] == [];
  }

  lemma {:induction false} ValOfBytes(s: seq<byte>)
    ensures Val(s) == LE(s)
  {
    if s != [] {
      ValOfBytes(s[1..]);
    }
  }

  lemma {:induction false} ValZeros(s: seq<int>)
    requires forall i :: 0 <= i < |s| ==> s[i] == 0
    ensures Val(s) == 0
  {
    if s != [] {
      ValZeros(s[1..]);
    }
  }

  /** Digits within [-m, m] denote a number of magnitude below m * 256^n / 255. */
  lemma {:induction false} ValMagnitude(s: seq<int>, m: int)
    requires m >= 0 && forall i :: 0 <= i < |s| ==> -m <= s[i] <= m
    ensures -(m * (Pow256(|s|) - 1)) <= 255 * Val(s) <= m * (Pow256(|s|) - 1)
  {
    if s != [] {
      ValMagnitude(s[1..], m);
      GeometricStep(m, Pow256(|s| - 1));
    }
  }

  lemma GeometricStep(m: int, p: int)
    ensures m * (256 * p - 1) == 256 * (m * (p - 1)) + 255 * m
  {
  }

  lemma Pow256Of32()
    ensures Pow256(32) == TWO256 && Pow256(31) == TWO248 && Pow256(0) == 1
  {
    hide Pow256;
    Pow256Of16();
    Pow256Add(16, 16);
    Pow256Next(31);
    Pow256Zero();
  }

  lemma Pow256Next(n: nat)
    ensures Pow256(n + 1) == 256 * Pow256(n)
  {
  }

  lemma Pow256Zero()
    ensures Pow256(0) == 1
  {
  }

  /** The byte table is L; its twenty low bytes are the part of L below 2^252. */
  lemma LValue()
    ensures Val(LBytes) == L && Val(LBytes[..20]) == C
  {
    hide Val, LE;
    var lo := LBytes[..16];
    assert LBytes[0..16] == lo;
    FourLimbs(LBytes, 0);
    assert LE(lo) == C;
    ValOfBytes(lo);
    assert LBytes[..20] == lo + LBytes[16..20];
    ValAppend(lo, LBytes[16..20]);
    ValZeros(LBytes[16..20]);
    assert LBytes == lo + LBytes[16..];
    ValAppend(lo, LBytes[16..]);
    ValSnoc(LBytes[16..], 15);
    ValZeros(LBytes[16..][..15]);
    Pow256Of16();
    Pow256Add(16, 15);
    Pow256Of32();
  }

  /////////////////////////////////////////////////////////////////////////////
  // Eliminating the top digits
  /////////////////////////////////////////////////////////////////////////////

  /** The carry entering position t of the window; small tells that the digits there were within [-128, 128]. */
  function CarryBound(t: nat, small: bool): int {
    if t <= 16 then 0x1000_0000
    else if t == 17 then (if small then 0x10_0002 else 0x20_0000)
    else if t == 18 then (if small then 0x2000 else 0x1_0000)
    else if t == 19 then (if small then 64 else 0x1_0000)
    else (if small then 1 else 0x1_0000)
  }

  lemma DigitProduct(x: int, y: int)
    requires -0x80_0000 <= x <= 0x80_0000 && 0 <= y < 256
    ensures -0x8_0000_0000 <= 16 * x * y <= 0x8_0000_0000
  {
    NonNegative(0x80_0000 - x, y);
    NonNegative(0x80_0000 + x, y);
    Spread(0x80_0000, x, y);
    SixteenTimes(x, y, x * y);
  }

  lemma NonNegative(a: int, b: int)
    requires a >= 0 && b >= 0
    ensures a * b >= 0
  {
  }

  lemma Spread(c: int, x: int, y: int)
    ensures (c - x) * y == c * y - x * y && (c + x) * y == c * y + x * y
  {
  }

  lemma SixteenTimes(x: int, y: int, z: int)
    requires z == x * y
    ensures 16 * x * y == 16 * z
  {
  }

  lemma CarryNext(t: nat, small: bool, x: int, carry: int, product: int)
    requires t < 20 && -CarryBound(t, small) <= carry <= CarryBound(t, small)
    requires -0x8_0000_0000 <= product <= 0x8_0000_0000 && (t >= 16 ==> product == 0)
    requires -0x40_0000 <= x <= 0x40_0000 && (small && t > 0 ==> -128 <= x <= 128)
    ensures var y := x + carry - product; var c := (y + 128) / 256;
            && -CarryBound(t + 1, small) <= c <= CarryBound(t + 1, small)
            && -128 <= y - c * 256 <= 127
            && -0x1000_0000 <= carry <= 0x1000_0000 && -0x1000_0000 <= c <= 0x1000_0000
  {
  }

  lemma CarryBoundEnds(small: bool)
    ensures CarryBound(0, small) >= 0 && CarryBound(20, small) == if small then 1 else 0x1_0000
  {
  }

  /** The digit written at j and the new carry together keep the running difference. */
  lemma DigitStep(s: seq<int>, s': seq<int>, j: nat, base: nat, t: nat, carry: int, carry': int, m: int, v: int)
    requires |s| == 64 && j < 64 && t < 32 && j == base + t
    requires s' == s[j := s[j] + carry - m * LBytes[t] - carry' * 256]
    requires Val(s) + carry * Pow256(j) == v - m * (Pow256(base) * Val(LBytes[..t]))
    ensures Val(s') + carry' * Pow256(j + 1) == v - m * (Pow256(base) * Val(LBytes[..t + 1]))
  {
    hide Val, Pow256;
    var d := carry - m * LBytes[t] - carry' * 256;
    ValUpdate(s, j, d);
    Pow256Next(j);
    Pow256Add(base, t);
    assert LBytes[..t + 1][..t] == LBytes[..t];
    ValSnoc(LBytes[..t + 1], t);
    StepAlgebra(Val(s), carry, carry', m, LBytes[t], Pow256(base), Pow256(t), Val(LBytes[..t]), v);
  }

  lemma StepAlgebra(x: int, c: int, c': int, m: int, l: int, p: int, q: int, w: int, v: int)
    requires x + c * (p * q) == v - m * (p * w)
    ensures x + (c - m * l - c' * 256) * (p * q) + c' * (256 * (p * q)) == v - m * (p * (w + q * l))
  {
    var z := p * q;
    assert (c - m * l - c' * 256) * z == c * z - (m * l) * z - (c' * 256) * z;
    assert (c' * 256) * z == c' * (256 * z);
    assert m * (p * (w + q * l)) == m * (p * w) + (m * l) * z by {
      assert p * (w + q * l) == p * w + z * l;
      assert m * (z * l) == (m * l) * z;
    }
  }

  predicate SmallWindow(x: seq<int>, i: nat)
    requires |x| == 64 && 32 <= i < 64
  {
    forall k :: i - 32 < k < i - 12 ==> -128 <= x[k] <= 128
  }

  /** The inner loop: twenty digits take their part of -16 * x[i] * L and become signed bytes. */
  method WindowPass(x: array<int64>, i: nat) returns (carry: int64)
    requires x.Length == 64 && 32 <= i < 64 && -0x80_0000 <= x[i] <= 0x80_0000
    requires forall k :: i - 32 <= k < i - 12 ==> -0x40_0000 <= x[k] <= 0x40_0000
    modifies x
    ensures Val(x[..]) + carry * Pow256(i - 12)
         == Val(old(x[..])) - (16 * old(x[i])) * (Pow256(i - 32) * Val(LBytes[..20]))
    ensures -0x1_0000 <= carry <= 0x1_0000
    ensures SmallWindow(old(x[..]), i) ==> -1 <= carry <= 1
    ensures forall k :: i - 32 <= k < i - 12 ==> -128 <= x[k] <= 127
    ensures forall k :: 0 <= k < i - 32 || i - 12 <= k < 64 ==> x[k] == old(x[k])
  {
    hide Val, Pow256, CarryBound;
    ghost var v, m := Val(x[..]), 16 * x[i];
    ghost var small := SmallWindow(x[..], i);
    carry := 0;
    EmptyPrefix(i - 32, m);
    CarryBoundEnds(small);
    for j := i - 32 to i - 12
      invariant Val(x[..]) + carry * Pow256(j) == v - m * (Pow256(i - 32) * Val(LBytes[..j - (i - 32)]))
      invariant -CarryBound(j - (i - 32), small) <= carry <= CarryBound(j - (i - 32), small)
      invariant forall k :: i - 32 <= k < j ==> -128 <= x[k] <= 127
      invariant forall k :: 0 <= k < i - 32 || j <= k < 64 ==> x[k] == old(x[k])
    {
      ghost var s, c0, t := x[..], carry, j - (i - 32);
      assert x[i] == old(x[i]) && x[j] == old(x[j]);
      var l: int := LBytes[j - (i - 32)];
      assert t >= 16 ==> l == 0;
      DigitProduct(x[i], l);
      CarryNext(t, small, x[j], carry, 16 * x[i] * l);
      x[j] := x[j] + (carry - 16 * x[i] * l);
      carry := (x[j] + 128) / 256;
      x[j] := x[j] - carry * 256;
      assert x[..] == s[j := s[j] + c0 - m * l - carry * 256];
      DigitStep(s, x[..], j, i - 32, t, c0, carry, m, v);
    }
  }

  /** Subtracts 16 * x[i] * L at 256^(i - 32), which cancels digit i and leaves signed digits below it. */
  method Eliminate(x: array<int64>, i: nat)
    requires x.Length == 64 && 32 <= i < 64 && -0x80_0000 <= x[i] <= 0x80_0000
    requires forall k :: i - 32 <= k <= i - 12 ==> -0x40_0000 <= x[k] <= 0x40_0000
    modifies x
    ensures Val(x[..]) == Val(old(x[..])) - L * (16 * old(x[i]) * Pow256(i - 32))
    ensures x[i] == 0
    ensures forall k :: 0 <= k < i - 32 || i - 12 < k < i || i < k < 64 ==> x[k] == old(x[k])
    ensures forall k :: i - 32 <= k < i - 12 ==> -128 <= x[k] <= 127
    ensures old(x[i - 12]) - 0x1_0000 <= x[i - 12] <= old(x[i - 12]) + 0x1_0000
    ensures SmallWindow(old(x[..]), i) ==> old(x[i - 12]) - 1 <= x[i - 12] <= old(x[i - 12]) + 1
  {
    hide Val, Pow256, SmallWindow;
    var carry := WindowPass(x, i);
    ghost var s := x[..];
    x[i - 12] := x[i - 12] + carry;
    assert x[..] == s[i - 12 := s[i - 12] + carry];
    ValUpdate(s, i - 12, carry);
    ghost var s1, d := x[..], x[i];
    x[i] := 0;
    assert x[..] == s1[i := s1[i] + -d];
    ValUpdate(s1, i, -d);
    CancelTop(d, i);
  }

  lemma EmptyPrefix(base: nat, m: int)
    ensures m * (Pow256(base) * Val(LBytes[..0])) == 0
  {
    assert LBytes[..0] == [];
  }

  /** 256^32 + 16 * C = 16 * L. */
  lemma CancelTop(d: int, i: nat)
    requires 32 <= i
    ensures 16 * d * (Pow256(i - 32) * Val(LBytes[..20])) + d * Pow256(i) == L * (16 * d * Pow256(i - 32))
  {
    hide Val, Pow256;
    LValue();
    Pow256Of32();
    Pow256Add(i - 32, 32);
    var p := Pow256(i - 32);
    assert d * (p * TWO256) == TWO256 * (d * p);
    assert 16 * d * (p * C) == (16 * C) * (d * p);
    assert L * (16 * d * p) == (16 * L) * (d * p);
  }

  /** The digits when i is the highest one left: untouched ones, a window of signed bytes, and a top that a carry
      may have moved by one. */
  predicate Shape(x: seq<int>, i: int)
    requires |x| == 64
  {
    && 31 <= i <= 63
    && (forall k :: i < k < 64 ==> x[k] == 0)
    && (forall k :: 0 <= k <= i - 32 ==> -0x40_0000 <= x[k] <= 0x40_0000)
    && (forall k :: 51 <= k <= i ==> -0x41_0000 <= x[k] <= 0x41_0000)
    && (i == 63 ==> forall k :: 0 <= k < 64 ==> -0x40_0000 <= x[k] <= 0x40_0000)
    && (i < 63 ==> forall k :: i - 31 <= k <= i - 12 ==> -128 <= x[k] <= 127)
    && (i < 63 ==> forall k :: i - 11 <= k <= i && k <= 50 ==> -129 <= x[k] <= 128)
  }

  lemma ShapeReady(x: seq<int>, i: int)
    requires |x| == 64 && Shape(x, i) && i >= 32
    ensures -0x80_0000 <= x[i] <= 0x80_0000
    ensures forall k :: i - 32 <= k <= i - 12 ==> -0x40_0000 <= x[k] <= 0x40_0000
    ensures i < 63 ==> SmallWindow(x, i)
  {
  }

  lemma ShapeStep(x: seq<int>, y: seq<int>, i: int)
    requires |x| == 64 && |y| == 64 && Shape(x, i) && i >= 32
    requires y[i] == 0
    requires forall k :: 0 <= k < i - 32 || i - 12 < k < i || i < k < 64 ==> y[k] == x[k]
    requires forall k :: i - 32 <= k < i - 12 ==> -128 <= y[k] <= 127
    requires x[i - 12] - 0x1_0000 <= y[i - 12] <= x[i - 12] + 0x1_0000
    requires i < 63 ==> x[i - 12] - 1 <= y[i - 12] <= x[i - 12] + 1
    ensures Shape(y, i - 1)
  {
  }

  /** After the first loop 32 digits near the signed bytes are left, of the same value modulo L. */
  method EliminateAll(x: array<int64>)
    requires x.Length == 64 && forall k :: 0 <= k < 64 ==> 0 <= x[k] <= 0x40_0000
    modifies x
    ensures Shape(x[..], 31)
    ensures Val(x[..]) % L == Val(old(x[..])) % L
  {
    hide Val, Pow256, Shape, SmallWindow;
    ghost var v := Val(x[..]);
    assert Shape(x[..], 63) by { InitialShape(x[..]); }
    for i := 64 downto 32
      invariant Shape(x[..], i - 1)
      invariant Val(x[..]) % L == v % L
    {
      ghost var s := x[..];
      ShapeReady(s, i);
      Eliminate(x, i);
      ShapeStep(s, x[..], i);
      CongruentByMultiple(Val(x[..]), Val(s), L, -(16 * s[i] * Pow256(i - 32)));
    }
  }

  lemma InitialShape(x: seq<int>)
    requires |x| == 64 && forall k :: 0 <= k < 64 ==> 0 <= x[k] <= 0x40_0000
    ensures Shape(x, 63)
  {
  }

  /////////////////////////////////////////////////////////////////////////////
  // The quotient step, the add-back and the output
  /////////////////////////////////////////////////////////////////////////////

  /** Subtracting q * L position by position with floor carries. */
  lemma QuotientStep(s: seq<int>, s': seq<int>, j: nat, carry: int, carry': int, q: int, v: int)
    requires |s| == 64 && j < 32
    requires s' == s[j := s[j] + carry - q * LBytes[j] - carry' * 256]
    requires Val(s) + carry * Pow256(j) == v - q * (Pow256(0) * Val(LBytes[..j]))
    ensures Val(s') + carry' * Pow256(j + 1) == v - q * (Pow256(0) * Val(LBytes[..j + 1]))
  {
    DigitStep(s, s', j, 0, j, carry, carry', q, v);
  }

  predicate OutputDigits(x: seq<int>, bound: int) {
    |x| == 64 && (forall k :: 0 <= k < 32 ==> 0 <= x[k] <= bound) && (forall k :: 32 <= k < 64 ==> x[k] == 0)
  }

  method QuotientPass(x: array<int64>) returns (carry: int64)
    requires x.Length == 64 && Shape(x[..], 31)
    modifies x
    ensures OutputDigits(x[..], 255)
    ensures Val(x[..]) + carry * TWO256 == Val(old(x[..])) - (old(x[31]) / 16) * L
    ensures -16 <= carry <= 16
  {
    hide Val, Pow256, Bits.And;
    ghost var v, q := Val(x[..]), x[31] / 16;
    assert -9 <= q <= 8;
    carry := 0;
    EmptyPrefix(0, q);
    Pow256Of32();
    LValue();
    for j := 0 to 32
      invariant Val(x[..]) + carry * Pow256(j) == v - q * (Pow256(0) * Val(LBytes[..j]))
      invariant -16 <= carry <= 16
      invariant forall k :: 0 <= k < j ==> 0 <= x[k] <= 255
      invariant forall k :: j <= k < 64 ==> x[k] == old(x[k])
    {
      ghost var s, c0 := x[..], carry;
      assert x[31] == old(x[31]) && x[j] == old(x[j]);
      var l: int := LBytes[j];
      QuotientProduct(q, l);
      x[j] := x[j] + (carry - (x[31] / 16) * l);
      carry := x[j] / 256;
      Bits.LowByte(x[j]);
      x[j] := Bits.And(x[j], 0xff);
      assert x[..] == s[j := s[j] + c0 - q * l - carry * 256];
      QuotientStep(s, x[..], j, c0, carry, q, v);
    }
    assert LBytes[..32] == LBytes;
  }

  lemma QuotientProduct(q: int, l: int)
    requires -9 <= q <= 8 && 0 <= l < 256
    ensures -2304 <= q * l <= 2304
  {
    assert -9 * l <= q * l <= 8 * l;
  }

  /** Digit 31 over 16 is the quotient up to one: the remainder lies strictly between -L and L. */
  lemma RemainderRange(x: seq<int>)
    requires |x| == 64 && Shape(x, 31)
    ensures -L < Val(x) - (x[31] / 16) * L < L
  {
    hide Val;
    var lo, hi := x[..32], x[32..];
    assert x == lo + hi;
    ValAppend(lo, hi);
    ValZeros(hi);
    assert lo[..31] == x[..31];
    ValSnoc(lo, 31);
    ValMagnitude(x[..31], 129);
    Pow256Of32();
    var q, rho := x[31] / 16, x[31] % 16;
    assert -9 <= q <= 8;
    assert Val(x) == Val(x[..31]) + TWO248 * x[31];
    assert Val(x) - q * L == Val(x[..31]) + TWO248 * rho - C * q;
  }

  /** A remainder in (-L, L), split into digits below 2^256 and a carry, has carry 0 or -1 by its sign. */
  lemma CarrySign(d: int, carry: int, v: int)
    requires 0 <= d < TWO256 && d + carry * TWO256 == v && -L < v < L
    ensures carry == if v < 0 then -1 else 0
  {
  }

  lemma {:induction false} ValNonNegative(s: seq<int>)
    requires forall i :: 0 <= i < |s| ==> 0 <= s[i] <= 255
    ensures 0 <= Val(s) < Pow256(|s|)
  {
    if s != [] {
      ValNonNegative(s[1..]);
    }
  }

  lemma OutputValue(x: seq<int>)
    requires OutputDigits(x, 255)
    ensures 0 <= Val(x) < TWO256
  {
    hide Val;
    assert x == x[..32] + x[32..];
    ValAppend(x[..32], x[32..]);
    ValZeros(x[32..]);
    ValNonNegative(x[..32]);
    Pow256Of32();
  }

  /** x -= carry * L adds L back once after a negative remainder. */
  method AddBack(x: array<int64>, carry: int64)
    requires x.Length == 64 && OutputDigits(x[..], 255) && (carry == 0 || carry == -1)
    modifies x
    ensures OutputDigits(x[..], 510)
    ensures Val(x[..]) == Val(old(x[..])) - carry * L
  {
    hide Val, Pow256;
    ghost var v := Val(x[..]);
    EmptyPrefix(0, carry);
    Pow256Of32();
    LValue();
    for j := 0 to 32
      invariant Val(x[..]) + 0 * Pow256(j) == v - carry * (Pow256(0) * Val(LBytes[..j]))
      invariant forall k :: 0 <= k < j ==> 0 <= x[k] <= 510
      invariant forall k :: j <= k < 64 ==> x[k] == old(x[k])
    {
      ghost var s := x[..];
      assert x[j] == old(x[j]);
      var l: int := LBytes[j];
      x[j] := x[j] - carry * l;
      assert x[..] == s[j := s[j] + 0 - carry * l - 0 * 256];
      QuotientStep(s, x[..], j, 0, 0, carry, v);
    }
    assert LBytes[..32] == LBytes;
  }

  /** The last loop normalises the digits and writes them out modulo 2^256. */
  method WriteOut(r: array<byte>, x: array<int64>)
    requires r.Length == 32 && x.Length == 64 && r as object != x && OutputDigits(x[..], 510)
    modifies r, x
    ensures LE(r[..]) == Val(old(x[..])) % TWO256
  {
    hide Val, Pow256, LE, Bits.And;
    ghost var v := Val(x[..]);
    assert x[0..] == x[..] && r[..0] == [];
    EmptyOutput();
    for i := 0 to 32
      invariant LE(r[..i]) + Pow256(i) * Val(x[i..]) == v
      invariant 0 <= x[i] <= 512 && forall k :: i < k < 33 ==> 0 <= x[k] <= 510
    {
      ghost var s, out := x[i..], r[..i];
      x[i + 1] := x[i + 1] + x[i] / 256;
      Bits.LowByte(x[i]);
      r[i] := Bits.And(x[i], 0xff);
      assert r[..i + 1] == out + [r[i]];
      assert x[i + 1..] == s[1..][0 := s[1] + s[0] / 256];
      OutputStep(out, r[i], s, x[i + 1..], v);
    }
    assert r[..32] == r[..];
    LEBound(r[..]);
    Pow256Of32();
    Bits.DivModUnique(v, TWO256, Val(x[32..]), LE(r[..]));
  }

  lemma EmptyOutput()
    ensures LE([]) == 0 && Pow256(0) == 1
  {
  }

  lemma OutputStep(out: seq<byte>, b: byte, s: seq<int>, tail: seq<int>, v: int)
    requires |s| >= 2 && b == s[0] % 256 && tail == s[1..][0 := s[1] + s[0] / 256]
    requires LE(out) + Pow256(|out|) * Val(s) == v
    ensures LE(out + [b]) + Pow256(|out| + 1) * Val(tail) == v
  {
    hide Val, LE, Pow256;
    LEAppend(out, [b]);
    LESingle(b);
    HeadCarry(s, tail);
    Pow256Next(|out|);
    OutputAlgebra(Pow256(|out|), b, Val(tail));
  }

  lemma LESingle(b: byte)
    ensures LE([b]) == b
  {
    assert [b][1..] == [];
  }

  lemma HeadCarry(s: seq<int>, tail: seq<int>)
    requires |s| >= 2 && tail == s[1..][0 := s[1] + s[0] / 256]
    ensures Val(s) == s[0] % 256 + 256 * Val(tail)
  {
    assert tail[1..] == s[1..][1..];
    assert Val(tail) == Val(s[1..]) + s[0] / 256;
  }

  lemma OutputAlgebra(p: int, b: int, t: int)
    ensures p * b + (256 * p) * t == p * (b + 256 * t)
  {
  }

  /** Writes the representative in [0, L) of the number with digits x. */
  method Reduce(r: array<byte>, x: array<int64>)
    requires r.Length == 32 && x.Length == 64 && r as object != x
    requires forall k :: 0 <= k < 64 ==> 0 <= x[k] <= 0x40_0000
    modifies r, x
    ensures LE(r[..]) == Val(old(x[..])) % L
  {
    hide Val, LE, Shape, OutputDigits;
    ghost var v := Val(x[..]);
    EliminateAll(x);
    ghost var w, q := Val(x[..]), x[31] / 16;
    RemainderRange(x[..]);
    var carry := QuotientPass(x);
    OutputValue(x[..]);
    CarrySign(Val(x[..]), carry, w - q * L);
    AddBack(x, carry);
    WriteOut(r, x);
    FinalValue(v, w, q, carry, LE(r[..]));
  }

  lemma FinalValue(v: int, w: int, q: int, carry: int, out: int)
    requires w % L == v % L && -L < w - q * L < L && carry == (if w - q * L < 0 then -1 else 0)
    requires out == (w - q * L - carry * TWO256 - carry * L) % TWO256
    ensures out == v % L
  {
    var target := w - q * L - carry * L;
    assert 0 <= target < L;
    Bits.DivModUnique(target - carry * TWO256, TWO256, -carry, target);
    CongruentByMultiple(target, w, L, -q - carry);
    SmallMod(target, L);
  }

  /////////////////////////////////////////////////////////////////////////////
  // The scalar of a signature
  /////////////////////////////////////////////////////////////////////////////

  lemma ByteProduct(x: int, y: int)
    requires 0 <= x <= 255 && 0 <= y <= 255
    ensures 0 <= x * y <= 65025
  {
    assert x * y <= 255 * y;
  }

  lemma RowStep(s: seq<int>, s': seq<int>, h: int, d: seq<byte>, i: nat, j: nat, v: int)
    requires |s| == 64 && i < 32 && j < |d| <= 32 && s' == s[i + j := s[i + j] + h * d[j]]
    requires Val(s) == v + h * (Pow256(i) * Val(d[..j]))
    ensures Val(s') == v + h * (Pow256(i) * Val(d[..j + 1]))
  {
    hide Val, Pow256;
    ValUpdate(s, i + j, h * d[j]);
    Pow256Add(i, j);
    assert d[..j + 1][..j] == d[..j];
    ValSnoc(d[..j + 1], j);
    RowAlgebra(h, d[j], Pow256(i), Pow256(j), Val(d[..j]));
  }

  lemma RowAlgebra(h: int, y: int, p: int, q: int, w: int)
    ensures h * (p * w) + (h * y) * (p * q) == h * (p * (w + q * y))
  {
    assert p * (w + q * y) == p * w + p * (q * y);
    assert h * (p * (q * y)) == (h * y) * (p * q);
  }

  lemma ColumnStep(h: seq<byte>, i: nat, w: int)
    requires i < |h|
    ensures Val(h[..i]) * w + h[i] * (Pow256(i) * w) == Val(h[..i + 1]) * w
  {
    hide Val, Pow256;
    assert h[..i + 1][..i] == h[..i];
    ValSnoc(h[..i + 1], i);
    assert (Pow256(i) * h[i]) * w == h[i] * (Pow256(i) * w);
  }

  /** x[i..] += h * d, one row of the schoolbook product. */
  method AddRow(x: array<int64>, h: byte, d: seq<byte>, i: nat)
    requires x.Length == 64 && |d| == 32 && i < 32
    requires forall k :: 0 <= k < 64 ==> 0 <= x[k] <= 255 + 65025 * i
    modifies x
    ensures forall k :: 0 <= k < 64 ==> 0 <= x[k] <= 255 + 65025 * (i + 1)
    ensures Val(x[..]) == Val(old(x[..])) + h * (Pow256(i) * Val(d))
  {
    hide Val, Pow256;
    ghost var v := Val(x[..]);
    ValZeros(d[..0]);
    var hi: int := h;
    for j := 0 to 32
      invariant Val(x[..]) == v + hi * (Pow256(i) * Val(d[..j]))
      invariant forall k :: 0 <= k < i + j ==> 0 <= x[k] <= 255 + 65025 * (i + 1)
      invariant forall k :: i + j <= k < 64 ==> 0 <= x[k] <= 255 + 65025 * i
    {
      ghost var s := x[..];
      var dj: int := d[j];
      ByteProduct(hi, dj);
      x[i + j] := x[i + j] + hi * dj;
      assert x[..] == s[i + j := s[i + j] + hi * dj];
      RowStep(s, x[..], hi, d, i, j, v);
    }
    assert d[..32] == d;
  }

  method LoadDigits(r: seq<byte>) returns (x: array<int64>)
    requires |r| == 32
    ensures fresh(x) && x.Length == 64 && forall k :: 0 <= k < 64 ==> 0 <= x[k] <= 255
    ensures Val(x[..]) == LE(r)
  {
    hide Val, LE, Pow256;
    x := new int64[64](_ => 0);
    for i := 0 to 32
      invariant x[..i] == r[..i] && forall k :: i <= k < 64 ==> x[k] == 0
    {
      x[i] := r[i];
    }
    assert x[..] == r + x[32..];
    ValAppend(r, x[32..]);
    ValZeros(x[32..]);
    ValOfBytes(r);
    assert forall k :: 0 <= k < 32 ==> x[k] == x[..32][k];
  }

  /** The schoolbook product of the low halves is added to r digit by digit; no digit exceeds 2^22. */
  method Accumulate(r: seq<byte>, h: seq<byte>, d: seq<byte>) returns (x: array<int64>)
    requires |r| == 32 && |h| == 64 && |d| == 64
    ensures fresh(x) && x.Length == 64 && forall k :: 0 <= k < 64 ==> 0 <= x[k] <= 0x40_0000
    ensures Val(x[..]) == LE(r) + LE(h[..32]) * LE(d[..32])
  {
    hide Val, LE, Pow256;
    x := LoadDigits(r);
    var lo, dl := h[..32], d[..32];
    ValZeros(lo[..0]);
    for i := 0 to 32
      invariant Val(x[..]) == LE(r) + Val(lo[..i]) * Val(dl)
      invariant forall k :: 0 <= k < 64 ==> 0 <= x[k] <= 255 + 65025 * i
    {
      AddRow(x, lo[i], dl, i);
      ColumnStep(lo, i, Val(dl));
    }
    assert lo[..32] == lo;
    ValOfBytes(lo);
    ValOfBytes(dl);
  }

  /** The S half of a signature: r + (low half of the hash) * a, reduced modulo L. */
  method SignatureScalar(r: seq<byte>, h: seq<byte>, d: seq<byte>) returns (s: array<byte>)
    requires |r| == 32 && |h| == 64 && |d| == 64
    ensures fresh(s) && s.Length == 32 && LE(s[..]) == (LE(r) + LE(h[..32]) * LE(d[..32])) % L
  {
    hide Val, LE;
    s := new byte[32];
    var x := Accumulate(r, h, d);
    Reduce(s, x);
  }

  /** Verification reduces all 64 bytes of the hash. The scalar above is the one verification expects exactly when
      the high half times the secret is a multiple of L. */
  lemma LowHalfScalar(r: nat, h: seq<byte>, a: nat)
    requires |h| == 64
    ensures (r + LE(h[..32]) * a) % L == (r + LE(h) * a) % L <==> (LE(h[32..]) * a) % L == 0
  {
    hide LE, Pow256;
    var lo, hi := LE(h[..32]), LE(h[32..]);
    assert h == h[..32] + h[32..];
    LEAppend(h[..32], h[32..]);
    Pow256Of32();
    var x, y := r + lo * a, TWO256 * (hi * a);
    assert r + LE(h) * a == x + y by {
      assert (lo + TWO256 * hi) * a == lo * a + TWO256 * (hi * a);
    }
    SumCongruentIff(x, y);
    CancelTwo256(hi * a);
  }

  /** 2^256 has an inverse modulo L. */
  const INV256: int := 0x9DB6C6F26FE9183614E75438FFA36BEB7F5C66A973F754CC766CCA43D5F0D24

  lemma CancelTwo256(z: int)
    ensures (TWO256 * z) % L == 0 <==> z % L == 0
  {
    if z % L == 0 {
      MulCong(z, 0, TWO256, L);
    }
    if (TWO256 * z) % L == 0 {
      MulCong(TWO256 * z, 0, INV256, L);
      MulCong(TWO256 * INV256, 1, z, L);
      assert (TWO256 * z) * INV256 == (TWO256 * INV256) * z;
    }
  }

  lemma SumCongruentIff(x: int, y: int)
    ensures x % L == (x + y) % L <==> y % L == 0
  {
    if y % L == 0 {
      CongruentByMultiple(x + y, x, L, y / L);
    }
    if x % L == (x + y) % L {
      var k := MultipleOfCongruent(x + y, x, L);
      CongruentByMultiple(y, 0, L, k);
    }
  }

  /** A hash and a clamped secret for which the two scalars differ. */
  lemma LowHalfScalarDiffers()
    ensures var h := Zeros(32) + [1] + Zeros(31); var a := TWO256 / 4;
            (0 + LE(h[..32]) * a) % L != (0 + LE(h) * a) % L
  {
    hide LE;
    var h := Zeros(32) + [1] + Zeros(31);
    assert h[32..] == [1] + Zeros(31);
    LEAppend([1], Zeros(31));
    LESingle(1);
    LEZeros(31);
    LowHalfScalar(0, h, TWO256 / 4);
  }
}
