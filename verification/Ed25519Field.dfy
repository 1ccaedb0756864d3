/** Arithmetic modulo 2^255 - 19 on sixteen signed 16-bit limbs held in 64-bit words. */
module Ed25519Field {
  import opened Bytes
  import opened Modular
  import Bits

  const P: int := 0x7FFF_FFFF_FFFF_FFFF_FFFF_FFFF_FFFF_FFFF_FFFF_FFFF_FFFF_FFFF_FFFF_FFFF_FFFF_FFED
  const TWO256: int := 0x1_0000_0000_0000_0000_0000_0000_0000_0000_0000_0000_0000_0000_0000_0000_0000_0000
  const B: int := 0x1_0000

  /////////////////////////////////////////////////////////////////////////////
  // Limbs and their value
  /////////////////////////////////////////////////////////////////////////////

  /** The number with limbs s in base 2^16, least significant first; limbs may be negative or oversized. */
  function Val(s: seq<int>): int {
    if s == [] then 0 else s[0] + B * Val(s[1..])
  }

  function PowB(n: nat): (r: nat)
    ensures r >= 1
  {
    if n == 0 then 1 else B * PowB(n - 1)
  }

  /** v shifted right by n limbs, rounding down. */
  function Quot(v: int, n: nat): int {
    if n == 0 then v else Quot(v, n - 1) / B
  }

  predicate InRange(s: seq<int>) {
    forall i :: 0 <= i < |s| ==> 0 <= s[i] < B
  }

  predicate Within(s: seq<int>, bound: int) {
    forall i :: 0 <= i < |s| ==> -bound < s[i] < bound
  }

  lemma {:induction false} ValAppend(a: seq<int>, b: seq<int>)
    ensures Val(a + b) == Val(a) + PowB(|a|) * Val(b)
  {
    if a == [] {
      assert a + b == b;
    } else {
      assert (a + b)[1..] == a[1..] + b;
      ValAppend(a[1..], b);
      MulAssoc(B, PowB(|a| - 1), Val(b));
    }
  }

  lemma {:induction false} PowBAdd(m: nat, n: nat)
    ensures PowB(m + n) == PowB(m) * PowB(n)
  {
    if m > 0 {
      PowBAdd(m - 1, n);
      MulAssoc(B, PowB(m - 1), PowB(n));
    }
  }

  lemma PowB16()
    ensures PowB(16) == TWO256
  {
    assert PowB(2) == 0x1_0000_0000;
    PowBAdd(2, 2);
    PowBAdd(4, 4);
    PowBAdd(8, 8);
  }

  lemma {:induction false} QuotIsDiv(v: int, n: nat)
    ensures Quot(v, n) == v / PowB(n)
  {
    if n > 0 {
      QuotIsDiv(v, n - 1);
      DivDiv(v, PowB(n - 1));
    }
  }

  lemma DivDiv(v: int, m: int)
    requires m > 0
    ensures v / m / B == v / (B * m)
  {
    var q, r := v / m / B, v / m % B;
    var low := v % m;
    Distribute(m, q, r);
    assert 0 <= m * r <= m * (B - 1) by { MulUpTo(m, r, B - 1); }
    assert v == m * (v / m) + low;
    Bits.DivModUnique(v, B * m, q, m * r + low);
  }

  lemma Distribute(m: int, q: int, r: int)
    ensures m * (B * q + r) == (B * m) * q + m * r
  {
  }

  lemma MulUpTo(m: int, r: int, n: int)
    requires m >= 0 && 0 <= r <= n
    ensures 0 <= m * r <= m * n
  {
  }

  /** Limbs in [0, 2^16) denote a number in [0, 2^(16n)). */
  lemma {:induction false} ValBound(s: seq<int>)
    requires InRange(s)
    ensures 0 <= Val(s) < PowB(|s|)
  {
    if s != [] {
      ValBound(s[1..]);
    }
  }

  /** A bound on limbs bounds the value by a geometric sum. */
  lemma {:induction false} ValMagnitude(s: seq<int>, bound: int)
    requires Within(s, bound) && bound > 0
    ensures -(bound * (PowB(|s|) - 1)) <= (B - 1) * Val(s) <= bound * (PowB(|s|) - 1)
  {
    if s != [] {
      ValMagnitude(s[1..], bound);
      GeometricStep(bound, PowB(|s| - 1));
    }
  }

  lemma GeometricStep(bound: int, p: int)
    ensures bound * (B * p - 1) == B * (bound * (p - 1)) + (B - 1) * bound
  {
  }

  /////////////////////////////////////////////////////////////////////////////
  // The carry pass
  /////////////////////////////////////////////////////////////////////////////

  /** The n low base-2^16 digits of v. */
  function Digits(v: int, n: nat): (s: seq<int>)
    ensures |s| == n && InRange(s)
  {
    seq(n, i requires 0 <= i < n => Quot(v, i) % B)
  }

  lemma {:induction false} DigitsVal(v: int, n: nat)
    ensures Val(Digits(v, n)) == v - PowB(n) * Quot(v, n)
  {
    if n > 0 {
      hide Val;
      DigitsVal(v, n - 1);
      assert Digits(v, n) == Digits(v, n - 1) + [Quot(v, n - 1) % B];
      ValAppend(Digits(v, n - 1), [Quot(v, n - 1) % B]);
      ValSingle(Quot(v, n - 1) % B);
      DigitStep(PowB(n - 1), Quot(v, n - 1));
    } else {
      assert Digits(v, 0) == [];
    }
  }

  lemma ValSingle(x: int)
    ensures Val([x]) == x
  {
    assert [x][1..] == [];
  }

  lemma DigitStep(p: int, q: int)
    ensures p * (q % B) == p * q - (B * p) * (q / B)
  {
    var d, r := q / B, q % B;
    assert q == B * d + r;
    Distribute(p, d, r);
  }

  /** A carry pass leaves the digits of the value, with 2^256 folded to 38 in limb 0. */
  function Carried(v: int): (s: seq<int>)
    ensures |s| == 16
  {
    Digits(v, 16)[0 := v % B + 38 * (v / TWO256)]
  }

  lemma CarriedVal(v: int)
    ensures Val(Carried(v)) == v % TWO256 + 38 * (v / TWO256)
    ensures Val(Carried(v)) % P == v % P
  {
    hide Quot;
    var d := Digits(v, 16);
    DigitsVal(v, 16);
    PowB16();
    QuotIsDiv(v, 16);
    assert Quot(v, 0) == v by { Quot0(v); }
    assert Carried(v) == [d[0] + 38 * (v / TWO256)] + d[1..];
    assert Carried(v)[1..] == d[1..];
    assert Val(Carried(v)) == v % TWO256 + 38 * (v / TWO256);
    CongruentByMultiple(v % TWO256 + 38 * (v / TWO256), v, P, -2 * (v / TWO256));
  }

  lemma Quot0(v: int)
    ensures Quot(v, 0) == v
  {
  }

  /** Only limb 0 can leave [0, 2^16), and only by 38 times the folded top. */
  lemma CarriedRange(v: int)
    ensures InRange(Carried(v)[1..])
    ensures 38 * (v / TWO256) <= Carried(v)[0] < B + 38 * (v / TWO256)
  {
    var d := Digits(v, 16);
    assert Carried(v)[1..] == d[1..];
  }

  /** Adding a carry to the lowest limb adds it to the value. */
  lemma ValAddHead(s: seq<int>, c: int)
    requires s != []
    ensures Val(s[0 := s[0] + c]) == Val(s) + c
  {
    assert s[0 := s[0] + c][1..] == s[1..];
  }

  /** One step: the head keeps its residue and the quotient moves into the tail. */
  lemma CarryStep(s: seq<int>, tail: seq<int>)
    requires |s| >= 2 && tail == s[1..][0 := s[1] + s[0] / B]
    ensures Val(s) % B == s[0] % B && Val(tail) == Val(s) / B
  {
    ValAddHead(s[1..], s[0] / B);
    var t := Val(s[1..]);
    Bits.DivModUnique(Val(s), B, s[0] / B + t, s[0] % B);
  }

  method Car(o: array<int64>)
    requires o.Length == 16 && Within(o[..], 0x4000_0000_0000_0000)
    modifies o
    ensures o[..] == Carried(Val(old(o[..])))
  {
    hide Val, Quot;
    ghost var v := Val(o[..]);
    assert o[0..] == o[..];
    Quot0(v);
    for i := 0 to 15
      invariant o[..i] == Digits(v, i)
      invariant Val(o[i..]) == Quot(v, i)
      invariant i < 15 ==> Within(o[i + 1..], 0x4000_0000_0000_0000)
      invariant -0x4001_0000_0000_0000 < o[i] < 0x4001_0000_0000_0000
    {
      ghost var s := o[i..];
      o[i] := o[i] + 0x1_0000;
      var c: int64 := o[i] / B;
      o[i + 1] := o[i + 1] + (c - 1);
      o[i] := o[i] - c * B;
      CarryStep(s, o[i + 1..]);
      QuotNext(v, i);
      assert o[..i + 1] == Digits(v, i + 1);
    }
    ghost var s := o[15..];
    o[15] := o[15] + 0x1_0000;
    var c: int64 := o[15] / B;
    o[0] := o[0] + (c - 1 + 37 * (c - 1));
    o[15] := o[15] - c * B;
    LastCarry(s, v);
  }

  lemma QuotNext(v: int, i: nat)
    ensures Quot(v, i + 1) == Quot(v, i) / B
  {
  }

  lemma LastCarry(s: seq<int>, v: int)
    requires |s| == 1 && Val(s) == Quot(v, 15)
    ensures s[0] / B == v / TWO256 && s[0] == Quot(v, 15) && Quot(v, 0) == v
  {
    assert s == [s[0]];
    ValSingle(s[0]);
    QuotIsDiv(v, 16);
    PowB16();
  }

  /////////////////////////////////////////////////////////////////////////////
  // Addition, subtraction, multiplication
  /////////////////////////////////////////////////////////////////////////////

  /** The form every product comes out in: limb 0 within 38 of [0, 2^16), the others in [0, 2^16). */
  predicate Reduced(s: seq<int>) {
    |s| == 16 && -38 <= s[0] < B + 38 && InRange(s[1..])
  }

  lemma ReducedWithin(s: seq<int>)
    requires Reduced(s)
    ensures Within(s, 0x1_0026)
  {
    forall i | 0 <= i < |s|
      ensures -0x1_0026 < s[i] < 0x1_0026
    {
      if i > 0 {
        assert s[i] == s[1..][i - 1];
      }
    }
  }

  lemma {:induction false} ValAdd(a: seq<int>, b: seq<int>, c: seq<int>)
    requires |a| == |b| == |c| && forall i :: 0 <= i < |a| ==> c[i] == a[i] + b[i]
    ensures Val(c) == Val(a) + Val(b)
  {
    if a != [] {
      ValAdd(a[1..], b[1..], c[1..]);
    }
  }

  method A(o: array<int64>, a: array<int64>, b: array<int64>)
    requires o.Length == a.Length == b.Length == 16
    requires Within(a[..], 0x4000_0000_0000_0000) && Within(b[..], 0x4000_0000_0000_0000)
    modifies o
    ensures forall i :: 0 <= i < 16 ==> o[i] == old(a[i]) + old(b[i])
    ensures Val(o[..]) == Val(old(a[..])) + Val(old(b[..]))
  {
    hide Val;
    ghost var a0, b0 := a[..], b[..];
    for i := 0 to 16
      invariant forall k :: 0 <= k < i ==> o[k] == a0[k] + b0[k]
      invariant forall k :: i <= k < 16 ==> a[k] == a0[k] && b[k] == b0[k]
    {
      assert a[i] == a0[i] && b[i] == b0[i];
      o[i] := a[i] + b[i];
    }
    ValAdd(a0, b0, o[..]);
  }

  method Z(o: array<int64>, a: array<int64>, b: array<int64>)
    requires o.Length == a.Length == b.Length == 16
    requires Within(a[..], 0x4000_0000_0000_0000) && Within(b[..], 0x4000_0000_0000_0000)
    modifies o
    ensures forall i :: 0 <= i < 16 ==> o[i] == old(a[i]) - old(b[i])
    ensures Val(o[..]) == Val(old(a[..])) - Val(old(b[..]))
  {
    hide Val;
    ghost var a0, b0 := a[..], b[..];
    for i := 0 to 16
      invariant forall k :: 0 <= k < i ==> o[k] == a0[k] - b0[k]
      invariant forall k :: i <= k < 16 ==> a[k] == a0[k] && b[k] == b0[k]
    {
      assert a[i] == a0[i] && b[i] == b0[i];
      o[i] := a[i] - b[i];
    }
    ValAdd(o[..], b0, a0);
  }

  lemma {:induction false} ValUpdate(s: seq<int>, k: nat, x: int)
    requires k < |s|
    ensures Val(s[k := s[k] + x]) == Val(s) + x * PowB(k)
  {
    if k == 0 {
      ValAddHead(s, x);
    } else {
      ValUpdate(s[1..], k - 1, x);
      assert s[k := s[k] + x][1..] == s[1..][k - 1 := s[1..][k - 1] + x];
      MulAssoc(B, x, PowB(k - 1));
      assert x * PowB(k) == B * (x * PowB(k - 1));
    }
  }

  lemma {:induction false} ValZero(n: nat)
    ensures Val(seq(n, _ => 0)) == 0
  {
    if n > 0 {
      assert seq(n, _ => 0)[1..] == seq(n - 1, _ => 0);
      ValZero(n - 1);
    }
  }

  /** The double loop: t becomes the product of the two limb polynomials. */
  method Multiply(a: seq<int64>, b: seq<int64>) returns (t: array<int64>)
    requires |a| == 16 && |b| == 16 && Within(a, 0x400_0000) && Within(b, 0x400_0000)
    ensures fresh(t) && t.Length == 31
    ensures Val(t[..]) == Val(a) * Val(b)
    ensures Within(t[..], 0x100_0000_0000_0001)
  {
    hide Val;
    t := new int64[31](_ => 0);
    assert t[..] == seq(31, _ => 0);
    ValZero(31);
    assert Val(a[..0]) == 0 by { ValZero(0); assert a[..0] == seq(0, _ => 0); }
    for i := 0 to 16
      invariant Val(t[..]) == Val(a[..i]) * Val(b)
      invariant forall k :: 0 <= k < 31 ==> -i * 0x10_0000_0000_0000 <= t[k] <= i * 0x10_0000_0000_0000
    {
      assert Val(b[..0]) == 0 by { ValZero(0); assert b[..0] == seq(0, _ => 0); }
      for j := 0 to 16
        invariant Val(t[..]) == Val(a[..i]) * Val(b) + (a[i] * PowB(i)) * Val(b[..j])
        invariant forall k :: 0 <= k < i + j ==> -(i + 1) * 0x10_0000_0000_0000 <= t[k] <= (i + 1) * 0x10_0000_0000_0000
        invariant forall k :: i + j <= k < 31 ==> -i * 0x10_0000_0000_0000 <= t[k] <= i * 0x10_0000_0000_0000
      {
        ProductBound(a[i], b[j]);
        var x: int64 := a[i] * b[j];
        ghost var before := t[..];
        t[i + j] := t[i + j] + x;
        assert t[..] == before[i + j := before[i + j] + x];
        ValUpdate(before, i + j, x);
        assert b[..j + 1] == b[..j] + [b[j]];
        RowStep(a[i], b[j], b[..j], i, j);
      }
      assert a[..i + 1] == a[..i] + [a[i]] && b[..16] == b;
      ColumnStep(a[i], a[..i], Val(b), i);
    }
    assert a[..16] == a;
  }

  lemma ProductBound(x: int, y: int)
    requires -0x400_0000 < x < 0x400_0000 && -0x400_0000 < y < 0x400_0000
    ensures -0x10_0000_0000_0000 < x * y < 0x10_0000_0000_0000
  {
    assert x * y <= 0x10_0000_0000_0000 - 1 && x * y >= -(0x10_0000_0000_0000 - 1) by {
      MulMagnitude(x, y, 0x3FF_FFFF);
    }
  }

  lemma MulMagnitude(x: int, y: int, m: int)
    requires -m <= x <= m && -m <= y <= m
    ensures -(m * m) <= x * y <= m * m
  {
    assert 0 <= (m - x) * (m + y) && 0 <= (m + x) * (m - y);
    assert 0 <= (m - x) * (m - y) && 0 <= (m + x) * (m + y);
    assert (m - x) * (m + y) + (m + x) * (m - y) == 2 * (m * m) - 2 * (x * y);
    assert (m - x) * (m - y) + (m + x) * (m + y) == 2 * (m * m) + 2 * (x * y);
  }

  lemma RowStep(x: int, y: int, b: seq<int>, i: nat, j: nat)
    requires |b| == j
    ensures (x * PowB(i)) * Val(b) + (x * y) * PowB(i + j) == (x * PowB(i)) * Val(b + [y])
  {
    hide Val, PowB;
    ValAppend(b, [y]);
    ValSingle(y);
    PowBAdd(i, j);
    RowAlgebra(x, y, PowB(i), PowB(j), Val(b));
  }

  lemma RowAlgebra(x: int, y: int, p: int, q: int, v: int)
    ensures (x * p) * v + (x * y) * (p * q) == (x * p) * (v + q * y)
  {
    assert (x * y) * (p * q) == (x * p) * (q * y);
  }

  lemma ColumnStep(x: int, a: seq<int>, v: int, i: nat)
    requires |a| == i
    ensures Val(a) * v + (x * PowB(i)) * v == Val(a + [x]) * v
  {
    hide Val, PowB;
    ValAppend(a, [x]);
    ValSingle(x);
  }

  /** t[i] += 38 * t[i + 16]: 2^256 is folded to 38 limb by limb. */
  lemma {:induction false} FoldVal(lo: seq<int>, hi: seq<int>, o: seq<int>)
    requires |lo| == |o| && |hi| <= |lo|
    requires forall i :: 0 <= i < |lo| ==> o[i] == if i < |hi| then lo[i] + 38 * hi[i] else lo[i]
    ensures Val(o) == Val(lo) + 38 * Val(hi)
  {
    if hi == [] {
      assert o == lo;
    } else {
      FoldVal(lo[1..], hi[1..], o[1..]);
    }
  }

  lemma FoldCongruent(t: seq<int>, o: seq<int>)
    requires |t| == 31 && |o| == 16
    requires forall i :: 0 <= i < 15 ==> o[i] == t[i] + 38 * t[i + 16]
    requires o[15] == t[15]
    ensures Val(o) % P == Val(t) % P
  {
    hide Val;
    var lo, hi := t[..16], t[16..];
    assert t == lo + hi;
    ValAppend(lo, hi);
    PowB16();
    assert forall i :: 0 <= i < 15 ==> hi[i] == t[i + 16];
    assert forall i :: 0 <= i < 15 ==> o[i] == lo[i] + 38 * hi[i];
    FoldVal(lo, hi, o);
    CongruentByMultiple(Val(t), Val(o), P, 2 * Val(hi));
  }

  /** Two carry passes bring any value of product size back to the reduced form. */
  lemma TwoCarries(s: seq<int>)
    requires |s| == 16 && Within(s, 0x4000_0000_0000_0000)
    ensures Within(Carried(Val(s)), 0x4000_0000_0000_0000)
    ensures Reduced(Carried(Val(Carried(Val(s)))))
    ensures Val(Carried(Val(Carried(Val(s))))) % P == Val(s) % P
  {
    hide Val, Carried;
    var v := Val(s);
    ValMagnitude(s, 0x4000_0000_0000_0000);
    PowB16();
    assert -0x8000_0000_0000 <= v / TWO256 <= 0x8000_0000_0000;
    CarriedRange(v);
    CarriedVal(v);
    WithinOfTail(Carried(v), 0x4000_0000_0000_0000);
    var w := Val(Carried(v));
    CarriedRange(w);
    CarriedVal(w);
    assert -1 <= w / TWO256 <= 1;
  }

  lemma WithinOfTail(s: seq<int>, bound: int)
    requires |s| == 16 && bound >= B && InRange(s[1..]) && -bound < s[0] < bound
    ensures Within(s, bound)
  {
    forall i | 0 <= i < |s|
      ensures -bound < s[i] < bound
    {
      if i > 0 {
        assert s[i] == s[1..][i - 1];
      }
    }
  }

  /** The sixteen folded sums, each still inside 62 bits. */
  method Fold(o: array<int64>, t: array<int64>)
    requires o.Length == 16 && t.Length == 31 && o != t && Within(t[..], 0x100_0000_0000_0001)
    modifies o, t
    ensures Within(o[..], 0x4000_0000_0000_0000)
    ensures Val(o[..]) % P == Val(old(t[..])) % P
  {
    hide Val;
    ghost var t0 := t[..];
    for i := 0 to 15
      invariant forall k :: 0 <= k < i ==> t[k] == t0[k] + 38 * t0[k + 16]
      invariant forall k :: i <= k < 31 ==> t[k] == t0[k]
    {
      assert t[i] == t0[i] && t[i + 16] == t0[i + 16];
      t[i] := t[i] + 38 * t[i + 16];
    }
    for i := 0 to 16
      invariant forall k :: 0 <= k < i ==> o[k] == t[k]
      invariant forall k :: 0 <= k < 15 ==> t[k] == t0[k] + 38 * t0[k + 16]
      invariant t[15] == t0[15]
    {
      o[i] := t[i];
    }
    FoldCongruent(t0, o[..]);
    forall i | 0 <= i < 16
      ensures -0x4000_0000_0000_0000 < o[i] < 0x4000_0000_0000_0000
    {
      assert -0x100_0000_0000_0001 < t0[i] < 0x100_0000_0000_0001;
      if i < 15 {
        assert -0x100_0000_0000_0001 < t0[i + 16] < 0x100_0000_0000_0001;
      }
    }
  }

  /** Field multiplication: no 64-bit overflow, a reduced result congruent to the product. The arrays may coincide. */
  method M(o: array<int64>, a: array<int64>, b: array<int64>)
    requires o.Length == a.Length == b.Length == 16
    requires Within(a[..], 0x400_0000) && Within(b[..], 0x400_0000)
    modifies o
    ensures Reduced(o[..])
    ensures Val(o[..]) % P == (Val(old(a[..])) * Val(old(b[..]))) % P
  {
    hide Val, Reduced, Within, Carried;
    var t := Multiply(a[..], b[..]);
    Fold(o, t);
    TwoCarries(o[..]);
    Car(o);
    Car(o);
  }
}
