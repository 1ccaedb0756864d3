/** Canonical packing of field elements. */
module Ed25519Pack {
  import opened Bytes
  import opened Modular
  import opened Ed25519Field
  import Ed25519Curve
  import Bits

  /** Masked swap: with b = 1 the two elements are exchanged, with b = 0 they stay. */
  method Sel(p: array<int64>, q: array<int64>, b: int)
    requires p.Length == q.Length == 16 && p != q && (b == 0 || b == 1)
    modifies p, q
    ensures p[..] == if b == 1 then old(q[..]) else old(p[..])
    ensures q[..] == if b == 1 then old(p[..]) else old(q[..])
  {
    hide Bits.Xor, Bits.And;
    var c := Bits.Not(b - 1);
    for i := 0 to 16
      invariant forall k :: 0 <= k < i ==> p[k] == if b == 1 then old(q[k]) else old(p[k])
      invariant forall k :: 0 <= k < i ==> q[k] == if b == 1 then old(p[k]) else old(q[k])
      invariant forall k :: i <= k < 16 ==> p[k] == old(p[k]) && q[k] == old(q[k])
    {
      var t := Bits.And(c, Bits.Xor(p[i], q[i]));
      XorSwap(p[i], q[i], b);
      p[i] := Bits.Xor(p[i], t);
      q[i] := Bits.Xor(q[i], t);
    }
  }

  lemma XorSwap(x: int, y: int, b: int)
    requires b == 0 || b == 1
    ensures var t := Bits.And(Bits.Not(b - 1), Bits.Xor(x, y));
            && Bits.Xor(x, t) == (if b == 1 then y else x)
            && Bits.Xor(y, t) == (if b == 1 then x else y)
  {
    if b == 1 {
      MaskAll(Bits.Xor(x, y));
      hide Bits.Xor, Bits.And;
      Bits.XorComm(x, y);
      Bits.XorCancel(y, x);
      Bits.XorCancel(x, y);
      Bits.XorComm(x, Bits.Xor(x, y));
      Bits.XorComm(y, Bits.Xor(x, y));
    } else {
      MaskAll(Bits.Xor(x, y));
      hide Bits.Xor, Bits.And;
      Bits.XorZero(x);
      Bits.XorZero(y);
    }
  }

  lemma MaskAll(y: int)
    ensures Bits.And(Bits.Not(0), y) == y && Bits.And(Bits.Not(-1), y) == 0
  {
  }

  const PDigits: seq<int> := [0xffed, 0xffff, 0xffff, 0xffff, 0xffff, 0xffff, 0xffff, 0xffff,
                              0xffff, 0xffff, 0xffff, 0xffff, 0xffff, 0xffff, 0xffff, 0x7fff]

  lemma PDigitsVal()
    ensures Val(PDigits) == P
  {
    hide Val;
    Ed25519Curve.ValUnroll(PDigits);
  }

  /** Masking and shifting a limb difference in [-2^16, 2^16) splits off its borrow. */
  lemma Borrow(x: int)
    requires -0x1_0000 <= x < 0x1_0000
    ensures Bits.And(x, 0xffff) == (if x < 0 then x + B else x)
    ensures Bits.And(x / B, 1) == (if x < 0 then 1 else 0)
  {
    hide Bits.And;
    Bits.Pow2Values();
    Bits.AndLowMask(x, 16);
    Bits.AndLowMask(x / B, 1);
  }

  /** m := t - p with borrows; the borrow out of the top limb says that t < p. */
  method TrySubtract(t: array<int64>, m: array<int64>) returns (borrow: int)
    requires t.Length == m.Length == 16 && t != m && InRange(t[..])
    modifies m
    ensures borrow == if Val(t[..]) < P then 1 else 0
    ensures borrow == 0 ==> InRange(m[..]) && Val(m[..]) == Val(t[..]) - P
  {
    hide Val, Bits.And;
    m[0] := t[0] - 0xffed;
    assert m[..1] == [m[0]] && t[..1] == [t[0]] && PDigits[..1] == [0xffed];
    ValSingle(m[0]);
    ValSingle(t[0]);
    ValSingle(0xffed);
    for i := 1 to 15
      invariant InRange(m[..i - 1]) && -0x1_0000 <= m[i - 1] < 0x1_0000
      invariant Val(m[..i]) == Val(t[..i]) - Val(PDigits[..i])
    {
      Borrow(m[i - 1]);
      ghost var m0 := m[..i];
      m[i] := t[i] - 0xffff - Bits.And(m[i - 1] / B, 1);
      m[i - 1] := Bits.And(m[i - 1], 0xffff);
      assert t[..i + 1][..i] == t[..i];
      BorrowStep(m0, m[..i + 1], t[..i + 1], i, if m0[i - 1] < 0 then 1 else 0);
    }
    Borrow(m[14]);
    ghost var m0 := m[..15];
    m[15] := t[15] - 0x7fff - Bits.And(m[14] / B, 1);
    Borrow(m[15]);
    borrow := Bits.And(m[15] / B, 1);
    m[14] := Bits.And(m[14], 0xffff);
    assert m[..16] == m[..] && t[..16] == t[..] && PDigits[..16] == PDigits;
    assert t[..16][..15] == t[..15];
    BorrowStep(m0, m[..16], t[..16], 15, if m0[14] < 0 then 1 else 0);
    TopBorrow(m[..], t[..]);
  }

  /** Masking limb i - 1 and taking its borrow c from limb i keeps the difference exact. */
  lemma BorrowStep(m0: seq<int>, m: seq<int>, t: seq<int>, i: nat, c: int)
    requires 1 <= i <= 15 && |m0| == i && |m| == |t| == i + 1
    requires m[..i - 1] == m0[..i - 1] && m[i - 1] == m0[i - 1] + B * c && m[i] == t[i] - PDigits[i] - c
    requires Val(m0) == Val(t[..i]) - Val(PDigits[..i])
    ensures Val(m) == Val(t) - Val(PDigits[..i + 1])
  {
    hide Val, PowB;
    ValSnoc(m, i);
    ValSnoc(t, i);
    ValSnoc(PDigits[..i + 1], i);
    ValSnoc(m[..i], i - 1);
    ValSnoc(m0, i - 1);
    PowBNext(i - 1);
    assert m[..i][..i - 1] == m[..i - 1] && PDigits[..i + 1][..i] == PDigits[..i];
    BorrowFinal(PowB(i - 1), c, t[i], PDigits[i], m0[i - 1], Val(m[..i - 1]), m[i - 1], m[i],
                Val(m[..i]), Val(m), Val(m0), Val(t[..i]), Val(t), Val(PDigits[..i]), Val(PDigits[..i + 1]));
  }

  lemma BorrowFinal(p: int, c: int, x: int, y: int, z: int, low: int, mask: int, top: int,
                    vmi: int, vm: int, vm0: int, vti: int, vt: int, vpi: int, vp: int)
    requires mask == z + B * c && top == x - y - c
    requires vmi == low + p * mask && vm == vmi + (B * p) * top && vm0 == low + p * z
    requires vt == vti + (B * p) * x && vp == vpi + (B * p) * y && vm0 == vti - vpi
    ensures vm == vt - vp
  {
    BorrowAlgebra(p, c, x, y, z);
  }

  lemma ValSnoc(s: seq<int>, i: nat)
    requires |s| == i + 1
    ensures Val(s) == Val(s[..i]) + PowB(i) * s[i]
  {
    hide Val, PowB;
    assert s == s[..i] + [s[i]];
    ValAppend(s[..i], [s[i]]);
    ValSingle(s[i]);
  }

  lemma PowBNext(n: nat)
    ensures PowB(n + 1) == B * PowB(n)
  {
  }

  lemma BorrowAlgebra(p: int, c: int, x: int, y: int, z: int)
    ensures p * (z + B * c) + (B * p) * (x - y - c) == p * z + (B * p) * x - (B * p) * y
  {
  }

  lemma TopBorrow(m: seq<int>, t: seq<int>)
    requires |m| == 16 && |t| == 16 && InRange(m[..15]) && -0x1_0000 <= m[15] < 0x1_0000
    requires Val(m) == Val(t) - Val(PDigits)
    ensures m[15] < 0 <==> Val(t) < P
    ensures m[15] >= 0 ==> InRange(m) && Val(m) == Val(t) - P
  {
    hide Val, PowB;
    PDigitsVal();
    ValSnoc(m, 15);
    ValBound(m[..15]);
    SignOfProduct(PowB(15), m[15]);
  }

  lemma SignOfProduct(p: int, x: int)
    requires p > 0
    ensures x < 0 ==> p * x <= -p
    ensures x >= 0 ==> p * x >= 0
  {
  }

  /////////////////////////////////////////////////////////////////////////////
  // Packing and unpacking
  /////////////////////////////////////////////////////////////////////////////

  /** Three carry passes leave sixteen proper digits of a number congruent to the input. */
  lemma ThreeCarries(s: seq<int>)
    requires |s| == 16 && Within(s, 0x400_0000)
    ensures var c1 := Carried(Val(s)); var c2 := Carried(Val(c1)); var c3 := Carried(Val(c2));
            && Within(c1, 0x4000_0000_0000_0000) && Within(c2, 0x4000_0000_0000_0000)
            && InRange(c3) && Val(c3) % P == Val(s) % P
  {
    hide Val, Carried;
    FirstCarry(s);
    SecondCarry(Val(Carried(Val(s))));
    ThirdCarry(Val(Carried(Val(Carried(Val(s))))));
  }

  lemma FirstCarry(s: seq<int>)
    requires |s| == 16 && Within(s, 0x400_0000)
    ensures var c := Carried(Val(s));
            Within(c, 0x4000_0000_0000_0000) && -0xA000 < Val(c) < TWO256 + 0xA000 && Val(c) % P == Val(s) % P
  {
    hide Val, Carried;
    var v := Val(s);
    ValMagnitude(s, 0x400_0000);
    PowB16();
    assert -0x401 <= v / TWO256 <= 0x401;
    CarriedRange(v);
    CarriedVal(v);
    WithinOfTail(Carried(v), 0x4000_0000_0000_0000);
  }

  lemma SecondCarry(w: int)
    requires -0xA000 < w < TWO256 + 0xA000
    ensures var c := Carried(w);
            Within(c, 0x4000_0000_0000_0000) && 0 <= Val(c) < TWO256 && Val(c) % P == w % P
  {
    hide Val, Carried;
    CarriedRange(w);
    CarriedVal(w);
    WithinOfTail(Carried(w), 0x4000_0000_0000_0000);
  }

  lemma ThirdCarry(x: int)
    requires 0 <= x < TWO256
    ensures InRange(Carried(x)) && Val(Carried(x)) % P == x % P
  {
    hide Val, Carried;
    CarriedRange(x);
    CarriedVal(x);
    InRangeOfTail(Carried(x));
  }

  lemma InRangeOfTail(s: seq<int>)
    requires |s| == 16 && InRange(s[1..]) && 0 <= s[0] < B
    ensures InRange(s)
  {
    forall i | 0 <= i < |s|
      ensures 0 <= s[i] < B
    {
      if i > 0 {
        assert s[i] == s[1..][i - 1];
      }
    }
  }

  /** Two conditional subtractions suffice below 2^256: the limbs end as the representative in [0, p). */
  method Canonical(n: array<int64>) returns (t: array<int64>)
    requires n.Length == 16 && Within(n[..], 0x400_0000)
    ensures fresh(t) && t.Length == 16 && InRange(t[..])
    ensures Val(t[..]) == Val(n[..]) % P
  {
    hide Val, Within, InRange, Carried;
    var m := new int64[16];
    t := new int64[16];
    Ed25519Curve.Copy(t, n);
    ghost var v := Val(n[..]);
    ThreeCarries(n[..]);
    SmallWithin(t[..]);
    Car(t);
    Car(t);
    Car(t);
    for j := 0 to 2
      invariant fresh(t) && fresh(m) && InRange(t[..]) && t.Length == m.Length == 16 && t != m
      invariant Val(t[..]) % P == v % P
      invariant j == 1 ==> Val(t[..]) < P + 38
      invariant j == 2 ==> Val(t[..]) < P
    {
      DigitsBound(t[..]);
      var borrow := TrySubtract(t, m);
      OneSubtraction(Val(t[..]));
      Sel(t, m, 1 - borrow);
    }
    DigitsBound(t[..]);
    SmallMod(Val(t[..]), P);
  }

  lemma SmallWithin(s: seq<int>)
    requires Within(s, 0x400_0000)
    ensures Within(s, 0x4000_0000_0000_0000)
  {
  }

  lemma DigitsBound(s: seq<int>)
    requires InRange(s) && |s| == 16
    ensures 0 <= Val(s) < TWO256
  {
    ValBound(s);
    PowB16();
  }

  lemma OneSubtraction(v: int)
    ensures (v - P) % P == v % P
    ensures 0 <= v < TWO256 ==> v - P < P + 38
  {
    CongruentByMultiple(v - P, v, P, -1);
  }

  /** The 32 bytes of sixteen digits, two per digit, denote the same number. */
  lemma {:induction false} BytesOfDigits(t: seq<int>, o: seq<byte>)
    requires |o| == 2 * |t| && InRange(t)
    requires forall i :: 0 <= i < |t| ==> o[2 * i] == t[i] % 256 && o[2 * i + 1] == t[i] / 256
    ensures LE(o) == Val(t)
  {
    if t == [] {
    } else {
      assert o[1..][1..] == o[2..];
      forall i | 0 <= i < |t| - 1
        ensures o[2..][2 * i] == t[1..][i] % 256 && o[2..][2 * i + 1] == t[1..][i] / 256
      {
        assert o[2..][2 * i] == o[2 * (i + 1)] && o[2..][2 * i + 1] == o[2 * (i + 1) + 1];
      }
      BytesOfDigits(t[1..], o[2..]);
      assert LE(o) == o[0] + 256 * (o[1] + 256 * LE(o[2..]));
      assert o[2 * 0] == t[0] % 256 && o[2 * 0 + 1] == t[0] / 256;
    }
  }

  /** Packing writes the canonical little-endian representative. */
  method Pack25519(o: array<byte>, n: array<int64>)
    requires o.Length == 32 && n.Length == 16 && Within(n[..], 0x400_0000) && o as object != n
    modifies o
    ensures LE(o[..]) == Val(n[..]) % P
  {
    hide Val, Within, LE, Bits.And;
    var t := Canonical(n);
    ghost var digits := t[..];
    for i := 0 to 16
      invariant t[..] == digits
      invariant forall k :: 0 <= k < i ==> o[2 * k] == t[k] % 256 && o[2 * k + 1] == t[k] / 256
    {
      assert 0 <= t[i] < B;
      Bits.LowByte(t[i]);
      o[2 * i] := Bits.And(t[i], 0xff);
      o[2 * i + 1] := t[i] / 256;
    }
    BytesOfDigits(t[..], o[..]);
  }

  /** Unpacking reads 32 bytes and drops the top bit, which carries the sign of x in a packed point. */
  method Unpack25519(o: array<int64>, n: array<byte>)
    requires o.Length == 16 && n.Length == 32 && o as object != n
    modifies o
    ensures InRange(o[..]) && Val(o[..]) == LE(n[..]) % (P + 19)
  {
    hide Val, LE, Bits.And;
    ghost var bytes := n[..];
    for i := 0 to 16
      invariant n[..] == bytes
      invariant forall k :: 0 <= k < i ==> 0 <= o[k] < B && bytes[2 * k] == o[k] % 256 && bytes[2 * k + 1] == o[k] / 256
    {
      var lo: int, hi: int := n[2 * i], n[2 * i + 1];
      assert lo == bytes[2 * i] && hi == bytes[2 * i + 1];
      o[i] := lo + 256 * hi;
    }
    ghost var digits := o[..];
    BytesOfDigits(digits, bytes);
    TopBit(digits);
    o[15] := Bits.And(o[15], 0x7fff);
    assert o[..] == digits[15 := Bits.And(digits[15], 0x7fff)];
  }

  lemma TopBit(d: seq<int>)
    requires |d| == 16 && InRange(d)
    ensures 0 <= Bits.And(d[15], 0x7fff) < B
    ensures Val(d[15 := Bits.And(d[15], 0x7fff)]) == Val(d) % (P + 19)
  {
    hide Val, PowB, Bits.And;
    Bits.Pow2Values();
    Bits.Pow2Add(14, 1);
    Bits.AndLowMask(d[15], 15);
    var x, y := d[15], d[15] % 0x8000;
    ValUpdate(d, 15, y - x);
    ValBound(d[15 := y]);
    PowB16();
    PowBNext(15);
    ValSnoc(d[15 := y], 15);
    ValBound(d[..15]);
    assert d[15 := y][..15] == d[..15];
    TopBitAlgebra(Val(d), Val(d[15 := y]), Val(d[..15]), PowB(15), x, y);
  }

  lemma TopBitAlgebra(v: int, w: int, low: int, p: int, x: int, y: int)
    requires p * B == TWO256 && 0 <= x < B && y == x % 0x8000 && 0 <= low < p
    requires w == low + p * y && w == v + (y - x) * p
    ensures w == v % (P + 19)
  {
    assert p * 0x8000 == P + 19;
    assert (y - x) * p == -(P + 19) * (x / 0x8000);
    assert p * y <= p * 0x7fff;
    Bits.DivModUnique(v, P + 19, x / 0x8000, w);
  }

  /** A canonical representative survives packing and unpacking. */
  lemma UnpackOfPack(v: int, bytes: seq<byte>)
    requires LE(bytes) == v % P
    ensures LE(bytes) % (P + 19) == v % P
  {
    hide LE;
    SmallMod(v % P, P + 19);
  }

  /** Comparing packed forms decides inequality modulo p. */
  method Neq25519(a: array<int64>, b: array<int64>) returns (differ: bool)
    requires a.Length == b.Length == 16 && Within(a[..], 0x400_0000) && Within(b[..], 0x400_0000)
    ensures differ <==> Val(a[..]) % P != Val(b[..]) % P
  {
    hide Val, Within, LE;
    var c, d := new byte[32], new byte[32];
    Pack25519(c, a);
    Pack25519(d, b);
    if LE(c[..]) == LE(d[..]) {
      LEInjective(c[..], d[..]);
    }
    differ := c[..] != d[..];
  }

  /** The parity bit of the canonical representative. */
  method Par25519(a: array<int64>) returns (bit: int)
    requires a.Length == 16 && Within(a[..], 0x400_0000)
    ensures bit == (Val(a[..]) % P) % 2
  {
    hide Val, Within, Bits.And;
    var d := new byte[32];
    Pack25519(d, a);
    Bits.Pow2Values();
    Bits.AndLowMask(d[0], 1);
    bit := Bits.And(d[0], 1);
    assert LE(d[..]) == d[0] + 256 * LE(d[..][1..]);
  }
}
