/** Fixed exponent chains and point addition over the field arithmetic. */
module Ed25519Curve {
  import opened Bytes
  import opened Modular
  import opened Ed25519Field
  import Bits

  /////////////////////////////////////////////////////////////////////////////
  // Exponent chains
  /////////////////////////////////////////////////////////////////////////////

  lemma {:induction false} PowAdd(a: int, m: nat, n: nat)
    ensures Pow(a, m + n) == Pow(a, m) * Pow(a, n)
  {
    if m > 0 {
      PowAdd(a, m - 1, n);
      MulAssoc(a, Pow(a, m - 1), Pow(a, n));
    }
  }

  /** Squaring doubles the exponent. */
  lemma SquareStep(c: int, d: int, a: int, e: nat)
    requires c % P == Pow(a, e) % P && d % P == (c * c) % P
    ensures d % P == Pow(a, 2 * e) % P
  {
    hide Pow;
    PowAdd(a, e, e);
    MulCong2(c, Pow(a, e), c, Pow(a, e), P);
  }

  /** Multiplying by the base adds one to it. */
  lemma BaseStep(c: int, d: int, a: int, e: nat)
    requires c % P == Pow(a, e) % P && d % P == (c * a) % P
    ensures d % P == Pow(a, e + 1) % P
  {
    hide Pow;
    assert Pow(a, e + 1) == Pow(a, e) * a by { PowNext(a, e); }
    MulCong(c, Pow(a, e), a, P);
  }

  lemma PowNext(a: int, e: nat)
    ensures Pow(a, e + 1) == Pow(a, e) * a && Pow(a, 1) == a
  {
    assert Pow(a, 1) == a * Pow(a, 0);
  }

  method Copy(o: array<int64>, a: array<int64>)
    requires o.Length == a.Length == 16
    modifies o
    ensures o[..] == old(a[..])
  {
    for i := 0 to 16
      invariant forall k :: 0 <= k < i ==> o[k] == old(a[k])
      invariant forall k :: i <= k < 16 ==> a[k] == old(a[k])
    {
      o[i] := a[i];
    }
  }

  /** The exponent reached after bit i of the inversion chain; bits 2 and 4 are skipped. */
  function InvExponent(i: nat): int
    requires i <= 254
  {
    Bits.Pow2(255 - i) - 1 - Skipped(i)
  }

  /** What the two skipped bits are worth from bit i on. */
  function Skipped(i: nat): int {
    (if i <= 4 then Bits.Pow2(4 - i) else 0) + (if i <= 2 then Bits.Pow2(2 - i) else 0)
  }

  lemma SkippedStep(i: nat)
    ensures Skipped(i) == 2 * Skipped(i + 1) + (if i == 2 || i == 4 then 1 else 0)
    ensures 0 <= Skipped(i) <= 20 && (i > 4 ==> Skipped(i) == 0)
  {
    assert Bits.Pow2(0) == 1 && Bits.Pow2(1) == 2 && Bits.Pow2(2) == 4 && Bits.Pow2(3) == 8 && Bits.Pow2(4) == 16;
  }

  lemma InvExponentStep(i: nat)
    requires i <= 253
    ensures InvExponent(i) == 2 * InvExponent(i + 1) + (if i != 2 && i != 4 then 1 else 0)
    ensures InvExponent(i) >= 1
  {
    assert Bits.Pow2(255 - i) == 2 * Bits.Pow2(254 - i) && Bits.Pow2(254 - i) >= 1;
    SkippedStep(i);
    hide Skipped;
    if i <= 4 {
      Bits.Pow2Add(8, 247 - i);
      Bits.Pow2Values();
      hide Bits.Pow2;
      MulAtLeast(Bits.Pow2(8), Bits.Pow2(247 - i));
    }
  }

  lemma MulAtLeast(x: int, y: int)
    requires x >= 1 && y >= 1
    ensures x * y >= x && x * y >= y
  {
  }

  /** The inversion chain computes a^(2^255 - 21), that is a^(p - 2). */
  method Inv25519(o: array<int64>, a: array<int64>)
    requires o.Length == a.Length == 16 && Within(a[..], 0x400_0000)
    modifies o
    ensures Reduced(o[..])
    ensures Val(o[..]) % P == Pow(Val(old(a[..])), P - 2) % P
  {
    hide Val, Reduced, Within, Pow, InvExponent;
    ghost var v := Val(a[..]);
    var c := new int64[16];
    Copy(c, a);
    PowNext(v, 0);
    InvExponentEnds();
    for i := 254 downto 0
      invariant InvExponent(i) >= 1
      invariant a[..] == old(a[..])
      invariant Within(c[..], 0x400_0000) && (i < 254 ==> Reduced(c[..]))
      invariant Val(c[..]) % P == Pow(v, InvExponent(i)) % P
    {
      InvExponentStep(i);
      ghost var c0 := Val(c[..]);
      M(c, c, c);
      SquareStep(c0, Val(c[..]), v, InvExponent(i + 1));
      ReducedSmall(c[..]);
      if i != 2 && i != 4 {
        ghost var c1 := Val(c[..]);
        M(c, c, a);
        BaseStep(c1, Val(c[..]), v, 2 * InvExponent(i + 1));
        ReducedSmall(c[..]);
      }
    }
    Copy(o, c);
  }

  lemma ReducedSmall(s: seq<int>)
    requires Reduced(s)
    ensures Within(s, 0x400_0000)
  {
    ReducedWithin(s);
  }

  lemma InvExponentEnds()
    ensures InvExponent(254) == 1 && InvExponent(0) == P - 2
  {
    Pow2Of255();
    Bits.Pow2Values();
    assert Bits.Pow2(1) == 2;
  }

  lemma Pow2Of255()
    ensures Bits.Pow2(255) == P + 19
    ensures Bits.Pow2(252) == (P + 19) / 8
  {
    hide Bits.Pow2;
    Bits.Pow2Values();
    Bits.Pow2Add(32, 32);
    Bits.Pow2Add(64, 64);
    Bits.Pow2Add(128, 128);
    Bits.Pow2Add(1, 255);
    Bits.Pow2Add(3, 252);
  }

  /** The exponent reached after bit i of the square-root chain; bit 1 is skipped. */
  function RootExponent(i: nat): int
    requires i <= 251
  {
    Bits.Pow2(252 - i) - 1 - (if i <= 1 then Bits.Pow2(1 - i) else 0)
  }

  lemma RootExponentStep(i: nat)
    requires i <= 250
    ensures RootExponent(i) == 2 * RootExponent(i + 1) + (if i != 1 then 1 else 0)
    ensures RootExponent(i) >= 1
  {
    Bits.Pow2Add(1, 251 - i);
    Bits.Pow2Add(2, 250 - i);
    assert Bits.Pow2(1) == 2 && Bits.Pow2(2) == 4;
  }

  lemma RootExponentEnds()
    ensures RootExponent(251) == 1 && RootExponent(0) == (P - 5) / 8
  {
    Pow2Of255();
    assert Bits.Pow2(1) == 2;
  }

  /** The root chain computes a^(2^252 - 3), that is a^((p - 5) / 8). */
  method Pow2523(o: array<int64>, a: array<int64>)
    requires o.Length == a.Length == 16 && Within(a[..], 0x400_0000)
    modifies o
    ensures Reduced(o[..])
    ensures Val(o[..]) % P == Pow(Val(old(a[..])), (P - 5) / 8) % P
  {
    hide Val, Reduced, Within, Pow, RootExponent;
    ghost var v := Val(a[..]);
    var c := new int64[16];
    Copy(c, a);
    PowNext(v, 0);
    RootExponentEnds();
    for i := 251 downto 0
      invariant RootExponent(i) >= 1
      invariant a[..] == old(a[..])
      invariant Within(c[..], 0x400_0000) && (i < 251 ==> Reduced(c[..]))
      invariant Val(c[..]) % P == Pow(v, RootExponent(i)) % P
    {
      RootExponentStep(i);
      ghost var c0 := Val(c[..]);
      M(c, c, c);
      SquareStep(c0, Val(c[..]), v, RootExponent(i + 1));
      ReducedSmall(c[..]);
      if i != 1 {
        ghost var c1 := Val(c[..]);
        M(c, c, a);
        BaseStep(c1, Val(c[..]), v, 2 * RootExponent(i + 1));
        ReducedSmall(c[..]);
      }
    }
    Copy(o, c);
  }

  /////////////////////////////////////////////////////////////////////////////
  // Curve constants and point addition: section 5.1 of RFC 8032
  /////////////////////////////////////////////////////////////////////////////

  const D: seq<int64> := [0x78a3, 0x1359, 0x4dca, 0x75eb, 0xd8ab, 0x4141, 0x0a4d, 0x0070,
                          0xe898, 0x7779, 0x4079, 0x8cc7, 0xfe73, 0x2b6f, 0x6cee, 0x5203]
  const D2: seq<int64> := [0xf159, 0x26b2, 0x9b94, 0xebd6, 0xb156, 0x8283, 0x149a, 0x00e0,
                           0xd130, 0xeef3, 0x80f2, 0x198e, 0xfce7, 0x56df, 0xd9dc, 0x2406]
  const I: seq<int64> := [0xa0b0, 0x4a0e, 0x1b27, 0xc4ee, 0xe478, 0xad2f, 0x1806, 0x2f43,
                          0xd7a7, 0x3dfb, 0x0099, 0x2b4d, 0xdf0b, 0x4fc1, 0x2480, 0x2b83]

  lemma {:induction false} ValUnroll(s: seq<int>)
    requires |s| == 16
    ensures Val(s) == s[0] + B * (s[1] + B * (s[2] + B * (s[3] + B * (s[4] + B * (s[5] + B * (s[6] + B * (s[7]
           + B * (s[8] + B * (s[9] + B * (s[10] + B * (s[11] + B * (s[12] + B * (s[13] + B * (s[14] + B * s[15]))))))))))))))
  {
    hide Val;
    ValDrop(s, 0); ValDrop(s, 1); ValDrop(s, 2); ValDrop(s, 3); ValDrop(s, 4); ValDrop(s, 5); ValDrop(s, 6); ValDrop(s, 7);
    ValDrop(s, 8); ValDrop(s, 9); ValDrop(s, 10); ValDrop(s, 11); ValDrop(s, 12); ValDrop(s, 13); ValDrop(s, 14); ValDrop(s, 15);
    assert s[0..] == s && s[16..] == [];
    assert Val(s[16..]) == 0 by { ValEmpty(); }
  }

  lemma ValEmpty()
    ensures Val([]) == 0
  {
  }

  lemma ValDrop(s: seq<int>, i: nat)
    requires i < |s|
    ensures Val(s[i..]) == s[i] + B * Val(s[i + 1..])
  {
    assert s[i..][1..] == s[i + 1..];
  }

  /** d = -121665/121666, D2 = 2d and I^2 = -1, all modulo p. */
  lemma Constants()
    ensures (Val(D) * 121666 + 121665) % P == 0
    ensures Val(D2) % P == (2 * Val(D)) % P
    ensures (Val(I) * Val(I) + 1) % P == 0
  {
    hide Val;
    ValUnroll(D);
    ValUnroll(D2);
    ValUnroll(I);
  }

  /** A point in extended coordinates (X : Y : Z : T), up to congruence. */
  datatype Point = Point(x: int, y: int, z: int, t: int)

  predicate SamePoint(p: Point, q: Point) {
    p.x % P == q.x % P && p.y % P == q.y % P && p.z % P == q.z % P && p.t % P == q.t % P
  }

  /** The unified twisted Edwards addition with coefficient d. */
  function Sum(p: Point, q: Point, d: int): Point {
    var e, h := 2 * (p.x * q.y + q.x * p.y), 2 * (p.y * q.y + p.x * q.x);
    var f, g := 2 * (p.z * q.z) - 2 * (d * (p.t * q.t)), 2 * (p.z * q.z) + 2 * (d * (p.t * q.t));
    Point(e * f, h * g, g * f, e * h)
  }

  /** The sum again satisfies X*Y = Z*T, and its affine coordinates X/Z, Y/Z are those of the addition law
      x = (x1*y2 + x2*y1) / (1 + d*x1*x2*y1*y2), y = (y1*y2 + x1*x2) / (1 - d*x1*x2*y1*y2), cross-multiplied. */
  lemma SumLaw(p: Point, q: Point, d: int)
    ensures var r := Sum(p, q, d);
            && r.x * r.y == r.z * r.t
            && r.x * (2 * (p.z * q.z) + 2 * (d * (p.t * q.t))) == r.z * (2 * (p.x * q.y + q.x * p.y))
            && r.y * (2 * (p.z * q.z) - 2 * (d * (p.t * q.t))) == r.z * (2 * (p.y * q.y + p.x * q.x))
  {
    var e, h := 2 * (p.x * q.y + q.x * p.y), 2 * (p.y * q.y + p.x * q.x);
    var f, g := 2 * (p.z * q.z) - 2 * (d * (p.t * q.t)), 2 * (p.z * q.z) + 2 * (d * (p.t * q.t));
    FourFactors(e, f, g, h);
  }

  lemma FourFactors(e: int, f: int, g: int, h: int)
    ensures (e * f) * (h * g) == (g * f) * (e * h)
    ensures (e * f) * g == (g * f) * e && (h * g) * f == (g * f) * h
  {
  }

  ghost predicate IsPoint(p: seq<array<int64>>)
    reads p
  {
    && |p| == 4
    && (forall i :: 0 <= i < 4 ==> p[i].Length == 16)
    && (forall i, j :: 0 <= i < j < 4 ==> p[i] != p[j])
  }

  ghost function Coords(p: seq<array<int64>>): Point
    reads p
    requires |p| == 4
  {
    Point(Val(p[0][..]), Val(p[1][..]), Val(p[2][..]), Val(p[3][..]))
  }

  ghost predicate Bounded(p: seq<array<int64>>)
    reads p
    requires |p| == 4
  {
    && Within(p[0][..], 0x2_0000) && Within(p[1][..], 0x2_0000)
    && Within(p[2][..], 0x2_0000) && Within(p[3][..], 0x2_0000)
  }

  lemma CrossTerms(x1: int, y1: int, x2: int, y2: int)
    ensures (x1 + y1) * (x2 + y2) - (y1 - x1) * (y2 - x2) == 2 * (x1 * y2 + x2 * y1)
    ensures (x1 + y1) * (x2 + y2) + (y1 - x1) * (y2 - x2) == 2 * (y1 * y2 + x1 * x2)
  {
  }

  lemma SubCong(a: int, a': int, b: int, b': int, m: int)
    requires m > 0 && a % m == a' % m && b % m == b' % m
    ensures (a - b) % m == (a' - b') % m && (a + b) % m == (a' + b') % m
  {
    var k := MultipleOfCongruent(a, a', m);
    var l := MultipleOfCongruent(b, b', m);
    assert m * (k - l) == m * k - m * l && m * (k + l) == m * k + m * l;
    CongruentByMultiple(a - b, a' - b', m, k - l);
    CongruentByMultiple(a + b, a' + b', m, k + l);
  }

  /** a = (Y1 - X1)(Y2 - X2) and b = (X1 + Y1)(X2 + Y2), then e = b - a and h = b + a. */
  method SumDifference(x1: array<int64>, y1: array<int64>, x2: array<int64>, y2: array<int64>)
    returns (e: array<int64>, h: array<int64>)
    requires x1.Length == y1.Length == x2.Length == y2.Length == 16
    requires Within(x1[..], 0x2_0000) && Within(y1[..], 0x2_0000) && Within(x2[..], 0x2_0000) && Within(y2[..], 0x2_0000)
    ensures fresh(e) && fresh(h) && e != h && e.Length == h.Length == 16
    ensures Within(e[..], 0x4_0000) && Within(h[..], 0x4_0000)
    ensures Val(e[..]) % P == (2 * (Val(x1[..]) * Val(y2[..]) + Val(x2[..]) * Val(y1[..]))) % P
    ensures Val(h[..]) % P == (2 * (Val(y1[..]) * Val(y2[..]) + Val(x1[..]) * Val(x2[..]))) % P
  {
    hide Val, Reduced;
    var a, b, t := new int64[16], new int64[16], new int64[16];
    e, h := new int64[16], new int64[16];
    Z(a, y1, x1);
    Z(t, y2, x2);
    M(a, a, t);
    A(b, x1, y1);
    A(t, x2, y2);
    M(b, b, t);
    ReducedWithin(a[..]);
    ReducedWithin(b[..]);
    Z(e, b, a);
    A(h, b, a);
    ghost var vx1, vy1, vx2, vy2 := Val(x1[..]), Val(y1[..]), Val(x2[..]), Val(y2[..]);
    SubCong(Val(b[..]), (vx1 + vy1) * (vx2 + vy2), Val(a[..]), (vy1 - vx1) * (vy2 - vx2), P);
    CrossTerms(vx1, vy1, vx2, vy2);
  }

  /** c = T1*T2*2d and d = 2*Z1*Z2, then f = d - c and g = d + c. */
  method ProductTerms(t1: array<int64>, z1: array<int64>, t2: array<int64>, z2: array<int64>)
    returns (f: array<int64>, g: array<int64>)
    requires t1.Length == z1.Length == t2.Length == z2.Length == 16
    requires Within(t1[..], 0x2_0000) && Within(z1[..], 0x2_0000) && Within(t2[..], 0x2_0000) && Within(z2[..], 0x2_0000)
    ensures fresh(f) && fresh(g) && f != g && f.Length == g.Length == 16
    ensures Within(f[..], 0x4_0000) && Within(g[..], 0x4_0000)
    ensures Val(f[..]) % P == (2 * (Val(z1[..]) * Val(z2[..])) - 2 * (Val(D) * (Val(t1[..]) * Val(t2[..])))) % P
    ensures Val(g[..]) % P == (2 * (Val(z1[..]) * Val(z2[..])) + 2 * (Val(D) * (Val(t1[..]) * Val(t2[..])))) % P
  {
    hide Val, Reduced;
    var c, d := new int64[16], new int64[16];
    f, g := new int64[16], new int64[16];
    var d2 := new int64[16](i requires 0 <= i < 16 => D2[i]);
    assert d2[..] == D2;
    M(c, t1, t2);
    ReducedWithin(c[..]);
    ghost var c0 := Val(c[..]);
    M(c, c, d2);
    M(d, z1, z2);
    ReducedWithin(c[..]);
    ReducedWithin(d[..]);
    ghost var d0 := Val(d[..]);
    A(d, d, d);
    Z(f, d, c);
    A(g, d, c);
    TermsCong(Val(t1[..]) * Val(t2[..]), c0, Val(c[..]), Val(z1[..]) * Val(z2[..]), d0, Val(d[..]));
  }

  lemma TermsCong(tt: int, c0: int, c: int, zz: int, d0: int, d: int)
    requires c0 % P == tt % P && c % P == (c0 * Val(D2)) % P && d0 % P == zz % P && d == d0 + d0
    ensures (d - c) % P == (2 * zz - 2 * (Val(D) * tt)) % P
    ensures (d + c) % P == (2 * zz + 2 * (Val(D) * tt)) % P
  {
    Constants();
    hide Val;
    MulCong2(c0, tt, Val(D2), 2 * Val(D), P);
    assert tt * (2 * Val(D)) == 2 * (Val(D) * tt);
    SubCong(d0, zz, d0, zz, P);
    SubCong(d, 2 * zz, c, 2 * (Val(D) * tt), P);
  }

  /** Point addition, also of a point to itself: every product meets its 2^26 limb bound, the coordinates come out
      reduced, and the point is the unified sum. */
  method PtAdd(p: seq<array<int64>>, q: seq<array<int64>>)
    requires IsPoint(p) && IsPoint(q) && Bounded(p) && Bounded(q)
    modifies p[0], p[1], p[2], p[3]
    ensures IsPoint(p) && Reduced(p[0][..]) && Reduced(p[1][..]) && Reduced(p[2][..]) && Reduced(p[3][..])
    ensures SamePoint(Coords(p), Sum(old(Coords(p)), old(Coords(q)), Val(D)))
  {
    hide Val, Reduced, Sum, Within;
    ghost var u, v := Coords(p), Coords(q);
    var e, h := SumDifference(p[0], p[1], q[0], q[1]);
    var f, g := ProductTerms(p[3], p[2], q[3], q[2]);
    SmallFactors(e[..]);
    SmallFactors(f[..]);
    SmallFactors(g[..]);
    SmallFactors(h[..]);
    ghost var ve, vf, vg, vh := Val(e[..]), Val(f[..]), Val(g[..]), Val(h[..]);
    M(p[0], e, f);
    M(p[1], h, g);
    M(p[2], g, f);
    M(p[3], e, h);
    SumFromTerms(u, v, ve, vf, vg, vh, Coords(p));
  }

  lemma SmallFactors(s: seq<int>)
    requires Within(s, 0x4_0000)
    ensures Within(s, 0x400_0000)
  {
  }

  lemma SumFromTerms(u: Point, v: Point, e: int, f: int, g: int, h: int, r: Point)
    requires e % P == (2 * (u.x * v.y + v.x * u.y)) % P && h % P == (2 * (u.y * v.y + u.x * v.x)) % P
    requires f % P == (2 * (u.z * v.z) - 2 * (Val(D) * (u.t * v.t))) % P
    requires g % P == (2 * (u.z * v.z) + 2 * (Val(D) * (u.t * v.t))) % P
    requires r.x % P == (e * f) % P && r.y % P == (h * g) % P && r.z % P == (g * f) % P && r.t % P == (e * h) % P
    ensures SamePoint(r, Sum(u, v, Val(D)))
  {
    hide Val;
    var e', h' := 2 * (u.x * v.y + v.x * u.y), 2 * (u.y * v.y + u.x * v.x);
    var f', g' := 2 * (u.z * v.z) - 2 * (Val(D) * (u.t * v.t)), 2 * (u.z * v.z) + 2 * (Val(D) * (u.t * v.t));
    MulCong2(e, e', f, f', P);
    MulCong2(h, h', g, g', P);
    MulCong2(g, g', f, f', P);
    MulCong2(e, e', h, h', P);
  }
}
