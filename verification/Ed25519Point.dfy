/** Points in limbs: scalar multiplication, decoding and encoding. */
module Ed25519Point {
  import opened Bytes
  import opened Modular
  import opened Ed25519Field
  import opened Ed25519Curve
  import opened Ed25519Pack
  import opened Ed25519Group
  import Bits
  import PrimeField

  /////////////////////////////////////////////////////////////////////////////
  // Scalar multiplication
  /////////////////////////////////////////////////////////////////////////////

  ghost predicate TwoPoints(p: seq<array<int64>>, q: seq<array<int64>>)
    reads p, q
  {
    IsPoint(p) && IsPoint(q) && forall i, j :: 0 <= i < 4 && 0 <= j < 4 ==> p[i] != q[j]
  }

  /** Masked exchange of two points. */
  method Cswap(p: seq<array<int64>>, q: seq<array<int64>>, b: int)
    requires TwoPoints(p, q) && (b == 0 || b == 1)
    modifies p[0], p[1], p[2], p[3], q[0], q[1], q[2], q[3]
    ensures forall i :: 0 <= i < 4 ==> p[i][..] == if b == 1 then old(q[i][..]) else old(p[i][..])
    ensures forall i :: 0 <= i < 4 ==> q[i][..] == if b == 1 then old(p[i][..]) else old(q[i][..])
  {
    Sel(p[0], q[0], b);
    Sel(p[1], q[1], b);
    Sel(p[2], q[2], b);
    Sel(p[3], q[3], b);
  }

  method SetSmall(o: array<int64>, v: int64)
    requires o.Length == 16 && 0 <= v <= 1
    modifies o
    ensures Val(o[..]) == v && Within(o[..], 2)
  {
    for i := 0 to 16
      invariant forall k :: 0 <= k < i ==> o[k] == if k == 0 then v else 0
    {
      o[i] := if i == 0 then v else 0;
    }
    ValZero(15);
    assert o[..][1..] == seq(15, _ => 0);
  }

  lemma TinyWithin(s: seq<int>)
    requires Within(s, 2)
    ensures Within(s, 0x2_0000)
  {
  }

  lemma SumCong(p: Point, p': Point, q: Point, q': Point)
    requires SamePoint(p, p') && SamePoint(q, q')
    ensures SamePoint(Sum(p, q, Val(D)), Sum(p', q', Val(D)))
  {
    hide Val;
    CongMul(p.x, p'.x, q.y, q'.y);
    CongMul(q.x, q'.x, p.y, p'.y);
    CongMul(p.y, p'.y, q.y, q'.y);
    CongMul(p.x, p'.x, q.x, q'.x);
    CongMul(p.z, p'.z, q.z, q'.z);
    CongMul(p.t, p'.t, q.t, q'.t);
    SumOfProducts(p.x * q.y, p'.x * q'.y, q.x * p.y, q'.x * p'.y, p.y * q.y, p'.y * q'.y, p.x * q.x, p'.x * q'.x,
                  p.z * q.z, p'.z * q'.z, p.t * q.t, p'.t * q'.t, Val(D));
  }

  /** The four coordinates from the six products of the formula. */
  lemma SumOfProducts(a: int, a': int, b: int, b': int, c: int, c': int, k: int, k': int, m: int, m': int, t: int, t': int, d: int)
    requires Cong(a, a') && Cong(b, b') && Cong(c, c') && Cong(k, k') && Cong(m, m') && Cong(t, t')
    ensures var e, h, f, g := 2 * (a + b), 2 * (c + k), 2 * m - 2 * (d * t), 2 * m + 2 * (d * t);
            var e', h', f', g' := 2 * (a' + b'), 2 * (c' + k'), 2 * m' - 2 * (d * t'), 2 * m' + 2 * (d * t');
            Cong(e * f, e' * f') && Cong(h * g, h' * g') && Cong(g * f, g' * f') && Cong(e * h, e' * h')
  {
    hide Cong;
    Reflexive(2);
    Reflexive(d);
    CongAdd(a, a', b, b');
    CongAdd(c, c', k, k');
    CongMul(2, 2, a + b, a' + b');
    CongMul(2, 2, c + k, c' + k');
    CongMul(2, 2, m, m');
    CongMul(d, d, t, t');
    CongMul(2, 2, d * t, d * t');
    CongAdd(2 * m, 2 * m', 2 * (d * t), 2 * (d * t'));
    CongMul(2 * (a + b), 2 * (a' + b'), 2 * m - 2 * (d * t), 2 * m' - 2 * (d * t'));
    CongMul(2 * (c + k), 2 * (c' + k'), 2 * m + 2 * (d * t), 2 * m' + 2 * (d * t'));
    CongMul(2 * m + 2 * (d * t), 2 * m' + 2 * (d * t'), 2 * m - 2 * (d * t), 2 * m' - 2 * (d * t'));
    CongMul(2 * (a + b), 2 * (a' + b'), 2 * (c + k), 2 * (c' + k'));
  }

  lemma ReducedBounded(a: seq<int>, b: seq<int>, c: seq<int>, d: seq<int>)
    requires Reduced(a) && Reduced(b) && Reduced(c) && Reduced(d)
    ensures Within(a, 0x2_0000) && Within(b, 0x2_0000) && Within(c, 0x2_0000) && Within(d, 0x2_0000)
  {
    ReducedWithin(a);
    ReducedWithin(b);
    ReducedWithin(c);
    ReducedWithin(d);
  }

  /** q += p, then p += p. */
  method AddAndDouble(p: seq<array<int64>>, q: seq<array<int64>>)
    requires TwoPoints(p, q) && Bounded(p) && Bounded(q)
    modifies p[0], p[1], p[2], p[3], q[0], q[1], q[2], q[3]
    ensures Bounded(p) && Bounded(q)
    ensures SamePoint(Coords(q), Sum(old(Coords(q)), old(Coords(p)), Val(D)))
    ensures SamePoint(Coords(p), Sum(old(Coords(p)), old(Coords(p)), Val(D)))
  {
    hide Val, Reduced, Sum, Within, SamePoint;
    PtAdd(q, p);
    ReducedBounded(q[0][..], q[1][..], q[2][..], q[3][..]);
    PtAdd(p, p);
    ReducedBounded(p[0][..], p[1][..], p[2][..], p[3][..]);
  }

  /** One bit of the ladder: both points advance, which of them is doubled depends on the bit. */
  method LadderStep(p: seq<array<int64>>, q: seq<array<int64>>, b: int)
    requires TwoPoints(p, q) && Bounded(p) && Bounded(q) && (b == 0 || b == 1)
    modifies p[0], p[1], p[2], p[3], q[0], q[1], q[2], q[3]
    ensures Bounded(p) && Bounded(q)
    ensures SamePoint(Coords(p), Sum(old(Coords(p)), if b == 1 then old(Coords(q)) else old(Coords(p)), Val(D)))
    ensures SamePoint(Coords(q), Sum(old(Coords(q)), if b == 1 then old(Coords(q)) else old(Coords(p)), Val(D)))
  {
    hide Val, Sum, Within, SamePoint;
    Cswap(p, q, b);
    AddAndDouble(p, q);
    Cswap(p, q, b);
  }

  /** Multiplies q by the scalar into p: every addition of the 256 rounds meets its limb bounds, and the result is the
      ladder's point. */
  method ScalarMult(p: seq<array<int64>>, q: seq<array<int64>>, s: seq<byte>)
    requires TwoPoints(p, q) && Bounded(q) && |s| == 32
    modifies p[0], p[1], p[2], p[3], q[0], q[1], q[2], q[3]
    ensures Bounded(p)
    ensures SamePoint(Coords(p), Ladder(old(Coords(q)), Val(D), s, 0).0)
  {
    hide Val, Sum, Within, SamePoint;
    ghost var base := Coords(q);
    SetSmall(p[0], 0);
    SetSmall(p[1], 1);
    SetSmall(p[2], 1);
    SetSmall(p[3], 0);
    assert Coords(p) == IDENTITY;
    TinyWithin(p[0][..]);
    TinyWithin(p[1][..]);
    TinyWithin(p[2][..]);
    TinyWithin(p[3][..]);
    SameSelf(Coords(p));
    SameSelf(base);
    for i := 256 downto 0
      invariant Bounded(p) && Bounded(q)
      invariant SamePoint(Coords(p), Ladder(base, Val(D), s, i).0)
      invariant SamePoint(Coords(q), Ladder(base, Val(D), s, i).1)
    {
      var b := ExtractBit(s, i);
      ghost var u, v := Coords(p), Coords(q);
      LadderStep(p, q, b);
      StepCong(base, s, i, u, v, Coords(p), Coords(q));
    }
  }

  method ExtractBit(s: seq<byte>, i: nat) returns (b: int)
    requires i < 8 * |s|
    ensures b == ScalarBit(s, i)
  {
    hide Bits.And;
    var x: int := s[i / 8];
    Bits.Pow2Values();
    Bits.AndLowMask(x / Bits.Pow2(i % 8), 1);
    b := Bits.And(x / Bits.Pow2(i % 8), 1);
  }

  lemma SameSelf(p: Point)
    ensures SamePoint(p, p)
  {
  }

  lemma SameTrans(p: Point, q: Point, r: Point)
    requires SamePoint(p, q) && SamePoint(q, r)
    ensures SamePoint(p, r)
  {
  }

  lemma StepCong(base: Point, s: seq<byte>, i: nat, u: Point, v: Point, u': Point, v': Point)
    requires i < 8 * |s|
    requires SamePoint(u, Ladder(base, Val(D), s, i + 1).0) && SamePoint(v, Ladder(base, Val(D), s, i + 1).1)
    requires var w := if ScalarBit(s, i) == 1 then v else u;
             SamePoint(u', Sum(u, w, Val(D))) && SamePoint(v', Sum(v, w, Val(D)))
    ensures SamePoint(u', Ladder(base, Val(D), s, i).0) && SamePoint(v', Ladder(base, Val(D), s, i).1)
  {
    hide Val, Sum, SamePoint, ScalarBit;
    var (r0, r1) := Ladder(base, Val(D), s, i + 1);
    var w, r := if ScalarBit(s, i) == 1 then v else u, if ScalarBit(s, i) == 1 then r1 else r0;
    SumCong(u, r0, w, r);
    SumCong(v, r1, w, r);
    SameTrans(u', Sum(u, w, Val(D)), Sum(r0, r, Val(D)));
    SameTrans(v', Sum(v, w, Val(D)), Sum(r1, r, Val(D)));
  }

  /////////////////////////////////////////////////////////////////////////////
  // Decoding a point: section 5.1.3 of RFC 8032
  /////////////////////////////////////////////////////////////////////////////

  /** (u v^3) (u v^7)^((p - 5) / 8), the candidate for a square root of u / v. */
  function RootCandidate(u: int, v: int): int {
    u * Pow(v, 3) * Pow(u * Pow(v, 7), (P - 5) / 8)
  }

  /** The candidate, or the candidate times a root of -1, squares to u / v. */
  predicate HasRoot(u: int, v: int) {
    var x := RootCandidate(u, v);
    Cong((x * x) * v, u) || Cong((x * x) * v, -u)
  }

  lemma SmallerWithin(s: seq<int>)
    requires Reduced(s) || Within(s, 0x2_0000)
    ensures Within(s, 0x400_0000) && (Reduced(s) ==> Within(s, 0x2_0000))
  {
    if Reduced(s) {
      ReducedWithin(s);
    }
  }

  method Times(a: array<int64>, b: array<int64>) returns (o: array<int64>)
    requires a.Length == b.Length == 16
    requires (Reduced(a[..]) || Within(a[..], 0x2_0000)) && (Reduced(b[..]) || Within(b[..], 0x2_0000))
    ensures fresh(o) && o.Length == 16 && Reduced(o[..])
    ensures Cong(Val(o[..]), Val(a[..]) * Val(b[..]))
  {
    hide Val, Reduced, Within;
    o := new int64[16];
    SmallerWithin(a[..]);
    SmallerWithin(b[..]);
    M(o, a, b);
  }

  /** u = y^2 - 1 and v = 1 + d y^2: the curve equation reads x^2 v = u. */
  method Ratio(y: array<int64>) returns (num: array<int64>, den: array<int64>)
    requires y.Length == 16 && Within(y[..], 0x2_0000)
    ensures fresh(num) && fresh(den) && num.Length == den.Length == 16
    ensures Within(num[..], 0x2_0000) && Within(den[..], 0x2_0000)
    ensures Cong(Val(num[..]), Val(y[..]) * Val(y[..]) - 1)
    ensures Cong(Val(den[..]), 1 + Val(D) * (Val(y[..]) * Val(y[..])))
  {
    hide Val, Reduced, Cong;
    var one := new int64[16];
    SetSmall(one, 1);
    var d := new int64[16](i requires 0 <= i < 16 => D[i]);
    assert d[..] == D;
    ghost var yy := Val(y[..]) * Val(y[..]);
    num := Times(y, y);
    den := Times(num, d);
    ReducedWithin(num[..]);
    ReducedWithin(den[..]);
    Reflexive(1);
    Reflexive(Val(D));
    CongMul(Val(num[..]), yy, Val(D), Val(D));
    CongTrans(Val(den[..]), Val(num[..]) * Val(D), yy * Val(D));
    CongAdd(Val(num[..]), yy, 1, 1);
    CongAdd(1, 1, Val(den[..]), yy * Val(D));
    assert yy * Val(D) == Val(D) * yy;
    Z(num, num, one);
    A(den, one, den);
  }

  lemma CongTrans(a: int, b: int, c: int)
    requires Cong(a, b) && Cong(b, c)
    ensures Cong(a, c)
  {
  }

  lemma {:induction false} PowCong(a: int, b: int, e: nat)
    requires Cong(a, b)
    ensures Cong(Pow(a, e), Pow(b, e))
  {
    if e > 0 {
      PowCong(a, b, e - 1);
      hide Cong;
      CongMul(a, b, Pow(a, e - 1), Pow(b, e - 1));
    }
  }

  /** A product of two powers, each known modulo p. */
  lemma PowProduct(o: int, a: int, b: int, v: int, m: nat, n: nat)
    requires Cong(a, Pow(v, m)) && Cong(b, Pow(v, n)) && Cong(o, a * b)
    ensures Cong(o, Pow(v, m + n))
  {
    hide Cong, Pow;
    CongMul(a, Pow(v, m), b, Pow(v, n));
    PowAdd(v, m, n);
    CongTrans(o, a * b, Pow(v, m + n));
  }

  lemma FirstPower(v: int)
    ensures Pow(v, 1) == v && Pow(v, 0) == 1 && Pow(v, 2) == v * v && Pow(v, 3) == v * v * v
  {
    assert Pow(v, 1) == v * Pow(v, 0);
    assert Pow(v, 2) == v * Pow(v, 1);
    assert Pow(v, 3) == v * Pow(v, 2);
  }

  /** u v^7, through v^2, v^4 and v^6. */
  method SeventhPower(num: array<int64>, den: array<int64>) returns (t: array<int64>)
    requires num.Length == den.Length == 16 && Within(num[..], 0x2_0000) && Within(den[..], 0x2_0000)
    ensures fresh(t) && t.Length == 16 && Reduced(t[..])
    ensures Cong(Val(t[..]), Val(num[..]) * Pow(Val(den[..]), 7))
  {
    hide Val, Reduced, Within, Cong, Pow;
    ghost var u, v := Val(num[..]), Val(den[..]);
    var den2 := Times(den, den);
    var den4 := Times(den2, den2);
    var den6 := Times(den4, den2);
    var t0 := Times(den6, num);
    t := Times(t0, den);
    FirstPower(v);
    Reflexive(v);
    PowProduct(Val(den2[..]), v, v, v, 1, 1);
    PowProduct(Val(den4[..]), Val(den2[..]), Val(den2[..]), v, 2, 2);
    PowProduct(Val(den6[..]), Val(den4[..]), Val(den2[..]), v, 4, 2);
    SeventhAlgebra(u, v, Val(den6[..]), Val(t0[..]), Val(t[..]));
  }

  lemma SeventhAlgebra(u: int, v: int, den6: int, t0: int, t: int)
    requires Cong(den6, Pow(v, 6)) && Cong(t0, den6 * u) && Cong(t, t0 * v)
    ensures Cong(t, u * Pow(v, 7))
  {
    hide Cong, Pow;
    Reflexive(u);
    Reflexive(v);
    CongMul(den6, Pow(v, 6), u, u);
    CongTrans(t0, den6 * u, Pow(v, 6) * u);
    CongMul(t0, Pow(v, 6) * u, v, v);
    CongTrans(t, t0 * v, Pow(v, 6) * u * v);
    PowNext(v, 6);
    assert Pow(v, 6) * u * v == u * (Pow(v, 6) * v);
  }

  method Candidate(num: array<int64>, den: array<int64>) returns (x: array<int64>)
    requires num.Length == den.Length == 16 && Within(num[..], 0x2_0000) && Within(den[..], 0x2_0000)
    ensures fresh(x) && x.Length == 16 && Reduced(x[..])
    ensures Cong(Val(x[..]), RootCandidate(Val(num[..]), Val(den[..])))
  {
    hide Val, Reduced, Within, Cong, Pow, RootCandidate;
    var t := SeventhPower(num, den);
    ghost var w := Val(t[..]);
    SmallerWithin(t[..]);
    var t0 := new int64[16];
    Pow2523(t0, t);
    var t1 := Times(t0, num);
    var t2 := Times(t1, den);
    var t3 := Times(t2, den);
    x := Times(t3, den);
    SameResidue(Val(t0[..]), Pow(w, (P - 5) / 8));
    CandidateAlgebra(Val(num[..]), Val(den[..]), w, Val(t0[..]), Val(t1[..]), Val(t2[..]), Val(t3[..]), Val(x[..]));
  }

  lemma SameResidue(a: int, b: int)
    requires a % P == b % P
    ensures Cong(a, b)
  {
  }

  lemma CandidateAlgebra(u: int, v: int, w: int, t0: int, t1: int, t2: int, t3: int, x: int)
    requires Cong(w, u * Pow(v, 7)) && Cong(t0, Pow(w, (P - 5) / 8))
    requires Cong(t1, t0 * u) && Cong(t2, t1 * v) && Cong(t3, t2 * v) && Cong(x, t3 * v)
    ensures Cong(x, RootCandidate(u, v))
  {
    var e := (P - 5) / 8;
    var k := Pow(u * Pow(v, 7), e);
    FirstPower(v);
    hide Cong, Pow;
    PowCong(w, u * Pow(v, 7), e);
    CongTrans(t0, Pow(w, e), k);
    Reflexive(u);
    Reflexive(v);
    CongMul(t0, k, u, u);
    CongTrans(t1, t0 * u, k * u);
    CongMul(t1, k * u, v, v);
    CongTrans(t2, t1 * v, k * u * v);
    CongMul(t2, k * u * v, v, v);
    CongTrans(t3, t2 * v, k * u * v * v);
    CongMul(t3, k * u * v * v, v, v);
    CongTrans(x, t3 * v, k * u * v * v * v);
    Regroup(k, u, v);
  }

  lemma Regroup(k: int, u: int, v: int)
    ensures k * u * v * v * v == u * (v * v * v) * k
  {
  }

  /** Decides whether x^2 v = u modulo p. */
  method IsRoot(x: array<int64>, num: array<int64>, den: array<int64>) returns (ok: bool)
    requires x.Length == num.Length == den.Length == 16
    requires Reduced(x[..]) && Within(num[..], 0x2_0000) && Within(den[..], 0x2_0000)
    ensures ok <==> Cong((Val(x[..]) * Val(x[..])) * Val(den[..]), Val(num[..]))
  {
    hide Val, Reduced, Within;
    var sq := Times(x, x);
    var chk := Times(sq, den);
    SmallerWithin(chk[..]);
    SmallerWithin(num[..]);
    Reflexive(Val(den[..]));
    CongMul(Val(sq[..]), Val(x[..]) * Val(x[..]), Val(den[..]), Val(den[..]));
    var differ := Neq25519(chk, num);
    ok := !differ;
  }

  /** Multiplying by the root of -1 turns a root of -u / v into one of u / v. */
  lemma RootOfMinusOne(x: int, x': int, i: int, u: int, v: int)
    requires Cong(x', x * i) && Cong(i * i, -1)
    ensures Cong((x' * x') * v, u) <==> Cong((x * x) * v, -u)
  {
    var k := (x * x) * v;
    Reflexive(v);
    Reflexive(x * x);
    CongMul(x', x * i, x', x * i);
    Four(x, i, x, i);
    CongMul(x * x, x * x, i * i, -1);
    CongMul(x' * x', -(x * x), v, v);
    assert -(x * x) * v == -k;
    Reflexive(-1);
    if Cong(-k, u) {
      CongMul(-1, -1, -k, u);
    }
    if Cong(k, -u) {
      CongMul(-1, -1, k, -u);
    }
  }

  /** The root, by both attempts of the code. */
  method FindRoot(num: array<int64>, den: array<int64>) returns (ok: bool, x: array<int64>)
    requires num.Length == den.Length == 16 && Within(num[..], 0x2_0000) && Within(den[..], 0x2_0000)
    ensures fresh(x) && x.Length == 16 && Reduced(x[..])
    ensures ok <==> HasRoot(Val(num[..]), Val(den[..]))
    ensures ok ==> Cong((Val(x[..]) * Val(x[..])) * Val(den[..]), Val(num[..]))
    ensures Cong(Val(num[..]), 0) ==> Cong(Val(x[..]), 0)
  {
    hide Val, Reduced, Within, Cong, RootCandidate;
    ghost var u, v := Val(num[..]), Val(den[..]);
    var x0 := Candidate(num, den);
    ghost var c := RootCandidate(u, v);
    ZeroCandidate(u, v, Val(x0[..]));
    SquareCong(Val(x0[..]), c, v);
    var first := IsRoot(x0, num, den);
    x := x0;
    if !first {
      var i := new int64[16](k requires 0 <= k < 16 => I[k]);
      assert i[..] == I;
      SmallConstant();
      x := Times(x0, i);
      ZeroProduct(Val(x0[..]), Val(I), Val(x[..]));
      MinusOne();
      RootOfMinusOne(Val(x0[..]), Val(x[..]), Val(I), u, v);
    }
    CongEither((c * c) * v, (Val(x0[..]) * Val(x0[..])) * v, u);
    CongEither((c * c) * v, (Val(x0[..]) * Val(x0[..])) * v, -u);
    ok := IsRoot(x, num, den);
  }

  lemma ZeroCandidate(u: int, v: int, x: int)
    requires Cong(x, RootCandidate(u, v))
    ensures Cong(u, 0) ==> Cong(x, 0) && Cong(RootCandidate(u, v), 0)
  {
    var k := Pow(v, 3) * Pow(u * Pow(v, 7), (P - 5) / 8);
    Bytes.MulAssoc(u, Pow(v, 3), Pow(u * Pow(v, 7), (P - 5) / 8));
    hide Pow;
    if Cong(u, 0) {
      Reflexive(k);
      CongMul(u, 0, k, k);
    }
  }

  lemma ZeroProduct(x: int, i: int, o: int)
    requires Cong(o, x * i)
    ensures Cong(x, 0) ==> Cong(o, 0)
  {
    if Cong(x, 0) {
      Reflexive(i);
      CongMul(x, 0, i, i);
    }
  }

  lemma SmallConstant()
    ensures Within(I, 0x2_0000)
  {
  }

  lemma MinusOne()
    ensures Cong(Val(I) * Val(I), -1)
  {
    Constants();
    hide Val;
    var k := Val(I) * Val(I);
    SameResidue(k + 1, 0);
    Reflexive(1);
    CongAdd(k + 1, 0, 1, 1);
  }

  lemma SquareCong(x: int, c: int, v: int)
    requires Cong(x, c)
    ensures Cong((c * c) * v, (x * x) * v)
  {
    CongMul(c, x, c, x);
    CongMul(c * c, x * x, v, v);
  }

  lemma CongEither(a: int, b: int, u: int)
    requires Cong(a, b)
    ensures Cong(a, u) <==> Cong(b, u)
  {
  }

  lemma {:induction false} PowOfProduct(a: int, b: int, e: nat)
    ensures Pow(a * b, e) == Pow(a, e) * Pow(b, e)
  {
    if e > 0 {
      PowOfProduct(a, b, e - 1);
      Four(a, b, Pow(a, e - 1), Pow(b, e - 1));
    }
  }

  lemma {:induction false} PowOfPow(a: int, m: nat, e: nat)
    ensures Pow(Pow(a, m), e) == Pow(a, m * e)
    decreases e
  {
    if e > 0 {
      PowOfPow(a, m, e - 1);
      assert m * e == m + m * (e - 1);
      PowAdd(a, m, m * (e - 1));
    } else {
      assert m * e == 0;
    }
  }

  lemma PowTwo(x: int)
    ensures Pow(x, 2) == x * x
  {
    FirstPower(x);
  }

  lemma TimesPower(x: int, v: int, n: nat)
    ensures ((x * x) * v) * Pow(v, n) == Pow(x, 2) * Pow(v, n + 1)
  {
    PowTwo(x);
    PowNext(v, n);
    hide Pow;
    MulThree(x * x, v, Pow(v, n));
  }

  lemma MulThree(a: int, b: int, c: int)
    ensures (a * b) * c == a * (c * b)
  {
  }

  /** The candidate for x^2 v, with the powers of x and v collected. */
  lemma CandidateValue(v: int, x: int, e: nat)
    requires e == (P - 5) / 8
    ensures RootCandidate((x * x) * v, v) == Pow(x, 2 + 2 * e) * Pow(v, 4 + 8 * e)
  {
    hide Pow;
    var w := (x * x) * v;
    TimesPower(x, v, 3);
    TimesPower(x, v, 7);
    PowOfProduct(Pow(x, 2), Pow(v, 8), e);
    PowOfPow(x, 2, e);
    PowOfPow(v, 8, e);
    PowAdd(x, 2, 2 * e);
    PowAdd(v, 4, 8 * e);
    Four(Pow(x, 2), Pow(v, 4), Pow(x, 2 * e), Pow(v, 8 * e));
  }

  /** The candidate for u = x^2 v is x^((p + 3) / 4), if v^(p - 1) = 1. */
  lemma CandidateOfSquare(u: int, v: int, x: int)
    requires Cong((x * x) * v, u) && Cong(Pow(v, P - 1), 1)
    ensures Cong(RootCandidate(u, v), Pow(x, (P + 3) / 4))
  {
    hide *;
    Exponents();
    var w, r := (x * x) * v, Pow(x, (P + 3) / 4);
    Flip(w, u);
    Reflexive(v);
    CandidateCong(u, w, v, v);
    CandidateValue(v, x, (P - 5) / 8);
    Reflexive(r);
    CongMul(r, r, Pow(v, P - 1), 1);
    CongTrans(RootCandidate(u, v), RootCandidate(w, v), r * 1);
  }

  lemma Exponents()
    ensures 2 + 2 * ((P - 5) / 8) == (P + 3) / 4 && 4 + 8 * ((P - 5) / 8) == P - 1
    ensures (P - 5) / 8 >= 0 && (P + 3) / 4 >= 0 && P - 1 >= 0
  {
  }

  lemma CandidateCong(u: int, u': int, v: int, v': int)
    requires Cong(u, u') && Cong(v, v')
    ensures Cong(RootCandidate(u, v), RootCandidate(u', v'))
  {
    var e := (P - 5) / 8;
    hide Cong, Pow;
    PowCong(v, v', 3);
    PowCong(v, v', 7);
    CongMul(u, u', Pow(v, 3), Pow(v', 3));
    CongMul(u, u', Pow(v, 7), Pow(v', 7));
    PowCong(u * Pow(v, 7), u' * Pow(v', 7), e);
    CongMul(u * Pow(v, 3), u' * Pow(v', 3), Pow(u * Pow(v, 7), e), Pow(u' * Pow(v', 7), e));
  }

  lemma HasRootCong(u: int, u': int, v: int, v': int)
    requires Cong(u, u') && Cong(v, v')
    ensures HasRoot(u, v) <==> HasRoot(u', v')
  {
    hide RootCandidate;
    CandidateCong(u, u', v, v');
    var c, c' := RootCandidate(u, v), RootCandidate(u', v');
    CongMul(c, c', c, c');
    CongMul(c * c, c' * c', v, v');
    Reflexive(-1);
    CongMul(-1, -1, u, u');
  }

  lemma Flip(a: int, b: int)
    requires Cong(a, b)
    ensures Cong(b, a)
  {
  }

  /** Decoding is complete: where u / v has a square root x at all, one of the two attempts finds a root. */
  lemma RootFoundIfAny(u: int, v: int, x: int)
    requires PrimeField.Prime(P) && Cong((x * x) * v, u) && !Cong(v, 0)
    ensures HasRoot(u, v)
  {
    hide PrimeField.Prime, Cong, Pow, RootCandidate;
    FermatHere(v);
    EulerHere(x);
    var c, h, r := RootCandidate(u, v), Pow(x, (P - 1) / 2), Pow(x, (P + 3) / 4);
    CandidateOfSquare(u, v, x);
    CongMul(c, r, c, r);
    RootSquared(x, v);
    Reflexive(v);
    CongMul(c * c, r * r, v, v);
    ScaledRoot(c, v, h, (x * x) * v, u, x);
  }

  lemma FermatHere(v: int)
    requires PrimeField.Prime(P) && !Cong(v, 0)
    ensures Cong(Pow(v, P - 1), 1)
  {
    hide PrimeField.Prime, Pow;
    PrimeField.Fermat(P, v);
  }

  /** x^((p - 1) / 2) is 1 or -1. */
  lemma EulerHere(x: int)
    requires PrimeField.Prime(P)
    ensures Cong(Pow(x, (P - 1) / 2), 1) || Cong(Pow(x, (P - 1) / 2), -1) || Cong(x, 0)
  {
    hide PrimeField.Prime, Pow;
    if !Cong(x, 0) {
      var h := Pow(x, (P - 1) / 2);
      PrimeField.Fermat(P, x);
      PowAdd(x, (P - 1) / 2, (P - 1) / 2);
      assert (P - 1) / 2 + (P - 1) / 2 == P - 1;
      PrimeField.RootOfOne(P, h);
    }
  }

  lemma RootSquared(x: int, v: int)
    ensures var r := Pow(x, (P + 3) / 4);
            (r * r) * v == Pow(x, (P - 1) / 2) * ((x * x) * v)
  {
    FirstPower(x);
    hide Pow;
    PowAdd(x, (P + 3) / 4, (P + 3) / 4);
    PowAdd(x, (P - 1) / 2, 2);
    assert (P + 3) / 4 + (P + 3) / 4 == (P - 1) / 2 + 2;
    Bytes.MulAssoc(Pow(x, (P - 1) / 2), x * x, v);
  }

  lemma ScaledRoot(c: int, v: int, h: int, w: int, u: int, x: int)
    requires Cong((c * c) * v, h * w) && Cong(w, u) && w == (x * x) * v
    requires Cong(h, 1) || Cong(h, -1) || Cong(x, 0)
    ensures Cong((c * c) * v, u) || Cong((c * c) * v, -u)
  {
    Reflexive(h);
    Reflexive(x);
    Reflexive(v);
    if Cong(x, 0) {
      CongMul(x, 0, x, x);
      CongMul(x * x, 0, v, v);
      CongMul(h, h, w, 0);
      assert Cong(u, 0);
    } else if Cong(h, 1) {
      CongMul(h, 1, w, u);
    } else {
      CongMul(h, -1, w, u);
    }
  }

  /////////////////////////////////////////////////////////////////////////////

  /** Of two opposite residues other than 0, exactly one is odd. */
  lemma OppositeParity(x: int)
    requires x % P != 0
    ensures ((0 - x) % P) % 2 != (x % P) % 2
  {
    var k := x / P;
    assert 0 - x == P * (-k - 1) + (P - x % P) by {
      assert P * (-k - 1) == -(P * k) - P;
    }
    Bits.DivModUnique(0 - x, P, -k - 1, P - x % P);
  }

  lemma OppositeZero(x: int)
    requires x % P == 0
    ensures (0 - x) % P == 0
  {
    CongruentByMultiple(0 - x, 0, P, -(x / P));
  }

  /** x is negated when its parity is the sign bit, so the point decoded is the negative of the encoded one. */
  method NegateX(x: array<int64>, sign: int)
    requires x.Length == 16 && Reduced(x[..]) && (sign == 0 || sign == 1)
    modifies x
    ensures Within(x[..], 0x2_0000)
    ensures Val(x[..]) == Val(old(x[..])) || Val(x[..]) == -Val(old(x[..]))
    ensures Val(x[..]) % P == 0 || (Val(x[..]) % P) % 2 != sign
  {
    hide Val;
    ReducedWithin(x[..]);
    var parity := Par25519(x);
    if parity == sign {
      ghost var v := Val(x[..]);
      var zero := new int64[16];
      SetSmall(zero, 0);
      Z(x, zero, x);
      if v % P == 0 { OppositeZero(v); } else { OppositeParity(v); }
    }
  }

  lemma AffineOnCurve(x: int, y: int, t: int, u: int, v: int)
    requires Cong(u, y * y - 1) && Cong(v, 1 + Val(D) * (y * y)) && Cong(t, x * y) && Cong((x * x) * v, u)
    ensures OnCurve(Point(x, y, 1, t), Val(D))
  {
    hide Val, Cong;
    var d, yy, xx := Val(D), y * y, x * x;
    Reflexive(xx);
    CongMul(xx, xx, v, 1 + d * yy);
    Flip(xx * v, xx * (1 + d * yy));
    CongTrans(xx * (1 + d * yy), xx * v, u);
    CongTrans(xx * (1 + d * yy), u, yy - 1);
    CongMul(t, x * y, t, x * y);
    Four(x, y, x, y);
    Reflexive(d);
    CongMul(d, d, t * t, xx * yy);
    assert xx * (1 + d * yy) == xx + d * (xx * yy);
    Balance(xx, yy, d * (xx * yy), d * (t * t));
    Flip(t, x * y);
  }

  lemma Balance(xx: int, yy: int, k: int, k': int)
    requires Cong(xx + k, yy - 1) && Cong(k', k)
    ensures Cong(yy - xx, 1 + k')
  {
    Reflexive(1 - xx);
    CongAdd(xx + k, yy - 1, 1 - xx, 1 - xx);
    Reflexive(1);
    CongAdd(1, 1, k', k);
  }

  /** The 255 low bits are y; the top bit is the sign of x. */
  function PackedY(bytes: seq<byte>): (y: int)
    requires |bytes| == 32
  {
    LE(bytes) % (P + 19)
  }

  predicate Decodable(bytes: seq<byte>)
    requires |bytes| == 32
  {
    var yy := PackedY(bytes) * PackedY(bytes);
    HasRoot(yy - 1, 1 + Val(D) * yy)
  }

  /** c is the negative of the point the bytes stand for. */
  predicate Decoded(c: Point, bytes: seq<byte>)
    requires |bytes| == 32
  {
    OnCurve(c, Val(D)) && Carries(c, bytes)
  }

  /** The coordinates the bytes ask for: their y, Z = 1, and an x of the parity opposite to the sign bit, or 0. */
  predicate Carries(c: Point, bytes: seq<byte>)
    requires |bytes| == 32
  {
    && c.z == 1 && c.y == PackedY(bytes)
    && (if YIsUnit(bytes) then c.x % P == 0 else c.x % P != 0 && (c.x % P) % 2 != bytes[31] / 128)
  }

  /** y = 1 or y = -1 modulo p: the curve points with this y have x = 0. */
  predicate YIsUnit(bytes: seq<byte>)
    requires |bytes| == 32
  {
    (PackedY(bytes) * PackedY(bytes) - 1) % P == 0
  }

  /**
   * Decodes the negative of a packed point. It fails exactly when neither attempt finds a root; otherwise the point lies
   * on the curve, has the packed y with Z = 1, and its x is 0 if y^2 = 1 and otherwise a nonzero number of the parity
   * opposite to the sign bit.
   */
  method UnpackNeg(r: seq<array<int64>>, p: array<byte>) returns (ok: bool)
    requires IsPoint(r) && p.Length == 32 && forall i :: 0 <= i < 4 ==> r[i] as object != p
    modifies r[0], r[1], r[2], r[3]
    ensures ok <==> Decodable(p[..])
    ensures ok ==> Bounded(r) && Decoded(Coords(r), p[..])
  {
    hide Val, Within, Reduced, InRange, LE, HasRoot, OnCurve, Cong;
    SetSmall(r[2], 1);
    Unpack25519(r[1], p);
    RangeWithin(r[1][..]);
    ghost var y := Val(r[1][..]);
    var num, den := Ratio(r[1]);
    ghost var u, v := Val(num[..]), Val(den[..]);
    var x;
    ok, x := FindRoot(num, den);
    HasRootCong(u, y * y - 1, v, 1 + Val(D) * (y * y));
    if ok {
      ghost var x0 := Val(x[..]);
      NegateX(x, p[31] / 128);
      OppositeSquare(x0, Val(x[..]));
      var t := Times(x, r[1]);
      Copy(r[0], x);
      Copy(r[3], t);
      SmallerWithin(t[..]);
      TinyWithin(r[2][..]);
      AffineOnCurve(Val(x[..]), y, Val(t[..]), u, v);
      ZeroIff(x0, Val(x[..]), u, v, y);
    }
  }

  /** A root of u / v is 0 exactly when u is, for the roots decoding finds. */
  lemma ZeroIff(x0: int, x: int, u: int, v: int, y: int)
    requires x == x0 || x == -x0
    requires Cong(u, y * y - 1) && Cong((x0 * x0) * v, u) && (Cong(u, 0) ==> Cong(x0, 0))
    ensures x % P == 0 <==> (y * y - 1) % P == 0
  {
    Reflexive(-1);
    Reflexive(v);
    if Cong(x0, 0) {
      CongMul(x0, 0, x0, 0);
      CongMul(x0 * x0, 0, v, v);
      CongMul(-1, -1, x0, 0);
    }
    if Cong(x, 0) {
      CongMul(-1, -1, x, 0);
    }
  }

  /** (x, y) is a point of the curve. */
  predicate CurvePoint(x: int, y: int) {
    OnCurve(Point(x, y, 1, x * y), Val(D))
  }

  /** Bytes decode exactly when some point of the curve has their y. */
  lemma DecodableIff(bytes: seq<byte>)
    requires PrimeField.Prime(P) && |bytes| == 32
    ensures Decodable(bytes) <==> exists x :: CurvePoint(x, PackedY(bytes))
  {
    hide Val, PackedY, OnCurve, PrimeField.Prime, HasRoot, CurvePoint;
    var y := PackedY(bytes);
    if Decodable(bytes) {
      var x := RootIsPoint(y);
    }
    if x :| CurvePoint(x, y) {
      CurveHasRoot(x, y);
    }
  }

  /** A root that was found is the x of a point. */
  lemma RootIsPoint(y: int) returns (x: int)
    requires HasRoot(y * y - 1, 1 + Val(D) * (y * y))
    ensures CurvePoint(x, y)
  {
    var u, v := y * y - 1, 1 + Val(D) * (y * y);
    hide Val, RootCandidate, OnCurve, Cong;
    var c := RootCandidate(u, v);
    x := c;
    if !Cong((c * c) * v, u) {
      x := c * Val(I);
      Reflexive(x);
      MinusOne();
      RootOfMinusOne(c, x, Val(I), u, v);
    }
    Reflexive(u);
    Reflexive(v);
    Reflexive(x * y);
    AffineOnCurve(x, y, x * y, u, v);
  }

  /** No point of the curve is missed. */
  lemma CurveHasRoot(x: int, y: int)
    requires PrimeField.Prime(P) && CurvePoint(x, y)
    ensures HasRoot(y * y - 1, 1 + Val(D) * (y * y))
  {
    hide *;
    PointRatio(x, y);
    Constants();
    AtUnitY(y * y, Val(D));
    DenominatorNonZero(x * x, y * y, Val(D), 1 + Val(D) * (y * y));
    RootFoundIfAny(y * y - 1, 1 + Val(D) * (y * y), x);
  }

  /** The curve equation at (x, y), solved for x^2. */
  lemma PointRatio(x: int, y: int)
    requires CurvePoint(x, y)
    ensures Cong((x * x) * (1 + Val(D) * (y * y)), y * y - 1)
  {
    hide Val, Cong;
    var d, xx, yy := Val(D), x * x, y * y;
    Four(x, y, x, y);
    Rotate(d, xx, yy);
    Two(xx, 0, 1, d * yy);
    MoveOver(xx, yy, xx * (d * yy));
  }

  lemma MoveOver(xx: int, yy: int, k: int)
    requires Cong(yy - xx, 1 * 1 + k)
    ensures Cong(xx + k, yy - 1)
  {
    Reflexive(xx - 1);
    CongAdd(yy - xx, 1 + k, xx - 1, xx - 1);
  }

  /** Where the equation has a solution, 1 + d y^2 is not 0: else y^2 = 1 and 1 + d = 0, but 121666 (1 + d) = 1. */
  lemma DenominatorNonZero(xx: int, yy: int, d: int, v: int)
    requires Cong(xx * v, yy - 1) && (d * 121666 + 121665) % P == 0
    requires Cong(yy, 1) ==> Cong(v, 1 + d)
    ensures !Cong(v, 0)
  {
    UnitOfD(d);
    Reflexive(xx);
    Reflexive(1);
    if Cong(v, 0) {
      CongMul(xx, xx, v, 0);
      CongAdd(yy - 1, 0, 1, 1);
    }
  }

  lemma AtUnitY(yy: int, d: int)
    ensures Cong(yy, 1) ==> Cong(1 + d * yy, 1 + d)
  {
    Reflexive(d);
    Reflexive(1);
    if Cong(yy, 1) {
      CongMul(d, d, yy, 1);
      CongAdd(1, 1, d * yy, d);
    }
  }

  lemma UnitOfD(d: int)
    requires (d * 121666 + 121665) % P == 0
    ensures !Cong(1 + d, 0)
  {
    assert (1 + d) * 121666 == d * 121666 + 121665 + 1;
    Reflexive(1);
    CongAdd(d * 121666 + 121665, 0, 1, 1);
    if Cong(1 + d, 0) {
      Reflexive(121666);
      CongMul(1 + d, 0, 121666, 121666);
    }
  }

  lemma RangeWithin(s: seq<int>)
    requires InRange(s)
    ensures Within(s, 0x2_0000)
  {
  }

  lemma OppositeSquare(x: int, x': int)
    requires x' == x || x' == -x
    ensures x' * x' == x * x
  {
  }

  /////////////////////////////////////////////////////////////////////////////
  // Encoding a point: section 5.1.2 of RFC 8032
  /////////////////////////////////////////////////////////////////////////////

  /** y in 255 bits and the parity of x above it; 1 / Z is Z^(p - 2). */
  function Packed(c: Point): (v: int) {
    var zi := Pow(c.z, P - 2);
    WithSign(c.x * zi, c.y * zi)
  }

  function WithSign(x: int, y: int): (v: int) {
    y % P + (P + 19) * ((x % P) % 2)
  }

  method PackPoint(r: array<byte>, p: seq<array<int64>>)
    requires IsPoint(p) && Bounded(p) && r.Length == 32 && forall i :: 0 <= i < 4 ==> p[i] as object != r
    modifies r
    ensures LE(r[..]) == Packed(Coords(p))
  {
    hide Val, Within, Reduced, LE, Pow, Cong, Bits.Xor;
    ghost var c := Coords(p);
    var zi := new int64[16];
    SmallerWithin(p[2][..]);
    Inv25519(zi, p[2]);
    SameResidue(Val(zi[..]), Pow(c.z, P - 2));
    var tx := Times(p[0], zi);
    var ty := Times(p[1], zi);
    PackedProduct(c.x, Val(zi[..]), Pow(c.z, P - 2), Val(tx[..]));
    PackedProduct(c.y, Val(zi[..]), Pow(c.z, P - 2), Val(ty[..]));
    SmallerWithin(tx[..]);
    SmallerWithin(ty[..]);
    Pack25519(r, ty);
    var sign := Par25519(tx);
    ghost var bytes := r[..];
    TopByte(bytes, sign);
    r[31] := Bits.Xor(r[31], 128 * sign);
    assert r[..] == bytes[31 := bytes[31] + 128 * sign];
  }

  /** The inversion chain inverts. */
  lemma InversionInverts(z: int)
    requires PrimeField.Prime(P) && !Cong(z, 0)
    ensures Cong(z * Pow(z, P - 2), 1)
  {
    FermatHere(z);
    assert Pow(z, P - 1) == z * Pow(z, P - 2);
  }

  /** Encoding depends on the point alone: with any inverses i and i' of their Z, all projective coordinates of a point
      give the same bytes. */
  lemma PackedProjective(a: Point, i: int, b: Point, i': int)
    requires Cong(a.z * i, 1) && Cong(b.z * i', 1)
    requires Cong(a.x * b.z, b.x * a.z) && Cong(a.y * b.z, b.y * a.z)
    ensures WithSign(a.x * i, a.y * i) == WithSign(b.x * i', b.y * i')
  {
    hide Cong;
    SameQuotient(a.x, a.z, i, b.x, b.z, i');
    SameQuotient(a.y, a.z, i, b.y, b.z, i');
  }

  lemma SameQuotient(x: int, z: int, i: int, x': int, z': int, i': int)
    requires Cong(x * z', x' * z) && Cong(z * i, 1) && Cong(z' * i', 1)
    ensures (x * i) % P == (x' * i') % P
  {
    hide Cong;
    Reflexive(x * i);
    Reflexive(x' * i');
    Reflexive(i * i');
    CongMul(x * i, x * i, z' * i', 1);
    CongMul(x' * i', x' * i', z * i, 1);
    CongMul(x * z', x' * z, i * i', i * i');
    Four(x, i, z', i');
    Four(x', i', z, i);
    assert i' * i == i * i';
    Flip((x * i) * (z' * i'), x * i);
    CongTrans(x * i, (x * z') * (i * i'), (x' * z) * (i * i'));
    CongTrans(x * i, (x' * z) * (i * i'), x' * i');
    Residues(x * i, x' * i');
  }

  lemma Residues(a: int, b: int)
    requires Cong(a, b)
    ensures a % P == b % P
  {
  }

  lemma PackedProduct(x: int, z: int, z': int, t: int)
    requires Cong(z, z') && Cong(t, x * z)
    ensures t % P == (x * z') % P
  {
    Reflexive(x);
    CongMul(x, x, z, z');
  }

  const TWO248: int := 0x1_0000_0000_0000_0000_0000_0000_0000_0000_0000_0000_0000_0000_0000_0000_0000_00

  /** A canonical number leaves the top bit of the last byte free for the sign. */
  lemma TopByte(bytes: seq<byte>, sign: int)
    requires |bytes| == 32 && LE(bytes) < P && (sign == 0 || sign == 1)
    ensures bytes[31] < 128 && Bits.Xor(bytes[31], 128 * sign) == bytes[31] + 128 * sign
    ensures LE(bytes[31 := bytes[31] + 128 * sign]) == LE(bytes) + (P + 19) * sign
  {
    hide LE, Bits.Xor;
    SplitTop(bytes);
    var top: int := bytes[31];
    TopSmall(LE(bytes[..31]), top);
    XorTop(top, sign);
    var marked: seq<byte> := bytes[31 := top + 128 * sign];
    SplitTop(marked);
    assert marked[..31] == bytes[..31] && marked[31] == top + 128 * sign;
  }

  lemma TopSmall(low: nat, top: nat)
    requires low + TWO248 * top < P
    ensures top < 128
  {
  }

  lemma SplitTop(bytes: seq<byte>)
    requires |bytes| == 32
    ensures LE(bytes) == LE(bytes[..31]) + TWO248 * bytes[31]
    ensures LE(bytes[..31]) < TWO248
  {
    assert bytes == bytes[..31] + [bytes[31]];
    assert LE([bytes[31]]) == bytes[31] by { assert [bytes[31]][1..] == []; }
    hide LE;
    LEAppend(bytes[..31], [bytes[31]]);
    LEBound(bytes[..31]);
    Pow256Of31();
  }

  lemma Pow256Of31()
    ensures Pow256(31) == TWO248
  {
    Pow256IsPow2(31);
    Pow2Of255();
    Bits.Pow2Values();
    Bits.Pow2Add(248, 7);
    Bits.Pow2Add(3, 4);
  }

  lemma XorTop(b: nat, sign: int)
    requires b < 128 && (sign == 0 || sign == 1)
    ensures Bits.Xor(b, 128 * sign) == b + 128 * sign
  {
    if sign == 0 {
      Bits.XorZero(b);
    } else {
      XorAbove(b, 7);
      Bits.Pow2Values();
      Bits.Pow2Add(3, 4);
    }
  }

  lemma {:induction false} XorAbove(b: nat, n: nat)
    requires b < Bits.Pow2(n)
    ensures Bits.Xor(b, Bits.Pow2(n)) == b + Bits.Pow2(n)
    decreases n
  {
    Bits.XorUnfold(b, Bits.Pow2(n));
    if n > 0 {
      XorAbove(b / 2, n - 1);
    }
  }

  /** Decoding, negating back and encoding returns the bytes exactly for canonical ones: y below p, and a sign bit only
      where y^2 is not 1. */
  lemma EncodeOfDecodeIff(c: Point, bytes: seq<byte>)
    requires |bytes| == 32 && Carries(c, bytes)
    ensures Packed(Negated(c)) == LE(bytes) <==> Canonical255(bytes)
  {
    hide *;
    BytesSplit(bytes);
    DecodedSign(c, bytes);
    PackedNegated(c);
    SignedIff(c.x, PackedY(bytes), bytes[31] / 128, Packed(Negated(c)), LE(bytes));
    CanonicalMeans(bytes);
  }

  /** A test on the bytes alone. */
  predicate Canonical255(bytes: seq<byte>)
    requires |bytes| == 32
  {
    PackedY(bytes) < P && (!YIsUnit(bytes) || bytes[31] / 128 == 0)
  }

  lemma CanonicalMeans(bytes: seq<byte>)
    requires |bytes| == 32
    ensures Canonical255(bytes) <==> PackedY(bytes) < P && (!YIsUnit(bytes) || bytes[31] / 128 == 0)
  {
  }

  /** The bytes decode, to the negative c, and encoding that point again gives other bytes. */
  predicate Renamed(bytes: seq<byte>, c: Point)
    requires |bytes| == 32
  {
    Decodable(bytes) && Decoded(c, bytes) && Packed(Negated(c)) != LE(bytes)
  }

  /** y = 1 with the sign bit set, and y = p + 1. */
  function SignedOne(): (r: seq<byte>)
    ensures |r| == 32 && r[31] == 0x80
  {
    [1] + Zeros(30) + [0x80]
  }

  function LargeOne(): (r: seq<byte>)
    ensures |r| == 32 && r[31] == 0x7F
  {
    [0xEE] + seq(30, _ => 0xFF) + [0x7F]
  }

  /** Both halves of the condition fail for some decodable bytes. */
  lemma NonCanonicalDecodes()
    ensures Renamed(SignedOne(), Point(0, 1, 1, 0))
    ensures Renamed(LargeOne(), Point(0, P + 1, 1, 0))
  {
    hide *;
    SignedOneY();
    LargeOneY();
    UnitRenamed(SignedOne(), 1);
    UnitRenamed(LargeOne(), P + 1);
  }

  lemma UnitRenamed(bytes: seq<byte>, y: int)
    requires |bytes| == 32 && PackedY(bytes) == y && y % P == 1 && (y >= P || bytes[31] / 128 == 1)
    ensures Renamed(bytes, Point(0, y, 1, 0))
  {
    hide LE, PackedY, Val, OnCurve, Decodable, YIsUnit, Packed, Carries;
    UnitDecodes(bytes, y);
    EncodeOfDecodeIff(Point(0, y, 1, 0), bytes);
  }

  /** Bytes with y = 1 modulo p decode to x = 0. */
  lemma UnitDecodes(bytes: seq<byte>, y: int)
    requires |bytes| == 32 && PackedY(bytes) == y && y % P == 1
    ensures YIsUnit(bytes) && Decodable(bytes) && Decoded(Point(0, y, 1, 0), bytes)
  {
    hide LE, Val, RootCandidate, PackedY;
    var u, v := y * y - 1, 1 + Val(D) * (y * y);
    CongMul(y, 1, y, 1);
    Reflexive(1);
    CongAdd(y * y, 1, 1, 1);
    Reflexive(RootCandidate(u, v));
    ZeroCandidate(u, v, RootCandidate(u, v));
    var x := RootCandidate(u, v);
    Reflexive(v);
    CongMul(x, 0, x, 0);
    CongMul(x * x, 0, v, v);
  }

  lemma SignedOneY()
    ensures PackedY(SignedOne()) == 1 && 1 % P == 1
  {
    var bytes := SignedOne();
    assert bytes[..31] == [1] + Zeros(30) && [1 as byte][1..] == [];
    LEAppend([1], Zeros(30));
    LEZeros(30);
    assert LE([1]) == 1;
    hide LE, SignedOne;
    SplitTop(bytes);
    Bits.DivModUnique(LE(bytes), P + 19, 1, 1);
  }

  lemma LargeOneY()
    ensures PackedY(LargeOne()) == P + 1 && (P + 1) % P == 1
  {
    var bytes := LargeOne();
    var ones: seq<byte> := seq(30, _ => 0xFF);
    assert bytes[..31] == [0xEE] + ones && [0xEE as byte][1..] == [];
    LEAppend([0xEE], ones);
    AllOnes(30);
    assert LE([0xEE]) == 0xEE;
    hide LE, LargeOne;
    SplitTop(bytes);
    Pow256Of31();
    assert Pow256(31) == 256 * Pow256(30) && Pow256(1) == 256;
    Bits.DivModUnique(LE(bytes), P + 19, 0, P + 1);
    Bits.DivModUnique(P + 1, P, 1, 1);
  }

  lemma {:induction false} AllOnes(n: nat)
    ensures LE(seq(n, _ => 0xFF)) == Pow256(n) - 1
  {
    if n > 0 {
      assert seq(n, _ => 0xFF as byte)[1..] == seq(n - 1, _ => 0xFF as byte);
      AllOnes(n - 1);
    }
  }

  lemma BytesSplit(bytes: seq<byte>)
    requires |bytes| == 32
    ensures LE(bytes) == PackedY(bytes) + (P + 19) * (bytes[31] / 128) && 0 <= PackedY(bytes) < P + 19
  {
    hide LE;
    SplitTop(bytes);
    TopSplit(LE(bytes), LE(bytes[..31]), bytes[31]);
  }

  lemma SignedIff(x: int, y: int, sign: int, packed: int, v: int)
    requires 0 <= y < P + 19 && 0 <= sign <= 1 && (x % P == 0 || (x % P) % 2 != sign)
    requires packed == y % P + (P + 19) * (((-x) % P) % 2) && v == y + (P + 19) * sign
    ensures packed == v <==> y < P && (x % P != 0 || sign == 0)
  {
    assert -x == 0 - x;
    if x % P == 0 { OppositeZero(x); } else { OppositeParity(x); }
    CanonicalIff(y, sign, ((-x) % P) % 2);
  }

  lemma TopSplit(v: int, low: int, top: int)
    requires 0 <= low < TWO248 && 0 <= top < 256 && v == low + TWO248 * top
    ensures v == v % (P + 19) + (P + 19) * (top / 128)
  {
    Bits.DivModUnique(v, P + 19, top / 128, low + TWO248 * (top % 128));
  }

  lemma PackedNegated(c: Point)
    requires c.z == 1
    ensures Packed(Negated(c)) == c.y % P + (P + 19) * (((-c.x) % P) % 2)
  {
    PowOne(P - 2);
  }

  lemma DecodedSign(c: Point, bytes: seq<byte>)
    requires |bytes| == 32 && Carries(c, bytes)
    ensures c.z == 1 && c.y == PackedY(bytes) && (c.x % P == 0 <==> YIsUnit(bytes))
    ensures c.x % P == 0 || (c.x % P) % 2 != bytes[31] / 128
  {
  }

  lemma CanonicalIff(y: int, sign: int, parity: int)
    requires 0 <= y < P + 19 && 0 <= sign <= 1 && 0 <= parity <= 1
    ensures y % P + (P + 19) * parity == y + (P + 19) * sign <==> y < P && parity == sign
  {
    assert y >= P ==> y % P == y - P by {
      if y >= P {
        Bits.DivModUnique(y, P, 1, y - P);
      }
    }
  }

  lemma {:induction false} PowOne(e: nat)
    ensures Pow(1, e) == 1
  {
    if e > 0 {
      PowOne(e - 1);
    }
  }
}
