/** The curve equation under point addition, and the ladder that multiplies a point by a scalar. */
module Ed25519Group {
  import opened Bytes
  import opened Modular
  import opened Ed25519Field
  import opened Ed25519Curve
  import Bits

  /////////////////////////////////////////////////////////////////////////////
  // Closure: the sum of two curve points is a curve point
  /////////////////////////////////////////////////////////////////////////////

  predicate Cong(a: int, b: int) {
    a % P == b % P
  }

  /** -x^2 + y^2 = 1 + d x^2 y^2 in extended coordinates: x = X/Z, y = Y/Z, xy = T/Z. */
  predicate OnCurve(p: Point, d: int) {
    Cong(p.x * p.y, p.z * p.t) && Cong(p.y * p.y - p.x * p.x, p.z * p.z + d * (p.t * p.t))
  }

  /** Half the terms e and h of the sum, in s = x^2 + y^2, the difference y^2 - x^2 and u = x y. */
  lemma SquaredTerms(x: int, y: int, x': int, y': int, s: int, s': int, r: int, r': int, u: int, u': int)
    requires s == x * x + y * y && r == y * y - x * x && u == x * y
    requires s' == x' * x' + y' * y' && r' == y' * y' - x' * x' && u' == x' * y'
    ensures var e, h := x * y' + x' * y, y * y' + x * x';
            && 2 * (e * e) == s * s' - r * r' + 4 * (u * u')
            && 2 * (h * h) == s * s' + r * r' + 4 * (u * u')
            && e * h == u * s' + u' * s
            && s * s == r * r + 4 * (u * u) && s' * s' == r' * r' + 4 * (u' * u')
  {
    var xx, yy, xx', yy' := x * x, y * y, x' * x', y' * y';
    Quad(x, y', x', y);
    Quad(y, y', x, x');
    assert s * s' == xx * xx' + xx * yy' + yy * xx' + yy * yy' by { Two(xx, yy, xx', yy'); }
    assert r * r' == yy * yy' - yy * xx' - xx * yy' + xx * xx' by { Two(yy, -xx, yy', -xx'); }
    Swap(x, y, x', y');
    Single(x, y);
    Single(x', y');
    EH(x, y, x', y');
  }

  lemma Two(a: int, b: int, c: int, d: int)
    ensures (a + b) * (c + d) == a * c + a * d + b * c + b * d
  {
  }

  lemma Quad(a: int, b: int, c: int, d: int)
    ensures (a * b + c * d) * (a * b + c * d) == (a * a) * (b * b) + 2 * ((a * b) * (c * d)) + (c * c) * (d * d)
  {
    Square(a * b, c * d);
    Four(a, b, a, b);
    Four(c, d, c, d);
  }

  lemma Square(a: int, b: int)
    ensures (a + b) * (a + b) == a * a + 2 * (a * b) + b * b
  {
  }

  lemma Four(a: int, b: int, c: int, d: int)
    ensures (a * b) * (c * d) == (a * c) * (b * d)
  {
  }

  lemma Swap(x: int, y: int, x': int, y': int)
    ensures (x * y') * (x' * y) == (x * y) * (x' * y')
    ensures (y * y') * (x * x') == (x * y) * (x' * y')
  {
  }

  lemma Single(x: int, y: int)
    ensures (x * x + y * y) * (x * x + y * y)
         == (y * y - x * x) * (y * y - x * x) + 4 * ((x * y) * (x * y))
  {
    var a, b := x * x, y * y;
    Square(a, b);
    Square(b, -a);
    Four(x, y, x, y);
  }

  lemma EH(x: int, y: int, x': int, y': int)
    ensures (x * y' + x' * y) * (y * y' + x * x')
         == (x * y) * (x' * x' + y' * y') + (x' * y') * (x * x + y * y)
  {
    Two(x * y', x' * y, y * y', x * x');
    Four(x, y', y, y');
    Four(x, y', x, x');
    Four(x', y, y, y');
    Four(x', y, x, x');
  }

  /** Twice h^2 g^2 - e^2 f^2 - f^2 g^2 - d e^2 h^2, with the squares replaced by what they are made of. */
  lemma Expanded(E: int, H: int, F: int, G: int, d: int, ss: int, rr: int, uu: int, mt: int, us: int)
    requires 2 * E == ss - rr + 4 * uu && 2 * H == ss + rr + 4 * uu && G == F + 4 * (d * mt)
    requires E * H == us + 2 * (uu * ss)
    ensures 2 * (H * G - E * F - F * G - d * (E * H))
         == 4 * (d * (ss * (mt - uu))) + rr * (G + F) + 16 * (d * (uu * mt)) - 2 * (F * G) - 2 * (d * us)
  {
    var k := d * mt;
    Scaled(ss, rr, uu, H, G);
    Scaled(ss, -rr, uu, E, F);
    Two(F, 4 * k, ss + 4 * uu, 0);
    MoveIn(d, ss, mt, uu);
    MoveIn(d, us, 1, -1);
    assert ss * k == d * (ss * mt) && uu * k == d * (uu * mt);
    assert d * (us + 2 * (uu * ss)) == d * us + 2 * (d * (uu * ss));
  }

  lemma Scaled(ss: int, rr: int, uu: int, H: int, G: int)
    requires 2 * H == ss + rr + 4 * uu
    ensures 2 * (H * G) == ss * G + rr * G + 4 * (uu * G)
  {
    assert 2 * (H * G) == (ss + rr + 4 * uu) * G;
  }

  lemma MoveIn(d: int, s: int, m: int, u: int)
    ensures d * (s * (m - u)) == d * (s * m) - d * (u * s)
  {
    assert s * (m - u) == s * m - u * s;
  }

  /** The same expression after the curve equations are used: it vanishes. */
  lemma Vanishes(a: int, b: int, a': int, b': int)
    ensures ((a + b) * (a' + b')) * (2 * (a * a' + b * b'))
         == 2 * ((a * a' - b * b') * (a * a' - b * b'))
            + 2 * ((a * b) * ((a' + b') * (a' + b')) + (a' * b') * ((a + b) * (a + b)))
  {
    var m, n, k, l := a * a', b * b', a * b', b * a';
    Two(a, b, a', b');
    Square(m, -n);
    Square(a', b');
    Square(a, b);
    Two(m + n, k + l, m, n);
    Two(k, l, m, n);
    Square(m, n);
    Four(a, b', a, a'); Four(a, b', b, b'); Four(b, a', a, a'); Four(b, a', b, b');
    Four(a, b, a', b');
    assert k * m == (a * a) * (a' * b') && k * n == (a * b) * (b' * b');
    assert l * m == (a * b) * (a' * a') && l * n == (b * b) * (a' * b');
    assert m * n == (a * b) * (a' * b');
  }

  lemma CongMul(a: int, a': int, b: int, b': int)
    requires Cong(a, a') && Cong(b, b')
    ensures Cong(a * b, a' * b')
  {
    MulCong2(a, a', b, b', P);
  }

  lemma CongAdd(a: int, a': int, b: int, b': int)
    requires Cong(a, a') && Cong(b, b')
    ensures Cong(a + b, a' + b') && Cong(a - b, a' - b')
  {
    SubCong(a, a', b, b', P);
  }

  /** Where u = w, u' = w', r = c and r' = c' hold modulo p, the expression may be taken in the latter. */
  lemma Substituted(d: int, ss: int, u: int, u': int, w: int, w': int, r: int, r': int, c: int, c': int, fg: int, FG: int)
    requires Cong(u, w) && Cong(u', w') && Cong(r, c) && Cong(r', c')
    ensures Cong(4 * (d * (ss * (w * w' - u * u'))) + (r * r') * fg + 16 * (d * ((u * u') * (w * w'))) - 2 * FG
                 - 2 * (d * ((u * u) * (r' * r' + 4 * (u' * u')) + (u' * u') * (r * r + 4 * (u * u)))),
                 (c * c') * fg - 2 * FG - 2 * (d * ((w * w) * (c' * c') + (w' * w') * (c * c))))
  {
    hide Cong;
    Reflexive(d); Reflexive(ss); Reflexive(fg); Reflexive(FG); Reflexive(2); Reflexive(4); Reflexive(16); Reflexive(w * w');
    CongMul(u, w, u', w');
    CongMul(u, w, u, w);
    CongMul(u', w', u', w');
    CongMul(r, c, r', c');
    CongMul(r, c, r, c);
    CongMul(r', c', r', c');
    // the first summand disappears
    CongAdd(w * w', w * w', u * u', w * w');
    CongMul(ss, ss, w * w' - u * u', 0);
    CongMul(d, d, ss * (w * w' - u * u'), 0);
    CongMul(4, 4, d * (ss * (w * w' - u * u')), 0);
    // the others, one by one
    CongMul(r * r', c * c', fg, fg);
    CongMul(u * u', w * w', w * w', w * w');
    var ww := (w * w') * (w * w');
    CongMul(d, d, (u * u') * (w * w'), ww);
    CongMul(16, 16, d * ((u * u') * (w * w')), d * ww);
    SquarePart(u, w, u', w', r', c');
    SquarePart(u', w', u, w, r, c);
    var left, right := (u * u) * (r' * r' + 4 * (u' * u')), (u' * u') * (r * r + 4 * (u * u));
    var left', right' := (w * w) * (c' * c' + 4 * (w' * w')), (w' * w') * (c * c + 4 * (w * w));
    CongAdd(left, left', right, right');
    CongMul(d, d, left + right, left' + right');
    CongMul(2, 2, d * (left + right), d * (left' + right'));
    var t1, t2 := 4 * (d * (ss * (w * w' - u * u'))), (r * r') * fg;
    var t3, t5 := 16 * (d * ((u * u') * (w * w'))), 2 * (d * (left + right));
    CongAdd(t1, 0, t2, (c * c') * fg);
    CongAdd(t1 + t2, (c * c') * fg, t3, 16 * (d * ww));
    Reflexive(2 * FG);
    CongAdd(t1 + t2 + t3, (c * c') * fg + 16 * (d * ww), 2 * FG, 2 * FG);
    CongAdd(t1 + t2 + t3 - 2 * FG, (c * c') * fg + 16 * (d * ww) - 2 * FG, t5, 2 * (d * (left' + right')));
    Leftover(d, w, w', c * c, c' * c');
  }

  lemma Reflexive(a: int)
    ensures Cong(a, a)
  {
  }

  lemma SquarePart(u: int, w: int, u': int, w': int, r': int, c': int)
    requires Cong(u, w) && Cong(u', w') && Cong(r', c')
    ensures Cong((u * u) * (r' * r' + 4 * (u' * u')), (w * w) * (c' * c' + 4 * (w' * w')))
  {
    hide Cong;
    Reflexive(4);
    CongMul(u, w, u, w);
    CongMul(u', w', u', w');
    CongMul(r', c', r', c');
    CongMul(4, 4, u' * u', w' * w');
    CongAdd(r' * r', c' * c', 4 * (u' * u'), 4 * (w' * w'));
    CongMul(u * u, w * w, r' * r' + 4 * (u' * u'), c' * c' + 4 * (w' * w'));
  }

  /** The two products of four equal factors cancel the third summand. */
  lemma Leftover(d: int, w: int, w': int, cc: int, cc': int)
    ensures 16 * (d * ((w * w') * (w * w')))
            - 2 * (d * ((w * w) * (cc' + 4 * (w' * w')) + (w' * w') * (cc + 4 * (w * w))))
         == -(2 * (d * ((w * w) * cc' + (w' * w') * cc)))
  {
    var a, b := w * w, w' * w';
    Four(w, w', w, w');
    assert a * (cc' + 4 * b) == a * cc' + 4 * (a * b);
    assert b * (cc + 4 * a) == b * cc + 4 * (a * b);
    assert d * (a * cc' + b * cc + 8 * (a * b)) == d * (a * cc' + b * cc) + 8 * (d * (a * b));
  }

  /** The terms f and g of the sum, halved: their squares in a = z^2, b = d t^2 of both points. */
  lemma ProductSquares(z: int, t: int, z': int, t': int, d: int)
    ensures var f, g := z * z' - d * (t * t'), z * z' + d * (t * t');
            var a, b, a', b' := z * z, d * (t * t), z' * z', d * (t' * t');
            && g * g == f * f + 4 * (d * ((z * t) * (z' * t')))
            && g * g + f * f == 2 * (a * a' + b * b')
            && (f * f) * (g * g) == (a * a' - b * b') * (a * a' - b * b')
  {
    var m, n := z * z', d * (t * t');
    Square(m, n);
    Square(m, -n);
    Four(z, z', z, z');
    assert n * n == (d * (t * t)) * (d * (t' * t')) by {
      Four(d, t * t', d, t * t');
      Four(t, t', t, t');
      Four(d, t * t, d, t' * t');
    }
    assert m * n == d * ((z * t) * (z' * t')) by {
      Four(z, z', t, t');
      Rotate(m, d, t * t');
    }
    Four(m - n, m - n, m + n, m + n);
    assert (m - n) * (m + n) == m * m - n * n;
  }

  lemma Rotate(a: int, b: int, c: int)
    ensures a * (b * c) == b * (a * c)
  {
  }

  lemma ZeroSide(z: int, t: int, z': int, t': int, d: int, w: int, w': int, c: int, c': int, fg: int, FG: int)
    requires w == z * t && w' == z' * t' && c == z * z + d * (t * t) && c' == z' * z' + d * (t' * t')
    requires var a, b, a', b' := z * z, d * (t * t), z' * z', d * (t' * t');
             fg == 2 * (a * a' + b * b') && FG == (a * a' - b * b') * (a * a' - b * b')
    ensures (c * c') * fg - 2 * FG - 2 * (d * ((w * w) * (c' * c') + (w' * w') * (c * c))) == 0
  {
    var a, b, a', b' := z * z, d * (t * t), z' * z', d * (t' * t');
    Vanishes(a, b, a', b');
    Weighted(z, t, d, c' * c');
    Weighted(z', t', d, c * c);
    assert d * ((w * w) * (c' * c') + (w' * w') * (c * c))
        == d * ((w * w) * (c' * c')) + d * ((w' * w') * (c * c));
  }

  lemma Weighted(z: int, t: int, d: int, k: int)
    ensures d * (((z * t) * (z * t)) * k) == ((z * z) * (d * (t * t))) * k
  {
    Four(z, t, z, t);
    Rotate(d, z * z, t * t);
    var q := (z * z) * (t * t);
    assert d * (q * k) == (d * q) * k;
  }

  /** The halved terms satisfy the curve equation, scaled by 2. */
  lemma HalvedOnCurve(p: Point, q: Point, d: int, e: int, h: int, f: int, g: int)
    requires OnCurve(p, d) && OnCurve(q, d)
    requires e == p.x * q.y + q.x * p.y && h == p.y * q.y + p.x * q.x
    requires f == p.z * q.z - d * (p.t * q.t) && g == p.z * q.z + d * (p.t * q.t)
    ensures Cong(2 * ((h * h) * (g * g) - (e * e) * (f * f) - (f * f) * (g * g) - d * ((e * e) * (h * h))), 0)
  {
    var s, s' := p.x * p.x + p.y * p.y, q.x * q.x + q.y * q.y;
    var r, r' := p.y * p.y - p.x * p.x, q.y * q.y - q.x * q.x;
    var u, u', w, w' := p.x * p.y, q.x * q.y, p.z * p.t, q.z * q.t;
    var c, c' := p.z * p.z + d * (p.t * p.t), q.z * q.z + d * (q.t * q.t);
    hide Cong;
    SquaredTerms(p.x, p.y, q.x, q.y, s, s', r, r', u, u');
    ProductSquares(p.z, p.t, q.z, q.t, d);
    var us := (u * u) * (s' * s') + (u' * u') * (s * s);
    CrossSquare(e, h, u, s', u', s);
    Expanded(e * e, h * h, f * f, g * g, d, s * s', r * r', u * u', w * w', us);
    Substituted(d, s * s', u, u', w, w', r, r', c, c', g * g + f * f, (f * f) * (g * g));
    ZeroSide(p.z, p.t, q.z, q.t, d, w, w', c, c', g * g + f * f, (f * f) * (g * g));
  }

  lemma CrossSquare(e: int, h: int, u: int, s': int, u': int, s: int)
    requires e * h == u * s' + u' * s
    ensures (e * e) * (h * h) == (u * u) * (s' * s') + (u' * u') * (s * s) + 2 * ((u * u') * (s * s'))
  {
    Four(e, e, h, h);
    Quad(u, s', u', s);
    Four(u, s', u', s);
  }

  /** The coordinates of the sum in the halved terms. */
  lemma SumInTerms(p: Point, q: Point, d: int)
    ensures var e, h := p.x * q.y + q.x * p.y, p.y * q.y + p.x * q.x;
            var f, g := p.z * q.z - d * (p.t * q.t), p.z * q.z + d * (p.t * q.t);
            Sum(p, q, d) == FromTerms(e, h, f, g)
  {
    var e, h := p.x * q.y + q.x * p.y, p.y * q.y + p.x * q.x;
    var m, n := p.z * q.z, d * (p.t * q.t);
    assert 2 * (m - n) == 2 * m - 2 * n && 2 * (m + n) == 2 * m + 2 * n;
  }

  function FromTerms(e: int, h: int, f: int, g: int): Point {
    Point((2 * e) * (2 * f), (2 * h) * (2 * g), (2 * g) * (2 * f), (2 * e) * (2 * h))
  }

  /** By how much the doubled terms miss the curve equation. */
  lemma Defect(e: int, h: int, f: int, g: int, d: int)
    ensures var r := FromTerms(e, h, f, g);
            var k := (h * h) * (g * g) - (e * e) * (f * f) - (f * f) * (g * g) - d * ((e * e) * (h * h));
            (r.y * r.y - r.x * r.x) - (r.z * r.z + d * (r.t * r.t)) == 8 * (2 * k)
  {
    Doubled(e, f);
    Doubled(h, g);
    Doubled(g, f);
    Doubled(e, h);
    Rotate(d, 16, (e * e) * (h * h));
    DefectAlgebra((h * h) * (g * g), (e * e) * (f * f), (f * f) * (g * g), (g * g) * (f * f), d * ((e * e) * (h * h)));
  }

  lemma DefectAlgebra(hg: int, ef: int, fg: int, gf: int, deh: int)
    requires fg == gf
    ensures (16 * hg - 16 * ef) - (16 * gf + 16 * deh) == 8 * (2 * (hg - ef - fg - deh))
  {
  }

  /** X Y = Z T holds of any four terms. */
  lemma TermsBalance(e: int, h: int, f: int, g: int)
    ensures var r := FromTerms(e, h, f, g);
            r.x * r.y == r.z * r.t
  {
    FourFactors(2 * e, 2 * f, 2 * g, 2 * h);
  }

  /** The curve is closed under the addition formula, for all of its points, equal ones and the identity included. */
  lemma SumOnCurve(p: Point, q: Point, d: int)
    requires OnCurve(p, d) && OnCurve(q, d)
    ensures OnCurve(Sum(p, q, d), d)
  {
    var e, h := p.x * q.y + q.x * p.y, p.y * q.y + p.x * q.x;
    var f, g := p.z * q.z - d * (p.t * q.t), p.z * q.z + d * (p.t * q.t);
    HalvedOnCurve(p, q, d, e, h, f, g);
    SumInTerms(p, q, d);
    hide OnCurve, Sum;
    TermsOnCurve(e, h, f, g, d);
  }

  lemma TermsOnCurve(e: int, h: int, f: int, g: int, d: int)
    requires Cong(2 * ((h * h) * (g * g) - (e * e) * (f * f) - (f * f) * (g * g) - d * ((e * e) * (h * h))), 0)
    ensures OnCurve(FromTerms(e, h, f, g), d)
  {
    hide Cong, FromTerms;
    var k := (h * h) * (g * g) - (e * e) * (f * f) - (f * f) * (g * g) - d * ((e * e) * (h * h));
    var r := FromTerms(e, h, f, g);
    Reflexive(8);
    CongMul(8, 8, 2 * k, 0);
    Defect(e, h, f, g, d);
    ZeroDifference(r.y * r.y - r.x * r.x, r.z * r.z + d * (r.t * r.t), 8 * (2 * k));
    TermsBalance(e, h, f, g);
    Reflexive(r.x * r.y);
  }

  lemma Doubled(a: int, b: int)
    ensures ((2 * a) * (2 * b)) * ((2 * a) * (2 * b)) == 16 * ((a * a) * (b * b))
  {
    Four(a, b, a, b);
    assert (2 * a) * (2 * b) == 4 * (a * b);
  }

  lemma ZeroDifference(a: int, b: int, k: int)
    requires a - b == k && Cong(k, 0)
    ensures Cong(a, b)
  {
    Reflexive(b);
    CongAdd(k, 0, b, b);
  }

  function Negated(p: Point): Point {
    Point(-p.x, p.y, p.z, -p.t)
  }

  /** Adding the negative gives a multiple of the identity (0 : 1 : 1 : 0). */
  lemma SumWithNegated(p: Point, d: int)
    requires OnCurve(p, d)
    ensures var r := Sum(p, Negated(p), d);
            r.x == 0 && r.t == 0 && Cong(r.y, r.z)
  {
    var n := Negated(p);
    var h, f := 2 * (p.y * n.y + p.x * n.x), 2 * (p.z * n.z) - 2 * (d * (p.t * n.t));
    var g := 2 * (p.z * n.z) + 2 * (d * (p.t * n.t));
    assert p.x * n.y + n.x * p.y == 0;
    assert h == 2 * (p.y * p.y - p.x * p.x);
    assert d * (p.t * n.t) == -(d * (p.t * p.t));
    Reflexive(2);
    Reflexive(g);
    CongMul(2, 2, p.y * p.y - p.x * p.x, p.z * p.z + d * (p.t * p.t));
    CongMul(h, f, g, g);
    assert f * g == g * f;
  }

  /////////////////////////////////////////////////////////////////////////////
  // Multiplication by a scalar
  /////////////////////////////////////////////////////////////////////////////

  const IDENTITY: Point := Point(0, 1, 1, 0)

  /** Bit i of a little-endian scalar, as the code extracts it. */
  function ScalarBit(s: seq<byte>, i: nat): (b: int)
    requires i < 8 * |s|
    ensures b == 0 || b == 1
  {
    var x: int := s[i / 8];
    (x / Bits.Pow2(i % 8)) % 2
  }

  /** The two points of the ladder after the bits from the top down to i. */
  function Ladder(q: Point, d: int, s: seq<byte>, i: nat): (r: (Point, Point))
    requires i <= 8 * |s|
    decreases 8 * |s| - i
  {
    if i == 8 * |s| then (IDENTITY, q)
    else
      var (r0, r1) := Ladder(q, d, s, i + 1);
      if ScalarBit(s, i) == 1 then (Sum(r0, r1, d), Sum(r1, r1, d)) else (Sum(r0, r0, d), Sum(r1, r0, d))
  }

  /** Bit i of the bytes is bit i of the number. */
  lemma {:induction false} BitOfNumber(s: seq<byte>, i: nat)
    requires i < 8 * |s|
    ensures ScalarBit(s, i) == (LE(s) / Bits.Pow2(i)) % 2
    decreases i
  {
    var lo: int, rest := s[0], LE(s[1..]);
    if i < 8 {
      Bits.Pow2Add(i, 8 - i);
      Bits.Pow2Values();
      ShiftedSum(lo, rest, Bits.Pow2(i), Bits.Pow2(7 - i));
      assert Bits.Pow2(8 - i) == 2 * Bits.Pow2(7 - i);
    } else {
      BitOfNumber(s[1..], i - 8);
      assert s[1..][(i - 8) / 8] == s[i / 8];
      Bits.Pow2Add(8, i - 8);
      Bits.Pow2Values();
      DivOfDiv(lo + 256 * rest, 256, Bits.Pow2(i - 8));
      Bits.DivModUnique(lo + 256 * rest, 256, rest, lo);
    }
  }

  lemma ShiftedSum(lo: int, rest: int, m: int, k: int)
    requires m > 0 && k > 0 && m * (2 * k) == 256
    ensures ((lo + 256 * rest) / m) % 2 == (lo / m) % 2
  {
    MulThree(m, k, rest);
    ShiftedBy(lo, m, k * rest, lo / m, lo % m);
  }

  lemma MulThree(m: int, k: int, n: int)
    ensures (m * (2 * k)) * n == m * (2 * (k * n))
  {
  }

  lemma ShiftedBy(lo: int, m: int, j: int, q: int, r: int)
    requires m > 0 && lo == m * q + r && 0 <= r < m
    ensures ((lo + m * (2 * j)) / m) % 2 == q % 2
  {
    assert m * (q + 2 * j) == m * q + m * (2 * j) by { Two(m, 0, q, 2 * j); }
    QuotientParity(lo + m * (2 * j), m, q, j, r);
  }

  lemma QuotientParity(v: int, m: int, q: int, j: int, r: int)
    requires m > 0 && 0 <= r < m && v == m * (q + 2 * j) + r
    ensures (v / m) % 2 == q % 2
  {
    Bits.DivModUnique(v, m, q + 2 * j, r);
  }

  lemma DivOfDiv(v: int, a: int, b: int)
    requires a > 0 && b > 0
    ensures a * b > 0 && v / (a * b) == (v / a) / b
  {
    DivInTwo(v, a, b, v / a, v % a, v / a / b, v / a % b);
  }

  lemma DivInTwo(v: int, a: int, b: int, q: int, r: int, q': int, r': int)
    requires a > 0 && b > 0 && v == a * q + r && 0 <= r < a && q == b * q' + r' && 0 <= r' < b
    ensures a * b > 0 && v / (a * b) == q'
  {
    assert a * (b * q' + r') == (a * b) * q' + a * r';
    MulUpTo(a, r', b - 1);
    assert a * (b - 1) == a * b - a;
    Bits.DivModUnique(v, a * b, q', a * r' + r);
  }

  /** The number made of the bits from i on. */
  function Upper(s: seq<byte>, i: nat): (n: nat) {
    Quotient(LE(s), Bits.Pow2(i))
  }

  function Quotient(v: nat, m: nat): (q: nat)
    requires m > 0
  {
    v / m
  }

  /** Each bit extends the number made of the bits above it. */
  lemma PrefixStep(s: seq<byte>, i: nat)
    requires i < 8 * |s|
    ensures Upper(s, i) == 2 * Upper(s, i + 1) + ScalarBit(s, i)
  {
    BitOfNumber(s, i);
    assert Bits.Pow2(i + 1) == Bits.Pow2(i) * 2;
    DivOfDiv(LE(s), Bits.Pow2(i), 2);
  }

  /** rep(g, n) holds of the points that stand for n times a base point, if the addition formula adds multiples. */
  ghost predicate Additive(rep: (Point, nat) -> bool, d: int) {
    forall g: Point, h: Point, m: nat, n: nat :: rep(g, m) && rep(h, n) ==> rep(Sum(g, h, d), m + n)
  }

  /** Wherever the addition formula adds multiples of q, the ladder multiplies q by the scalar. */
  lemma {:induction false} LadderMultiplies(rep: (Point, nat) -> bool, q: Point, d: int, s: seq<byte>, i: nat)
    requires i <= 8 * |s| && Additive(rep, d) && rep(IDENTITY, 0) && rep(q, 1)
    ensures var n := Upper(s, i);
            rep(Ladder(q, d, s, i).0, n) && rep(Ladder(q, d, s, i).1, n + 1)
    decreases 8 * |s| - i
  {
    if i == 8 * |s| {
      AllBits(s);
    } else {
      hide Sum, ScalarBit, Upper;
      LadderMultiplies(rep, q, d, s, i + 1);
      PrefixStep(s, i);
    }
  }

  lemma ScalarMultiple(rep: (Point, nat) -> bool, q: Point, d: int, s: seq<byte>)
    requires Additive(rep, d) && rep(IDENTITY, 0) && rep(q, 1)
    ensures rep(Ladder(q, d, s, 0).0, LE(s))
  {
    LadderMultiplies(rep, q, d, s, 0);
    assert Bits.Pow2(0) == 1;
  }

  /** A way to add up copies of one point: the identity, the point, or the sum of two such. */
  datatype Adding = Nothing | Once | Plus(left: Adding, right: Adding) {

    function Copies(): nat {
      match this
      case Nothing => 0
      case Once => 1
      case Plus(l, r) => l.Copies() + r.Copies()
    }

    function Total(q: Point, d: int): Point {
      match this
      case Nothing => IDENTITY
      case Once => q
      case Plus(l, r) => Sum(l.Total(q, d), r.Total(q, d), d)
    }
  }

  /** With nothing assumed: the ladder's point is what the addition formula makes of exactly as many copies of q as the
      scalar says, added up in some order. */
  lemma LadderAddsCopies(q: Point, d: int, s: seq<byte>)
    ensures exists a: Adding :: a.Copies() == LE(s) && a.Total(q, d) == Ladder(q, d, s, 0).0
  {
    hide Sum, Ladder;
    var rep := (g: Point, n: nat) => exists a: Adding :: a.Copies() == n && a.Total(q, d) == g;
    assert rep(IDENTITY, 0) by { assert Nothing.Copies() == 0 && Nothing.Total(q, d) == IDENTITY; }
    assert rep(q, 1) by { assert Once.Copies() == 1 && Once.Total(q, d) == q; }
    forall g: Point, h: Point, m: nat, n: nat | rep(g, m) && rep(h, n)
      ensures rep(Sum(g, h, d), m + n)
    {
      var a: Adding :| a.Copies() == m && a.Total(q, d) == g;
      var b: Adding :| b.Copies() == n && b.Total(q, d) == h;
      assert Plus(a, b).Copies() == m + n && Plus(a, b).Total(q, d) == Sum(g, h, d);
    }
    ScalarMultiple(rep, q, d, s);
  }

  lemma AllBits(s: seq<byte>)
    ensures Upper(s, 8 * |s|) == 0
  {
    LEBound(s);
    Pow256IsPow2(|s|);
    Bits.DivModUnique(LE(s), Bits.Pow2(8 * |s|), 0, LE(s));
  }

  lemma {:induction false} Pow256IsPow2(n: nat)
    ensures Pow256(n) == Bits.Pow2(8 * n)
  {
    if n > 0 {
      Pow256IsPow2(n - 1);
      Bits.Pow2Add(8, 8 * (n - 1));
      Bits.Pow2Values();
    }
  }

  /** From a curve point the ladder never leaves the curve, whatever the scalar. */
  lemma {:induction false} LadderOnCurve(q: Point, d: int, s: seq<byte>, i: nat)
    requires i <= 8 * |s| && OnCurve(q, d)
    ensures OnCurve(Ladder(q, d, s, i).0, d) && OnCurve(Ladder(q, d, s, i).1, d)
    decreases 8 * |s| - i
  {
    if i < 8 * |s| {
      var (r0, r1) := Ladder(q, d, s, i + 1);
      LadderOnCurve(q, d, s, i + 1);
      hide OnCurve, Sum;
      SumOnCurve(r0, r0, d);
      SumOnCurve(r0, r1, d);
      SumOnCurve(r1, r0, d);
      SumOnCurve(r1, r1, d);
    }
  }
}
