/** Arithmetic modulo a prime: inverses, no zero divisors, Fermat's little theorem and square roots of 1. */
module PrimeField {
  import opened Modular

  ghost predicate Prime(p: int) {
    p > 1 && forall d :: 1 < d < p ==> p % d != 0
  }

  lemma AtLeastTwo(p: int)
    requires Prime(p)
    ensures p > 1
  {
  }

  /** Division with remainder leads from a to a smaller number that has an inverse. */
  lemma {:induction false} Inverse(p: int, a: int) returns (b: int)
    requires Prime(p) && 0 < a < p
    ensures (a * b) % p == 1
    decreases a
  {
    if a == 1 {
      b := 1;
    } else {
      var q, r := p / a, p % a;
      var c := Inverse(p, r);
      b := -(q * c);
      assert a * b == r * c + p * -c by {
        assert p == a * q + r;
        assert a * b == -((a * q) * c);
        assert (p - r) * c == p * c - r * c;
      }
      CongruentByMultiple(a * b, r * c, p, -c);
    }
  }

  lemma Cancel(p: int, a: int, x: int, y: int)
    requires Prime(p) && a % p != 0 && (a * x) % p == (a * y) % p
    ensures x % p == y % p
  {
    hide Prime;
    AtLeastTwo(p);
    var b := InverseOf(p, a);
    CancelBy(p, a, b, x, y);
  }

  lemma InverseOf(p: int, a: int) returns (b: int)
    requires Prime(p) && a % p != 0
    ensures (a * b) % p == 1
  {
    AtLeastTwo(p);
    hide Prime;
    b := Inverse(p, a % p);
    MulCong(a, a % p, b, p);
  }

  lemma CancelBy(p: int, a: int, b: int, x: int, y: int)
    requires p > 1 && (a * b) % p == 1 && (a * x) % p == (a * y) % p
    ensures x % p == y % p
  {
    Undo(p, a, b, x);
    Undo(p, a, b, y);
    MulCong(a * x, a * y, b, p);
  }

  lemma Undo(p: int, a: int, b: int, x: int)
    requires p > 1 && (a * b) % p == 1
    ensures ((a * x) * b) % p == x % p
  {
    SmallMod(1, p);
    MulCong(a * b, 1, x, p);
    Shuffle(a, x, b);
  }

  lemma Shuffle(a: int, x: int, b: int)
    ensures (a * x) * b == (a * b) * x
  {
  }

  lemma NoZeroDivisors(p: int, a: int, b: int)
    requires Prime(p) && (a * b) % p == 0
    ensures a % p == 0 || b % p == 0
  {
    hide Prime;
    AtLeastTwo(p);
    if a % p != 0 {
      Cancel(p, a, b, 0);
    }
  }

  /////////////////////////////////////////////////////////////////////////////
  // Products over sets of residues
  /////////////////////////////////////////////////////////////////////////////

  ghost function Prod(s: set<nat>): int {
    if s == {} then 1 else var x :| x in s; x * Prod(s - {x})
  }

  lemma {:induction false} ProdRemove(s: set<nat>, x: nat)
    requires x in s
    ensures Prod(s) == x * Prod(s - {x})
    decreases |s|
  {
    var y :| y in s && Prod(s) == y * Prod(s - {y});
    if x != y {
      ProdRemove(s - {y}, x);
      ProdRemove(s - {x}, y);
      assert s - {y} - {x} == s - {x} - {y};
      Reorder(x, y, Prod(s - {x} - {y}));
    }
  }

  lemma Reorder(x: int, y: int, z: int)
    ensures y * (x * z) == x * (y * z)
  {
  }

  /** 1, ..., n. */
  function Residues(n: nat): (s: set<nat>)
    ensures forall i :: i in s <==> 1 <= i <= n
  {
    if n == 0 then {} else Residues(n - 1) + {n}
  }

  lemma {:induction false} CountResidues(n: nat)
    ensures |Residues(n)| == n
  {
    if n == 0 {
      assert Residues(0) == {};
    } else {
      CountResidues(n - 1);
      assert Residues(n) == Residues(n - 1) + {n};
    }
  }

  function Times(p: int, a: int, i: nat): nat
    requires p > 1
  {
    (a * i) % p
  }

  function Image(p: int, a: int, s: set<nat>): (t: set<nat>)
    requires p > 1
  {
    set i | i in s :: Times(p, a, i)
  }

  lemma TimesInjective(p: int, a: int, i: nat, j: nat)
    requires Prime(p) && a % p != 0 && i < p && j < p && Times(p, a, i) == Times(p, a, j)
    ensures i == j
  {
    hide Prime;
    AtLeastTwo(p);
    Cancel(p, a, i, j);
    SmallMod(i, p);
    SmallMod(j, p);
  }

  /** Multiplying every element by a multiplies the product by a power of a, and keeps the elements apart. */
  lemma {:induction false} ImageProduct(p: int, a: int, s: set<nat>)
    requires Prime(p) && a % p != 0 && s <= Residues(p - 1)
    ensures |Image(p, a, s)| == |s|
    ensures Prod(Image(p, a, s)) % p == (Pow(a, |s|) * Prod(s)) % p
    decreases |s|
  {
    hide Prime, Prod, Residues, Image;
    AtLeastTwo(p);
    if s == {} {
      EmptyImage(p, a);
    } else {
      var x :| x in s;
      var rest, y := s - {x}, Times(p, a, x);
      ImageProduct(p, a, rest);
      ImageApart(p, a, s, x);
      ProdRemove(Image(p, a, s), y);
      ProdRemove(s, x);
      ProductStep(p, a, x, y, Prod(Image(p, a, rest)), Pow(a, |rest|), Prod(rest));
    }
  }

  lemma EmptyImage(p: int, a: int)
    requires p > 1
    ensures Image(p, a, {}) == {} && Prod({}) == 1
  {
  }

  lemma ImageApart(p: int, a: int, s: set<nat>, x: nat)
    requires Prime(p) && a % p != 0 && s <= Residues(p - 1) && x in s
    ensures var y, rest := Times(p, a, x), Image(p, a, s - {x});
            y !in rest && Image(p, a, s) == rest + {y} && Image(p, a, s) - {y} == rest
  {
    hide Prime, Times;
    forall i | i in s - {x}
      ensures Times(p, a, i) != Times(p, a, x)
    {
      if Times(p, a, i) == Times(p, a, x) {
        TimesInjective(p, a, i, x);
      }
    }
  }

  lemma ProductStep(p: int, a: int, x: int, y: int, image: int, power: int, rest: int)
    requires p > 1 && y == (a * x) % p && image % p == (power * rest) % p
    ensures (y * image) % p == ((a * power) * (x * rest)) % p
  {
    MulCong2(y, a * x, image, power * rest, p);
    Regroup(a, x, power, rest);
  }

  lemma Regroup(a: int, x: int, e: int, r: int)
    ensures (a * x) * (e * r) == (a * e) * (x * r)
  {
  }

  /** A subset as large as the whole is the whole. */
  lemma SameSize(s: set<nat>, t: set<nat>)
    requires s <= t && |s| == |t|
    ensures s == t
  {
    assert |t - s| == |t| - |s|;
    assert t - s == {};
  }

  lemma ImageIsAll(p: int, a: int)
    requires Prime(p) && a % p != 0
    ensures Image(p, a, Residues(p - 1)) == Residues(p - 1)
  {
    hide Prime;
    AtLeastTwo(p);
    var r := Residues(p - 1);
    ImageProduct(p, a, r);
    forall i | i in r
      ensures Times(p, a, i) in r
    {
      if Times(p, a, i) == 0 {
        NoZeroDivisors(p, a, i);
        SmallMod(i, p);
      }
    }
    SameSize(Image(p, a, r), r);
  }

  lemma {:induction false} ProdNonZero(p: int, s: set<nat>)
    requires Prime(p) && s <= Residues(p - 1)
    ensures Prod(s) % p != 0
    decreases |s|
  {
    hide Prime;
    AtLeastTwo(p);
    if s != {} {
      var x :| x in s;
      ProdRemove(s, x);
      ProdNonZero(p, s - {x});
      SmallMod(x, p);
      if Prod(s) % p == 0 {
        NoZeroDivisors(p, x, Prod(s - {x}));
      }
    }
  }

  /** Fermat's little theorem. */
  lemma Fermat(p: int, a: int)
    requires Prime(p) && a % p != 0
    ensures Pow(a, p - 1) % p == 1
  {
    hide Prime, Pow, Prod;
    AtLeastTwo(p);
    var r := Residues(p - 1);
    CountResidues(p - 1);
    ImageIsAll(p, a);
    ImageProduct(p, a, r);
    ProdNonZero(p, r);
    assert Prod(r) * Pow(a, p - 1) == Pow(a, p - 1) * Prod(r) && Prod(r) * 1 == Prod(r);
    Cancel(p, Prod(r), Pow(a, p - 1), 1);
    SmallMod(1, p);
  }

  /** Only 1 and -1 square to 1. */
  lemma RootOfOne(p: int, h: int)
    requires Prime(p) && (h * h) % p == 1
    ensures h % p == 1 || h % p == (-1) % p
  {
    hide Prime;
    AtLeastTwo(p);
    SmallMod(1, p);
    var k := MultipleOfCongruent(h * h, 1, p);
    assert (h - 1) * (h + 1) == h * h - 1;
    CongruentByMultiple((h - 1) * (h + 1), 0, p, k);
    NoZeroDivisors(p, h - 1, h + 1);
    if (h - 1) % p == 0 {
      AddCong(h - 1, 0, 1, p);
    } else {
      AddCong(h + 1, 0, -1, p);
    }
  }
}
