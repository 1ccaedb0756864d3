/** Congruences of integers modulo a positive number. */
module Modular {
  import Bits

  function Pow(a: int, e: nat): int {
    if e == 0 then 1 else a * Pow(a, e - 1)
  }

  lemma CongruentByMultiple(a: int, b: int, m: int, k: int)
    requires m > 0 && a == b + m * k
    ensures a % m == b % m
  {
    var q, r := b / m, b % m;
    assert a == m * (q + k) + r by {
      assert b == m * q + r;
      assert m * (q + k) == m * q + m * k;
    }
    Bits.DivModUnique(a, m, q + k, r);
  }

  /** Congruent numbers differ by a multiple of the modulus. */
  lemma MultipleOfCongruent(a: int, b: int, m: int) returns (k: int)
    requires m > 0 && a % m == b % m
    ensures a == b + m * k
  {
    k := a / m - b / m;
    assert a == m * (a / m) + a % m && b == m * (b / m) + b % m;
    assert m * k == m * (a / m) - m * (b / m);
  }

  lemma MulCong(a: int, b: int, c: int, m: int)
    requires m > 0 && a % m == b % m
    ensures (a * c) % m == (b * c) % m
  {
    var k := MultipleOfCongruent(a, b, m);
    assert a * c == b * c + m * (k * c) by {
      assert (b + m * k) * c == b * c + m * k * c;
      assert m * k * c == m * (k * c);
    }
    CongruentByMultiple(a * c, b * c, m, k * c);
  }

  lemma AddCong(a: int, b: int, c: int, m: int)
    requires m > 0 && a % m == b % m
    ensures (a + c) % m == (b + c) % m
  {
    var k := MultipleOfCongruent(a, b, m);
    CongruentByMultiple(a + c, b + c, m, k);
  }

  /** Both factors of a product may be replaced by congruent ones. */
  lemma MulCong2(a: int, a': int, b: int, b': int, m: int)
    requires m > 0 && a % m == a' % m && b % m == b' % m
    ensures (a * b) % m == (a' * b') % m
  {
    MulCong(a, a', b, m);
    MulCong(b, b', a', m);
  }

  /** A number in [0, m) is determined by its residue. */
  lemma SmallMod(a: int, m: int)
    requires 0 <= a < m
    ensures a % m == a
  {
  }
}
