/** Bitwise operators on integers, read as infinite two's complement words: bit k of x is (x / 2^k) % 2.
    On values that fit a fixed-width word they agree with the machine's &, ^ and ~. */
module Bits {

  function Pow2(n: nat): (r: nat)
    ensures r >= 1
  {
    if n == 0 then 1 else 2 * Pow2(n - 1)
  }

  lemma {:induction false} Pow2Add(m: nat, n: nat)
    ensures Pow2(m + n) == Pow2(m) * Pow2(n)
  {
    if m > 0 {
      Pow2Add(m - 1, n);
      MulAssoc2(Pow2(m - 1), Pow2(n));
    }
  }

  lemma Pow2Values()
    ensures Pow2(1) == 2 && Pow2(2) == 4 && Pow2(3) == 8 && Pow2(4) == 16 && Pow2(8) == 0x100 && Pow2(14) == 0x4000 && Pow2(16) == 0x1_0000
    ensures Pow2(28) == 0x1000_0000 && Pow2(30) == 0x4000_0000 && Pow2(32) == 0x1_0000_0000
  {
    assert Pow2(4) == 16;
    Pow2Add(4, 4);
    Pow2Add(8, 8);
    Pow2Add(14, 2);
    Pow2Add(14, 14);
    Pow2Add(28, 2);
    Pow2Add(16, 16);
  }

  /** Distance from the two fixed points 0 and -1 of the arithmetic shift x / 2. */
  function Rank(x: int): nat {
    if x >= 0 then x else -1 - x
  }

  function BothOdd(x: int, y: int): int {
    if x % 2 == 1 && y % 2 == 1 then 1 else 0
  }

  function OneOdd(x: int, y: int): int {
    if x % 2 == y % 2 then 0 else 1
  }

  function And(x: int, y: int): int
    decreases Rank(x)
  {
    if x == 0 then 0
    else if x == -1 then y
    else BothOdd(x, y) + 2 * And(x / 2, y / 2)
  }

  function Xor(x: int, y: int): int
    decreases Rank(x)
  {
    if x == 0 then y
    else if x == -1 then -1 - y
    else OneOdd(x, y) + 2 * Xor(x / 2, y / 2)
  }

  /** Bitwise complement in two's complement. */
  function Not(x: int): int {
    -1 - x
  }

  function Or(x: int, y: int): int {
    Not(And(Not(x), Not(y)))
  }

  /** A 32-bit mask that is all zeros or all ones selects one of two words. */
  lemma MaskedSelect(x: nat, y: nat, mask: int)
    requires x < 0x1_0000_0000 && y < 0x1_0000_0000
    requires mask == 0 || mask == 0xFFFF_FFFF
    ensures Or(And(x, 0xFFFF_FFFF - mask), And(y, mask)) == if mask == 0 then x else y
  {
    var z := if mask == 0 then x else y;
    AndZero(x);
    AndZero(y);
    AndFullMask(z);
    OrZero(z);
  }

  lemma AndFullMask(x: nat)
    requires x < 0x1_0000_0000
    ensures And(x, 0xFFFF_FFFF) == x
  {
    hide And;
    Pow2Values();
    AndLowMask(x, 32);
    assert Pow2(32) - 1 == 0xFFFF_FFFF;
  }

  lemma OrZero(x: int)
    ensures Or(x, 0) == x && Or(0, x) == x
  {
    AndMinusOne(Not(x));
  }

  /** Masking with 2^n - 1 keeps exactly the n low bits, also of a negative word. */
  lemma {:induction false} AndLowMask(x: int, n: nat)
    ensures And(x, Pow2(n) - 1) == x % Pow2(n)
    decreases n
  {
    if n == 0 {
      AndZero(x);
    } else {
      var m := Pow2(n - 1);
      assert Pow2(n) - 1 == 2 * (m - 1) + 1;
      assert (Pow2(n) - 1) % 2 == 1 && (Pow2(n) - 1) / 2 == m - 1;
      AndLowMask(x / 2, n - 1);
      ModDouble(x, m);
      AndUnfold(x, Pow2(n) - 1);
    }
  }

  lemma LowByte(x: int)
    ensures And(x, 0xff) == x % 256
  {
    hide And;
    Pow2Values();
    AndLowMask(x, 8);
  }

  lemma AndDouble(x: nat, y: nat)
    ensures And(x, 2 * y) == 2 * And(x / 2, y)
  {
    AndUnfold(x, 2 * y);
  }

  /** Masking with 4 * (2^n - 1) keeps the n bits above the two lowest. */
  lemma AndMidMask(x: nat, n: nat)
    ensures And(x, 4 * (Pow2(n) - 1)) == 4 * ((x / 4) % Pow2(n))
  {
    AndDouble(x, 2 * (Pow2(n) - 1));
    AndDouble(x / 2, Pow2(n) - 1);
    AndLowMask(x / 4, n);
    assert x / 2 / 2 == x / 4;
  }

  lemma ModDouble(x: int, m: nat)
    requires m > 0
    ensures x % (2 * m) == x % 2 + 2 * ((x / 2) % m)
  {
    var q, r := (x / 2) / m, (x / 2) % m;
    assert x == 2 * (m * q + r) + x % 2;
    assert x == (2 * m) * q + (2 * r + x % 2);
    DivModUnique(x, 2 * m, q, 2 * r + x % 2);
  }

  lemma DivModUnique(x: int, m: int, q: int, r: int)
    requires m > 0 && 0 <= r < m && x == m * q + r
    ensures x / m == q && x % m == r
  {
    var q', r' := x / m, x % m;
    assert x == m * q' + r';
    var k := q - q';
    assert m * k == r' - r;
    assert k >= 1 ==> m * k >= m;
    assert k <= -1 ==> m * k <= -m;
  }

  lemma {:induction false} AndZero(x: int)
    ensures And(x, 0) == 0
    decreases Rank(x)
  {
    if x != 0 && x != -1 {
      AndZero(x / 2);
    }
  }

  lemma {:induction false} AndMinusOne(x: int)
    ensures And(x, -1) == x
    decreases Rank(x)
  {
    if x != 0 && x != -1 {
      AndMinusOne(x / 2);
    }
  }

  /** Xor with the same word twice gives back the first word. */
  lemma {:induction false} XorCancel(x: int, y: int)
    ensures Xor(Xor(x, y), y) == x
    decreases Rank(x)
  {
    if x == 0 {
      XorSelf(y);
    } else if x == -1 {
      XorNot(y);
    } else {
      var z := Xor(x / 2, y / 2);
      XorCancel(x / 2, y / 2);
      XorUnfold(x, y);
      assert Xor(x, y) / 2 == z && Xor(x, y) % 2 == OneOdd(x, y);
      XorUnfold(Xor(x, y), y);
    }
  }

  /** The recursive equation of Xor also holds at its two base cases. */
  lemma XorUnfold(x: int, y: int)
    ensures Xor(x, y) == OneOdd(x, y) + 2 * Xor(x / 2, y / 2)
  {
    if x == 0 {
      assert Xor(0, y / 2) == y / 2;
    } else if x == -1 {
      assert Xor(-1, y / 2) == -1 - y / 2;
    }
  }

  lemma {:induction false} XorSelf(x: int)
    ensures Xor(x, x) == 0
    decreases Rank(x)
  {
    if x != 0 && x != -1 {
      XorSelf(x / 2);
      XorUnfold(x, x);
    }
  }

  lemma {:induction false} XorNot(x: int)
    ensures Xor(-1 - x, x) == -1
    decreases Rank(x)
  {
    if x != 0 && x != -1 {
      XorNot(x / 2);
      assert (-1 - x) / 2 == -1 - x / 2;
      XorUnfold(-1 - x, x);
    }
  }

  lemma {:induction false} XorZero(x: int)
    ensures Xor(x, 0) == x
    decreases Rank(x)
  {
    if x != 0 && x != -1 {
      XorZero(x / 2);
    }
  }

  lemma {:induction false} XorComm(x: int, y: int)
    ensures Xor(x, y) == Xor(y, x)
    decreases Rank(x)
  {
    if x == 0 {
      XorZero(y);
    } else if x == -1 {
      XorMinusOne(y);
    } else {
      XorComm(x / 2, y / 2);
      XorUnfold(y, x);
    }
  }

  lemma {:induction false} XorMinusOne(x: int)
    ensures Xor(x, -1) == -1 - x
    decreases Rank(x)
  {
    if x != 0 && x != -1 {
      XorMinusOne(x / 2);
    }
  }

  /** Xor of two n-bit words is an n-bit word. */
  lemma {:induction false} XorBound(x: nat, y: nat, n: nat)
    requires x < Pow2(n) && y < Pow2(n)
    ensures 0 <= Xor(x, y) < Pow2(n)
    decreases n
  {
    if x != 0 {
      XorBound(x / 2, y / 2, n - 1);
    }
  }

  /** And works independently on the low n bits and the rest. */
  lemma {:induction false} AndSplit(x: nat, hi: nat, y: nat, hi': nat, n: nat)
    requires x < Pow2(n) && y < Pow2(n)
    ensures And(x + Pow2(n) * hi, y + Pow2(n) * hi') == And(x, y) + Pow2(n) * And(hi, hi')
    decreases n
  {
    if n > 0 {
      var m := Pow2(n - 1);
      var a, b := x + Pow2(n) * hi, y + Pow2(n) * hi';
      HalfSplit(x, m, hi);
      HalfSplit(y, m, hi');
      AndSplit(x / 2, hi, y / 2, hi', n - 1);
      AndUnfold(a, b);
      AndUnfold(x, y);
      MulAssoc2(m, And(hi, hi'));
    }
  }

  lemma HalfSplit(x: nat, m: nat, hi: nat)
    ensures (x + 2 * m * hi) / 2 == x / 2 + m * hi && (x + 2 * m * hi) % 2 == x % 2
  {
    MulAssoc2(m, hi);
  }

  lemma MulAssoc2(m: int, z: int)
    ensures 2 * m * z == 2 * (m * z)
  {
  }

  lemma AndUnfold(x: int, y: int)
    ensures And(x, y) == BothOdd(x, y) + 2 * And(x / 2, y / 2)
  {
    if x == 0 {
      assert And(0, y / 2) == 0;
    } else if x == -1 {
      assert And(-1, y / 2) == y / 2;
    }
  }
}
