/**
 * The ChaCha20 words as the machine has them: 32-bit vectors with +, ^ and rotation. The word operations of the model are
 * those operations on the numbers the vectors denote, and the block function gives the published answer.
 */
module ChaCha20Words {
  import opened Bytes
  import opened ChaCha20
  import Bits

  /////////////////////////////////////////////////////////////////////////////
  // Vector operations and the number a vector denotes
  /////////////////////////////////////////////////////////////////////////////

  function Low(x: bv32): (b: int)
    ensures 0 <= b <= 1
  {
    if x & 1 == 1 then 1 else 0
  }

  function Half(x: bv32): bv32 { x >> 1 }
  function Either(x: bv32, y: bv32): bv32 { x ^ y }
  function Both(x: bv32, y: bv32): bv32 { x & y }
  function Carried(x: bv32, y: bv32): bv32 { (x & y) << 1 }

  /** The number of the n low bits of x. */
  function Num(x: bv32, n: nat): (v: nat)
    decreases n
  {
    if n == 0 then 0 else Low(x) + 2 * Num(Half(x), n - 1)
  }

  lemma {:induction false} NumBound(x: bv32, n: nat)
    ensures Num(x, n) < Bits.Pow2(n)
    decreases n
  {
    hide Half, Low;
    if n > 0 {
      NumBound(Half(x), n - 1);
    }
  }

  /** The number a vector denotes. */
  function W(x: bv32): (w: uint32) {
    NumBound(x, 32);
    Bits.Pow2Values();
    Num(x, 32)
  }

  /** x without its k low bits. */
  function Drop(x: bv32, k: nat): bv32
    decreases k
  {
    if k == 0 then x else Drop(Half(x), k - 1)
  }

  lemma {:induction false} NumSplit(x: bv32, k: nat, n: nat)
    ensures Num(x, k + n) == Num(x, k) + Bits.Pow2(k) * Num(Drop(x, k), n)
    decreases k
  {
    hide Half, Low;
    if k > 0 {
      NumSplit(Half(x), k - 1, n);
      Bits.MulAssoc2(Bits.Pow2(k - 1), Num(Drop(x, k), n));
    }
  }

  /** The n low bits of o are ones. */
  predicate LowOnes(o: bv32, n: nat)
    decreases n
  {
    n == 0 || (Low(o) == 1 && LowOnes(Half(o), n - 1))
  }

  predicate Agree(x: bv32, y: bv32, o: bv32) {
    (x ^ y) & o == 0
  }

  /** Vectors that agree under such a mask have the same low number. */
  lemma {:induction false} NumLow(x: bv32, y: bv32, o: bv32, n: nat)
    requires LowOnes(o, n) && Agree(x, y, o)
    ensures Num(x, n) == Num(y, n)
    decreases n
  {
    hide Half, Low, Agree;
    if n > 0 {
      AgreeStep(x, y, o);
      NumLow(Half(x), Half(y), Half(o), n - 1);
    }
  }

  lemma AgreeStep(x: bv32, y: bv32, o: bv32)
    requires Low(o) == 1 && Agree(x, y, o)
    ensures Low(x) == Low(y) && Agree(Half(x), Half(y), Half(o))
  {
  }

  lemma Masks()
    ensures LowOnes(0x7F, 7) && LowOnes(0xFF, 8) && LowOnes(0xFFF, 12) && LowOnes(0xFFFF, 16)
    ensures LowOnes(0xF_FFFF, 20) && LowOnes(0xFF_FFFF, 24) && LowOnes(0x1FF_FFFF, 25) && LowOnes(0x7FFF_FFFF, 31)
  {
    assert LowOnes(0x1, 1); assert LowOnes(0x3, 2); assert LowOnes(0x7, 3); assert LowOnes(0xF, 4);
    assert LowOnes(0x1F, 5); assert LowOnes(0x3F, 6); assert LowOnes(0x7F, 7); assert LowOnes(0xFF, 8);
    assert LowOnes(0x1FF, 9); assert LowOnes(0x3FF, 10); assert LowOnes(0x7FF, 11); assert LowOnes(0xFFF, 12);
    assert LowOnes(0x1FFF, 13); assert LowOnes(0x3FFF, 14); assert LowOnes(0x7FFF, 15); assert LowOnes(0xFFFF, 16);
    assert LowOnes(0x1_FFFF, 17); assert LowOnes(0x3_FFFF, 18); assert LowOnes(0x7_FFFF, 19); assert LowOnes(0xF_FFFF, 20);
    assert LowOnes(0x1F_FFFF, 21); assert LowOnes(0x3F_FFFF, 22); assert LowOnes(0x7F_FFFF, 23); assert LowOnes(0xFF_FFFF, 24);
    assert LowOnes(0x1FF_FFFF, 25); assert LowOnes(0x3FF_FFFF, 26); assert LowOnes(0x7FF_FFFF, 27); assert LowOnes(0xFFF_FFFF, 28);
    assert LowOnes(0x1FFF_FFFF, 29); assert LowOnes(0x3FFF_FFFF, 30); assert LowOnes(0x7FFF_FFFF, 31);
  }

  /////////////////////////////////////////////////////////////////////////////
  // Exclusive or
  /////////////////////////////////////////////////////////////////////////////

  lemma EitherStep(x: bv32, y: bv32)
    ensures Low(Either(x, y)) == (if Low(x) == Low(y) then 0 else 1) && Half(Either(x, y)) == Either(Half(x), Half(y))
  {
  }

  lemma {:induction false} NumXor(x: bv32, y: bv32, n: nat)
    ensures Bits.Xor(Num(x, n), Num(y, n)) == Num(Either(x, y), n)
    decreases n
  {
    hide Half, Low, Either, Bits.Xor;
    if n == 0 {
      Bits.XorZero(0);
    } else {
      EitherStep(x, y);
      NumXor(Half(x), Half(y), n - 1);
      XorHalves(Low(x), Num(Half(x), n - 1), Low(y), Num(Half(y), n - 1));
    }
  }

  lemma XorHalves(a: int, x: nat, b: int, y: nat)
    requires 0 <= a <= 1 && 0 <= b <= 1
    ensures Bits.Xor(a + 2 * x, b + 2 * y) == (if a == b then 0 else 1) + 2 * Bits.Xor(x, y)
  {
    hide Bits.Xor;
    Bits.XorUnfold(a + 2 * x, b + 2 * y);
  }

  /** The exclusive or of the machine is that of the model. */
  lemma WordXor(x: bv32, y: bv32)
    ensures Xor32(W(x), W(y)) == W(Either(x, y))
  {
    hide Num, Bits.Xor, Either;
    NumXor(x, y, 32);
  }

  /////////////////////////////////////////////////////////////////////////////
  // Sum
  /////////////////////////////////////////////////////////////////////////////

  lemma BothStep(x: bv32, y: bv32)
    ensures Low(Both(x, y)) == (if Low(x) == 1 && Low(y) == 1 then 1 else 0) && Half(Both(x, y)) == Both(Half(x), Half(y))
  {
  }

  /** Half adders in every place: the summands are the sum without carries and twice the carries. */
  lemma {:induction false} NumHalfAdder(x: bv32, y: bv32, n: nat)
    ensures Num(x, n) + Num(y, n) == Num(Either(x, y), n) + 2 * Num(Both(x, y), n)
    decreases n
  {
    hide Half, Low, Either, Both;
    if n > 0 {
      EitherStep(x, y);
      BothStep(x, y);
      NumHalfAdder(Half(x), Half(y), n - 1);
    }
  }

  lemma TwiceStep(m: bv32)
    ensures Low(m << 1) == 0 && Agree(Half(m << 1), m, 0x7FFF_FFFF)
  {
  }

  lemma NumTwice(m: bv32)
    ensures Num(m << 1, 32) == 2 * Num(m, 31)
  {
    hide Half, Low, LowOnes, Agree;
    Masks();
    TwiceStep(m);
    NumLow(Half(m << 1), m, 0x7FFF_FFFF, 31);
  }

  lemma HalfAdder(x: bv32, y: bv32)
    ensures x + y == Either(x, y) + Carried(x, y)
  {
  }

  predicate SumIs(x: bv32, y: bv32, t: bv32) {
    x + y == t
  }

  lemma SumStays(x: bv32, y: bv32, t: bv32)
    requires SumIs(x, y, t)
    ensures SumIs(Either(x, y), Carried(x, y), t)
  {
    hide Either, Carried;
    HalfAdder(x, y);
  }

  lemma NumCarried(x: bv32, y: bv32)
    ensures Num(Carried(x, y), 32) == 2 * Num(Both(x, y), 31)
  {
    hide Num;
    NumTwice(Both(x, y));
  }

  /** One round of half adders keeps the sum modulo 2^32. */
  lemma CarryRound(x: bv32, y: bv32)
    ensures (Num(x, 32) + Num(y, 32)) % TWO32 == (Num(Either(x, y), 32) + Num(Carried(x, y), 32)) % TWO32
  {
    hide *;
    NumHalfAdder(x, y, 32);
    NumCarried(x, y);
    TopBit(Both(x, y));
    TopCarry(Num(x, 32) + Num(y, 32), Num(Either(x, y), 32), Num(Both(x, y), 31), Num(Drop(Both(x, y), 31), 1));
  }

  lemma TopBit(m: bv32)
    ensures Num(m, 32) == Num(m, 31) + 0x8000_0000 * Num(Drop(m, 31), 1)
  {
    Bits.Pow2Values();
    assert Bits.Pow2(32) == 2 * Bits.Pow2(31);
    hide Num, Drop, Bits.Pow2;
    NumSplit(m, 31, 1);
  }

  lemma TopCarry(sum: int, s: int, low: int, top: int)
    requires sum == s + 2 * (low + 0x8000_0000 * top)
    ensures sum % TWO32 == (s + 2 * low) % TWO32
  {
  }

  /** Shifting ones in from below k times fills o. */
  predicate Fills(o: bv32, k: nat)
    decreases k
  {
    if k == 0 then o == 0xFFFF_FFFF else Fills(More(o), k - 1)
  }

  function More(o: bv32): bv32 { (o << 1) | 1 }

  lemma FillsFromNothing()
    ensures Fills(0, 32)
  {
    assert Fills(0xFFFF_FFFF, 0); assert Fills(0x7FFF_FFFF, 1); assert Fills(0x3FFF_FFFF, 2); assert Fills(0x1FFF_FFFF, 3);
    assert Fills(0xFFF_FFFF, 4); assert Fills(0x7FF_FFFF, 5); assert Fills(0x3FF_FFFF, 6); assert Fills(0x1FF_FFFF, 7);
    assert Fills(0xFF_FFFF, 8); assert Fills(0x7F_FFFF, 9); assert Fills(0x3F_FFFF, 10); assert Fills(0x1F_FFFF, 11);
    assert Fills(0xF_FFFF, 12); assert Fills(0x7_FFFF, 13); assert Fills(0x3_FFFF, 14); assert Fills(0x1_FFFF, 15);
    assert Fills(0xFFFF, 16); assert Fills(0x7FFF, 17); assert Fills(0x3FFF, 18); assert Fills(0x1FFF, 19);
    assert Fills(0xFFF, 20); assert Fills(0x7FF, 21); assert Fills(0x3FF, 22); assert Fills(0x1FF, 23);
    assert Fills(0xFF, 24); assert Fills(0x7F, 25); assert Fills(0x3F, 26); assert Fills(0x1F, 27);
    assert Fills(0xF, 28); assert Fills(0x7, 29); assert Fills(0x3, 30); assert Fills(0x1, 31);
    assert Fills(0x0, 32);
  }

  predicate Clear(y: bv32, o: bv32) {
    y & o == 0
  }

  /** The carries run out: under the mask o the second summand is already 0. */
  lemma {:induction false} CarriesRunOut(x: bv32, y: bv32, t: bv32, o: bv32, k: nat)
    requires Fills(o, k) && Clear(y, o) && SumIs(x, y, t)
    ensures (Num(x, 32) + Num(y, 32)) % TWO32 == Num(t, 32)
    decreases k
  {
    hide Num, Either, Both, Carried, SumIs, Clear, More;
    if k == 0 {
      LastSum(x, y, t);
    } else {
      MaskGrows(x, y, o);
      CarryRound(x, y);
      SumStays(x, y, t);
      CarriesRunOut(Either(x, y), Carried(x, y), t, More(o), k - 1);
    }
  }

  lemma MaskGrows(x: bv32, y: bv32, o: bv32)
    requires Clear(y, o)
    ensures Clear(Carried(x, y), More(o))
  {
  }

  lemma NothingLeft(x: bv32, y: bv32, t: bv32)
    requires Clear(y, 0xFFFF_FFFF) && SumIs(x, y, t)
    ensures y == 0 && x == t
  {
  }

  lemma LastSum(x: bv32, y: bv32, t: bv32)
    requires Clear(y, 0xFFFF_FFFF) && SumIs(x, y, t)
    ensures (Num(x, 32) + Num(y, 32)) % TWO32 == Num(t, 32)
  {
    hide *;
    NothingLeft(x, y, t);
    NumOfZero(32);
    NumBound(x, 32);
    SmallSum(Num(x, 32));
  }

  lemma SmallSum(v: nat)
    requires v < Bits.Pow2(32)
    ensures (v + 0) % TWO32 == v
  {
    Bits.Pow2Values();
  }

  lemma {:induction false} NumOfZero(n: nat)
    ensures Num(0, n) == 0
  {
    if n > 0 {
      assert Half(0) == 0 && Low(0) == 0;
      NumOfZero(n - 1);
    }
  }

  /** The sum of the machine is the sum modulo 2^32. */
  lemma WordAdd(x: bv32, y: bv32)
    ensures Add32(W(x), W(y)) == W(x + y)
  {
    NothingYet(x, y);
    hide Num, Fills, Clear, SumIs;
    FillsFromNothing();
    CarriesRunOut(x, y, x + y, 0, 32);
  }

  lemma NothingYet(x: bv32, y: bv32)
    ensures Clear(y, 0) && SumIs(x, y, x + y)
  {
  }

  /////////////////////////////////////////////////////////////////////////////
  // Rotation
  /////////////////////////////////////////////////////////////////////////////

  lemma {:induction false} DropMore(x: bv32, j: nat, k: nat)
    ensures Drop(x, j + k) == Drop(Drop(x, j), k)
    decreases j
  {
    hide Half;
    if j > 0 {
      DropMore(Half(x), j - 1, k);
    }
  }

  // Dropping k bits is shifting by k.

  lemma Drop1(x: bv32)
    ensures Drop(x, 1) == x >> 1
  {
    assert Drop(x, 1) == Drop(Half(x), 0);
  }

  lemma Drop2(x: bv32)
    ensures Drop(x, 2) == x >> 2
  {
    hide Drop;
    Drop1(x);
    Drop1(x >> 1);
    DropMore(x, 1, 1);
  }

  lemma Drop4(x: bv32)
    ensures Drop(x, 4) == x >> 4
  {
    hide Drop;
    Drop2(x);
    Drop2(x >> 2);
    DropMore(x, 2, 2);
  }

  lemma Drop3(x: bv32)
    ensures Drop(x, 3) == x >> 3
  {
    hide Drop;
    Drop2(x);
    Drop1(x >> 2);
    DropMore(x, 2, 1);
  }

  lemma Drop7(x: bv32)
    ensures Drop(x, 7) == x >> 7
  {
    hide Drop;
    Drop4(x);
    Drop3(x >> 4);
    DropMore(x, 4, 3);
  }

  lemma Drop8(x: bv32)
    ensures Drop(x, 8) == x >> 8
  {
    hide Drop;
    Drop4(x);
    Drop4(x >> 4);
    DropMore(x, 4, 4);
  }

  lemma Drop12(x: bv32)
    ensures Drop(x, 12) == x >> 12
  {
    hide Drop;
    Drop8(x);
    Drop4(x >> 8);
    DropMore(x, 8, 4);
  }

  lemma Drop16(x: bv32)
    ensures Drop(x, 16) == x >> 16
  {
    hide Drop;
    Drop8(x);
    Drop8(x >> 8);
    DropMore(x, 8, 8);
  }

  lemma Drop20(x: bv32)
    ensures Drop(x, 20) == x >> 20
  {
    hide Drop;
    Drop16(x);
    Drop4(x >> 16);
    DropMore(x, 16, 4);
  }

  lemma Drop24(x: bv32)
    ensures Drop(x, 24) == x >> 24
  {
    hide Drop;
    Drop16(x);
    Drop8(x >> 16);
    DropMore(x, 16, 8);
  }

  lemma Drop25(x: bv32)
    ensures Drop(x, 25) == x >> 25
  {
    hide Drop;
    Drop24(x);
    Drop1(x >> 24);
    DropMore(x, 24, 1);
  }

  /** Rotation by n moves the high n bits below the others. */
  lemma WordRotl(x: bv32, r: bv32, n: nat, lo: bv32, hi: bv32)
    requires n <= 32 && LowOnes(lo, n) && LowOnes(hi, 32 - n)
    requires Agree(r, Drop(x, 32 - n), lo) && Agree(Drop(r, n), x, hi)
    ensures Rotl(W(x), n) == W(r)
  {
    hide Num, Drop, LowOnes, Agree;
    NumSplit(x, 32 - n, n);
    NumSplit(r, n, 32 - n);
    NumLow(r, Drop(x, 32 - n), lo, n);
    NumLow(Drop(r, n), x, hi, 32 - n);
    NumBound(x, 32 - n);
    RotlParts(W(x), n, Num(x, 32 - n), Num(Drop(x, 32 - n), n));
  }

  lemma RotlParts(x: uint32, n: nat, low: int, high: int)
    requires n <= 32 && 0 <= low < Bits.Pow2(32 - n) && x == low + Bits.Pow2(32 - n) * high
    ensures Rotl(x, n) == high + Bits.Pow2(n) * low
  {
    hide Bits.Pow2;
    Bits.DivModUnique(x, Bits.Pow2(32 - n), high, low);
    Swapped(low, Bits.Pow2(n));
  }

  lemma Swapped(a: int, b: int)
    ensures a * b == b * a
  {
  }

  // The rotations of the machine are those of the model, for the four amounts of a quarter round.

  function Rot16(x: bv32): bv32 { x.RotateLeft(16) }

  lemma WordRot16(x: bv32)
    ensures Rotl(W(x), 16) == W(Rot16(x))
  {
    hide W, Drop, LowOnes, Rotl, Agree, Rot16;
    Masks();
    Parts16(x);
    WordRotl(x, Rot16(x), 16, 0xFFFF, 0xFFFF);
  }

  lemma Parts16(x: bv32)
    ensures Agree(Rot16(x), Drop(x, 16), 0xFFFF) && Agree(Drop(Rot16(x), 16), x, 0xFFFF)
  {
    hide Drop;
    Drop16(x);
    Drop16(Rot16(x));
  }

  function Rot12(x: bv32): bv32 { x.RotateLeft(12) }

  lemma WordRot12(x: bv32)
    ensures Rotl(W(x), 12) == W(Rot12(x))
  {
    hide W, Drop, LowOnes, Rotl, Agree, Rot12;
    Masks();
    Parts12(x);
    WordRotl(x, Rot12(x), 12, 0xFFF, 0xF_FFFF);
  }

  lemma Parts12(x: bv32)
    ensures Agree(Rot12(x), Drop(x, 20), 0xFFF) && Agree(Drop(Rot12(x), 12), x, 0xF_FFFF)
  {
    hide Drop;
    Drop20(x);
    Drop12(Rot12(x));
  }

  function Rot8(x: bv32): bv32 { x.RotateLeft(8) }

  lemma WordRot8(x: bv32)
    ensures Rotl(W(x), 8) == W(Rot8(x))
  {
    hide W, Drop, LowOnes, Rotl, Agree, Rot8;
    Masks();
    Parts8(x);
    WordRotl(x, Rot8(x), 8, 0xFF, 0xFF_FFFF);
  }

  lemma Parts8(x: bv32)
    ensures Agree(Rot8(x), Drop(x, 24), 0xFF) && Agree(Drop(Rot8(x), 8), x, 0xFF_FFFF)
  {
    hide Drop;
    Drop24(x);
    Drop8(Rot8(x));
  }

  function Rot7(x: bv32): bv32 { x.RotateLeft(7) }

  lemma WordRot7(x: bv32)
    ensures Rotl(W(x), 7) == W(Rot7(x))
  {
    hide W, Drop, LowOnes, Rotl, Agree, Rot7;
    Masks();
    Parts7(x);
    WordRotl(x, Rot7(x), 7, 0x7F, 0x1FF_FFFF);
  }

  lemma Parts7(x: bv32)
    ensures Agree(Rot7(x), Drop(x, 25), 0x7F) && Agree(Drop(Rot7(x), 7), x, 0x1FF_FFFF)
  {
    hide Drop;
    Drop25(x);
    Drop7(Rot7(x));
  }

  /////////////////////////////////////////////////////////////////////////////
  // Rounds on vectors
  /////////////////////////////////////////////////////////////////////////////

  datatype Vectors = Vectors(a: bv32, b: bv32, c: bv32, d: bv32)

  function WQuad(q: Vectors): Quad {
    Quad(W(q.a), W(q.b), W(q.c), W(q.d))
  }

  function Plus(x: bv32, y: bv32): bv32 { x + y }
  function Turn16(x: bv32, z: bv32): bv32 { Rot16(Either(z, x)) }
  function Turn12(x: bv32, z: bv32): bv32 { Rot12(Either(z, x)) }
  function Turn8(x: bv32, z: bv32): bv32 { Rot8(Either(z, x)) }
  function Turn7(x: bv32, z: bv32): bv32 { Rot7(Either(z, x)) }

  /** The quarter round as the machine runs it. */
  function QuarterV(q: Vectors): Vectors {
    var a1 := Plus(q.a, q.b);
    var d1 := Turn16(a1, q.d);
    var c1 := Plus(q.c, d1);
    var b1 := Turn12(c1, q.b);
    var a2 := Plus(a1, b1);
    var d2 := Turn8(a2, d1);
    var c2 := Plus(c1, d2);
    var b2 := Turn7(c2, b1);
    Vectors(a2, b2, c2, d2)
  }

  lemma PlusWord(x: bv32, y: bv32)
    ensures Add32(W(x), W(y)) == W(Plus(x, y))
  {
    hide W, Add32;
    WordAdd(x, y);
  }

  lemma TurnWords(x: bv32, z: bv32)
    ensures StepZ(W(x), W(z), 16) == W(Turn16(x, z)) && StepZ(W(x), W(z), 12) == W(Turn12(x, z))
    ensures StepZ(W(x), W(z), 8) == W(Turn8(x, z)) && StepZ(W(x), W(z), 7) == W(Turn7(x, z))
  {
    hide W, Xor32, Rotl, Either, Rot16, Rot12, Rot8, Rot7;
    var y := Either(z, x);
    WordXor(z, x);
    WordRot16(y);
    WordRot12(y);
    WordRot8(y);
    WordRot7(y);
  }

  /** The model's quarter round is the machine's, on all words. */
  lemma QuarterWords(q: Vectors)
    ensures QuarterRound(WQuad(q)) == WQuad(QuarterV(q))
  {
    hide W, StepZ, Add32, Plus, Turn16, Turn12, Turn8, Turn7;
    var a1 := Plus(q.a, q.b);
    var d1 := Turn16(a1, q.d);
    var c1 := Plus(q.c, d1);
    var b1 := Turn12(c1, q.b);
    var a2 := Plus(a1, b1);
    var d2 := Turn8(a2, d1);
    var c2 := Plus(c1, d2);
    PlusWord(q.a, q.b);
    TurnWords(a1, q.d);
    PlusWord(q.c, d1);
    TurnWords(c1, q.b);
    PlusWord(a1, b1);
    TurnWords(a2, d1);
    PlusWord(c1, d2);
    TurnWords(c2, b1);
  }

  /** A state by its four columns. */
  datatype Columns = Columns(p: Vectors, q: Vectors, r: Vectors, s: Vectors)

  function WState(m: Columns): (t: State) {
    [W(m.p.a), W(m.q.a), W(m.r.a), W(m.s.a), W(m.p.b), W(m.q.b), W(m.r.b), W(m.s.b),
     W(m.p.c), W(m.q.c), W(m.r.c), W(m.s.c), W(m.p.d), W(m.q.d), W(m.r.d), W(m.s.d)]
  }

  function ColumnV(m: Columns): Columns {
    Columns(QuarterV(m.p), QuarterV(m.q), QuarterV(m.r), QuarterV(m.s))
  }

  /** Row k moved left by k places, and back. */
  function ShiftV(m: Columns): Columns {
    Columns(Vectors(m.p.a, m.q.b, m.r.c, m.s.d), Vectors(m.q.a, m.r.b, m.s.c, m.p.d),
            Vectors(m.r.a, m.s.b, m.p.c, m.q.d), Vectors(m.s.a, m.p.b, m.q.c, m.r.d))
  }

  function UnshiftV(m: Columns): Columns {
    Columns(Vectors(m.p.a, m.s.b, m.r.c, m.q.d), Vectors(m.q.a, m.p.b, m.s.c, m.r.d),
            Vectors(m.r.a, m.q.b, m.p.c, m.s.d), Vectors(m.s.a, m.r.b, m.q.c, m.p.d))
  }

  function DoubleV(m: Columns): Columns {
    UnshiftV(ColumnV(ShiftV(ColumnV(m))))
  }

  lemma ColumnWords(m: Columns)
    ensures ColumnRound(WState(m)) == WState(ColumnV(m))
  {
    hide W, QuarterRound, QuarterV;
    QuarterWords(m.p);
    QuarterWords(m.q);
    QuarterWords(m.r);
    QuarterWords(m.s);
  }

  lemma ShiftWords(m: Columns)
    ensures ShiftRows(WState(m)) == WState(ShiftV(m)) && UnshiftRows(WState(m)) == WState(UnshiftV(m))
  {
    hide W;
  }

  /** The model's double round is the machine's. */
  lemma DoubleWords(m: Columns)
    ensures DoubleRound(WState(m)) == WState(DoubleV(m))
  {
    hide WState, ColumnRound, ShiftRows, UnshiftRows, ColumnV, ShiftV, UnshiftV;
    ColumnWords(m);
    ShiftWords(ColumnV(m));
    ColumnWords(ShiftV(ColumnV(m)));
    ShiftWords(ColumnV(ShiftV(ColumnV(m))));
  }

  /////////////////////////////////////////////////////////////////////////////
  // The example of section 2.3.2 of RFC 8439
  /////////////////////////////////////////////////////////////////////////////

  // The state after each double round, by columns.

  function E0(): Columns {
    Columns(Vectors(0x61707865, 0x03020100, 0x13121110, 0x00000001), Vectors(0x3320646e, 0x07060504, 0x17161514, 0x09000000),
            Vectors(0x79622d32, 0x0b0a0908, 0x1b1a1918, 0x4a000000), Vectors(0x6b206574, 0x0f0e0d0c, 0x1f1e1d1c, 0x00000000))
  }

  function E1(): Columns {
    Columns(Vectors(0xcd52e917, 0xc4b7cd22, 0x7bf7d740, 0x6b0d58a3), Vectors(0x85ab03b4, 0x5c2e187a, 0x7eddd644, 0x6798471a),
            Vectors(0xb3457395, 0xc95eb461, 0xf1a1bdf5, 0xd737f167), Vectors(0xf96de7dd, 0x316c801a, 0x761246ca, 0xf173888d))
  }

  function E2(): Columns {
    Columns(Vectors(0xcf1a7584, 0x901d2f40, 0x2dafb216, 0x10aef18d), Vectors(0x048927ec, 0x7974b81c, 0x27c89cd6, 0x16218765),
            Vectors(0x54051fda, 0x378dcfb4, 0xcd3c9aa0, 0x68f76705), Vectors(0xc244ff28, 0xcd47fd0e, 0x79fc89c7, 0x04d6ee22))
  }

  function E3(): Columns {
    Columns(Vectors(0x03a14032, 0xa7143ae0, 0xc90c6b18, 0xba35d777), Vectors(0x66b15927, 0xa09b33dd, 0x5a202413, 0xb360f1bf),
            Vectors(0x9d6b6b42, 0xa5daaf88, 0xc20e01b6, 0x8178315b), Vectors(0xb84c4109, 0x2fd91a73, 0x72cd6b74, 0x2cd11b1a))
  }

  function E4(): Columns {
    Columns(Vectors(0x9a2d3589, 0x0a1bffc6, 0xe46c6354, 0x2687d476), Vectors(0x0b23fc4e, 0x5e5993f7, 0xc9503229, 0x54e65231),
            Vectors(0x40af3b6b, 0x9904c2e7, 0x04fef5aa, 0x3594ffc5), Vectors(0xceea8144, 0x0d334718, 0xf8933f72, 0x2b3bb2ca))
  }

  function E5(): Columns {
    Columns(Vectors(0xc53318c5, 0x26d7cf73, 0xae2ca8db, 0x9e5ec228), Vectors(0xca325d96, 0x6088d379, 0x42f67c72, 0x7d85a9f3),
            Vectors(0x7e7d11cb, 0xc0f0e9bd, 0x71669aca, 0x201d0756), Vectors(0x3404e2ca, 0xe310cdb9, 0x975c171d, 0x63fa6953))
  }

  function E6(): Columns {
    Columns(Vectors(0x04a3131a, 0x36cc86c7, 0x07d13aca, 0x33b6686d), Vectors(0x66176309, 0xbf8a4465, 0xeb0be9af, 0x795cc671),
            Vectors(0x0415bab1, 0xf77dd720, 0x61599491, 0xc0049972), Vectors(0x61b880a2, 0xfc0bdc90, 0x918512dc, 0xa0a81bde))
  }

  function E7(): Columns {
    Columns(Vectors(0x9b70f51f, 0x93b08686, 0xd839165e, 0xa609f555), Vectors(0x7ea8ac11, 0x6a4c50ae, 0x4c06e28a, 0x2c246549),
            Vectors(0x21e54da9, 0x19212a5a, 0xd3fde99e, 0x95151853), Vectors(0xca393b2f, 0x9b032958, 0x26acc13d, 0x2c847a0d))
  }

  function E8(): Columns {
    Columns(Vectors(0xca5c85dd, 0x982563f8, 0x1c25931a, 0xa9b751fb), Vectors(0x93a4f90e, 0x712aa9ff, 0x5180bb10, 0x382f3ce2),
            Vectors(0xd9f0df58, 0x279a61e8, 0x779c27e7, 0x8db1757d), Vectors(0x26dd82dd, 0x970f72bd, 0x54077e08, 0xcc38080b))
  }

  function E9(): Columns {
    Columns(Vectors(0xb6b87de6, 0xdc33c122, 0x28c1fcb3, 0x21078b22), Vectors(0x9a016148, 0x98e18fa3, 0xc4b38f9d, 0xb193e7a3),
            Vectors(0x93859815, 0x5ffbe8fc, 0x83e2f5d7, 0xb2f49389), Vectors(0x4915e6cc, 0xf7154b8b, 0x7d24b98b, 0x6cde6026))
  }

  function E10(): Columns {
    Columns(Vectors(0x837778ab, 0xc4f2d0c7, 0x335271c2, 0xd19c12b4), Vectors(0xe238d763, 0xfc62bb2f, 0xf29489f3, 0xb04e16de),
            Vectors(0xa67ae21e, 0x8fa018fc, 0xeabda8fc, 0x9e83d0cb), Vectors(0x5950bb2f, 0x3f5ec7b7, 0x82e46ebd, 0x4e3c50a2))
  }

  lemma Example0()
    ensures DoubleV(E0()) == E1()
  {
  }

  lemma Example1()
    ensures DoubleV(E1()) == E2()
  {
  }

  lemma Example2()
    ensures DoubleV(E2()) == E3()
  {
  }

  lemma Example3()
    ensures DoubleV(E3()) == E4()
  {
  }

  lemma Example4()
    ensures DoubleV(E4()) == E5()
  {
  }

  lemma Example5()
    ensures DoubleV(E5()) == E6()
  {
  }

  lemma Example6()
    ensures DoubleV(E6()) == E7()
  {
  }

  lemma Example7()
    ensures DoubleV(E7()) == E8()
  {
  }

  lemma Example8()
    ensures DoubleV(E8()) == E9()
  {
  }

  lemma Example9()
    ensures DoubleV(E9()) == E10()
  {
  }

  /** The value of the four low bits. */
  function Nibble(x: bv32): int {
    (if x & 1 == 1 then 1 else 0) + (if x & 2 == 2 then 2 else 0) + (if x & 4 == 4 then 4 else 0) + (if x & 8 == 8 then 8 else 0)
  }

  lemma NibbleBits(x: bv32)
    ensures Nibble(x) == Low(x) + 2 * Low(Half(x)) + 4 * Low(Half(Half(x))) + 8 * Low(Half(Half(Half(x))))
  {
  }

  lemma NumUnfold(x: bv32, n: nat)
    requires n > 0
    ensures Num(x, n) == Low(x) + 2 * Num(Half(x), n - 1)
  {
  }

  lemma FourBits(x: bv32)
    ensures Num(x, 4) == Nibble(x)
  {
    NibbleBits(x);
    assert Num(Half(Half(Half(Half(x)))), 0) == 0;
    hide Num, Half, Low, Nibble;
    NumUnfold(x, 4);
    NumUnfold(Half(x), 3);
    NumUnfold(Half(Half(x)), 2);
    NumUnfold(Half(Half(Half(x))), 1);
  }

  lemma EightBits(x: bv32)
    ensures Num(x, 8) == Nibble(x) + 16 * Nibble(x >> 4)
  {
    Bits.Pow2Values();
    hide Num, Drop, Nibble, Bits.Pow2;
    NumSplit(x, 4, 4);
    Drop4(x);
    FourBits(x);
    FourBits(x >> 4);
  }

  lemma SixteenBits(x: bv32)
    ensures Num(x, 16) == Num(x, 8) + 0x100 * Num(x >> 8, 8)
  {
    Bits.Pow2Values();
    hide Num, Drop, Bits.Pow2;
    NumSplit(x, 8, 8);
    Drop8(x);
  }

  lemma AllBits(x: bv32)
    ensures W(x) == Num(x, 16) + 0x1_0000 * Num(x >> 16, 16)
  {
    Bits.Pow2Values();
    hide Num, Drop, Bits.Pow2;
    NumSplit(x, 16, 16);
    Drop16(x);
  }

  /** The number of a vector, nibble by nibble. */
  lemma WordValue(x: bv32, x8: bv32, x16: bv32, x24: bv32)
    requires x8 == x >> 8 && x16 == x >> 16 && x24 == x16 >> 8
    ensures W(x) == Nibble(x) + 16 * Nibble(x >> 4) + 0x100 * (Nibble(x8) + 16 * Nibble(x8 >> 4))
                  + 0x1_0000 * (Nibble(x16) + 16 * Nibble(x16 >> 4) + 0x100 * (Nibble(x24) + 16 * Nibble(x24 >> 4)))
  {
    hide W, Num, Nibble;
    AllBits(x);
    SixteenBits(x);
    SixteenBits(x16);
    EightBits(x);
    EightBits(x8);
    EightBits(x16);
    EightBits(x24);
  }

  lemma StartP()
    ensures WQuad(E0().p) == Quad(0x61707865, 0x03020100, 0x13121110, 0x00000001)
  {
    hide W;
    WordValue(0x61707865, 0x617078, 0x6170, 0x61);
    WordValue(0x03020100, 0x030201, 0x0302, 0x03);
    WordValue(0x13121110, 0x131211, 0x1312, 0x13);
    WordValue(0x00000001, 0x000000, 0x0000, 0x00);
  }

  lemma StartQ()
    ensures WQuad(E0().q) == Quad(0x3320646e, 0x07060504, 0x17161514, 0x09000000)
  {
    hide W;
    WordValue(0x3320646e, 0x332064, 0x3320, 0x33);
    WordValue(0x07060504, 0x070605, 0x0706, 0x07);
    WordValue(0x17161514, 0x171615, 0x1716, 0x17);
    WordValue(0x09000000, 0x090000, 0x0900, 0x09);
  }

  lemma StartR()
    ensures WQuad(E0().r) == Quad(0x79622d32, 0x0b0a0908, 0x1b1a1918, 0x4a000000)
  {
    hide W;
    WordValue(0x79622d32, 0x79622d, 0x7962, 0x79);
    WordValue(0x0b0a0908, 0x0b0a09, 0x0b0a, 0x0b);
    WordValue(0x1b1a1918, 0x1b1a19, 0x1b1a, 0x1b);
    WordValue(0x4a000000, 0x4a0000, 0x4a00, 0x4a);
  }

  lemma StartS()
    ensures WQuad(E0().s) == Quad(0x6b206574, 0x0f0e0d0c, 0x1f1e1d1c, 0x00000000)
  {
    hide W;
    WordValue(0x6b206574, 0x6b2065, 0x6b20, 0x6b);
    WordValue(0x0f0e0d0c, 0x0f0e0d, 0x0f0e, 0x0f);
    WordValue(0x1f1e1d1c, 0x1f1e1d, 0x1f1e, 0x1f);
    WordValue(0x00000000, 0x000000, 0x0000, 0x00);
  }

  lemma EndP()
    ensures WQuad(E10().p) == Quad(0x837778ab, 0xc4f2d0c7, 0x335271c2, 0xd19c12b4)
  {
    hide W;
    WordValue(0x837778ab, 0x837778, 0x8377, 0x83);
    WordValue(0xc4f2d0c7, 0xc4f2d0, 0xc4f2, 0xc4);
    WordValue(0x335271c2, 0x335271, 0x3352, 0x33);
    WordValue(0xd19c12b4, 0xd19c12, 0xd19c, 0xd1);
  }

  lemma EndQ()
    ensures WQuad(E10().q) == Quad(0xe238d763, 0xfc62bb2f, 0xf29489f3, 0xb04e16de)
  {
    hide W;
    WordValue(0xe238d763, 0xe238d7, 0xe238, 0xe2);
    WordValue(0xfc62bb2f, 0xfc62bb, 0xfc62, 0xfc);
    WordValue(0xf29489f3, 0xf29489, 0xf294, 0xf2);
    WordValue(0xb04e16de, 0xb04e16, 0xb04e, 0xb0);
  }

  lemma EndR()
    ensures WQuad(E10().r) == Quad(0xa67ae21e, 0x8fa018fc, 0xeabda8fc, 0x9e83d0cb)
  {
    hide W;
    WordValue(0xa67ae21e, 0xa67ae2, 0xa67a, 0xa6);
    WordValue(0x8fa018fc, 0x8fa018, 0x8fa0, 0x8f);
    WordValue(0xeabda8fc, 0xeabda8, 0xeabd, 0xea);
    WordValue(0x9e83d0cb, 0x9e83d0, 0x9e83, 0x9e);
  }

  lemma EndS()
    ensures WQuad(E10().s) == Quad(0x5950bb2f, 0x3f5ec7b7, 0x82e46ebd, 0x4e3c50a2)
  {
    hide W;
    WordValue(0x5950bb2f, 0x5950bb, 0x5950, 0x59);
    WordValue(0x3f5ec7b7, 0x3f5ec7, 0x3f5e, 0x3f);
    WordValue(0x82e46ebd, 0x82e46e, 0x82e4, 0x82);
    WordValue(0x4e3c50a2, 0x4e3c50, 0x4e3c, 0x4e);
  }

  function ExampleKey(): (r: seq<byte>)
    ensures |r| == 32
  {
    [0, 1, 2, 3, 4, 5, 6, 7, 8, 9, 10, 11, 12, 13, 14, 15,
     16, 17, 18, 19, 20, 21, 22, 23, 24, 25, 26, 27, 28, 29, 30, 31]
  }

  function ExampleNonce(): (r: seq<byte>)
    ensures |r| == 12
  {
    [0, 0, 0, 9, 0, 0, 0, 0x4a, 0, 0, 0, 0]
  }

  lemma StartWords()
    ensures InitialState(ExampleKey(), ExampleNonce(), 1) == WState(E0())
  {
    KeyWords();
    hide W, Load32, ExampleKey, ExampleNonce;
    StartP();
    StartQ();
    StartR();
    StartS();
  }

  lemma KeyWords()
    ensures var key, nonce := ExampleKey(), ExampleNonce();
            && Load32(key, 0) == 0x03020100 && Load32(key, 4) == 0x07060504 && Load32(key, 8) == 0x0b0a0908 && Load32(key, 12) == 0x0f0e0d0c
            && Load32(key, 16) == 0x13121110 && Load32(key, 20) == 0x17161514 && Load32(key, 24) == 0x1b1a1918 && Load32(key, 28) == 0x1f1e1d1c
            && Load32(nonce, 0) == 0x09000000 && Load32(nonce, 4) == 0x4a000000 && Load32(nonce, 8) == 0x00000000
  {
  }

  lemma EndWords()
    ensures WState(E10())
         == [0x837778ab, 0xe238d763, 0xa67ae21e, 0x5950bb2f, 0xc4f2d0c7, 0xfc62bb2f, 0x8fa018fc, 0x3f5ec7b7,
             0x335271c2, 0xf29489f3, 0xeabda8fc, 0x82e46ebd, 0xd19c12b4, 0xb04e16de, 0x9e83d0cb, 0x4e3c50a2]
  {
    hide W;
    EndP();
    EndQ();
    EndR();
    EndS();
  }

  lemma OneMore(m: Columns, next: Columns, s: State, k: nat, n: nat)
    requires Rounds(s, k) == WState(m) && DoubleV(m) == next && n == k + 1
    ensures Rounds(s, n) == WState(next)
  {
    hide WState, DoubleV, DoubleRound;
    DoubleWords(m);
  }

  lemma After1(s: State)
    requires s == WState(E0())
    ensures Rounds(s, 1) == WState(E1())
  {
    hide WState, DoubleV, E0, E1;
    assert Rounds(s, 0) == s;
    Example0();
    OneMore(E0(), E1(), s, 0, 1);
  }

  lemma After2(s: State)
    requires s == WState(E0())
    ensures Rounds(s, 2) == WState(E2())
  {
    hide WState, DoubleV, E1, E2, Rounds;
    After1(s);
    Example1();
    OneMore(E1(), E2(), s, 1, 2);
  }

  lemma After3(s: State)
    requires s == WState(E0())
    ensures Rounds(s, 3) == WState(E3())
  {
    hide WState, DoubleV, E2, E3, Rounds;
    After2(s);
    Example2();
    OneMore(E2(), E3(), s, 2, 3);
  }

  lemma After4(s: State)
    requires s == WState(E0())
    ensures Rounds(s, 4) == WState(E4())
  {
    hide WState, DoubleV, E3, E4, Rounds;
    After3(s);
    Example3();
    OneMore(E3(), E4(), s, 3, 4);
  }

  lemma After5(s: State)
    requires s == WState(E0())
    ensures Rounds(s, 5) == WState(E5())
  {
    hide WState, DoubleV, E4, E5, Rounds;
    After4(s);
    Example4();
    OneMore(E4(), E5(), s, 4, 5);
  }

  lemma After6(s: State)
    requires s == WState(E0())
    ensures Rounds(s, 6) == WState(E6())
  {
    hide WState, DoubleV, E5, E6, Rounds;
    After5(s);
    Example5();
    OneMore(E5(), E6(), s, 5, 6);
  }

  lemma After7(s: State)
    requires s == WState(E0())
    ensures Rounds(s, 7) == WState(E7())
  {
    hide WState, DoubleV, E6, E7, Rounds;
    After6(s);
    Example6();
    OneMore(E6(), E7(), s, 6, 7);
  }

  lemma After8(s: State)
    requires s == WState(E0())
    ensures Rounds(s, 8) == WState(E8())
  {
    hide WState, DoubleV, E7, E8, Rounds;
    After7(s);
    Example7();
    OneMore(E7(), E8(), s, 7, 8);
  }

  lemma After9(s: State)
    requires s == WState(E0())
    ensures Rounds(s, 9) == WState(E9())
  {
    hide WState, DoubleV, E8, E9, Rounds;
    After8(s);
    Example8();
    OneMore(E8(), E9(), s, 8, 9);
  }

  lemma After10(s: State)
    requires s == WState(E0())
    ensures Rounds(s, 10) == WState(E10())
  {
    hide WState, DoubleV, E9, E10, Rounds;
    After9(s);
    Example9();
    OneMore(E9(), E10(), s, 9, 10);
  }

  /** The block of section 2.3.2 of RFC 8439: its sixteen little-endian words. */
  lemma KnownAnswer()
    ensures WordsOf(Block(InitialState(ExampleKey(), ExampleNonce(), 1)))
         == [0xe4e7f110, 0x15593bd1, 0x1fdd0f50, 0xc47120a3, 0xc7f4d1c7, 0x0368c033, 0x9aaa2204, 0x4e6cd4c3,
             0x466482d2, 0x09aa9f07, 0x05d7c214, 0xa2028bd9, 0xd19c12b5, 0xb94e16de, 0xe883d0cb, 0x4e3c50a2]
  {
    StartWords();
    StartState();
    hide WState, Load32, ExampleKey, ExampleNonce, Block, E0, E10, InitialState, Rounds, WordsOf;
    var s := InitialState(ExampleKey(), ExampleNonce(), 1);
    After10(s);
    EndWords();
    BlockSums(s);
    Sums(s, Rounds(s, 10));
  }

  function WordsOf(block: seq<byte>): (r: seq<uint32>)
    requires |block| == 64
    ensures |r| == 16
  {
    seq(16, i requires 0 <= i < 16 => Load32(block, 4 * i))
  }

  lemma BlockSums(s: State)
    ensures WordsOf(Block(s)) == seq(16, i requires 0 <= i < 16 => Add32(Rounds(s, 10)[i], s[i]))
  {
    hide Rounds, Load32, Block, Add32;
    forall i | 0 <= i < 16
      ensures WordsOf(Block(s))[i] == Add32(Rounds(s, 10)[i], s[i])
    {
      WordOfBlock(s, i);
    }
  }

  lemma StartState()
    ensures InitialState(ExampleKey(), ExampleNonce(), 1)
         == [0x61707865, 0x3320646e, 0x79622d32, 0x6b206574, 0x03020100, 0x07060504, 0x0b0a0908, 0x0f0e0d0c,
             0x13121110, 0x17161514, 0x1b1a1918, 0x1f1e1d1c, 0x00000001, 0x09000000, 0x4a000000, 0x00000000]
  {
    KeyWords();
    hide Load32, ExampleKey, ExampleNonce;
  }

  lemma Sums(s: State, t: State)
    requires s == [0x61707865, 0x3320646e, 0x79622d32, 0x6b206574, 0x03020100, 0x07060504, 0x0b0a0908, 0x0f0e0d0c,
                   0x13121110, 0x17161514, 0x1b1a1918, 0x1f1e1d1c, 0x00000001, 0x09000000, 0x4a000000, 0x00000000]
    requires t == [0x837778ab, 0xe238d763, 0xa67ae21e, 0x5950bb2f, 0xc4f2d0c7, 0xfc62bb2f, 0x8fa018fc, 0x3f5ec7b7,
                   0x335271c2, 0xf29489f3, 0xeabda8fc, 0x82e46ebd, 0xd19c12b4, 0xb04e16de, 0x9e83d0cb, 0x4e3c50a2]
    ensures seq(16, i requires 0 <= i < 16 => Add32(t[i], s[i]))
         == [0xe4e7f110, 0x15593bd1, 0x1fdd0f50, 0xc47120a3, 0xc7f4d1c7, 0x0368c033, 0x9aaa2204, 0x4e6cd4c3,
             0x466482d2, 0x09aa9f07, 0x05d7c214, 0xa2028bd9, 0xd19c12b5, 0xb94e16de, 0xe883d0cb, 0x4e3c50a2]
  {
  }

}
