/** The Poly1305 authenticator on 32-bit limbs. */
module Poly1305 {
  import opened Bytes
  import opened Modular
  import Bits

  const P130: int := 0x3_FFFF_FFFF_FFFF_FFFF_FFFF_FFFF_FFFF_FFFB
  const TWO96: int := 0x1_0000_0000_0000_0000_0000_0000

  /////////////////////////////////////////////////////////////////////////////
  // Specification: section 2.5 of RFC 8439
  /////////////////////////////////////////////////////////////////////////////

  /** The message cut into 16-byte blocks, each read little-endian with a 1 byte appended. */
  function Blocks(msg: seq<byte>): (bs: seq<nat>)
    decreases |msg|
  {
    if msg == [] then []
    else
      var k := if |msg| < 16 then |msg| else 16;
      [LE(msg[..k] + [1])] + Blocks(msg[k..])
  }

  /** acc = ((acc + block) * r) mod p, over all blocks. */
  function Horner(acc: int, blocks: seq<int>, r: int): (h: int)
  {
    if blocks == [] then acc
    else (Horner(acc, blocks[..|blocks| - 1], r) + blocks[|blocks| - 1]) * r % P130
  }

  const CLAMP: int := 0x0FFF_FFFC_0FFF_FFFC_0FFF_FFFC_0FFF_FFFF

  function ClampedR(key: seq<byte>): int
    requires |key| == 32
  {
    Bits.And(LE(key[..16]), CLAMP)
  }

  /** The tag of msg under a 32-byte one-time key (r, s). */
  function Tag(key: seq<byte>, msg: seq<byte>): (tag: seq<byte>)
    requires |key| == 32
    ensures |tag| == 16
  {
    var h := Horner(0, Blocks(msg), ClampedR(key)) % P130;
    ToLE((h + LE(key[16..])) % TWO128, 16)
  }

  /////////////////////////////////////////////////////////////////////////////
  // Limbs
  /////////////////////////////////////////////////////////////////////////////

  function Value4(a0: int, a1: int, a2: int, a3: int): int {
    a0 + TWO32 * a1 + TWO64 * a2 + TWO96 * a3
  }

  function Value5(a0: int, a1: int, a2: int, a3: int, a4: int): int {
    Value4(a0, a1, a2, a3) + TWO128 * a4
  }

  datatype Limbs = Limbs(a0: uint32, a1: uint32, a2: uint32, a3: uint32, a4: uint32)
  {
    function Value(): int { Value5(a0, a1, a2, a3, a4) }
  }

  /** Clamping leaves every r limb below 2^28 and the top three divisible by 4. */
  predicate Clamped(r: seq<uint32>) {
    && |r| == 4
    && (forall i :: 0 <= i < 4 ==> r[i] < 0x1000_0000)
    && (forall i :: 1 <= i < 4 ==> r[i] % 4 == 0)
  }

  function RValue(r: seq<uint32>): int
    requires |r| == 4
  {
    Value4(r[0], r[1], r[2], r[3])
  }

  /** acc += block, one carry chain; no 64-bit sum overflows and the top limb grows by at most 2. */
  method AddBlock(acc: Limbs, d: seq<uint32>, pad: uint32) returns (res: Limbs)
    requires |d| == 4 && acc.a4 <= 4 && pad <= 1
    ensures res.Value() == acc.Value() + Value4(d[0], d[1], d[2], d[3]) + TWO128 * pad
    ensures res.a4 <= 6
  {
    var d0: uint64 := d[0] + acc.a0;
    var d1: uint64 := d[1] + acc.a1 + d0 / TWO32;
    var d2: uint64 := d[2] + acc.a2 + d1 / TWO32;
    var d3: uint64 := d[3] + acc.a3 + d2 / TWO32;
    var a4: uint32 := acc.a4 + (d3 / TWO32 + pad);
    res := Limbs(d0 % TWO32, d1 % TWO32, d2 % TWO32, d3 % TWO32, a4);
  }

  /** The coefficients of acc * r with 2^130 folded to 5 through rs = 5r/4. */
  datatype Products = Products(d0: uint64, d1: uint64, d2: uint64, d3: uint64, a4: uint32)
  {
    function Value(): int { Value5(d0, d1, d2, d3, a4) }
  }

  lemma MulBound(a: int, b: int, y: int)
    requires 0 <= a < TWO32 && 0 <= b <= y
    ensures 0 <= a * b <= TWO32 * y
  {
    assert a * b <= TWO32 * b;
  }

  lemma SmallMulBound(a: int, b: int)
    requires 0 <= a <= 6 && 0 <= b <= 0x1400_0000
    ensures 0 <= a * b <= 6 * b
  {
  }

  /** How often 2^130 was folded to 5. */
  function Folded(a1: int, a2: int, a3: int, a4: int, q1: int, q2: int, q3: int): int {
    a1 * q3 + a2 * q2 + a3 * q1 + TWO32 * (a2 * q3 + a3 * q2 + a4 * q1) + TWO64 * (a3 * q3 + a4 * q2) + TWO96 * (a4 * q3)
  }

  /** With 2^130 = p + 5, the product of acc and r splits into the folded sums and a multiple of p. */
  lemma FoldedProduct(a0: int, a1: int, a2: int, a3: int, a4: int, r0: int, q1: int, q2: int, q3: int,
                      d0: int, d1: int, d2: int, d3: int)
    requires d0 == a0 * r0 + a1 * (5 * q3) + a2 * (5 * q2) + a3 * (5 * q1)
    requires d1 == a0 * (4 * q1) + a1 * r0 + a2 * (5 * q3) + a3 * (5 * q2) + a4 * (5 * q1)
    requires d2 == a0 * (4 * q2) + a1 * (4 * q1) + a2 * r0 + a3 * (5 * q3) + a4 * (5 * q2)
    requires d3 == a0 * (4 * q3) + a1 * (4 * q2) + a2 * (4 * q1) + a3 * r0 + a4 * (5 * q3)
    ensures Value5(a0, a1, a2, a3, a4) * Value4(r0, 4 * q1, 4 * q2, 4 * q3)
         == Value5(d0, d1, d2, d3, a4 * r0) + P130 * Folded(a1, a2, a3, a4, q1, q2, q3)
  {
    ProductIdentity(a0, a1, a2, a3, a4, r0, q1, q2, q3);
    ScaleProduct(a1, 5, q3); ScaleProduct(a2, 5, q2); ScaleProduct(a3, 5, q1);
    ScaleProduct(a0, 4, q1); ScaleProduct(a2, 5, q3); ScaleProduct(a3, 5, q2); ScaleProduct(a4, 5, q1);
    ScaleProduct(a0, 4, q2); ScaleProduct(a1, 4, q1); ScaleProduct(a3, 5, q3); ScaleProduct(a4, 5, q2);
    ScaleProduct(a0, 4, q3); ScaleProduct(a1, 4, q2); ScaleProduct(a2, 4, q1); ScaleProduct(a4, 5, q3);
  }

  lemma RowProduct(a: int, r0: int, q1: int, q2: int, q3: int)
    ensures a * Value4(r0, 4 * q1, 4 * q2, 4 * q3)
         == a * r0 + (TWO32 * 4) * (a * q1) + (TWO64 * 4) * (a * q2) + (TWO96 * 4) * (a * q3)
  {
  }

  lemma RowSum(a0: int, a1: int, a2: int, a3: int, a4: int, r: int)
    ensures Value5(a0, a1, a2, a3, a4) * r == Value5(a0 * r, a1 * r, a2 * r, a3 * r, a4 * r)
  {
  }

  lemma ScaleProduct(a: int, c: int, q: int)
    ensures a * (c * q) == c * (a * q)
  {
  }

  lemma ProductIdentity(a0: int, a1: int, a2: int, a3: int, a4: int, r0: int, q1: int, q2: int, q3: int)
    ensures Value5(a0, a1, a2, a3, a4) * Value4(r0, 4 * q1, 4 * q2, 4 * q3)
         == Value5(a0 * r0 + 5 * (a1 * q3) + 5 * (a2 * q2) + 5 * (a3 * q1),
                   4 * (a0 * q1) + a1 * r0 + 5 * (a2 * q3) + 5 * (a3 * q2) + 5 * (a4 * q1),
                   4 * (a0 * q2) + 4 * (a1 * q1) + a2 * r0 + 5 * (a3 * q3) + 5 * (a4 * q2),
                   4 * (a0 * q3) + 4 * (a1 * q2) + 4 * (a2 * q1) + a3 * r0 + 5 * (a4 * q3), a4 * r0)
          + P130 * Folded(a1, a2, a3, a4, q1, q2, q3)
  {
    RowSum(a0, a1, a2, a3, a4, Value4(r0, 4 * q1, 4 * q2, 4 * q3));
    RowProduct(a0, r0, q1, q2, q3);
    RowProduct(a1, r0, q1, q2, q3);
    RowProduct(a2, r0, q1, q2, q3);
    RowProduct(a3, r0, q1, q2, q3);
    RowProduct(a4, r0, q1, q2, q3);
    LinearIdentity(a0 * r0, a0 * q1, a0 * q2, a0 * q3, a1 * r0, a1 * q1, a1 * q2, a1 * q3,
                   a2 * r0, a2 * q1, a2 * q2, a2 * q3, a3 * r0, a3 * q1, a3 * q2, a3 * q3,
                   a4 * r0, a4 * q1, a4 * q2, a4 * q3);
  }

  /** The same identity with the twenty limb products as unknowns. */
  lemma LinearIdentity(x00: int, x01: int, x02: int, x03: int, x10: int, x11: int, x12: int, x13: int,
                       x20: int, x21: int, x22: int, x23: int, x30: int, x31: int, x32: int, x33: int,
                       x40: int, x41: int, x42: int, x43: int)
    ensures Value5(x00 + (TWO32 * 4) * x01 + (TWO64 * 4) * x02 + (TWO96 * 4) * x03,
                   x10 + (TWO32 * 4) * x11 + (TWO64 * 4) * x12 + (TWO96 * 4) * x13,
                   x20 + (TWO32 * 4) * x21 + (TWO64 * 4) * x22 + (TWO96 * 4) * x23,
                   x30 + (TWO32 * 4) * x31 + (TWO64 * 4) * x32 + (TWO96 * 4) * x33,
                   x40 + (TWO32 * 4) * x41 + (TWO64 * 4) * x42 + (TWO96 * 4) * x43)
         == Value5(x00 + 5 * x13 + 5 * x22 + 5 * x31,
                   4 * x01 + x10 + 5 * x23 + 5 * x32 + 5 * x41,
                   4 * x02 + 4 * x11 + x20 + 5 * x33 + 5 * x42,
                   4 * x03 + 4 * x12 + 4 * x21 + x30 + 5 * x43, x40)
          + P130 * (x13 + x22 + x31 + TWO32 * (x23 + x32 + x41) + TWO64 * (x33 + x42) + TWO96 * x43)
  {
  }

  /** acc *= r: all sums fit 64 bits and their value is congruent to the product. */
  method MulR(acc: Limbs, r: seq<uint32>) returns (res: Products)
    requires Clamped(r) && acc.a4 <= 6
    ensures res.Value() % P130 == (acc.Value() * RValue(r)) % P130
    ensures res.d0 <= 0x4C00_0000_0000_0000 && res.d1 <= 0x4C00_0000_0000_0000
    ensures res.d2 <= 0x4C00_0000_0000_0000 && res.d3 <= 0x4C00_0000_0000_0000
    ensures res.a4 <= 0x6000_0000
  {
    var r0: int, r1: int, r2: int, r3: int := r[0], r[1], r[2], r[3];
    var rs1: uint32 := r1 + r1 / 4;
    var rs2: uint32 := r2 + r2 / 4;
    var rs3: uint32 := r3 + r3 / 4;
    var a0: int, a1: int, a2: int, a3: int, a4: int := acc.a0, acc.a1, acc.a2, acc.a3, acc.a4;
    RowBounds(a0, a1, a2, a3, a4, r0, rs3, rs2, rs1, 0);
    RowBounds(a0, a1, a2, a3, a4, r1, r0, rs3, rs2, rs1);
    RowBounds(a0, a1, a2, a3, a4, r2, r1, r0, rs3, rs2);
    RowBounds(a0, a1, a2, a3, a4, r3, r2, r1, r0, rs3);
    SmallMulBound(a4, r0);
    var d0: uint64 := a0 * r0 + a1 * rs3 + a2 * rs2 + a3 * rs1;
    var d1: uint64 := a0 * r1 + a1 * r0 + a2 * rs3 + a3 * rs2 + a4 * rs1;
    var d2: uint64 := a0 * r2 + a1 * r1 + a2 * r0 + a3 * rs3 + a4 * rs2;
    var d3: uint64 := a0 * r3 + a1 * r2 + a2 * r1 + a3 * r0 + a4 * rs3;
    var top: uint32 := a4 * r0;
    res := Products(d0, d1, d2, d3, top);
    FoldedProduct(a0, a1, a2, a3, a4, r0, r1 / 4, r2 / 4, r3 / 4, d0, d1, d2, d3);
    CongruentByMultiple(acc.Value() * RValue(r), res.Value(), P130, Folded(a1, a2, a3, a4, r1 / 4, r2 / 4, r3 / 4));
  }

  /** One row of the product: four limbs against r-like factors and the small top limb. */
  lemma RowBounds(a0: int, a1: int, a2: int, a3: int, a4: int, x0: int, x1: int, x2: int, x3: int, x4: int)
    requires 0 <= a0 < TWO32 && 0 <= a1 < TWO32 && 0 <= a2 < TWO32 && 0 <= a3 < TWO32 && 0 <= a4 <= 6
    requires 0 <= x0 < 0x1000_0000
    requires 0 <= x1 < 0x1400_0000 && 0 <= x2 < 0x1400_0000 && 0 <= x3 < 0x1400_0000
    requires 0 <= x4 < 0x1400_0000
    ensures 0 <= a0 * x0 && 0 <= a1 * x1 && 0 <= a2 * x2 && 0 <= a3 * x3 && 0 <= a4 * x4
    ensures a0 * x0 + a1 * x1 + a2 * x2 + a3 * x3 + a4 * x4 <= 0x4C00_0000_0000_0000
  {
    MulBound(a0, x0, 0x0FFF_FFFF);
    MulBound(a1, x1, 0x13FF_FFFF);
    MulBound(a2, x2, 0x13FF_FFFF);
    MulBound(a3, x3, 0x13FF_FFFF);
    SmallMulBound(a4, x4);
  }

  /** The carries of the product sums are propagated once into 32-bit limbs; nothing overflows. */
  method Carry(p: Products) returns (res: Limbs)
    requires p.d0 <= 0x4C00_0000_0000_0000 && p.d1 <= 0x4C00_0000_0000_0000
    requires p.d2 <= 0x4C00_0000_0000_0000 && p.d3 <= 0x4C00_0000_0000_0000
    requires p.a4 <= 0x6000_0000
    ensures res.Value() == p.Value()
  {
    var d1: uint64 := p.d1 + p.d0 / TWO32;
    var d2: uint64 := p.d2 + d1 / TWO32;
    var d3: uint64 := p.d3 + d2 / TWO32;
    var acc4: uint32 := d3 / TWO32 + p.a4;
    res := Limbs(p.d0 % TWO32, d1 % TWO32, d2 % TWO32, d3 % TWO32, acc4);
  }

  /** acc %= p (partial): 2^130 is folded to 5 and the top limb returns to at most 4. */
  method Fold(acc: Limbs) returns (res: Limbs)
    ensures res.Value() % P130 == acc.Value() % P130
    ensures res.a4 <= 4
  {
    // (acc4 >> 2) + (acc4 & 0xFFFFFFFC)
    AndTopMask(acc.a4);
    hide Bits.And;
    var e0: uint64 := acc.a0 + acc.a4 / 4 + Bits.And(acc.a4, 0xFFFF_FFFC);
    var top: uint32 := acc.a4 % 4;
    var e1: uint64 := acc.a1 + e0 / TWO32;
    var e2: uint64 := acc.a2 + e1 / TWO32;
    var e3: uint64 := acc.a3 + e2 / TWO32;
    var e4: uint64 := top + e3 / TWO32;
    res := Limbs(e0 % TWO32, e1 % TWO32, e2 % TWO32, e3 % TWO32, e4);
    assert res.Value() == acc.Value() + P130 * -(acc.a4 / 4);
    CongruentByMultiple(res.Value(), acc.Value(), P130, -(acc.a4 / 4));
  }

  lemma AndTopMask(x: uint32)
    ensures Bits.And(x, 0xFFFF_FFFC) == x - x % 4
  {
    hide Bits.And;
    Bits.Pow2Values();
    Bits.AndMidMask(x, 30);
    assert 4 * (Bits.Pow2(30) - 1) == 0xFFFF_FFFC;
  }

  /** The masked subtraction: one subtraction of p is exact because acc < 2p. */
  method FinalReduce(acc: Limbs) returns (a0: uint32, a1: uint32, a2: uint32, a3: uint32)
    requires acc.a4 <= 4
    ensures Value4(a0, a1, a2, a3) == (acc.Value() % P130) % TWO128
  {
    hide Bits.And, Bits.Or;
    var d0: uint64 := acc.a0 + 5;
    var d1: uint64 := acc.a1 + d0 / TWO32;
    var d2: uint64 := acc.a2 + d1 / TWO32;
    var d3: uint64 := acc.a3 + d2 / TWO32;
    var g0: uint32, g1: uint32, g2: uint32, g3: uint32 := d0 % TWO32, d1 % TWO32, d2 % TWO32, d3 % TWO32;
    var g4: uint32 := acc.a4 + d3 / TWO32;
    var mask: uint32 := (TWO32 - g4 / 4) % TWO32;
    var maskInv: uint32 := 0xFFFF_FFFF - mask;
    Bits.MaskedSelect(acc.a0, g0, mask);
    Bits.MaskedSelect(acc.a1, g1, mask);
    Bits.MaskedSelect(acc.a2, g2, mask);
    Bits.MaskedSelect(acc.a3, g3, mask);
    a0 := Bits.Or(Bits.And(acc.a0, maskInv), Bits.And(g0, mask));
    a1 := Bits.Or(Bits.And(acc.a1, maskInv), Bits.And(g1, mask));
    a2 := Bits.Or(Bits.And(acc.a2, maskInv), Bits.And(g2, mask));
    a3 := Bits.Or(Bits.And(acc.a3, maskInv), Bits.And(g3, mask));
    Selected(acc, g0, g1, g2, g3, g4, a0, a1, a2, a3);
  }

  /** Final reduction, addition of s modulo 2^128, and the 16 bytes of the sum. */
  method ComputeMac(acc: Limbs, s: seq<uint32>) returns (mac: seq<byte>)
    requires acc.a4 <= 4 && |s| == 4
    ensures mac == ToLE((acc.Value() % P130 + RValue(s)) % TWO128, 16)
  {
    hide ToLE;
    var a0: int, a1: int, a2: int, a3: int := FinalReduce(acc);
    var e0: uint64 := a0 + s[0];
    var e1: uint64 := a1 + s[1] + e0 / TWO32;
    var e2: uint64 := a2 + s[2] + e1 / TWO32;
    var e3: uint64 := a3 + s[3] + e2 / TWO32;
    var b0: uint32, b1: uint32, b2: uint32, b3: uint32 := e0 % TWO32, e1 % TWO32, e2 % TWO32, e3 % TWO32;
    SumMod(acc.Value() % P130, Value4(a0, a1, a2, a3), RValue(s), Value4(b0, b1, b2, b3), e3 / TWO32);
    FourWords(b0, b1, b2, b3);
    mac := ToLE(b0, 4) + ToLE(b1, 4) + ToLE(b2, 4) + ToLE(b3, 4);
  }

  /** acc + 5 has bit 130 set exactly when acc >= p, and then its low limbs are those of acc - p. */
  lemma Selected(acc: Limbs, g0: uint32, g1: uint32, g2: uint32, g3: uint32, g4: uint32,
                 a0: uint32, a1: uint32, a2: uint32, a3: uint32)
    requires acc.a4 <= 4 && Value5(g0, g1, g2, g3, g4) == acc.Value() + 5
    requires if g4 < 4 then a0 == acc.a0 && a1 == acc.a1 && a2 == acc.a2 && a3 == acc.a3
             else a0 == g0 && a1 == g1 && a2 == g2 && a3 == g3
    ensures Value4(a0, a1, a2, a3) == (acc.Value() % P130) % TWO128
  {
    var v, low := acc.Value(), Value4(a0, a1, a2, a3);
    assert 0 <= low < TWO128;
    if g4 < 4 {
      SmallMod(v, P130);
      Bits.DivModUnique(v, TWO128, acc.a4, low);
    } else {
      Bits.DivModUnique(v, P130, 1, v - P130);
      Bits.DivModUnique(v - P130, TWO128, g4 - 4, low);
    }
  }

  lemma SumMod(h: int, low: int, s: int, out: int, k: int)
    requires low == h % TWO128 && out == low + s - TWO128 * k && 0 <= out < TWO128
    ensures out == (h + s) % TWO128
  {
    Bits.DivModUnique(h + s, TWO128, h / TWO128 + k, out);
  }

  lemma FourWords(b0: uint32, b1: uint32, b2: uint32, b3: uint32)
    ensures ToLE(b0, 4) + ToLE(b1, 4) + ToLE(b2, 4) + ToLE(b3, 4) == ToLE(Value4(b0, b1, b2, b3), 16)
  {
    hide LE, ToLE;
    var w0, w1, w2, w3 := ToLE(b0, 4), ToLE(b1, 4), ToLE(b2, 4), ToLE(b3, 4);
    Pow256Of4();
    ToLERoundTrip(b0, 4);
    ToLERoundTrip(b1, 4);
    ToLERoundTrip(b2, 4);
    ToLERoundTrip(b3, 4);
    LEAppend(w2, w3);
    LEAppend(w1, w2 + w3);
    LEAppend(w0, w1 + (w2 + w3));
    var t := w0 + (w1 + (w2 + w3));
    assert LE(t) == Value4(b0, b1, b2, b3);
    ToLEOfLE(t);
    assert t == w0 + w1 + w2 + w3;
  }

  /////////////////////////////////////////////////////////////////////////////
  // Blocks and Horner evaluation
  /////////////////////////////////////////////////////////////////////////////

  /** The coefficient the block loop adds for the block at index i. */
  function Coeff(input: seq<byte>, i: nat, pad: int): int
    requires 16 * i + 16 <= |input|
  {
    LE(input[16 * i..16 * i + 16]) + TWO128 * pad
  }

  function Coeffs(input: seq<byte>, n: nat, pad: int): (cs: seq<int>)
    requires 16 * n <= |input|
    ensures |cs| == n
  {
    seq(n, i requires 0 <= i < n => Coeff(input, i, pad))
  }

  lemma CoeffsPrefix(input: seq<byte>, n: nat, pad: int)
    requires 16 * n <= |input|
    ensures Coeffs(input[..16 * n], n, pad) == Coeffs(input, n, pad)
  {
    forall i | 0 <= i < n
      ensures Coeff(input[..16 * n], i, pad) == Coeff(input, i, pad)
    {
      assert input[..16 * n][16 * i..16 * i + 16] == input[16 * i..16 * i + 16];
    }
  }

  lemma HornerSnoc(acc: int, bs: seq<int>, c: int, r: int)
    ensures Horner(acc, bs + [c], r) == (Horner(acc, bs, r) + c) * r % P130
  {
    assert (bs + [c])[..|bs|] == bs;
  }

  lemma {:induction false} HornerAppend(acc: int, a: seq<int>, b: seq<int>, r: int)
    ensures Horner(acc, a + b, r) == Horner(Horner(acc, a, r), b, r)
    decreases |b|
  {
    if b == [] {
      assert a + b == a;
    } else {
      var b' := b[..|b| - 1];
      assert (a + b)[..|a + b| - 1] == a + b';
      HornerAppend(acc, a, b', r);
    }
  }

  /** Horner evaluation depends on its start only modulo p. */
  lemma {:induction false} HornerCong(acc: int, acc': int, bs: seq<int>, r: int)
    requires acc % P130 == acc' % P130
    ensures Horner(acc, bs, r) % P130 == Horner(acc', bs, r) % P130
  {
    if bs != [] {
      var bs' := bs[..|bs| - 1];
      HornerCong(acc, acc', bs', r);
      AddCong(Horner(acc, bs', r), Horner(acc', bs', r), bs[|bs| - 1], P130);
      MulCong(Horner(acc, bs', r) + bs[|bs| - 1], Horner(acc', bs', r) + bs[|bs| - 1], r, P130);
    }
  }

  /** Multiplying congruent sums by r keeps them congruent. */
  lemma HornerStep(sum: int, w: int, sum': int, w': int, r: int)
    requires sum % P130 == sum' % P130
    requires w % P130 == (sum * r) % P130 && w' == sum' * r % P130
    ensures w % P130 == w' % P130
  {
    MulCong(sum, sum', r, P130);
  }

  /** The three phases of a round, put together over the coefficients read so far. */
  lemma RoundIsHornerStep(input: seq<byte>, i: nat, pad: int, start: int, r: int, v: int, sum: int, w: int)
    requires 16 * i + 16 <= |input|
    requires v % P130 == Horner(start, Coeffs(input, i, pad), r) % P130
    requires sum == v + Value4(Load32(input, 16 * i), Load32(input, 16 * i + 4), Load32(input, 16 * i + 8),
                               Load32(input, 16 * i + 12)) + TWO128 * pad
    requires w % P130 == (sum * r) % P130
    ensures w % P130 == Horner(start, Coeffs(input, i + 1, pad), r) % P130
  {
    hide LE, Load32, Horner;
    FourLimbs(input, 16 * i);
    var c, h := Coeff(input, i, pad), Horner(start, Coeffs(input, i, pad), r);
    assert sum == v + c;
    AddCong(v, h, c, P130);
    assert Coeffs(input, i + 1, pad) == Coeffs(input, i, pad) + [c];
    HornerSnoc(start, Coeffs(input, i, pad), c, r);
    HornerStep(sum, w, h + c, Horner(start, Coeffs(input, i + 1, pad), r), r);
  }

  /** Horner evaluation equals the polynomial c1*r^n + ... + cn*r (section 2.5.1 of RFC 8439). */
  function Power(r: int, n: nat): int {
    if n == 0 then 1 else r * Power(r, n - 1)
  }

  function Polynomial(blocks: seq<int>, r: int): int {
    if blocks == [] then 0
    else blocks[0] * Power(r, |blocks|) + Polynomial(blocks[1..], r)
  }

  lemma {:induction false} PolynomialSnoc(bs: seq<int>, c: int, r: int)
    ensures Polynomial(bs + [c], r) == (Polynomial(bs, r) + c) * r
  {
    if bs == [] {
      assert bs + [c] == [c];
      assert [c][1..] == [];
      assert Power(r, 1) == r * Power(r, 0);
    } else {
      assert (bs + [c])[1..] == bs[1..] + [c];
      PolynomialSnoc(bs[1..], c, r);
      var p, q := Power(r, |bs|), Polynomial(bs[1..], r);
      assert bs[0] * (r * p) == (bs[0] * p) * r;
      assert (bs[0] * p + q + c) * r == (bs[0] * p) * r + (q + c) * r;
    }
  }

  lemma PolynomialStep(p: int, p': int, h: int, h': int, c: int, r: int)
    requires p % P130 == h % P130 && p' == (p + c) * r && h' == (h + c) * r % P130
    ensures p' % P130 == h' % P130
  {
    AddCong(p, h, c, P130);
    HornerStep(p + c, p', h + c, h', r);
  }

  lemma {:induction false} HornerIsPolynomial(bs: seq<int>, r: int)
    ensures Horner(0, bs, r) % P130 == Polynomial(bs, r) % P130
  {
    if bs != [] {
      var bs', c := bs[..|bs| - 1], bs[|bs| - 1];
      HornerIsPolynomial(bs', r);
      assert bs == bs' + [c];
      PolynomialSnoc(bs', c, r);
      PolynomialStep(Polynomial(bs', r), Polynomial(bs, r), Horner(0, bs', r), Horner(0, bs, r), c, r);
    }
  }

  lemma BlocksUnfold(msg: seq<byte>)
    requires |msg| >= 16
    ensures Blocks(msg) == [LE(msg[..16] + [1])] + Blocks(msg[16..])
  {
  }

  /** Cutting a message after a multiple of 16 bytes cuts its blocks. */
  lemma {:induction false} BlocksAppend(a: seq<byte>, b: seq<byte>)
    requires |a| % 16 == 0
    ensures Blocks(a + b) == Blocks(a) + Blocks(b)
    decreases |a|
  {
    if a == [] {
      assert a + b == b && Blocks(a) == [];
    } else {
      hide Blocks, LE;
      assert (a + b)[..16] == a[..16] && (a + b)[16..] == a[16..] + b;
      BlocksAppend(a[16..], b);
      BlocksUnfold(a);
      BlocksUnfold(a + b);
    }
  }

  lemma FullBlock(b: seq<byte>)
    requires |b| == 16
    ensures Blocks(b) == [LE(b) + TWO128]
  {
    assert b[..16] == b && b[16..] == [];
    BlocksUnfold(b);
    LEAppend(b, [1]);
    Pow256Of16();
    assert LE([1]) == 1 by { assert [1][1..] == []; }
  }

  /** The appended 1 keeps messages apart: no two have the same blocks, not even when one is the other with zeros behind. */
  lemma {:induction false} BlocksInjective(a: seq<byte>, b: seq<byte>)
    requires Blocks(a) == Blocks(b)
    ensures a == b
    decreases |a|
  {
    if a != [] {
      var k, l := if |a| < 16 then |a| else 16, if |b| < 16 then |b| else 16;
      assert Blocks(a)[0] == LE(a[..k] + [1]) && Blocks(b)[0] == LE(b[..l] + [1]);
      assert Blocks(a)[1..] == Blocks(a[k..]) && Blocks(b)[1..] == Blocks(b[l..]);
      hide Blocks, LE;
      OneBehind(a[..k], b[..l]);
      BlocksInjective(a[k..], b[l..]);
      assert a == a[..k] + a[k..] && b == b[..l] + b[l..];
    }
  }

  lemma {:induction false} OneBehind(a: seq<byte>, b: seq<byte>)
    requires LE(a + [1]) == LE(b + [1])
    ensures a == b
    decreases |a|
  {
    if a == [] || b == [] {
      LEOne(a);
      LEOne(b);
    } else {
      assert (a + [1])[1..] == a[1..] + [1] && (b + [1])[1..] == b[1..] + [1];
      assert a[0] == LE(a + [1]) % 256 && b[0] == LE(b + [1]) % 256;
      OneBehind(a[1..], b[1..]);
      assert a == [a[0]] + a[1..] && b == [b[0]] + b[1..];
    }
  }

  /** A number with a 1 byte on top is 1 only if there is nothing below. */
  lemma LEOne(a: seq<byte>)
    ensures LE(a + [1]) == 1 <==> a == []
  {
    assert LE([1]) == 1 by { assert [1][1..] == []; }
    if a != [] {
      LEAppend(a, [1]);
      assert Pow256(|a|) == 256 * Pow256(|a| - 1);
    } else {
      assert a + [1] == [1];
    }
  }

  /** Full blocks read in place with the pad flag are the blocks of the specification. */
  lemma {:induction false} CoeffsAreBlocks(input: seq<byte>, n: nat)
    requires 16 * n <= |input|
    ensures Coeffs(input, n, 1) == Blocks(input[..16 * n])
  {
    if n == 0 {
    } else {
      var a, b := input[..16 * (n - 1)], input[16 * (n - 1)..16 * n];
      hide LE;
      CoeffsAreBlocks(input, n - 1);
      assert input[..16 * n] == a + b;
      BlocksAppend(a, b);
      FullBlock(b);
      assert Coeffs(input, n, 1) == Coeffs(input, n - 1, 1) + [Coeff(input, n - 1, 1)];
    }
  }

  lemma PaddedLE(a: seq<byte>, n: nat)
    ensures LE(a + Zeros(n)) == LE(a)
  {
    LEAppend(a, Zeros(n));
    LEZeros(n);
  }

  /** A short final block, padded in the buffer with 1 and zeros, is the last block of the specification. */
  lemma PaddedLastBlock(tail: seq<byte>, buffer: seq<byte>)
    requires 0 < |tail| < 16 && buffer == tail + [1] + Zeros(15 - |tail|)
    ensures Blocks(tail) == [Coeff(buffer, 0, 0)]
  {
    assert buffer[0..16] == buffer;
    PaddedLE(tail + [1], 15 - |tail|);
    assert tail[..|tail|] == tail && tail[|tail|..] == [];
    assert Blocks(tail) == [LE(tail + [1])] + Blocks([]);
  }

  /////////////////////////////////////////////////////////////////////////////
  // What the fields of a context stand for
  /////////////////////////////////////////////////////////////////////////////

  /** r and s hold the clamped multiplier and the addend of the key. */
  ghost predicate KeyLoaded(key: seq<byte>, r: seq<uint32>, s: seq<uint32>) {
    && |key| == 32 && Clamped(r) && |s| == 4
    && RValue(r) == ClampedR(key) && RValue(s) == LE(key[16..])
  }

  /** acc has processed the full blocks of absorbed and pending holds the bytes after them. */
  ghost predicate Represents(key: seq<byte>, absorbed: seq<byte>, acc: Limbs, pending: seq<byte>) {
    && |key| == 32 && acc.a4 <= 4 && |pending| < 16
    && exists done: seq<byte> :: |done| % 16 == 0 && absorbed == done + pending && Evaluates(key, done, acc)
  }

  ghost predicate Evaluates(key: seq<byte>, done: seq<byte>, acc: Limbs)
    requires |key| == 32
  {
    acc.Value() % P130 == Horner(0, Blocks(done), ClampedR(key)) % P130
  }

  lemma PendingIsRemainder(key: seq<byte>, absorbed: seq<byte>, acc: Limbs, pending: seq<byte>)
    requires Represents(key, absorbed, acc, pending)
    ensures |pending| == |absorbed| % 16
  {
    hide Evaluates;
    var done := RepresentsElim(key, absorbed, acc, pending);
    hide *;
    Bits.DivModUnique(|absorbed|, 16, |done| / 16, |pending|);
  }

  lemma RepresentsIntro(key: seq<byte>, done: seq<byte>, acc: Limbs, pending: seq<byte>)
    requires |key| == 32 && acc.a4 <= 4 && |pending| < 16 && |done| % 16 == 0 && Evaluates(key, done, acc)
    ensures Represents(key, done + pending, acc, pending)
  {
    hide Evaluates;
  }

  lemma RepresentsElim(key: seq<byte>, absorbed: seq<byte>, acc: Limbs, pending: seq<byte>) returns (done: seq<byte>)
    requires Represents(key, absorbed, acc, pending)
    ensures |key| == 32 && acc.a4 <= 4 && |pending| < 16
    ensures |done| % 16 == 0 && absorbed == done + pending && Evaluates(key, done, acc)
  {
    hide Evaluates;
    done :| |done| % 16 == 0 && absorbed == done + pending && Evaluates(key, done, acc);
  }

  lemma RepresentsInit(key: seq<byte>)
    requires |key| == 32
    ensures Represents(key, [], Limbs(0, 0, 0, 0, 0), [])
  {
    var none: seq<byte> := [];
    assert none == none + none;
    assert Evaluates(key, none, Limbs(0, 0, 0, 0, 0));
  }

  lemma RepresentsQueue(key: seq<byte>, absorbed: seq<byte>, acc: Limbs, pending: seq<byte>, more: seq<byte>)
    requires Represents(key, absorbed, acc, pending) && |pending + more| < 16
    ensures Represents(key, absorbed + more, acc, pending + more)
  {
    hide *;
    var done := RepresentsElim(key, absorbed, acc, pending);
    RepresentsIntro(key, done, acc, pending + more);
    assert absorbed + more == done + (pending + more);
  }

  lemma RepresentsTop(key: seq<byte>, absorbed: seq<byte>, acc: Limbs, pending: seq<byte>)
    requires Represents(key, absorbed, acc, pending)
    ensures acc.a4 <= 4
  {
  }

  /** Processing blocks extends the message evaluated so far by exactly those blocks. */
  lemma EvaluatesMore(key: seq<byte>, done: seq<byte>, acc: Limbs, more: seq<byte>, acc': Limbs)
    requires |key| == 32 && |done| % 16 == 0 && Evaluates(key, done, acc)
    requires acc'.Value() % P130 == Horner(acc.Value(), Blocks(more), ClampedR(key)) % P130
    ensures Evaluates(key, done + more, acc')
  {
    hide Horner, Blocks, ClampedR;
    BlocksAppend(done, more);
    HornerAppend(0, Blocks(done), Blocks(more), ClampedR(key));
    HornerCong(acc.Value(), Horner(0, Blocks(done), ClampedR(key)), Blocks(more), ClampedR(key));
  }

  /** Processing the queue completed by data, and further whole blocks, leaves nothing pending. */
  lemma RepresentsBlocks(key: seq<byte>, absorbed: seq<byte>, acc: Limbs, pending: seq<byte>, data: seq<byte>,
                         n: nat, acc': Limbs)
    requires Represents(key, absorbed, acc, pending) && |pending + data| == 16 * n && acc'.a4 <= 4
    requires acc'.Value() % P130 == Horner(acc.Value(), Coeffs(pending + data, n, 1), ClampedR(key)) % P130
    ensures Represents(key, absorbed + data, acc', [])
  {
    hide *;
    var done := RepresentsElim(key, absorbed, acc, pending);
    var input := pending + data;
    assert input[..16 * n] == input;
    CoeffsAreBlocks(input, n);
    EvaluatesMore(key, done, acc, input, acc');
    RepresentsIntro(key, done + input, acc', []);
    assert absorbed + data == (done + input) + [];
  }

  /** After the padded tail, if any, the accumulator holds the polynomial of the whole message. */
  lemma RepresentsWhole(key: seq<byte>, absorbed: seq<byte>, acc: Limbs, pending: seq<byte>, acc': Limbs)
    requires Represents(key, absorbed, acc, pending)
    requires pending == [] ==> acc' == acc
    requires pending != [] ==>
      acc'.Value() % P130 == Horner(acc.Value(), Coeffs(pending + [1] + Zeros(15 - |pending|), 1, 0), ClampedR(key)) % P130
    ensures Evaluates(key, absorbed, acc')
  {
    hide Horner, Blocks, ClampedR, Evaluates, Represents;
    var done := RepresentsElim(key, absorbed, acc, pending);
    if pending == [] {
      assert absorbed == done;
    } else {
      var buffer := pending + [1] + Zeros(15 - |pending|);
      PaddedLastBlock(pending, buffer);
      assert Coeffs(buffer, 1, 0) == Blocks(pending);
      EvaluatesMore(key, done, acc, pending, acc');
    }
  }

  /////////////////////////////////////////////////////////////////////////////
  // The context
  /////////////////////////////////////////////////////////////////////////////

  lemma ZeroKey()
    ensures KeyLoaded(Zeros(32), [0, 0, 0, 0], [0, 0, 0, 0])
  {
    assert Zeros(32)[..16] == Zeros(16) && Zeros(32)[16..] == Zeros(16);
    LEZeros(16);
  }

  /** The tag of the specification, from an accumulator that has evaluated the whole message. */
  lemma MacIsTag(key: seq<byte>, absorbed: seq<byte>, acc: Limbs, s: seq<uint32>, mac: seq<byte>)
    requires |key| == 32 && |s| == 4 && RValue(s) == LE(key[16..]) && Evaluates(key, absorbed, acc)
    requires mac == ToLE((acc.Value() % P130 + RValue(s)) % TWO128, 16)
    ensures mac == Tag(key, absorbed)
  {
    hide Horner, Blocks, ClampedR, RValue, ToLE, LE;
  }

  /** Clamping limb by limb is clamping the 128-bit number. */
  lemma LimbClamp(l0: uint32, l1: uint32, l2: uint32, l3: uint32)
    ensures Bits.And(Value4(l0, l1, l2, l3), CLAMP)
         == Value4(Bits.And(l0, 0x0FFF_FFFF), Bits.And(l1, 0x0FFF_FFFC), Bits.And(l2, 0x0FFF_FFFC), Bits.And(l3, 0x0FFF_FFFC))
  {
    hide Bits.And;
    Bits.Pow2Values();
    var c := 0x0FFF_FFFC;
    Bits.AndSplit(l2, l3, c, c, 32);
    Bits.AndSplit(l1, l2 + TWO32 * l3, c, c + TWO32 * c, 32);
    Bits.AndSplit(l0, l1 + TWO32 * (l2 + TWO32 * l3), 0x0FFF_FFFF, c + TWO32 * (c + TWO32 * c), 32);
  }

  lemma ClampedLimb(x: uint32)
    ensures 0 <= Bits.And(x, 0x0FFF_FFFF) < 0x1000_0000
    ensures 0 <= Bits.And(x, 0x0FFF_FFFC) < 0x1000_0000 && Bits.And(x, 0x0FFF_FFFC) % 4 == 0
  {
    hide Bits.And;
    Bits.Pow2Values();
    Bits.AndLowMask(x, 28);
    Bits.Pow2Add(26, 2);
    Bits.AndMidMask(x, 26);
  }

  /** Section 2.5 of RFC 8439 in plain arithmetic: the top four bits of every 32-bit part of r are dropped, and the low two
      bits of all parts but the first. */
  lemma ClampMeans(key: seq<byte>)
    requires |key| == 32
    ensures ClampedR(key) == Value4(Load32(key, 0) % 0x1000_0000, 4 * (Load32(key, 4) / 4 % 0x400_0000),
                                    4 * (Load32(key, 8) / 4 % 0x400_0000), 4 * (Load32(key, 12) / 4 % 0x400_0000))
  {
    hide Bits.And, LE, Load32;
    FourLimbs(key, 0);
    assert key[0..16] == key[..16];
    LimbClamp(Load32(key, 0), Load32(key, 4), Load32(key, 8), Load32(key, 12));
    LimbMeans(Load32(key, 0));
    LimbMeans(Load32(key, 4));
    LimbMeans(Load32(key, 8));
    LimbMeans(Load32(key, 12));
  }

  lemma LimbMeans(x: uint32)
    ensures Bits.And(x, 0x0FFF_FFFF) == x % 0x1000_0000 && Bits.And(x, 0x0FFF_FFFC) == 4 * (x / 4 % 0x400_0000)
  {
    hide Bits.And;
    Bits.Pow2Values();
    Bits.AndLowMask(x, 28);
    Bits.Pow2Add(26, 2);
    Bits.AndMidMask(x, 26);
  }

  lemma KeySplit(key: seq<byte>, r: seq<uint32>, s: seq<uint32>)
    requires |key| == 32
    requires r == [Bits.And(Load32(key, 0), 0x0FFF_FFFF), Bits.And(Load32(key, 4), 0x0FFF_FFFC),
                   Bits.And(Load32(key, 8), 0x0FFF_FFFC), Bits.And(Load32(key, 12), 0x0FFF_FFFC)]
    requires s == [Load32(key, 16), Load32(key, 20), Load32(key, 24), Load32(key, 28)]
    ensures KeyLoaded(key, r, s)
  {
    hide Bits.And, LE, Load32;
    ClampedLimb(Load32(key, 0));
    ClampedLimb(Load32(key, 4));
    ClampedLimb(Load32(key, 8));
    ClampedLimb(Load32(key, 12));
    LimbClamp(Load32(key, 0), Load32(key, 4), Load32(key, 8), Load32(key, 12));
    FourLimbs(key, 0);
    FourLimbs(key, 16);
    assert key[0..16] == key[..16] && key[16..32] == key[16..];
  }

  lemma Recompose(base: seq<byte>, input: seq<byte>, a: nat, b: nat)
    requires a + b <= |input|
    ensures base + input[..a] + input[a..][..b] + input[a..][b..] == base + input
  {
  }

  class Context {
    var r: seq<uint32>
    var s: seq<uint32>
    var acc: Limbs
    const queue: array<byte>
    var queueLen: nat

    ghost var key: seq<byte>        // the key given to Starts
    ghost var absorbed: seq<byte>   // every byte given to Update since then

    ghost predicate Valid()
      reads this, queue
    {
      && queue.Length == 16 && queueLen < 16
      && KeyLoaded(key, r, s)
      && Represents(key, absorbed, acc, queue[..queueLen])
    }

    /** mbedtls_poly1305_init: all zero, which is the state after Starts with a zero key. */
    constructor ()
      ensures Valid() && key == Zeros(32) && absorbed == []
      ensures fresh(queue)
    {
      hide Evaluates, ClampedR;
      r, s, acc := [0, 0, 0, 0], [0, 0, 0, 0], Limbs(0, 0, 0, 0, 0);
      queue := new byte[16](_ => 0);
      queueLen := 0;
      key, absorbed := Zeros(32), [];
      ZeroKey();
      RepresentsInit(Zeros(32));
      new;
      assert queue[..0] == [];
    }

    /** Runs the block loop: the accumulator's value becomes the Horner evaluation of the blocks, modulo p. */
    method Process(nblocks: nat, input: seq<byte>, pad: uint32)
      requires Clamped(r) && acc.a4 <= 4 && pad <= 1
      requires 16 * nblocks <= |input|
      modifies this`acc
      ensures acc.a4 <= 4
      ensures acc.Value() % P130 == Horner(old(acc.Value()), Coeffs(input, nblocks, pad), RValue(r)) % P130
    {
      var offset := 0;
      ghost var start := acc.Value();
      for i := 0 to nblocks
        invariant offset == 16 * i
        invariant acc.a4 <= 4
        invariant acc.Value() % P130 == Horner(start, Coeffs(input, i, pad), RValue(r)) % P130
      {
        var d := [Load32(input, offset), Load32(input, offset + 4), Load32(input, offset + 8), Load32(input, offset + 12)];
        var sum := AddBlock(acc, d, pad);
        var product := MulR(sum, r);
        ghost var before := acc;
        var carried := Carry(product);
        acc := Fold(carried);
        RoundIsHornerStep(input, i, pad, start, RValue(r), before.Value(), sum.Value(), acc.Value());
        offset := offset + 16;
      }
    }

    /** Any cut of the message into Update calls absorbs the same bytes. */
    method Update(input: seq<byte>)
      requires Valid()
      modifies this`acc, this`queueLen, this`absorbed, queue
      ensures Valid()
      ensures absorbed == old(absorbed) + input
    {
      hide Represents, KeyLoaded;
      var offset := TopUp(input);
      var rest := input[offset..];
      var blocks := WholeBlocks(rest);
      StoreTail(rest[blocks..]);
      Recompose(old(absorbed), input, offset, blocks);
    }

    /** A non-empty queue takes bytes first; a completed queue is processed as one block. */
    method TopUp(input: seq<byte>) returns (offset: nat)
      requires Valid()
      modifies this`acc, this`queueLen, this`absorbed, queue
      ensures Valid()
      ensures offset <= |input| && absorbed == old(absorbed) + input[..offset]
      ensures queueLen == 0 || offset == |input|
    {
      hide Represents, Evaluates, Horner, ClampedR, Clamped, Blocks, RValue;
      RepresentsTop(key, absorbed, acc, queue[..queueLen]);
      offset := 0;
      ghost var pending, acc0 := queue[..queueLen], acc;
      if |input| > 0 && queueLen > 0 {
        var free := 16 - queueLen;
        if |input| < free {
          // Not enough data to complete the block
          Copy(queueLen, input);
          RepresentsQueue(key, absorbed, acc, pending, input);
          queueLen := queueLen + |input|;
          assert queue[..queueLen] == pending + input;
          offset := |input|;
        } else {
          Copy(queueLen, input[..free]);
          assert queue[..] == pending + input[..free];
          queueLen := 0;
          Process(1, queue[..], 1);
          RepresentsBlocks(key, absorbed, acc0, pending, input[..free], 1, acc);
          assert queue[..0] == [];
          offset := free;
        }
        absorbed := absorbed + input[..offset];
        assert offset == |input| ==> input[..offset] == input;
      }
    }

    /** With an empty queue, whole blocks are processed straight from the input. */
    method WholeBlocks(input: seq<byte>) returns (offset: nat)
      requires Valid() && (queueLen == 0 || input == [])
      modifies this`acc, this`absorbed
      ensures Valid()
      ensures offset <= |input| < offset + 16 && absorbed == old(absorbed) + input[..offset]
    {
      hide Represents, Evaluates, Horner, ClampedR, Clamped, Blocks, RValue, Coeffs;
      RepresentsTop(key, absorbed, acc, queue[..queueLen]);
      offset := 0;
      if |input| >= 16 {
        var nblocks := |input| / 16;
        offset := nblocks * 16;
        ghost var acc0, data := acc, input[..offset];
        assert queue[..0] == [] && queue[..0] + data == data;
        Process(nblocks, input, 1);
        CoeffsPrefix(input, nblocks, 1);
        RepresentsBlocks(key, absorbed, acc0, queue[..0], data, nblocks, acc);
        absorbed := absorbed + data;
      }
    }

    /** Fewer than 16 bytes left over go to the queue. */
    method StoreTail(input: seq<byte>)
      requires Valid() && (queueLen == 0 || input == []) && |input| < 16
      modifies this`queueLen, this`absorbed, queue
      ensures Valid()
      ensures absorbed == old(absorbed) + input
    {
      hide Represents, KeyLoaded;
      if |input| > 0 {
        assert queue[..0] == [] && queue[..0] + input == input;
        RepresentsQueue(key, absorbed, acc, queue[..0], input);
        queueLen := |input|;
        Copy(0, input);
        assert queue[..queueLen] == input;
        absorbed := absorbed + input;
      }
    }

    /** The tag of everything absorbed, whatever the cuts were. */
    method Finish() returns (mac: seq<byte>)
      requires Valid()
      modifies this`acc, this`queueLen, queue
      ensures mac == Tag(key, absorbed)
      ensures |absorbed| % 16 == 0 ==> Valid()
    {
      hide Represents, Evaluates, Horner, ClampedR, Clamped, Blocks, RValue, Coeffs, Tag;
      ghost var pending, acc0 := queue[..queueLen], acc;
      RepresentsTop(key, absorbed, acc, pending);
      PendingIsRemainder(key, absorbed, acc, pending);
      if queueLen > 0 {
        var zeros := Zeros(15 - queueLen);
        Copy(queueLen, [1]);
        queueLen := queueLen + 1;
        Copy(queueLen, zeros);
        assert queue[..] == pending + [1] + zeros;
        Process(1, queue[..], 0);
      }
      RepresentsWhole(key, absorbed, acc0, pending, acc);
      mac := ComputeMac(acc, s);
      MacIsTag(key, absorbed, acc, s, mac);
    }

    /** memcpy or memset into the queue. */
    method Copy(at: nat, data: seq<byte>)
      requires at + |data| <= queue.Length
      modifies queue
      ensures queue[..] == old(queue[..at]) + data + old(queue[at + |data|..])
    {
      for i := 0 to |data|
        invariant queue[..at] == old(queue[..at])
        invariant queue[at..at + i] == data[..i]
        invariant queue[at + i..] == old(queue[at + i..])
      {
        queue[at + i] := data[i];
      }
    }

    /** Loads r with its clamp masks, limb by limb, and s; the accumulator and the queue start empty. */
    method Starts(newKey: seq<byte>)
      requires queue.Length == 16 && |newKey| == 32
      modifies this, queue
      ensures Valid() && key == newKey && absorbed == []
    {
      hide Represents, KeyLoaded, Bits.And;
      ClampedLimb(Load32(newKey, 0));
      ClampedLimb(Load32(newKey, 4));
      ClampedLimb(Load32(newKey, 8));
      ClampedLimb(Load32(newKey, 12));
      r := [Bits.And(Load32(newKey, 0), 0x0FFF_FFFF), Bits.And(Load32(newKey, 4), 0x0FFF_FFFC),
            Bits.And(Load32(newKey, 8), 0x0FFF_FFFC), Bits.And(Load32(newKey, 12), 0x0FFF_FFFC)];
      s := [Load32(newKey, 16), Load32(newKey, 20), Load32(newKey, 24), Load32(newKey, 28)];
      acc := Limbs(0, 0, 0, 0, 0);
      Copy(0, Zeros(16));
      queueLen := 0;
      key, absorbed := newKey, [];
      KeySplit(newKey, r, s);
      RepresentsInit(newKey);
      assert queue[..0] == [];
    }
  }
}
