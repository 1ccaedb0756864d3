/** Bytes, machine words and little-endian numbers. */
module Bytes {

  type byte = x: int | 0 <= x < 0x100
  type uint32 = x: int | 0 <= x < 0x1_0000_0000
  type uint64 = x: int | 0 <= x < 0x1_0000_0000_0000_0000
  type int64 = x: int | -0x8000_0000_0000_0000 <= x < 0x8000_0000_0000_0000

  const TWO32: int := 0x1_0000_0000
  const TWO64: int := 0x1_0000_0000_0000_0000
  const TWO128: int := 0x1_0000_0000_0000_0000_0000_0000_0000_0000

  function Pow256(n: nat): (r: nat)
    ensures r >= 1
  {
    if n == 0 then 1 else 256 * Pow256(n - 1)
  }

  /** The number whose little-endian bytes are s. */
  function LE(s: seq<byte>): (r: nat)
  {
    if s == [] then 0 else s[0] + 256 * LE(s[1..])
  }

  /** The n little-endian bytes of v, taken modulo 256^n. */
  function ToLE(v: nat, n: nat): (s: seq<byte>)
    ensures |s| == n
  {
    if n == 0 then [] else [v % 256] + ToLE(v / 256, n - 1)
  }

  function Zeros(n: nat): (s: seq<byte>)
    ensures |s| == n
    ensures forall i :: 0 <= i < n ==> s[i] == 0
  {
    seq(n, _ => 0)
  }

  lemma {:induction false} LEBound(s: seq<byte>)
    ensures LE(s) < Pow256(|s|)
  {
    if s != [] {
      LEBound(s[1..]);
    }
  }

  lemma {:induction false} LEAppend(a: seq<byte>, b: seq<byte>)
    ensures LE(a + b) == LE(a) + Pow256(|a|) * LE(b)
  {
    if a == [] {
      assert a + b == b;
    } else {
      assert (a + b)[1..] == a[1..] + b;
      LEAppend(a[1..], b);
      MulAssoc(256, Pow256(|a| - 1), LE(b));
    }
  }

  lemma MulAssoc(a: int, b: int, c: int)
    ensures a * (b * c) == (a * b) * c
  {
  }

  lemma {:induction false} LEZeros(n: nat)
    ensures LE(Zeros(n)) == 0
  {
    if n > 0 {
      assert Zeros(n)[1..] == Zeros(n - 1);
      LEZeros(n - 1);
    }
  }

  /** Writing a number and reading it back is the identity below 256^n. */
  lemma {:induction false} ToLERoundTrip(v: nat, n: nat)
    requires v < Pow256(n)
    ensures LE(ToLE(v, n)) == v
  {
    if n > 0 {
      assert v / 256 < Pow256(n - 1);
      ToLERoundTrip(v / 256, n - 1);
      assert ToLE(v, n)[1..] == ToLE(v / 256, n - 1);
    }
  }

  /** Two byte strings of one length that denote the same number are equal. */
  lemma {:induction false} LEInjective(a: seq<byte>, b: seq<byte>)
    requires |a| == |b| && LE(a) == LE(b)
    ensures a == b
  {
    if a != [] {
      assert a[0] == LE(a) % 256 && b[0] == LE(b) % 256;
      LEInjective(a[1..], b[1..]);
      assert a == [a[0]] + a[1..] && b == [b[0]] + b[1..];
    }
  }

  /** Every byte string is the little-endian form of the number it denotes. */
  lemma ToLEOfLE(s: seq<byte>)
    ensures ToLE(LE(s), |s|) == s
  {
    LEBound(s);
    ToLERoundTrip(LE(s), |s|);
    LEInjective(ToLE(LE(s), |s|), s);
  }

  /** The 32-bit little-endian load of four bytes at offset. */
  function Load32(s: seq<byte>, offset: nat): (w: uint32)
    requires offset + 4 <= |s|
  {
    var b0: int, b1: int, b2: int, b3: int := s[offset], s[offset + 1], s[offset + 2], s[offset + 3];
    b0 + 0x100 * b1 + 0x1_0000 * b2 + 0x100_0000 * b3
  }

  lemma Load32IsLE(s: seq<byte>, offset: nat)
    requires offset + 4 <= |s|
    ensures Load32(s, offset) == LE(s[offset..offset + 4])
  {
    var t := s[offset..offset + 4];
    assert t[1..][1..] == t[2..] && t[2..][1..] == t[3..] && t[3..][1..] == [];
    assert LE(t[3..]) == t[3];
    assert LE(t[2..]) == t[2] + 256 * LE(t[3..]);
    assert LE(t[1..]) == t[1] + 256 * LE(t[2..]);
  }

  /** Sixteen bytes as four 32-bit limbs. */
  lemma FourLimbs(s: seq<byte>, offset: nat)
    requires offset + 16 <= |s|
    ensures LE(s[offset..offset + 16])
         == Load32(s, offset) + TWO32 * Load32(s, offset + 4)
          + TWO64 * Load32(s, offset + 8) + TWO64 * TWO32 * Load32(s, offset + 12)
  {
    var a, b := s[offset..offset + 4], s[offset + 4..offset + 8];
    var c, d := s[offset + 8..offset + 12], s[offset + 12..offset + 16];
    assert s[offset..offset + 16] == a + (b + (c + d));
    Pow256Of4();
    LEAppend(a, b + (c + d));
    LEAppend(b, c + d);
    LEAppend(c, d);
    Load32IsLE(s, offset);
    Load32IsLE(s, offset + 4);
    Load32IsLE(s, offset + 8);
    Load32IsLE(s, offset + 12);
  }

  lemma Pow256Of4()
    ensures Pow256(4) == TWO32
  {
    assert Pow256(2) == 0x1_0000;
  }

  lemma {:induction false} Pow256Add(m: nat, n: nat)
    ensures Pow256(m + n) == Pow256(m) * Pow256(n)
  {
    if m > 0 {
      Pow256Add(m - 1, n);
      MulAssoc(256, Pow256(m - 1), Pow256(n));
    }
  }

  lemma Pow256Of16()
    ensures Pow256(16) == TWO128
  {
    Pow256Of4();
    Pow256Add(4, 4);
    Pow256Add(8, 8);
  }
}
