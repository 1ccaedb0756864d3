/** Well-formed UTF-8, after the byte table in section 4 of RFC 3629. */
module Utf8 {
  import opened Bytes
  import Bits

  /** A byte of the form 10xxxxxx. */
  predicate Cont(b: byte) {
    0x80 <= b < 0xC0
  }

  predicate ContAt(s: seq<byte>, i: nat) {
    i < |s| && Cont(s[i])
  }

  /** The second byte is a continuation, narrowed behind the four leads that need it. */
  predicate SecondFits(s: seq<byte>) {
    && ContAt(s, 1)
    && (s[0] == 0xE0 ==> s[1] >= 0xA0)
    && (s[0] == 0xED ==> s[1] < 0xA0)
    && (s[0] == 0xF0 ==> s[1] >= 0x90)
    && (s[0] == 0xF4 ==> s[1] < 0x90)
  }

  /** Length of the character s starts with, or 0 if it starts with none. */
  function CharLen(s: seq<byte>): (n: nat)
    ensures n <= 4 && n <= |s|
    ensures n > 0 ==> !Cont(s[0]) && forall i :: 1 <= i < n ==> Cont(s[i])
  {
    if s == [] then 0
    else if s[0] < 0x80 then 1
    else if 0xC2 <= s[0] <= 0xDF && SecondFits(s) then 2
    else if 0xE0 <= s[0] <= 0xEF && SecondFits(s) && ContAt(s, 2) then 3
    else if 0xF0 <= s[0] <= 0xF4 && SecondFits(s) && ContAt(s, 2) && ContAt(s, 3) then 4
    else 0
  }

  predicate WellFormed(s: seq<byte>) {
    s == [] || (CharLen(s) > 0 && WellFormed(s[CharLen(s)..]))
  }

  /** A place where the text may be cut: its end, or any byte that is not a continuation. */
  predicate Boundary(s: seq<byte>, k: nat) {
    k == |s| || (k < |s| && !Cont(s[k]))
  }

  lemma CharLenLocal(s: seq<byte>, t: seq<byte>)
    requires CharLen(s) > 0 && |t| >= CharLen(s) && t[..CharLen(s)] == s[..CharLen(s)]
    ensures CharLen(t) == CharLen(s)
  {
    var n := CharLen(s);
    assert forall i :: 0 <= i < n ==> t[..n][i] == s[..n][i];
    assert forall i :: 0 <= i < n ==> t[i] == s[i];
  }

  lemma {:induction false} WellFormedAppend(a: seq<byte>, b: seq<byte>)
    requires WellFormed(a) && WellFormed(b)
    ensures WellFormed(a + b)
    decreases |a|
  {
    hide CharLen;
    if a == [] {
      assert a + b == b;
    } else {
      var n := CharLen(a);
      assert (a + b)[..n] == a[..n];
      CharLenLocal(a, a + b);
      assert (a + b)[n..] == a[n..] + b;
      WellFormedAppend(a[n..], b);
    }
  }

  lemma {:induction false} AsciiWellFormed(s: seq<byte>)
    requires forall i :: 0 <= i < |s| ==> s[i] < 0x80
    ensures WellFormed(s)
    decreases |s|
  {
    if s != [] {
      AsciiWellFormed(s[1..]);
    }
  }

  /** Cutting well-formed text at a boundary leaves two well-formed texts. */
  lemma {:induction false} CutWellFormed(s: seq<byte>, k: nat)
    requires WellFormed(s) && Boundary(s, k)
    ensures WellFormed(s[..k]) && WellFormed(s[k..])
    decreases |s|
  {
    hide CharLen;
    if k == 0 {
      assert s[..0] == [] && s[0..] == s;
    } else {
      var n := CharLen(s);
      assert !(k < n);
      assert Boundary(s[n..], k - n);
      CutWellFormed(s[n..], k - n);
      assert s[n..][..k - n] == s[..k][n..];
      assert s[n..][k - n..] == s[k..];
      assert s[..k][..n] == s[..n];
      CharLenLocal(s, s[..k]);
    }
  }

  /** No four bytes in a row are continuations, and the first byte is none. */
  lemma {:induction false} BoundaryNear(s: seq<byte>, k: nat)
    requires WellFormed(s) && k < |s|
    ensures exists j :: 0 <= j && k - 3 <= j <= k && !Cont(s[j])
    decreases |s|
  {
    hide CharLen;
    var n := CharLen(s);
    if k < n {
      assert !Cont(s[0]);
    } else {
      BoundaryNear(s[n..], k - n);
      var j :| 0 <= j && k - n - 3 <= j <= k - n && !Cont(s[n..][j]);
      assert !Cont(s[n + j]);
    }
  }

  /** A piece between two boundaries is well formed. */
  lemma PieceWellFormed(s: seq<byte>, lo: nat, hi: nat)
    requires WellFormed(s) && lo <= hi && Boundary(s, lo) && Boundary(s, hi)
    ensures WellFormed(s[lo..hi])
  {
    hide WellFormed;
    CutWellFormed(s, hi);
    assert lo < hi ==> s[..hi][lo] == s[lo];
    CutWellFormed(s[..hi], lo);
    assert s[..hi][lo..] == s[lo..hi];
  }

  /////////////////////////////////////////////////////////////////////////////
  // Well-formed text is encoded text: section 3 of RFC 3629
  /////////////////////////////////////////////////////////////////////////////

  /** A character number that UTF-8 may encode: any but the surrogates. */
  predicate Scalar(c: int) {
    0 <= c <= 0x10FFFF && !(0xD800 <= c <= 0xDFFF)
  }

  function Encoded(c: int): (s: seq<byte>)
    requires Scalar(c)
    ensures 1 <= |s| <= 4
  {
    if c < 0x80 then [c]
    else if c < 0x800 then [0xC0 + c / 0x40, 0x80 + c % 0x40]
    else if c < 0x1_0000 then [0xE0 + c / 0x1000, 0x80 + c / 0x40 % 0x40, 0x80 + c % 0x40]
    else [0xF0 + c / 0x4_0000, 0x80 + c / 0x1000 % 0x40, 0x80 + c / 0x40 % 0x40, 0x80 + c % 0x40]
  }

  /** Every encoded character is read as one character, whatever follows. */
  lemma EncodedIsChar(c: int, rest: seq<byte>)
    requires Scalar(c)
    ensures CharLen(Encoded(c) + rest) == |Encoded(c)|
  {
  }

  /** The character number of the bytes. */
  function Decoded(s: seq<byte>): (c: int)
    requires CharLen(s) > 0
  {
    var n := CharLen(s);
    var b0: int := s[0];
    if n == 1 then b0
    else
      var b1: int := s[1] - 0x80;
      if n == 2 then 0x40 * (b0 - 0xC0) + b1
      else
        var b2: int := s[2] - 0x80;
        if n == 3 then 0x1000 * (b0 - 0xE0) + 0x40 * b1 + b2
        else
          var b3: int := s[3] - 0x80;
          0x4_0000 * (b0 - 0xF0) + 0x1000 * b1 + 0x40 * b2 + b3
  }

  /** Every character read is the encoding of a character number, in its shortest form. */
  lemma CharIsEncoded(s: seq<byte>)
    requires CharLen(s) > 0
    ensures Scalar(Decoded(s)) && s[..CharLen(s)] == Encoded(Decoded(s))
  {
    var n, c := CharLen(s), Decoded(s);
    var b0: int := s[0];
    if n == 2 {
      Digits(b0 - 0xC0, 0, 0, s[1] - 0x80, c);
    } else if n == 3 {
      Digits(0, b0 - 0xE0, s[1] - 0x80, s[2] - 0x80, c);
      assert s[..3] == [s[0], s[1], s[2]];
    } else if n == 4 {
      FourDigits(b0 - 0xF0, s[1] - 0x80, s[2] - 0x80, s[3] - 0x80, c);
      assert s[..4] == [s[0], s[1], s[2], s[3]];
    }
  }

  lemma Digits(a: int, x: int, y: int, z: int, c: int)
    requires 0 <= y < 0x40 && 0 <= z < 0x40 && c == 0x40 * a + 0x1000 * x + 0x40 * y + z
    requires a == 0 || (x == 0 && y == 0)
    ensures a != 0 ==> c / 0x40 == a && c % 0x40 == z
    ensures a == 0 ==> c / 0x1000 == x && c / 0x40 % 0x40 == y && c % 0x40 == z
  {
  }

  lemma FourDigits(w: int, x: int, y: int, z: int, c: int)
    requires 0 <= x < 0x40 && 0 <= y < 0x40 && 0 <= z < 0x40 && c == 0x4_0000 * w + 0x1000 * x + 0x40 * y + z
    ensures c / 0x4_0000 == w && c / 0x1000 % 0x40 == x && c / 0x40 % 0x40 == y && c % 0x40 == z
  {
    Bits.DivModUnique(c, 0x4_0000, w, 0x1000 * x + 0x40 * y + z);
    Bits.DivModUnique(c, 0x1000, 0x40 * w + x, 0x40 * y + z);
    Bits.DivModUnique(0x40 * w + x, 0x40, w, x);
    Bits.DivModUnique(c, 0x40, 0x1000 * w + 0x40 * x + y, z);
    Bits.DivModUnique(0x1000 * w + 0x40 * x + y, 0x40, 0x40 * w + x, y);
  }

  function EncodedAll(cs: seq<int>): (s: seq<byte>)
    requires forall i :: 0 <= i < |cs| ==> Scalar(cs[i])
  {
    if cs == [] then [] else Encoded(cs[0]) + EncodedAll(cs[1..])
  }

  lemma {:induction false} EncodedWellFormed(cs: seq<int>)
    requires forall i :: 0 <= i < |cs| ==> Scalar(cs[i])
    ensures WellFormed(EncodedAll(cs))
  {
    hide CharLen, Encoded, Scalar;
    if cs != [] {
      EncodedIsChar(cs[0], EncodedAll(cs[1..]));
      EncodedWellFormed(cs[1..]);
      assert EncodedAll(cs)[|Encoded(cs[0])|..] == EncodedAll(cs[1..]);
    }
  }

  /** Well-formed text is the encoding of some characters. */
  lemma {:induction false} WellFormedDecodes(s: seq<byte>) returns (cs: seq<int>)
    requires WellFormed(s)
    ensures (forall i :: 0 <= i < |cs| ==> Scalar(cs[i])) && EncodedAll(cs) == s
    decreases |s|
  {
    hide CharLen, Encoded, Scalar, Decoded;
    if s == [] {
      cs := [];
    } else {
      var n := CharLen(s);
      CharIsEncoded(s);
      var rest := WellFormedDecodes(s[n..]);
      cs := [Decoded(s)] + rest;
      assert cs[1..] == rest && s == s[..n] + s[n..];
    }
  }
}
