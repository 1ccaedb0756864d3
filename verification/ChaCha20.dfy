/** The ChaCha20 stream cipher. */
module ChaCha20 {
  import opened Bytes
  import Bits

  /////////////////////////////////////////////////////////////////////////////
  // Word operations
  /////////////////////////////////////////////////////////////////////////////

  function Add32(x: uint32, y: uint32): (r: uint32) {
    var sum: int := x + y as int;
    sum % TWO32
  }

  function Xor32(x: uint32, y: uint32): (r: uint32) {
    Bits.Pow2Values();
    Bits.XorBound(x, y, 32);
    Bits.Xor(x, y)
  }

  function Xor8(x: byte, y: byte): (r: byte)
    ensures x == 0 ==> r == y
  {
    Bits.Pow2Values();
    Bits.XorBound(x, y, 8);
    Bits.Xor(x, y)
  }

  lemma QuotientBelow(x: int, p: int, q: int)
    requires 0 <= x < p * q && p > 0 && q > 0
    ensures 0 <= x / q < p
  {
    var k := x / q;
    assert q * k <= x;
    assert k >= p ==> q * k >= q * p;
  }

  lemma Rot(x: int, p: int, q: int)
    requires 0 <= x < TWO32 && p > 0 && q > 0 && p * q == TWO32
    ensures 0 <= (x % q) * p + x / q < TWO32
  {
    QuotientBelow(x, p, q);
    assert (x % q) * p <= (q - 1) * p;
  }

  /** Left rotation: the low 32-n bits move up by n, the high n bits come in below. */
  function Rotl(x: uint32, n: nat): (r: uint32)
    requires n <= 32
  {
    Bits.Pow2Values();
    Bits.Pow2Add(n, 32 - n);
    Rot(x, Bits.Pow2(n), Bits.Pow2(32 - n));
    (x % Bits.Pow2(32 - n)) * Bits.Pow2(n) + x / Bits.Pow2(32 - n)
  }

  /** Rotating left by n and then by 32 - n is the identity. */
  lemma RotlInverse(x: uint32, n: nat)
    requires n <= 32
    ensures Rotl(Rotl(x, n), 32 - n) == x
  {
    var p, q := Bits.Pow2(n), Bits.Pow2(32 - n);
    Bits.Pow2Values();
    Bits.Pow2Add(n, 32 - n);
    RotBack(x, p, q);
  }

  lemma RotBack(x: int, p: int, q: int)
    requires 0 <= x < TWO32 && p > 0 && q > 0 && p * q == TWO32
    ensures var y := (x % q) * p + x / q;
            (y % p) * q + y / p == x
  {
    var y := (x % q) * p + x / q;
    QuotientBelow(x, p, q);
    Bits.DivModUnique(y, p, x % q, x / q);
  }

  /////////////////////////////////////////////////////////////////////////////
  // Rounds: sections 2.1 to 2.3 of RFC 8439
  /////////////////////////////////////////////////////////////////////////////

  datatype Quad = Quad(a: uint32, b: uint32, c: uint32, d: uint32)

  /** x += y; z ^= x; z <<<= n, the step a quarter round repeats four times. */
  function StepX(x: uint32, y: uint32): uint32 { Add32(x, y) }
  function StepZ(x: uint32, z: uint32, n: nat): uint32
    requires n <= 32
  {
    Rotl(Xor32(z, x), n)
  }

  /** Two steps with rotations m and n: on (a, b, d), then on (c, d, b). */
  function HalfQuarter(q: Quad, m: nat, n: nat): Quad
    requires m <= 32 && n <= 32
  {
    var a := StepX(q.a, q.b);
    var d := StepZ(a, q.d, m);
    var c := StepX(q.c, d);
    var b := StepZ(c, q.b, n);
    Quad(a, b, c, d)
  }

  function QuarterRound(q: Quad): Quad {
    HalfQuarter(HalfQuarter(q, 16, 12), 8, 7)
  }

  function Sub32(x: uint32, y: uint32): (r: uint32) {
    var diff: int := x - y as int;
    diff % TWO32
  }

  function UnHalfQuarter(q: Quad, m: nat, n: nat): Quad
    requires m <= 32 && n <= 32
  {
    var b := Xor32(Rotl(q.b, 32 - n), q.c);
    var c := Sub32(q.c, q.d);
    var d := Xor32(Rotl(q.d, 32 - m), q.a);
    var a := Sub32(q.a, b);
    Quad(a, b, c, d)
  }

  lemma HalfQuarterInverse(q: Quad, m: nat, n: nat)
    requires m <= 32 && n <= 32
    ensures UnHalfQuarter(HalfQuarter(q, m, n), m, n) == q
  {
    hide Rotl, Bits.Xor;
    var h := HalfQuarter(q, m, n);
    RotlInverse(Xor32(q.d, h.a), m);
    RotlInverse(Xor32(q.b, h.c), n);
    Bits.XorCancel(q.d, h.a);
    Bits.XorCancel(q.b, h.c);
  }

  /** The quarter round is a bijection on four words: it is undone step by step. */
  lemma QuarterRoundInverse(q: Quad)
    ensures UnHalfQuarter(UnHalfQuarter(QuarterRound(q), 8, 7), 16, 12) == q
  {
    hide HalfQuarter, UnHalfQuarter;
    HalfQuarterInverse(q, 16, 12);
    HalfQuarterInverse(HalfQuarter(q, 16, 12), 8, 7);
  }

  type State = s: seq<uint32> | |s| == 16 witness seq(16, _ => 0)

  /** The quarter round applied to four positions of the state. */
  function QuarterAt(s: State, a: nat, b: nat, c: nat, d: nat): (r: State)
    requires a < 16 && b < 16 && c < 16 && d < 16
  {
    var q := QuarterRound(Quad(s[a], s[b], s[c], s[d]));
    s[a := q.a][b := q.b][c := q.c][d := q.d]
  }

  /** A column round works on the columns of the 4 by 4 word matrix. */
  function ColumnRound(s: State): (r: State)
  {
    var q0, q1 := QuarterRound(Quad(s[0], s[4], s[8], s[12])), QuarterRound(Quad(s[1], s[5], s[9], s[13]));
    var q2, q3 := QuarterRound(Quad(s[2], s[6], s[10], s[14])), QuarterRound(Quad(s[3], s[7], s[11], s[15]));
    [q0.a, q1.a, q2.a, q3.a, q0.b, q1.b, q2.b, q3.b, q0.c, q1.c, q2.c, q3.c, q0.d, q1.d, q2.d, q3.d]
  }

  /** Row k of the matrix rotated left by k positions. */
  function ShiftRows(s: State): (r: State)
  {
    [s[0], s[1], s[2], s[3], s[5], s[6], s[7], s[4], s[10], s[11], s[8], s[9], s[15], s[12], s[13], s[14]]
  }

  function UnshiftRows(s: State): (r: State)
  {
    [s[0], s[1], s[2], s[3], s[7], s[4], s[5], s[6], s[10], s[11], s[8], s[9], s[13], s[14], s[15], s[12]]
  }

  /** One double round: a column round, then a column round on the diagonals. */
  function DoubleRound(s: State): (r: State) {
    UnshiftRows(ColumnRound(ShiftRows(ColumnRound(s))))
  }

  function Rounds(s: State, n: nat): (r: State) {
    if n == 0 then s else DoubleRound(Rounds(s, n - 1))
  }

  /** The eight in-place quarter rounds in program order. */
  function InnerBlockSteps(s: State): (r: State) {
    var s1 := QuarterAt(QuarterAt(QuarterAt(QuarterAt(s, 0, 4, 8, 12), 1, 5, 9, 13), 2, 6, 10, 14), 3, 7, 11, 15);
    QuarterAt(QuarterAt(QuarterAt(QuarterAt(s1, 0, 5, 10, 15), 1, 6, 11, 12), 2, 7, 8, 13), 3, 4, 9, 14)
  }

  lemma ColumnsInPlace(s: State)
    ensures QuarterAt(QuarterAt(QuarterAt(QuarterAt(s, 0, 4, 8, 12), 1, 5, 9, 13), 2, 6, 10, 14), 3, 7, 11, 15)
         == ColumnRound(s)
  {
    hide QuarterRound;
  }

  lemma DiagonalsInPlace(s: State)
    ensures QuarterAt(QuarterAt(QuarterAt(QuarterAt(s, 0, 5, 10, 15), 1, 6, 11, 12), 2, 7, 8, 13), 3, 4, 9, 14)
         == UnshiftRows(ColumnRound(ShiftRows(s)))
  {
    hide QuarterRound;
  }

  /** The quarter rounds at fixed positions are a column round followed by a diagonal round. */
  lemma InnerBlockIsDoubleRound(s: State)
    ensures InnerBlockSteps(s) == DoubleRound(s)
  {
    hide QuarterAt, ColumnRound, ShiftRows, UnshiftRows;
    ColumnsInPlace(s);
    DiagonalsInPlace(ColumnRound(s));
  }

  method QuarterRoundInPlace(state: array<uint32>, a: nat, b: nat, c: nat, d: nat)
    requires state.Length == 16 && a < 16 && b < 16 && c < 16 && d < 16
    requires a != b && a != c && a != d && b != c && b != d && c != d
    modifies state
    ensures state[..] == QuarterAt(old(state[..]), a, b, c, d)
  {
    hide HalfQuarter;
    HalfInPlace(state, a, b, c, d, 16, 12);
    HalfInPlace(state, a, b, c, d, 8, 7);
  }

  /** a += b, d ^= a, d <<<= m, c += d, b ^= c, b <<<= n: the code writes this out twice. */
  method HalfInPlace(state: array<uint32>, a: nat, b: nat, c: nat, d: nat, m: nat, n: nat)
    requires state.Length == 16 && a < 16 && b < 16 && c < 16 && d < 16 && m <= 32 && n <= 32
    requires a != b && a != c && a != d && b != c && b != d && c != d
    modifies state
    ensures var s := old(state[..]);
            var q := HalfQuarter(Quad(s[a], s[b], s[c], s[d]), m, n);
            state[..] == s[a := q.a][b := q.b][c := q.c][d := q.d]
  {
    hide Add32, Xor32, Rotl;
    state[a] := Add32(state[a], state[b]);
    state[d] := Xor32(state[d], state[a]);
    state[d] := Rotl(state[d], m);

    state[c] := Add32(state[c], state[d]);
    state[b] := Xor32(state[b], state[c]);
    state[b] := Rotl(state[b], n);
  }

  method InnerBlock(state: array<uint32>)
    requires state.Length == 16
    modifies state
    ensures state[..] == DoubleRound(old(state[..]))
  {
    hide QuarterAt, DoubleRound;
    InnerBlockIsDoubleRound(state[..]);
    QuarterRoundInPlace(state, 0, 4, 8, 12);
    QuarterRoundInPlace(state, 1, 5, 9, 13);
    QuarterRoundInPlace(state, 2, 6, 10, 14);
    QuarterRoundInPlace(state, 3, 7, 11, 15);

    QuarterRoundInPlace(state, 0, 5, 10, 15);
    QuarterRoundInPlace(state, 1, 6, 11, 12);
    QuarterRoundInPlace(state, 2, 7, 8, 13);
    QuarterRoundInPlace(state, 3, 4, 9, 14);
  }

  /** The i-th word of a keystream block. */
  function BlockWord(s: State, i: nat): uint32
    requires i < 16
  {
    Add32(Rounds(s, 10)[i], s[i])
  }

  /** The keystream block: ten double rounds, the initial state added, words written little-endian. */
  function Block(s: State): (ks: seq<byte>)
    ensures |ks| == 64
  {
    seq(64, i requires 0 <= i < 64 => ToLE(BlockWord(s, i / 4), 4)[i % 4])
  }

  method BlockInto(initial: array<uint32>, keystream: array<byte>)
    requires initial.Length == 16 && keystream.Length == 64
    modifies keystream
    ensures keystream[..] == Block(initial[..])
  {
    hide DoubleRound, Add32, ToLE;
    var working := new uint32[16](i requires 0 <= i < 16 reads initial => initial[i]);
    ghost var s := initial[..];
    assert working[..] == s;
    for i := 0 to 10
      invariant working[..] == Rounds(s, i)
      invariant initial[..] == s
    {
      InnerBlock(working);
    }
    ghost var mixed := working[..];
    for i := 0 to 16
      invariant initial[..] == s
      invariant forall k :: 0 <= k < i ==> working[k] == BlockWord(s, k)
      invariant forall k :: i <= k < 16 ==> working[k] == mixed[k]
    {
      working[i] := Add32(working[i], initial[i]);
    }
    WriteWords(working, keystream);
    assert keystream[..] == Block(s);
  }

  method WriteWords(working: array<uint32>, keystream: array<byte>)
    requires working.Length == 16 && keystream.Length == 64
    modifies keystream
    ensures working[..] == old(working[..])
    ensures forall k :: 0 <= k < 64 ==> keystream[k] == ToLE(working[k / 4], 4)[k % 4]
  {
    hide ToLE;
    ghost var words := working[..];
    for i := 0 to 16
      invariant working[..] == words
      invariant forall k :: 0 <= k < 4 * i ==> keystream[k] == ToLE(words[k / 4], 4)[k % 4]
    {
      var bytes := ToLE(working[i], 4);
      var offset := 4 * i;
      keystream[offset], keystream[offset + 1] := bytes[0], bytes[1];
      keystream[offset + 2], keystream[offset + 3] := bytes[2], bytes[3];
    }
  }

  /////////////////////////////////////////////////////////////////////////////
  // Undoing a block
  /////////////////////////////////////////////////////////////////////////////

  /** The steps of a quarter round taken back, last first. */
  function UnQuarterRound(q: Quad): Quad {
    UnHalfQuarter(UnHalfQuarter(q, 8, 7), 16, 12)
  }

  function UnColumnRound(s: State): (r: State)
  {
    var q0, q1 := UnQuarterRound(Quad(s[0], s[4], s[8], s[12])), UnQuarterRound(Quad(s[1], s[5], s[9], s[13]));
    var q2, q3 := UnQuarterRound(Quad(s[2], s[6], s[10], s[14])), UnQuarterRound(Quad(s[3], s[7], s[11], s[15]));
    [q0.a, q1.a, q2.a, q3.a, q0.b, q1.b, q2.b, q3.b, q0.c, q1.c, q2.c, q3.c, q0.d, q1.d, q2.d, q3.d]
  }

  function UnDoubleRound(s: State): (r: State) {
    UnColumnRound(UnshiftRows(UnColumnRound(ShiftRows(s))))
  }

  function UnRounds(s: State, n: nat): (r: State)
    decreases n
  {
    if n == 0 then s else UnRounds(UnDoubleRound(s), n - 1)
  }

  lemma ColumnRoundInverse(s: State)
    ensures UnColumnRound(ColumnRound(s)) == s
  {
    hide QuarterRound, UnQuarterRound;
    Undone(Quad(s[0], s[4], s[8], s[12]));
    Undone(Quad(s[1], s[5], s[9], s[13]));
    Undone(Quad(s[2], s[6], s[10], s[14]));
    Undone(Quad(s[3], s[7], s[11], s[15]));
  }

  lemma Undone(q: Quad)
    ensures UnQuarterRound(QuarterRound(q)) == q
  {
    hide QuarterRound, UnHalfQuarter;
    QuarterRoundInverse(q);
  }

  lemma ShiftRowsInverse(s: State)
    ensures ShiftRows(UnshiftRows(s)) == s && UnshiftRows(ShiftRows(s)) == s
  {
  }

  lemma DoubleRoundInverse(s: State)
    ensures UnDoubleRound(DoubleRound(s)) == s
  {
    hide ColumnRound, UnColumnRound, ShiftRows, UnshiftRows;
    ColumnRoundInverse(s);
    ShiftRowsInverse(ColumnRound(s));
    ColumnRoundInverse(ShiftRows(ColumnRound(s)));
    ShiftRowsInverse(ColumnRound(ShiftRows(ColumnRound(s))));
  }

  lemma {:induction false} RoundsInverse(s: State, n: nat)
    ensures UnRounds(Rounds(s, n), n) == s
  {
    hide DoubleRound, UnDoubleRound;
    if n > 0 {
      DoubleRoundInverse(Rounds(s, n - 1));
      RoundsInverse(s, n - 1);
    }
  }

  /** The double rounds lose nothing: different states stay different. */
  lemma RoundsInjective(s: State, t: State, n: nat)
    requires Rounds(s, n) == Rounds(t, n)
    ensures s == t
  {
    hide Rounds, UnRounds;
    RoundsInverse(s, n);
    RoundsInverse(t, n);
  }

  /** The words of a keystream block with the state taken off again. */
  function Stripped(ks: seq<byte>, s: State): (r: State)
    requires |ks| == 64
  {
    seq(16, i requires 0 <= i < 16 => Sub32(Load32(ks, 4 * i), s[i]))
  }

  /** A block gives its state back: read the words little-endian, take the state off, undo ten double rounds. */
  lemma BlockUndone(s: State)
    ensures UnRounds(Stripped(Block(s), s), 10) == s
  {
    hide Rounds, UnRounds, Load32, Block, Sub32;
    var mixed := Rounds(s, 10);
    forall i | 0 <= i < 16
      ensures Stripped(Block(s), s)[i] == mixed[i]
    {
      WordOfBlock(s, i);
      AddThenSub(mixed[i], s[i]);
    }
    assert Stripped(Block(s), s) == mixed;
    RoundsInverse(s, 10);
  }

  lemma WordOfBlock(s: State, i: nat)
    requires i < 16
    ensures Load32(Block(s), 4 * i) == BlockWord(s, i)
  {
    hide BlockWord, ToLE, LE, Load32;
    var w := BlockWord(s, i);
    Load32IsLE(Block(s), 4 * i);
    assert Block(s)[4 * i..4 * i + 4] == ToLE(w, 4);
    Pow256Of4();
    ToLERoundTrip(w, 4);
  }

  lemma AddThenSub(x: uint32, y: uint32)
    ensures Sub32(Add32(x, y), y) == x
  {
  }

  /////////////////////////////////////////////////////////////////////////////
  // The keystream: section 2.4 of RFC 8439
  /////////////////////////////////////////////////////////////////////////////

  /** The start state advanced by n blocks; the counter word wraps at 2^32. */
  function AtBlock(start: State, n: nat): (s: State) {
    var counter: int := start[12] + n;
    start[12 := counter % TWO32]
  }

  function KeystreamByte(start: State, i: nat): byte {
    Block(AtBlock(start, i / 64))[i % 64]
  }

  /** data xored with the keystream from position pos on. */
  function Crypt(start: State, pos: nat, data: seq<byte>): (out: seq<byte>)
    ensures |out| == |data|
  {
    seq(|data|, i requires 0 <= i < |data| => Xor8(data[i], KeystreamByte(start, pos + i)))
  }

  /** The output does not depend on where the input is cut. */
  lemma CryptAppend(start: State, pos: nat, a: seq<byte>, b: seq<byte>)
    ensures Crypt(start, pos, a + b) == Crypt(start, pos, a) + Crypt(start, pos + |a|, b)
  {
    hide Xor8, KeystreamByte;
  }

  /** Running the cipher twice from one start gives the data back. */
  lemma CryptInvolution(start: State, pos: nat, data: seq<byte>)
    ensures Crypt(start, pos, Crypt(start, pos, data)) == data
  {
    hide KeystreamByte, Bits.Xor;
    forall i | 0 <= i < |data|
      ensures Crypt(start, pos, Crypt(start, pos, data))[i] == data[i]
    {
      Bits.XorCancel(data[i], KeystreamByte(start, pos + i));
    }
  }

  function InitialState(key: seq<byte>, nonce: seq<byte>, counter: uint32): (s: State)
    requires |key| == 32 && |nonce| == 12
  {
    [0x61707865, 0x3320646e, 0x79622d32, 0x6b206574,
     Load32(key, 0), Load32(key, 4), Load32(key, 8), Load32(key, 12),
     Load32(key, 16), Load32(key, 20), Load32(key, 24), Load32(key, 28),
     counter, Load32(nonce, 0), Load32(nonce, 4), Load32(nonce, 8)]
  }

  /** "expand 32-byte k" in ASCII. */
  function Sigma(): (r: seq<byte>)
    ensures |r| == 16
  {
    ['e' as int, 'x' as int, 'p' as int, 'a' as int, 'n' as int, 'd' as int, ' ' as int, '3' as int,
     '2' as int, '-' as int, 'b' as int, 'y' as int, 't' as int, 'e' as int, ' ' as int, 'k' as int]
  }

  /** The sixteen words of a state, little-endian. */
  function Serialized(s: State): (r: seq<byte>)
    ensures |r| == 64
  {
    seq(64, i requires 0 <= i < 64 => ToLE(s[i / 4], 4)[i % 4])
  }

  lemma WordSerialized(s: State, i: nat)
    requires i < 16
    ensures Serialized(s)[4 * i..4 * i + 4] == ToLE(s[i], 4)
  {
    hide ToLE;
  }

  lemma Reload(s: seq<byte>, at: nat)
    requires at + 4 <= |s|
    ensures ToLE(Load32(s, at), 4) == s[at..at + 4]
  {
    hide ToLE, LE, Load32;
    Load32IsLE(s, at);
    ToLEOfLE(s[at..at + 4]);
  }

  /** The state spells the constant, the key, the counter and the nonce, byte for byte. */
  lemma InitialStateSpells(key: seq<byte>, nonce: seq<byte>, counter: uint32)
    requires |key| == 32 && |nonce| == 12
    ensures Serialized(InitialState(key, nonce, counter)) == Sigma() + key + ToLE(counter, 4) + nonce
  {
    hide ToLE, Load32, Serialized, Sigma, InitialState;
    var s, all := InitialState(key, nonce, counter), Sigma() + key + ToLE(counter, 4) + nonce;
    forall i | 0 <= i < 16
      ensures Serialized(s)[4 * i..4 * i + 4] == all[4 * i..4 * i + 4]
    {
      WordSerialized(s, i);
      WordSpelled(key, nonce, counter, i);
    }
    SameWords(Serialized(s), all);
  }

  lemma WordSpelled(key: seq<byte>, nonce: seq<byte>, counter: uint32, i: nat)
    requires |key| == 32 && |nonce| == 12 && i < 16
    ensures ToLE(InitialState(key, nonce, counter)[i], 4)
         == (Sigma() + key + ToLE(counter, 4) + nonce)[4 * i..4 * i + 4]
  {
    hide ToLE, Load32, Sigma;
    var count := ToLE(counter, 4);
    var all := Sigma() + key + count + nonce;
    if i < 4 {
      SigmaWords();
      Reload(Sigma(), 4 * i);
      Within([], Sigma(), key + count + nonce, 4 * i, all);
    } else if i < 12 {
      Reload(key, 4 * (i - 4));
      Within(Sigma(), key, count + nonce, 4 * (i - 4), all);
    } else if i == 12 {
      Within(Sigma() + key, count, nonce, 0, all);
    } else {
      Reload(nonce, 4 * (i - 13));
      Within(Sigma() + key + count, nonce, [], 4 * (i - 13), all);
    }
  }

  lemma Within(a: seq<byte>, b: seq<byte>, c: seq<byte>, at: nat, all: seq<byte>)
    requires at + 4 <= |b| && all == a + b + c
    ensures all[|a| + at..|a| + at + 4] == b[at..at + 4]
  {
  }

  lemma SigmaWords()
    ensures Load32(Sigma(), 0) == 0x61707865 && Load32(Sigma(), 4) == 0x3320646e
    ensures Load32(Sigma(), 8) == 0x79622d32 && Load32(Sigma(), 12) == 0x6b206574
  {
  }

  lemma SameWords(a: seq<byte>, b: seq<byte>)
    requires |a| == |b| == 64 && forall i :: 0 <= i < 16 ==> a[4 * i..4 * i + 4] == b[4 * i..4 * i + 4]
    ensures a == b
  {
    forall k | 0 <= k < 64
      ensures a[k] == b[k]
    {
      var i := k / 4;
      assert a[4 * i..4 * i + 4][k % 4] == b[4 * i..4 * i + 4][k % 4];
    }
  }

  /** Block n of a stream is the block whose counter is n higher, modulo 2^32: crypting zeros there gives that block. */
  lemma StreamBlock(key: seq<byte>, nonce: seq<byte>, counter: uint32, n: nat)
    requires |key| == 32 && |nonce| == 12
    ensures var sum: int := counter + n;
            Crypt(InitialState(key, nonce, counter), 64 * n, Zeros(64)) == Block(InitialState(key, nonce, sum % TWO32))
  {
    hide Block, Load32, Bits.Xor;
    var start, sum: int := InitialState(key, nonce, counter), counter + n;
    assert AtBlock(start, n) == InitialState(key, nonce, sum % TWO32);
    forall i | 0 <= i < 64
      ensures Crypt(start, 64 * n, Zeros(64))[i] == Block(AtBlock(start, n))[i]
    {
      assert (64 * n + i) / 64 == n && (64 * n + i) % 64 == i;
    }
  }

  /** state, keystream and used describe a cipher that has produced pos keystream bytes from start. */
  ghost predicate Produced(start: State, pos: nat, state: State, keystream: seq<byte>, used: nat) {
    var blocks := (pos + 63) / 64;
    && state == AtBlock(start, blocks)
    && |keystream| == 64
    && used == (if pos % 64 == 0 then 64 else pos % 64)
    && (pos % 64 != 0 ==> keystream == Block(AtBlock(start, pos / 64)))
  }

  class Context {
    const state: array<uint32>
    const keystream8: array<byte>
    var used: nat    // keystream_bytes_used

    ghost var start: State   // the state when the stream began
    ghost var pos: nat       // keystream bytes produced since

    ghost predicate Shaped()
      reads this
    {
      state.Length == 16 && keystream8.Length == 64
    }

    ghost predicate Valid()
      reads this, state, keystream8
    {
      Shaped() && Produced(start, pos, state[..], keystream8[..], used)
    }

    constructor ()
      ensures Shaped() && fresh(state) && fresh(keystream8)
      ensures state[..] == seq(16, _ => 0)
    {
      state := new uint32[16](_ => 0);
      keystream8 := new byte[64](_ => 0);
      used := 64;
      start, pos := seq(16, _ => 0), 0;
    }

    /** Constants and key words; counter and nonce words are left as they are. */
    method SetKey(key: seq<byte>)
      requires Shaped() && |key| == 32
      modifies state
      ensures state[..12] == InitialState(key, Zeros(12), 0)[..12]
      ensures state[12..] == old(state[12..])
    {
      hide Load32;
      state[0], state[1], state[2], state[3] := 0x61707865, 0x3320646e, 0x79622d32, 0x6b206574;
      state[4], state[5], state[6], state[7] := Load32(key, 0), Load32(key, 4), Load32(key, 8), Load32(key, 12);
      state[8], state[9], state[10], state[11] := Load32(key, 16), Load32(key, 20), Load32(key, 24), Load32(key, 28);
    }

    /** Counter and nonce words; the stream starts here with no keystream byte available. */
    method Starts(nonce: seq<byte>, counter: uint32)
      requires Shaped() && |nonce| == 12
      modifies this, state, keystream8
      ensures Valid() && pos == 0 && start == old(state[..12]) + InitialState(Zeros(32), nonce, counter)[12..]
    {
      hide Load32;
      state[12] := counter;
      state[13], state[14], state[15] := Load32(nonce, 0), Load32(nonce, 4), Load32(nonce, 8);
      for i := 0 to 64
        invariant state[..12] == old(state[..12])
        invariant state[12..] == [counter, Load32(nonce, 0), Load32(nonce, 4), Load32(nonce, 8)]
      {
        keystream8[i] := 0;
      }
      used := 64;
      pos := 0;
      start := state[..];
      assert start == state[..12] + state[12..];
      assert InitialState(Zeros(32), nonce, counter)[12..] == state[12..];
      assert start[12 := start[12] % TWO32] == start;
    }

    /** Xors n bytes of the input with the keystream buffer; input and output may be one array. */
    method XorBuffer(input: array<byte>, output: array<byte>, offset: nat, n: nat)
      requires Shaped() && n <= 64 && offset + n <= input.Length && offset + n <= output.Length
      requires keystream8 != output && keystream8 != input
      modifies output
      ensures output[..] == old(output[..offset]) + Mask(old(input[offset..offset + n]), keystream8[..n]) + old(output[offset + n..])
    {
      hide Xor8;
      for i := 0 to n
        invariant forall k :: offset <= k < offset + i ==> output[k] == Xor8(old(input[k]), keystream8[k - offset])
        invariant forall k :: 0 <= k < output.Length && !(offset <= k < offset + i) ==> output[k] == old(output[k])
        invariant forall k :: offset + i <= k < input.Length ==> input[k] == old(input[k])
      {
        output[offset + i] := Xor8(input[offset + i], keystream8[i]);
      }
    }

    /** Generates the next keystream block and increments the counter word. */
    method NextBlock()
      requires Valid() && pos % 64 == 0
      modifies state, keystream8
      ensures keystream8[..] == Block(AtBlock(start, pos / 64))
      ensures state[..] == AtBlock(start, pos / 64 + 1)
    {
      hide Block;
      BlockInto(state, keystream8);
      state[12] := Add32(state[12], 1);
      AtBlockNext(start, pos / 64);
    }

    /** Takes leftover keystream bytes first. */
    method UseLeftover(size: nat, input: array<byte>, output: array<byte>) returns (offset: nat)
      requires Valid() && size <= input.Length && size <= output.Length
      requires keystream8 != output && keystream8 != input
      modifies this`used, this`pos, output
      ensures Valid() && offset <= size && pos == old(pos) + offset
      ensures offset == size || pos % 64 == 0
      ensures Done(start, old(pos), old(input[..]), old(output[..]), offset, input[..], output[..])
    {
      ghost var p, data, before := pos, input[..], output[..];
      NothingDone(start, p, data, before);
      hide Crypt, Produced, Done;
      offset := 0;
      ProducedUsed(start, pos, state[..], keystream8[..], used);
      while offset < size && used < 64
        invariant offset <= size && pos == p + offset && Valid()
        invariant used <= 64 && (used == 64 <==> pos % 64 == 0)
        invariant Done(start, p, data, before, offset, input[..], output[..])
      {
        LeftoverByte(input, output, offset, p, data, before);
        offset := offset + 1;
        ProducedUsed(start, pos, state[..], keystream8[..], used);
      }
    }

    method LeftoverByte(input: array<byte>, output: array<byte>, offset: nat,
                        ghost p: nat, ghost data: seq<byte>, ghost before: seq<byte>)
      requires Valid() && used < 64 && pos == p + offset && offset < input.Length && offset < output.Length
      requires keystream8 != output && keystream8 != input
      requires Done(start, p, data, before, offset, input[..], output[..])
      modifies this`used, this`pos, output
      ensures Valid() && pos == p + (offset + 1)
      ensures Done(start, p, data, before, offset + 1, input[..], output[..])
    {
      hide Xor8, Crypt, Produced;
      ghost var inp, out := input[..], output[..];
      assert input[offset] == inp[offset..][0] == data[offset];
      ProducedByte(start, p, data[..offset], data[offset], state[..], keystream8[..], used);
      output[offset] := Xor8(input[offset], keystream8[used]);
      assert output[..] == out[offset := output[offset]];
      assert input[..][offset + 1..] == inp[offset + 1..];
      ByteDone(start, p, data, before, offset, inp, out, input[..], output[offset]);
      used := used + 1;
      pos := pos + 1;
    }

    /** Generates one block and crypts n bytes with it. */
    method CryptBlock(input: array<byte>, output: array<byte>, offset: nat, n: nat)
      requires Valid() && pos % 64 == 0 && n <= 64 && offset + n <= input.Length && offset + n <= output.Length
      requires keystream8 != output && keystream8 != input
      modifies state, keystream8, output
      ensures keystream8[..] == Block(AtBlock(start, pos / 64))
      ensures state[..] == AtBlock(start, pos / 64 + 1)
      ensures output[..] == old(output[..offset]) + Crypt(start, pos, old(input[offset..offset + n])) + old(output[offset + n..])
    {
      hide Crypt, Block, AtBlock;
      NextBlock();
      assert keystream8[..n] == Block(AtBlock(start, pos / 64))[..n];
      MaskIsCrypt(start, pos, input[offset..offset + n], keystream8[..n]);
      XorBuffer(input, output, offset, n);
    }

    /** The chunk of n bytes at offset, after the bytes before it have been crypted from position p on. */
    method CryptNext(input: array<byte>, output: array<byte>, offset: nat, n: nat,
                     ghost p: nat, ghost data: seq<byte>, ghost before: seq<byte>)
      requires Valid() && pos == p + offset && pos % 64 == 0 && n <= 64
      requires offset + n <= input.Length && offset + n <= output.Length
      requires keystream8 != output && keystream8 != input
      requires Done(start, p, data, before, offset, input[..], output[..])
      modifies state, keystream8, output
      ensures keystream8[..] == Block(AtBlock(start, pos / 64))
      ensures state[..] == AtBlock(start, pos / 64 + 1)
      ensures Done(start, p, data, before, offset + n, input[..], output[..])
    {
      hide Crypt, Block, AtBlock, Produced;
      ghost var inp, out := input[..], output[..];
      CryptBlock(input, output, offset, n);
      assert input[..][offset + n..] == inp[offset + n..];
      ChunkDone(start, p, data, before, offset, n, inp, out, input[..], output[..]);
    }

    /** Crypts size bytes: the output is the input xored with the keystream from the current position on,
        whatever the earlier calls were; input and output may be one array. */
    method Update(size: nat, input: array<byte>, output: array<byte>)
      requires Valid() && size <= input.Length && size <= output.Length
      requires keystream8 != output && keystream8 != input
      modifies this`used, this`pos, state, keystream8, output
      ensures Valid() && pos == old(pos) + size
      ensures output[..] == Crypt(start, old(pos), old(input[..size])) + old(output[size..])
    {
      hide Crypt, Block, AtBlock, Produced, Valid, Done;
      var offset := UseLeftover(size, input, output);
      ghost var p, data, before := old(pos), old(input[..]), old(output[..]);
      while size - offset >= 64
        invariant offset <= size && pos == p + offset && (offset == size || pos % 64 == 0)
        invariant Valid() && Done(start, p, data, before, offset, input[..], output[..])
      {
        FullBlock(input, output, offset, p, data, before);
        offset := offset + 64;
      }
      if size - offset > 0 {
        LastBlock(input, output, offset, size - offset, p, data, before);
      }
      AllDone(start, p, data, before, size, input[..], output[..]);
      assert data[..size] == old(input[..size]) && before[size..] == old(output[size..]);
    }

    method FullBlock(input: array<byte>, output: array<byte>, offset: nat,
                     ghost p: nat, ghost data: seq<byte>, ghost before: seq<byte>)
      requires Valid() && pos == p + offset && pos % 64 == 0
      requires offset + 64 <= input.Length && offset + 64 <= output.Length
      requires keystream8 != output && keystream8 != input
      requires Done(start, p, data, before, offset, input[..], output[..])
      modifies this`pos, state, keystream8, output
      ensures Valid() && pos == p + (offset + 64)
      ensures Done(start, p, data, before, offset + 64, input[..], output[..])
    {
      hide Crypt, Block, AtBlock, Produced, Done;
      ProducedUsed(start, pos, state[..], keystream8[..], used);
      CryptNext(input, output, offset, 64, p, data, before);
      pos := pos + 64;
      ProducedBlock(start, pos, state[..], keystream8[..]);
    }

    method LastBlock(input: array<byte>, output: array<byte>, offset: nat, n: nat,
                     ghost p: nat, ghost data: seq<byte>, ghost before: seq<byte>)
      requires Valid() && pos == p + offset && pos % 64 == 0 && 0 < n < 64
      requires offset + n <= input.Length && offset + n <= output.Length
      requires keystream8 != output && keystream8 != input
      requires Done(start, p, data, before, offset, input[..], output[..])
      modifies this`pos, this`used, state, keystream8, output
      ensures Valid() && pos == p + (offset + n)
      ensures Done(start, p, data, before, offset + n, input[..], output[..])
    {
      hide Crypt, Block, AtBlock, Produced, Done;
      CryptNext(input, output, offset, n, p, data, before);
      used := n;
      pos := pos + n;
      ProducedPartial(start, pos, state[..], keystream8[..], n);
    }
  }

  /** The first n bytes of data are crypted into out, and neither array has changed behind them. */
  ghost predicate Done(start: State, p: nat, data: seq<byte>, before: seq<byte>, n: nat, inp: seq<byte>, out: seq<byte>) {
    && n <= |data| == |inp| && n <= |before| == |out|
    && out == Crypt(start, p, data[..n]) + before[n..] && inp[n..] == data[n..]
  }

  lemma NothingDone(start: State, p: nat, data: seq<byte>, before: seq<byte>)
    ensures Done(start, p, data, before, 0, data, before)
  {
    CryptEmpty(start, p);
    assert data[..0] == [] && before[0..] == before;
  }

  lemma AllDone(start: State, p: nat, data: seq<byte>, before: seq<byte>, n: nat, inp: seq<byte>, out: seq<byte>)
    requires Done(start, p, data, before, n, inp, out)
    ensures n <= |data| && n <= |before| && out == Crypt(start, p, data[..n]) + before[n..]
  {
  }

  lemma ByteDone(start: State, p: nat, data: seq<byte>, before: seq<byte>, n: nat, inp: seq<byte>, out: seq<byte>,
                 inp': seq<byte>, b: byte)
    requires Done(start, p, data, before, n, inp, out) && n < |data| && n < |before|
    requires Crypt(start, p, data[..n] + [data[n]]) == Crypt(start, p, data[..n]) + [b]
    requires |inp'| == |inp| && inp'[n + 1..] == inp[n + 1..]
    ensures Done(start, p, data, before, n + 1, inp', out[n := b])
  {
    hide Crypt;
    assert data[..n + 1] == data[..n] + [data[n]];
    UpdateHead(Crypt(start, p, data[..n]), before[n..], b);
    assert before[n..][1..] == before[n + 1..];
    assert inp[n + 1..] == inp[n..][1..] && data[n + 1..] == data[n..][1..];
  }

  lemma ChunkDone(start: State, p: nat, data: seq<byte>, before: seq<byte>, offset: nat, n: nat, inp: seq<byte>,
                  out: seq<byte>, inp': seq<byte>, out': seq<byte>)
    requires Done(start, p, data, before, offset, inp, out) && offset + n <= |data| && offset + n <= |before|
    requires out' == out[..offset] + Crypt(start, p + offset, inp[offset..offset + n]) + out[offset + n..]
    requires |inp'| == |inp| && inp'[offset + n..] == inp[offset + n..]
    ensures Done(start, p, data, before, offset + n, inp', out')
  {
    hide Crypt;
    assert inp[offset..offset + n] == inp[offset..][..n] && data[offset..offset + n] == data[offset..][..n];
    assert inp[offset + n..] == inp[offset..][n..] && data[offset + n..] == data[offset..][n..];
    AppendChunk(start, p, data, offset, n, before, out');
  }

  /** The keystream buffer applied to data, byte by byte. */
  function Mask(data: seq<byte>, ks: seq<byte>): (out: seq<byte>)
    requires |data| <= |ks|
    ensures |out| == |data|
  {
    seq(|data|, i requires 0 <= i < |data| => Xor8(data[i], ks[i]))
  }

  lemma AtBlockNext(start: State, n: nat)
    ensures var s := AtBlock(start, n); s[12 := Add32(s[12], 1)] == AtBlock(start, n + 1)
  {
    var c: int := start[12] + n;
    assert (c % TWO32 + 1) % TWO32 == (c + 1) % TWO32;
  }

  lemma UpdateHead(done: seq<byte>, rest: seq<byte>, b: byte)
    requires |rest| > 0
    ensures (done + rest)[|done| := b] == (done + [b]) + rest[1..]
  {
  }

  /** One more chunk of output, in the form the loops keep. */
  lemma AppendChunk(start: State, p: nat, input: seq<byte>, offset: nat, n: nat, before: seq<byte>, after: seq<byte>)
    requires offset + n <= |input| && offset + n <= |before|
    requires after == (Crypt(start, p, input[..offset]) + before[offset..])[..offset]
                    + Crypt(start, p + offset, input[offset..offset + n])
                    + (Crypt(start, p, input[..offset]) + before[offset..])[offset + n..]
    ensures after == Crypt(start, p, input[..offset + n]) + before[offset + n..]
  {
    hide Crypt;
    CryptAppend(start, p, input[..offset], input[offset..offset + n]);
    assert input[..offset] + input[offset..offset + n] == input[..offset + n];
    var c := Crypt(start, p, input[..offset]);
    assert (c + before[offset..])[..offset] == c;
    assert (c + before[offset..])[offset + n..] == before[offset + n..];
  }

  lemma ProducedBlock(start: State, pos: nat, state: State, keystream: seq<byte>)
    requires pos % 64 == 0 && state == AtBlock(start, pos / 64) && |keystream| == 64
    ensures Produced(start, pos, state, keystream, 64)
  {
    hide Block, AtBlock;
  }

  lemma ProducedPartial(start: State, pos: nat, state: State, keystream: seq<byte>, used: nat)
    requires 0 < used < 64 && pos % 64 == used && state == AtBlock(start, pos / 64 + 1)
    requires keystream == Block(AtBlock(start, pos / 64))
    ensures Produced(start, pos, state, keystream, used)
  {
    hide Block, AtBlock;
  }

  lemma CryptEmpty(start: State, pos: nat)
    ensures Crypt(start, pos, []) == []
  {
  }

  lemma ProducedUsed(start: State, pos: nat, state: State, keystream: seq<byte>, used: nat)
    requires Produced(start, pos, state, keystream, used)
    ensures used <= 64 && (used == 64 <==> pos % 64 == 0)
  {
  }

  /** One leftover keystream byte continues the stream. */
  lemma ProducedByte(start: State, p: nat, done: seq<byte>, b: byte, state: State, ks: seq<byte>, used: nat)
    requires Produced(start, p + |done|, state, ks, used) && used < 64
    ensures |ks| == 64 && Crypt(start, p, done + [b]) == Crypt(start, p, done) + [Xor8(b, ks[used])]
    ensures Produced(start, p + |done| + 1, state, ks, used + 1)
  {
    hide Block, AtBlock, Xor8;
    CryptAppend(start, p, done, [b]);
  }

  /** A block's worth of data or less, masked with the block of its position. */
  lemma MaskIsCrypt(start: State, pos: nat, data: seq<byte>, ks: seq<byte>)
    requires pos % 64 == 0 && |data| <= |ks| <= 64
    requires ks == Block(AtBlock(start, pos / 64))[..|ks|]
    ensures Mask(data, ks) == Crypt(start, pos, data)
  {
    hide Block, AtBlock, Xor8;
    forall i | 0 <= i < |data|
      ensures Mask(data, ks)[i] == Crypt(start, pos, data)[i]
    {
      assert (pos + i) / 64 == pos / 64 && (pos + i) % 64 == i;
    }
  }
}
