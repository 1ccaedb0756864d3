/** Splitting a long bridged message into numbered chunks that fit one Meshtastic packet each. */
module Splitter {
  import opened Bytes
  import opened Utf8
  import Bits
  import Dedup
  import Modular

  const DATA_MAX: int := 233
  const MAX_CHUNKS: int := 4
  const TEXT_SIZE: int := 240
  const PREFIX_MAX: int := 79

  /** Strings are the bytes before their terminating NUL. */
  function MaxSlice(senderLen: nat): (m: nat)
    ensures m >= 16
  {
    var m := DATA_MAX - (senderLen + 9);
    if m < 16 then 16 else m
  }

  function Needed(bodyLen: nat, m: nat): (n: nat)
    requires m >= 16
    ensures 1 <= n <= MAX_CHUNKS
  {
    if bodyLen <= m then 1 else if bodyLen <= 2 * m then 2 else if bodyLen <= 3 * m then 3 else 4
  }

  /** The rounded-up quotient of the code, clamped to 1..4, is that case analysis. */
  lemma NeededQuotient(bodyLen: nat, m: nat)
    requires m >= 16
    ensures var q := (bodyLen + m - 1) / m;
            Needed(bodyLen, m) == if q > MAX_CHUNKS then MAX_CHUNKS else if q < 1 then 1 else q
  {
    QuotientCases(bodyLen, m, (bodyLen + m - 1) / m, (bodyLen + m - 1) % m);
  }

  lemma QuotientCases(bodyLen: nat, m: nat, q: nat, r: nat)
    requires m >= 16 && r < m && bodyLen + m - 1 == q * m + r
    ensures Needed(bodyLen, m) == if q > MAX_CHUNKS then MAX_CHUNKS else if q < 1 then 1 else q
  {
    if q >= 5 {
      assert q * m >= 5 * m;
    } else {
      assert q == 0 || q == 1 || q == 2 || q == 3 || q == 4;
    }
  }

  /** A body that fits four slices fits the chunks planned for it, and no fewer. */
  lemma NeededFits(bodyLen: nat, m: nat)
    requires m >= 16 && bodyLen <= MAX_CHUNKS * m
    ensures var n := Needed(bodyLen, m);
            bodyLen <= n * m && (bodyLen > 0 ==> (n - 1) * m < bodyLen)
  {
    var n := Needed(bodyLen, m);
    assert n == 1 || n == 2 || n == 3 || n == 4;
  }

  /** The last cut at or before pos + take that is not on a continuation byte. */
  function WalkBack(body: seq<byte>, pos: nat, take: nat): (t: nat)
    requires pos + take < |body|
    ensures t <= take
    ensures forall j :: pos + t < j <= pos + take ==> Cont(body[j])
    ensures t == 0 || !Cont(body[pos + t])
  {
    if take > 0 && Cont(body[pos + take]) then WalkBack(body, pos, take - 1) else take
  }

  datatype Cut = Cut(take: nat, truncated: bool)

  /** How many bytes chunk i takes from position pos. */
  function CutAt(body: seq<byte>, pos: nat, i: nat, m: nat): (c: Cut)
    requires pos <= |body| && m >= 16
    ensures pos + c.take <= |body| && c.take <= m
    ensures c.truncated <==> i >= MAX_CHUNKS - 1 && |body| - pos > m
  {
    if |body| - pos <= m then Cut(|body| - pos, false)
    else if i < MAX_CHUNKS - 1 then Cut(OrFull(WalkBack(body, pos, m), m), false)
    else Cut(OrFull(WalkBack(body, pos, m - 4), m - 4), true)
  }

  /** A walk back over the whole slice is given up. */
  function OrFull(take: nat, full: nat): nat {
    if take == 0 then full else take
  }

  /** Where chunk i starts. */
  function Pos(body: seq<byte>, m: nat, i: nat): (p: nat)
    requires m >= 16
    ensures p <= |body|
  {
    if i == 0 then 0
    else
      var before := Pos(body, m, i - 1);
      before + CutAt(body, before, i - 1, m).take
  }

  function Slice(body: seq<byte>, m: nat, i: nat): (s: seq<byte>)
    requires m >= 16
    ensures |s| <= m
  {
    var at := Pos(body, m, i);
    body[at..at + CutAt(body, at, i, m).take]
  }

  predicate Truncated(body: seq<byte>, m: nat, i: nat)
    requires m >= 16
  {
    CutAt(body, Pos(body, m, i), i, m).truncated
  }

  /** " (i/n): ", with n at most 4. */
  function Counter(i: nat, n: nat): (s: seq<byte>)
    requires 1 <= i <= n <= MAX_CHUNKS
    ensures |s| == 8 && forall k :: 0 <= k < 8 ==> s[k] < 0x80
  {
    [0x20, 0x28, 0x30 + i, 0x2F, 0x30 + n, 0x29, 0x3A, 0x20]
  }

  /** " ..." behind a slice that was cut short. */
  function Marker(truncated: bool): (s: seq<byte>)
    ensures |s| == if truncated then 4 else 0
    ensures forall k :: 0 <= k < |s| ==> s[k] < 0x80
  {
    if truncated then [0x20, 0x2E, 0x2E, 0x2E] else []
  }

  /** snprintf into a 240-byte array keeps at most 239 bytes. */
  function Clip(s: seq<byte>): (r: seq<byte>)
    ensures |r| == (if |s| < 240 then |s| else 239) && r <= s
  {
    if |s| < TEXT_SIZE then s else s[..TEXT_SIZE - 1]
  }

  function Text(prefix: seq<byte>, i: nat, n: nat, slice: seq<byte>, truncated: bool): (r: seq<byte>)
    requires 1 <= i <= n <= MAX_CHUNKS
    ensures |r| == |prefix| + 8 + |slice| + if truncated then 4 else 0
  {
    prefix + Counter(i, n) + slice + Marker(truncated)
  }

  function Chunk(prefix: seq<byte>, body: seq<byte>, i: nat): (r: seq<byte>)
    requires i < Needed(|body|, MaxSlice(|prefix|))
  {
    var m := MaxSlice(|prefix|);
    Clip(Text(prefix, i + 1, Needed(|body|, m), Slice(body, m, i), Truncated(body, m, i)))
  }

  /** The first n chunks. */
  function Chunks(prefix: seq<byte>, body: seq<byte>, n: nat): (r: seq<seq<byte>>)
    requires n <= Needed(|body|, MaxSlice(|prefix|))
    ensures |r| == n
  {
    if n == 0 then [] else Chunks(prefix, body, n - 1) + [Chunk(prefix, body, n - 1)]
  }

  lemma {:induction false} ChunkAt(prefix: seq<byte>, body: seq<byte>, n: nat, i: nat)
    requires i < n <= Needed(|body|, MaxSlice(|prefix|))
    ensures Chunks(prefix, body, n)[i] == Chunk(prefix, body, i)
  {
    hide Chunk, Needed, MaxSlice;
    if i < n - 1 {
      ChunkAt(prefix, body, n - 1, i);
    }
  }

  /** What the receivers read, one slice after the other. */
  function Joined(body: seq<byte>, m: nat, n: nat): (r: seq<byte>)
    requires m >= 16
  {
    if n == 0 then [] else Joined(body, m, n - 1) + Slice(body, m, n - 1)
  }

  // ---- Conservation, for every body -------------------------------------------

  lemma {:induction false} JoinedIsPrefix(body: seq<byte>, m: nat, n: nat)
    requires m >= 16
    ensures Joined(body, m, n) == body[..Pos(body, m, n)]
  {
    hide CutAt;
    if n > 0 {
      JoinedIsPrefix(body, m, n - 1);
    }
  }

  /** Every chunk fits a packet, and the 240-byte array never cuts it. */
  lemma ChunkFits(prefix: seq<byte>, body: seq<byte>, i: nat)
    requires |prefix| <= PREFIX_MAX && i < Needed(|body|, MaxSlice(|prefix|))
    ensures |Chunk(prefix, body, i)| <= 233
    ensures var m := MaxSlice(|prefix|);
            && Chunk(prefix, body, i)
               == Text(prefix, i + 1, Needed(|body|, m), Slice(body, m, i), Truncated(body, m, i))
  {
    hide WalkBack, Pos, Needed, Text;
    var m := MaxSlice(|prefix|);
    var at := Pos(body, m, i);
    assert Truncated(body, m, i) ==> |Slice(body, m, i)| <= m - 4;
  }

  /** Chunk i of n reads, behind the prefix, " (", the digit of i + 1, "/", the digit of n, "): " and its slice. */
  lemma ChunkSaysItsNumber(prefix: seq<byte>, body: seq<byte>, i: nat)
    requires |prefix| <= PREFIX_MAX && i < Needed(|body|, MaxSlice(|prefix|))
    ensures var chunk, at, n := Chunk(prefix, body, i), |prefix|, Needed(|body|, MaxSlice(|prefix|));
            && |chunk| >= at + 8 && chunk[..at] == prefix
            && chunk[at] == ' ' as int && chunk[at + 1] == '(' as int && chunk[at + 2] == '0' as int + (i + 1)
            && chunk[at + 3] == '/' as int && chunk[at + 4] == '0' as int + n && chunk[at + 5] == ')' as int
            && chunk[at + 6] == ':' as int && chunk[at + 7] == ' ' as int
            && Slice(body, MaxSlice(|prefix|), i) <= chunk[at + 8..]
  {
    hide Needed, MaxSlice, CutAt, Pos, Slice, Chunk;
    ChunkFits(prefix, body, i);
    var m := MaxSlice(|prefix|);
    var n, slice, cut := Needed(|body|, m), Slice(body, m, i), Truncated(body, m, i);
    var text := Text(prefix, i + 1, n, slice, cut);
    assert text[|prefix|..|prefix| + 8] == Counter(i + 1, n);
    var at := |prefix|;
    assert forall j :: at <= j < at + 8 ==> text[j] == text[at..at + 8][j - at];
    assert text[|prefix| + 8..] == slice + Marker(cut);
  }

  // ---- Well-formed text is cut between characters -------------------------------

  /** The walk back gives up at most three bytes and stops between two characters. */
  lemma WalkBackShort(body: seq<byte>, pos: nat, take: nat)
    requires WellFormed(body) && take >= 4 && pos + take < |body|
    ensures take - 3 <= WalkBack(body, pos, take)
    ensures Boundary(body, pos + WalkBack(body, pos, take))
  {
    hide WellFormed, WalkBack;
    BoundaryNear(body, pos + take);
    var j :| 0 <= j && pos + take - 3 <= j <= pos + take && !Cont(body[j]);
    var t := WalkBack(body, pos, take);
    assert !(pos + t < j);
  }

  lemma CutBetweenCharacters(body: seq<byte>, pos: nat, i: nat, m: nat)
    requires WellFormed(body) && pos <= |body| && m >= 16
    ensures var c := CutAt(body, pos, i, m);
            && Boundary(body, pos + c.take)
            && (|body| - pos > m ==> c.take >= if i < MAX_CHUNKS - 1 then m - 3 else m - 7)
  {
    hide WellFormed, WalkBack;
    if |body| - pos > m {
      WalkBackShort(body, pos, m);
      WalkBackShort(body, pos, m - 4);
    }
  }

  lemma StartsAtBoundary(body: seq<byte>)
    requires WellFormed(body)
    ensures Boundary(body, 0)
  {
    assert body != [] ==> CharLen(body) > 0;
  }

  lemma PosBetweenCharacters(body: seq<byte>, m: nat, i: nat)
    requires WellFormed(body) && m >= 16
    ensures Boundary(body, Pos(body, m, i))
  {
    hide WellFormed, CutAt;
    StartsAtBoundary(body);
    if i > 0 {
      CutBetweenCharacters(body, Pos(body, m, i - 1), i - 1, m);
    }
  }

  /** Every slice is well-formed text, and so is every chunk under a well-formed prefix. */
  lemma ChunkWellFormed(prefix: seq<byte>, body: seq<byte>, i: nat)
    requires WellFormed(body) && |prefix| <= PREFIX_MAX
    requires i < Needed(|body|, MaxSlice(|prefix|))
    ensures WellFormed(Slice(body, MaxSlice(|prefix|), i))
    ensures WellFormed(prefix) ==> WellFormed(Chunk(prefix, body, i))
  {
    hide WellFormed, CutAt, Needed, Chunk, Counter, Marker;
    var m := MaxSlice(|prefix|);
    var n, slice, at := Needed(|body|, m), Slice(body, m, i), Pos(body, m, i);
    PosBetweenCharacters(body, m, i);
    CutBetweenCharacters(body, at, i, m);
    PieceWellFormed(body, at, at + CutAt(body, at, i, m).take);
    ChunkFits(prefix, body, i);
    if WellFormed(prefix) {
      AsciiWellFormed(Counter(i + 1, n));
      AsciiWellFormed(Marker(Truncated(body, m, i)));
      WellFormedAppend(prefix, Counter(i + 1, n));
      WellFormedAppend(prefix + Counter(i + 1, n), slice);
      WellFormedAppend(prefix + Counter(i + 1, n) + slice, Marker(Truncated(body, m, i)));
    }
  }

  /** Before the last chunk at most three bytes a chunk are given up. */
  lemma {:induction false} PosLower(body: seq<byte>, m: nat, i: nat)
    requires WellFormed(body) && m >= 16 && i <= MAX_CHUNKS - 1
    ensures Pos(body, m, i) == |body| || Pos(body, m, i) >= i * (m - 3)
  {
    hide WellFormed, CutAt;
    if i > 0 {
      PosLower(body, m, i - 1);
      CutBetweenCharacters(body, Pos(body, m, i - 1), i - 1, m);
      CutRest(body, Pos(body, m, i - 1), i - 1, m);
      assert i * (m - 3) == (i - 1) * (m - 3) + (m - 3);
    }
  }

  lemma CutRest(body: seq<byte>, pos: nat, i: nat, m: nat)
    requires pos <= |body| && m >= 16
    ensures CutAt(body, pos, i, m).take > 0 || pos == |body|
    ensures CutAt(body, pos, i, m).take == |body| - pos <==> |body| - pos <= m
  {
  }

  // ---- What arrives, in all -----------------------------------------------------

  /** Everything arrives exactly when the last chunk's remainder fits one slice. */
  lemma WholeIff(body: seq<byte>, m: nat)
    requires m >= 16
    ensures var n := Needed(|body|, m);
            Joined(body, m, n) == body <==> |body| - Pos(body, m, n - 1) <= m
  {
    hide CutAt, Needed;
    var n := Needed(|body|, m);
    JoinedIsPrefix(body, m, n);
    CutRest(body, Pos(body, m, n - 1), n - 1, m);
    assert body[..|body|] == body;
  }

  lemma EarlyChunkUnmarked(body: seq<byte>, m: nat, i: nat)
    requires m >= 16 && i < MAX_CHUNKS - 1
    ensures !Truncated(body, m, i)
  {
  }

  /** The " ..." marker stands on the last chunk exactly when four chunks lost something. */
  lemma MarkerIff(body: seq<byte>, m: nat, i: nat)
    requires m >= 16 && i < Needed(|body|, m)
    ensures var n := Needed(|body|, m);
            Truncated(body, m, i) <==> i == n - 1 && n == MAX_CHUNKS && Joined(body, m, n) != body
  {
    hide CutAt, Pos, Joined;
    WholeIff(body, m);
  }

  /** No multiple of the slice size falls inside a character. */
  predicate CleanCuts(body: seq<byte>, m: nat) {
    && (|body| > m ==> !Cont(body[m]))
    && (|body| > 2 * m ==> !Cont(body[2 * m]))
    && (|body| > 3 * m ==> !Cont(body[3 * m]))
  }

  /** With no cut on a continuation byte, a body of at most four slices arrives whole. */
  lemma WholeWhenCutsAreClean(body: seq<byte>, m: nat)
    requires m >= 16 && |body| <= MAX_CHUNKS * m
    requires CleanCuts(body, m)
    ensures Joined(body, m, Needed(|body|, m)) == body
  {
    hide CutAt, Pos, Joined, WalkBack;
    var n := Needed(|body|, m);
    NeededFits(|body|, m);
    if body != [] {
      FullSlices(body, m, n - 1);
    }
    WholeIff(body, m);
  }

  lemma CleanCut(body: seq<byte>, pos: nat, i: nat, m: nat)
    requires m >= 16 && i < MAX_CHUNKS - 1 && pos + m < |body| && !Cont(body[pos + m])
    ensures CutAt(body, pos, i, m).take == m
  {
    assert WalkBack(body, pos, m) == m;
  }

  lemma {:induction false} FullSlices(body: seq<byte>, m: nat, i: nat)
    requires m >= 16 && i * m < |body| && i <= MAX_CHUNKS - 1
    requires CleanCuts(body, m)
    ensures Pos(body, m, i) == i * m
  {
    hide CutAt, WalkBack;
    if i > 0 {
      var k := i * m;
      assert k == (i - 1) * m + m;
      FullSlices(body, m, i - 1);
      assert i == 1 || i == 2 || i == 3;
      CleanCut(body, k - m, i - 1, m);
    }
  }

  /** What is kept is a prefix of the body, marked when four chunks lost something. */
  lemma Kept(body: seq<byte>, m: nat)
    requires m >= 16
    ensures var n := Needed(|body|, m);
            var kept := Joined(body, m, n);
            && kept <= body
            && (Truncated(body, m, n - 1) <==> n == MAX_CHUNKS && |kept| < |body|)
            && (CleanCuts(body, m) && |body| <= MAX_CHUNKS * m ==> kept == body)
  {
    hide CutAt, Pos, Joined, Needed, Truncated, CleanCuts;
    var n := Needed(|body|, m);
    JoinedIsPrefix(body, m, n);
    MarkerIff(body, m, n - 1);
    if CleanCuts(body, m) && |body| <= MAX_CHUNKS * m {
      WholeWhenCutsAreClean(body, m);
    }
  }

  /**
   * A well-formed body of at most four slices arrives up to 3 bytes a chunk, or up to 16 bytes
   * when the fourth chunk has to make room for its marker.
   */
  lemma LossBound(body: seq<byte>, m: nat)
    requires WellFormed(body) && m >= 16 && |body| <= MAX_CHUNKS * m
    ensures var n := Needed(|body|, m);
            |body| - |Joined(body, m, n)| <= if n < MAX_CHUNKS then 3 * n else 16
  {
    hide WellFormed, CutAt, Needed, Joined;
    var n := Needed(|body|, m);
    var at := Pos(body, m, n - 1);
    NeededFits(|body|, m);
    JoinedIsPrefix(body, m, n);
    PosLower(body, m, n - 1);
    CutBetweenCharacters(body, at, n - 1, m);
    CutRest(body, at, n - 1, m);
    LossArithmetic(|body|, m, n, at, CutAt(body, at, n - 1, m).take);
  }

  lemma LossArithmetic(len: nat, m: nat, n: nat, at: nat, take: nat)
    requires m >= 16 && 1 <= n <= MAX_CHUNKS && len <= n * m && at <= len
    requires at == len || at >= (n - 1) * (m - 3)
    requires if len - at <= m then take == len - at else take >= if n < 4 then m - 3 else m - 7
    ensures len - (at + take) <= if n < MAX_CHUNKS then 3 * n else 16
  {
    assert n == 1 || n == 2 || n == 3 || n == 4;
  }

  /**
   * Below four chunks bytes can be lost with no marker: 144 letters, a two-byte character across
   * the cut and 144 letters more lose their last letter silently.
   */
  lemma SilentLoss()
    ensures var a := seq(144, _ => 0x61 as byte);
            var body := a + [0xC3, 0xA9] + a;
            && MaxSlice(PREFIX_MAX) == 145 && Needed(|body|, 145) == 2
            && |Joined(body, 145, 2)| == |body| - 1
            && !Truncated(body, 145, 0) && !Truncated(body, 145, 1)
  {
    var a := seq(144, _ => 0x61 as byte);
    var body := a + [0xC3, 0xA9] + a;
    assert body[145] == 0xA9 && body[144] == 0xC3 && body[289] == 0x61;
    assert WalkBack(body, 0, 144) == 144;
    assert WalkBack(body, 0, 145) == 144;
    assert Pos(body, 145, 0) == 0;
    assert Pos(body, 145, 1) == 144;
    assert WalkBack(body, 144, 145) == 145;
    assert Pos(body, 145, 2) == 289;
    JoinedIsPrefix(body, 145, 2);
  }

  // ---- The hash recorded for a chunk ----------------------------------------------

  const FNV_BASIS: uint32 := 2166136261
  const FNV_PRIME: int := 16777619

  function MixByte(h: uint32, b: byte): uint32 {
    (Bits.Xor(h, b) * FNV_PRIME) % TWO32
  }

  /** FNV-1a over the bytes, from h on. */
  function Fnv(h: uint32, bytes: seq<byte>): (r: uint32) {
    if bytes == [] then h else MixByte(Fnv(h, bytes[..|bytes| - 1]), bytes[|bytes| - 1])
  }

  /** The hash of a message of this bridge: its text, and 4 + 8 zero bytes for the sender it does not have. */
  function TextHash(text: seq<byte>): (r: uint32) {
    Fnv(Fnv(FNV_BASIS, text), Zeros(12))
  }

  /** It is one FNV-1a hash of the text with its twelve zeros, from the offset basis on. */
  lemma TextHashIsFnv(text: seq<byte>)
    ensures TextHash(text) == Fnv(2166136261, text + Zeros(12))
  {
    FnvAppend(2166136261, text, Zeros(12));
  }

  lemma {:induction false} FnvAppend(h: uint32, a: seq<byte>, b: seq<byte>)
    ensures Fnv(h, a + b) == Fnv(Fnv(h, a), b)
    decreases |b|
  {
    hide MixByte;
    if b == [] {
      assert a + b == a;
    } else {
      var n := |b| - 1;
      assert (a + b)[..|a + b| - 1] == a + b[..n];
      FnvAppend(h, a, b[..n]);
    }
  }

  /** The published FNV-1a hash of "a". */
  lemma FnvKnown()
    ensures Fnv(2166136261, [0x61]) == 0xE40C_292C
  {
    AfterA();
    assert [0x61][..0] == [];
  }

  lemma AfterA()
    ensures MixByte(0x811C_9DC5, 0x61) == 0xE40C_292C
  {
    hide Bits.Xor;
    Bits.XorUnfold(0x811C9DC5, 0x61);
    Bits.XorUnfold(0x408E4EE2, 0x30);
    Bits.XorUnfold(0x20472771, 0x18);
    Bits.XorUnfold(0x102393B8, 0xC);
    Bits.XorUnfold(0x811C9DC, 0x6);
    Bits.XorUnfold(0x408E4EE, 0x3);
    Bits.XorUnfold(0x2047277, 0x1);
    Bits.XorZero(0x102393B);
    assert Bits.Xor(0x811C_9DC5, 0x61) == 0x811C_9DA4;
  }

  /** The prime is odd, so mixing loses neither the hash so far nor the byte. */
  lemma MixByteInjective(h: uint32, h': uint32, b: byte, b': byte)
    ensures MixByte(h, b) == MixByte(h', b) ==> h == h'
    ensures MixByte(h, b) == MixByte(h, b') ==> b == b'
  {
    hide Bits.Xor;
    Bits.XorCancel(h, b);
    Bits.XorCancel(h', b);
    Bits.XorComm(h, b);
    Bits.XorComm(h, b');
    Bits.XorCancel(b, h);
    Bits.XorCancel(b', h);
    XorIsWord(h, b);
    XorIsWord(h', b);
    XorIsWord(h, b');
    TimesPrime(Bits.Xor(h, b), Bits.Xor(h', b));
    TimesPrime(Bits.Xor(h, b), Bits.Xor(h, b'));
  }

  lemma XorIsWord(h: uint32, b: byte)
    ensures 0 <= Bits.Xor(h, b) < TWO32
  {
    hide Bits.Xor;
    Bits.Pow2Values();
    Bits.XorBound(h, b, 32);
  }

  lemma TimesPrime(x: int, y: int)
    requires 0 <= x < TWO32 && 0 <= y < TWO32
    ensures (x * FNV_PRIME) % TWO32 == (y * FNV_PRIME) % TWO32 ==> x == y
  {
    if (x * FNV_PRIME) % TWO32 == (y * FNV_PRIME) % TWO32 {
      Modular.MulCong(x * FNV_PRIME, y * FNV_PRIME, FNV_INVERSE, TWO32);
      Undone(x);
      Undone(y);
    }
  }

  /** The inverse of the prime modulo 2^32. */
  const FNV_INVERSE: int := 899433627

  lemma Undone(x: int)
    requires 0 <= x < TWO32
    ensures ((x * FNV_PRIME) * FNV_INVERSE) % TWO32 == x
  {
    assert (x * FNV_PRIME) * FNV_INVERSE == x * (FNV_PRIME * FNV_INVERSE);
    Modular.MulCong(FNV_PRIME * FNV_INVERSE, 1, x, TWO32);
    Modular.SmallMod(x, TWO32);
  }

  /** Every byte of a text counts: changing one changes the hash. */
  lemma {:induction false} FnvSeesEveryByte(h: uint32, s: seq<byte>, k: nat, b: byte)
    requires k < |s| && b != s[k]
    ensures Fnv(h, s[k := b]) != Fnv(h, s)
    decreases |s|
  {
    var n, t := |s| - 1, s[k := b];
    hide MixByte;
    if k == n {
      assert t[..n] == s[..n];
      MixByteInjective(Fnv(h, s[..n]), Fnv(h, s[..n]), s[n], b);
    } else {
      assert t[..n] == s[..n][k := b];
      FnvSeesEveryByte(h, s[..n], k, b);
      MixByteInjective(Fnv(h, t[..n]), Fnv(h, s[..n]), s[n], s[n]);
    }
  }

  method MixAll(h: uint32, bytes: seq<byte>) returns (r: uint32)
    ensures r == Fnv(h, bytes)
  {
    hide MixByte;
    r := h;
    for i := 0 to |bytes|
      invariant r == Fnv(h, bytes[..i])
    {
      assert bytes[..i + 1][..i] == bytes[..i];
      r := MixByte(r, bytes[i]);
    }
    assert bytes[..|bytes|] == bytes;
  }

  /** What is recorded for the first n chunks, chunk i at the i-th clock reading. */
  function Recorded(prefix: seq<byte>, body: seq<byte>, clock: nat -> uint32, n: nat): (r: seq<Dedup.Entry>)
    requires n <= Needed(|body|, MaxSlice(|prefix|))
    ensures |r| == n
  {
    if n == 0 then []
    else Recorded(prefix, body, clock, n - 1) + [Dedup.Entry(TextHash(Chunk(prefix, body, n - 1)), clock(n - 1))]
  }

  // ---- The queue of pending chunks -----------------------------------------------

  class ChunkQueue {
    const pendingChunks: array<seq<byte>>
    const dedup: Dedup.DedupRing
    var pendingTotal: nat
    var pendingNext: nat
    var pendingSendAtMs: uint32

    ghost predicate Valid()
      reads this, pendingChunks, dedup
    {
      pendingChunks.Length == MAX_CHUNKS && pendingNext <= pendingTotal <= MAX_CHUNKS && dedup.Valid() && dedup.ttl == 60000
    }

    constructor ()
      ensures Valid() && pendingTotal == 0 && fresh(pendingChunks) && fresh(dedup) && dedup.log == Dedup.EmptyLog()
    {
      pendingChunks := new seq<byte>[MAX_CHUNKS](_ => []);
      pendingTotal, pendingNext, pendingSendAtMs := 0, 0, 0;
      dedup := new Dedup.DedupRing(Dedup.BRIDGE_TTL_MS);
    }

    method Store(i: nat, text: seq<byte>, now: uint32)
      requires i < pendingChunks.Length && dedup.Valid()
      modifies pendingChunks, dedup
      ensures dedup.Valid() && dedup.log == old(dedup.log) + [Dedup.Entry(TextHash(text), now)]
      ensures pendingChunks[..] == old(pendingChunks[..])[i := text]
    {
      hide TextHash;
      pendingChunks[i] := text;
      var h := HashText(text);
      dedup.Record(h, now);
    }

    /** Queues exactly the chunks, in order, records the hash of each, and makes the first one due at once. */
    method SplitIntoChunks(prefix: seq<byte>, body: seq<byte>, clock: nat -> uint32) returns (n: nat)
      requires Valid()
      modifies this, pendingChunks, dedup
      ensures Valid()
      ensures n == Needed(|body|, MaxSlice(|prefix|))
      ensures pendingTotal == n && pendingNext == 0 && pendingSendAtMs == clock(n)
      ensures pendingChunks[..] == Chunks(prefix, body, n) + old(pendingChunks[..])[n..]
      ensures dedup.log == old(dedup.log) + Recorded(prefix, body, clock, n)
    {
      var m: int;
      m, n := Plan(|prefix|, |body|);
      var pos := 0;
      assert pos == Pos(body, m, 0);
      ghost var chunks0, log0 := pendingChunks[..], dedup.log;
      NoneYet(prefix, body, clock, chunks0, log0);
      hide CutAt, Chunk, Chunks, Recorded, Needed, Pos, MaxSlice, TextHash, Dedup.DedupRing.Valid;
      for i := 0 to n
        invariant pos == Pos(body, m, i) && dedup.Valid()
        invariant pendingChunks[..] == Chunks(prefix, body, i) + chunks0[i..]
        invariant dedup.log == log0 + Recorded(prefix, body, clock, i)
      {
        var text, take := FormatChunk(prefix, body, pos, i, m, n);
        Store(i, text, clock(i));
        OneMore(prefix, body, clock, i, chunks0, log0);
        pos := pos + take;
      }
      pendingTotal, pendingNext, pendingSendAtMs := n, 0, clock(n);
    }
  }

  lemma NoneYet(prefix: seq<byte>, body: seq<byte>, clock: nat -> uint32, chunks: seq<seq<byte>>, log: seq<Dedup.Entry>)
    ensures Chunks(prefix, body, 0) + chunks[0..] == chunks
    ensures log + Recorded(prefix, body, clock, 0) == log
  {
  }

  lemma OneMore(prefix: seq<byte>, body: seq<byte>, clock: nat -> uint32, i: nat, chunks: seq<seq<byte>>,
                log: seq<Dedup.Entry>)
    requires i < Needed(|body|, MaxSlice(|prefix|)) && |chunks| == MAX_CHUNKS
    ensures var text := Chunk(prefix, body, i);
            && (Chunks(prefix, body, i) + chunks[i..])[i := text] == Chunks(prefix, body, i + 1) + chunks[i + 1..]
            && log + Recorded(prefix, body, clock, i) + [Dedup.Entry(TextHash(text), clock(i))]
               == log + Recorded(prefix, body, clock, i + 1)
  {
    hide Chunk, Needed, MaxSlice, TextHash;
  }

  method HashText(text: seq<byte>) returns (h: uint32)
    ensures h == TextHash(text)
  {
    h := MixAll(FNV_BASIS, text);
    h := MixAll(h, Zeros(12));
  }

  /** The slice size and the number of chunks, by the code's rounded-up quotient. */
  method Plan(prefixLen: nat, bodyLen: nat) returns (m: nat, n: nat)
    ensures m == MaxSlice(prefixLen) && n == Needed(bodyLen, m)
  {
    hide Needed;
    var room := DATA_MAX - (prefixLen + 9);
    m := if room < 16 then 16 else room;
    NeededQuotient(bodyLen, m);
    n := (bodyLen + m - 1) / m;
    if n > MAX_CHUNKS { n := MAX_CHUNKS; }
    if n < 1 { n := 1; }
  }

  method FormatChunk(prefix: seq<byte>, body: seq<byte>, pos: nat, i: nat, m: nat, n: nat)
    returns (text: seq<byte>, take: nat)
    requires m == MaxSlice(|prefix|) && n == Needed(|body|, m) && i < n
    requires pos == Pos(body, m, i)
    ensures text == Chunk(prefix, body, i)
    ensures pos + take == Pos(body, m, i + 1)
  {
    hide Needed, CutAt, Text, Clip;
    var truncate: bool;
    take, truncate := ChooseTake(body, pos, i, m);
    text := Clip(Text(prefix, i + 1, n, body[pos..pos + take], truncate));
  }

  method ChooseTake(body: seq<byte>, pos: nat, i: nat, m: nat) returns (take: nat, truncate: bool)
    requires pos <= |body| && m >= 16
    ensures Cut(take, truncate) == CutAt(body, pos, i, m)
  {
    var remaining := |body| - pos;
    take, truncate := remaining, false;
    if i < MAX_CHUNKS - 1 && remaining > m {
      take := Retreat(body, pos, m);
      if take == 0 { take := m; }
    } else if remaining > m {
      take := Retreat(body, pos, m - 4);
      if take == 0 { take := m - 4; }
      truncate := true;
    }
  }

  method Retreat(body: seq<byte>, pos: nat, limit: nat) returns (take: nat)
    requires pos + limit < |body|
    ensures take == WalkBack(body, pos, limit)
  {
    take := limit;
    while take > 0 && 0x80 <= body[pos + take] < 0xC0
      invariant take <= limit
      invariant WalkBack(body, pos, take) == WalkBack(body, pos, limit)
    {
      take := take - 1;
    }
  }
}
