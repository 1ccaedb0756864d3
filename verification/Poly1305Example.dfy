/** The example of section 2.5.2 of RFC 8439. */
module Poly1305Example {
  import opened Bytes
  import opened Poly1305

  const KEY: seq<byte> :=
    [0x85, 0xd6, 0xbe, 0x78, 0x57, 0x55, 0x6d, 0x33, 0x7f, 0x44, 0x52, 0xfe, 0x42, 0xd5, 0x06, 0xa8,
     0x01, 0x03, 0x80, 0x8a, 0xfb, 0x0d, 0xb2, 0xfd, 0x4a, 0xbf, 0xf6, 0xaf, 0x41, 0x49, 0xf5, 0x1b]

  /** "Cryptographic Forum Research Group" */
  const MESSAGE: seq<byte> :=
    [0x43, 0x72, 0x79, 0x70, 0x74, 0x6f, 0x67, 0x72, 0x61, 0x70, 0x68, 0x69, 0x63, 0x20, 0x46, 0x6f,
     0x72, 0x75, 0x6d, 0x20, 0x52, 0x65, 0x73, 0x65, 0x61, 0x72, 0x63, 0x68, 0x20, 0x47, 0x72, 0x6f,
     0x75, 0x70]

  const R: int := 0x806D5400E52447C036D555408BED685
  const S: int := 0x1BF54941AFF6BF4AFDB20DFB8A800301

  /** The accumulator behind each of the three blocks. */
  const A1: int := 0x2C88C77849D64AE9147DDEB88E69C83FC
  const A2: int := 0x2D8ADAF23B0337FA7CCCFB4EA344B30DE
  const A3: int := 0x28D31B7CAFF946C77C8844335369D03A7

  const B1: int := 0x16F4620636968706172676F7470797243
  const B2: int := 0x16F7247206863726165736552206D7572
  const B3: int := 0x17075

  lemma MessageSpelled()
    ensures |MESSAGE| == 34
    ensures forall i :: 0 <= i < 34 ==> MESSAGE[i] == "Cryptographic Forum Research Group"[i] as int
  {
  }

  lemma KeyWords()
    ensures Load32(KEY, 0) == 0x78BED685 && Load32(KEY, 4) == 0x336D5557 && Load32(KEY, 8) == 0xFE52447F && Load32(KEY, 12) == 0xA806D542
    ensures Load32(KEY, 16) == 0x8A800301 && Load32(KEY, 20) == 0xFDB20DFB && Load32(KEY, 24) == 0xAFF6BF4A && Load32(KEY, 28) == 0x1BF54941
  {
  }

  lemma KeyParts()
    ensures ClampedR(KEY) == R && LE(KEY[16..]) == S
  {
    KeyWords();
    hide LE, ClampedR, Load32;
    ClampMeans(KEY);
    FourLimbs(KEY, 16);
    assert KEY[16..32] == KEY[16..];
  }

  lemma MessageBlocks()
    ensures Blocks(MESSAGE) == [B1, B2, B3]
  {
    hide Blocks, LE;
    var m := MESSAGE;
    assert m[..16] + (m[16..32] + m[32..]) == m;
    BlocksAppend(m[..16], m[16..32] + m[32..]);
    BlocksAppend(m[16..32], m[32..]);
    FullBlock(m[..16]);
    FullBlock(m[16..32]);
    FourLimbs(m, 0);
    FourLimbs(m, 16);
    assert m[0..16] == m[..16];
    LastBlock();
  }

  lemma LastBlock()
    ensures Blocks(MESSAGE[32..]) == [B3]
  {
    var t := MESSAGE[32..];
    assert t == [0x75, 0x70];
    assert t[..2] == t && t[2..] == [];
    var u := t + [1];
    assert u[1..][1..] == [1] && u[1..][1..][1..] == [];
    assert LE(u[1..]) == 0x70 + 256 * LE([1]);
  }

  lemma Accumulated()
    ensures Horner(0, [B1, B2, B3], R) == A3
  {
    assert [B1, B2, B3][..2] == [B1, B2] && [B1, B2][..1] == [B1] && [B1][..0] == [];
    assert Horner(0, [B1], R) == A1;
    assert Horner(0, [B1, B2], R) == A2;
  }

  lemma KnownTag()
    ensures LE(Tag(KEY, MESSAGE)) == 0xA927010CAF8B2BC2C6365130C11D06A8
  {
    KeyParts();
    MessageBlocks();
    Accumulated();
    hide LE, ToLE, Horner, Blocks, ClampedR;
    Pow256Of16();
    ToLERoundTrip(0xA927010CAF8B2BC2C6365130C11D06A8, 16);
  }
}
