/** The hand-written protobuf subset spoken with the Meshtastic radio. */
module MeshProto {
  import opened Bytes
  import Bits
  import opened Wrappers

  /////////////////////////////////////////////////////////////////////////////
  // Varints
  /////////////////////////////////////////////////////////////////////////////

  function EncVarint(v: nat): (s: seq<byte>)
    ensures |s| >= 1
  {
    if v > 0x7F then [v % 128 + 128] + EncVarint(v / 128) else [v]
  }

  /** The number a varint denotes: seven bits a byte, lowest first. */
  function Base128(s: seq<byte>): nat {
    if s == [] then 0 else s[0] % 128 + 128 * Base128(s[1..])
  }

  /** The bytes of v denote v, and all of them but the last carry the continuation bit. */
  lemma {:induction false} VarintDenotes(v: nat)
    ensures var s := EncVarint(v);
            && Base128(s) == v && s[|s| - 1] < 128
            && forall i :: 0 <= i < |s| - 1 ==> s[i] >= 128
    decreases v
  {
    if v > 0x7F {
      VarintDenotes(v / 128);
      var s, t := EncVarint(v), EncVarint(v / 128);
      assert s[1..] == t;
      assert forall i :: 1 <= i < |s| ==> s[i] == t[i - 1];
    } else {
      assert [v as byte][1..] == [];
    }
  }

  method EncodeVarint(value: uint32) returns (out: seq<byte>)
    ensures out == EncVarint(value)
  {
    var v: nat := value;
    out := [];
    while v > 0x7F
      invariant out + EncVarint(v) == EncVarint(value)
    {
      assert EncVarint(v) == [v % 128 + 128] + EncVarint(v / 128);
      assert out + EncVarint(v) == (out + [v % 128 + 128]) + EncVarint(v / 128);
      out := out + [v % 128 + 128];
      v := v / 128;
    }
    out := out + [v];
  }

  function Pow128(n: nat): (r: nat)
    ensures r >= 1
  {
    if n == 0 then 1 else 128 * Pow128(n - 1)
  }

  /** Decoding from the k-th byte on: the value of the remaining bytes, shifted and cut to 32 bits, and their count. */
  function DecVarintFrom(buf: seq<byte>, k: nat): (r: Option<(nat, nat)>)
    requires k <= 5
    ensures r.Some? ==> 1 <= r.value.1 <= |buf| && r.value.1 <= 5 - k
    decreases 5 - k
  {
    if buf == [] || k == 5 then None
    else
      var b: int := buf[0];
      var part := (b % 128) * Pow128(k) % TWO32;
      if b < 128 then Some((part, 1))
      else
        var (v, n) :- DecVarintFrom(buf[1..], k + 1);
        Some((part + v, n + 1))
  }

  function DecVarint(buf: seq<byte>): (r: Option<(nat, nat)>)
    ensures r.Some? ==> 1 <= r.value.1 <= |buf|
  {
    DecVarintFrom(buf, 0)
  }

  method DecodeVarint(buf: seq<byte>) returns (r: Option<(nat, nat)>)
    ensures r == DecVarint(buf)
  {
    hide Pow128;
    var value, i := 0, 0;
    ghost var whole := DecVarint(buf);
    assert buf[0..] == buf;
    while i < |buf| && i < 5
      invariant i <= |buf| && i <= 5
      invariant whole == (match DecVarintFrom(buf[i..], i) case None => None case Some((v, n)) => Some((value + v, i + n)))
    {
      var b: int := buf[i];
      var shift := Pow128(i);
      assert buf[i..][1..] == buf[i + 1..];
      value := value + (b % 128) * shift % TWO32;
      if b < 128 {
        return Some((value, i + 1));
      }
      i := i + 1;
    }
    r := None;
  }

  /** The first n bytes are a varint: the continuation bit is set on all of them but the last. */
  predicate Delimited(buf: seq<byte>, n: nat) {
    1 <= n <= |buf| && buf[n - 1] < 128 && forall i :: 0 <= i < n - 1 ==> buf[i] >= 128
  }

  /** On every input: decoding takes n bytes exactly when the first n are a varint of at most five, and gives the number
      they denote, modulo 2^32. */
  lemma DecodesIff(buf: seq<byte>, n: nat)
    ensures DecVarint(buf).Some? && DecVarint(buf).value.1 == n <==> Delimited(buf, n) && n <= 5
    ensures Delimited(buf, n) && n <= 5 ==> DecVarint(buf).value.0 == Base128(buf[..n]) % TWO32
  {
    hide Base128, DecVarintFrom;
    TakesDelimited(buf, 0);
    if Delimited(buf, n) && n <= 5 {
      DecodesFrom(buf, 0, n);
    }
  }

  lemma {:induction false} TakesDelimited(buf: seq<byte>, k: nat)
    requires k <= 5
    ensures DecVarintFrom(buf, k).Some? ==> Delimited(buf, DecVarintFrom(buf, k).value.1)
    decreases 5 - k
  {
    hide Pow128;
    if buf != [] && k < 5 {
      TakesDelimited(buf[1..], k + 1);
    }
  }

  lemma {:induction false} DecodesFrom(buf: seq<byte>, k: nat, n: nat)
    requires k + n <= 5 && Delimited(buf, n)
    ensures DecVarintFrom(buf, k) == Some((Base128(buf[..n]) * Pow128(k) % TWO32, n))
    decreases n
  {
    hide Pow128;
    var a: int := buf[0] % 128;
    assert buf[..n][1..] == buf[1..][..n - 1];
    if n == 1 {
      assert Base128(buf[..n]) == a;
    } else {
      var r := Base128(buf[1..][..n - 1]);
      DecodesFrom(buf[1..], k + 1, n - 1);
      Pow128Next(k);
      assert Base128(buf[..n]) == a + 128 * r;
      PartInPlace(a, r, k);
    }
  }

  /** Digits in place k and above it do not overlap in 32 bits. */
  lemma PartInPlace(a: nat, r: nat, k: nat)
    requires a < 128 && k < 4
    ensures a * Pow128(k) % TWO32 + r * Pow128(k + 1) % TWO32 == (a + 128 * r) * Pow128(k) % TWO32
  {
    var c := if k == 0 then 0x200_0000 else if k == 1 then 0x4_0000 else if k == 2 then 0x800 else 0x10;
    Pow128Next(k);
    assert Pow128(k) == if k == 0 then 1 else if k == 1 then 0x80 else if k == 2 then 0x4000 else 0x20_0000;
    PartSum(a, r, Pow128(k), c);
  }

  lemma PartSum(a: nat, r: nat, p: nat, c: nat)
    requires a < 128 && p > 0 && c > 0 && 128 * (p * c) == TWO32
    ensures a * p % TWO32 + r * (128 * p) % TWO32 == (a + 128 * r) * p % TWO32
  {
    var q, m := r / c, r % c;
    Regroup(c, q, m, p);
    Fits(a, p, m, c);
    Together(a, r, p);
    Disjoint(a * p, r * (128 * p), q, 128 * (p * m));
  }

  lemma Regroup(c: nat, q: nat, m: nat, p: nat)
    ensures (c * q + m) * (128 * p) == 128 * (p * c) * q + 128 * (p * m)
  {
  }

  lemma Fits(a: nat, p: nat, m: nat, c: nat)
    requires a < 128 && m < c && p > 0
    ensures a * p + 128 * (p * m) < 128 * (p * c)
  {
    assert a * p <= 127 * p;
    assert p * (m + 1) <= p * c;
  }

  lemma Together(a: nat, r: nat, p: nat)
    ensures (a + 128 * r) * p == a * p + r * (128 * p)
  {
  }

  lemma Disjoint(low: nat, high: nat, q: nat, rest: nat)
    requires high == TWO32 * q + rest && low + rest < TWO32
    ensures low % TWO32 + high % TWO32 == (low + high) % TWO32
  {
    Bits.DivModUnique(low, TWO32, 0, low);
    Bits.DivModUnique(high, TWO32, q, rest);
    Bits.DivModUnique(low + high, TWO32, q, low + rest);
  }

  /** The bytes of v from position k on decode to v in place k, whatever follows. */
  lemma {:induction false} VarintRoundTripFrom(v: nat, k: nat, rest: seq<byte>)
    requires k < 5 && v * Pow128(k) < TWO32
    ensures DecVarintFrom(EncVarint(v) + rest, k) == Some((v * Pow128(k), |EncVarint(v)|))
    decreases 5 - k
  {
    if v <= 0x7F {
      hide Pow128;
      LastByte(v, k, rest);
    } else {
      hide *;
      FifthByte(v, k);
      Pow128Next(k);
      VarintSplit(v, Pow128(k), Pow128(k + 1));
      VarintRoundTripFrom(v / 128, k + 1, rest);
      MoreBytes(v, k, rest);
    }
  }

  lemma LastByte(v: nat, k: nat, rest: seq<byte>)
    requires v <= 0x7F && k < 5 && v * Pow128(k) < TWO32
    ensures DecVarintFrom(EncVarint(v) + rest, k) == Some((v * Pow128(k), 1)) && |EncVarint(v)| == 1
  {
    hide Pow128;
    var s := EncVarint(v) + rest;
    assert s[0] == v && v % 128 == v;
  }

  lemma MoreBytes(v: nat, k: nat, rest: seq<byte>)
    requires v > 0x7F && k < 4
    ensures DecVarintFrom(EncVarint(v) + rest, k)
         == (match DecVarintFrom(EncVarint(v / 128) + rest, k + 1)
             case None => None
             case Some((w, n)) => Some(((v % 128) * Pow128(k) % TWO32 + w, n + 1)))
    ensures |EncVarint(v)| == |EncVarint(v / 128)| + 1
  {
    hide *;
    EncUnfold(v);
    var s := EncVarint(v) + rest;
    assert s[0] == v % 128 + 128 && s[1..] == EncVarint(v / 128) + rest;
    DecUnfold(s, k);
    assert (v % 128 + 128) % 128 == v % 128;
  }

  lemma EncUnfold(v: nat)
    requires v > 0x7F
    ensures EncVarint(v) == [v % 128 + 128] + EncVarint(v / 128)
  {
  }

  lemma DecUnfold(s: seq<byte>, k: nat)
    requires s != [] && s[0] >= 128 && k < 5
    ensures DecVarintFrom(s, k)
         == (match DecVarintFrom(s[1..], k + 1)
             case None => None
             case Some((w, n)) => Some(((s[0] % 128) * Pow128(k) % TWO32 + w, n + 1)))
  {
    hide Pow128;
  }

  lemma VarintSplit(v: nat, p: nat, q: nat)
    requires v * p < TWO32 && q == 128 * p
    ensures (v % 128) * p % TWO32 + (v / 128) * q == v * p && (v / 128) * q < TWO32
  {
    var d, r := v / 128, v % 128;
    assert v == 128 * d + r;
    assert (128 * d + r) * p == d * q + r * p;
    assert 0 <= r * p && 0 <= d * q;
  }

  lemma Pow128Next(k: nat)
    ensures Pow128(k + 1) == 128 * Pow128(k)
  {
  }

  lemma Pow128Of4()
    ensures Pow128(4) == 0x1000_0000
  {
    assert Pow128(2) == 0x4000;
  }

  /** A fifth byte never carries a continuation bit. */
  lemma FifthByte(v: nat, k: nat)
    requires k < 5 && v > 0x7F && v * Pow128(k) < TWO32
    ensures k < 4
  {
    Pow128Of4();
    assert k == 4 ==> v * Pow128(k) == v * 0x1000_0000;
  }

  lemma VarintRoundTrip(v: uint32, rest: seq<byte>)
    ensures DecVarint(EncVarint(v) + rest) == Some((v, |EncVarint(v)|))
  {
    assert Pow128(0) == 1;
    VarintRoundTripFrom(v, 0, rest);
  }

  /////////////////////////////////////////////////////////////////////////////
  // Fields
  /////////////////////////////////////////////////////////////////////////////

  /** A decoded field: its number and a varint, a byte string, a fixed 32-bit word, or a skipped 64-bit word. */
  datatype Value = Varint(v: uint32) | Data(bytes: seq<byte>) | Fixed(w: uint32) | Skipped
  datatype Field = Field(num: nat, value: Value)

  function WireType(v: Value): nat {
    match v
    case Varint(_) => 0
    case Data(_) => 2
    case Fixed(_) => 5
    case Skipped => 1
  }

  /** Field numbers that fit a 32-bit tag, and lengths that fit an int. */
  predicate Encodable(f: Field) {
    && f.num < 0x2000_0000 && !f.value.Skipped?
    && (f.value.Data? ==> |f.value.bytes| < 0x8000_0000)
  }

  function EncField(f: Field): seq<byte>
    requires Encodable(f)
  {
    EncVarint(f.num * 8 + WireType(f.value)) +
    match f.value
    case Varint(v) => EncVarint(v)
    case Data(bytes) => EncVarint(|bytes|) + bytes
    case Fixed(w) => ToLE(w, 4)
  }

  function LoadWord(s: seq<byte>): (w: uint32)
    requires |s| == 4
  {
    Load32(s, 0)
  }

  /** decode_field: the field at the front of buf and the bytes it takes. Lengths of 2^31 and more are
      rejected, as the code does except for those that lead back. */
  function DecField(buf: seq<byte>): (r: Option<(Field, nat)>)
    ensures r.Some? ==> 0 < r.value.1 <= |buf|
  {
    var (tag, pos) :- DecVarint(buf);
    var num, rest := tag / 8, buf[pos..];
    match tag % 8
    case 0 =>
      var (v, n) :- DecVarint(rest);
      Some((Field(num, Varint(v % TWO32)), pos + n))
    case 2 =>
      var (len, n) :- DecVarint(rest);
      if len >= 0x8000_0000 || n + len > |rest| then None
      else Some((Field(num, Data(rest[n..n + len])), pos + n + len))
    case 5 =>
      if |rest| < 4 then None else Some((Field(num, Fixed(LoadWord(rest[..4]))), pos + 4))
    case 1 =>
      if |rest| < 8 then None else Some((Field(num, Skipped), pos + 8))
    case _ => None
  }

  /////////////////////////////////////////////////////////////////////////////
  // The byte count decode_field returns, in the machine's 32-bit integers
  /////////////////////////////////////////////////////////////////////////////

  /** A 32-bit word read as a signed integer. */
  function Signed32(v: int): (r: int)
    ensures -0x8000_0000 <= r < 0x8000_0000
  {
    var w := v % TWO32;
    if w < 0x8000_0000 then w else w - TWO32
  }

  /** The count the code computes; negative counts are its error returns. */
  function Consumed(buf: seq<byte>): (r: int)
    ensures r <= |buf|
  {
    match DecVarint(buf)
    case None => -1
    case Some((tag, pos)) =>
      var rest := buf[pos..];
      match tag % 8
      case 0 => if DecVarint(rest).Some? then pos + DecVarint(rest).value.1 else -1
      case 2 =>
        (match DecVarint(rest)
         case None => -1
         case Some((len, n)) =>
           var end := Signed32(pos + n + Signed32(len));
           if end > |buf| then -1 else end)
      case 5 => if |rest| < 4 then -1 else pos + 4
      case 1 => if |rest| < 8 then -1 else pos + 8
      case _ => -1
  }

  /** A length so close to 2^32 that, read as a negative number, it leads back into its own field. */
  predicate LeadsBack(buf: seq<byte>) {
    match DecVarint(buf)
    case None => false
    case Some((tag, pos)) =>
      tag % 8 == 2 && match DecVarint(buf[pos..])
                      case None => false
                      case Some((len, n)) => len >= TWO32 - (pos + n)
  }

  /** The value decoded from position k on stays below 2^32 by at least the weight of that position. */
  lemma {:induction false} VarintBound(buf: seq<byte>, k: nat)
    requires k < 5 && DecVarintFrom(buf, k).Some?
    ensures DecVarintFrom(buf, k).value.0 <= TWO32 - Pow128(k)
    decreases 5 - k
  {
    Pow128Of4();
    var b: int := buf[0];
    PartBound(b % 128, k);
    if b >= 128 {
      assert k < 4;
      VarintBound(buf[1..], k + 1);
    }
  }

  lemma PartBound(d: nat, k: nat)
    requires k < 5 && d < 128
    ensures d * Pow128(k) % TWO32 <= TWO32 - Pow128(k)
    ensures k < 4 ==> d * Pow128(k) % TWO32 + (TWO32 - Pow128(k + 1)) <= TWO32 - Pow128(k)
  {
    Pow128Of4();
    assert k == 0 || k == 1 || k == 2 || k == 3 || k == 4;
  }

  /**
   * The count is the field's size exactly for the fields the model decodes, and otherwise negative,
   * unless the length leads back: then the walk does not get past the field.
   */
  lemma ConsumedIff(buf: seq<byte>)
    requires |buf| < 0x8000_0000
    ensures DecField(buf).Some? <==> Consumed(buf) >= 0 && !LeadsBack(buf)
    ensures DecField(buf).Some? ==> Consumed(buf) == DecField(buf).value.1
    ensures LeadsBack(buf) ==> 0 <= Consumed(buf) < 10
  {
    hide DecVarint, LoadWord, Signed32;
    var tag := DecVarint(buf);
    if tag.Some? && DecVarint(buf[tag.value.1..]).Some? {
      var (len, n) := DecVarint(buf[tag.value.1..]).value;
      LengthBound(buf[tag.value.1..]);
      SizeOfVarint(buf);
      SizeOfVarint(buf[tag.value.1..]);
      SignedEnd(tag.value.1 + n, len, |buf|);
    }
  }

  /** Where a field ends whose h header bytes announce len bytes more, in a buffer of the given size. */
  lemma SignedEnd(h: nat, len: nat, size: nat)
    requires h <= 10 && h <= size < 0x8000_0000 && len < TWO32
    ensures var end := Signed32(h + Signed32(len));
            && (len < 0x8000_0000 && h + len <= size ==> end == h + len)
            && (len < 0x8000_0000 && h + len > size ==> end > size || end < 0)
            && (0x8000_0000 <= len < TWO32 - h ==> end < 0)
            && (len >= TWO32 - h ==> end == h + len - TWO32)
  {
  }

  lemma LengthBound(buf: seq<byte>)
    requires DecVarint(buf).Some?
    ensures DecVarint(buf).value.0 < TWO32
  {
    VarintBound(buf, 0);
  }

  lemma SizeOfVarint(buf: seq<byte>)
    requires DecVarint(buf).Some?
    ensures DecVarint(buf).value.1 <= 5
  {
  }

  /** A length that, read as a negative number, leads back exactly to the first byte of its field. */
  predicate Stalls(buf: seq<byte>) {
    match DecVarint(buf)
    case None => false
    case Some((tag, pos)) =>
      tag % 8 == 2 && match DecVarint(buf[pos..])
                      case None => false
                      case Some((len, n)) => len == TWO32 - (pos + n)
  }

  lemma StallsIff(buf: seq<byte>)
    requires |buf| < 0x8000_0000
    ensures Consumed(buf) == 0 <==> Stalls(buf)
  {
    hide DecVarint, LoadWord, Signed32;
    var tag := DecVarint(buf);
    if tag.Some? && DecVarint(buf[tag.value.1..]).Some? {
      var (len, n) := DecVarint(buf[tag.value.1..]).value;
      LengthBound(buf[tag.value.1..]);
      SizeOfVarint(buf);
      SizeOfVarint(buf[tag.value.1..]);
      SignedEnd(tag.value.1 + n, len, |buf|);
    }
  }

  /////////////////////////////////////////////////////////////////////////////
  // The walk of the code: pos += decode_field(buf + pos, len - pos, &f)
  /////////////////////////////////////////////////////////////////////////////

  /** Where the walk stands after k steps, or None once it has ended. */
  function PosAfter(buf: seq<byte>, k: nat): (r: Option<nat>)
    ensures r.Some? ==> r.value <= |buf|
  {
    if k == 0 then Some(0)
    else
      var p :- PosAfter(buf, k - 1);
      var c := Consumed(buf[p..]);
      if p >= |buf| || c < 0 then None else Some(p + c)
  }

  /** The walk stands on a field whose length leads back to its own first byte. */
  predicate StandsStill(buf: seq<byte>, k: nat) {
    PosAfter(buf, k).Some? && Stalls(buf[PosAfter(buf, k).value..])
  }

  lemma NextPos(buf: seq<byte>, k: nat)
    ensures PosAfter(buf, k).None? ==> PosAfter(buf, k + 1).None?
    ensures StandsStill(buf, k) && |buf| < 0x8000_0000 ==> PosAfter(buf, k + 1) == PosAfter(buf, k)
    ensures !StandsStill(buf, k) && |buf| < 0x8000_0000 && PosAfter(buf, k + 1).Some? ==>
              PosAfter(buf, k).Some? && PosAfter(buf, k + 1).value > PosAfter(buf, k).value
  {
    hide Consumed, Stalls;
    if PosAfter(buf, k).Some? && |buf| < 0x8000_0000 {
      var p := PosAfter(buf, k).value;
      StallsIff(buf[p..]);
      assert p == |buf| ==> buf[p..] == [];
      NoStallAtEnd();
    }
  }

  lemma NoStallAtEnd()
    ensures !Stalls([])
  {
  }

  /** Once it stands still, it stands still for ever. */
  lemma {:induction false} StandsForever(buf: seq<byte>, k: nat, j: nat)
    requires |buf| < 0x8000_0000 && StandsStill(buf, k) && j >= k
    ensures PosAfter(buf, j) == PosAfter(buf, k) && StandsStill(buf, j)
    decreases j
  {
    hide PosAfter, Stalls;
    if j > k {
      StandsForever(buf, k, j - 1);
      NextPos(buf, j - 1);
    }
  }

  lemma {:induction false} EndedBefore(buf: seq<byte>, k: nat, j: nat)
    requires PosAfter(buf, k).None? && j >= k
    ensures PosAfter(buf, j).None?
    decreases j
  {
    hide PosAfter;
    if j > k {
      EndedBefore(buf, k, j - 1);
      NextPos(buf, j - 1);
    }
  }

  /** As long as it never stands still, every step moves it on. */
  lemma {:induction false} MovesOn(buf: seq<byte>, k: nat)
    requires |buf| < 0x8000_0000 && PosAfter(buf, k).Some?
    requires forall j :: 0 <= j < k ==> !StandsStill(buf, j)
    ensures PosAfter(buf, k).value >= k
  {
    hide PosAfter, StandsStill;
    if k > 0 {
      assert !StandsStill(buf, k - 1);
      NextPos(buf, k - 1);
      MovesOn(buf, k - 1);
    }
  }

  ghost predicate WalkEnds(buf: seq<byte>) {
    exists k :: PosAfter(buf, k).None?
  }

  /** The walk ends exactly when it never reaches a field whose length leads back to the field itself; and then it ends
      within as many steps as there are bytes, and one. */
  lemma WalkEndsIff(buf: seq<byte>)
    requires |buf| < 0x8000_0000
    ensures WalkEnds(buf) <==> forall k :: !StandsStill(buf, k)
    ensures WalkEnds(buf) <==> PosAfter(buf, |buf| + 1).None?
  {
    if forall k :: !StandsStill(buf, k) {
      EndsInTime(buf);
    } else {
      var k :| StandsStill(buf, k);
      hide PosAfter, StandsStill;
      NeverEnds(buf, k);
    }
  }

  lemma EndsInTime(buf: seq<byte>)
    requires |buf| < 0x8000_0000 && forall k :: !StandsStill(buf, k)
    ensures PosAfter(buf, |buf| + 1).None?
  {
    hide StandsStill;
    if PosAfter(buf, |buf| + 1).Some? {
      MovesOn(buf, |buf| + 1);
    }
  }

  lemma NeverEnds(buf: seq<byte>, k: nat)
    requires |buf| < 0x8000_0000 && StandsStill(buf, k)
    ensures forall j :: PosAfter(buf, j).Some?
  {
    hide PosAfter, Stalls;
    forall j: nat
      ensures PosAfter(buf, j).Some?
    {
      if j >= k {
        StandsForever(buf, k, j);
      } else if PosAfter(buf, j).None? {
        EndedBefore(buf, j, k);
      }
    }
  }

  /** Length 2^32 - 6 in a field of six bytes: the count is 0 and the walk stands still. */
  lemma WalkStandsStill()
    ensures Consumed([0x12, 0xFA, 0xFF, 0xFF, 0xFF, 0x0F]) == 0
    ensures Stalls([0x12, 0xFA, 0xFF, 0xFF, 0xFF, 0x0F])
  {
    var buf: seq<byte> := [0x12, 0xFA, 0xFF, 0xFF, 0xFF, 0x0F];
    var rest: seq<byte> := [0xFA, 0xFF, 0xFF, 0xFF, 0x0F];
    assert buf[1..] == rest;
    assert Pow128(0) == 1;
    assert DecVarint(buf) == Some((0x12, 1));
    NearlyTwo32(rest);
  }

  lemma NearlyTwo32(rest: seq<byte>)
    requires rest == [0xFA, 0xFF, 0xFF, 0xFF, 0x0F]
    ensures DecVarint(rest) == Some((0xFFFF_FFFA, 5))
  {
    assert Pow128(0) == 1 && Pow128(1) == 128 && Pow128(2) == 0x4000 && Pow128(3) == 0x20_0000;
    Pow128Of4();
    assert rest[1..] == [0xFF, 0xFF, 0xFF, 0x0F] && rest[1..][1..] == [0xFF, 0xFF, 0x0F];
    assert rest[1..][1..][1..] == [0xFF, 0x0F] && rest[1..][1..][1..][1..] == [0x0F];
    assert DecVarintFrom([0x0F], 4) == Some((0xF000_0000, 1));
    assert DecVarintFrom([0xFF, 0x0F], 3) == Some((0xFFE0_0000, 2));
    assert DecVarintFrom([0xFF, 0xFF, 0x0F], 2) == Some((0xFFFF_C000, 3));
    assert DecVarintFrom([0xFF, 0xFF, 0xFF, 0x0F], 1) == Some((0xFFFF_FF80, 4));
    assert DecVarint(rest) == Some((0xFFFF_FFFA, 5));
  }

  lemma TagPart(num: nat, wire: nat, body: seq<byte>)
    requires num < 0x2000_0000 && wire < 8
    ensures var tag := EncVarint(num * 8 + wire);
            && DecVarint(tag + body) == Some((num * 8 + wire, |tag|)) && (tag + body)[|tag|..] == body
            && (num * 8 + wire) / 8 == num && (num * 8 + wire) % 8 == wire
  {
    hide EncVarint, DecVarint;
    VarintRoundTrip(num * 8 + wire, body);
  }

  lemma VarintFieldRoundTrip(num: nat, v: uint32, rest: seq<byte>)
    requires num < 0x2000_0000
    ensures var s := EncField(Field(num, Varint(v)));
            DecField(s + rest) == Some((Field(num, Varint(v)), |s|))
  {
    hide EncVarint, DecVarint;
    var tag, body := EncVarint(num * 8 + 0), EncVarint(v);
    assert EncField(Field(num, Varint(v))) + rest == tag + (body + rest);
    TagPart(num, 0, body + rest);
    VarintRoundTrip(v, rest);
  }

  lemma DataFieldRoundTrip(num: nat, bytes: seq<byte>, rest: seq<byte>)
    requires num < 0x2000_0000 && |bytes| < 0x8000_0000
    ensures var s := EncField(Field(num, Data(bytes)));
            DecField(s + rest) == Some((Field(num, Data(bytes)), |s|))
  {
    hide EncVarint, DecVarint;
    var tag, len := EncVarint(num * 8 + 2), EncVarint(|bytes|);
    var body := len + (bytes + rest);
    assert EncField(Field(num, Data(bytes))) + rest == tag + body;
    TagPart(num, 2, body);
    VarintRoundTrip(|bytes|, bytes + rest);
    assert body[|len|..|len| + |bytes|] == bytes;
  }

  lemma FixedFieldRoundTrip(num: nat, w: uint32, rest: seq<byte>)
    requires num < 0x2000_0000
    ensures var s := EncField(Field(num, Fixed(w)));
            DecField(s + rest) == Some((Field(num, Fixed(w)), |s|))
  {
    hide EncVarint, DecVarint, ToLE, LoadWord;
    var tag, word := EncVarint(num * 8 + 5), ToLE(w, 4);
    assert EncField(Field(num, Fixed(w))) + rest == tag + (word + rest);
    TagPart(num, 5, word + rest);
    assert (word + rest)[..4] == word;
    WordRoundTrip(w);
  }

  /** decode_field consumes exactly what one encoder wrote, and gives back the field. */
  lemma FieldRoundTrip(f: Field, rest: seq<byte>)
    requires Encodable(f)
    ensures EncField(f) != [] && DecField(EncField(f) + rest) == Some((f, |EncField(f)|))
  {
    hide EncVarint, DecField;
    match f.value
    case Varint(v) => VarintFieldRoundTrip(f.num, v, rest);
    case Data(bytes) => DataFieldRoundTrip(f.num, bytes, rest);
    case Fixed(w) => FixedFieldRoundTrip(f.num, w, rest);
  }

  lemma WordRoundTrip(w: uint32)
    ensures LoadWord(ToLE(w, 4)) == w
  {
    hide ToLE, Load32, LE;
    Pow256Of4();
    ToLERoundTrip(w, 4);
    Load32IsLE(ToLE(w, 4), 0);
    assert ToLE(w, 4)[0..4] == ToLE(w, 4);
  }

  /** The fields decoded one after the other until the buffer ends or a field is malformed. */
  function Fields(buf: seq<byte>): seq<Field>
    decreases |buf|
  {
    match DecField(buf)
    case None => []
    case Some((f, n)) => [f] + Fields(buf[n..])
  }

  /** No field that the walk reaches has a length that leads back. */
  predicate Forward(buf: seq<byte>)
    decreases |buf|
  {
    match DecField(buf)
    case None => !LeadsBack(buf)
    case Some((_, n)) => Forward(buf[n..])
  }

  /** Then the walk of the code stands before each field of the specification in turn. */
  lemma {:induction false} WalkVisitsFields(buf: seq<byte>, k: nat)
    requires |buf| < 0x8000_0000 && Forward(buf) && k <= |Fields(buf)|
    ensures var r := PosAfter(buf, k);
            r.Some? && Fields(buf[r.value..]) == Fields(buf)[k..] && Forward(buf[r.value..])
  {
    hide DecField, Consumed, LeadsBack, Fields, Forward;
    if k == 0 {
      assert buf[0..] == buf;
    } else {
      WalkVisitsFields(buf, k - 1);
      var p := PosAfter(buf, k - 1).value;
      SomeField(buf[p..]);
      ConsumedIff(buf[p..]);
      var n := DecField(buf[p..]).value.1;
      assert buf[p..][n..] == buf[p + n..];
      assert Fields(buf)[k - 1..][1..] == Fields(buf)[k..];
    }
  }

  /** And it ends behind the last of them. */
  lemma WalkEndsBehindFields(buf: seq<byte>)
    requires |buf| < 0x8000_0000 && Forward(buf)
    ensures PosAfter(buf, |Fields(buf)|).Some? && PosAfter(buf, |Fields(buf)| + 1).None?
  {
    hide Fields, Forward, DecField, Consumed, LeadsBack;
    var n := |Fields(buf)|;
    WalkVisitsFields(buf, n);
    var rest := buf[PosAfter(buf, n).value..];
    NoFields(rest);
    ConsumedIff(rest);
  }

  lemma SomeField(buf: seq<byte>)
    requires Fields(buf) != [] && Forward(buf)
    ensures DecField(buf).Some?
    ensures Fields(buf)[1..] == Fields(buf[DecField(buf).value.1..]) && Forward(buf[DecField(buf).value.1..])
  {
    hide DecField, LeadsBack;
  }

  lemma NoFields(buf: seq<byte>)
    requires Fields(buf) == [] && Forward(buf)
    ensures DecField(buf).None? && !LeadsBack(buf)
  {
    hide DecField, LeadsBack;
  }

  function EncFields(fs: seq<Field>): seq<byte>
    requires forall i :: 0 <= i < |fs| ==> Encodable(fs[i])
  {
    if fs == [] then [] else EncField(fs[0]) + EncFields(fs[1..])
  }

  /** Walking a sequence of encoded fields gives the fields. */
  lemma {:induction false} FieldsRoundTrip(fs: seq<Field>)
    requires forall i :: 0 <= i < |fs| ==> Encodable(fs[i])
    ensures Fields(EncFields(fs)) == fs
  {
    if fs == [] {
      assert DecField([]) == None;
    } else {
      hide EncField, DecField;
      FieldRoundTrip(fs[0], EncFields(fs[1..]));
      assert EncFields(fs)[|EncField(fs[0])|..] == EncFields(fs[1..]);
      FieldsRoundTrip(fs[1..]);
    }
  }

  /////////////////////////////////////////////////////////////////////////////
  // Encoders
  /////////////////////////////////////////////////////////////////////////////

  /** The number a 32-bit tag keeps of a field number: shifting left by 3 drops its top three bits. */
  function Kept(num: uint32): (r: nat)
    ensures r < 0x2000_0000 && (num < 0x2000_0000 ==> r == num)
  {
    num % 0x2000_0000
  }

  method EncodeTag(num: uint32, wire: nat) returns (out: seq<byte>)
    requires wire < 8
    ensures out == EncVarint(Kept(num) * 8 + wire)
  {
    var shifted := (8 * num as int) % TWO32;
    assert shifted == Kept(num) * 8;
    out := EncodeVarint(shifted + wire);   // the three low bits are free, so "or" is "plus"
  }

  method EncodeFixed32(num: uint32, value: uint32) returns (out: seq<byte>)
    ensures out == EncField(Field(Kept(num), Fixed(value)))
  {
    hide EncVarint, Kept;
    out := EncodeTag(num, 5);
    out := out + ToLE(value, 4);
  }

  method EncodeVarintField(num: uint32, value: uint32) returns (out: seq<byte>)
    ensures out == EncField(Field(Kept(num), Varint(value)))
  {
    hide EncVarint, Kept;
    out := EncodeTag(num, 0);
    var v := EncodeVarint(value);
    out := out + v;
  }

  method EncodeBytesField(num: uint32, data: seq<byte>) returns (out: seq<byte>)
    requires |data| < 0x8000_0000
    ensures out == EncField(Field(Kept(num), Data(data)))
  {
    hide EncVarint, Kept;
    out := EncodeTag(num, 2);
    var len := EncodeVarint(|data|);
    assert out + len + data == out + (len + data);
    out := out + len + data;
  }

  lemma {:induction false} EncFieldsSnoc(fs: seq<Field>, f: Field)
    requires (forall i :: 0 <= i < |fs| ==> Encodable(fs[i])) && Encodable(f)
    ensures EncFields(fs + [f]) == EncFields(fs) + EncField(f)
  {
    hide EncField;
    if fs == [] {
      assert fs + [f] == [f];
      assert EncFields([f]) == EncField(f) + EncFields([]) by { assert [f][1..] == []; }
    } else {
      assert (fs + [f])[1..] == fs[1..] + [f];
      EncFieldsSnoc(fs[1..], f);
    }
  }

  const TEXT_APP: uint32 := 1

  function DataFields(port: uint32, payload: seq<byte>): (fs: seq<Field>)
    requires |payload| < 0x4000_0000
    ensures forall i :: 0 <= i < |fs| ==> Encodable(fs[i])
  {
    [Field(1, Varint(port)), Field(2, Data(payload))]
  }

  method EncodeData(port: uint32, payload: seq<byte>) returns (out: seq<byte>)
    requires |payload| < 0x4000_0000
    ensures out == EncFields(DataFields(port, payload))
    ensures |out| <= |payload| + 20
  {
    hide EncField;
    var f1 := EncodeVarintField(1, port);
    var f2 := EncodeBytesField(2, payload);
    var fs := DataFields(port, payload);
    EncFieldsSnoc([], fs[0]);
    EncFieldsSnoc([fs[0]], fs[1]);
    assert [] + [fs[0]] == [fs[0]] && [fs[0]] + [fs[1]] == fs;
    out := f1 + f2;
    FieldSizes(fs[0]);
    FieldSizes(fs[1]);
  }

  /** No field is more than ten bytes longer than its data. */
  lemma FieldSizes(f: Field)
    requires Encodable(f)
    ensures |EncField(f)| <= 10 + if f.value.Data? then |f.value.bytes| else 0
  {
    hide EncVarint, ToLE;
    VarintSize(f.num * 8 + WireType(f.value));
    match f.value
    case Varint(v) => VarintSize(v);
    case Data(bytes) => VarintSize(|bytes|);
    case Fixed(w) =>
  }

  lemma VarintSize(v: uint32)
    ensures |EncVarint(v)| <= 5
  {
    VarintRoundTrip(v, []);
    assert EncVarint(v) + [] == EncVarint(v);
    hide EncVarint;
  }

  /** The fields of a mesh packet; from and channel are left out when zero. */
  function PacketFields(from: uint32, to: uint32, id: uint32, channel: byte, hopLimit: byte, data: seq<byte>)
    : (fs: seq<Field>)
    requires |data| < 0x8000_0000
    ensures forall i :: 0 <= i < |fs| ==> Encodable(fs[i])
  {
    (if from != 0 then [Field(1, Fixed(from))] else []) + [Field(2, Fixed(to))] +
    (if channel != 0 then [Field(3, Varint(channel))] else []) +
    [Field(4, Data(data)), Field(6, Fixed(id)), Field(9, Varint(hopLimit))]
  }

  method EncodeMeshPacket(from: uint32, to: uint32, id: uint32, channel: byte, hopLimit: byte, data: seq<byte>)
    returns (out: seq<byte>)
    requires |data| < 0x8000_0000
    ensures out == EncFields(PacketFields(from, to, id, channel, hopLimit, data))
  {
    hide EncField, EncFields, HeadFields, TailFields;
    out := EncodeHead(from, to, channel);
    var tail := EncodeTail(id, hopLimit, data);
    HeadAndTail(from, to, id, channel, hopLimit, data);
    EncFieldsAppend(HeadFields(from, to, channel), TailFields(id, hopLimit, data));
    out := out + tail;
  }

  lemma HeadAndTail(from: uint32, to: uint32, id: uint32, channel: byte, hopLimit: byte, data: seq<byte>)
    requires |data| < 0x8000_0000
    ensures PacketFields(from, to, id, channel, hopLimit, data)
         == HeadFields(from, to, channel) + TailFields(id, hopLimit, data)
  {
  }

  /** from, to and channel. */
  method EncodeHead(from: uint32, to: uint32, channel: byte) returns (out: seq<byte>)
    ensures out == EncFields(HeadFields(from, to, channel))
  {
    EncNoFields();
    hide EncField, EncFields;
    ghost var fs: seq<Field> := [];
    out := [];
    var f;
    if from != 0 {
      f := EncodeFixed32(1, from);
      out, fs := Add(out, fs, Field(1, Fixed(from)), f);
    }
    f := EncodeFixed32(2, to);
    out, fs := Add(out, fs, Field(2, Fixed(to)), f);
    if channel != 0 {
      f := EncodeVarintField(3, channel);
      out, fs := Add(out, fs, Field(3, Varint(channel)), f);
    }
    assert fs == HeadFields(from, to, channel);
  }

  /** The data, the id and the hop limit. */
  method EncodeTail(id: uint32, hopLimit: byte, data: seq<byte>) returns (out: seq<byte>)
    requires |data| < 0x8000_0000
    ensures out == EncFields(TailFields(id, hopLimit, data))
  {
    EncNoFields();
    hide EncField, EncFields;
    ghost var fs: seq<Field> := [];
    out := [];
    var f := EncodeBytesField(4, data);
    out, fs := Add(out, fs, Field(4, Data(data)), f);
    f := EncodeFixed32(6, id);
    out, fs := Add(out, fs, Field(6, Fixed(id)), f);
    f := EncodeVarintField(9, hopLimit);
    out, fs := Add(out, fs, Field(9, Varint(hopLimit)), f);
    assert fs == TailFields(id, hopLimit, data);
  }

  /** The packet byte by byte: every field behind its tag. */
  lemma PacketOnTheWire(from: uint32, to: uint32, id: uint32, channel: byte, hopLimit: byte, data: seq<byte>)
    requires |data| < 0x8000_0000
    ensures EncFields(PacketFields(from, to, id, channel, hopLimit, data))
         == ((if from != 0 then [0x0D] + ToLE(from, 4) else []) + ([0x15] + ToLE(to, 4))
             + (if channel != 0 then [0x18] + EncVarint(channel) else []))
            + (([0x22] + (EncVarint(|data|) + data)) + ([0x35] + ToLE(id, 4)) + ([0x48] + EncVarint(hopLimit)))
  {
    var h, t := HeadFields(from, to, channel), TailFields(id, hopLimit, data);
    HeadOnTheWire(from, to, channel);
    TailOnTheWire(id, hopLimit, data);
    hide EncField, EncFields, EncVarint, ToLE, HeadFields, TailFields;
    HeadAndTail(from, to, id, channel, hopLimit, data);
    EncFieldsAppend(h, t);
  }

  function HeadFields(from: uint32, to: uint32, channel: byte): (fs: seq<Field>)
    ensures forall i :: 0 <= i < |fs| ==> Encodable(fs[i])
  {
    (if from != 0 then [Field(1, Fixed(from))] else []) + [Field(2, Fixed(to))] +
    (if channel != 0 then [Field(3, Varint(channel))] else [])
  }

  function TailFields(id: uint32, hopLimit: byte, data: seq<byte>): (fs: seq<Field>)
    requires |data| < 0x8000_0000
    ensures forall i :: 0 <= i < |fs| ==> Encodable(fs[i])
  {
    [Field(4, Data(data)), Field(6, Fixed(id)), Field(9, Varint(hopLimit))]
  }

  lemma HeadOnTheWire(from: uint32, to: uint32, channel: byte)
    ensures EncFields(HeadFields(from, to, channel))
         == (if from != 0 then [0x0D] + ToLE(from, 4) else []) + ([0x15] + ToLE(to, 4))
            + (if channel != 0 then [0x18] + EncVarint(channel) else [])
  {
    var a := if from != 0 then [Field(1, Fixed(from))] else [];
    var b := [Field(2, Fixed(to))];
    var c := if channel != 0 then [Field(3, Varint(channel))] else [];
    FixedOnWire(1, from);
    FixedOnWire(2, to);
    VarintOnWire(3, channel);
    EncNoFields();
    hide EncField, EncFields, EncVarint, ToLE, Encodable;
    EncFieldsAppend(a, b);
    EncFieldsAppend(a + b, c);
  }

  lemma TailOnTheWire(id: uint32, hopLimit: byte, data: seq<byte>)
    requires |data| < 0x8000_0000
    ensures EncFields(TailFields(id, hopLimit, data))
         == ([0x22] + (EncVarint(|data|) + data)) + ([0x35] + ToLE(id, 4)) + ([0x48] + EncVarint(hopLimit))
  {
    hide EncField, EncFields, EncVarint, ToLE, Encodable;
    var d, e, f := [Field(4, Data(data))], [Field(6, Fixed(id))], [Field(9, Varint(hopLimit))];
    DataOnWire(4, data);
    FixedOnWire(6, id);
    VarintOnWire(9, hopLimit);
    assert TailFields(id, hopLimit, data) == d + e + f;
    EncFieldsAppend(d, e);
    EncFieldsAppend(d + e, f);
  }

  lemma FixedOnWire(num: nat, w: uint32)
    requires num < 16
    ensures Encodable(Field(num, Fixed(w))) && EncFields([Field(num, Fixed(w))]) == [num * 8 + 5] + ToLE(w, 4)
  {
    OneByte(num * 8 + 5);
    hide EncFields, ToLE, EncVarint;
    SingleField(Field(num, Fixed(w)));
  }

  lemma VarintOnWire(num: nat, v: uint32)
    requires num < 16
    ensures Encodable(Field(num, Varint(v))) && EncFields([Field(num, Varint(v))]) == [num * 8 + 0] + EncVarint(v)
  {
    OneByte(num * 8 + 0);
    hide EncFields, ToLE, EncVarint;
    SingleField(Field(num, Varint(v)));
  }

  lemma DataOnWire(num: nat, bytes: seq<byte>)
    requires num < 16 && |bytes| < 0x8000_0000
    ensures Encodable(Field(num, Data(bytes)))
    ensures EncFields([Field(num, Data(bytes))]) == [num * 8 + 2] + (EncVarint(|bytes|) + bytes)
  {
    OneByte(num * 8 + 2);
    DataParts(num, bytes);
    hide EncFields, EncVarint, EncField;
    SingleField(Field(num, Data(bytes)));
  }

  lemma DataParts(num: nat, bytes: seq<byte>)
    requires num < 16 && |bytes| < 0x8000_0000
    ensures EncField(Field(num, Data(bytes))) == EncVarint(num * 8 + 2) + (EncVarint(|bytes|) + bytes)
  {
    hide EncVarint;
  }

  lemma SingleField(f: Field)
    requires Encodable(f)
    ensures EncFields([f]) == EncField(f)
  {
    hide EncField;
    assert [f][1..] == [];
    EncNoFields();
  }

  lemma OneByte(v: nat)
    requires v < 128
    ensures EncVarint(v) == [v]
  {
  }

  lemma {:induction false} EncFieldsAppend(a: seq<Field>, b: seq<Field>)
    requires (forall i :: 0 <= i < |a| ==> Encodable(a[i])) && forall i :: 0 <= i < |b| ==> Encodable(b[i])
    ensures EncFields(a + b) == EncFields(a) + EncFields(b)
  {
    hide EncField;
    if a == [] {
      assert a + b == b;
    } else {
      assert (a + b)[1..] == a[1..] + b;
      EncFieldsAppend(a[1..], b);
    }
  }

  lemma DataOnTheWire(port: uint32, payload: seq<byte>)
    requires |payload| < 0x4000_0000
    ensures EncFields(DataFields(port, payload)) == [0x08] + EncVarint(port) + ([0x12] + (EncVarint(|payload|) + payload))
    ensures ToRadio(payload) == [0x0A] + (EncVarint(|payload|) + payload)
  {
    hide EncField, EncFields, EncVarint, Encodable;
    VarintOnWire(1, port);
    DataOnWire(2, payload);
    DataOnWire(1, payload);
    assert DataFields(port, payload) == [Field(1, Varint(port))] + [Field(2, Data(payload))];
    EncFieldsAppend([Field(1, Varint(port))], [Field(2, Data(payload))]);
  }

  /** What the bridge writes to the radio: the packet as field 1. */
  function ToRadio(packet: seq<byte>): (r: seq<byte>)
    requires |packet| < 0x8000_0000
  {
    EncFields([Field(1, Data(packet))])
  }

  method EncodeToRadioPacket(packet: seq<byte>) returns (out: seq<byte>)
    requires |packet| < 0x8000_0000
    ensures out == ToRadio(packet)
  {
    out := EncodeBytesField(1, packet);
    hide EncField;
    var f := Field(1, Data(packet));
    EncFieldsSnoc([], f);
    assert [] + [f] == [f];
  }

  lemma EncNoFields()
    ensures EncFields([]) == []
  {
  }

  /** n += encode_...(buf + n, ...) */
  method Add(out: seq<byte>, ghost fs: seq<Field>, ghost f: Field, bytes: seq<byte>)
    returns (out': seq<byte>, ghost fs': seq<Field>)
    requires (forall i :: 0 <= i < |fs| ==> Encodable(fs[i])) && Encodable(f)
    requires out == EncFields(fs) && bytes == EncField(f)
    ensures fs' == fs + [f] && (forall i :: 0 <= i < |fs'| ==> Encodable(fs'[i])) && out' == EncFields(fs')
  {
    EncFieldsSnoc(fs, f);
    out', fs' := out + bytes, fs + [f];
  }

  /////////////////////////////////////////////////////////////////////////////
  // Parsing
  /////////////////////////////////////////////////////////////////////////////

  /** The last field of a number with a byte-string value; later fields overwrite earlier ones. */
  function LastData(fs: seq<Field>, num: nat): Option<seq<byte>> {
    if fs == [] then None
    else
      var f := fs[|fs| - 1];
      if f.num == num && f.value.Data? then Some(f.value.bytes) else LastData(fs[..|fs| - 1], num)
  }

  function LastFixed(fs: seq<Field>, num: nat): uint32 {
    if fs == [] then 0
    else
      var f := fs[|fs| - 1];
      if f.num == num && f.value.Fixed? then f.value.w else LastFixed(fs[..|fs| - 1], num)
  }

  function LastVarint(fs: seq<Field>, num: nat): uint32 {
    if fs == [] then 0
    else
      var f := fs[|fs| - 1];
      if f.num == num && f.value.Varint? then f.value.v else LastVarint(fs[..|fs| - 1], num)
  }

  datatype Message = Message(valid: bool, from: uint32, to: uint32, id: uint32, channel: byte, rxTime: uint32,
                             text: seq<byte>)

  function NoMessage(): Message {
    Message(false, 0, 0, 0, 0, 0, [])
  }

  /** The header fields of a mesh packet. */
  function Header(fs: seq<Field>): Message {
    Message(false, LastFixed(fs, 1), LastFixed(fs, 2), LastFixed(fs, 6), LastVarint(fs, 3) % 256, LastFixed(fs, 9), [])
  }

  /** parse_from_radio for text payloads; texts over 255 bytes are cut. */
  function ParseText(buf: seq<byte>): Message {
    match LastData(Fields(buf), 2)
    case None => NoMessage()
    case Some(packet) =>
      var fs := Fields(packet);
      match LastData(fs, 4)
      case None => Header(fs)
      case Some(data) =>
        var ds := Fields(data);
        var payload := LastData(ds, 2);
        if payload.None? || payload.value == [] || LastVarint(ds, 1) != TEXT_APP then Header(fs)
        else
          var text := payload.value;
          Header(fs).(valid := true, text := if |text| < 255 then text else text[..255])
  }

  method DecodeField(buf: seq<byte>) returns (r: Option<(Field, nat)>)
    ensures r == DecField(buf)
  {
    hide DecVarint, Load32;
    var tag := DecodeVarint(buf);
    if tag.None? {
      return None;
    }
    var num, pos := tag.value.0 / 8, tag.value.1;
    var rest := buf[pos..];
    match tag.value.0 % 8 {
      case 0 =>
        var v := DecodeVarint(rest);
        if v.None? { return None; }
        r := Some((Field(num, Varint(v.value.0 % TWO32)), pos + v.value.1));
      case 2 =>
        var len := DecodeVarint(rest);
        if len.None? { return None; }
        var (size, n) := len.value;
        if size >= 0x8000_0000 || n + size > |rest| { return None; }
        r := Some((Field(num, Data(rest[n..n + size])), pos + n + size));
      case 5 =>
        if |rest| < 4 { return None; }
        r := Some((Field(num, Fixed(LoadWord(rest[..4]))), pos + 4));
      case 1 =>
        if |rest| < 8 { return None; }
        r := Some((Field(num, Skipped), pos + 8));
      case _ =>
        r := None;
    }
  }

  lemma FieldsUnfold(buf: seq<byte>, pos: nat, seen: seq<Field>)
    requires pos <= |buf| && Fields(buf) == seen + Fields(buf[pos..])
    ensures match DecField(buf[pos..])
            case None => Fields(buf) == seen
            case Some((f, n)) => pos + n <= |buf| && Fields(buf) == (seen + [f]) + Fields(buf[pos + n..])
  {
    hide DecField;
    match DecField(buf[pos..])
    case None => assert Fields(buf[pos..]) == [];
    case Some((f, n)) =>
      assert buf[pos..][n..] == buf[pos + n..];
      assert Fields(buf[pos..]) == [f] + Fields(buf[pos + n..]);
  }

  /** The outermost walk: the last length-delimited field of a number. */
  method FindData(buf: seq<byte>, num: nat) returns (r: Option<seq<byte>>)
    ensures r == LastData(Fields(buf), num)
  {
    hide Fields, DecField;
    var pos := 0;
    r := None;
    ghost var seen: seq<Field> := [];
    assert buf[0..] == buf && seen + Fields(buf) == Fields(buf);
    while pos < |buf|
      invariant pos <= |buf| && Fields(buf) == seen + Fields(buf[pos..]) && r == LastData(seen, num)
    {
      FieldsUnfold(buf, pos, seen);
      var d := DecodeField(buf[pos..]);
      if d.None? {
        return;
      }
      var (f, n) := d.value;
      pos := pos + n;
      ghost var before := seen;
      seen := seen + [f];
      assert seen[..|seen| - 1] == before;
      if f.num == num && f.value.Data? {
        r := Some(f.value.bytes);
      }
    }
    NoFieldsLeft(buf[pos..]);
    assert Fields(buf) == seen;
  }

  lemma NoFieldsLeft(rest: seq<byte>)
    requires rest == []
    ensures Fields(rest) == []
  {
  }

  /** The walk over a mesh packet. */
  method ReadPacket(buf: seq<byte>) returns (m: Message, data: Option<seq<byte>>)
    ensures m == Header(Fields(buf)) && data == LastData(Fields(buf), 4)
  {
    hide Fields, DecField;
    var pos := 0;
    m, data := NoMessage(), None;
    ghost var seen: seq<Field> := [];
    assert buf[0..] == buf && seen + Fields(buf) == Fields(buf);
    while pos < |buf|
      invariant pos <= |buf| && Fields(buf) == seen + Fields(buf[pos..])
      invariant m == Header(seen) && data == LastData(seen, 4)
    {
      FieldsUnfold(buf, pos, seen);
      var d := DecodeField(buf[pos..]);
      if d.None? {
        return;
      }
      var (f, n) := d.value;
      pos := pos + n;
      ghost var before := seen;
      seen := seen + [f];
      assert seen[..|seen| - 1] == before;
      match f.num {
        case 1 => if f.value.Fixed? { m := m.(from := f.value.w); }
        case 2 => if f.value.Fixed? { m := m.(to := f.value.w); }
        case 3 => if f.value.Varint? { m := m.(channel := f.value.v % 256); }
        case 4 => if f.value.Data? { data := Some(f.value.bytes); }
        case 6 => if f.value.Fixed? { m := m.(id := f.value.w); }
        case 9 => if f.value.Fixed? { m := m.(rxTime := f.value.w); }
        case _ =>
      }
    }
    NoFieldsLeft(buf[pos..]);
    assert Fields(buf) == seen;
  }

  /** The walk over a data submessage. */
  method ReadData(buf: seq<byte>) returns (port: uint32, payload: Option<seq<byte>>)
    ensures port == LastVarint(Fields(buf), 1) && payload == LastData(Fields(buf), 2)
  {
    hide Fields, DecField;
    var pos := 0;
    port, payload := 0, None;
    ghost var seen: seq<Field> := [];
    assert buf[0..] == buf && seen + Fields(buf) == Fields(buf);
    while pos < |buf|
      invariant pos <= |buf| && Fields(buf) == seen + Fields(buf[pos..])
      invariant port == LastVarint(seen, 1) && payload == LastData(seen, 2)
    {
      FieldsUnfold(buf, pos, seen);
      var d := DecodeField(buf[pos..]);
      if d.None? {
        return;
      }
      var (f, n) := d.value;
      pos := pos + n;
      ghost var before := seen;
      seen := seen + [f];
      assert seen[..|seen| - 1] == before;
      match f.num {
        case 1 => if f.value.Varint? { port := f.value.v; }
        case 2 => if f.value.Data? { payload := Some(f.value.bytes); }
        case _ =>
      }
    }
    NoFieldsLeft(buf[pos..]);
    assert Fields(buf) == seen;
  }

  method ParseFromRadio(buf: seq<byte>) returns (m: Message)
    ensures m == ParseText(buf)
  {
    hide Fields, LastData, LastVarint, Header;
    var packet := FindData(buf, 2);
    if packet.None? {
      return NoMessage();
    }
    var data;
    m, data := ReadPacket(packet.value);
    if data.None? {
      return;
    }
    var port, payload := ReadData(data.value);
    if payload.None? || |payload.value| == 0 {
      return;
    }
    if port == TEXT_APP {
      var copyLen := if |payload.value| < 255 then |payload.value| else 255;
      assert |payload.value| < 255 ==> payload.value[..copyLen] == payload.value;
      m := m.(text := payload.value[..copyLen], valid := true);
    }
  }

  /////////////////////////////////////////////////////////////////////////////
  // The nested round trip
  /////////////////////////////////////////////////////////////////////////////

  /** The Data submessage of a text. */
  function DataBytes(text: seq<byte>): (r: seq<byte>)
    requires |text| < 0x2000_0000
    ensures |r| <= |text| + 20
  {
    DataOn(TEXT_APP, text)
  }

  /** The Data submessage of a payload for any port. */
  function DataOn(port: uint32, payload: seq<byte>): (r: seq<byte>)
    requires |payload| < 0x2000_0000
    ensures |r| <= |payload| + 20
  {
    TextSize(port, payload);
    EncFields(DataFields(port, payload))
  }

  lemma TextSize(port: uint32, text: seq<byte>)
    requires |text| < 0x2000_0000
    ensures |EncFields(DataFields(port, text))| <= |text| + 20
  {
    var ds := DataFields(port, text);
    assert ds == [ds[0]] + [ds[1]];
    DataSizeAppend([ds[0]], [ds[1]]);
    NoDataSize([ds[0]]);
    assert DataSize([ds[1]]) == |text| by { assert [ds[1]][1..] == []; }
    hide EncFields;
    FieldsSize(ds);
  }

  /** No sequence of fields is more than ten bytes per field longer than its data. */
  lemma {:induction false} FieldsSize(fs: seq<Field>)
    requires forall i :: 0 <= i < |fs| ==> Encodable(fs[i])
    ensures |EncFields(fs)| <= 10 * |fs| + DataSize(fs)
  {
    hide EncField;
    if fs != [] {
      FieldSizes(fs[0]);
      FieldsSize(fs[1..]);
    }
  }

  function DataSize(fs: seq<Field>): nat {
    if fs == [] then 0 else (if fs[0].value.Data? then |fs[0].value.bytes| else 0) + DataSize(fs[1..])
  }

  lemma {:induction false} DataSizeAppend(a: seq<Field>, b: seq<Field>)
    ensures DataSize(a + b) == DataSize(a) + DataSize(b)
  {
    if a == [] {
      assert a + b == b;
    } else {
      assert (a + b)[1..] == a[1..] + b;
      DataSizeAppend(a[1..], b);
    }
  }

  /** The mesh packet around a Data submessage. */
  function PacketBytes(from: uint32, to: uint32, id: uint32, channel: byte, hopLimit: byte, data: seq<byte>)
    : (r: seq<byte>)
    requires |data| < 0x3000_0000
    ensures |r| <= |data| + 60
  {
    PacketSize(from, to, id, channel, hopLimit, data);
    EncFields(PacketFields(from, to, id, channel, hopLimit, data))
  }

  lemma PacketSize(from: uint32, to: uint32, id: uint32, channel: byte, hopLimit: byte, data: seq<byte>)
    requires |data| < 0x3000_0000
    ensures |EncFields(PacketFields(from, to, id, channel, hopLimit, data))| <= |data| + 60
  {
    var a := (if from != 0 then [Field(1, Fixed(from))] else []) + [Field(2, Fixed(to))] +
             (if channel != 0 then [Field(3, Varint(channel))] else []);
    var b := [Field(4, Data(data)), Field(6, Fixed(id)), Field(9, Varint(hopLimit))];
    var fs := PacketFields(from, to, id, channel, hopLimit, data);
    assert fs == a + b;
    DataSizeAppend(a, b);
    NoDataSize(a);
    assert b == [b[0]] + [b[1], b[2]];
    DataSizeAppend([b[0]], [b[1], b[2]]);
    NoDataSize([b[1], b[2]]);
    assert DataSize([b[0]]) == |data| by { assert [b[0]][1..] == []; }
    hide EncFields;
    FieldsSize(fs);
  }

  lemma {:induction false} NoDataSize(fs: seq<Field>)
    requires forall i :: 0 <= i < |fs| ==> !fs[i].value.Data?
    ensures DataSize(fs) == 0
  {
    if fs != [] {
      NoDataSize(fs[1..]);
    }
  }

  /** A text inside Data inside MeshPacket inside field 2 of the envelope. */
  function Envelope(from: uint32, to: uint32, id: uint32, channel: byte, hopLimit: byte, text: seq<byte>): seq<byte>
    requires |text| < 0x2000_0000
  {
    EnvelopeOn(TEXT_APP, from, to, id, channel, hopLimit, text)
  }

  function EnvelopeOn(port: uint32, from: uint32, to: uint32, id: uint32, channel: byte, hopLimit: byte,
                      payload: seq<byte>): seq<byte>
    requires |payload| < 0x2000_0000
  {
    EncFields([Field(2, Data(PacketBytes(from, to, id, channel, hopLimit, DataOn(port, payload))))])
  }

  /** The header values come back exactly; the varint hop limit in field 9 is not taken for the fixed32 rx_time. */
  lemma PacketRoundTrip(from: uint32, to: uint32, id: uint32, channel: byte, hopLimit: byte, data: seq<byte>)
    requires |data| < 0x8000_0000
    ensures var fs := PacketFields(from, to, id, channel, hopLimit, data);
            Header(fs) == Message(false, from, to, id, channel, 0, []) && LastData(fs, 4) == Some(data)
  {
    hide LastFixed, LastVarint, LastData;
    var none: seq<Field> := [];
    Nothing();
    var p1 := if from != 0 then none + [Field(1, Fixed(from))] else none;
    Snoc(none, Field(1, Fixed(from)));
    var p2 := p1 + [Field(2, Fixed(to))];
    Snoc(p1, Field(2, Fixed(to)));
    var p3 := if channel != 0 then p2 + [Field(3, Varint(channel))] else p2;
    Snoc(p2, Field(3, Varint(channel)));
    Snoc(p3, Field(4, Data(data)));
    Snoc(p3 + [Field(4, Data(data))], Field(6, Fixed(id)));
    Snoc(p3 + [Field(4, Data(data))] + [Field(6, Fixed(id))], Field(9, Varint(hopLimit)));
    assert PacketFields(from, to, id, channel, hopLimit, data)
        == p3 + [Field(4, Data(data))] + [Field(6, Fixed(id))] + [Field(9, Varint(hopLimit))];
  }

  lemma Nothing()
    ensures forall num: nat :: LastFixed([], num) == 0 && LastVarint([], num) == 0 && LastData([], num) == None
  {
  }

  /** One more field overwrites the value of its own number and kind only. */
  lemma Snoc(p: seq<Field>, f: Field)
    ensures forall num: nat :: LastFixed(p + [f], num) == if f.num == num && f.value.Fixed? then f.value.w else LastFixed(p, num)
    ensures forall num: nat :: LastVarint(p + [f], num) == if f.num == num && f.value.Varint? then f.value.v else LastVarint(p, num)
    ensures forall num: nat :: LastData(p + [f], num) == if f.num == num && f.value.Data? then Some(f.value.bytes) else LastData(p, num)
  {
    assert (p + [f])[..|p|] == p;
  }

  /** Encoding any text of at least one byte and parsing the envelope returns the values and the text, cut at 255 bytes. */
  lemma TextRoundTrip(from: uint32, to: uint32, id: uint32, channel: byte, hopLimit: byte, text: seq<byte>)
    requires 0 < |text| < 0x2000_0000
    ensures ParseText(Envelope(from, to, id, channel, hopLimit, text))
         == Message(true, from, to, id, channel, 0, if |text| < 255 then text else text[..255])
  {
    hide ParseText, EnvelopeOn;
    PortRoundTrip(1, from, to, id, channel, hopLimit, text);
  }

  /** For every port and payload the header values come back, and the payload is taken for a text exactly when the port is
      1 and it is not empty. */
  lemma PortRoundTrip(port: uint32, from: uint32, to: uint32, id: uint32, channel: byte, hopLimit: byte,
                      payload: seq<byte>)
    requires |payload| < 0x2000_0000
    ensures ParseText(EnvelopeOn(port, from, to, id, channel, hopLimit, payload))
         == if port == 1 && payload != []
            then Message(true, from, to, id, channel, 0, if |payload| < 255 then payload else payload[..255])
            else Message(false, from, to, id, channel, 0, [])
  {
    hide EncFields, Fields, Header, LastData, LastVarint;
    var ds := DataFields(port, payload);
    var data := DataOn(port, payload);
    var fs := PacketFields(from, to, id, channel, hopLimit, data);
    var packet := PacketBytes(from, to, id, channel, hopLimit, data);
    FieldsRoundTrip(ds);
    FieldsRoundTrip(fs);
    FieldsRoundTrip([Field(2, Data(packet))]);
    OnlyData(packet);
    PacketRoundTrip(from, to, id, channel, hopLimit, data);
    TextFields(port, payload);
  }

  lemma OnlyData(packet: seq<byte>)
    ensures LastData([Field(2, Data(packet))], 2) == Some(packet)
    ensures LastData([Field(1, Data(packet))], 1) == Some(packet) && LastData([Field(1, Data(packet))], 2) == None
  {
  }

  /** The form written to the radio carries its packet in field 1, and the parser of the radio's own stream, which looks
      for field 2, sees no message in it. */
  lemma ToRadioFields(packet: seq<byte>)
    requires |packet| < 0x8000_0000
    ensures LastData(Fields(ToRadio(packet)), 1) == Some(packet) && ParseText(ToRadio(packet)) == NoMessage()
  {
    hide EncFields, Fields, LastData;
    FieldsRoundTrip([Field(1, Data(packet))]);
    OnlyData(packet);
  }

  /** Putting the sender's number in front of a packet that has none gives the packet with that sender. */
  lemma FromInFront(from: uint32, to: uint32, id: uint32, channel: byte, hopLimit: byte, data: seq<byte>)
    requires from != 0 && |data| < 0x3000_0000
    ensures EncField(Field(1, Fixed(from))) + PacketBytes(0, to, id, channel, hopLimit, data)
         == PacketBytes(from, to, id, channel, hopLimit, data)
  {
    hide EncField;
    var fs, rest := PacketFields(from, to, id, channel, hopLimit, data), PacketFields(0, to, id, channel, hopLimit, data);
    assert fs[0] == Field(1, Fixed(from)) && fs[1..] == rest;
  }

  lemma TextFields(port: uint32, text: seq<byte>)
    requires |text| < 0x4000_0000
    ensures LastData(DataFields(port, text), 2) == Some(text) && LastVarint(DataFields(port, text), 1) == port
  {
    hide LastVarint, LastData;
    var none: seq<Field> := [];
    var ds := DataFields(port, text);
    assert ds == (none + [ds[0]]) + [ds[1]];
    Snoc(none, ds[0]);
    Snoc(none + [ds[0]], ds[1]);
  }
}
