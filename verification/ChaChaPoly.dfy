/** The ChaCha20-Poly1305 AEAD as a streaming context over the two primitives. */
module ChaChaPoly {
  import opened Bytes
  import opened Wrappers
  import Bits
  import ChaCha20
  import Poly1305

  type Key = k: seq<byte> | |k| == 32 witness Zeros(32)
  type Nonce = n: seq<byte> | |n| == 12 witness Zeros(12)

  /////////////////////////////////////////////////////////////////////////////
  // Specification: section 2.8 of RFC 8439
  /////////////////////////////////////////////////////////////////////////////

  function PolyKey(key: Key, nonce: Nonce): (k: seq<byte>)
    ensures |k| == 32
  {
    ChaCha20.Block(ChaCha20.InitialState(key, nonce, 0))[..32]
  }

  function Pad16(x: seq<byte>): (z: seq<byte>) {
    Zeros((16 - |x| % 16) % 16)
  }

  /** Padding is zeros, fewer than sixteen, up to the next multiple of sixteen. */
  lemma PadIsZeros(x: seq<byte>)
    ensures |Pad16(x)| < 16 && |x + Pad16(x)| % 16 == 0
    ensures forall i :: 0 <= i < |Pad16(x)| ==> Pad16(x)[i] == 0
  {
  }

  /** The next multiple of sixteen. */
  function Up16(n: nat): (r: nat)
    ensures n <= r < n + 16 && r % 16 == 0
  {
    (n + 15) / 16 * 16
  }

  /**
   * The data authenticated by section 2.8 of RFC 8439, byte by byte: the additional data, zeros up to a multiple of
   * sixteen, the ciphertext, zeros up to a multiple of sixteen, and the two lengths as 64-bit little-endian numbers.
   */
  ghost predicate Authenticated(d: seq<byte>, aad: seq<byte>, ciphertext: seq<byte>) {
    var a := Up16(|aad|);
    var c := a + Up16(|ciphertext|);
    && |d| == c + 16
    && d[..|aad|] == aad && (forall i :: |aad| <= i < a ==> d[i] == 0)
    && d[a..a + |ciphertext|] == ciphertext && (forall i :: a + |ciphertext| <= i < c ==> d[i] == 0)
    && LE(d[c..c + 8]) == |aad| % TWO64 && LE(d[c + 8..]) == |ciphertext| % TWO64
  }

  lemma MacDataIsAuthenticated(aad: seq<byte>, ciphertext: seq<byte>)
    ensures Authenticated(MacData(aad, ciphertext), aad, ciphertext)
  {
    PadLength(aad);
    PadLength(ciphertext);
    PadIsZeros(aad);
    PadIsZeros(ciphertext);
    LengthRead(|aad|);
    LengthRead(|ciphertext|);
    hide Pad16, ToLE, LE, Up16;
    FiveParts(aad, Pad16(aad), ciphertext, Pad16(ciphertext), ToLE(|aad|, 8), ToLE(|ciphertext|, 8), MacData(aad, ciphertext));
  }

  lemma FiveParts(a: seq<byte>, p: seq<byte>, c: seq<byte>, q: seq<byte>, l: seq<byte>, m: seq<byte>, d: seq<byte>)
    requires d == a + p + c + q + (l + m) && |l| == 8 && |m| == 8
    requires forall i :: 0 <= i < |p| ==> p[i] == 0
    requires forall i :: 0 <= i < |q| ==> q[i] == 0
    ensures var s, t := |a| + |p|, |a| + |p| + |c| + |q|;
            && |d| == t + 16 && d[..|a|] == a && d[s..s + |c|] == c && d[t..t + 8] == l && d[t + 8..] == m
            && (forall i :: |a| <= i < s ==> d[i] == 0) && (forall i :: s + |c| <= i < t ==> d[i] == 0)
  {
    var s, t := |a| + |p|, |a| + |p| + |c| + |q|;
    assert d[|a|..s] == p && d[s + |c|..t] == q;
    assert forall i :: |a| <= i < s ==> d[i] == d[|a|..s][i - |a|];
    assert forall i :: s + |c| <= i < t ==> d[i] == d[s + |c|..t][i - (s + |c|)];
  }

  lemma PadLength(x: seq<byte>)
    ensures |x| + |Pad16(x)| == Up16(|x|)
  {
  }

  lemma LengthRead(n: nat)
    ensures LE(ToLE(n, 8)) == n % TWO64
  {
    hide ToLE, LE;
    Pow256Of4();
    Pow256Add(4, 4);
    LengthMod(n, 8);
    ToLERoundTrip(n % TWO64, 8);
  }

  /** Nothing else is: those bytes determine the data. */
  lemma AuthenticatedUnique(d: seq<byte>, e: seq<byte>, aad: seq<byte>, ciphertext: seq<byte>)
    requires Authenticated(d, aad, ciphertext) && Authenticated(e, aad, ciphertext)
    ensures d == e
  {
    var a := Up16(|aad|);
    var c := a + Up16(|ciphertext|);
    hide LE, Up16;
    LEInjective(d[c..c + 8], e[c..c + 8]);
    LEInjective(d[c + 8..], e[c + 8..]);
    forall i | 0 <= i < |d|
      ensures d[i] == e[i]
    {
      if i < |aad| {
        assert d[i] == d[..|aad|][i] && e[i] == e[..|aad|][i];
      } else if a <= i < a + |ciphertext| {
        assert d[i] == d[a..a + |ciphertext|][i - a] && e[i] == e[a..a + |ciphertext|][i - a];
      } else if c <= i < c + 8 {
        assert d[i] == d[c..c + 8][i - c] && e[i] == e[c..c + 8][i - c];
      } else if c + 8 <= i {
        assert d[i] == d[c + 8..][i - c - 8] && e[i] == e[c + 8..][i - c - 8];
      }
    }
  }

  /** Both lengths as 64-bit numbers. */
  function Lengths(aad: seq<byte>, ciphertext: seq<byte>): (r: seq<byte>)
    ensures |r| == 16
  {
    ToLE(|aad|, 8) + ToLE(|ciphertext|, 8)
  }

  function MacData(aad: seq<byte>, ciphertext: seq<byte>): (r: seq<byte>) {
    aad + Pad16(aad) + ciphertext + Pad16(ciphertext) + Lengths(aad, ciphertext)
  }

  /** The text is crypted with block counters from 1 on. */
  function CryptText(key: Key, nonce: Nonce, text: seq<byte>): (out: seq<byte>)
    ensures |out| == |text|
  {
    ChaCha20.Crypt(ChaCha20.InitialState(key, nonce, 1), 0, text)
  }

  function SealTag(key: Key, nonce: Nonce, aad: seq<byte>, ciphertext: seq<byte>): (tag: seq<byte>)
    ensures |tag| == 16
  {
    Poly1305.Tag(PolyKey(key, nonce), MacData(aad, ciphertext))
  }

  /** Ciphertext and tag of a plaintext. */
  function Seal(key: Key, nonce: Nonce, aad: seq<byte>, plaintext: seq<byte>): (r: (seq<byte>, seq<byte>))
    ensures |r.0| == |plaintext| && |r.1| == 16
  {
    var ciphertext := CryptText(key, nonce, plaintext);
    (ciphertext, SealTag(key, nonce, aad, ciphertext))
  }

  /** The plaintext, if the tag is the right one. */
  function Open(key: Key, nonce: Nonce, aad: seq<byte>, ciphertext: seq<byte>, tag: seq<byte>)
    : (r: Option<seq<byte>>)
  {
    if tag == SealTag(key, nonce, aad, ciphertext) then Some(CryptText(key, nonce, ciphertext)) else None
  }

  /** A ciphertext and tag open to a plaintext exactly when sealing that plaintext gives them. */
  lemma OpenIffSealed(key: Key, nonce: Nonce, aad: seq<byte>, plaintext: seq<byte>,
                      ciphertext: seq<byte>, tag: seq<byte>)
    ensures Open(key, nonce, aad, ciphertext, tag) == Some(plaintext)
       <==> Seal(key, nonce, aad, plaintext) == (ciphertext, tag)
  {
    hide SealTag, ChaCha20.Crypt;
    var s := ChaCha20.InitialState(key, nonce, 1);
    ChaCha20.CryptInvolution(s, 0, plaintext);
    ChaCha20.CryptInvolution(s, 0, ciphertext);
  }

  /** Crypting from byte 64 of the stream that starts at counter 0 is crypting from counter 1. */
  lemma SecondBlockOn(key: Key, nonce: Nonce, pos: nat, text: seq<byte>)
    ensures ChaCha20.Crypt(ChaCha20.InitialState(key, nonce, 0), 64 + pos, text)
         == ChaCha20.Crypt(ChaCha20.InitialState(key, nonce, 1), pos, text)
  {
    hide ChaCha20.Xor8, ChaCha20.KeystreamByte;
    var s0, s1 := ChaCha20.InitialState(key, nonce, 0), ChaCha20.InitialState(key, nonce, 1);
    forall i | 0 <= i < |text|
      ensures ChaCha20.Crypt(s0, 64 + pos, text)[i] == ChaCha20.Crypt(s1, pos, text)[i]
    {
      KeystreamShift(key, nonce, pos + i);
    }
  }

  lemma KeystreamShift(key: Key, nonce: Nonce, i: nat)
    ensures ChaCha20.KeystreamByte(ChaCha20.InitialState(key, nonce, 0), 64 + i)
         == ChaCha20.KeystreamByte(ChaCha20.InitialState(key, nonce, 1), i)
  {
    hide ChaCha20.Block, Load32;
    var s0, s1 := ChaCha20.InitialState(key, nonce, 0), ChaCha20.InitialState(key, nonce, 1);
    assert ChaCha20.AtBlock(s0, 1 + i / 64) == ChaCha20.AtBlock(s1, i / 64);
  }

  /** Crypting zeros yields the keystream itself; its first half is the one-time Poly1305 key. */
  lemma PolyKeyFromZeros(key: Key, nonce: Nonce)
    ensures ChaCha20.Crypt(ChaCha20.InitialState(key, nonce, 0), 0, Zeros(64))[..32] == PolyKey(key, nonce)
  {
    hide ChaCha20.Xor8, ChaCha20.Block;
    var s := ChaCha20.InitialState(key, nonce, 0);
    assert ChaCha20.AtBlock(s, 0) == s;
    forall i | 0 <= i < 64
      ensures ChaCha20.Crypt(s, 0, Zeros(64))[i] == ChaCha20.Block(s)[i]
    {
      assert ChaCha20.KeystreamByte(s, i) == ChaCha20.Block(s)[i];
    }
  }

  /** The one-time key is what the cipher makes of thirty-two zero bytes at counter 0, and the text is crypted by the
      stream that goes on at counter 1. */
  lemma KeyThenText(key: Key, nonce: Nonce, text: seq<byte>)
    ensures PolyKey(key, nonce) == ChaCha20.Crypt(ChaCha20.InitialState(key, nonce, 0), 0, Zeros(32))
    ensures CryptText(key, nonce, text) == ChaCha20.Crypt(ChaCha20.InitialState(key, nonce, 0), 64, text)
  {
    hide ChaCha20.Crypt, ChaCha20.InitialState, PolyKey;
    SecondBlockOn(key, nonce, 0, text);
    PolyKeyFromZeros(key, nonce);
    HeadOfZeros(ChaCha20.InitialState(key, nonce, 0));
  }

  lemma HeadOfZeros(start: ChaCha20.State)
    ensures ChaCha20.Crypt(start, 0, Zeros(64))[..32] == ChaCha20.Crypt(start, 0, Zeros(32))
  {
    hide ChaCha20.Crypt;
    ChaCha20.CryptAppend(start, 0, Zeros(32), Zeros(32));
    assert Zeros(32) + Zeros(32) == Zeros(64);
  }

  /** A length kept modulo 2^64 is written like the length itself. */
  lemma {:induction false} LengthMod(v: nat, n: nat)
    ensures ToLE(v % Pow256(n), n) == ToLE(v, n)
  {
    if n > 0 {
      var m := Pow256(n - 1);
      LengthMod(v / 256, n - 1);
      ModStep(v, m);
    }
  }

  lemma ModStep(v: nat, m: nat)
    requires m > 0
    ensures (v % (256 * m)) % 256 == v % 256 && (v % (256 * m)) / 256 == (v / 256) % m
  {
    var q, r := (v / 256) / m, (v / 256) % m;
    assert v == (256 * m) * q + (256 * r + v % 256) by {
      assert v / 256 == m * q + r;
      assert 256 * (m * q) == (256 * m) * q;
    }
    Bits.DivModUnique(v, 256 * m, q, 256 * r + v % 256);
  }

  /////////////////////////////////////////////////////////////////////////////
  // The context
  /////////////////////////////////////////////////////////////////////////////

  datatype Phase = Init | Aad | Ciphertext | Finished
  datatype Mode = Encrypt | Decrypt

  datatype Status = Ok | BadState | AuthFailed

  /** What Poly1305 has absorbed before the length block. */
  function Absorbed(phase: Phase, aad: seq<byte>, ciphertext: seq<byte>): seq<byte> {
    if phase.Aad? then aad else aad + Pad16(aad) + ciphertext
  }

  lemma AbsorbMore(aad: seq<byte>, ciphertext: seq<byte>, more: seq<byte>)
    ensures Absorbed(Ciphertext, aad, ciphertext) + more == Absorbed(Ciphertext, aad, ciphertext + more)
  {
  }

  class Context {
    const chacha: ChaCha20.Context
    const poly: Poly1305.Context
    var aadLen: uint64
    var ciphertextLen: uint64
    var phase: Phase
    var mode: Mode

    ghost var key: Key
    ghost var nonce: Nonce
    ghost var aad: seq<byte>          // given to UpdateAad since Starts
    ghost var ciphertext: seq<byte>   // produced or consumed by Update since Starts

    ghost function Repr(): set<object> {
      {this, chacha, chacha.state, chacha.keystream8, poly, poly.queue}
    }

    ghost predicate Shaped()
      reads this, chacha, chacha.state
    {
      && chacha.Shaped() && poly.queue.Length == 16
      && chacha.keystream8 != poly.queue
      && chacha.state as object != poly.queue && chacha.state as object != chacha.keystream8
      && chacha.state[..12] == ChaCha20.InitialState(key, Zeros(12), 0)[..12]
    }

    ghost predicate Valid()
      reads Repr()
    {
      && Shaped()
      && (phase.Aad? || phase.Ciphertext? ==>
            && chacha.Valid() && chacha.start == ChaCha20.InitialState(key, nonce, 0)
            && chacha.pos == 64 + |ciphertext|
            && poly.Valid() && poly.key == PolyKey(key, nonce)
            && poly.absorbed == Absorbed(phase, aad, ciphertext)
            && aadLen == |aad| % TWO64 && ciphertextLen == |ciphertext| % TWO64
            && (phase.Aad? ==> ciphertext == []))
      && (phase.Finished? ==>
            && poly.Valid() && poly.key == PolyKey(key, nonce) && |poly.absorbed| % 16 == 0
            && aadLen == |aad| % TWO64 && ciphertextLen == |ciphertext| % TWO64)
    }

    /** mbedtls_chachapoly_init followed by mbedtls_chachapoly_setkey. */
    constructor (k: Key)
      ensures Valid() && key == k && phase == Init && fresh(Repr())
    {
      hide ChaCha20.InitialState, ChaCha20.Produced, Poly1305.KeyLoaded, Poly1305.Represents;
      var c := new ChaCha20.Context();
      c.SetKey(k);
      chacha := c;
      poly := new Poly1305.Context();
      aadLen, ciphertextLen := 0, 0;
      phase, mode := Init, Encrypt;
      key, nonce, aad, ciphertext := k, Zeros(12), [], [];
    }

    /** The keystream block of counter 0, read by crypting zeros in place; its first half is the one-time key. */
    method OneTimeKey(n: Nonce) returns (polyKey: seq<byte>)
      requires Shaped()
      modifies chacha, chacha.state, chacha.keystream8
      ensures Shaped() && polyKey == PolyKey(key, n)
      ensures chacha.Valid() && chacha.start == ChaCha20.InitialState(key, n, 0) && chacha.pos == 64
    {
      hide ChaCha20.InitialState, ChaCha20.Crypt, PolyKey, ChaCha20.Produced;
      StartState(key, n, chacha.state[..12]);
      chacha.Starts(n, 0);
      var buffer := new byte[64](_ => 0);
      assert buffer[..64] == Zeros(64);
      chacha.Update(64, buffer, buffer);
      assert buffer[..] == ChaCha20.Crypt(chacha.start, 0, Zeros(64));
      KeyWords(key, n, chacha.pos, chacha.state[..], chacha.keystream8[..], chacha.used);
      PolyKeyFromZeros(key, n);
      polyKey := buffer[..32];
    }

    /** Counter 0 yields the one-time key; the text will use counters from 1 on. */
    method Starts(n: Nonce, m: Mode)
      requires Valid()
      modifies Repr()
      ensures Valid() && phase == Aad && mode == m
      ensures key == old(key) && nonce == n && aad == [] && ciphertext == []
    {
      hide ChaCha20.InitialState, PolyKey, ChaCha20.Produced, Poly1305.KeyLoaded, Poly1305.Represents,
           ChaCha20.Context.Valid, Poly1305.Context.Valid;
      var polyKey := OneTimeKey(n);
      poly.Starts(polyKey);
      aadLen, ciphertextLen := 0, 0;
      phase, mode := Aad, m;
      nonce, aad, ciphertext := n, [], [];
    }

    /** Additional data may be given in any number of pieces, before the first text. */
    method UpdateAad(data: seq<byte>) returns (ret: Status)
      requires Valid()
      modifies Repr()
      ensures Valid() && phase == old(phase) && mode == old(mode)
      ensures key == old(key) && nonce == old(nonce) && ciphertext == old(ciphertext)
      ensures ret == if phase.Aad? then Ok else BadState
      ensures aad == if phase.Aad? then old(aad) + data else old(aad)
    {
      hide ChaCha20.InitialState, PolyKey, ChaCha20.Produced, Poly1305.KeyLoaded, Poly1305.Represents;
      if !phase.Aad? {
        return BadState;
      }
      aadLen := (aadLen + |data|) % TWO64;
      poly.Update(data);
      aad := aad + data;
      ret := Ok;
    }

    /** Pads what Poly1305 has absorbed to a block boundary, after len bytes since the last boundary. */
    method Pad(len: uint64, ghost x: seq<byte>)
      requires poly.Valid() && len == |x| % TWO64
      modifies poly, poly.queue
      ensures poly.Valid() && poly.key == old(poly.key) && poly.absorbed == old(poly.absorbed) + Pad16(x)
      ensures forall i :: |old(poly.absorbed)| <= i < |poly.absorbed| ==> poly.absorbed[i] == 0
    {
      hide Poly1305.KeyLoaded, Poly1305.Represents;
      var partial := len % 16;
      assert partial == |x| % 16;
      if partial == 0 {
        assert Pad16(x) == [];
        return;
      }
      poly.Update(Zeros(16 - partial));
    }

    /** Crypts len bytes into output and feeds the ciphertext side to Poly1305; cutting the text into any
        pieces gives the bytes of one call. Input and output may be one array. */
    method Update(len: nat, input: array<byte>, output: array<byte>) returns (ret: Status)
      requires Valid() && len <= input.Length && len <= output.Length
      requires input !in Repr() && output !in Repr()
      modifies Repr(), output
      ensures Valid() && mode == old(mode) && key == old(key) && nonce == old(nonce) && aad == old(aad)
      ensures ret == if old(phase).Aad? || old(phase).Ciphertext? then Ok else BadState
      ensures ret == BadState ==>
        phase == old(phase) && ciphertext == old(ciphertext) && output[..] == old(output[..])
      ensures ret == Ok ==>
        && phase == Ciphertext
        && output[..] == ChaCha20.Crypt(ChaCha20.InitialState(key, nonce, 1), |old(ciphertext)|, old(input[..len]))
                       + old(output[len..])
        && ciphertext == old(ciphertext) + (if mode.Encrypt? then output[..len] else old(input[..len]))
    {
      hide Valid, ChaCha20.InitialState, ChaCha20.Crypt;
      if !phase.Aad? && !phase.Ciphertext? {
        return BadState;
      }
      if phase.Aad? {
        EnterText();
      }
      SecondBlockOn(key, nonce, |ciphertext|, input[..len]);
      if mode.Encrypt? {
        EncryptText(len, input, output);
      } else {
        DecryptText(len, input, output);
      }
      ret := Ok;
    }

    /** The first text closes the additional data with zero padding. */
    method EnterText()
      requires Valid() && phase.Aad?
      modifies this`phase, poly, poly.queue
      ensures Valid() && phase == Ciphertext
    {
      hide ChaCha20.InitialState, PolyKey, ChaCha20.Produced, Poly1305.KeyLoaded, Poly1305.Represents;
      phase := Ciphertext;
      Pad(aadLen, aad);
      assert poly.absorbed == aad + Pad16(aad) + ciphertext;
    }

    method EncryptText(len: nat, input: array<byte>, output: array<byte>)
      requires Valid() && phase.Ciphertext? && len <= input.Length && len <= output.Length
      requires input !in Repr() && output !in Repr()
      modifies this`ciphertextLen, this`ciphertext, chacha, chacha.state, chacha.keystream8, poly, poly.queue, output
      ensures Valid() && ciphertext == old(ciphertext) + output[..len]
      ensures output[..] == ChaCha20.Crypt(ChaCha20.InitialState(key, nonce, 0), 64 + |old(ciphertext)|, old(input[..len]))
                          + old(output[len..])
    {
      hide ChaCha20.InitialState, ChaCha20.Crypt, PolyKey, ChaCha20.Produced, Poly1305.KeyLoaded, Poly1305.Represents,
           Absorbed, ChaCha20.Context.Valid, Poly1305.Context.Valid;
      ciphertextLen := (ciphertextLen + len) % TWO64;
      CryptStep(len, input, output);
      var data := output[..len];
      AbsorbMore(aad, ciphertext, data);
      poly.Update(data);
      ciphertext := ciphertext + data;
      assert output[..len] == data;
    }

    method DecryptText(len: nat, input: array<byte>, output: array<byte>)
      requires Valid() && phase.Ciphertext? && len <= input.Length && len <= output.Length
      requires input !in Repr() && output !in Repr()
      modifies this`ciphertextLen, this`ciphertext, chacha, chacha.state, chacha.keystream8, poly, poly.queue, output
      ensures Valid() && ciphertext == old(ciphertext) + old(input[..len])
      ensures output[..] == ChaCha20.Crypt(ChaCha20.InitialState(key, nonce, 0), 64 + |old(ciphertext)|, old(input[..len]))
                          + old(output[len..])
    {
      hide ChaCha20.InitialState, ChaCha20.Crypt, PolyKey, ChaCha20.Produced, Poly1305.KeyLoaded, Poly1305.Represents,
           Absorbed, ChaCha20.Context.Valid, Poly1305.Context.Valid;
      ciphertextLen := (ciphertextLen + len) % TWO64;
      ghost var data := input[..len];
      poly.Update(input[..len]);
      AbsorbMore(aad, ciphertext, data);
      CryptStep(len, input, output);
      ciphertext := ciphertext + data;
    }

    method CryptStep(len: nat, input: array<byte>, output: array<byte>)
      requires Shaped() && chacha.Valid() && chacha.start == ChaCha20.InitialState(key, nonce, 0)
      requires len <= input.Length && len <= output.Length && input !in Repr() && output !in Repr()
      modifies chacha, chacha.state, chacha.keystream8, output
      ensures Shaped() && chacha.Valid() && chacha.start == old(chacha.start) && chacha.pos == old(chacha.pos) + len
      ensures output[..] == ChaCha20.Crypt(chacha.start, old(chacha.pos), old(input[..len])) + old(output[len..])
    {
      hide ChaCha20.InitialState, ChaCha20.Crypt, ChaCha20.Produced;
      chacha.Update(len, input, output);
      KeyWords(key, nonce, chacha.pos, chacha.state[..], chacha.keystream8[..], chacha.used);
    }

    /** Pads, absorbs the two 64-bit lengths and outputs the tag of the additional data and the ciphertext. Finishing
        again absorbs the lengths once more and outputs the tag of all that. */
    method Finish() returns (ret: Status, mac: seq<byte>)
      requires Valid()
      modifies Repr()
      ensures Valid() && key == old(key) && nonce == old(nonce) && aad == old(aad) && ciphertext == old(ciphertext)
      ensures old(phase).Init? ==> ret == BadState && phase == Init
      ensures !old(phase).Init? ==> ret == Ok && phase == Finished
      ensures old(phase).Aad? || old(phase).Ciphertext? ==>
        && Authenticated(poly.absorbed, aad, ciphertext) && mac == Poly1305.Tag(PolyKey(key, nonce), poly.absorbed)
        && mac == SealTag(key, nonce, aad, ciphertext)
      ensures old(phase).Finished? ==>
        && poly.absorbed == old(poly.absorbed) + Lengths(aad, ciphertext)
        && mac == Poly1305.Tag(PolyKey(key, nonce), poly.absorbed)
    {
      hide ChaCha20.InitialState, PolyKey, ChaCha20.Produced, Poly1305.KeyLoaded, Poly1305.Represents, Poly1305.Tag, ToLE,
           Pad16, Lengths, Absorbed, Authenticated, ChaCha20.Context.Valid, Poly1305.Context.Valid;
      if phase.Init? {
        return BadState, [];
      }
      if phase.Aad? {
        Pad(aadLen, aad);
        AllPadded(Aad, aad, ciphertext);
      } else if phase.Ciphertext? {
        Pad(ciphertextLen, ciphertext);
        AllPadded(Ciphertext, aad, ciphertext);
      }
      phase := Finished;
      mac := AbsorbLengths();
      LengthBlock(aad, ciphertext);
      MacDataIsAuthenticated(aad, ciphertext);
      ret := Ok;
    }

    method AbsorbLengths() returns (mac: seq<byte>)
      requires poly.Valid() && aadLen == |aad| % TWO64 && ciphertextLen == |ciphertext| % TWO64
      requires |poly.absorbed| % 16 == 0
      modifies poly, poly.queue
      ensures poly.Valid() && poly.key == old(poly.key)
      ensures poly.absorbed == old(poly.absorbed) + Lengths(aad, ciphertext) && |poly.absorbed| % 16 == 0
      ensures mac == Poly1305.Tag(poly.key, poly.absorbed)
    {
      hide Poly1305.KeyLoaded, Poly1305.Represents, Poly1305.Tag, ToLE;
      LengthBlock(aad, ciphertext);
      poly.Update(ToLE(aadLen, 8) + ToLE(ciphertextLen, 8));
      mac := poly.Finish();
    }

    /** starts, update_aad, update and finish in one call. */
    method CryptAndTag(m: Mode, n: Nonce, data: seq<byte>, len: nat, input: array<byte>, output: array<byte>)
      returns (tag: seq<byte>)
      requires Valid() && len <= input.Length && len <= output.Length && input !in Repr() && output !in Repr()
      modifies Repr(), output
      ensures Valid() && phase == Finished && key == old(key)
      ensures output[..] == CryptText(key, n, old(input[..len])) + old(output[len..])
      ensures tag == SealTag(key, n, data, if m.Encrypt? then output[..len] else old(input[..len]))
    {
      hide Valid, ChaCha20.InitialState, ChaCha20.Crypt, SealTag;
      Starts(n, m);
      ghost var text := input[..len];
      var ret := UpdateAad(data);
      assert aad == data;
      ret := Update(len, input, output);
      assert ciphertext == if m.Encrypt? then output[..len] else text;
      ret, tag := Finish();
    }

    /** Ciphertext and tag are those of the specification. */
    method EncryptAndTag(n: Nonce, data: seq<byte>, len: nat, input: array<byte>, output: array<byte>)
      returns (tag: seq<byte>)
      requires Valid() && len <= input.Length && len <= output.Length && input !in Repr() && output !in Repr()
      modifies Repr(), output
      ensures Valid() && key == old(key)
      ensures (output[..len], tag) == Seal(key, n, data, old(input[..len]))
      ensures output[len..] == old(output[len..])
    {
      hide Valid, SealTag, CryptText;
      tag := CryptAndTag(Encrypt, n, data, len, input, output);
      assert output[..len] == CryptText(key, n, old(input[..len]));
    }

    /** Succeeds exactly when the tag opens the ciphertext; a wrong tag leaves only zeros in the output. */
    method AuthDecrypt(n: Nonce, data: seq<byte>, len: nat, tag: seq<byte>, input: array<byte>, output: array<byte>)
      returns (ret: Status)
      requires Valid() && len <= input.Length && len <= output.Length && input !in Repr() && output !in Repr()
      modifies Repr(), output
      ensures Valid() && key == old(key) && output[len..] == old(output[len..])
      ensures match Open(key, n, data, old(input[..len]), tag)
              case Some(plaintext) => ret == Ok && output[..len] == plaintext
              case None => ret == AuthFailed && output[..len] == Zeros(len)
    {
      hide Valid, SealTag, CryptText;
      var checkTag := CryptAndTag(Decrypt, n, data, len, input, output);
      assert output[..len] == CryptText(key, n, old(input[..len]));
      assert output[len..] == old(output[len..]);
      if tag != checkTag {
        for i := 0 to len
          invariant Valid() && key == old(key)
          invariant forall k :: 0 <= k < i ==> output[k] == 0
          invariant output[len..] == old(output[len..])
        {
          output[i] := 0;
        }
        assert output[..len] == Zeros(len);
        return AuthFailed;
      }
      ret := Ok;
    }
  }

  lemma AllPadded(phase: Phase, aad: seq<byte>, ciphertext: seq<byte>)
    requires phase.Aad? ==> ciphertext == []
    ensures var padded := Absorbed(phase, aad, ciphertext) + (if phase.Aad? then Pad16(aad) else Pad16(ciphertext));
            padded == aad + Pad16(aad) + ciphertext + Pad16(ciphertext) && |padded| % 16 == 0
  {
    PaddedWhole(aad);
    PaddedWhole(ciphertext);
    hide Pad16;
    var a, c := |aad + Pad16(aad)|, |ciphertext + Pad16(ciphertext)|;
    assert a % 16 == 0 && c % 16 == 0 && (a + c) % 16 == 0;
    assert ciphertext == [] ==> Pad16(ciphertext) == [] by { EmptyPad(); }
  }

  lemma EmptyPad()
    ensures Pad16([]) == []
  {
  }

  lemma PaddedWhole(x: seq<byte>)
    ensures |x + Pad16(x)| % 16 == 0
  {
  }

  /** The two counters, kept modulo 2^64, complete the authenticated data. */
  lemma LengthBlock(aad: seq<byte>, ciphertext: seq<byte>)
    ensures aad + Pad16(aad) + ciphertext + Pad16(ciphertext)
            + (ToLE(|aad| % TWO64, 8) + ToLE(|ciphertext| % TWO64, 8)) == MacData(aad, ciphertext)
    ensures ToLE(|aad| % TWO64, 8) + ToLE(|ciphertext| % TWO64, 8) == Lengths(aad, ciphertext)
  {
    hide ToLE, Pad16;
    Pow256Of4();
    Pow256Add(4, 4);
    LengthMod(|aad|, 8);
    LengthMod(|ciphertext|, 8);
  }

  /** Only the counter word of the state moves. */
  lemma KeyWords(key: Key, nonce: Nonce, pos: nat, state: ChaCha20.State, ks: seq<byte>, used: nat)
    requires ChaCha20.Produced(ChaCha20.InitialState(key, nonce, 0), pos, state, ks, used)
    ensures state[..12] == ChaCha20.InitialState(key, Zeros(12), 0)[..12]
  {
    hide Load32, ChaCha20.Block;
  }

  lemma StartState(key: Key, nonce: Nonce, words: seq<uint32>)
    requires words == ChaCha20.InitialState(key, Zeros(12), 0)[..12]
    ensures words + ChaCha20.InitialState(Zeros(32), nonce, 0)[12..] == ChaCha20.InitialState(key, nonce, 0)
  {
    hide Load32;
  }
}
