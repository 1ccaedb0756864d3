/** The Noise XX handshake and its transport phase. */
module Noise {
  import opened Bytes
  import opened Modular
  import opened Wrappers
  import ChaChaPoly

  type Key = ChaChaPoly.Key
  type Nonce = ChaChaPoly.Nonce

  /** SHA-256, HKDF-SHA256 with 64 bytes of output, and X25519. HKDF and the key agreement may fail. */
  datatype Primitives = Primitives(
    hash: seq<byte> -> Key,
    hkdf: (Key, seq<byte>) -> Option<(Key, Key)>,
    pub: Key -> Key,
    dh: (Key, Key) -> Option<Key>)

  /** Both ends of a key agreement compute the same secret, or both fail. */
  ghost predicate Commutes(c: Primitives) {
    forall a, b :: c.dh(a, c.pub(b)) == c.dh(b, c.pub(a))
  }

  ghost predicate HkdfSucceeds(c: Primitives) {
    forall salt, ikm :: c.hkdf(salt, ikm).Some?
  }

  /** "Noise_XX_25519_ChaChaPoly_SHA256" */
  const PROTOCOL_NAME: Key :=
    [0x4e, 0x6f, 0x69, 0x73, 0x65, 0x5f, 0x58, 0x58, 0x5f, 0x32, 0x35, 0x35, 0x31, 0x39, 0x5f, 0x43,
     0x68, 0x61, 0x43, 0x68, 0x61, 0x50, 0x6f, 0x6c, 0x79, 0x5f, 0x53, 0x48, 0x41, 0x32, 0x35, 0x36]

  lemma NameSpelled()
    ensures |PROTOCOL_NAME| == 32
    ensures forall i :: 0 <= i < 32 ==> PROTOCOL_NAME[i] == "Noise_XX_25519_ChaChaPoly_SHA256"[i] as int
  {
  }

  /** Four zero bytes and the counter, little-endian. */
  function NonceOf(n: uint64): Nonce {
    Zeros(4) + ToLE(n, 8)
  }

  function Next(n: uint64): uint64 {
    var m: int := n + 1;
    m % TWO64
  }

  /////////////////////////////////////////////////////////////////////////////
  // The symmetric state
  /////////////////////////////////////////////////////////////////////////////

  datatype Sym = Sym(ck: Key, h: Key, k: Key, n: uint64, hasKey: bool)

  function MixHash(c: Primitives, s: Sym, data: seq<byte>): Sym {
    s.(h := c.hash(s.h + data))
  }

  function InitSym(c: Primitives): Sym {
    MixHash(c, Sym(PROTOCOL_NAME, PROTOCOL_NAME, Zeros(32), 0, false), [])
  }

  function MixKey(c: Primitives, s: Sym, ikm: seq<byte>): Option<Sym> {
    var (ck, k) :- c.hkdf(s.ck, ikm);
    Some(s.(ck := ck, k := k, n := 0, hasKey := true))
  }

  function EncryptAndHash(c: Primitives, s: Sym, plaintext: seq<byte>): (Sym, seq<byte>) {
    if !s.hasKey then
      (MixHash(c, s, plaintext), plaintext)
    else
      var (ct, tag) := ChaChaPoly.Seal(s.k, NonceOf(s.n), s.h, plaintext);
      (MixHash(c, s.(n := Next(s.n)), ct + tag), ct + tag)
  }

  /** The plaintext of a keyed state that accepts the ciphertext; the counter moves even when it does not. */
  function DecryptAndHash(c: Primitives, s: Sym, ciphertext: seq<byte>): (Sym, Option<seq<byte>>) {
    if !s.hasKey then
      (if ciphertext == [] then s else MixHash(c, s, ciphertext), Some(ciphertext))
    else if |ciphertext| < 16 then
      (s, None)
    else
      var plen := |ciphertext| - 16;
      match ChaChaPoly.Open(s.k, NonceOf(s.n), s.h, ciphertext[..plen], ciphertext[plen..])
      case None => (s.(n := Next(s.n)), None)
      case Some(plaintext) => (MixHash(c, s.(n := Next(s.n)), ciphertext), Some(plaintext))
  }

  datatype Cipher = Cipher(k: Key, n: uint64)

  function Split(c: Primitives, s: Sym): Option<(Cipher, Cipher)> {
    var (k1, k2) :- c.hkdf(s.ck, []);
    Some((Cipher(k1, 0), Cipher(k2, 0)))
  }

  /** What one keyed state encrypts, an equal state decrypts, and both end in the same state. */
  lemma DecryptsWhatWasEncrypted(c: Primitives, s: Sym, plaintext: seq<byte>)
    requires s.hasKey
    ensures var (s', ct) := EncryptAndHash(c, s, plaintext);
            |ct| == |plaintext| + 16 && DecryptAndHash(c, s, ct) == (s', Some(plaintext))
  {
    hide ChaChaPoly.Seal, ChaChaPoly.Open, NonceOf;
    var (ct, tag) := ChaChaPoly.Seal(s.k, NonceOf(s.n), s.h, plaintext);
    assert (ct + tag)[..|ct|] == ct && (ct + tag)[|ct|..] == tag;
    ChaChaPoly.OpenIffSealed(s.k, NonceOf(s.n), s.h, plaintext, ct, tag);
  }

  /////////////////////////////////////////////////////////////////////////////
  // The handshake steps
  /////////////////////////////////////////////////////////////////////////////

  datatype Role = Initiator | Responder
  datatype Phase = Idle | AwaitMsg2 | AwaitMsg3 | Transport | Failed

  datatype Hs = Hs(role: Role, phase: Phase, ss: Sym, ePriv: Key, ePub: Key, rePub: Key, rsPub: Key,
                   sPriv: Key, sPub: Key, send: Cipher, recv: Cipher)

  function InitHs(c: Primitives, role: Role, sPriv: Key, ePriv: Key): Hs {
    var none: Key, idle := Zeros(32), Cipher(Zeros(32), 0);
    Hs(role, Idle, InitSym(c), ePriv, c.pub(ePriv), none, none, sPriv, c.pub(sPriv), idle, idle)
  }

  /** DH, then MixKey of its output. */
  function MixDh(c: Primitives, s: Sym, priv: Key, pub: Key): Option<Sym> {
    var secret :- c.dh(priv, pub);
    MixKey(c, s, secret)
  }

  /** -> e */
  function WriteMsg1(c: Primitives, hs: Hs): Option<(Hs, seq<byte>)> {
    if hs.phase != Idle || hs.role != Initiator then None
    else Some((hs.(ss := MixHash(c, hs.ss, hs.ePub), phase := AwaitMsg2), hs.ePub))
  }

  /** <- e, ee, s, es */
  function WriteMsg2(c: Primitives, hs: Hs, msg1: seq<byte>): Option<(Hs, seq<byte>)> {
    if hs.phase != Idle || hs.role != Responder || |msg1| < 32 then None
    else
      var re: Key := msg1[..32];
      var s1 := MixHash(c, MixHash(c, hs.ss, re), hs.ePub);
      var s2 :- MixDh(c, s1, hs.ePriv, re);
      var (s3, enc) := EncryptAndHash(c, s2, hs.sPub);
      var s4 :- MixDh(c, s3, hs.sPriv, re);
      Some((hs.(ss := s4, rePub := re, phase := AwaitMsg3), hs.ePub + enc))
  }

  /** reads <- e, ee, s, es and writes -> s, se */
  function WriteMsg3(c: Primitives, hs: Hs, msg2: seq<byte>): Option<(Hs, seq<byte>)> {
    if hs.phase != AwaitMsg2 || hs.role != Initiator || |msg2| < 80 then None
    else
      var re: Key := msg2[..32];
      var s1 := MixHash(c, hs.ss, re);
      var s2 :- MixDh(c, s1, hs.ePriv, re);
      var (s3, plain) := DecryptAndHash(c, s2, msg2[32..80]);
      var rs :- plain;
      var key :- AsKey(rs);
      var s4 :- MixDh(c, s3, hs.ePriv, key);
      var (s5, enc) := EncryptAndHash(c, s4, hs.sPub);
      var s6 :- MixDh(c, s5, hs.sPriv, re);
      var (k1, k2) :- Split(c, s6);
      Some((hs.(ss := s6, rePub := re, rsPub := key, send := k1, recv := k2, phase := Transport), enc))
  }

  /** reads -> s, se */
  function ReadMsg3(c: Primitives, hs: Hs, msg3: seq<byte>): Option<Hs> {
    if hs.phase != AwaitMsg3 || hs.role != Responder || |msg3| < 48 then None
    else
      var (s1, plain) := DecryptAndHash(c, hs.ss, msg3[..48]);
      var rs :- plain;
      var key :- AsKey(rs);
      var s2 :- MixDh(c, s1, hs.ePriv, key);
      var (k1, k2) :- Split(c, s2);
      Some(hs.(ss := s2, rsPub := key, send := k2, recv := k1, phase := Transport))
  }

  /** A decrypted 48-byte field fills the 32-byte key buffer exactly. */
  function AsKey(s: seq<byte>): Option<Key> {
    if |s| == 32 then Some(s) else None
  }

  /////////////////////////////////////////////////////////////////////////////
  // Agreement
  /////////////////////////////////////////////////////////////////////////////

  /** The three messages delivered unchanged between an initiator and a responder. */
  function HonestRun(c: Primitives, si: Key, ei: Key, sr: Key, er: Key): Option<(Hs, Hs)> {
    var (i1, m1) :- WriteMsg1(c, InitHs(c, Initiator, si, ei));
    var (r1, m2) :- WriteMsg2(c, InitHs(c, Responder, sr, er), m1);
    var (i2, m3) :- WriteMsg3(c, i1, m2);
    var r2 :- ReadMsg3(c, r1, m3);
    Some((i2, r2))
  }

  /** Equal chaining keys and hashes, mirrored transport keys at counter 0, and each end knows the other's identity. */
  predicate Agreed(c: Primitives, i: Hs, r: Hs, si: Key, sr: Key) {
    && i.phase == Transport && r.phase == Transport
    && i.ss.ck == r.ss.ck && i.ss.h == r.ss.h
    && i.send == r.recv && i.recv == r.send && i.send.n == 0 && i.recv.n == 0
    && i.rsPub == c.pub(sr) && r.rsPub == c.pub(si)
  }

  /** The symmetric states both ends pass through, computed once. */
  function Msg2State(c: Primitives, si: Key, ei: Key, sr: Key, er: Key): Option<(Sym, seq<byte>)> {
    var s1 := MixHash(c, MixHash(c, InitSym(c), c.pub(ei)), c.pub(er));
    var s2 :- MixDh(c, s1, er, c.pub(ei));
    var (s3, enc) := EncryptAndHash(c, s2, c.pub(sr));
    var s4 :- MixDh(c, s3, sr, c.pub(ei));
    Some((s4, enc))
  }

  function Msg3State(c: Primitives, s: Sym, si: Key, er: Key): Option<(Sym, seq<byte>)> {
    var (s5, enc) := EncryptAndHash(c, s, c.pub(si));
    var s6 :- MixDh(c, s5, si, c.pub(er));
    Some((s6, enc))
  }

  lemma MixDhKeyed(c: Primitives, s: Sym, priv: Key, pub: Key)
    ensures MixDh(c, s, priv, pub).Some? ==> MixDh(c, s, priv, pub).value.hasKey
    ensures HkdfSucceeds(c) ==> (MixDh(c, s, priv, pub).Some? <==> c.dh(priv, pub).Some?)
  {
  }

  lemma MixDhCommutes(c: Primitives, s: Sym, a: Key, b: Key)
    requires Commutes(c)
    ensures MixDh(c, s, a, c.pub(b)) == MixDh(c, s, b, c.pub(a))
  {
    hide MixKey;
  }

  lemma ResponderMsg2(c: Primitives, si: Key, ei: Key, sr: Key, er: Key)
    ensures var r := InitHs(c, Responder, sr, er); var m := Msg2State(c, si, ei, sr, er);
            WriteMsg2(c, r, c.pub(ei)) ==
              if m.None? then None
              else Some((r.(ss := m.value.0, rePub := c.pub(ei), phase := AwaitMsg3), c.pub(er) + m.value.1))
  {
    hide MixDh, EncryptAndHash, MixHash, InitSym;
    assert c.pub(ei)[..32] == c.pub(ei);
  }

  /** The initiator retraces message 2 and recovers the responder's static key. */
  lemma InitiatorMsg2(c: Primitives, si: Key, ei: Key, sr: Key, er: Key)
    requires Commutes(c) && Msg2State(c, si, ei, sr, er).Some?
    ensures var (s4, enc) := Msg2State(c, si, ei, sr, er).value;
            var s1 := MixHash(c, MixHash(c, InitSym(c), c.pub(ei)), c.pub(er));
            var s2 := MixDh(c, s1, ei, c.pub(er));
            && |enc| == 48 && s4.hasKey && s2.Some?
            && DecryptAndHash(c, s2.value, enc).1 == Some(c.pub(sr))
            && MixDh(c, DecryptAndHash(c, s2.value, enc).0, ei, c.pub(sr)) == Some(s4)
  {
    hide MixDh, EncryptAndHash, DecryptAndHash, MixHash, InitSym;
    var s1 := MixHash(c, MixHash(c, InitSym(c), c.pub(ei)), c.pub(er));
    MixDhCommutes(c, s1, er, ei);
    MixDhKeyed(c, s1, er, c.pub(ei));
    var s2 := MixDh(c, s1, er, c.pub(ei)).value;
    DecryptsWhatWasEncrypted(c, s2, c.pub(sr));
    var (s3, enc) := EncryptAndHash(c, s2, c.pub(sr));
    MixDhCommutes(c, s3, sr, ei);
    MixDhKeyed(c, s3, sr, c.pub(ei));
  }

  lemma InitiatorMsg3(c: Primitives, si: Key, ei: Key, sr: Key, er: Key)
    requires Commutes(c) && Msg2State(c, si, ei, sr, er).Some?
    ensures var (s4, enc) := Msg2State(c, si, ei, sr, er).value;
            var i := WriteMsg1(c, InitHs(c, Initiator, si, ei)).value.0;
            var m := Msg3State(c, s4, si, er);
            WriteMsg3(c, i, c.pub(er) + enc) ==
              if m.None? || Split(c, m.value.0).None? then None
              else Some((i.(ss := m.value.0, rePub := c.pub(er), rsPub := c.pub(sr), send := Split(c, m.value.0).value.0,
                            recv := Split(c, m.value.0).value.1, phase := Transport), m.value.1))
  {
    hide MixDh, EncryptAndHash, DecryptAndHash, MixHash, InitSym, Split, Msg2State;
    var (s4, enc) := Msg2State(c, si, ei, sr, er).value;
    InitiatorMsg2(c, si, ei, sr, er);
    var msg := c.pub(er) + enc;
    assert msg[..32] == c.pub(er) && msg[32..80] == enc;
  }

  lemma ResponderMsg3(c: Primitives, r: Hs, si: Key, er: Key)
    requires Commutes(c) && r.phase == AwaitMsg3 && r.role == Responder && r.ePriv == er && r.ss.hasKey
    ensures var m := Msg3State(c, r.ss, si, er);
            m.Some? ==> (ReadMsg3(c, r, m.value.1) ==
              if Split(c, m.value.0).None? then None
              else Some(r.(ss := m.value.0, rsPub := c.pub(si), recv := Split(c, m.value.0).value.0,
                           send := Split(c, m.value.0).value.1, phase := Transport)))
  {
    hide MixDh, EncryptAndHash, DecryptAndHash, MixHash, Split;
    DecryptsWhatWasEncrypted(c, r.ss, c.pub(si));
    var (s5, enc) := EncryptAndHash(c, r.ss, c.pub(si));
    assert enc[..48] == enc;
    MixDhCommutes(c, s5, si, er);
  }

  /** Every honest run that ends, ends in agreement. */
  lemma HonestRunAgrees(c: Primitives, si: Key, ei: Key, sr: Key, er: Key)
    requires Commutes(c)
    ensures match HonestRun(c, si, ei, sr, er)
            case Some((i, r)) => Agreed(c, i, r, si, sr)
            case None => true
  {
    hide MixDh, EncryptAndHash, DecryptAndHash, MixHash, InitSym, WriteMsg2, WriteMsg3, ReadMsg3, Msg2State, Msg3State;
    ResponderMsg2(c, si, ei, sr, er);
    var m2 := Msg2State(c, si, ei, sr, er);
    if m2.Some? {
      InitiatorMsg2(c, si, ei, sr, er);
      InitiatorMsg3(c, si, ei, sr, er);
      var r1 := WriteMsg2(c, InitHs(c, Responder, sr, er), c.pub(ei)).value.0;
      ResponderMsg3(c, r1, si, er);
    }
  }

  /** An honest run ends exactly when its three key agreements succeed. */
  lemma HonestRunEnds(c: Primitives, si: Key, ei: Key, sr: Key, er: Key)
    requires Commutes(c) && HkdfSucceeds(c)
    ensures HonestRun(c, si, ei, sr, er).Some?
       <==> c.dh(er, c.pub(ei)).Some? && c.dh(sr, c.pub(ei)).Some? && c.dh(si, c.pub(er)).Some?
  {
    hide MixDh, EncryptAndHash, DecryptAndHash, MixHash, InitSym, Split, WriteMsg2, WriteMsg3, ReadMsg3, Msg2State, Msg3State;
    ResponderMsg2(c, si, ei, sr, er);
    Msg2Ends(c, si, ei, sr, er);
    var m2 := Msg2State(c, si, ei, sr, er);
    if m2.Some? {
      InitiatorMsg2(c, si, ei, sr, er);
      InitiatorMsg3(c, si, ei, sr, er);
      Msg3Ends(c, m2.value.0, si, er);
      var r1 := WriteMsg2(c, InitHs(c, Responder, sr, er), c.pub(ei)).value.0;
      ResponderMsg3(c, r1, si, er);
    }
  }

  lemma Msg2Ends(c: Primitives, si: Key, ei: Key, sr: Key, er: Key)
    requires HkdfSucceeds(c)
    ensures Msg2State(c, si, ei, sr, er).Some? <==> c.dh(er, c.pub(ei)).Some? && c.dh(sr, c.pub(ei)).Some?
  {
    hide MixDh, EncryptAndHash, MixHash, InitSym;
    var s1 := MixHash(c, MixHash(c, InitSym(c), c.pub(ei)), c.pub(er));
    MixDhKeyed(c, s1, er, c.pub(ei));
    if c.dh(er, c.pub(ei)).Some? {
      MixDhKeyed(c, EncryptAndHash(c, MixDh(c, s1, er, c.pub(ei)).value, c.pub(sr)).0, sr, c.pub(ei));
    }
  }

  lemma Msg3Ends(c: Primitives, s: Sym, si: Key, er: Key)
    requires HkdfSucceeds(c)
    ensures var m := Msg3State(c, s, si, er);
            (m.Some? <==> c.dh(si, c.pub(er)).Some?) && (m.Some? ==> Split(c, m.value.0).Some?)
  {
    hide MixDh, EncryptAndHash;
    MixDhKeyed(c, EncryptAndHash(c, s, c.pub(si)).0, si, c.pub(er));
  }

  /////////////////////////////////////////////////////////////////////////////
  // What the agreed values are made of
  /////////////////////////////////////////////////////////////////////////////

  /** Everything an honest run computes: the three shared secrets, the chaining and cipher keys derived from them, the
      two encrypted static keys, and the hashes in between. */
  datatype Trace = Trace(ee: Key, es: Key, se: Key, ck1: Key, k1: Key, ck2: Key, k2: Key, ck3: Key, k3: Key,
                         h0: Key, h1: Key, h2: Key, enc1: seq<byte>, h3: Key, enc2: seq<byte>, h4: Key)

  ghost predicate Derives(c: Primitives, salt: Key, ikm: Key, ck: Key, k: Key) {
    c.hkdf(salt, ikm).Some? && c.hkdf(salt, ikm).value.0 == ck && c.hkdf(salt, ikm).value.1 == k
  }

  ghost predicate SealsTo(key: Key, ad: Key, plaintext: seq<byte>, packet: seq<byte>) {
    var (ct, tag) := ChaChaPoly.Seal(key, Zeros(12), ad, plaintext);
    packet == ct + tag
  }

  /** The trace in terms of the primitives alone: every secret enters the chaining key in turn, every public value and
      every encrypted key enters the hash in turn, and each static key is sealed under the key of that moment. */
  ghost predicate Explains(t: Trace, c: Primitives, si: Key, ei: Key, sr: Key, er: Key) {
    && c.dh(er, c.pub(ei)) == Some(t.ee) && c.dh(sr, c.pub(ei)) == Some(t.es) && c.dh(si, c.pub(er)) == Some(t.se)
    && Derives(c, PROTOCOL_NAME, t.ee, t.ck1, t.k1) && Derives(c, t.ck1, t.es, t.ck2, t.k2)
    && Derives(c, t.ck2, t.se, t.ck3, t.k3)
    && t.h0 == c.hash(PROTOCOL_NAME) && t.h1 == c.hash(t.h0 + c.pub(ei)) && t.h2 == c.hash(t.h1 + c.pub(er))
    && SealsTo(t.k1, t.h2, c.pub(sr), t.enc1) && t.h3 == c.hash(t.h2 + t.enc1)
    && SealsTo(t.k2, t.h3, c.pub(si), t.enc2) && t.h4 == c.hash(t.h3 + t.enc2)
  }

  /** The nonce is four zero bytes and the counter as a 64-bit little-endian number. */
  lemma NonceLayout(n: uint64)
    ensures NonceOf(n)[..4] == [0, 0, 0, 0] && LE(NonceOf(n)[4..]) == n
  {
    hide ToLE, LE;
    Pow256Of4();
    Pow256Add(4, 4);
    ToLERoundTrip(n, 8);
    assert NonceOf(n)[4..] == ToLE(n, 8);
  }

  lemma FirstNonce()
    ensures NonceOf(0) == Zeros(12)
  {
    hide ToLE, LE;
    Pow256Of4();
    Pow256Add(4, 4);
    ToLERoundTrip(0, 8);
    LEZeros(8);
    LEInjective(ToLE(0, 8), Zeros(8));
  }

  lemma MixDhDerives(c: Primitives, s: Sym, priv: Key, pub: Key)
    ensures var m := MixDh(c, s, priv, pub);
            m.Some? ==>
              && c.dh(priv, pub).Some? && Derives(c, s.ck, c.dh(priv, pub).value, m.value.ck, m.value.k)
              && m.value == s.(ck := m.value.ck, k := m.value.k, n := 0, hasKey := true)
  {
  }

  lemma SealsAndHashes(c: Primitives, s: Sym, plaintext: seq<byte>)
    requires s.hasKey && s.n == 0
    ensures var (s', enc) := EncryptAndHash(c, s, plaintext);
            && SealsTo(s.k, s.h, plaintext, enc) && s'.h == c.hash(s.h + enc)
            && s'.ck == s.ck && s'.k == s.k && s'.hasKey
  {
    FirstNonce();
    hide ChaChaPoly.Seal, NonceOf;
  }

  lemma InitHashes(c: Primitives)
    ensures InitSym(c).ck == PROTOCOL_NAME && InitSym(c).h == c.hash(PROTOCOL_NAME)
  {
    assert PROTOCOL_NAME + [] == PROTOCOL_NAME;
  }

  /** Every honest run has a trace, and ends with its last chaining key and its last hash. */
  lemma RunExplained(c: Primitives, si: Key, ei: Key, sr: Key, er: Key) returns (t: Trace)
    requires Commutes(c) && HonestRun(c, si, ei, sr, er).Some?
    ensures Explains(t, c, si, ei, sr, er)
    ensures var (i, r) := HonestRun(c, si, ei, sr, er).value;
            i.ss.ck == r.ss.ck == t.ck3 && i.ss.h == r.ss.h == t.h4
  {
    EndState(c, si, ei, sr, er);
    hide MixDh, EncryptAndHash, InitSym, HonestRun, SealsTo, Derives;
    var s0 := InitSym(c);
    InitHashes(c);
    var s1 := MixHash(c, MixHash(c, s0, c.pub(ei)), c.pub(er));
    var s2 := MixDh(c, s1, er, c.pub(ei)).value;
    MixDhDerives(c, s1, er, c.pub(ei));
    SealsAndHashes(c, s2, c.pub(sr));
    var (s3, enc1) := EncryptAndHash(c, s2, c.pub(sr));
    var s4 := MixDh(c, s3, sr, c.pub(ei)).value;
    MixDhDerives(c, s3, sr, c.pub(ei));
    SealsAndHashes(c, s4, c.pub(si));
    var (s5, enc2) := EncryptAndHash(c, s4, c.pub(si));
    var s6 := MixDh(c, s5, si, c.pub(er)).value;
    MixDhDerives(c, s5, si, c.pub(er));
    t := Trace(c.dh(er, c.pub(ei)).value, c.dh(sr, c.pub(ei)).value, c.dh(si, c.pub(er)).value,
               s2.ck, s2.k, s4.ck, s4.k, s6.ck, s6.k,
               s0.h, MixHash(c, s0, c.pub(ei)).h, s1.h, enc1, s3.h, enc2, s5.h);
  }

  /** The run's end is the end of the shared computation. */
  lemma EndState(c: Primitives, si: Key, ei: Key, sr: Key, er: Key)
    requires Commutes(c) && HonestRun(c, si, ei, sr, er).Some?
    ensures var (i, r) := HonestRun(c, si, ei, sr, er).value;
            var m2 := Msg2State(c, si, ei, sr, er);
            && m2.Some? && var m3 := Msg3State(c, m2.value.0, si, er);
            m3.Some? && i.ss == m3.value.0 && r.ss.ck == i.ss.ck && r.ss.h == i.ss.h
  {
    hide MixDh, EncryptAndHash, DecryptAndHash, MixHash, InitSym, WriteMsg2, WriteMsg3, ReadMsg3, Msg2State, Msg3State;
    ResponderMsg2(c, si, ei, sr, er);
    InitiatorMsg2(c, si, ei, sr, er);
    InitiatorMsg3(c, si, ei, sr, er);
    HonestRunAgrees(c, si, ei, sr, er);
  }

  ghost predicate HkdfCollision(c: Primitives, a: Key, x: Key, b: Key, y: Key) {
    && (a != b || x != y) && c.hkdf(a, x).Some? && c.hkdf(b, y).Some?
    && c.hkdf(a, x).value.0 == c.hkdf(b, y).value.0
  }

  ghost predicate HashCollision(c: Primitives, x: seq<byte>, y: seq<byte>) {
    x != y && c.hash(x) == c.hash(y)
  }

  /** The agreed chaining key binds all three secrets: two runs that end with one have the same secrets, unless the key
      derivation collided on the values of one of their steps. */
  lemma ChainingKeyBinds(c: Primitives, t: Trace, si: Key, ei: Key, sr: Key, er: Key,
                         u: Trace, si': Key, ei': Key, sr': Key, er': Key)
    requires Explains(t, c, si, ei, sr, er) && Explains(u, c, si', ei', sr', er') && t.ck3 == u.ck3
    ensures || (t.ee == u.ee && t.es == u.es && t.se == u.se)
            || HkdfCollision(c, t.ck2, t.se, u.ck2, u.se) || HkdfCollision(c, t.ck1, t.es, u.ck1, u.es)
            || HkdfCollision(c, PROTOCOL_NAME, t.ee, PROTOCOL_NAME, u.ee)
  {
    hide SealsTo;
  }

  /** The agreed hash binds the whole exchange: two runs that end with one have the same ephemeral keys and the same
      encrypted static keys, unless the hash collided on the values of one of their steps. */
  lemma HashBinds(c: Primitives, t: Trace, si: Key, ei: Key, sr: Key, er: Key,
                  u: Trace, si': Key, ei': Key, sr': Key, er': Key)
    requires Explains(t, c, si, ei, sr, er) && Explains(u, c, si', ei', sr', er') && t.h4 == u.h4
    ensures || (c.pub(ei) == c.pub(ei') && c.pub(er) == c.pub(er') && t.enc1 == u.enc1 && t.enc2 == u.enc2)
            || HashCollision(c, t.h3 + t.enc2, u.h3 + u.enc2) || HashCollision(c, t.h2 + t.enc1, u.h2 + u.enc1)
            || HashCollision(c, t.h1 + c.pub(er), u.h1 + c.pub(er'))
            || HashCollision(c, t.h0 + c.pub(ei), u.h0 + c.pub(ei'))
  {
    hide SealsTo, Derives;
    SameParts(t.h3, t.enc2, u.h3, u.enc2);
    SameParts(t.h2, t.enc1, u.h2, u.enc1);
    SameParts(t.h1, c.pub(er), u.h1, c.pub(er'));
    SameParts(t.h0, c.pub(ei), u.h0, c.pub(ei'));
  }

  lemma SameParts(h: Key, x: seq<byte>, h': Key, y: seq<byte>)
    ensures h + x == h' + y ==> h == h' && x == y
  {
    if h + x == h' + y {
      assert (h + x)[..32] == h && (h' + y)[..32] == h' && (h + x)[32..] == x && (h' + y)[32..] == y;
    }
  }

  /////////////////////////////////////////////////////////////////////////////
  // Transport
  /////////////////////////////////////////////////////////////////////////////

  function Encrypt(s: Cipher, ad: seq<byte>, plaintext: seq<byte>): (Cipher, seq<byte>) {
    var (ct, tag) := ChaChaPoly.Seal(s.k, NonceOf(s.n), ad, plaintext);
    (s.(n := Next(s.n)), ct + tag)
  }

  /** The counter advances whether or not the packet opens, unless it is too short to hold a tag. */
  function Decrypt(s: Cipher, ad: seq<byte>, packet: seq<byte>): (Cipher, Option<seq<byte>>) {
    if |packet| < 16 then (s, None)
    else
      var plen := |packet| - 16;
      (s.(n := Next(s.n)), ChaChaPoly.Open(s.k, NonceOf(s.n), ad, packet[..plen], packet[plen..]))
  }

  lemma DecryptOfEncrypt(s: Cipher, ad: seq<byte>, plaintext: seq<byte>)
    ensures Decrypt(s, ad, Encrypt(s, ad, plaintext).1) == (Encrypt(s, ad, plaintext).0, Some(plaintext))
  {
    hide ChaChaPoly.Seal, ChaChaPoly.Open, NonceOf;
    var (ct, tag) := ChaChaPoly.Seal(s.k, NonceOf(s.n), ad, plaintext);
    assert (ct + tag)[..|ct|] == ct && (ct + tag)[|ct|..] == tag;
    ChaChaPoly.OpenIffSealed(s.k, NonceOf(s.n), ad, plaintext, ct, tag);
  }

  datatype Message = Message(ad: seq<byte>, plaintext: seq<byte>)
  datatype Packet = Packet(ad: seq<byte>, body: seq<byte>)

  /** One direction of a session: both cipher states and the packets in flight. Its logs hold what was sent under which
      key and nonce, what every delivered packet opened to and after how many foreign packets, and how many foreign
      packets long enough for a tag the receiver has been given. */
  datatype Link = Link(sender: Cipher, receiver: Cipher, wire: seq<Packet>, sent: seq<Message>, pairs: seq<(Key, Nonce)>,
                       got: seq<Option<seq<byte>>>, shifts: seq<nat>, injected: nat)

  datatype Session = Session(down: Link, up: Link)   // initiator to responder, responder to initiator

  datatype Event =
    | Send(down: bool, ad: seq<byte>, plaintext: seq<byte>)
    | Deliver(down: bool)
    | Inject(down: bool, ad: seq<byte>, packet: seq<byte>)

  function SendOn(l: Link, ad: seq<byte>, plaintext: seq<byte>): Link {
    var (s, body) := Encrypt(l.sender, ad, plaintext);
    l.(sender := s, wire := l.wire + [Packet(ad, body)], sent := l.sent + [Message(ad, plaintext)],
       pairs := l.pairs + [(l.sender.k, NonceOf(l.sender.n))])
  }

  function DeliverOn(l: Link): Link {
    if l.wire == [] then l
    else
      var (r, plaintext) := Decrypt(l.receiver, l.wire[0].ad, l.wire[0].body);
      l.(receiver := r, wire := l.wire[1..], got := l.got + [plaintext], shifts := l.shifts + [l.injected])
  }

  /** A packet the other end never sent reaches the receiver. */
  function InjectOn(l: Link, ad: seq<byte>, packet: seq<byte>): Link {
    l.(receiver := Decrypt(l.receiver, ad, packet).0, injected := l.injected + if |packet| < 16 then 0 else 1)
  }

  function LinkStep(l: Link, e: Event): Link {
    match e
    case Send(_, ad, pt) => SendOn(l, ad, pt)
    case Deliver(_) => DeliverOn(l)
    case Inject(_, ad, packet) => InjectOn(l, ad, packet)
  }

  function SessionStep(s: Session, e: Event): Session {
    if e.down then s.(down := LinkStep(s.down, e)) else s.(up := LinkStep(s.up, e))
  }

  function SessionRun(s: Session, events: seq<Event>): Session {
    if events == [] then s else SessionStep(SessionRun(s, events[..|events| - 1]), events[|events| - 1])
  }

  function OpenSession(i: Hs, r: Hs): Session {
    Session(Link(i.send, r.recv, [], [], [], [], [], 0), Link(r.send, i.recv, [], [], [], [], [], 0))
  }

  function Direction(s: Session, down: bool): Link {
    if down then s.down else s.up
  }

  function Wrap(n: nat): uint64 {
    n % TWO64
  }

  /** The k-th packet of a direction. */
  function Sealed(key: Key, k: nat, m: Message): Packet {
    Packet(m.ad, Encrypt(Cipher(key, Wrap(k)), m.ad, m.plaintext).1)
  }

  /** What the k-th packet opens to under a counter that foreign packets have moved by shift. */
  function Opened(key: Key, k: nat, shift: nat, m: Message): Option<seq<byte>> {
    Decrypt(Cipher(key, Wrap(k + shift)), m.ad, Sealed(key, k, m).body).1
  }

  /** What every run keeps: the counters count packets, foreign ones included, and the logs say what happened. */
  ghost predicate Tracks(l: Link, key: Key) {
    && l.sender == Cipher(key, Wrap(|l.sent|)) && l.receiver == Cipher(key, Wrap(|l.got| + l.injected))
    && |l.got| + |l.wire| == |l.sent| == |l.pairs| && |l.shifts| == |l.got|
    && (forall k :: 0 <= k < |l.shifts| ==> l.shifts[k] <= l.injected)
    && (forall k :: 0 <= k < |l.got| ==> l.got[k] == Opened(key, k, l.shifts[k], l.sent[k]))
    && (forall k :: 0 <= k < |l.pairs| ==> l.pairs[k] == (key, NonceOf(Wrap(k))))
    && (forall k :: 0 <= k < |l.wire| ==> l.wire[k] == Sealed(key, |l.got| + k, l.sent[|l.got| + k]))
  }

  lemma NextWrap(n: nat)
    ensures Next(Wrap(n)) == Wrap(n + 1)
  {
  }

  lemma EncryptNext(s: Cipher, ad: seq<byte>, plaintext: seq<byte>)
    ensures Encrypt(s, ad, plaintext).0 == s.(n := Next(s.n)) && |Encrypt(s, ad, plaintext).1| == |plaintext| + 16
  {
    hide NonceOf;
  }

  lemma DecryptNext(s: Cipher, ad: seq<byte>, packet: seq<byte>)
    ensures Decrypt(s, ad, packet).0 == if |packet| < 16 then s else s.(n := Next(s.n))
  {
  }

  lemma SendTracks(l: Link, key: Key, ad: seq<byte>, plaintext: seq<byte>)
    requires Tracks(l, key)
    ensures Tracks(SendOn(l, ad, plaintext), key)
  {
    hide Encrypt, NonceOf, Next, Wrap, Opened;
    NextWrap(|l.sent|);
    EncryptNext(l.sender, ad, plaintext);
    var m := SendOn(l, ad, plaintext);
    forall k | 0 <= k < |m.wire|
      ensures m.wire[k] == Sealed(key, |m.got| + k, m.sent[|m.got| + k])
    {
      if k < |l.wire| {
        assert m.wire[k] == l.wire[k] && m.sent[|m.got| + k] == l.sent[|l.got| + k];
      } else {
        assert m.sent[|m.got| + k] == Message(ad, plaintext);
      }
    }
  }

  lemma DeliverTracks(l: Link, key: Key)
    requires Tracks(l, key)
    ensures Tracks(DeliverOn(l), key)
  {
    hide Encrypt, Decrypt, NonceOf, Next, Wrap;
    if l.wire != [] {
      var n, p := |l.got|, l.wire[0];
      assert p == Sealed(key, n + 0, l.sent[n + 0]);
      EncryptNext(Cipher(key, Wrap(n)), p.ad, l.sent[n].plaintext);
      DecryptNext(l.receiver, p.ad, p.body);
      NextWrap(n + l.injected);
      var m := DeliverOn(l);
      assert m.got[n] == Opened(key, n, m.shifts[n], m.sent[n]);
      forall k | 0 <= k < |m.wire|
        ensures m.wire[k] == Sealed(key, |m.got| + k, m.sent[|m.got| + k])
      {
        assert m.wire[k] == l.wire[k + 1] && |m.got| + k == n + (k + 1);
      }
    }
  }

  lemma InjectTracks(l: Link, key: Key, ad: seq<byte>, packet: seq<byte>)
    requires Tracks(l, key)
    ensures Tracks(InjectOn(l, ad, packet), key)
  {
    hide Encrypt, Decrypt, NonceOf, Next, Wrap, Opened, Sealed;
    DecryptNext(l.receiver, ad, packet);
    NextWrap(|l.got| + l.injected);
  }

  lemma StepTracks(l: Link, key: Key, e: Event)
    requires Tracks(l, key)
    ensures Tracks(LinkStep(l, e), key)
  {
    hide Tracks, SendOn, DeliverOn, InjectOn;
    match e
    case Send(_, ad, pt) => SendTracks(l, key, ad, pt);
    case Deliver(_) => DeliverTracks(l, key);
    case Inject(_, ad, packet) => InjectTracks(l, key, ad, packet);
  }

  /** Foreign packets in one direction that are long enough to hold a tag. */
  function LongInjections(events: seq<Event>, down: bool): nat {
    if events == [] then 0
    else
      var e := events[|events| - 1];
      LongInjections(events[..|events| - 1], down)
        + if e.Inject? && e.down == down && |e.packet| >= 16 then 1 else 0
  }

  lemma {:induction false} RunTracks(s: Session, down: bool, key: Key, events: seq<Event>)
    requires Tracks(Direction(s, down), key) && Direction(s, down).injected == 0
    ensures var l := Direction(SessionRun(s, events), down);
            Tracks(l, key) && l.injected == LongInjections(events, down)
  {
    hide Tracks, Encrypt, Decrypt;
    if events != [] {
      var t, e := SessionRun(s, events[..|events| - 1]), events[|events| - 1];
      RunTracks(s, down, key, events[..|events| - 1]);
      StepTracks(Direction(t, down), key, e);
    }
  }

  /** The two directions of a session opened after any honest handshake, under any events whatever. */
  lemma SessionTracks(c: Primitives, si: Key, ei: Key, sr: Key, er: Key, events: seq<Event>, down: bool)
    requires Commutes(c) && HonestRun(c, si, ei, sr, er).Some?
    ensures var (i, r) := HonestRun(c, si, ei, sr, er).value;
            var l := Direction(SessionRun(OpenSession(i, r), events), down);
            Tracks(l, if down then i.send.k else r.send.k) && l.injected == LongInjections(events, down)
  {
    hide HonestRun, SessionRun, LongInjections;
    HonestRunAgrees(c, si, ei, sr, er);
    var (i, r) := HonestRun(c, si, ei, sr, er).value;
    RunTracks(OpenSession(i, r), down, if down then i.send.k else r.send.k, events);
  }

  /** Sealing the k-th message under the counter moved by shift gives the bytes that were sent. */
  predicate SameUnder(key: Key, k: nat, shift: nat, m: Message) {
    ChaChaPoly.Seal(key, NonceOf(Wrap(k + shift)), m.ad, m.plaintext)
    == ChaChaPoly.Seal(key, NonceOf(Wrap(k)), m.ad, m.plaintext)
  }

  /** Under a counter moved by shift a packet opens to its own plaintext exactly when sealing that plaintext under the
      moved counter gives the very same bytes; a shift that is a multiple of 2^64 is none. */
  lemma OpenedIff(key: Key, k: nat, shift: nat, m: Message)
    ensures Opened(key, k, shift, m) == Some(m.plaintext) <==> SameUnder(key, k, shift, m)
    ensures shift % TWO64 == 0 ==> Opened(key, k, shift, m) == Some(m.plaintext)
  {
    assert shift % TWO64 == 0 ==> Wrap(k + shift) == Wrap(k) by { WrapShift(k, shift); }
    hide ChaChaPoly.Seal, ChaChaPoly.Open, NonceOf, Wrap;
    var (ct, tag) := ChaChaPoly.Seal(key, NonceOf(Wrap(k)), m.ad, m.plaintext);
    assert (ct + tag)[..|ct|] == ct && (ct + tag)[|ct|..] == tag;
    ChaChaPoly.OpenIffSealed(key, NonceOf(Wrap(k + shift)), m.ad, m.plaintext, ct, tag);
  }

  lemma WrapShift(k: nat, shift: nat)
    ensures Wrap(k + shift) == Wrap(k) <==> shift % TWO64 == 0
  {
    if Wrap(k + shift) == Wrap(k) {
      var d := MultipleOfCongruent(k + shift, k, TWO64);
      CongruentByMultiple(shift, 0, TWO64, d);
    }
    if shift % TWO64 == 0 {
      CongruentByMultiple(k + shift, k, TWO64, shift / TWO64);
    }
  }

  predicate Quiet(events: seq<Event>) {
    forall i :: 0 <= i < |events| && events[i].Inject? ==> |events[i].packet| < 16
  }

  lemma {:induction false} QuietCounts(events: seq<Event>, down: bool)
    requires Quiet(events)
    ensures LongInjections(events, down) == 0
  {
    if events != [] {
      QuietCounts(events[..|events| - 1], down);
    }
  }

  /** After any honest handshake, in every interleaving of sends, in-order deliveries and foreign packets too short for
      a tag, each end has received exactly what the other sent, in order, as far as it was delivered. */
  lemma TransportDelivers(c: Primitives, si: Key, ei: Key, sr: Key, er: Key, events: seq<Event>, down: bool)
    requires Commutes(c) && HonestRun(c, si, ei, sr, er).Some? && Quiet(events)
    ensures var (i, r) := HonestRun(c, si, ei, sr, er).value;
            var l := Direction(SessionRun(OpenSession(i, r), events), down);
            && |l.got| + |l.wire| == |l.sent|
            && forall k :: 0 <= k < |l.got| ==> l.got[k] == Some(l.sent[k].plaintext)
  {
    hide HonestRun, SessionRun, Tracks, Quiet, LongInjections;
    var (i, r) := HonestRun(c, si, ei, sr, er).value;
    SessionTracks(c, si, ei, sr, er, events, down);
    QuietCounts(events, down);
    LinkDelivers(Direction(SessionRun(OpenSession(i, r), events), down), if down then i.send.k else r.send.k);
  }

  lemma LinkDelivers(l: Link, key: Key)
    requires Tracks(l, key) && l.injected == 0
    ensures |l.got| + |l.wire| == |l.sent|
    ensures forall k :: 0 <= k < |l.got| ==> l.got[k] == Some(l.sent[k].plaintext)
  {
    hide Opened, Sealed, NonceOf, ChaChaPoly.Seal;
    forall k | 0 <= k < |l.got|
      ensures l.got[k] == Some(l.sent[k].plaintext)
    {
      OpenedIff(key, k, l.shifts[k], l.sent[k]);
    }
  }

  /**
   * In every run whatever: the receiver's counter is the number of its packets, foreign ones with room for a tag
   * included; the k-th honest packet arrives as its plaintext exactly when sealing under the moved counter would have
   * given the same bytes; and the receiver stands at the counter of the next honest packet exactly when the foreign
   * ones number a multiple of 2^64.
   */
  lemma ForeignPacketsShift(c: Primitives, si: Key, ei: Key, sr: Key, er: Key, events: seq<Event>, down: bool)
    requires Commutes(c) && HonestRun(c, si, ei, sr, er).Some?
    ensures var (i, r) := HonestRun(c, si, ei, sr, er).value;
            var key := if down then i.send.k else r.send.k;
            var l := Direction(SessionRun(OpenSession(i, r), events), down);
            && l.receiver.n == Wrap(|l.got| + LongInjections(events, down))
            && (l.receiver.n == Wrap(|l.got|) <==> LongInjections(events, down) % TWO64 == 0)
            && |l.shifts| == |l.got| <= |l.sent|
            && forall k :: 0 <= k < |l.got| ==>
                 (l.got[k] == Some(l.sent[k].plaintext) <==> SameUnder(key, k, l.shifts[k], l.sent[k]))
  {
    hide HonestRun, SessionRun, Tracks, LongInjections, SameUnder;
    var (i, r) := HonestRun(c, si, ei, sr, er).value;
    SessionTracks(c, si, ei, sr, er, events, down);
    LinkShift(Direction(SessionRun(OpenSession(i, r), events), down), if down then i.send.k else r.send.k);
  }

  lemma LinkShift(l: Link, key: Key)
    requires Tracks(l, key)
    ensures l.receiver.n == Wrap(|l.got| + l.injected)
    ensures l.receiver.n == Wrap(|l.got|) <==> l.injected % TWO64 == 0
    ensures |l.shifts| == |l.got| <= |l.sent|
    ensures forall k :: 0 <= k < |l.got| ==>
              (l.got[k] == Some(l.sent[k].plaintext) <==> SameUnder(key, k, l.shifts[k], l.sent[k]))
  {
    hide Opened, Sealed, SameUnder, Wrap;
    WrapShift(|l.got|, l.injected);
    forall k | 0 <= k < |l.got|
      ensures l.got[k] == Some(l.sent[k].plaintext) <==> SameUnder(key, k, l.shifts[k], l.sent[k])
    {
      OpenedIff(key, k, l.shifts[k], l.sent[k]);
    }
  }

  /** For every receiver there is a packet it rejects that still moves its counter: the tag of the empty text, changed. */
  lemma RejectedPacket(s: Cipher, ad: seq<byte>)
    ensures var tag := ChaChaPoly.SealTag(s.k, NonceOf(s.n), ad, []);
            var packet := tag[0 := if tag[0] == 0 then 1 else 0];
            && |packet| == 16
            && Decrypt(s, ad, packet) == (s.(n := Next(s.n)), None) && Next(s.n) != s.n
  {
    hide ChaChaPoly.SealTag, NonceOf, ChaChaPoly.CryptText;
    var tag := ChaChaPoly.SealTag(s.k, NonceOf(s.n), ad, []);
    var packet := tag[0 := if tag[0] == 0 then 1 else 0];
    assert packet[..0] == [] && packet[0..] == packet && packet[0] != tag[0];
  }

  /////////////////////////////////////////////////////////////////////////////
  // Keys and nonces
  /////////////////////////////////////////////////////////////////////////////

  lemma NonceInjective(m: uint64, n: uint64)
    ensures NonceOf(m) == NonceOf(n) ==> m == n
  {
    hide ToLE, LE;
    Pow256Of4();
    Pow256Add(4, 4);
    ToLERoundTrip(m, 8);
    ToLERoundTrip(n, 8);
    assert NonceOf(m)[4..] == ToLE(m, 8) && NonceOf(n)[4..] == ToLE(n, 8);
  }

  /** The transport keys are the halves of one key derivation from the agreed chaining key. */
  lemma KeysAreHalves(c: Primitives, si: Key, ei: Key, sr: Key, er: Key)
    requires Commutes(c) && HonestRun(c, si, ei, sr, er).Some?
    ensures var (i, r) := HonestRun(c, si, ei, sr, er).value;
            var halves := c.hkdf(i.ss.ck, []);
            halves.Some? && halves.value.0 == i.send.k && halves.value.1 == r.send.k
  {
    hide MixDh, EncryptAndHash, DecryptAndHash, MixHash, InitSym, WriteMsg2, WriteMsg3, ReadMsg3, Msg2State, Msg3State;
    ResponderMsg2(c, si, ei, sr, er);
    InitiatorMsg2(c, si, ei, sr, er);
    InitiatorMsg3(c, si, ei, sr, er);
    HonestRunAgrees(c, si, ei, sr, er);
    var (s4, enc) := Msg2State(c, si, ei, sr, er).value;
    var s6 := Msg3State(c, s4, si, er).value.0;
    var (i, r) := HonestRun(c, si, ei, sr, er).value;
    assert i.ss == s6 && Split(c, s6) == Some((i.send, i.recv));
    SplitHalves(c, s6);
  }

  lemma SplitHalves(c: Primitives, s: Sym)
    ensures Split(c, s).Some? ==> c.hkdf(s.ck, []).Some?
    ensures Split(c, s).Some? ==>
              Split(c, s).value == (Cipher(c.hkdf(s.ck, []).value.0, 0), Cipher(c.hkdf(s.ck, []).value.1, 0))
  {
  }

  /**
   * Two encryptions of a session, each given by its direction and number, use one (key, nonce) pair exactly when their
   * numbers agree modulo 2^64 and they are in one direction, or in both with a key derivation that returned equal
   * halves.
   */
  lemma PairsRepeatIff(c: Primitives, si: Key, ei: Key, sr: Key, er: Key, events: seq<Event>,
                       d: bool, j: nat, d': bool, k: nat)
    requires Commutes(c) && HonestRun(c, si, ei, sr, er).Some?
    ensures var (i, r) := HonestRun(c, si, ei, sr, er).value;
            var s := SessionRun(OpenSession(i, r), events);
            var a, b := Direction(s, d).pairs, Direction(s, d').pairs;
            j < |a| && k < |b| ==>
              (a[j] == b[k] <==> j % TWO64 == k % TWO64 && (d == d' || i.send.k == r.send.k))
  {
    hide HonestRun, SessionRun, Opened, Sealed, LongInjections, NonceOf;
    SessionTracks(c, si, ei, sr, er, events, d);
    SessionTracks(c, si, ei, sr, er, events, d');
    NonceInjective(Wrap(j), Wrap(k));
  }

  /** Below 2^64 messages a direction, a session whose derived halves differ never uses a pair twice. */
  lemma PairsAreFresh(c: Primitives, si: Key, ei: Key, sr: Key, er: Key, events: seq<Event>,
                      d: bool, j: nat, d': bool, k: nat)
    requires Commutes(c) && HonestRun(c, si, ei, sr, er).Some?
    requires var (i, r) := HonestRun(c, si, ei, sr, er).value;
             i.send.k != r.send.k && j < TWO64 && k < TWO64 && (d != d' || j != k)
    ensures var (i, r) := HonestRun(c, si, ei, sr, er).value;
            var s := SessionRun(OpenSession(i, r), events);
            j < |Direction(s, d).pairs| && k < |Direction(s, d').pairs| ==>
              Direction(s, d).pairs[j] != Direction(s, d').pairs[k]
  {
    hide HonestRun, SessionRun;
    PairsRepeatIff(c, si, ei, sr, er, events, d, j, d', k);
  }

  /** A key derivation that meets every law asked of it but returns equal halves. */
  function EqualHalves(): (c: Primitives) {
    var zero: Key := Zeros(32);
    Primitives(_ => zero, (_, _) => Some((zero, zero)), k => k, (_, _) => Some(zero))
  }

  /** With it every run ends, and the first packets of the two directions use one (key, nonce) pair. */
  lemma EqualHalvesReuse(si: Key, ei: Key, sr: Key, er: Key, plaintext: seq<byte>)
    ensures var c := EqualHalves();
            && Commutes(c) && HkdfSucceeds(c) && HonestRun(c, si, ei, sr, er).Some?
            && var (i, r) := HonestRun(c, si, ei, sr, er).value;
            var s := SessionRun(OpenSession(i, r), [Send(true, [], plaintext), Send(false, [], plaintext)]);
            |s.down.pairs| == |s.up.pairs| == 1 && s.down.pairs[0] == s.up.pairs[0]
  {
    var c := EqualHalves();
    var events := [Send(true, [], plaintext), Send(false, [], plaintext)];
    HonestRunEnds(c, si, ei, sr, er);
    KeysAreHalves(c, si, ei, sr, er);
    hide HonestRun, Encrypt, NonceOf;
    var (i, r) := HonestRun(c, si, ei, sr, er).value;
    var s0 := OpenSession(i, r);
    assert events[..1] == [events[0]] && events[..1][..0] == [];
    assert SessionRun(s0, events[..1][..0]) == s0;
    assert SessionRun(s0, events[..1]) == SessionStep(s0, events[0]);
    PairsRepeatIff(c, si, ei, sr, er, events, true, 0, false, 0);
  }
}
