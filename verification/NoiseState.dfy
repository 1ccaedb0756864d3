/** The handshake objects: fields updated in place, each step proved against the functions of Noise. */
module NoiseState {
  import opened Bytes
  import opened Wrappers
  import opened Noise
  import ChaChaPoly

  /** Seals pt under a fresh AEAD context; the result is the ciphertext followed by the tag. */
  method AeadEncrypt(key: Key, nonce: Nonce, ad: seq<byte>, pt: seq<byte>) returns (ct: seq<byte>)
    ensures ct == ChaChaPoly.Seal(key, nonce, ad, pt).0 + ChaChaPoly.Seal(key, nonce, ad, pt).1
  {
    hide ChaChaPoly.Seal;
    var input := new byte[|pt|](i requires 0 <= i < |pt| => pt[i]);
    var output := new byte[|pt|];
    var ctx := new ChaChaPoly.Context(key);
    assert input[..|pt|] == pt;
    var tag := ctx.EncryptAndTag(nonce, ad, |pt|, input, output);
    assert output[..|pt|] == output[..];
    ct := output[..] + tag;
  }

  method AeadDecrypt(key: Key, nonce: Nonce, ad: seq<byte>, packet: seq<byte>) returns (pt: Option<seq<byte>>)
    requires |packet| >= 16
    ensures pt == ChaChaPoly.Open(key, nonce, ad, packet[..|packet| - 16], packet[|packet| - 16..])
  {
    hide ChaChaPoly.Open;
    var plen := |packet| - 16;
    var input := new byte[plen](i requires 0 <= i < plen => packet[i]);
    var output := new byte[plen];
    var ctx := new ChaChaPoly.Context(key);
    assert input[..plen] == packet[..plen];
    var ret := ctx.AuthDecrypt(nonce, ad, plen, packet[plen..], input, output);
    assert output[..plen] == output[..];
    pt := if ret.Ok? then Some(output[..]) else None;
  }

  /** NoiseCipherState */
  class CipherState {
    var k: Key
    var n: uint64

    ghost function View(): Cipher
      reads this
    {
      Cipher(k, n)
    }

    constructor ()
      ensures View() == Cipher(Zeros(32), 0)
    {
      k, n := Zeros(32), 0;
    }

    method EncryptPacket(ad: seq<byte>, pt: seq<byte>) returns (ct: seq<byte>)
      modifies this
      ensures (View(), ct) == Encrypt(old(View()), ad, pt)
    {
      hide ChaChaPoly.Seal, NonceOf;
      var nonce := NonceOf(n);
      n := Next(n);
      ct := AeadEncrypt(k, nonce, ad, pt);
    }

    method DecryptPacket(ad: seq<byte>, ct: seq<byte>) returns (pt: Option<seq<byte>>)
      modifies this
      ensures (View(), pt) == Decrypt(old(View()), ad, ct)
    {
      hide ChaChaPoly.Open, NonceOf;
      if |ct| < 16 {
        return None;
      }
      var nonce := NonceOf(n);
      n := Next(n);
      pt := AeadDecrypt(k, nonce, ad, ct);
    }
  }

  /** NoiseSymmetricState */
  class SymmetricState {
    const c: Primitives
    var ck: Key
    var h: Key
    var k: Key
    var n: uint64
    var hasKey: bool

    ghost function View(): Sym
      reads this
    {
      Sym(ck, h, k, n, hasKey)
    }

    constructor (c: Primitives)
      ensures this.c == c && View() == InitSym(c)
    {
      this.c := c;
      ck := PROTOCOL_NAME;
      k, n, hasKey := Zeros(32), 0, false;
      h := c.hash(PROTOCOL_NAME + []);
    }

    method MixHashWith(data: seq<byte>)
      modifies this
      ensures View() == MixHash(c, old(View()), data)
    {
      h := c.hash(h + data);
    }

    method MixKeyWith(ikm: seq<byte>) returns (ok: bool)
      modifies this
      ensures match MixKey(c, old(View()), ikm)
              case Some(s) => ok && View() == s
              case None => !ok && View() == old(View())
    {
      var out := c.hkdf(ck, ikm);
      if out.None? {
        return false;
      }
      ck := out.value.0;
      k := out.value.1;
      n, hasKey := 0, true;
      ok := true;
    }

    /** noise_dh followed by MixKey */
    method MixDhWith(priv: Key, pub: Key) returns (ok: bool)
      modifies this
      ensures match MixDh(c, old(View()), priv, pub)
              case Some(s) => ok && View() == s
              case None => !ok
    {
      hide MixKey;
      var secret := c.dh(priv, pub);
      if secret.None? {
        return false;
      }
      ok := MixKeyWith(secret.value);
    }

    method Seal(pt: seq<byte>) returns (ct: seq<byte>)
      modifies this
      ensures (View(), ct) == EncryptAndHash(c, old(View()), pt)
    {
      hide ChaChaPoly.Seal, NonceOf;
      if !hasKey {
        ct := pt;
        MixHashWith(ct);
        return;
      }
      var nonce := NonceOf(n);
      n := Next(n);
      ct := AeadEncrypt(k, nonce, h, pt);
      MixHashWith(ct);
    }

    method Open(ct: seq<byte>) returns (pt: Option<seq<byte>>)
      modifies this
      ensures (View(), pt) == DecryptAndHash(c, old(View()), ct)
    {
      hide ChaChaPoly.Open, NonceOf;
      if !hasKey {
        if |ct| == 0 {
          return Some([]);
        }
        MixHashWith(ct);
        return Some(ct);
      }
      if |ct| < 16 {
        return None;
      }
      var nonce := NonceOf(n);
      n := Next(n);
      pt := AeadDecrypt(k, nonce, h, ct);
      if pt.Some? {
        MixHashWith(ct);
      }
    }

    /** noise_split: keys into the two cipher states, counters to zero. */
    method SplitInto(first: CipherState, second: CipherState) returns (ok: bool)
      requires first != second
      modifies first, second
      ensures match Split(c, View())
              case Some((k1, k2)) => ok && first.View() == k1 && second.View() == k2
              case None => !ok && first.View() == old(first.View()) && second.View() == old(second.View())
    {
      var out := c.hkdf(ck, []);
      if out.None? {
        return false;
      }
      first.k, second.k := out.value.0, out.value.1;
      first.n, second.n := 0, 0;
      ok := true;
    }
  }

  /** NoiseHandshakeState */
  class HandshakeState {
    const c: Primitives
    var role: Role
    var phase: Phase
    const ss: SymmetricState
    var ePriv: Key
    var ePub: Key
    var rePub: Key
    var rsPub: Key
    var sPriv: Key
    var sPub: Key
    const send: CipherState
    const recv: CipherState

    ghost function Repr(): set<object> {
      {this, ss, send, recv}
    }

    ghost predicate Valid()
      reads this
    {
      ss.c == c && send != recv
    }

    ghost function View(): Hs
      reads this, ss, send, recv
    {
      Hs(role, phase, ss.View(), ePriv, ePub, rePub, rsPub, sPriv, sPub, send.View(), recv.View())
    }

    /** noise_hs_init; the ephemeral private key is the random input. */
    constructor (c: Primitives, role: Role, sPriv: Key, ephemeral: Key)
      ensures Valid() && this.c == c && View() == InitHs(c, role, sPriv, ephemeral) && fresh(Repr())
    {
      this.c, this.role, phase := c, role, Idle;
      this.sPriv, sPub := sPriv, c.pub(sPriv);
      ss := new SymmetricState(c);
      ePriv, ePub := ephemeral, c.pub(ephemeral);
      rePub, rsPub := Zeros(32), Zeros(32);
      send := new CipherState();
      recv := new CipherState();
    }

    /** After a failed step: the phase stays if the call was out of order and is Failed otherwise. */
    ghost predicate StepFailed(before: Hs, expected: Phase, actor: Role)
      reads this, ss, send, recv
    {
      phase == (if before.phase == expected && before.role == actor then Failed else before.phase)
    }

    method SendMsg1() returns (out: Option<seq<byte>>)
      requires Valid()
      modifies Repr()
      ensures Valid()
      ensures match WriteMsg1(c, old(View()))
              case Some((hs, msg)) => View() == hs && out == Some(msg)
              case None => out == None && View() == old(View())
    {
      if phase != Idle || role != Initiator {
        return None;
      }
      ss.MixHashWith(ePub);
      phase := AwaitMsg2;
      out := Some(ePub);
    }

    method ReadMsg1SendMsg2(msg1: seq<byte>) returns (out: Option<seq<byte>>)
      requires Valid()
      modifies Repr()
      ensures Valid()
      ensures match WriteMsg2(c, old(View()), msg1)
              case Some((hs, msg)) => View() == hs && out == Some(msg)
              case None => out == None && StepFailed(old(View()), Idle, Responder)
    {
      hide MixDh, EncryptAndHash, MixHash;
      if phase != Idle || role != Responder {
        return None;
      }
      if |msg1| < 32 {
        phase := Failed;
        return None;
      }
      rePub := msg1[..32];
      ss.MixHashWith(rePub);
      ss.MixHashWith(ePub);
      var ok := ss.MixDhWith(ePriv, rePub);
      if !ok { phase := Failed; return None; }
      var enc := ss.Seal(sPub);
      ok := ss.MixDhWith(sPriv, rePub);
      if !ok { phase := Failed; return None; }
      phase := AwaitMsg3;
      out := Some(ePub + enc);
    }

    method ReadMsg2SendMsg3(msg2: seq<byte>) returns (out: Option<seq<byte>>)
      requires Valid()
      modifies Repr()
      ensures Valid()
      ensures match WriteMsg3(c, old(View()), msg2)
              case Some((hs, msg)) => View() == hs && out == Some(msg)
              case None => out == None && StepFailed(old(View()), AwaitMsg2, Initiator)
    {
      hide MixDh, EncryptAndHash, DecryptAndHash, MixHash, Split;
      if phase != AwaitMsg2 || role != Initiator {
        return None;
      }
      if |msg2| < 80 {
        phase := Failed;
        return None;
      }
      rePub := msg2[..32];
      ss.MixHashWith(rePub);
      var ok := ss.MixDhWith(ePriv, rePub);
      if !ok { phase := Failed; return None; }
      var rs := ss.Open(msg2[32..80]);
      if rs.None? || AsKey(rs.value).None? { phase := Failed; return None; }
      rsPub := rs.value;
      ok := ss.MixDhWith(ePriv, rsPub);
      if !ok { phase := Failed; return None; }
      var enc := ss.Seal(sPub);
      ok := ss.MixDhWith(sPriv, rePub);
      if !ok { phase := Failed; return None; }
      ok := ss.SplitInto(send, recv);
      if !ok { phase := Failed; return None; }
      phase := Transport;
      out := Some(enc);
    }

    method ReadMsg3Finish(msg3: seq<byte>) returns (ok: bool)
      requires Valid()
      modifies Repr()
      ensures Valid()
      ensures match ReadMsg3(c, old(View()), msg3)
              case Some(hs) => View() == hs && ok
              case None => !ok && StepFailed(old(View()), AwaitMsg3, Responder)
    {
      hide MixDh, DecryptAndHash, MixHash, Split;
      if phase != AwaitMsg3 || role != Responder {
        return false;
      }
      if |msg3| < 48 {
        phase := Failed;
        return false;
      }
      var rs := ss.Open(msg3[..48]);
      if rs.None? || AsKey(rs.value).None? { phase := Failed; return false; }
      rsPub := rs.value;
      ok := ss.MixDhWith(ePriv, rsPub);
      if !ok { phase := Failed; return false; }
      ok := ss.SplitInto(recv, send);
      if !ok { phase := Failed; return false; }
      phase := Transport;
    }

    /** noise_hs_encrypt: only in the transport phase. */
    method EncryptMessage(ad: seq<byte>, pt: seq<byte>) returns (ct: Option<seq<byte>>)
      requires Valid()
      modifies send
      ensures old(phase) != Transport ==> ct == None && View() == old(View())
      ensures old(phase) == Transport ==>
        ct == Some(Encrypt(old(View()).send, ad, pt).1) && View() == old(View()).(send := Encrypt(old(View()).send, ad, pt).0)
    {
      hide Encrypt;
      if phase != Transport {
        return None;
      }
      var body := send.EncryptPacket(ad, pt);
      ct := Some(body);
    }

    method DecryptMessage(ad: seq<byte>, ct: seq<byte>) returns (pt: Option<seq<byte>>)
      requires Valid()
      modifies recv
      ensures old(phase) != Transport ==> pt == None && View() == old(View())
      ensures old(phase) == Transport ==>
        pt == Decrypt(old(View()).recv, ad, ct).1 && View() == old(View()).(recv := Decrypt(old(View()).recv, ad, ct).0)
    {
      hide Decrypt;
      if phase != Transport {
        return None;
      }
      pt := recv.DecryptPacket(ad, ct);
    }
  }
}
