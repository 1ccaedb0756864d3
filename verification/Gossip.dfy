/** Flooding with a hop limit: the relay rule of one node, and what it means for a whole network. */
module Gossip {
  import opened Bytes
  import Dedup
  import PacketEngine

  const ANNOUNCE: int := 1
  const MESSAGE: int := 2

  /////////////////////////////////////////////////////////////////////////////
  // One node
  /////////////////////////////////////////////////////////////////////////////

  /** The hash of the first n bytes of a packet, without the TTL byte. */
  function HashUpTo(pkt: seq<byte>, n: nat): uint32
    requires n <= |pkt|
  {
    if n == 0 then 5381
    else if n - 1 == 2 then HashUpTo(pkt, n - 1)
    else Mix(HashUpTo(pkt, n - 1), pkt[n - 1])
  }

  /** ((h << 5) + h) + b in 32 bits. */
  function Mix(h: uint32, b: byte): uint32 {
    var x: int, y: int := h, b;
    (x * 32 + x + y) % TWO32
  }

  method RelayHash(pkt: seq<byte>) returns (h: uint32)
    ensures h == HashUpTo(pkt, |pkt|)
  {
    h := 5381;
    for i := 0 to |pkt|
      invariant h == HashUpTo(pkt, i)
    {
      if i == 2 {
        continue;
      }
      h := Mix(h, pkt[i]);
    }
  }

  /** Copies of a packet that differ only in hop count hash alike. */
  lemma {:induction false} HashIgnoresTtl(pkt: seq<byte>, ttl: byte, n: nat)
    requires 3 <= |pkt| && n <= |pkt|
    ensures HashUpTo(pkt[2 := ttl], n) == HashUpTo(pkt, n)
  {
    if n > 0 {
      hide Mix;
      HashIgnoresTtl(pkt, ttl, n - 1);
    }
  }

  /** The bytes that are hashed: all but the hop count at index 2. */
  function WithoutTtl(s: seq<byte>): (r: seq<byte>) {
    if |s| <= 2 then s else s[..2] + s[3..]
  }

  /** The digits s in base 33, behind a leading 5381. */
  function Base33(s: seq<byte>): nat {
    if s == [] then 5381 else 33 * Base33(s[..|s| - 1]) + s[|s| - 1]
  }

  /** The hash is that number modulo 2^32. */
  lemma {:induction false} HashIsBase33(pkt: seq<byte>, n: nat)
    requires n <= |pkt|
    ensures HashUpTo(pkt, n) == Base33(WithoutTtl(pkt[..n])) % TWO32
  {
    if n == 0 {
      assert pkt[..n] == [];
    } else {
      var before, after := WithoutTtl(pkt[..n - 1]), WithoutTtl(pkt[..n]);
      HashIsBase33(pkt, n - 1);
      Kept(pkt, n);
      hide WithoutTtl, Mix, Base33;
      if n - 1 == 2 {
        assert after == before;
      } else {
        OneDigit(before, pkt[n - 1]);
        MixDigit(Base33(before), pkt[n - 1]);
      }
    }
  }

  lemma Kept(pkt: seq<byte>, n: nat)
    requires 0 < n <= |pkt|
    ensures WithoutTtl(pkt[..n]) == WithoutTtl(pkt[..n - 1]) + if n - 1 == 2 then [] else [pkt[n - 1]]
  {
  }

  lemma OneDigit(s: seq<byte>, b: byte)
    ensures Base33(s + [b]) == 33 * Base33(s) + b
  {
    assert (s + [b])[..|s|] == s;
  }

  lemma MixDigit(x: nat, b: byte)
    ensures Mix(x % TWO32, b) == (33 * x + b) % TWO32
  {
    var y: int := b;
    assert (33 * (x % TWO32) + y) % TWO32 == (33 * x + y) % TWO32;
  }

  /** 33 is odd, so mixing loses nothing. */
  lemma MixInjective(h: uint32, h': uint32, b: byte)
    ensures Mix(h, b) == Mix(h', b) ==> h == h'
  {
    var x: int, y: int, z: int := h, h', b;
    if Mix(h, b) == Mix(h', b) {
      var k := (33 * x + z) / TWO32 - (33 * y + z) / TWO32;
      assert 33 * (x - y) == TWO32 * k;
    }
  }

  /** Every byte but the hop count counts: changing one changes the hash. */
  lemma {:induction false} HashSeesEveryByte(pkt: seq<byte>, k: nat, b: byte, n: nat)
    requires k < n <= |pkt| && k != 2 && b != pkt[k]
    ensures HashUpTo(pkt[k := b], n) != HashUpTo(pkt, n)
  {
    if k == n - 1 {
      HashOfPrefix(pkt, k, b, k);
      MixByteDiffers(HashUpTo(pkt, k), pkt[k], b);
    } else {
      HashSeesEveryByte(pkt, k, b, n - 1);
      hide Mix;
      MixInjective(HashUpTo(pkt[k := b], n - 1), HashUpTo(pkt, n - 1), pkt[n - 1]);
    }
  }

  lemma {:induction false} HashOfPrefix(pkt: seq<byte>, k: nat, b: byte, n: nat)
    requires n <= k < |pkt|
    ensures HashUpTo(pkt[k := b], n) == HashUpTo(pkt, n)
  {
    hide Mix;
    if n > 0 {
      HashOfPrefix(pkt, k, b, n - 1);
    }
  }

  lemma MixByteDiffers(h: uint32, b: byte, b': byte)
    ensures Mix(h, b) == Mix(h, b') ==> b == b'
  {
  }

  function PadTarget(len: nat, size: nat): nat {
    var target := if len <= 256 then 256 else if len <= 512 then 512 else if len <= 1024 then 1024 else 2048;
    if target > size then size else target
  }

  /** PKCS#7-style padding to the next block size; the pad byte is the pad length modulo 256. */
  function Padded(data: seq<byte>, size: nat): (r: seq<byte>)
    ensures data <= r
  {
    var pad := PadTarget(|data|, size) - |data|;
    if pad <= 0 then data else data + seq(pad, _ => pad % 256)
  }

  /** Up to 2048 bytes a packet is padded to the least of 256, 512, 1024 and 2048 bytes that holds it. */
  lemma PaddedLength(data: seq<byte>)
    requires |data| <= 2048
    ensures var n := |Padded(data, 2048)|;
            && (|data| <= 256 <==> n == 256) && (256 < |data| <= 512 <==> n == 512)
            && (512 < |data| <= 1024 <==> n == 1024) && (1024 < |data| <==> n == 2048)
  {
  }

  /** Unpadding takes off exactly what padding put on when the pad has 1 to 255 bytes; with no pad it depends on the data
      looking padded already; and a longer pad is never taken off whole. */
  lemma UnpadsPaddingIff(data: seq<byte>, size: nat)
    ensures var pad := PadTarget(|data|, size) - |data|;
            PacketEngine.Unpadded(Padded(data, size)) == |data|
            <==> 1 <= pad <= 255 || (pad <= 0 && PacketEngine.Unpadded(data) == |data|)
  {
    var pad := PadTarget(|data|, size) - |data|;
    if pad > 0 {
      var buf, pv := Padded(data, size), pad % 256;
      hide Padded;
      assert buf == data + seq(pad, _ => pv);
      assert forall i :: |data| <= i < |buf| ==> buf[i] == pv;
      assert buf[|buf| - 1] == pv;
    }
  }

  /** A pad of 424 bytes carries the byte 168, and 168 bytes are taken off. */
  lemma LongPadStays()
    ensures PacketEngine.Unpadded(Padded(Zeros(600), 2048)) == 1024 - 168
  {
    var buf := Padded(Zeros(600), 2048);
    assert buf == Zeros(600) + seq(424, _ => 168);
    hide Padded;
    assert buf[|buf| - 1] == 168;
    assert forall i :: 600 <= i < 1024 ==> buf[i] == 168;
  }

  datatype Peer = Peer(active: bool, conn: nat)
  datatype Sent = Sent(conn: nat, bytes: seq<byte>)

  /** What the peers other than the one it came from are sent. */
  function Copies(peers: seq<Peer>, except: nat, bytes: seq<byte>): (r: seq<Sent>)
    ensures |r| <= |peers| && forall i :: 0 <= i < |r| ==> r[i].bytes == bytes && r[i].conn != except
  {
    if peers == [] then []
    else
      var p, rest := peers[|peers| - 1], Copies(peers[..|peers| - 1], except, bytes);
      if !p.active || p.conn == except then rest else rest + [Sent(p.conn, bytes)]
  }

  /** A connection gets a copy exactly when an active peer is on it and it is not the one the packet came from. */
  lemma {:induction false} CopiesReach(peers: seq<Peer>, except: nat, bytes: seq<byte>, c: nat)
    ensures Sent(c, bytes) in Copies(peers, except, bytes) <==> Peer(true, c) in peers && c != except
  {
    if peers != [] {
      var n := |peers| - 1;
      assert peers == peers[..n] + [peers[n]];
      CopiesReach(peers[..n], except, bytes, c);
    }
  }

  /** And as many copies leave as there are such peers. */
  lemma {:induction false} CopiesCount(peers: seq<Peer>, except: nat, bytes: seq<byte>)
    ensures |Copies(peers, except, bytes)| == |Others(peers, except)|
  {
    if peers != [] {
      CopiesCount(peers[..|peers| - 1], except, bytes);
    }
  }

  /** The active peers on other connections. */
  function Others(peers: seq<Peer>, except: nat): seq<Peer> {
    if peers == [] then []
    else
      var p, rest := peers[|peers| - 1], Others(peers[..|peers| - 1], except);
      if p.active && p.conn != except then rest + [p] else rest
  }

  function Ttl(pkt: seq<byte>): int
    requires |pkt| >= 3
  {
    pkt[2]
  }

  /** The relayed form of a packet: one hop less, padded again. */
  function Relayed(pkt: seq<byte>): (r: seq<byte>)
    requires |pkt| >= 3
    ensures |r| >= |pkt|
  {
    var ttl: int := pkt[2];
    Padded(pkt[2 := (ttl - 1) % 256], 2048)
  }

  /** The TTL bytes of packets sent. */
  function Ttls(sent: seq<Sent>): (r: seq<byte>)
    ensures |r| == |sent|
    ensures forall i :: 0 <= i < |sent| ==> r[i] == if |sent[i].bytes| >= 3 then sent[i].bytes[2] else 0
  {
    seq(|sent|, i requires 0 <= i < |sent| => if |sent[i].bytes| >= 3 then sent[i].bytes[2] else 0)
  }

  /** The network step of a node that sends n copies. */
  function Relaying(n: nat): Delivery {
    Delivery(0, n > 0, n)
  }

  class RelayNode {
    var peers: seq<Peer>
    const ring: Dedup.DedupRing
    var sent: seq<Sent>

    ghost predicate Valid()
      reads this, ring
    {
      ring.Valid() && ring.ttl == 30000
    }

    constructor (peers: seq<Peer>)
      ensures Valid() && this.peers == peers && sent == [] && fresh(ring)
    {
      this.peers, sent := peers, [];
      ring := new Dedup.DedupRing(Dedup.RELAY_TTL_MS);
    }

    /** A short or recently seen packet changes nothing; any other was copied to the other peers and recorded. */
    ghost predicate PassedOn(sent0: seq<Sent>, log0: seq<Dedup.Entry>, pkt: seq<byte>, except: nat, now: uint32)
      reads this, ring
      requires |log0| >= Dedup.SIZE
    {
      var h := HashUpTo(pkt, |pkt|);
      if |pkt| < 14 || Dedup.Duplicate(log0, h, now, 30000)
      then sent == sent0 && ring.log == log0
      else sent == sent0 + Copies(peers, except, Relayed(pkt)) && ring.log == log0 + [Dedup.Entry(h, now)]
    }

    /** _relay_packet: nothing for a short or recently seen packet, else one copy to each other active peer. */
    method RelayPacket(pkt: seq<byte>, except: nat, now: uint32)
      requires Valid() && |pkt| <= 512
      modifies this`sent, ring
      ensures Valid()
      ensures PassedOn(old(sent), old(ring.log), pkt, except, now)
    {
      hide HashUpTo, Padded;
      if |pkt| < 14 {
        return;
      }
      var h := RelayHash(pkt);
      var dup := ring.IsDuplicate(h, now);
      if dup {
        return;
      }
      ring.Record(h, now);
      var ttl: int := pkt[2];
      var buf := Padded(pkt[2 := (ttl - 1) % 256], 2048);
      ghost var before := sent;
      for i := 0 to |peers|
        invariant sent == before + Copies(peers[..i], except, buf)
        invariant Valid() && ring.log == old(ring.log) + [Dedup.Entry(h, now)]
      {
        assert peers[..i + 1][..i] == peers[..i];
        if !peers[i].active || peers[i].conn == except {
          continue;
        }
        sent := sent + [Sent(peers[i].conn, buf)];
      }
      assert peers[..|peers|] == peers;
    }

    /** The relay gate of _process_incoming: only announces and messages with more than one hop left are relayed, so a
        copy that leaves this node carries the received TTL minus one, at least 1. */
    method RelayGate(kind: byte, pkt: seq<byte>, except: nat, now: uint32)
      requires Valid() && 3 <= |pkt| <= 512
      modifies this`sent, ring
      ensures Valid() && old(sent) <= sent && |sent| - |old(sent)| <= |peers|
      ensures forall i :: |old(sent)| <= i < |sent| ==>
        |sent[i].bytes| >= 3 && Ttl(sent[i].bytes) == Ttl(pkt) - 1 >= 1 && sent[i].conn != except
      ensures pkt[2] <= 1 || (kind != 1 && kind != 2) ==> sent == old(sent) && ring.log == old(ring.log)
      ensures pkt[2] > 1 && (kind == 1 || kind == 2) ==>
        PassedOn(old(sent), old(ring.log), pkt, except, now)
      ensures Ttls(sent[|old(sent)|..]) == Forwarded(pkt[2], Relaying(|sent| - |old(sent)|))
    {
      hide HashUpTo, Copies;
      if pkt[2] > 1 && (kind == ANNOUNCE || kind == MESSAGE) {
        RelayedTtl(pkt);
        RelayPacket(pkt, except, now);
      }
    }
  }

  lemma RelayedTtl(pkt: seq<byte>)
    requires |pkt| >= 3 && pkt[2] > 1
    ensures Ttl(Relayed(pkt)) == Ttl(pkt) - 1
  {
    var ttl: int := pkt[2];
    var data := pkt[2 := (ttl - 1) % 256];
    assert Padded(data, 2048)[..|data|] == data;
  }

  /** A packet relayed once is not relayed again within 30 seconds, whatever its hop count, while its entry is among the
      last 64. */
  lemma RelayedOnce(log: seq<Dedup.Entry>, k: nat, pkt: seq<byte>, ttl: byte, d: nat)
    requires |log| >= Dedup.SIZE && |log| - 64 <= k < |log| && |pkt| >= 14
    requires log[k].hash == HashUpTo(pkt, |pkt|) && d < 30000
    ensures Dedup.Duplicate(log, HashUpTo(pkt[2 := ttl], |pkt|), Dedup.Later(log[k].time, d), 30000)
  {
    HashIgnoresTtl(pkt, ttl, |pkt|);
    hide HashUpTo;
    assert Dedup.Repeats(log[k], HashUpTo(pkt[2 := ttl], |pkt|), Dedup.Later(log[k].time, d), 30000);
  }

  /////////////////////////////////////////////////////////////////////////////
  // A network
  /////////////////////////////////////////////////////////////////////////////

  function Pow(b: nat, e: nat): nat {
    if e == 0 then 1 else b * Pow(b, e - 1)
  }

  /** Some node receives the copy in flight at index. relays tells whether its kind, length and dedup ring let it be
      relayed, and fanout how many other peers the node has. */
  datatype Delivery = Delivery(index: nat, relays: bool, fanout: nat)

  /** The TTLs the receiving node sends out. */
  function Forwarded(ttl: byte, d: Delivery): (r: seq<byte>)
    ensures forall i :: 0 <= i < |r| ==> r[i] == ttl - 1 && r[i] >= 1
  {
    if ttl > 1 && d.relays then seq(d.fanout, _ => ttl - 1) else []
  }

  /** The TTLs of the copies in flight after a delivery. */
  function Deliver(flight: seq<byte>, d: Delivery): seq<byte>
    requires d.index < |flight|
  {
    flight[..d.index] + flight[d.index + 1..] + Forwarded(flight[d.index], d)
  }

  /** Deliveries that can happen one after the other in a network whose nodes have at most f other peers. */
  predicate Possible(flight: seq<byte>, ds: seq<Delivery>, f: nat)
    decreases |ds|
  {
    ds == [] || (ds[0].index < |flight| && ds[0].fanout <= f && Possible(Deliver(flight, ds[0]), ds[1..], f))
  }

  function FlightAfter(flight: seq<byte>, ds: seq<Delivery>, f: nat): seq<byte>
    requires Possible(flight, ds, f)
    decreases |ds|
  {
    if ds == [] then flight else FlightAfter(Deliver(flight, ds[0]), ds[1..], f)
  }

  /** Copies sent by all nodes together. */
  function Transmissions(flight: seq<byte>, ds: seq<Delivery>, f: nat): nat
    requires Possible(flight, ds, f)
    decreases |ds|
  {
    if ds == [] then 0
    else |Forwarded(flight[ds[0].index], ds[0])| + Transmissions(Deliver(flight, ds[0]), ds[1..], f)
  }

  function Potential(flight: seq<byte>, f: nat): nat {
    if flight == [] then 0 else Pow(f + 1, flight[0]) + Potential(flight[1..], f)
  }

  lemma {:induction false} PotentialAppend(a: seq<byte>, b: seq<byte>, f: nat)
    ensures Potential(a + b, f) == Potential(a, f) + Potential(b, f)
  {
    if a == [] {
      assert a + b == b;
    } else {
      assert (a + b)[1..] == a[1..] + b;
      PotentialAppend(a[1..], b, f);
    }
  }

  lemma {:induction false} PotentialOfCopies(ttl: byte, n: nat, f: nat)
    ensures Potential(seq(n, _ => ttl), f) == n * Pow(f + 1, ttl)
  {
    if n > 0 {
      assert seq(n, _ => ttl)[1..] == seq(n - 1, _ => ttl);
      PotentialOfCopies(ttl, n - 1, f);
    }
  }

  lemma {:induction false} PowPositive(b: nat, e: nat)
    requires b >= 1
    ensures Pow(b, e) >= 1
  {
    if e > 0 {
      PowPositive(b, e - 1);
    }
  }

  lemma {:induction false} PotentialAtLeastCount(flight: seq<byte>, f: nat)
    ensures |flight| <= Potential(flight, f)
  {
    if flight != [] {
      PowPositive(f + 1, flight[0]);
      PotentialAtLeastCount(flight[1..], f);
    }
  }

  /** At most f copies of weight (f+1)^(t-1) replace one of weight (f+1)^t. */
  lemma ForwardedCosts(ttl: byte, d: Delivery, f: nat)
    requires d.fanout <= f
    ensures Potential(Forwarded(ttl, d), f) + 1 <= Pow(f + 1, ttl)
  {
    if ttl > 1 && d.relays {
      PowPositive(f + 1, ttl - 1);
      PotentialOfCopies(ttl - 1, d.fanout, f);
      FanoutCost(d.fanout, f, Pow(f + 1, ttl - 1));
    } else {
      PowPositive(f + 1, ttl);
    }
  }

  lemma FanoutCost(n: nat, f: nat, w: nat)
    requires n <= f && w >= 1
    ensures n * w + 1 <= (f + 1) * w
  {
    assert n * w <= f * w;
    assert (f + 1) * w == f * w + w;
  }

  lemma DeliverCosts(flight: seq<byte>, d: Delivery, f: nat)
    requires d.index < |flight| && d.fanout <= f
    ensures Potential(Deliver(flight, d), f) + 1 <= Potential(flight, f)
  {
    hide Potential, Forwarded, Pow;
    var a, b, t := flight[..d.index], flight[d.index + 1..], flight[d.index];
    assert flight == a + ([t] + b);
    PotentialAppend(a, [t] + b, f);
    PotentialAppend([t], b, f);
    PotentialSingle(t, f);
    PotentialAppend(a + b, Forwarded(t, d), f);
    PotentialAppend(a, b, f);
    ForwardedCosts(t, d, f);
  }

  lemma PotentialSingle(t: byte, f: nat)
    ensures Potential([t], f) == Pow(f + 1, t)
  {
    assert [t][1..] == [];
  }

  /** Gossip quiesces: whatever the topology, the schedule and the dedup rings, a network with fan-out at most f makes at
      most the sum of (f+1)^TTL over the copies in flight many deliveries, and fewer transmissions than that. */
  lemma {:induction false} GossipQuiesces(flight: seq<byte>, ds: seq<Delivery>, f: nat)
    requires Possible(flight, ds, f)
    ensures |ds| + Potential(FlightAfter(flight, ds, f), f) <= Potential(flight, f)
    ensures Transmissions(flight, ds, f) + |flight| == |ds| + |FlightAfter(flight, ds, f)|
    ensures Transmissions(flight, ds, f) + |flight| <= Potential(flight, f)
    decreases |ds|
  {
    PotentialAtLeastCount(FlightAfter(flight, ds, f), f);
    if ds != [] {
      hide Potential, Forwarded;
      DeliverCosts(flight, ds[0], f);
      GossipQuiesces(Deliver(flight, ds[0]), ds[1..], f);
      assert |Deliver(flight, ds[0])| == |flight| - 1 + |Forwarded(flight[ds[0].index], ds[0])|;
    }
  }
}
