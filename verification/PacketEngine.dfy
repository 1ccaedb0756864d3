/** The drain loop of the packet engine: packets from the receive ring are parsed, fragments are staged, and a
    completed message goes back into the ring. */
module PacketEngine {
  import opened Bytes
  import opened Wrappers
  import opened Fragments
  import RxRing

  const FRAGMENT: int := 0x20
  const HAS_RECIPIENT: int := 1

  /////////////////////////////////////////////////////////////////////////////
  // Padding and header
  /////////////////////////////////////////////////////////////////////////////

  /** The packet length without PKCS#7 padding; anything that is not valid padding counts as data. */
  function Unpadded(buf: seq<byte>): (n: nat)
    ensures n <= |buf|
  {
    if buf == [] then 0
    else
      var pv: int := buf[|buf| - 1];
      if pv == 0 || pv > |buf| then |buf|
      else if forall i :: |buf| - pv <= i < |buf| ==> buf[i] == pv then |buf| - pv
      else |buf|
  }

  method Unpad(buf: seq<byte>) returns (n: nat)
    ensures n == Unpadded(buf)
  {
    if |buf| <= 0 {
      return 0;
    }
    var pv: int := buf[|buf| - 1];
    if pv == 0 || pv > |buf| {
      return |buf|;
    }
    for i := |buf| - pv to |buf|
      invariant forall k :: |buf| - pv <= k < i ==> buf[k] == pv
    {
      if buf[i] != pv {
        return |buf|;
      }
    }
    n := |buf| - pv;
  }

  /** What is taken off is exactly a run of 1 to 255 bytes that all spell its length. */
  lemma StripsIff(buf: seq<byte>, n: nat)
    requires n < |buf|
    ensures Unpadded(buf) == n <==> |buf| - n <= 255 && forall i :: n <= i < |buf| ==> buf[i] == |buf| - n
  {
  }

  datatype Parsed = Parsed(kind: byte, ttl: byte, payload: seq<byte>)

  /** A 32-bit word read as an int. */
  function AsInt(x: int): int {
    var w := x % TWO32;
    if w < 0x8000_0000 then w else w - TWO32
  }

  /** Versions 1 and 2 of the header; runts and truncated payloads are dropped. A length field of 2^31 or more passes
      the truncation test as a negative number, and one so close below 2^31 that the sum wraps around passes as well;
      no byte of such a payload lies in the packet, and a fragment of that size is dropped by its handler. */
  function ParseHeader(pkt: seq<byte>, len: nat): (r: Option<Parsed>)
    requires len <= |pkt| && |pkt| == RxRing.BUF
    ensures r.Some? ==> |r.value.payload| + 22 <= len
  {
    if len < 2 then None
    else
      var v2 := pkt[0] >= 2;
      var headerLen := if v2 then 16 else 14;
      if len < headerLen + 8 then None
      else
        var b12: int, b13: int, b14: int, b15: int := pkt[12], pkt[13], pkt[14], pkt[15];
        var size := if v2 then AsInt(0x100_0000 * b12 + 0x1_0000 * b13 + 0x100 * b14 + b15) else 0x100 * b12 + b13;
        var offset := headerLen + 8 + if pkt[11] % 2 == HAS_RECIPIENT then 8 else 0;
        if AsInt(offset + size) > len then None
        else Some(Parsed(pkt[1], pkt[2], if size < 0 || offset + size > len then [] else pkt[offset..offset + size]))
  }

  /** A packet as a sender lays it out: version, kind, hop count, timestamp, flags, payload length, sender, the recipient
      if flag bit 0 announces one, and the payload. From version 2 on the length takes four bytes instead of two. */
  datatype Layout = Layout(version: byte, kind: byte, ttl: byte, stamp: seq<byte>, flags: byte, sender: seq<byte>,
                           recipient: seq<byte>, payload: seq<byte>)

  predicate LayoutOk(p: Layout) {
    && |p.stamp| == 8 && |p.sender| == 8 && |p.recipient| == 8 && |p.payload| <= RxRing.BUF
  }

  /** n as a big-endian number of two or four bytes. */
  function LengthField(n: nat, version: byte): (r: seq<byte>)
    requires n <= RxRing.BUF
    ensures |r| == if version >= 2 then 4 else 2
  {
    if version >= 2 then [0, 0, n / 0x100, n % 0x100] else [n / 0x100, n % 0x100]
  }

  function Head(p: Layout): (r: seq<byte>)
    requires LayoutOk(p)
    ensures |r| == if p.version >= 2 then 16 else 14
  {
    [p.version, p.kind, p.ttl] + p.stamp + [p.flags] + LengthField(|p.payload|, p.version)
  }

  function Addresses(p: Layout): (r: seq<byte>)
    requires LayoutOk(p)
    ensures |r| == if p.flags % 2 == 1 then 16 else 8
  {
    p.sender + if p.flags % 2 == 1 then p.recipient else []
  }

  function LaidOut(p: Layout): (r: seq<byte>)
    requires LayoutOk(p)
    ensures |r| == |Head(p)| + |Addresses(p)| + |p.payload|
  {
    Head(p) + Addresses(p) + p.payload
  }

  /** The payload length a packet announces. */
  function Announced(pkt: seq<byte>): (n: nat)
    requires |pkt| == RxRing.BUF
  {
    var b12: int, b13: int, b14: int, b15: int := pkt[12], pkt[13], pkt[14], pkt[15];
    if pkt[0] >= 2 then 0x100_0000 * b12 + 0x1_0000 * b13 + 0x100 * b14 + b15 else 0x100 * b12 + b13
  }

  /** Parsing returns the kind, the hop count and the payload of every packet that fits, whatever follows the payload in
      the packet (a signature, say) and whatever stale bytes follow the packet in its buffer. */
  lemma ParsesLayout(p: Layout, behind: seq<byte>, stale: seq<byte>)
    requires LayoutOk(p) && |LaidOut(p)| + |behind| + |stale| == RxRing.BUF
    ensures ParseHeader(LaidOut(p) + behind + stale, |LaidOut(p)| + |behind|)
         == Some(Parsed(p.kind, p.ttl, p.payload))
  {
    hide Head, Addresses, ParseHeader;
    var pkt, n := LaidOut(p) + behind + stale, |p.payload|;
    var rest := Addresses(p) + p.payload + behind + stale;
    assert pkt == Head(p) + rest;
    HeadBytes(p, pkt, rest);
    var at := |Head(p)| + |Addresses(p)|;
    assert pkt[at..at + n] == p.payload by { Slice(Head(p) + Addresses(p), p.payload, behind + stale, pkt); }
    AnnouncedLength(pkt, n);
    ParsedAt(pkt, |LaidOut(p)| + |behind|, at, n);
  }

  lemma Slice(a: seq<byte>, b: seq<byte>, c: seq<byte>, all: seq<byte>)
    requires all == a + b + c
    ensures all[|a|..|a| + |b|] == b
  {
  }

  lemma AnnouncedLength(pkt: seq<byte>, n: nat)
    requires |pkt| == RxRing.BUF && n <= RxRing.BUF
    requires pkt[0] < 2 ==> pkt[12] == n / 0x100 && pkt[13] == n % 0x100
    requires pkt[0] >= 2 ==> pkt[12] == 0 && pkt[13] == 0 && pkt[14] == n / 0x100 && pkt[15] == n % 0x100
    ensures Announced(pkt) == n
  {
  }

  lemma ParsedAt(pkt: seq<byte>, len: nat, at: nat, n: nat)
    requires |pkt| == RxRing.BUF && at + n <= len <= RxRing.BUF && Announced(pkt) == n
    requires at == (if pkt[0] >= 2 then 24 else 22) + (if pkt[11] % 2 == 1 then 8 else 0)
    ensures ParseHeader(pkt, len) == Some(Parsed(pkt[1], pkt[2], pkt[at..at + n]))
  {
  }

  lemma HeadBytes(p: Layout, pkt: seq<byte>, rest: seq<byte>)
    requires LayoutOk(p) && pkt == Head(p) + rest && |rest| >= 8
    ensures pkt[0] == p.version && pkt[1] == p.kind && pkt[2] == p.ttl && pkt[11] == p.flags
    ensures p.version < 2 ==> pkt[12] == |p.payload| / 0x100 && pkt[13] == |p.payload| % 0x100
    ensures p.version >= 2 ==> pkt[12] == 0 && pkt[13] == 0
    ensures p.version >= 2 ==> pkt[14] == |p.payload| / 0x100 && pkt[15] == |p.payload| % 0x100
  {
    var h := Head(p);
    assert h[..3] == [p.version, p.kind, p.ttl] && h[11] == p.flags;
    assert h[12..] == LengthField(|p.payload|, p.version);
    assert forall k :: 12 <= k < |h| ==> h[k] == h[12..][k - 12];
  }

  /** A packet is dropped exactly when it is too short for its header and sender, or when its payload would end behind
      it, the end being taken as a signed 32-bit number. */
  lemma HeaderDroppedIff(pkt: seq<byte>, len: nat)
    requires |pkt| == RxRing.BUF && len <= RxRing.BUF
    ensures var start := (if pkt[0] >= 2 then 24 else 22) + (if pkt[11] % 2 == 1 then 8 else 0);
            var end := start + Announced(pkt);
            ParseHeader(pkt, len).None? <==>
              || len < 22 || (pkt[0] >= 2 && len < 24)
              || len < end < 0x8000_0000 || end > TWO32 + len
  {
  }

  /** A payload is dropped as truncated exactly when it ends behind the packet without wrapping around. */
  lemma TruncatedIff(offset: nat, size: int, len: nat)
    requires 22 <= offset <= 32 && len <= RxRing.BUF && -0x8000_0000 <= size < 0x8000_0000
    ensures AsInt(offset + size) > len <==> len < offset + size < 0x8000_0000
  {
  }

  /////////////////////////////////////////////////////////////////////////////
  // Bytes held
  /////////////////////////////////////////////////////////////////////////////

  function StagedIn(s: Slot, n: nat): nat
    requires SlotOk(s) && n <= MAX_FRAGS
  {
    if n == 0 then 0 else StagedIn(s, n - 1) + if n - 1 in s.received then s.lengths[n - 1] else 0
  }

  function SlotBytes(s: Slot): nat
    requires SlotOk(s)
  {
    if s.active then StagedIn(s, MAX_FRAGS) else 0
  }

  function Staged(slots: seq<Slot>): nat
    requires forall k :: 0 <= k < |slots| ==> SlotOk(slots[k])
  {
    if slots == [] then 0 else SlotBytes(slots[0]) + Staged(slots[1..])
  }

  lemma {:induction false} StagedUpdate(slots: seq<Slot>, k: nat, s: Slot)
    requires (forall j :: 0 <= j < |slots| ==> SlotOk(slots[j])) && k < |slots| && SlotOk(s)
    ensures Staged(slots[k := s]) == Staged(slots) - SlotBytes(slots[k]) + SlotBytes(s)
  {
    hide SlotBytes;
    if k == 0 {
      assert slots[0 := s][1..] == slots[1..];
    } else {
      assert slots[k := s][1..] == slots[1..][k - 1 := s];
      StagedUpdate(slots[1..], k - 1, s);
    }
  }

  lemma {:induction false} StagedMonotone(slots: seq<Slot>, less: seq<Slot>)
    requires |slots| == |less|
    requires forall j :: 0 <= j < |slots| ==> SlotOk(slots[j]) && SlotOk(less[j]) && SlotBytes(less[j]) <= SlotBytes(slots[j])
    ensures Staged(less) <= Staged(slots)
  {
    hide SlotBytes;
    if slots != [] {
      StagedMonotone(slots[1..], less[1..]);
    }
  }

  lemma {:induction false} StagedInactive(slots: seq<Slot>)
    requires forall k :: 0 <= k < |slots| ==> SlotOk(slots[k]) && !slots[k].active
    ensures Staged(slots) == 0
  {
    if slots != [] {
      StagedInactive(slots[1..]);
    }
  }

  lemma {:induction false} StagedAfterStore(s: Slot, f: Fragment, n: nat)
    requires SlotOk(s) && FragmentOk(f) && n <= MAX_FRAGS
    ensures StagedIn(Store(s, f), n) <= StagedIn(s, n) + (if f.idx < n then |f.chunk| else 0)
  {
    if n > 0 {
      StagedAfterStore(s, f, n - 1);
    }
  }

  lemma {:induction false} AssembleBytes(s: Slot, n: nat)
    requires SlotOk(s) && n <= MAX_FRAGS && AllBits(n) <= s.received
    ensures |Assemble(s, n)| == StagedIn(s, n)
  {
    if n > 0 {
      assert n - 1 in AllBits(n);
      assert AllBits(n - 1) <= AllBits(n);
      AssembleBytes(s, n - 1);
    }
  }

  lemma {:induction false} StagedMore(s: Slot, m: nat, n: nat)
    requires SlotOk(s) && m <= n <= MAX_FRAGS
    ensures StagedIn(s, m) <= StagedIn(s, n)
  {
    if m < n {
      StagedMore(s, m, n - 1);
    }
  }

  lemma {:induction false} StagedNone(s: Slot, n: nat)
    requires SlotOk(s) && n <= MAX_FRAGS && s.received == {}
    ensures StagedIn(s, n) == 0
  {
    if n > 0 {
      StagedNone(s, n - 1);
    }
  }

  function OutBytes(out: Option<seq<byte>>): nat {
    if out.Some? then |out.value| else 0
  }

  lemma PlaceBytes(slots: seq<Slot>, k: nat, f: Fragment, conn: nat, now: uint32)
    requires SlotsOk(slots) && k < SLOTS && FragmentOk(f)
    ensures var (next, out) := Place(slots, k, f, conn, now);
            Staged(next) + OutBytes(out) <= Staged(slots) + |f.chunk|
  {
    hide StagedIn, Staged, Store, Assemble, AllBits;
    var slot := if slots[k].active then slots[k] else FreshSlot(f.id, conn, f.total, now);
    var stored := Store(slot, f);
    StoreKeeps(slot, f);
    if !slots[k].active {
      StagedNone(slot, MAX_FRAGS);
    }
    StagedAfterStore(slot, f, MAX_FRAGS);
    StagedUpdate(slots, k, stored);
    StagedUpdate(slots, k, stored.(active := false));
    if stored.received == AllBits(f.total) {
      AssembleBytes(stored, f.total);
      StagedMore(stored, f.total, MAX_FRAGS);
    }
  }

  /** Reassembly conserves bytes: what is staged afterwards and what comes out is at most what was staged and the chunk. */
  lemma HandleBytes(slots: seq<Slot>, f: Fragment, conn: nat, now: uint32)
    requires SlotsOk(slots) && FragmentOk(f)
    ensures var (next, out) := Handle(slots, f, conn, now);
            Staged(next) + OutBytes(out) <= Staged(slots) + |f.chunk|
  {
    hide Place, Staged;
    var k := FindFrom(slots, 0, f.id, conn);
    if k < SLOTS {
      PlaceBytes(slots, k, f, conn, now);
    } else {
      var swept := Expire(slots, now);
      StagedMonotone(slots, swept);
      var free := FreeFrom(swept, 0);
      if free < SLOTS {
        PlaceBytes(swept, free, f, conn, now);
      }
    }
  }

  /////////////////////////////////////////////////////////////////////////////
  // The ring, seen from the consumer
  /////////////////////////////////////////////////////////////////////////////

  type Entry = RxRing.Slot

  predicate RingOk(queue: seq<Entry>, head: nat, tail: nat) {
    && |queue| == RxRing.SIZE && head < RxRing.SIZE && tail < RxRing.SIZE
    && forall k :: 0 <= k < |queue| ==> |queue[k].data| == RxRing.BUF && queue[k].len <= RxRing.BUF
  }

  function Waiting(head: nat, tail: nat): nat {
    (head - tail) % RxRing.SIZE
  }

  /** Bytes in n entries from position at on. */
  function RingBytes(queue: seq<Entry>, at: nat, n: nat): nat
    requires |queue| == RxRing.SIZE && at < RxRing.SIZE
    decreases n
  {
    if n == 0 then 0 else queue[at].len + RingBytes(queue, (at + 1) % RxRing.SIZE, n - 1)
  }

  predicate AllFilled(queue: seq<Entry>, at: nat, n: nat)
    requires |queue| == RxRing.SIZE && at < RxRing.SIZE
    decreases n
  {
    n == 0 || (queue[at].len > 0 && AllFilled(queue, (at + 1) % RxRing.SIZE, n - 1))
  }

  /** Filling the free entry at the head adds its bytes and leaves the waiting ones. */
  lemma {:induction false} Appended(queue: seq<Entry>, at: nat, n: nat, e: Entry)
    requires |queue| == RxRing.SIZE && at < RxRing.SIZE && n < RxRing.SIZE
    ensures var q := queue[(at + n) % RxRing.SIZE := e];
            && RingBytes(q, at, n + 1) == RingBytes(queue, at, n) + e.len
            && (AllFilled(queue, at, n) && e.len > 0 ==> AllFilled(q, at, n + 1))
    decreases n
  {
    hide RingBytes, AllFilled;
    NextSlot(at, n);
    var b, h := (at + 1) % RxRing.SIZE, (at + n) % RxRing.SIZE;
    var q := queue[h := e];
    OneEntry(queue, at, b, n);
    OneEntry(q, at, b, n + 1);
    if n > 0 {
      Appended(queue, b, n - 1, e);
    }
  }

  lemma NextSlot(at: nat, n: nat)
    requires at < RxRing.SIZE && n < RxRing.SIZE
    ensures n == 0 ==> (at + n) % RxRing.SIZE == at
    ensures n > 0 ==> ((at + 1) % RxRing.SIZE + (n - 1)) % RxRing.SIZE == (at + n) % RxRing.SIZE
    ensures n > 0 ==> (at + n) % RxRing.SIZE != at
  {
  }

  lemma OneEntry(queue: seq<Entry>, at: nat, b: nat, n: nat)
    requires |queue| == RxRing.SIZE && at < RxRing.SIZE && b == (at + 1) % RxRing.SIZE
    ensures n == 0 ==> RingBytes(queue, at, n) == 0 && AllFilled(queue, at, n)
    ensures n > 0 ==> RingBytes(queue, at, n) == queue[at].len + RingBytes(queue, b, n - 1)
    ensures n > 0 ==> (AllFilled(queue, at, n) <==> queue[at].len > 0 && AllFilled(queue, b, n - 1))
    ensures n == 1 ==> RingBytes(queue, b, 0) == 0 && AllFilled(queue, b, 0)
  {
  }

  /** The n packets that wait from position at on, oldest first. */
  function Line(queue: seq<Entry>, at: nat, n: nat): (r: seq<RxRing.Packet>)
    requires RingOk(queue, at, at)
    ensures |r| == n
  {
    if n == 0 then [] else Line(queue, at, n - 1) + [RxRing.Content(queue[(at + n - 1) % RxRing.SIZE])]
  }

  /** Entries outside the waiting ones do not matter. */
  lemma {:induction false} LineSame(queue: seq<Entry>, queue': seq<Entry>, at: nat, n: nat, m: nat)
    requires RingOk(queue, at, at) && RingOk(queue', at, at) && n <= m < RxRing.SIZE
    requires forall k :: 0 <= k < RxRing.SIZE && k != (at + m) % RxRing.SIZE ==> queue[k] == queue'[k]
    ensures Line(queue, at, n) == Line(queue', at, n)
    decreases n
  {
    if n > 0 {
      LineSame(queue, queue', at, n - 1, m);
      RxRing.DistinctSlots(at + n - 1, at + m);
      assert queue[(at + n - 1) % RxRing.SIZE] == queue'[(at + n - 1) % RxRing.SIZE];
    }
  }

  /** The line behind which a packet is offered: it joins if it fits and fewer than three wait. */
  function Offer(line: seq<RxRing.Packet>, out: Option<seq<byte>>, conn: nat): seq<RxRing.Packet> {
    if out.Some? && 0 < |out.value| <= RxRing.BUF && |line| < 3 then line + [RxRing.Packet(out.value, conn)] else line
  }

  function OfferAll(line: seq<RxRing.Packet>, arrivals: seq<Arrival>, outs: seq<Option<seq<byte>>>): seq<RxRing.Packet>
    requires |arrivals| == |outs|
  {
    if arrivals == [] then line
    else
      var n := |arrivals| - 1;
      Offer(OfferAll(line, arrivals[..n], outs[..n]), outs[n], arrivals[n].conn)
  }

  /** A fragment as its sender lays it out. */
  function Laid(f: OkFragment): (payload: seq<byte>) {
    [f.id / 0x100_0000, f.id / 0x1_0000 % 0x100, f.id / 0x100 % 0x100, f.id % 0x100, f.idx, f.total] + f.chunk
  }

  lemma ParseOfLaid(f: OkFragment)
    ensures Parse(Laid(f)) == Some(f)
  {
    var p := Laid(f);
    assert p[6..] == f.chunk;
    var b0: int, b1: int, b2: int, b3: int := p[0], p[1], p[2], p[3];
    BigEndian(f.id, b0, b1, b2, b3);
    assert p[4] == f.idx && p[5] == f.total;
  }

  lemma BigEndian(id: uint32, b0: int, b1: int, b2: int, b3: int)
    requires b0 == id / 0x100_0000 && b1 == id / 0x1_0000 % 0x100 && b2 == id / 0x100 % 0x100 && b3 == id % 0x100
    ensures 0x100_0000 * b0 + 0x1_0000 * b1 + 0x100 * b2 + b3 == id
  {
    var x: int := id;
    assert x / 0x1_0000 == x / 0x100 / 0x100 && x / 0x100_0000 == x / 0x1_0000 / 0x100;
  }

  class Engine {
    var slots: seq<Slot>
    var queue: seq<Entry>
    var head: nat
    var tail: nat

    ghost predicate Valid()
      reads this
    {
      SlotsOk(slots) && RingOk(queue, head, tail) && AllFilled(queue, tail, Waiting(head, tail))
    }

    /** An empty ring and no reassembly under way. */
    constructor ()
      ensures Valid() && head == tail && Weight() == 0 && Contents() == []
      ensures |slots| == 4 && forall k :: 0 <= k < 4 ==> !slots[k].active
    {
      slots := seq(SLOTS, _ => FreshSlot(0, 0, 0, 0).(active := false));
      queue := seq(RxRing.SIZE, _ => RxRing.Slot(Zeros(RxRing.BUF), 0, 0));
      head, tail := 0, 0;
      new;
      StagedInactive(slots);
    }

    /** The packets waiting in the ring, oldest first. */
    ghost function Contents(): seq<RxRing.Packet>
      reads this
      requires Valid()
    {
      Line(queue, tail, Waiting(head, tail))
    }

    /** Bytes waiting in the ring plus bytes staged in the reassembly slots. */
    ghost function Weight(): nat
      reads this
      requires Valid()
    {
      RingBytes(queue, tail, Waiting(head, tail)) + Staged(slots)
    }

    /** The packet was put behind the waiting ones, or nothing changed: when it does not fit or three are waiting. */
    ghost predicate Queued(queue0: seq<Entry>, head0: nat, data: seq<byte>, conn: nat)
      reads this
      requires Valid() && |queue0| == RxRing.SIZE && head0 < RxRing.SIZE
    {
      if 0 < |data| <= RxRing.BUF && Waiting(head0, tail) < 3 then
        && head == (head0 + 1) % RxRing.SIZE && RxRing.Content(queue[head0]) == RxRing.Packet(data, conn)
        && forall k :: 0 <= k < RxRing.SIZE && k != head0 ==> queue[k] == queue0[k]
      else
        queue == queue0 && head == head0
    }

    /** Puts a packet into the ring if it fits and a slot is free. */
    method Enqueue(data: seq<byte>, conn: nat)
      requires Valid()
      modifies this`queue, this`head
      ensures Valid() && (tail != old(head) ==> tail != head && queue[tail] == old(queue[tail]))
      ensures Weight() == old(Weight()) || Weight() == old(Weight()) + |data|
      ensures Queued(old(queue), old(head), data, conn)
    {
      hide RingBytes, AllFilled, Staged;
      var next := (head + 1) % RxRing.SIZE;
      if |data| > 0 && |data| <= RxRing.BUF && next != tail {
        var entry := queue[head];
        var filled := RxRing.Slot(data + entry.data[|data|..], |data|, conn);
        ghost var n := Waiting(head, tail);
        assert n < 3 && (tail + n) % RxRing.SIZE == head;
        Appended(queue, tail, n, filled);
        queue := queue[head := filled];
        head := next;
        assert Waiting(head, tail) == n + 1;
      }
    }

    /** The two slot searches of _handle_fragment: an active slot of the message, else a free or expired one. */
    method ChooseSlot(id: uint32, conn: nat, now: uint32) returns (k: nat)
      requires Valid()
      modifies this`slots
      ensures var found := FindFrom(old(slots), 0, id, conn);
              if found < SLOTS then slots == old(slots) && k == found
              else slots == Expire(old(slots), now) && k == FreeFrom(slots, 0)
    {
      k := 0;
      while k < SLOTS
        invariant k <= SLOTS && FindFrom(slots, 0, id, conn) == FindFrom(slots, k, id, conn)
      {
        if Matches(slots[k], id, conn) {
          return;
        }
        k := k + 1;
      }
      ghost var swept := Expire(slots, now);
      var free: nat := SLOTS;
      for i := 0 to SLOTS
        invariant |slots| == SLOTS && (forall j :: 0 <= j < i ==> slots[j] == swept[j])
        invariant forall j :: i <= j < SLOTS ==> slots[j] == old(slots)[j]
        invariant free <= SLOTS && (free < SLOTS ==> free < i && !swept[free].active)
        invariant forall j :: 0 <= j < i && j < free ==> swept[j].active
      {
        if Expired(slots[i], now) {
          slots := slots[i := slots[i].(active := false)];
        }
        if !slots[i].active && free == SLOTS {
          free := i;
        }
      }
      assert slots == swept;
      k := free;
    }

    /** Concatenates the staged chunks in index order. */
    method Concatenate(slot: Slot, total: nat) returns (assembled: seq<byte>)
      requires SlotOk(slot) && total <= MAX_FRAGS && AllBits(total) <= slot.received
      ensures assembled == Assemble(slot, total)
    {
      hide AllBits;
      assembled := [];
      for i := 0 to total
        invariant AllBits(i) <= slot.received && assembled == Assemble(slot, i)
      {
        assert i in AllBits(total) && AllBits(i + 1) <= AllBits(total);
        var soff, slen := slot.offsets[i], slot.lengths[i];
        if |assembled| + slen <= DATA {
          assembled := assembled + slot.data[soff..soff + slen];
        }
      }
    }

    /** The slots are those after the fragment, and a packet it completed was put into the ring. */
    ghost predicate Handled(slots0: seq<Slot>, queue0: seq<Entry>, head0: nat, payload: seq<byte>, conn: nat, now: uint32)
      reads this
      requires Valid() && SlotsOk(slots0) && |queue0| == RxRing.SIZE && head0 < RxRing.SIZE
    {
      match Parse(payload)
      case None => slots == slots0 && queue == queue0 && head == head0
      case Some(f) =>
        var (next, out) := Handle(slots0, f, conn, now);
        && slots == next
        && (out.Some? ==> Queued(queue0, head0, out.value, conn))
        && (out.None? ==> queue == queue0 && head == head0)
    }

    /** Stages a fragment; the last missing one puts the whole message back into the ring and frees the slot. */
    method HandleFragment(payload: seq<byte>, conn: nat, now: uint32)
      requires Valid()
      modifies this`slots, this`queue, this`head
      ensures Valid() && (tail != old(head) ==> tail != head && queue[tail] == old(queue[tail]))
      ensures Handled(old(slots), old(queue), old(head), payload, conn, now)
      ensures Weight() <= old(Weight()) + (if |payload| >= 6 then |payload| - 6 else 0)
    {
      hide RingBytes, AllFilled, Staged, Place, Parse, Waiting;
      var parsed := Parse(payload);
      if parsed.None? {
        return;
      }
      var f := parsed.value;
      HandleBytes(slots, f, conn, now);
      var k := ChooseSlot(f.id, conn, now);
      if k == SLOTS {
        return;
      }
      var out := Fill(k, f, conn, now);
      if out.Some? {
        Enqueue(out.value, conn);
      }
    }

    /** Handles fragments one after the other: the slots are those of the specification, and the ring gets every
        completed packet that fits while fewer than three wait. */
    method ReceiveAll(arrivals: seq<Arrival>)
      requires Valid()
      modifies this`slots, this`queue, this`head
      ensures Valid() && slots == Feed(old(slots), arrivals).0
      ensures Contents() == OfferAll(old(Contents()), arrivals, Feed(old(slots), arrivals).1)
    {
      ghost var slots0, line0 := slots, Contents();
      for i := 0 to |arrivals|
        invariant Valid() && slots == Feed(slots0, arrivals[..i]).0
        invariant Contents() == OfferAll(line0, arrivals[..i], Feed(slots0, arrivals[..i]).1)
      {
        hide Handle, Feed, OfferAll, Offer, Line, AllFilled;
        var a := arrivals[i];
        ParseOfLaid(a.f);
        ghost var queue0, head0, s := queue, head, slots;
        HandleFragment(Laid(a.f), a.conn, a.now);
        HandledOffers(s, queue0, head0, a);
        OneMoreOffer(line0, slots0, arrivals, i);
      }
      assert arrivals[..|arrivals|] == arrivals;
    }

    lemma HandledOffers(slots0: seq<Slot>, queue0: seq<Entry>, head0: nat, a: Arrival)
      requires Valid() && SlotsOk(slots0) && RingOk(queue0, head0, tail)
      requires Handled(slots0, queue0, head0, Laid(a.f), a.conn, a.now)
      ensures var (next, out) := Handle(slots0, a.f, a.conn, a.now);
              slots == next && Contents() == Offer(Line(queue0, tail, Waiting(head0, tail)), out, a.conn)
    {
      ParseOfLaid(a.f);
      hide Handle, Laid, Parse, AllFilled;
      var n := Waiting(head0, tail);
      assert (tail + n) % RxRing.SIZE == head0;
      if n < 3 && head == (head0 + 1) % RxRing.SIZE {
        assert Waiting(head, tail) == n + 1;
      }
      var out := Handle(slots0, a.f, a.conn, a.now).1;
      if out.Some? && 0 < |out.value| <= RxRing.BUF && n < 3 {
        LineSame(queue0, queue, tail, n, n);
      }
    }

    /** Opens slot k if it is inactive, stores the fragment and closes a complete slot. */
    method Fill(k: nat, f: Fragment, conn: nat, now: uint32) returns (out: Option<seq<byte>>)
      requires SlotsOk(slots) && k < SLOTS && FragmentOk(f)
      modifies this`slots
      ensures (slots, out) == Place(old(slots), k, f, conn, now)
    {
      hide Assemble, AllBits;
      if !slots[k].active {
        slots := slots[k := FreshSlot(f.id, conn, f.total, now)];
      }
      var slot := slots[k];
      if f.idx !in slot.received {
        var at := STAGE * f.idx;
        slot := slot.(data := slot.data[..at] + f.chunk + slot.data[at + |f.chunk|..], offsets := slot.offsets[f.idx := at],
                      lengths := slot.lengths[f.idx := |f.chunk|], received := slot.received + {f.idx});
        slots := slots[k := slot];
      }
      if slot.received == AllBits(f.total) {
        var assembled := Concatenate(slot, f.total);
        slots := slots[k := slot.(active := false)];
        assert slots == old(slots)[k := slot.(active := false)];
        return Some(assembled);
      }
      assert slots == old(slots)[k := slot];
      out := None;
    }

    /** The entry at the tail is unpadded and parsed; admitted tells whether it gets a peer session and passes the
        signature check. Only fragments touch the ring or the slots. */
    method ProcessIncoming(admitted: bool, now: uint32)
      requires Valid() && tail != head
      modifies this`slots, this`queue, this`head
      ensures Valid() && tail != head && queue[tail] == old(queue[tail])
      ensures Weight() < old(Weight()) + queue[tail].len
      ensures var entry := queue[tail];
              var parsed := if entry.len <= RxRing.BUF then ParseHeader(entry.data, Unpadded(entry.data[..entry.len])) else None;
              if parsed.Some? && admitted && parsed.value.kind == 0x20
              then Handled(old(slots), old(queue), old(head), parsed.value.payload, entry.conn, now)
              else slots == old(slots) && queue == old(queue) && head == old(head)
    {
      hide RingBytes, AllFilled, Staged;
      var entry := queue[tail];
      EntryFilled(queue, tail, Waiting(head, tail));
      var len := Unpad(entry.data[..entry.len]);
      var parsed := ParseHeader(entry.data, len);
      if parsed.Some? && admitted && parsed.value.kind == FRAGMENT {
        HandleFragment(parsed.value.payload, entry.conn, now);
      }
    }

    /** The drain loop ends from every ring and reassembly state although it feeds itself: each pass removes a packet
        and adds at most what that packet carried minus its 28 header bytes. The clock and the admission of each
        packet are inputs. */
    method Drain(clock: nat -> uint32, admission: nat -> bool) returns (passes: nat)
      requires Valid()
      modifies this
      ensures Valid() && head == tail
      ensures passes + Staged(slots) <= old(Weight())
    {
      hide RingBytes, AllFilled, Staged, Waiting;
      passes := 0;
      while tail != head
        invariant Valid() && passes + Weight() <= old(Weight())
        decreases Weight()
      {
        ProcessIncoming(admission(passes), clock(passes));
        Popped(queue, head, tail);
        tail := (tail + 1) % RxRing.SIZE;
        passes := passes + 1;
      }
      NothingWaiting(queue, head, tail);
    }
  }

  lemma OneMoreOffer(line: seq<RxRing.Packet>, slots: seq<Slot>, arrivals: seq<Arrival>, i: nat)
    requires SlotsOk(slots) && i < |arrivals|
    ensures var (s, outs) := Feed(slots, arrivals[..i]);
            var (next, out) := Handle(s, arrivals[i].f, arrivals[i].conn, arrivals[i].now);
            && Feed(slots, arrivals[..i + 1]).0 == next
            && OfferAll(line, arrivals[..i + 1], Feed(slots, arrivals[..i + 1]).1)
               == Offer(OfferAll(line, arrivals[..i], outs), out, arrivals[i].conn)
  {
    hide Handle, Offer;
    assert arrivals[..i + 1][..i] == arrivals[..i];
    var (s, outs) := Feed(slots, arrivals[..i]);
    assert Feed(slots, arrivals[..i + 1]).1[..i] == outs;
  }

  /**
   * The engine's ring after any arrival sequence that reassembles m: it is the ring before the last piece with exactly
   * one packet more, the chunks in index order, provided the message fits a ring entry and fewer than three packets
   * wait; and no earlier piece of m has offered anything.
   */
  lemma OneRingEntry(line: seq<RxRing.Packet>, slots: seq<Slot>, m: Message, first: Arrival, middle: seq<Arrival>,
                     last: Arrival)
    requires SlotsOk(slots) && MessageOk(m) && Untracked(slots, m)
    requires Of(m, first) && Of(m, last) && Consistent(m, first) && Consistent(m, last)
    requires forall i :: 0 <= i < |middle| ==> Consistent(m, middle[i])
    requires InTime(middle, first.now)
    requires exists k :: 0 <= k < SLOTS && (!slots[k].active || Expired(slots[k], first.now))
    requires !(AllBits(|m.chunks|) <= {first.f.idx} + Seen(m, middle))
    requires {first.f.idx} + Seen(m, middle) + {last.f.idx} == AllBits(|m.chunks|)
    ensures var before := [first] + middle;
            var waiting := OfferAll(line, before, Feed(slots, before).1);
            && (forall i :: 0 <= i <= |middle| && Of(m, before[i]) ==> Feed(slots, before).1[i] == None)
            && (0 < |Flatten(m.chunks)| <= 512 && |waiting| < 3 ==>
                  OfferAll(line, before + [last], Feed(slots, before + [last]).1)
                  == waiting + [RxRing.Packet(Flatten(m.chunks), m.conn)])
  {
    var before := [first] + middle;
    assert last.conn == m.conn;
    hide Handle, Feed, AllBits, Untracked, Consistent, InTime, Expired, Of, Flatten;
    ReassemblesOnce(slots, m, first, middle, last);
    assert (before + [last])[..|before|] == before && (before + [last])[|before|] == last;
  }

  lemma Popped(queue: seq<Entry>, head: nat, tail: nat)
    requires RingOk(queue, head, tail) && head != tail && AllFilled(queue, tail, Waiting(head, tail))
    ensures var t := (tail + 1) % RxRing.SIZE;
            && AllFilled(queue, t, Waiting(head, t)) && queue[tail].len > 0
            && RingBytes(queue, tail, Waiting(head, tail)) == queue[tail].len + RingBytes(queue, t, Waiting(head, t))
  {
    var t := (tail + 1) % RxRing.SIZE;
    assert Waiting(head, tail) == Waiting(head, t) + 1;
  }

  lemma NothingWaiting(queue: seq<Entry>, head: nat, tail: nat)
    requires RingOk(queue, head, tail) && head == tail
    ensures RingBytes(queue, tail, Waiting(head, tail)) == 0
  {
  }

  lemma EntryFilled(queue: seq<Entry>, at: nat, n: nat)
    requires |queue| == RxRing.SIZE && at < RxRing.SIZE && n > 0 && AllFilled(queue, at, n)
    ensures queue[at].len > 0
  {
  }
}
