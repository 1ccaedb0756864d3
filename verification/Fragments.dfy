/** Reassembly of fragmented packets in a fixed number of expiring slots. */
module Fragments {
  import opened Bytes
  import opened Wrappers

  const MAX_FRAGS: int := 8
  const SLOTS: int := 4
  const TIMEOUT_MS: int := 10000
  const STAGE: int := 256      // bytes of staging area per fragment index
  const DATA: int := 2048

  /** A reassembly slot; the received bit mask is kept as the set of its bits. */
  datatype Slot = Slot(active: bool, id: uint32, conn: nat, total: nat, received: set<nat>, start: uint32,
                       data: seq<byte>, offsets: seq<nat>, lengths: seq<nat>)

  datatype Fragment = Fragment(id: uint32, idx: nat, total: nat, chunk: seq<byte>)

  predicate FragmentOk(f: Fragment) {
    f.idx < f.total <= MAX_FRAGS && 0 < |f.chunk| <= STAGE
  }

  /** The 6-byte fragment header and the tests that drop a malformed fragment. */
  function Parse(payload: seq<byte>): (r: Option<Fragment>)
    ensures r.Some? ==> FragmentOk(r.value) && |r.value.chunk| + 6 == |payload|
  {
    if |payload| < 6 then None
    else
      var b0: int, b1: int, b2: int, b3: int := payload[0], payload[1], payload[2], payload[3];
      var id := 0x100_0000 * b0 + 0x1_0000 * b1 + 0x100 * b2 + b3;
      var idx: int, total: int, chunk := payload[4], payload[5], payload[6..];
      if total == 0 || idx >= total || total > MAX_FRAGS then None
      else if |chunk| > STAGE || |chunk| <= 0 then None
      else Some(Fragment(id, idx, total, chunk))
  }

  /** A fragment is taken exactly when it has 1 to 256 bytes behind its header and its index is below a total of at most 8. */
  lemma ParsesIff(payload: seq<byte>)
    ensures Parse(payload).Some? <==> 7 <= |payload| <= 262 && payload[4] < payload[5] <= 8
  {
  }

  predicate SlotOk(s: Slot) {
    && |s.data| == DATA && |s.offsets| == MAX_FRAGS && |s.lengths| == MAX_FRAGS
    && (forall i :: i in s.received ==> i < MAX_FRAGS && s.offsets[i] == STAGE * i && 0 < s.lengths[i] <= STAGE)
  }

  predicate SlotsOk(slots: seq<Slot>) {
    |slots| == SLOTS && forall k :: 0 <= k < SLOTS ==> SlotOk(slots[k])
  }

  predicate Matches(s: Slot, id: uint32, conn: nat) {
    s.active && s.id == id && s.conn == conn
  }

  predicate Expired(s: Slot, now: uint32) {
    var age: int := now - s.start as int;
    s.active && age % TWO32 > TIMEOUT_MS
  }

  /** A slot expires when more than ten seconds of the wrapping clock have passed since its first fragment. */
  lemma ExpiredIff(s: Slot, d: nat)
    requires d < TWO32
    ensures var now: int := s.start + d;
            Expired(s, now % TWO32) <==> s.active && d > 10000
    ensures var now: int := s.start + d;
            Recent(now % TWO32, s.start) <==> d <= 10000
  {
  }

  function FreshSlot(id: uint32, conn: nat, total: nat, now: uint32): (s: Slot)
    ensures SlotOk(s)
  {
    Slot(true, id, conn, total, {}, now, Zeros(DATA), seq(MAX_FRAGS, _ => 0), seq(MAX_FRAGS, _ => 0))
  }

  /** The first index from k on whose slot matches, or |slots|. */
  function FindFrom(slots: seq<Slot>, k: nat, id: uint32, conn: nat): (r: nat)
    requires k <= |slots|
    ensures k <= r <= |slots| && (r < |slots| ==> Matches(slots[r], id, conn))
    ensures forall j :: k <= j < r ==> !Matches(slots[j], id, conn)
    decreases |slots| - k
  {
    if k == |slots| then k else if Matches(slots[k], id, conn) then k else FindFrom(slots, k + 1, id, conn)
  }

  function Expire(slots: seq<Slot>, now: uint32): (r: seq<Slot>)
    ensures |r| == |slots|
  {
    seq(|slots|, k requires 0 <= k < |slots| => if Expired(slots[k], now) then slots[k].(active := false) else slots[k])
  }

  /** The first inactive index from k on, or |slots|. */
  function FreeFrom(slots: seq<Slot>, k: nat): (r: nat)
    requires k <= |slots|
    ensures k <= r <= |slots| && (r < |slots| ==> !slots[r].active)
    ensures forall j :: k <= j < r ==> slots[j].active
    decreases |slots| - k
  {
    if k == |slots| then k else if !slots[k].active then k else FreeFrom(slots, k + 1)
  }

  /** Stores a chunk in the staging area of its index, unless that index was received before. */
  function Store(s: Slot, f: Fragment): (r: Slot)
    requires SlotOk(s) && FragmentOk(f)
    ensures SlotOk(r)
  {
    if f.idx in s.received then s
    else
      var at := STAGE * f.idx;
      s.(data := s.data[..at] + f.chunk + s.data[at + |f.chunk|..], offsets := s.offsets[f.idx := at],
         lengths := s.lengths[f.idx := |f.chunk|], received := s.received + {f.idx})
  }

  /** The bits of (1 << total) - 1. */
  function AllBits(total: nat): (r: set<nat>)
    ensures forall i: nat :: i in r <==> i < total
  {
    if total == 0 then {} else AllBits(total - 1) + {total - 1}
  }

  /** The first n chunks of a slot in index order. */
  function Assemble(s: Slot, n: nat): (r: seq<byte>)
    requires SlotOk(s) && n <= MAX_FRAGS && AllBits(n) <= s.received
    ensures |r| <= STAGE * n
  {
    if n == 0 then []
    else
      assert n - 1 in AllBits(n);
      Assemble(s, n - 1) + s.data[s.offsets[n - 1]..s.offsets[n - 1] + s.lengths[n - 1]]
  }

  /** Stores f in slot k and closes the slot if it is complete. */
  function Place(slots: seq<Slot>, k: nat, f: Fragment, conn: nat, now: uint32): (r: (seq<Slot>, Option<seq<byte>>))
    requires SlotsOk(slots) && k < SLOTS && FragmentOk(f)
    ensures SlotsOk(r.0)
  {
    var slot := if slots[k].active then slots[k] else FreshSlot(f.id, conn, f.total, now);
    var stored := Store(slot, f);
    if stored.received == AllBits(f.total)
    then (slots[k := stored.(active := false)], Some(Assemble(stored, f.total)))
    else (slots[k := stored], None)
  }

  /** One fragment: the slots afterwards, and the packet it completes, if any. */
  function Handle(slots: seq<Slot>, f: Fragment, conn: nat, now: uint32): (r: (seq<Slot>, Option<seq<byte>>))
    requires SlotsOk(slots) && FragmentOk(f)
    ensures SlotsOk(r.0)
  {
    var k := FindFrom(slots, 0, f.id, conn);
    if k < SLOTS then Place(slots, k, f, conn, now)
    else
      var swept := Expire(slots, now);
      var free := FreeFrom(swept, 0);
      if free < SLOTS then Place(swept, free, f, conn, now) else (swept, None)
  }

  /////////////////////////////////////////////////////////////////////////////
  // A message and the slot that collects it
  /////////////////////////////////////////////////////////////////////////////

  datatype Message = Message(id: uint32, conn: nat, chunks: seq<seq<byte>>)

  predicate MessageOk(m: Message) {
    1 <= |m.chunks| <= MAX_FRAGS && forall i :: 0 <= i < |m.chunks| ==> 0 < |m.chunks[i]| <= STAGE
  }

  type OkFragment = f: Fragment | FragmentOk(f) witness Fragment(0, 0, 1, [0])

  datatype Arrival = Arrival(f: OkFragment, conn: nat, now: uint32)

  predicate Of(m: Message, a: Arrival) {
    a.f.id == m.id && a.conn == m.conn
  }

  /** A well-formed fragment of any message; one that carries m's id and connection is a piece of m. */
  predicate Consistent(m: Message, a: Arrival) {
    Of(m, a) ==> a.f.total == |m.chunks| && a.f.chunk == m.chunks[a.f.idx]
  }

  function Flatten(chunks: seq<seq<byte>>): seq<byte> {
    if chunks == [] then [] else Flatten(chunks[..|chunks| - 1]) + chunks[|chunks| - 1]
  }

  /** Staging area i of the slot holds chunk i. */
  predicate Holds(s: Slot, m: Message, i: nat)
    requires SlotOk(s) && MessageOk(m)
  {
    && i < |m.chunks| && i in s.received
    && s.lengths[i] == |m.chunks[i]| && s.data[STAGE * i..STAGE * i + s.lengths[i]] == m.chunks[i]
  }

  /** Slot k, and no other, collects m; the indices seen so far are stored. */
  ghost predicate Tracks(slots: seq<Slot>, k: nat, m: Message, seen: set<nat>, start: uint32)
    requires SlotsOk(slots) && MessageOk(m)
  {
    && k < SLOTS && Matches(slots[k], m.id, m.conn) && slots[k].start == start && slots[k].received == seen
    && (forall i :: i in seen ==> Holds(slots[k], m, i))
    && (forall j :: 0 <= j < SLOTS && j != k ==> !Matches(slots[j], m.id, m.conn))
  }

  ghost predicate Untracked(slots: seq<Slot>, m: Message)
    requires SlotsOk(slots)
  {
    forall j :: 0 <= j < SLOTS ==> !Matches(slots[j], m.id, m.conn)
  }

  lemma SpliceOutside(data: seq<byte>, at: nat, chunk: seq<byte>, b: nat, n: nat)
    requires at + |chunk| <= |data| && b + n <= |data| && (b + n <= at || at + |chunk| <= b)
    ensures (data[..at] + chunk + data[at + |chunk|..])[b..b + n] == data[b..b + n]
  {
  }

  /** Storing a chunk fills its own staging area and leaves the others. */
  lemma StoreHolds(s: Slot, m: Message, f: Fragment)
    requires SlotOk(s) && MessageOk(m) && FragmentOk(f) && f.total == |m.chunks| && f.chunk == m.chunks[f.idx]
    requires forall i :: i in s.received ==> Holds(s, m, i)
    ensures Store(s, f).received == s.received + {f.idx}
    ensures forall i :: i in s.received + {f.idx} ==> Holds(Store(s, f), m, i)
  {
    var r := Store(s, f);
    if f.idx !in s.received {
      var at := STAGE * f.idx;
      forall i | i in s.received + {f.idx}
        ensures Holds(r, m, i)
      {
        if i == f.idx {
          assert r.data[at..at + |f.chunk|] == f.chunk;
        } else {
          assert Holds(s, m, i);
          var b := STAGE * i;
          assert b + STAGE <= at || at + STAGE <= b;
          SpliceOutside(s.data, at, f.chunk, b, s.lengths[i]);
        }
      }
    }
  }

  /** A slot that holds every chunk assembles to the message. */
  lemma {:induction false} AssembleIsFlatten(s: Slot, m: Message, n: nat)
    requires SlotOk(s) && MessageOk(m) && n <= |m.chunks| && AllBits(n) <= s.received
    requires forall i :: 0 <= i < n ==> Holds(s, m, i)
    ensures Assemble(s, n) == Flatten(m.chunks[..n])
  {
    if n > 0 {
      assert n - 1 in AllBits(n);
      assert AllBits(n - 1) <= AllBits(n);
      AssembleIsFlatten(s, m, n - 1);
      assert m.chunks[..n][..n - 1] == m.chunks[..n - 1];
      assert Holds(s, m, n - 1);
    }
  }

  /** A further piece of a collected message: stored, and if it was the last missing one, the whole message comes out. */
  lemma OwnPiece(slots: seq<Slot>, k: nat, m: Message, seen: set<nat>, start: uint32, a: Arrival)
    requires SlotsOk(slots) && MessageOk(m) && Tracks(slots, k, m, seen, start)
    requires Consistent(m, a) && Of(m, a)
    ensures var (next, out) := Handle(slots, a.f, a.conn, a.now);
            if seen + {a.f.idx} == AllBits(|m.chunks|)
            then out == Some(Flatten(m.chunks)) && Untracked(next, m)
            else out == None && Tracks(next, k, m, seen + {a.f.idx}, start)
  {
    hide Store, Assemble, AllBits;
    assert FindFrom(slots, 0, a.f.id, a.conn) == k;
    StoreHolds(slots[k], m, a.f);
    var stored := Store(slots[k], a.f);
    StoreKeeps(slots[k], a.f);
    if stored.received == AllBits(|m.chunks|) {
      AssembleIsFlatten(stored, m, |m.chunks|);
      assert m.chunks[..|m.chunks|] == m.chunks;
    }
  }

  lemma StoreKeeps(s: Slot, f: Fragment)
    requires SlotOk(s) && FragmentOk(f)
    ensures var r := Store(s, f); r.active == s.active && r.id == s.id && r.conn == s.conn && r.start == s.start
  {
  }

  /** Any other fragment leaves a slot alone that has not expired. */
  lemma ForeignPiece(slots: seq<Slot>, k: nat, m: Message, seen: set<nat>, start: uint32, a: Arrival)
    requires SlotsOk(slots) && MessageOk(m) && Tracks(slots, k, m, seen, start)
    requires !Of(m, a) && !Expired(slots[k], a.now)
    ensures Tracks(Handle(slots, a.f, a.conn, a.now).0, k, m, seen, start)
  {
    hide Store, Assemble, AllBits;
    var j := FindFrom(slots, 0, a.f.id, a.conn);
    if j < SLOTS {
      StoreKeeps(slots[j], a.f);
      assert j != k;
    } else {
      var swept := Expire(slots, a.now);
      var free := FreeFrom(swept, 0);
      assert swept[k] == slots[k];
      if free < SLOTS {
        StoreKeeps(FreshSlot(a.f.id, a.conn, a.f.total, a.now), a.f);
        assert free != k;
      }
    }
  }

  /** While four other messages are being collected, a piece of a fifth is dropped and costs them nothing. */
  lemma NoSlotFree(slots: seq<Slot>, a: Arrival)
    requires SlotsOk(slots)
    requires forall k :: 0 <= k < |slots| ==>
      slots[k].active && !Expired(slots[k], a.now) && !Matches(slots[k], a.f.id, a.conn)
    ensures |slots| == 4 && Handle(slots, a.f, a.conn, a.now) == (slots, None)
  {
    hide Expired;
    assert Expire(slots, a.now) == slots;
  }

  /** The first piece of a message not yet collected opens a slot, if one is free or expired. */
  lemma FirstPiece(slots: seq<Slot>, m: Message, a: Arrival)
    requires SlotsOk(slots) && MessageOk(m) && Untracked(slots, m) && Consistent(m, a) && Of(m, a)
    requires exists k :: 0 <= k < SLOTS && (!slots[k].active || Expired(slots[k], a.now))
    ensures var (next, out) := Handle(slots, a.f, a.conn, a.now);
            if {a.f.idx} == AllBits(|m.chunks|)
            then out == Some(Flatten(m.chunks)) && Untracked(next, m)
            else out == None && exists k :: Tracks(next, k, m, {a.f.idx}, a.now)
  {
    hide Store, Assemble, AllBits;
    assert FindFrom(slots, 0, a.f.id, a.conn) == SLOTS;
    var swept := Expire(slots, a.now);
    var free := FreeFrom(swept, 0);
    var k0 :| 0 <= k0 < SLOTS && (!slots[k0].active || Expired(slots[k0], a.now));
    assert !swept[k0].active;
    assert free < SLOTS;
    var fresh' := FreshSlot(a.f.id, a.conn, a.f.total, a.now);
    StoreHolds(fresh', m, a.f);
    StoreKeeps(fresh', a.f);
    var stored := Store(fresh', a.f);
    assert stored.received == {a.f.idx};
    if stored.received == AllBits(|m.chunks|) {
      AssembleIsFlatten(stored, m, |m.chunks|);
      assert m.chunks[..|m.chunks|] == m.chunks;
    } else {
      assert Tracks(Handle(slots, a.f, a.conn, a.now).0, free, m, {a.f.idx}, a.now);
    }
  }

  /////////////////////////////////////////////////////////////////////////////
  // Whole arrival sequences
  /////////////////////////////////////////////////////////////////////////////

  function Feed(slots: seq<Slot>, arrivals: seq<Arrival>): (r: (seq<Slot>, seq<Option<seq<byte>>>))
    requires SlotsOk(slots)
    ensures SlotsOk(r.0) && |r.1| == |arrivals|
  {
    if arrivals == [] then (slots, [])
    else
      var a := arrivals[|arrivals| - 1];
      var (before, outs) := Feed(slots, arrivals[..|arrivals| - 1]);
      var (after, out) := Handle(before, a.f, a.conn, a.now);
      (after, outs + [out])
  }

  /** Feeding a first arrival and then the others. */
  lemma {:induction false} FeedCons(slots: seq<Slot>, a: Arrival, arrivals: seq<Arrival>)
    requires SlotsOk(slots)
    ensures var (s1, out) := Handle(slots, a.f, a.conn, a.now);
            && Feed(slots, [a] + arrivals).0 == Feed(s1, arrivals).0
            && Feed(slots, [a] + arrivals).1 == [out] + Feed(s1, arrivals).1
    decreases |arrivals|
  {
    hide Handle;
    var all := [a] + arrivals;
    if arrivals == [] {
      assert all == [a] && all[..0] == [];
    } else {
      var n := |arrivals| - 1;
      FeedCons(slots, a, arrivals[..n]);
      assert all[..|all| - 1] == [a] + arrivals[..n];
    }
  }

  function Own(m: Message, a: Arrival): set<nat> {
    if Of(m, a) then {a.f.idx} else {}
  }

  /** The indices of m that have arrived. */
  function Seen(m: Message, arrivals: seq<Arrival>): set<nat> {
    if arrivals == [] then {} else Seen(m, arrivals[..|arrivals| - 1]) + Own(m, arrivals[|arrivals| - 1])
  }

  ghost predicate InTime(arrivals: seq<Arrival>, start: uint32) {
    forall i :: 0 <= i < |arrivals| ==> Recent(arrivals[i].now, start)
  }

  predicate Recent(now: uint32, start: uint32) {
    var age: int := now - start as int;
    age % TWO32 <= TIMEOUT_MS
  }

  /** While pieces are missing, the collecting slot gains exactly the new indices and nothing of m comes out. */
  lemma {:induction false} FeedTracks(slots: seq<Slot>, k: nat, m: Message, seen: set<nat>, start: uint32,
                                      arrivals: seq<Arrival>)
    requires SlotsOk(slots) && MessageOk(m) && Tracks(slots, k, m, seen, start)
    requires forall i :: 0 <= i < |arrivals| ==> Consistent(m, arrivals[i])
    requires InTime(arrivals, start) && !(AllBits(|m.chunks|) <= seen + Seen(m, arrivals))
    ensures var (next, outs) := Feed(slots, arrivals);
            && Tracks(next, k, m, seen + Seen(m, arrivals), start)
            && forall i :: 0 <= i < |arrivals| && Of(m, arrivals[i]) ==> outs[i] == None
  {
    hide Handle, Tracks, AllBits, Consistent, Of, Recent, Feed, Own, SlotOk;
    if arrivals == [] {
      NothingFed(slots);
      assert seen + Seen(m, arrivals) == seen;
    } else {
      var n := |arrivals| - 1;
      var a, prev := arrivals[n], arrivals[..n];
      assert arrivals == prev + [a];
      LastOut(slots, prev, a);
      assert seen + Seen(m, prev) + Own(m, a) == seen + Seen(m, arrivals);
      assert seen + Seen(m, prev) <= seen + Seen(m, arrivals);
      FeedTracks(slots, k, m, seen, start, prev);
      PieceWhileMissing(Feed(slots, prev).0, k, m, seen + Seen(m, prev), start, a);
    }
  }

  lemma NothingFed(slots: seq<Slot>)
    requires SlotsOk(slots)
    ensures Feed(slots, []).0 == slots
  {
  }

  lemma PieceWhileMissing(slots: seq<Slot>, k: nat, m: Message, seen: set<nat>, start: uint32, a: Arrival)
    requires SlotsOk(slots) && MessageOk(m) && Tracks(slots, k, m, seen, start)
    requires Consistent(m, a) && Recent(a.now, start) && !(AllBits(|m.chunks|) <= seen + Own(m, a))
    ensures var (next, out) := Handle(slots, a.f, a.conn, a.now);
            Tracks(next, k, m, seen + Own(m, a), start) && (Of(m, a) ==> out == None)
  {
    hide Handle, Tracks, AllBits;
    if Of(m, a) {
      OwnPiece(slots, k, m, seen, start, a);
    } else {
      TracksStart(slots, k, m, seen, start);
      ForeignPiece(slots, k, m, seen, start, a);
      assert seen + Own(m, a) == seen;
    }
  }

  lemma TracksStart(slots: seq<Slot>, k: nat, m: Message, seen: set<nat>, start: uint32)
    requires SlotsOk(slots) && MessageOk(m) && Tracks(slots, k, m, seen, start)
    ensures k < SLOTS && slots[k].start == start
  {
  }

  /** Fragments of m in any order, with duplicates, among fragments of any other messages: nothing of m comes out until
      the last missing index arrives, and then exactly the chunks in index order; the slot is closed again. */
  lemma Reassembles(slots: seq<Slot>, m: Message, first: Arrival, middle: seq<Arrival>, last: Arrival)
    requires SlotsOk(slots) && MessageOk(m) && Untracked(slots, m)
    requires Of(m, first) && Of(m, last) && Consistent(m, first) && Consistent(m, last)
    requires forall i :: 0 <= i < |middle| ==> Consistent(m, middle[i])
    requires InTime(middle, first.now)
    requires exists k :: 0 <= k < SLOTS && (!slots[k].active || Expired(slots[k], first.now))
    requires !(AllBits(|m.chunks|) <= {first.f.idx} + Seen(m, middle))
    requires {first.f.idx} + Seen(m, middle) + {last.f.idx} == AllBits(|m.chunks|)
    ensures var (s1, out1) := Handle(slots, first.f, first.conn, first.now);
            var (s2, outs) := Feed(s1, middle);
            var (s3, out3) := Handle(s2, last.f, last.conn, last.now);
            && out1 == None && out3 == Some(Flatten(m.chunks)) && Untracked(s3, m)
            && forall i :: 0 <= i < |middle| && Of(m, middle[i]) ==> outs[i] == None
  {
    hide Handle, Feed, Tracks, AllBits;
    FirstPiece(slots, m, first);
    var (s1, out1) := Handle(slots, first.f, first.conn, first.now);
    assert {first.f.idx} != AllBits(|m.chunks|);
    var k :| Tracks(s1, k, m, {first.f.idx}, first.now);
    FeedTracks(s1, k, m, {first.f.idx}, first.now, middle);
    var (s2, outs) := Feed(s1, middle);
    OwnPiece(s2, k, m, {first.f.idx} + Seen(m, middle), first.now, last);
  }

  /** The same over one arrival sequence: the last arrival, and no earlier piece of m, brings the message out. */
  lemma ReassemblesOnce(slots: seq<Slot>, m: Message, first: Arrival, middle: seq<Arrival>, last: Arrival)
    requires SlotsOk(slots) && MessageOk(m) && Untracked(slots, m)
    requires Of(m, first) && Of(m, last) && Consistent(m, first) && Consistent(m, last)
    requires forall i :: 0 <= i < |middle| ==> Consistent(m, middle[i])
    requires InTime(middle, first.now)
    requires exists k :: 0 <= k < SLOTS && (!slots[k].active || Expired(slots[k], first.now))
    requires !(AllBits(|m.chunks|) <= {first.f.idx} + Seen(m, middle))
    requires {first.f.idx} + Seen(m, middle) + {last.f.idx} == AllBits(|m.chunks|)
    ensures var before := [first] + middle;
            var outs := Feed(slots, before + [last]).1;
            && outs[..|before|] == Feed(slots, before).1
            && outs[|before|] == Some(Flatten(m.chunks))
            && forall i :: 0 <= i <= |middle| && Of(m, before[i]) ==> Feed(slots, before).1[i] == None
  {
    hide *;
    Reassembles(slots, m, first, middle, last);
    FeedCons(slots, first, middle);
    LastOut(slots, [first] + middle, last);
    var (s1, out1) := Handle(slots, first.f, first.conn, first.now);
    NothingBefore(m, first, middle, out1, Feed(s1, middle).1);
  }

  lemma NothingBefore(m: Message, first: Arrival, middle: seq<Arrival>, out: Option<seq<byte>>,
                      outs: seq<Option<seq<byte>>>)
    requires |outs| == |middle| && out == None
    requires forall i :: 0 <= i < |middle| && Of(m, middle[i]) ==> outs[i] == None
    ensures forall i :: 0 <= i <= |middle| && Of(m, ([first] + middle)[i]) ==> ([out] + outs)[i] == None
  {
  }

  lemma LastOut(slots: seq<Slot>, before: seq<Arrival>, last: Arrival)
    requires SlotsOk(slots)
    ensures var (s, outs) := Feed(slots, before);
            && Feed(slots, before + [last]).0 == Handle(s, last.f, last.conn, last.now).0
            && Feed(slots, before + [last]).1 == outs + [Handle(s, last.f, last.conn, last.now).1]
            && Feed(slots, before + [last]).1[..|before|] == outs
            && Feed(slots, before + [last]).1[|before|] == Handle(s, last.f, last.conn, last.now).1
  {
    hide Handle;
    assert (before + [last])[..|before|] == before;
  }
}
