/** The receive ring between the BLE callback (producer) and the main loop (consumer), at the grain of its atomic
    loads and stores and of the separate writes into a slot. */
module RxRing {
  import opened Bytes

  const SIZE: int := 4
  const BUF: int := 512

  datatype Packet = Packet(data: seq<byte>, conn: nat)

  /** A slot keeps stale bytes behind the current length. */
  datatype Slot = Slot(data: seq<byte>, len: nat, conn: nat)

  function Content(s: Slot): Packet
    requires s.len <= |s.data|
  {
    Packet(s.data[..s.len], s.conn)
  }

  /** Where the producer is inside onWrite: idle, or past the free-slot test with some of the writes done. */
  datatype Producer = PIdle | PChecked(p: Packet) | PCopied(p: Packet) | PSized(p: Packet) | PWritten(p: Packet)

  /** Where the consumer is inside loop: between packets, or processing the slot at its tail. */
  datatype Consumer = CIdle | CBusy

  datatype State = State(slots: seq<Slot>, head: nat, tail: nat, prod: Producer, cons: Consumer,
                         accepted: seq<Packet>, consumed: seq<Packet>)

  datatype Step = Arrive(p: Packet) | CopyData | StoreLen | StoreConn | Publish | Take | Release

  predicate WellFormed(s: State) {
    && |s.slots| == SIZE && s.head < SIZE && s.tail < SIZE
    && (forall k :: 0 <= k < SIZE ==> |s.slots[k].data| == BUF && s.slots[k].len <= BUF)
    && (!s.prod.PIdle? ==> 0 < |s.prod.p.data| <= BUF)
  }

  function Init(): State {
    State(seq(SIZE, _ => Slot(Zeros(BUF), 0, 0)), 0, 0, PIdle, CIdle, [], [])
  }

  /** One atomic step of one side; a step that is not enabled leaves the state. */
  function Do(s: State, step: Step): (r: State)
    requires WellFormed(s)
    ensures WellFormed(r)
  {
    match step
    case Arrive(p) =>
      if s.prod.PIdle? && 0 < |p.data| <= BUF && (s.head + 1) % SIZE != s.tail then s.(prod := PChecked(p)) else s
    case CopyData =>
      if !s.prod.PChecked? then s
      else
        var p, slot := s.prod.p, s.slots[s.head];
        s.(slots := s.slots[s.head := slot.(data := p.data + slot.data[|p.data|..])], prod := PCopied(p))
    case StoreLen =>
      if !s.prod.PCopied? then s
      else
        var p, slot := s.prod.p, s.slots[s.head];
        s.(slots := s.slots[s.head := slot.(len := |p.data|)], prod := PSized(p))
    case StoreConn =>
      if !s.prod.PSized? then s
      else
        var p, slot := s.prod.p, s.slots[s.head];
        s.(slots := s.slots[s.head := slot.(conn := p.conn)], prod := PWritten(p))
    case Publish =>
      if !s.prod.PWritten? then s
      else s.(head := (s.head + 1) % SIZE, prod := PIdle, accepted := s.accepted + [s.prod.p])
    case Take =>
      if s.cons.CIdle? && s.tail != s.head then s.(cons := CBusy) else s
    case Release =>
      if !s.cons.CBusy? then s
      else s.(tail := (s.tail + 1) % SIZE, cons := CIdle, consumed := s.consumed + [Content(s.slots[s.tail])])
  }

  function Run(s: State, steps: seq<Step>): (r: State)
    requires WellFormed(s)
    ensures WellFormed(r)
  {
    if steps == [] then s else Do(Run(s, steps[..|steps| - 1]), steps[|steps| - 1])
  }

  /** The ring holds exactly the accepted packets not yet consumed, oldest first; the slot being filled is free. */
  ghost predicate Inv(s: State)
    requires WellFormed(s)
  {
    var a, c := |s.accepted|, |s.consumed|;
    && s.head == a % SIZE && s.tail == c % SIZE
    && c <= a <= c + 3 && (!s.prod.PIdle? ==> a <= c + 2) && (s.cons.CBusy? ==> c < a)
    && s.consumed == s.accepted[..c]
    && (forall k :: c <= k < a ==> Content(s.slots[k % SIZE]) == s.accepted[k])
    && FilledSoFar(s)
  }

  /** What the writes done so far have put into the head slot. */
  ghost predicate FilledSoFar(s: State)
    requires WellFormed(s)
  {
    var slot := s.slots[s.head];
    match s.prod
    case PIdle => true
    case PChecked(p) => true
    case PCopied(p) => slot.data[..|p.data|] == p.data
    case PSized(p) => slot.data[..|p.data|] == p.data && slot.len == |p.data|
    case PWritten(p) => Content(slot) == p
  }

  /** Fewer than SIZE consecutive positions never share a slot. */
  lemma DistinctSlots(j: nat, k: nat)
    requires j < k < j + SIZE
    ensures j % SIZE != k % SIZE
  {
  }

  /** Writing the head slot leaves every published packet in place. */
  lemma HeadWrite(s: State, slot: Slot)
    requires WellFormed(s) && Inv(s) && !s.prod.PIdle? && |slot.data| == BUF && slot.len <= BUF
    ensures forall k :: |s.consumed| <= k < |s.accepted| ==>
              Content(s.slots[s.head := slot][k % SIZE]) == s.accepted[k]
  {
    var a := |s.accepted|;
    forall k | |s.consumed| <= k < a
      ensures Content(s.slots[s.head := slot][k % SIZE]) == s.accepted[k]
    {
      DistinctSlots(k, a);
    }
  }

  lemma NotFull(a: nat, c: nat)
    requires c <= a <= c + 3
    ensures (a + 1) % SIZE != c % SIZE <==> a <= c + 2
    ensures a % SIZE != c % SIZE <==> c < a
  {
  }

  lemma SuccMod(n: nat)
    ensures (n % SIZE + 1) % SIZE == (n + 1) % SIZE
  {
  }

  lemma WriteKeepsInv(s: State, step: Step)
    requires WellFormed(s) && Inv(s) && (step.CopyData? || step.StoreLen? || step.StoreConn?)
    ensures Inv(Do(s, step))
  {
    var t := Do(s, step);
    if t != s {
      HeadWrite(s, t.slots[s.head]);
      assert t.slots == s.slots[s.head := t.slots[s.head]];
      assert FilledSoFar(t);
    }
  }

  lemma ArriveKeepsInv(s: State, p: Packet)
    requires WellFormed(s) && Inv(s)
    ensures Inv(Do(s, Arrive(p)))
  {
    NotFull(|s.accepted|, |s.consumed|);
  }

  lemma PublishKeepsInv(s: State)
    requires WellFormed(s) && Inv(s)
    ensures Inv(Do(s, Publish))
  {
    hide Content;
    var t, a := Do(s, Publish), |s.accepted|;
    if s.prod.PWritten? {
      SuccMod(a);
      assert Content(s.slots[a % SIZE]) == s.prod.p;
      assert t.accepted[..|s.consumed|] == s.accepted[..|s.consumed|];
      forall k | |s.consumed| <= k < a + 1
        ensures Content(t.slots[k % SIZE]) == t.accepted[k]
      {
        if k < a {
          assert t.accepted[k] == s.accepted[k];
        }
      }
    }
  }

  lemma TakeKeepsInv(s: State)
    requires WellFormed(s) && Inv(s)
    ensures Inv(Do(s, Take))
  {
    NotFull(|s.accepted|, |s.consumed|);
  }

  lemma ReleaseKeepsInv(s: State)
    requires WellFormed(s) && Inv(s)
    ensures Inv(Do(s, Release))
  {
    hide Content;
    var c := |s.consumed|;
    if s.cons.CBusy? {
      SuccMod(c);
      assert s.accepted[..c + 1] == s.accepted[..c] + [s.accepted[c]];
      assert Content(s.slots[c % SIZE]) == s.accepted[c];
    }
  }

  lemma StepKeepsInv(s: State, step: Step)
    requires WellFormed(s) && Inv(s)
    ensures Inv(Do(s, step))
  {
    hide Inv, Do;
    match step
    case Arrive(p) => ArriveKeepsInv(s, p);
    case Publish => PublishKeepsInv(s);
    case Take => TakeKeepsInv(s);
    case Release => ReleaseKeepsInv(s);
    case _ => WriteKeepsInv(s, step);
  }

  lemma {:induction false} RunKeepsInv(steps: seq<Step>)
    ensures Inv(Run(Init(), steps))
  {
    if steps != [] {
      hide Inv, Do;
      RunKeepsInv(steps[..|steps| - 1]);
      StepKeepsInv(Run(Init(), steps[..|steps| - 1]), steps[|steps| - 1]);
    }
  }

  /** Under every interleaving: the consumed packets are a prefix of the accepted ones, in order and without loss
      or duplication; at most three wait; and while the consumer works on its slot the producer never writes it. */
  lemma EveryInterleaving(steps: seq<Step>)
    ensures var s := Run(Init(), steps);
            && s.consumed <= s.accepted && |s.accepted| - |s.consumed| <= 3
            && (s.head == s.tail <==> s.consumed == s.accepted)
            && (s.cons.CBusy? && !s.prod.PIdle? ==> s.head != s.tail)
            && (s.cons.CBusy? ==> |s.consumed| < |s.accepted| && Content(s.slots[s.tail]) == s.accepted[|s.consumed|])
  {
    RunKeepsInv(steps);
    hide Run;
    var s := Run(Init(), steps);
    NotFull(|s.accepted|, |s.consumed|);
    if s.consumed == s.accepted {
      assert |s.consumed| == |s.accepted|;
    }
  }

  /** A packet is turned away exactly when it is empty, over-long, or three packets are waiting. */
  lemma ArrivalAcceptedIff(steps: seq<Step>, p: Packet)
    ensures var s := Run(Init(), steps);
            s.prod.PIdle? ==>
              (Do(s, Arrive(p)).prod == PChecked(p) <==> 0 < |p.data| <= 512 && |s.accepted| - |s.consumed| < 3)
  {
    RunKeepsInv(steps);
    hide Run;
    var s := Run(Init(), steps);
    NotFull(|s.accepted|, |s.consumed|);
  }
}
