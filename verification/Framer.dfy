/**
 * The byte-at-a-time framing automaton of the Meshtastic TCP stream: every frame is
 * 0x94 0xC3, a big-endian 16-bit length and the payload.
 */
module Framer {
  import opened Bytes
  import opened Wrappers

  const START1: byte := 0x94
  const START2: byte := 0xC3
  const HEADER_LEN: int := 4
  const MAX_PAYLOAD: int := 512

  /** What the sender writes for one payload; the length is a 16-bit argument there. */
  function Frame(payload: seq<byte>): (r: seq<byte>)
    requires |payload| < 0x1_0000
  {
    [START1, START2, |payload| / 256, |payload| % 256] + payload
  }

  /** On the wire: 0x94, 0xC3, the length with its high byte first, the payload. */
  lemma FrameBytes(payload: seq<byte>)
    requires |payload| < 0x1_0000
    ensures var f := Frame(payload);
            && |f| == 4 + |payload| && f[0] == 0x94 && f[1] == 0xC3 && 256 * f[2] as int + f[3] == |payload|
            && f[4..] == payload
  {
  }

  datatype Rx =
    | WaitStart1
    | WaitStart2
    | ReadLenHi
    | ReadLenLo(hi: byte)
    | ReadPayload(len: nat, got: seq<byte>)
  {
    /** What every stream keeps: an announced length in range and a payload still incomplete. */
    predicate InRange() {
      ReadPayload? ==> len <= MAX_PAYLOAD && (|got| == 0 || |got| < len)
    }
  }

  datatype Step = Step(next: Rx, delivered: Option<seq<byte>>)

  function OneByte(s: Rx, b: byte): (r: Step)
    requires s.InRange()
    ensures r.next.InRange()
    ensures r.delivered.Some? ==> |r.delivered.value| <= MAX_PAYLOAD
  {
    match s
    case WaitStart1 => Step(if b == START1 then WaitStart2 else WaitStart1, None)
    case WaitStart2 => Step(if b == START2 then ReadLenHi else WaitStart1, None)
    case ReadLenHi => Step(ReadLenLo(b), None)
    case ReadLenLo(hi) =>
      var len: nat := 256 * hi as int + b;
      Step(if len > MAX_PAYLOAD then WaitStart1 else ReadPayload(len, []), None)
    case ReadPayload(len, got) =>
      if |got| + 1 >= len
      then Step(WaitStart1, Some((got + [b])[..len]))
      else Step(ReadPayload(len, got + [b]), None)
  }

  datatype Outcome = Outcome(state: Rx, delivered: seq<seq<byte>>)

  /** The payloads handed over while the bytes are read, and the state reached. */
  function Run(s: Rx, bytes: seq<byte>): (r: Outcome)
    requires s.InRange()
    ensures r.state.InRange()
    decreases |bytes|
  {
    if bytes == [] then Outcome(s, [])
    else
      var before := Run(s, bytes[..|bytes| - 1]);
      var step := OneByte(before.state, bytes[|bytes| - 1]);
      Outcome(step.next,
              if step.delivered.Some? then before.delivered + [step.delivered.value]
              else before.delivered)
  }

  // ---- Runs compose ---------------------------------------------------------

  lemma {:induction false} RunAppend(s: Rx, a: seq<byte>, b: seq<byte>)
    requires s.InRange()
    ensures var first := Run(s, a);
            var second := Run(first.state, b);
            Run(s, a + b) == Outcome(second.state, first.delivered + second.delivered)
    decreases |b|
  {
    if b == [] {
      assert a + b == a;
    } else {
      var k := |b| - 1;
      assert (a + b)[..|a + b| - 1] == a + b[..k];
      RunAppend(s, a, b[..k]);
    }
  }

  /** Text outside a frame that carries no start byte. */
  predicate Junk(bytes: seq<byte>) {
    forall i :: 0 <= i < |bytes| ==> bytes[i] != START1
  }

  lemma {:induction false} JunkIgnored(junk: seq<byte>)
    requires Junk(junk)
    ensures Run(WaitStart1, junk) == Outcome(WaitStart1, [])
    decreases |junk|
  {
    if junk != [] {
      JunkIgnored(junk[..|junk| - 1]);
    }
  }

  /** While a payload is incomplete the automaton only collects it. */
  lemma {:induction false} Collects(len: nat, bytes: seq<byte>)
    requires len <= MAX_PAYLOAD
    requires |bytes| < len || |bytes| == 0
    ensures Run(ReadPayload(len, []), bytes) == Outcome(ReadPayload(len, bytes), [])
    decreases |bytes|
  {
    if bytes != [] {
      var k := |bytes| - 1;
      Collects(len, bytes[..k]);
      assert bytes[..k] + [bytes[k]] == bytes;
    }
  }

  lemma LastByte(s: Rx, bytes: seq<byte>)
    requires s.InRange() && bytes != []
    ensures var before := Run(s, bytes[..|bytes| - 1]);
            var step := OneByte(before.state, bytes[|bytes| - 1]);
            && Run(s, bytes).state == step.next
            && (step.delivered.Some? ==>
                  Run(s, bytes).delivered == before.delivered + [step.delivered.value])
  {
  }

  lemma PayloadDelivered(payload: seq<byte>)
    requires 1 <= |payload| <= MAX_PAYLOAD
    ensures Run(ReadPayload(|payload|, []), payload) == Outcome(WaitStart1, [payload])
  {
    hide Run;
    var k := |payload| - 1;
    var s := ReadPayload(|payload|, []);
    Collects(|payload|, payload[..k]);
    assert payload[..k] + [payload[k]] == payload;
    assert payload[..|payload|] == payload;
    LastByte(s, payload);
  }

  lemma HeaderRead(len: nat)
    requires len < 0x1_0000
    ensures Run(WaitStart1, [START1, START2, len / 256, len % 256])
         == Outcome(if len > MAX_PAYLOAD then WaitStart1 else ReadPayload(len, []), [])
  {
    var h: seq<byte> := [START1, START2, len / 256, len % 256];
    assert h[..3] == [START1, START2, len / 256];
    assert h[..3][..2] == [START1, START2];
    assert h[..3][..2][..1] == [START1];
    assert Run(WaitStart1, []) == Outcome(WaitStart1, []);
    assert Run(WaitStart1, h[..3][..2][..1]) == Outcome(WaitStart2, []);
    assert Run(WaitStart1, h[..3][..2]) == Outcome(ReadLenHi, []);
    assert Run(WaitStart1, h[..3]) == Outcome(ReadLenLo(len / 256), []);
  }

  /** A header, then its payload. */
  lemma FrameSplits(payload: seq<byte>)
    requires |payload| < 0x1_0000
    ensures Run(WaitStart1, Frame(payload))
         == Run(if |payload| > MAX_PAYLOAD then WaitStart1 else ReadPayload(|payload|, []), payload)
  {
    hide Run;
    HeaderRead(|payload|);
    RunAppend(WaitStart1, [START1, START2, |payload| / 256, |payload| % 256], payload);
  }

  /** No stream delivers a payload longer than 512 bytes. */
  lemma {:induction false} DeliveriesAreShort(s: Rx, bytes: seq<byte>, i: nat)
    requires s.InRange() && i < |Run(s, bytes).delivered|
    ensures |Run(s, bytes).delivered[i]| <= MAX_PAYLOAD
    decreases |bytes|
  {
    var before := Run(s, bytes[..|bytes| - 1]);
    if i < |before.delivered| {
      DeliveriesAreShort(s, bytes[..|bytes| - 1], i);
    }
  }

  /**
   * A framed payload comes out as itself exactly when it has 1 to 512 bytes: a longer one is
   * refused at its length, and an empty one waits for a byte it does not own.
   */
  lemma DeliveredIff(payload: seq<byte>)
    requires |payload| < 0x1_0000
    ensures Run(WaitStart1, Frame(payload)).delivered == [payload] <==> 1 <= |payload| <= 512
    ensures 1 <= |payload| <= 512 ==> Run(WaitStart1, Frame(payload)).state == WaitStart1
  {
    FrameSplits(payload);
    if |payload| > MAX_PAYLOAD {
      if Run(WaitStart1, payload).delivered == [payload] {
        DeliveriesAreShort(WaitStart1, payload, 0);
        assert false;
      }
    } else if payload != [] {
      PayloadDelivered(payload);
    }
  }

  /** Bytes a state has certainly consumed since it left the start. */
  function Consumed(s: Rx): nat {
    match s
    case WaitStart1 => 0
    case WaitStart2 => 1
    case ReadLenHi => 2
    case ReadLenLo(_) => 3
    case ReadPayload(_, got) => 4 + |got|
  }

  /** From the start, every payload costs its own length and a header. */
  lemma {:induction false} HeaderCosts(bytes: seq<byte>)
    ensures Consumed(Run(WaitStart1, bytes).state) <= |bytes|
    ensures forall i :: 0 <= i < |Run(WaitStart1, bytes).delivered| ==>
              |Run(WaitStart1, bytes).delivered[i]| + HEADER_LEN <= |bytes|
    decreases |bytes|
  {
    if bytes != [] {
      HeaderCosts(bytes[..|bytes| - 1]);
    }
  }

  /** What is left of a frame whose first byte was taken by something else. */
  function Beheaded(payload: seq<byte>): (r: seq<byte>)
    requires |payload| < 0x1_0000
    ensures |r| == |payload| + 3
  {
    Frame(payload)[1..]
  }

  lemma BeheadedIsLost(payload: seq<byte>)
    requires |payload| < 0x1_0000
    ensures Run(WaitStart1, Beheaded(payload)).delivered != [payload]
    ensures Frame(payload) == [START1] + Beheaded(payload)
  {
    hide Run;
    HeaderCosts(Beheaded(payload));
    var d := Run(WaitStart1, Beheaded(payload)).delivered;
    assert |d| == 1 ==> |d[0]| < |payload|;
  }

  /** An empty frame swallows the byte that follows it, so any frame right behind it is lost. */
  lemma EmptyFrameSwallows(payload: seq<byte>)
    requires |payload| < 0x1_0000
    ensures Run(WaitStart1, Frame([]) + [START1]) == Outcome(WaitStart1, [[]])
    ensures Run(WaitStart1, Frame([]) + Frame(payload)).delivered != [[], payload]
  {
    var empty: seq<byte> := [];
    OneTaken();
    BeheadedIsLost(payload);
    hide Run, Frame, Beheaded;
    RunAppend(WaitStart1, Frame(empty) + [START1], Beheaded(payload));
    assert Frame(empty) + Frame(payload) == Frame(empty) + [START1] + Beheaded(payload);
    var rest := Run(WaitStart1, Beheaded(payload)).delivered;
    assert ([empty] + rest)[1..] == rest && [empty, payload][1..] == [payload];
  }

  lemma OneTaken()
    ensures Run(WaitStart1, Frame([]) + [START1]) == Outcome(WaitStart1, [[]])
  {
    FrameSplits([]);
    RunAppend(WaitStart1, Frame([]), [START1]);
    assert [START1][..0] == [] && [START1][1..] == [];
  }

  // ---- Whole streams --------------------------------------------------------

  /** junk[0] frame(payloads[0]) junk[1] frame(payloads[1]) ... junk[n]. */
  function Stream(junk: seq<seq<byte>>, payloads: seq<seq<byte>>): (r: seq<byte>)
    requires |junk| == |payloads| + 1
    requires forall i :: 0 <= i < |payloads| ==> |payloads[i]| <= MAX_PAYLOAD
  {
    if payloads == [] then junk[0]
    else junk[0] + Frame(payloads[0]) + Stream(junk[1..], payloads[1..])
  }

  /** Every list of framed payloads, with junk around them, is delivered exactly and in order. */
  lemma {:induction false} StreamDelivered(junk: seq<seq<byte>>, payloads: seq<seq<byte>>)
    requires |junk| == |payloads| + 1
    requires forall i :: 0 <= i < |junk| ==> Junk(junk[i])
    requires forall i :: 0 <= i < |payloads| ==> 1 <= |payloads[i]| <= 512
    ensures Run(WaitStart1, Stream(junk, payloads)) == Outcome(WaitStart1, payloads)
    decreases |payloads|
  {
    hide Run, Frame, Junk;
    JunkIgnored(junk[0]);
    if payloads != [] {
      var p := payloads[0];
      var rest := Stream(junk[1..], payloads[1..]);
      StreamDelivered(junk[1..], payloads[1..]);
      DeliveredIff(p);
      RunAppend(WaitStart1, junk[0], Frame(p));
      RunAppend(WaitStart1, junk[0] + Frame(p), rest);
      assert [p] + payloads[1..] == payloads;
    }
  }

  // ---- Resynchronisation ----------------------------------------------------

  /** The most bytes a state can still consume before it is back at the start. */
  function Patience(s: Rx): (r: int)
    requires s.InRange()
    ensures 0 <= r <= MAX_PAYLOAD + 2
    ensures r == 0 <==> s == WaitStart1
  {
    match s
    case WaitStart1 => 0
    case WaitStart2 => MAX_PAYLOAD + 2
    case ReadLenHi => MAX_PAYLOAD + 2
    case ReadLenLo(_) => MAX_PAYLOAD + 1
    case ReadPayload(len, got) => if len == 0 then 1 else len - |got|
  }

  /** Except for a start pair, every byte that is not a start byte uses up patience. */
  lemma QuietByte(s: Rx, b: byte)
    requires s.InRange() && b != START1
    ensures var next := OneByte(s, b).next;
            next == WaitStart1 || next == ReadLenHi || Patience(next) < Patience(s)
    ensures OneByte(s, b).next == ReadLenHi ==> s == WaitStart2
  {
  }

  lemma {:induction false} QuietRun(s: Rx, gap: seq<byte>)
    requires s.InRange() && s != WaitStart2 && Junk(gap)
    ensures Run(s, gap).state == WaitStart1 || Patience(Run(s, gap).state) + |gap| <= Patience(s)
    ensures Run(s, gap).state != WaitStart2
    decreases |gap|
  {
    if gap != [] {
      var k := |gap| - 1;
      QuietRun(s, gap[..k]);
      QuietByte(Run(s, gap[..k]).state, gap[k]);
    }
  }

  /**
   * Whatever came before, 515 bytes without a start byte bring the automaton back, and every
   * well framed stream behind such a gap is delivered exactly.
   */
  lemma Resynchronises(past: seq<byte>, gap: seq<byte>, junk: seq<seq<byte>>,
                       payloads: seq<seq<byte>>)
    requires Junk(gap) && |gap| >= 515
    requires |junk| == |payloads| + 1
    requires forall i :: 0 <= i < |junk| ==> Junk(junk[i])
    requires forall i :: 0 <= i < |payloads| ==> 1 <= |payloads[i]| <= 512
    ensures Run(WaitStart1, past + gap).state == WaitStart1
    ensures Run(WaitStart1, past + gap + Stream(junk, payloads)).delivered
         == Run(WaitStart1, past + gap).delivered + payloads
  {
    hide Run, Frame, Junk, Stream;
    Settles(Run(WaitStart1, past).state, gap);
    RunAppend(WaitStart1, past, gap);
    StreamDelivered(junk, payloads);
    RunAppend(WaitStart1, past + gap, Stream(junk, payloads));
  }

  lemma Settles(s: Rx, gap: seq<byte>)
    requires s.InRange() && Junk(gap) && |gap| >= MAX_PAYLOAD + 3
    ensures Run(s, gap).state == WaitStart1
  {
    var first, rest := gap[..1], gap[1..];
    assert gap == first + rest;
    assert first[..|first| - 1] == [];
    assert Run(s, first).state == OneByte(s, gap[0]).next;
    assert Run(s, first).state != WaitStart2;
    QuietRun(Run(s, first).state, rest);
    RunAppend(s, first, rest);
  }

  /** A start byte that repeats itself costs the frame it begins, whatever the payload. */
  lemma DoubledStartLosesFrame(payload: seq<byte>)
    requires |payload| < 0x1_0000
    ensures Run(WaitStart1, [START1] + Frame(payload)).delivered != [payload]
  {
    TwoStarts();
    BeheadedIsLost(payload);
    hide Run, Frame, Beheaded;
    RunAppend(WaitStart1, [START1, START1], Beheaded(payload));
    assert [START1] + Frame(payload) == [START1, START1] + Beheaded(payload);
    assert [] + Run(WaitStart1, Beheaded(payload)).delivered == Run(WaitStart1, Beheaded(payload)).delivered;
  }

  lemma TwoStarts()
    ensures Run(WaitStart1, [START1, START1]) == Outcome(WaitStart1, [])
  {
    assert [START1, START1][..1] == [START1] && [START1][..0] == [];
    assert Run(WaitStart1, []) == Outcome(WaitStart1, []);
    assert Run(WaitStart1, [START1]) == Outcome(WaitStart2, []);
  }

  // ---- The receiver itself --------------------------------------------------

  datatype RxState = WAIT_START1 | WAIT_START2 | READ_LEN_HI | READ_LEN_LO | READ_PAYLOAD

  class Receiver {
    const rxBuf: array<byte>
    var rxPos: int
    var rxState: RxState
    var rxPayloadLen: nat

    ghost predicate Valid()
      reads this, rxBuf
    {
      && rxBuf.Length == HEADER_LEN + MAX_PAYLOAD
      && (rxState == READ_LEN_LO ==> rxPayloadLen % 256 == 0 && rxPayloadLen < 0x1_0000)
      && (rxState == READ_PAYLOAD ==> 0 <= rxPos <= MAX_PAYLOAD && State().InRange())
    }

    ghost function State(): (s: Rx)
      requires rxState == READ_LEN_LO ==> rxPayloadLen < 0x1_0000
      requires rxState == READ_PAYLOAD ==> 0 <= rxPos <= rxBuf.Length
      reads this, rxBuf
    {
      match rxState
      case WAIT_START1 => WaitStart1
      case WAIT_START2 => WaitStart2
      case READ_LEN_HI => ReadLenHi
      case READ_LEN_LO => ReadLenLo(rxPayloadLen / 256)
      case READ_PAYLOAD => ReadPayload(rxPayloadLen, rxBuf[..rxPos])
    }

    constructor ()
      ensures Valid() && State() == WaitStart1 && fresh(rxBuf)
    {
      rxBuf := new byte[HEADER_LEN + MAX_PAYLOAD](_ => 0);
      rxPos, rxState, rxPayloadLen := 0, WAIT_START1, 0;
    }

    /** Every index into the buffer is checked here, for every byte in every reachable state. */
    method ProcessByte(b: byte) returns (delivered: Option<seq<byte>>)
      requires Valid()
      modifies this, rxBuf
      ensures Valid()
      ensures Step(State(), delivered) == OneByte(old(State()), b)
    {
      delivered := None;
      match rxState
      case WAIT_START1 =>
        if b == START1 { rxState := WAIT_START2; }
      case WAIT_START2 =>
        rxState := if b == START2 then READ_LEN_HI else WAIT_START1;
      case READ_LEN_HI =>
        rxPayloadLen := 256 * b as int;
        rxState := READ_LEN_LO;
      case READ_LEN_LO =>
        rxPayloadLen := rxPayloadLen + b; // the low byte is still 0, so "or" is "plus"
        if rxPayloadLen > MAX_PAYLOAD {
          rxState := WAIT_START1;
        } else {
          rxPos := 0;
          rxState := READ_PAYLOAD;
        }
      case READ_PAYLOAD =>
        ghost var got := rxBuf[..rxPos];
        rxBuf[rxPos] := b;
        rxPos := rxPos + 1;
        assert rxBuf[..rxPos] == got + [b];
        if rxPos >= rxPayloadLen {
          assert rxBuf[..rxPayloadLen] == rxBuf[..rxPos][..rxPayloadLen];
          delivered := Some(rxBuf[..rxPayloadLen]);
          rxState := WAIT_START1;
        }
    }

    /** Reading whatever the socket holds hands over exactly what the automaton delivers. */
    method Poll(available: seq<byte>) returns (delivered: seq<seq<byte>>)
      requires Valid()
      modifies this, rxBuf
      ensures Valid()
      ensures Outcome(State(), delivered) == Run(old(State()), available)
    {
      delivered := [];
      for i := 0 to |available|
        invariant Valid()
        invariant Outcome(State(), delivered) == Run(old(State()), available[..i])
      {
        assert available[..i + 1][..i] == available[..i];
        var d := ProcessByte(available[i]);
        if d.Some? {
          delivered := delivered + [d.value];
        }
      }
      assert available[..|available|] == available;
    }
  }
}
