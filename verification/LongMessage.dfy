/**
 * A long message end to end: the bridge splits it, encodes each chunk as a text packet and frames it to the radio; the
 * radio reads the frames and hands the packets on under its own number; the bridge at the other side reads that stream
 * with the receive automaton and the parser.
 */
module LongMessage {
  import opened Bytes
  import opened Utf8
  import opened Wrappers
  import Splitter
  import MeshProto
  import Framer

  /** The radio's node number, and what send_text is told. */
  datatype Route = Route(node: uint32, to: uint32, channel: byte)

  const HOP_LIMIT: byte := 3

  /** send_text sends at most 233 bytes. */
  function Cut(text: seq<byte>): (r: seq<byte>)
    ensures r <= text && |r| == if |text| <= 233 then |text| else 233
  {
    if |text| > Splitter.DATA_MAX then text[..Splitter.DATA_MAX] else text
  }

  /** The payload the bridge writes to the radio for a text: no sender number, wrapped as field 1. */
  function Outgoing(r: Route, id: uint32, text: seq<byte>): (p: seq<byte>) {
    MeshProto.ToRadio(MeshProto.PacketBytes(0, r.to, id, r.channel, 3, MeshProto.DataBytes(Cut(text))))
  }

  /** send_text: the three encoders and the frame. */
  method SendText(r: Route, id: uint32, text: seq<byte>) returns (out: seq<byte>)
    ensures |Outgoing(r, id, text)| < 0x1_0000 && out == Framer.Frame(Outgoing(r, id, text))
  {
    OutgoingFitsFrame(r, id, text);
    hide MeshProto.EncFields, Framer.Frame;
    var textLen := |text|;
    if textLen > Splitter.DATA_MAX { textLen := Splitter.DATA_MAX; }
    assert text[..textLen] == Cut(text);
    var data := MeshProto.EncodeData(MeshProto.TEXT_APP, text[..textLen]);
    var packet := MeshProto.EncodeMeshPacket(0, r.to, id, r.channel, HOP_LIMIT, data);
    assert packet == MeshProto.PacketBytes(0, r.to, id, r.channel, HOP_LIMIT, MeshProto.DataBytes(Cut(text)));
    var payload := MeshProto.EncodeToRadioPacket(packet);
    out := Framer.Frame(payload);
  }

  /** Whatever the text, the frame carries 1 to 512 bytes, so it is one the automaton accepts; and its payload is not
      one this bridge's own parser would take for a message. */
  lemma OutgoingFitsFrame(r: Route, id: uint32, text: seq<byte>)
    ensures 1 <= |Outgoing(r, id, text)| <= Framer.MAX_PAYLOAD
    ensures MeshProto.ParseText(Outgoing(r, id, text)) == MeshProto.NoMessage()
  {
    var packet := MeshProto.PacketBytes(0, r.to, id, r.channel, HOP_LIMIT, MeshProto.DataBytes(Cut(text)));
    hide MeshProto.EncFields, MeshProto.ParseText, MeshProto.PacketBytes, MeshProto.DataBytes;
    SingleField(MeshProto.Field(1, MeshProto.Data(packet)));
    MeshProto.ToRadioFields(packet);
  }

  /** The radio's part, the one step outside this code: it takes the packet out of field 1, puts its own number in front
      as the sender and passes the packet on as field 2. */
  function Radio(node: uint32, payload: seq<byte>): Option<seq<byte>> {
    var packet :- MeshProto.LastData(MeshProto.Fields(payload), 1);
    var sent := MeshProto.EncField(MeshProto.Field(1, MeshProto.Fixed(node))) + packet;
    if |sent| < 0x8000_0000 then Some(MeshProto.EncFields([MeshProto.Field(2, MeshProto.Data(sent))])) else None
  }

  /** What the radio passes on for a text. */
  function Packet(r: Route, id: uint32, text: seq<byte>): (p: seq<byte>)
    requires |text| < 0x2000_0000
  {
    MeshProto.Envelope(r.node, r.to, id, r.channel, 3, text)
  }

  lemma RadioPassesOn(r: Route, id: uint32, text: seq<byte>)
    requires r.node != 0
    ensures Radio(r.node, Outgoing(r, id, text)) == Some(Packet(r, id, Cut(text)))
  {
    var data := MeshProto.DataBytes(Cut(text));
    var packet := MeshProto.PacketBytes(0, r.to, id, r.channel, HOP_LIMIT, data);
    hide MeshProto.EncFields, MeshProto.EncField, MeshProto.Fields, MeshProto.LastData, MeshProto.PacketBytes, MeshProto.DataBytes;
    MeshProto.ToRadioFields(packet);
    MeshProto.FromInFront(r.node, r.to, id, r.channel, HOP_LIMIT, data);
  }

  /** A text of one packet always makes a frame the receiver accepts. */
  lemma PacketFitsFrame(r: Route, id: uint32, text: seq<byte>)
    requires |text| <= Splitter.DATA_MAX
    ensures 1 <= |Packet(r, id, text)| <= Framer.MAX_PAYLOAD
  {
    var inner := MeshProto.PacketBytes(r.node, r.to, id, r.channel, HOP_LIMIT, MeshProto.DataBytes(text));
    var fs := [MeshProto.Field(2, MeshProto.Data(inner))];
    assert Packet(r, id, text) == MeshProto.EncFields(fs);
    SingleField(fs[0]);
  }

  lemma SingleField(f: MeshProto.Field)
    requires MeshProto.Encodable(f) && f.value.Data?
    ensures 1 <= |MeshProto.EncFields([f])| <= 10 + |f.value.bytes|
  {
    hide MeshProto.EncField;
    assert [f][1..] == [];
    MeshProto.FieldRoundTrip(f, []);
    MeshProto.FieldsSize([f]);
  }

  /** One packet for each text, with its own packet id. */
  function Packets(r: Route, ids: seq<uint32>, texts: seq<seq<byte>>): (ps: seq<seq<byte>>)
    requires |ids| == |texts|
    requires forall i :: 0 <= i < |texts| ==> |texts[i]| <= Splitter.DATA_MAX
    ensures |ps| == |texts|
    ensures forall i :: 0 <= i < |texts| ==> ps[i] == Packet(r, ids[i], texts[i])
    ensures forall i :: 0 <= i < |texts| ==> 1 <= |ps[i]| <= Framer.MAX_PAYLOAD
  {
    if texts == [] then []
    else
      PacketFitsFrame(r, ids[0], texts[0]);
      [Packet(r, ids[0], texts[0])] + Packets(r, ids[1..], texts[1..])
  }

  /** The texts parsed out of the delivered payloads. */
  function Texts(payloads: seq<seq<byte>>): (ts: seq<seq<byte>>)
    ensures |ts| == |payloads|
    ensures forall i :: 0 <= i < |ts| ==> ts[i] == MeshProto.ParseText(payloads[i]).text
  {
    if payloads == [] then [] else [MeshProto.ParseText(payloads[0]).text] + Texts(payloads[1..])
  }

  /** Reading a stream of framed text packets, junk around them, gives every message exactly. */
  lemma TextsArrive(r: Route, ids: seq<uint32>, texts: seq<seq<byte>>, junk: seq<seq<byte>>)
    requires |ids| == |texts| && |junk| == |texts| + 1
    requires forall i :: 0 <= i < |texts| ==> 1 <= |texts[i]| <= Splitter.DATA_MAX
    requires forall i :: 0 <= i < |junk| ==> Framer.Junk(junk[i])
    ensures var out := Framer.Run(Framer.WaitStart1, Framer.Stream(junk, Packets(r, ids, texts)));
            && out.state == Framer.WaitStart1
            && out.delivered == Packets(r, ids, texts)
            && Texts(out.delivered) == texts
            && forall i :: 0 <= i < |texts| ==>
                 MeshProto.ParseText(out.delivered[i])
                   == MeshProto.Message(true, r.node, r.to, ids[i], r.channel, 0, texts[i])
  {
    hide Framer.Run, Framer.Stream, Framer.Junk, MeshProto.ParseText, MeshProto.Envelope, Packets;
    var ps := Packets(r, ids, texts);
    Framer.StreamDelivered(junk, ps);
    forall i | 0 <= i < |texts|
      ensures MeshProto.ParseText(ps[i])
           == MeshProto.Message(true, r.node, r.to, ids[i], r.channel, 0, texts[i])
    {
      MeshProto.TextRoundTrip(r.node, r.to, ids[i], r.channel, HOP_LIMIT, texts[i]);
    }
    assert Texts(ps) == texts;
  }

  /** Texts that hold a header of skip bytes and fit one packet. */
  predicate Sized(texts: seq<seq<byte>>, skip: nat) {
    forall i :: 0 <= i < |texts| ==> skip <= |texts[i]| <= Splitter.DATA_MAX
  }

  /** What a reader sees who drops the first skip bytes of every text and joins the rest. */
  function Gather(texts: seq<seq<byte>>, skip: nat): (r: seq<byte>)
    requires Sized(texts, skip)
  {
    if texts == [] then []
    else
      var k := |texts| - 1;
      Gather(texts[..k], skip) + texts[k][skip..]
  }

  lemma TextBehindCounter(prefix: seq<byte>, i: nat, n: nat, slice: seq<byte>, truncated: bool)
    requires 1 <= i <= n <= Splitter.MAX_CHUNKS
    ensures Splitter.Text(prefix, i, n, slice, truncated)[|prefix| + 8..]
         == slice + Splitter.Marker(truncated)
  {
  }

  lemma ChunksAreSized(prefix: seq<byte>, body: seq<byte>, n: nat)
    requires |prefix| <= Splitter.PREFIX_MAX
    requires n <= Splitter.Needed(|body|, Splitter.MaxSlice(|prefix|))
    ensures Sized(Splitter.Chunks(prefix, body, n), |prefix| + 8)
  {
    hide Splitter.Needed, Splitter.MaxSlice, Splitter.Chunk, Splitter.Chunks, Splitter.CutAt;
    var cs := Splitter.Chunks(prefix, body, n);
    forall i | 0 <= i < |cs|
      ensures |prefix| + 8 <= |cs[i]| <= Splitter.DATA_MAX
    {
      Splitter.ChunkFits(prefix, body, i);
      Splitter.ChunkAt(prefix, body, n, i);
    }
  }

  /** The chunks of a message, headers dropped, are its slices, and a marker if the last was cut. */
  lemma {:induction false} GatherChunks(prefix: seq<byte>, body: seq<byte>, n: nat)
    requires |prefix| <= Splitter.PREFIX_MAX
    requires n <= Splitter.Needed(|body|, Splitter.MaxSlice(|prefix|))
    ensures Sized(Splitter.Chunks(prefix, body, n), |prefix| + 8)
    ensures var m := Splitter.MaxSlice(|prefix|);
            && Gather(Splitter.Chunks(prefix, body, n), |prefix| + 8)
               == Splitter.Joined(body, m, n)
                  + Splitter.Marker(n > 0 && Splitter.Truncated(body, m, n - 1))
  {
    hide *;
    ChunksAreSized(prefix, body, n);
    if n == 0 {
      NothingGathered(prefix, body);
    } else {
      GatherChunks(prefix, body, n - 1);
      GatherOneMore(prefix, body, n);
    }
  }

  lemma NothingGathered(prefix: seq<byte>, body: seq<byte>)
    requires Sized(Splitter.Chunks(prefix, body, 0), |prefix| + 8)
    ensures Gather(Splitter.Chunks(prefix, body, 0), |prefix| + 8)
         == Splitter.Joined(body, Splitter.MaxSlice(|prefix|), 0) + Splitter.Marker(false)
  {
    hide Splitter.MaxSlice, Splitter.Needed;
  }

  lemma GatherSnoc(texts: seq<seq<byte>>, t: seq<byte>, skip: nat)
    requires Sized(texts, skip) && Sized(texts + [t], skip)
    ensures |t| >= skip
    ensures Gather(texts + [t], skip) == Gather(texts, skip) + t[skip..]
  {
    assert (texts + [t])[..|texts|] == texts;
    assert (texts + [t])[|texts|] == t;
  }

  lemma GatherOneMore(prefix: seq<byte>, body: seq<byte>, n: nat)
    requires |prefix| <= Splitter.PREFIX_MAX
    requires 1 <= n <= Splitter.Needed(|body|, Splitter.MaxSlice(|prefix|))
    requires Sized(Splitter.Chunks(prefix, body, n - 1), |prefix| + 8)
    requires Sized(Splitter.Chunks(prefix, body, n), |prefix| + 8)
    requires var m := Splitter.MaxSlice(|prefix|);
             && Gather(Splitter.Chunks(prefix, body, n - 1), |prefix| + 8)
                == Splitter.Joined(body, m, n - 1)
                   + Splitter.Marker(n > 1 && Splitter.Truncated(body, m, n - 2))
    ensures var m := Splitter.MaxSlice(|prefix|);
            && Gather(Splitter.Chunks(prefix, body, n), |prefix| + 8)
               == Splitter.Joined(body, m, n) + Splitter.Marker(Splitter.Truncated(body, m, n - 1))
  {
    hide Splitter.Needed, Splitter.MaxSlice, Splitter.Chunk, Splitter.CutAt, Splitter.Pos,
         Splitter.Slice, Splitter.Text, Splitter.Truncated, Splitter.Marker, Sized, Gather;
    var m := Splitter.MaxSlice(|prefix|);
    var slice, cut := Splitter.Slice(body, m, n - 1), Splitter.Truncated(body, m, n - 1);
    assert Splitter.Marker(n > 1 && Splitter.Truncated(body, m, n - 2)) == [] by {
      if n > 1 {
        Splitter.EarlyChunkUnmarked(body, m, n - 2);
      }
    }
    Splitter.ChunkFits(prefix, body, n - 1);
    TextBehindCounter(prefix, n, Splitter.Needed(|body|, m), slice, cut);
    GatherSnoc(Splitter.Chunks(prefix, body, n - 1), Splitter.Chunk(prefix, body, n - 1), |prefix| + 8);
    AddAssoc(Splitter.Joined(body, m, n - 1), slice, Splitter.Marker(cut));
  }

  lemma AddAssoc(a: seq<byte>, b: seq<byte>, c: seq<byte>)
    ensures a + [] + (b + c) == (a + b) + c
  {
  }

  /**
   * A reader who joins the chunks sees the part of the body the splitter kept, marked with
   * " ..." exactly when four chunks lost something; with clean cuts that is the body itself.
   */
  lemma GatheredBody(prefix: seq<byte>, body: seq<byte>)
    requires |prefix| <= Splitter.PREFIX_MAX
    ensures var m := Splitter.MaxSlice(|prefix|);
            var n := Splitter.Needed(|body|, m);
            var chunks, kept := Splitter.Chunks(prefix, body, n), Splitter.Joined(body, m, n);
            && Sized(chunks, |prefix| + 8)
            && kept <= body
            && Gather(chunks, |prefix| + 8)
               == kept + (if n == 4 && |kept| < |body| then [0x20, 0x2E, 0x2E, 0x2E] else [])
            && (Splitter.CleanCuts(body, m) && |body| <= Splitter.MAX_CHUNKS * m ==>
                  Gather(chunks, |prefix| + 8) == body)
  {
    assert Splitter.Marker(true) == [0x20, 0x2E, 0x2E, 0x2E] && Splitter.Marker(false) == [];
    hide *;
    var m := Splitter.MaxSlice(|prefix|);
    var n := Splitter.Needed(|body|, m);
    GatherChunks(prefix, body, n);
    Splitter.Kept(body, m);
  }

  /** The payloads send_text frames, one text after the other. */
  function Outgoings(r: Route, ids: seq<uint32>, texts: seq<seq<byte>>): (ps: seq<seq<byte>>)
    requires |ids| == |texts|
    ensures |ps| == |texts|
    ensures forall i :: 0 <= i < |texts| ==> ps[i] == Outgoing(r, ids[i], texts[i])
    ensures forall i :: 0 <= i < |texts| ==> 1 <= |ps[i]| <= Framer.MAX_PAYLOAD
  {
    if texts == [] then []
    else
      OutgoingFitsFrame(r, ids[0], texts[0]);
      [Outgoing(r, ids[0], texts[0])] + Outgoings(r, ids[1..], texts[1..])
  }

  /** The bytes the bridge writes: the frames back to back. */
  function Written(payloads: seq<seq<byte>>): (r: seq<byte>)
    requires forall i :: 0 <= i < |payloads| ==> |payloads[i]| <= Framer.MAX_PAYLOAD
  {
    Framer.Stream(seq(|payloads| + 1, _ => []), payloads)
  }

  /** The radio, reading with the same automaton, finds exactly the payloads written. */
  lemma RadioReads(payloads: seq<seq<byte>>)
    requires forall i :: 0 <= i < |payloads| ==> 1 <= |payloads[i]| <= Framer.MAX_PAYLOAD
    ensures Framer.Run(Framer.WaitStart1, Written(payloads)).delivered == payloads
  {
    hide Framer.Run, Framer.Stream;
    Framer.StreamDelivered(seq(|payloads| + 1, _ => []), payloads);
  }

  /**
   * The chunks of a split message, written to the radio, come out of its reader as written; each is passed on as a packet
   * from the radio's number; and the stream of those packets, junk around them, gives back all chunks in order.
   */
  lemma LongMessageArrives(prefix: seq<byte>, body: seq<byte>, r: Route, ids: seq<uint32>,
                           junk: seq<seq<byte>>)
    requires |prefix| <= Splitter.PREFIX_MAX && r.node != 0
    requires |ids| == Splitter.Needed(|body|, Splitter.MaxSlice(|prefix|))
    requires |junk| == |ids| + 1 && forall i :: 0 <= i < |junk| ==> Framer.Junk(junk[i])
    ensures var chunks := Splitter.Chunks(prefix, body, |ids|);
            && Sized(chunks, |prefix| + 8)
            && var read := Framer.Run(Framer.WaitStart1, Written(Outgoings(r, ids, chunks))).delivered;
            && var passed := Packets(r, ids, chunks);
            && |read| == |passed| == |ids|
            && (forall i :: 0 <= i < |ids| ==> Radio(r.node, read[i]) == Some(passed[i]))
            && Texts(Framer.Run(Framer.WaitStart1, Framer.Stream(junk, passed)).delivered) == chunks
  {
    hide Splitter.Needed, Splitter.MaxSlice, Splitter.Chunk, Splitter.Chunks, Splitter.CutAt,
         Framer.Run, Framer.Stream, Framer.Junk, MeshProto.ParseText, Packets, Texts, Outgoings, Written, Radio;
    var chunks := Splitter.Chunks(prefix, body, |ids|);
    ChunksAreSized(prefix, body, |ids|);
    RadioReads(Outgoings(r, ids, chunks));
    forall i | 0 <= i < |ids|
      ensures Radio(r.node, Outgoings(r, ids, chunks)[i]) == Some(Packets(r, ids, chunks)[i])
    {
      RadioPassesOn(r, ids[i], chunks[i]);
    }
    TextsArrive(r, ids, chunks, junk);
  }
}
