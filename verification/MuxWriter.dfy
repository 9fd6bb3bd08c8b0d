/** `mux.Writer`: turns the buffers of one session into frames. */
module MuxWriter {
  import Chunks
  import Streams
  import opened Octets
  import opened Buffers
  import opened Addresses
  import opened Frames
  import opened MuxLink
  import opened Demux

  /** A buffer with the packet destination it may carry. */
  datatype Buf = Buf(bytes: Bytes, udp: Option<Destination>)

  function Payloads(mb: seq<Buf>): (r: seq<Bytes>)
    ensures |r| == |mb| && forall i :: 0 <= i < |mb| ==> r[i] == mb[i].bytes
  {
    seq(|mb|, i requires 0 <= i < |mb| => mb[i].bytes)
  }

  function Content(mb: seq<Buf>): Bytes {
    Flatten(Payloads(mb))
  }

  predicate NoContent(mb: seq<Buf>) {
    forall i :: 0 <= i < |mb| ==> mb[i].bytes == []
  }

  lemma ContentConcat(a: seq<Buf>, b: seq<Buf>)
    ensures Content(a + b) == Content(a) + Content(b)
  {
    hide Flatten;
    assert Payloads(a + b) == Payloads(a) + Payloads(b);
    FlattenConcat(Payloads(a), Payloads(b));
  }

  lemma NoContentIff(mb: seq<Buf>)
    ensures NoContent(mb) <==> Content(mb) == []
  {
    hide Flatten, Payloads;
    EmptyIffNoBytes(Payloads(mb));
    assert NoContent(mb) <==> IsEmpty(Payloads(mb));
  }

  /** The packets the other end should see: the one that opens the session goes to the session's
      destination, later ones to their own; empty packets vanish, and so do those after the last one
      with content. */
  function Packets(dest: Destination, first: bool, mb: seq<Buf>): seq<Packet> {
    if NoContent(mb) then []
    else
      var b := mb[0];
      (if b.bytes == [] then [] else [Packet(b.bytes, if first then Some(dest) else Tag(b.udp))])
      + Packets(dest, false, mb[1..])
  }

  function Tag(udp: Option<Destination>): Option<Destination> {
    if udp.Some? then Some(udp.value.(network := UDP)) else None
  }

  predicate Regular(mb: seq<Buf>) {
    forall i :: 0 <= i < |mb| ==> |mb[i].bytes| <= SIZE
  }

  ghost predicate Tagged(parse: Parser, mb: seq<Buf>) {
    forall i :: 0 <= i < |mb| && mb[i].udp.Some? ==> Writable(mb[i].udp.value) && Canonical(parse, mb[i].udp.value.address)
  }

  class Writer {
    const parse: Parser
    const id: uint16
    const dest: Destination
    const packets: bool
    var followup: bool
    var hasError: bool
    /** The bytes handed to the link. */
    var sent: Bytes
    /** History: the frames sent, whether the last one closed the session, and what the frames alone
        give to a server. */
    ghost var log: seq<Frame>
    ghost var closed: bool
    ghost var sink: Sink

    ghost predicate Valid()
      reads this
    {
      Writable(dest) && Canonical(parse, dest.address) && (packets <==> dest.network == UDP)
      && LogOk(parse, id, log) && sent == EncodeFrames(parse, log)
      && Run(EMPTY, Calm(log)) == View(id, followup, closed, sink)
      && (if packets then sink.PacketSink? else sink.StreamSink?)
      && (!followup ==> sink == EmptySink(dest))
    }

    constructor (parse: Parser, id: uint16, dest: Destination)
      requires Writable(dest) && Canonical(parse, dest.address)
      ensures Valid() && this.parse == parse && this.id == id && this.dest == dest && !followup && !closed
      ensures packets == (dest.network == UDP) && !hasError
    {
      this.parse := parse;
      this.id := id;
      this.dest := dest;
      packets := dest.network == UDP;
      followup, hasError, sent := false, false, [];
      log, closed, sink := [], false, EmptySink(dest);
    }

    /** `getNextFrameMeta`: the first frame opens the session. */
    method NextMeta(option: byte) returns (m: Meta)
      modifies `followup
      ensures m == Meta(Some(dest), id, option, if old(followup) then STATUS_KEEP else STATUS_NEW, NO_GLOBAL_ID)
      ensures followup
    {
      m := Meta(Some(dest), id, option, STATUS_KEEP, NO_GLOBAL_ID);
      if !followup {
        followup := true;
        m := m.(status := STATUS_NEW);
      }
    }

    /** A frame goes out on the link. */
    method Emit(m: Meta, udp: Option<Destination>, data: Option<Bytes>)
      requires LogOk(parse, id, log) && sent == EncodeFrames(parse, log)
      requires Wellformed(parse, Frame(m, udp, data)) && Plain(id, Frame(m, udp, data))
      modifies `sent, `log
      ensures log == old(log) + [Frame(m, udp, data)]
      ensures LogOk(parse, id, log) && sent == EncodeFrames(parse, log)
      ensures Run(EMPTY, Calm(log)) == Step(Run(EMPTY, Calm(old(log))), Event(Frame(m, udp, data), None))
    {
      hide EncodeFrames, Step, Body;
      var frame := new Buffer();
      WriteTo(m, udp, frame);
      var wire := frame.v[frame.start..frame.end];
      if data.Some? {
        wire := wire + (PutU16(|data.value|) + data.value);
      } else {
        assert wire + [] == wire;
      }
      EncodeFramesSnoc(parse, log, Frame(m, udp, data));
      CalmSnoc(log, Frame(m, udp, data));
      RunSnoc(EMPTY, Calm(log), Event(Frame(m, udp, data), None));
      sent := sent + wire;
      log := log + [Frame(m, udp, data)];
    }

    /** `writeMetaOnly`. */
    method WriteMetaOnly()
      requires Valid() && !closed
      modifies `followup, `sent, `log
      ensures Valid() && followup
      ensures log == old(log) + [Frame(Meta(Some(dest), id, 0, if old(followup) then 2 else 1, NO_GLOBAL_ID), None, None)]
    {
      hide EncodeFrames, Run, Step, LogOk;
      ghost var before := followup;
      var m := NextMeta(0);
      WriterFrame(parse, id, dest, before, sink, m, None, None);
      Emit(m, None, None);
    }

    /** `writeData`: a frame with data; a single buffer lends its packet destination to the frame. */
    method WriteData(chunk: seq<Buf>)
      requires Valid() && !closed && |Content(chunk)| <= SIZE && Tagged(parse, chunk)
      modifies `followup, `sent, `log, `sink
      ensures Valid() && followup
      ensures log == old(log) + [Frame(Meta(Some(dest), id, 1, if old(followup) then 2 else 1, NO_GLOBAL_ID),
                                       if |chunk| == 1 then chunk[0].udp else None, Some(Content(chunk)))]
      ensures sink == old(sink).Add(Content(chunk), FrameDest(dest, !old(followup), chunk))
    {
      hide EncodeFrames, Run, Step, LogOk, Flatten, Payloads, Canonical;
      ghost var before := followup;
      var m := NextMeta(OPTION_DATA);
      var udp := if |chunk| == 1 then chunk[0].udp else None;
      var data := Chunks.Joined(Payloads(chunk));
      WriterFrame(parse, id, dest, before, sink, m, udp, Some(data));
      Emit(m, udp, Some(data));
      sink := sink.Add(data, FrameDest(dest, !before, chunk));
    }

    /** `WriteMultiBuffer`: the server end is given exactly the bytes of a stream, or exactly the
        packets of a packet session. */
    method WriteMultiBuffer(mb0: seq<Buf>)
      requires Valid() && !closed && Regular(mb0) && Tagged(parse, mb0)
      modifies `followup, `sent, `log, `sink
      ensures Valid() && followup && old(log) <= log
      ensures !packets ==> sink == StreamSink(old(sink).bytes + Content(mb0))
      ensures packets ==> sink == PacketSink(old(sink).packets + Packets(dest, !old(followup), mb0))
      ensures |log| > |old(log)| && (NoContent(mb0) ==> |log| == |old(log)| + 1 && log[|old(log)|].data == None)
    {
      hide EncodeFrames, Run, Step, LogOk, Content, Packets;
      NoContentIff(mb0);
      if NoContent(mb0) {
        NoPackets(dest, !followup, mb0);
        NothingMore(sink);
        WriteMetaOnly();
        return;
      }
      var mb := mb0;
      ghost var first := true;
      while !NoContent(mb)
        invariant Valid() && Regular(mb) && Tagged(parse, mb) && old(log) <= log
        invariant first ==> mb == mb0 && followup == old(followup) && sink == old(sink)
        invariant !first ==> followup && |log| > |old(log)|
        invariant !packets ==> sink.StreamSink? && sink.bytes + Content(mb) == old(sink).bytes + Content(mb0)
        invariant packets ==> sink.PacketSink?
        invariant packets ==>
                    sink.packets + Packets(dest, !followup, mb) == old(sink).packets + Packets(dest, !old(followup), mb0)
        decreases |mb|
      {
        first := false;
        var k := 1;
        if !packets {
          k := ChunkEnd(mb);
        }
        WriteStep(dest, !followup, mb, k, sink);
        var chunk := mb[..k];
        WriteData(chunk);
        mb := mb[k..];
      }
      NoContentIff(mb);
      NoPackets(dest, !followup, mb);
      NothingMore(sink);
    }

    /** `Close`: tell the other end. */
    method Close()
      requires Valid() && !closed
      modifies `sent, `log, `closed
      ensures Valid() && closed
      ensures log == old(log) + [Frame(Meta(None, id, if hasError then 2 else 0, 3, NO_GLOBAL_ID), None, None)]
    {
      hide EncodeFrames, Run, LogOk;
      var m := Meta(None, id, if hasError then OPTION_ERROR else 0, STATUS_END, NO_GLOBAL_ID);
      Emit(m, None, None);
      closed := true;
    }
  }

  /** Frames of session `id` that open no shared packet session. */
  ghost predicate Plain(id: uint16, f: Frame) {
    f.meta.id == id && Received(f.meta, f.udp).globalID == NO_GLOBAL_ID && STATUS_NEW <= f.meta.status <= STATUS_END
  }

  ghost predicate LogOk(parse: Parser, id: uint16, log: seq<Frame>) {
    forall i :: 0 <= i < |log| ==> Wellformed(parse, log[i]) && Plain(id, log[i])
  }

  function EmptySink(dest: Destination): Sink {
    if dest.network == UDP then PacketSink([]) else StreamSink([])
  }

  /** The server a writer's frames alone lead to. */
  function View(id: uint16, started: bool, closed: bool, sink: Sink): Server {
    Server(if started && !closed then {id} else {}, if started then map[id := sink] else map[], [])
  }

  /** The destination a frame gives to its packet. */
  function FrameDest(dest: Destination, first: bool, chunk: seq<Buf>): Option<Destination> {
    if first then (if dest.network == UDP then Some(dest) else None)
    else if |chunk| == 1 then Tag(chunk[0].udp) else None
  }

  /** A frame of the writer, and what it does at the other end. */
  lemma WriterFrame(parse: Parser, id: uint16, dest: Destination, before: bool, sink: Sink,
                    m: Meta, udp: Option<Destination>, data: Option<Bytes>)
    requires Writable(dest) && Canonical(parse, dest.address)
    requires udp.Some? ==> Writable(udp.value) && Canonical(parse, udp.value.address)
    requires data.Some? ==> |data.value| <= SIZE
    requires m == Meta(Some(dest), id, if data.Some? then OPTION_DATA else 0,
                       if before then STATUS_KEEP else STATUS_NEW, NO_GLOBAL_ID)
    requires !before ==> sink == EmptySink(dest)
    ensures Wellformed(parse, Frame(m, udp, data)) && Plain(id, Frame(m, udp, data))
    ensures var s := View(id, before, false, sink);
            s.Valid() && Step(s, Event(Frame(m, udp, data), None))
              == View(id, true, false,
                      if data.Some? then
                        sink.Add(data.value, if !before then (if dest.network == UDP then Some(dest) else None) else Tag(udp))
                      else sink)
  {
    hide Canonical, Writable;
    var s := View(id, before, false, sink);
    if before && data.Some? {
      assert map[id := sink][id := sink.Add(data.value, Tag(udp))] == map[id := sink.Add(data.value, Tag(udp))];
    }
  }

  lemma ContentOne(b: Buf)
    ensures Content([b]) == b.bytes
  {
    assert Payloads([b]) == [b.bytes];
    FlattenOne(b.bytes);
  }

  /** `SplitSize` on regular buffers: how many of them fit one chunk. */
  method ChunkEnd(mb: seq<Buf>) returns (k: nat)
    requires Regular(mb) && !NoContent(mb)
    ensures 0 < k <= |mb| && |Content(mb[..k])| <= SIZE
  {
    hide Flatten;
    k := Streams.WholeBuffers(Payloads(mb), SIZE);
    assert Payloads(mb)[..k] == Payloads(mb[..k]);
  }

  lemma NoPackets(dest: Destination, first: bool, mb: seq<Buf>)
    requires NoContent(mb)
    ensures Packets(dest, first, mb) == []
  {
  }

  lemma NothingMore(sink: Sink)
    ensures sink.StreamSink? ==> StreamSink(sink.bytes + []) == sink
    ensures sink.PacketSink? ==> PacketSink(sink.packets + []) == sink
  {
  }

  /** One chunk moves from what is to be written to what has arrived. */
  lemma WriteStep(dest: Destination, first: bool, mb: seq<Buf>, k: nat, sink: Sink)
    requires Regular(mb) && !NoContent(mb) && 0 < k <= |mb|
    ensures sink.StreamSink? ==>
              sink.Add(Content(mb[..k]), FrameDest(dest, first, mb[..k])).bytes + Content(mb[k..])
              == sink.bytes + Content(mb)
    ensures sink.PacketSink? && k == 1 && dest.network == UDP ==>
              |Content(mb[..1])| <= SIZE
              && sink.Add(Content(mb[..1]), FrameDest(dest, first, mb[..1])).packets + Packets(dest, false, mb[1..])
                 == sink.packets + Packets(dest, first, mb)
  {
    hide Content, Packets;
    assert mb == mb[..k] + mb[k..];
    ContentConcat(mb[..k], mb[k..]);
    if sink.StreamSink? {
      assert (sink.bytes + Content(mb[..k])) + Content(mb[k..]) == sink.bytes + Content(mb);
    } else if k == 1 && dest.network == UDP {
      PacketStep(dest, first, mb, sink.packets);
    }
  }

  lemma PacketStep(dest: Destination, first: bool, mb: seq<Buf>, ps: seq<Packet>)
    requires Regular(mb) && !NoContent(mb) && mb != [] && dest.network == UDP
    ensures |Content(mb[..1])| <= SIZE
    ensures PacketSink(ps).Add(Content(mb[..1]), FrameDest(dest, first, mb[..1])).packets + Packets(dest, false, mb[1..])
         == ps + Packets(dest, first, mb)
  {
    hide Content, Packets;
    assert mb[..1] == [mb[0]];
    ContentOne(mb[0]);
    var d := FrameDest(dest, first, mb[..1]);
    FirstPacket(dest, first, mb, d);
    var head := if mb[0].bytes == [] then [] else [Packet(mb[0].bytes, d)];
    assert PacketSink(ps).Add(mb[0].bytes, d).packets == ps + head;
    assert (ps + head) + Packets(dest, false, mb[1..]) == ps + (head + Packets(dest, false, mb[1..]));
  }

  lemma FirstPacket(dest: Destination, first: bool, mb: seq<Buf>, d: Option<Destination>)
    requires !NoContent(mb) && mb != [] && dest.network == UDP && d == FrameDest(dest, first, [mb[0]])
    ensures Packets(dest, first, mb)
         == (if mb[0].bytes == [] then [] else [Packet(mb[0].bytes, d)]) + Packets(dest, false, mb[1..])
  {
  }

  /** Both ends: whatever the other sessions do, a server that receives the frames of a writer, in
      order and interleaved with anything else, gives the session what was written, and keeps it
      open until the writer is closed. */
  lemma ServerGivesWhatWasWritten(es: seq<Event>, id: uint16, log: seq<Frame>, closed: bool, sink: Sink)
    requires Only(es, id) == Calm(log) && Run(EMPTY, Calm(log)) == View(id, true, closed, sink)
    ensures var s := Run(EMPTY, es);
            id in s.sinks && s.sinks[id] == sink && (id in s.open <==> !closed)
  {
    hide Run, Only, Calm;
    EachSessionGetsItsOwn(es, id, log);
  }
}
