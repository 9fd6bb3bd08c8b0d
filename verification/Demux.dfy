/** Demultiplexing as a function of the frames received.

    `Handle` is what one frame does to the sessions of a server.  `NonInterference` says that what a
    session receives depends only on the frames with its own id, whatever the interleaving. */
module Demux {
  import opened Octets
  import opened Frames
  import opened MuxLink

  datatype Packet = Packet(bytes: Bytes, dest: Option<Destination>)

  /** Everything the output of a session has been given. */
  datatype Sink = StreamSink(bytes: Bytes) | PacketSink(packets: seq<Packet>) {
    function Add(data: Bytes, dest: Option<Destination>): Sink {
      match this
      case StreamSink(b) => StreamSink(b + data)
      case PacketSink(ps) => PacketSink(if data == [] then ps else ps + [Packet(data, dest)])
    }

    /** What an output has that fails after taking some bytes of a stream, or instead of taking a packet. */
    function AddPart(data: Bytes, taken: nat): Sink {
      match this
      case StreamSink(b) => StreamSink(b + data[..Min(taken, |data|)])
      case PacketSink(_) => this
    }
  }

  /** The sessions that are open, what every session ever opened was given, and the ids for which the
      peer was told to stop. */
  datatype Server = Server(open: set<uint16>, sinks: map<uint16, Sink>, replies: seq<uint16>) {
    ghost predicate Valid() {
      open <= sinks.Keys
    }
  }

  const EMPTY := Server({}, map[], [])

  /** The destination attached to a packet: that of the frame, if it is a packet one. */
  function PacketDest(m: Meta): Option<Destination> {
    if m.target.Some? && m.target.value.network == UDP then m.target else None
  }

  function NewSink(m: Meta): Sink {
    if m.target.Some? && m.target.value.network == UDP then PacketSink([]) else StreamSink([])
  }

  /** Data for an open session.  Its output takes the data, or it fails with a part of them taken and the
      session is closed; where there is nothing to write nothing fails. */
  function Deliver(taken: Option<nat>, s: Server, m: Meta, data: Bytes): (r: Server)
    requires s.Valid() && m.id in s.open
    ensures r.Valid()
  {
    if taken.None? || data == [] then s.(sinks := s.sinks[m.id := s.sinks[m.id].Add(data, PacketDest(m))])
    else s.(open := s.open - {m.id}, sinks := s.sinks[m.id := s.sinks[m.id].AddPart(data, taken.value)])
  }

  /** One frame, with its metadata as received. */
  function Handle(taken: Option<nat>, s: Server, m: Meta, data: Option<Bytes>): (r: Server)
    requires s.Valid()
    ensures r.Valid()
  {
    if m.status == STATUS_NEW then
      var t := s.(open := s.open + {m.id}, sinks := s.sinks[m.id := NewSink(m)]);
      if data.Some? then Deliver(taken, t, m, data.value) else t
    else if m.status == STATUS_KEEP && data.Some? then
      if m.id in s.open then Deliver(taken, s, m, data.value) else s.(replies := s.replies + [m.id])
    else if m.status == STATUS_END then s.(open := s.open - {m.id})
    else s
  }

  /** A frame that arrives; if the output of its session fails at that moment, the bytes it takes first. */
  datatype Event = Event(frame: Frame, taken: Option<nat>)

  function Step(s: Server, e: Event): (r: Server)
    requires s.Valid()
    ensures r.Valid()
  {
    Handle(e.taken, s, Received(e.frame.meta, e.frame.udp), e.frame.data)
  }

  /** A whole run. */
  function Run(s: Server, es: seq<Event>): (r: Server)
    requires s.Valid()
    ensures r.Valid()
    decreases |es|
  {
    if es == [] then s else Step(Run(s, es[..|es| - 1]), es[|es| - 1])
  }

  lemma RunSnoc(s: Server, es: seq<Event>, e: Event)
    requires s.Valid()
    ensures Run(s, es + [e]) == Step(Run(s, es), e)
  {
  }

  /** What the peer is told, and what each kind of frame does to the table: data for a session that is not
      open are answered with its id, and nothing else is. */
  lemma FrameEffects(s: Server, e: Event)
    requires s.Valid()
    ensures var f, t := e.frame, Step(s, e);
            (t.replies == if f.meta.status == 2 && f.data.Some? && f.meta.id !in s.open then s.replies + [f.meta.id]
                          else s.replies)
            && (f.meta.status == 1 && (f.data.None? || f.data.value == [] || e.taken.None?) ==> f.meta.id in t.open)
            && (f.meta.status == 1 && f.data.None? ==> t.sinks == s.sinks[f.meta.id := NewSink(Received(f.meta, f.udp))])
            && (f.meta.status == 3 ==> t.open == s.open - {f.meta.id} && t.sinks == s.sinks)
            && (f.meta.status !in {1, 2, 3} ==> t == s)
            && (f.meta.status == 2 && (f.data.None? || f.meta.id !in s.open) ==> t.open == s.open && t.sinks == s.sinks)
  {
    ReceivedKeeps(e.frame.meta, e.frame.udp);
  }

  /** Of a session that is never opened, every frame with data is answered. */
  lemma {:induction false} UnknownIsAnswered(s: Server, es: seq<Event>, id: uint16)
    requires s.Valid() && id !in s.open
    requires forall i :: 0 <= i < |es| && es[i].frame.meta.id == id ==> es[i].frame.meta.status != 1
    ensures id !in Run(s, es).open
    ensures multiset(Run(s, es).replies)[id] == multiset(s.replies)[id] + DataFrames(es, id)
    decreases |es|
  {
    if es != [] {
      var front, e := es[..|es| - 1], es[|es| - 1];
      UnknownIsAnswered(s, front, id);
      FrameEffects(Run(s, front), e);
      StepOther(Run(s, front), e, if e.frame.meta.id == id then (id + 1) % 0x1_0000 else id);
      ReceivedKeeps(e.frame.meta, e.frame.udp);
    }
  }

  /** The frames of a session that is kept, with data. */
  function DataFrames(es: seq<Event>, id: uint16): nat {
    if es == [] then 0
    else
      var f := es[|es| - 1].frame;
      DataFrames(es[..|es| - 1], id) + if f.meta.id == id && f.meta.status == 2 && f.data.Some? then 1 else 0
  }

  /** Frames whose session takes everything. */
  function Calm(fs: seq<Frame>): (es: seq<Event>)
    ensures |es| == |fs| && forall i :: 0 <= i < |fs| ==> es[i] == Event(fs[i], None)
  {
    seq(|fs|, i requires 0 <= i < |fs| => Event(fs[i], None))
  }

  lemma CalmSnoc(fs: seq<Frame>, f: Frame)
    ensures Calm(fs + [f]) == Calm(fs) + [Event(f, None)]
  {
  }

  /** The events of one session. */
  function Only(es: seq<Event>, id: uint16): seq<Event> {
    if es == [] then []
    else Only(es[..|es| - 1], id) + if es[|es| - 1].frame.meta.id == id then [es[|es| - 1]] else []
  }

  /** What there is to see of one session. */
  ghost predicate SameView(s: Server, t: Server, id: uint16) {
    (id in s.open <==> id in t.open) && (id in s.sinks <==> id in t.sinks)
    && (id in s.sinks ==> s.sinks[id] == t.sinks[id])
  }

  lemma ReceivedKeeps(m: Meta, udp: Option<Destination>)
    ensures Received(m, udp).id == m.id && Received(m, udp).status == m.status && Received(m, udp).option == m.option
  {
  }

  /** A frame leaves the other sessions as they are. */
  lemma StepOther(s: Server, e: Event, id: uint16)
    requires s.Valid() && e.frame.meta.id != id
    ensures SameView(Step(s, e), s, id)
  {
  }

  /** What a frame does to its own session depends on that session only. */
  lemma StepOwn(s: Server, t: Server, e: Event, id: uint16)
    requires s.Valid() && t.Valid() && SameView(s, t, id) && e.frame.meta.id == id
    ensures SameView(Step(s, e), Step(t, e), id)
  {
  }

  /** Whatever the interleaving, a session sees what it would see alone. */
  lemma {:induction false} NonInterference(s: Server, es: seq<Event>, id: uint16)
    requires s.Valid()
    ensures SameView(Run(s, es), Run(s, Only(es, id)), id)
    decreases |es|
  {
    hide Step;
    if es != [] {
      var front, e := es[..|es| - 1], es[|es| - 1];
      NonInterference(s, front, id);
      if e.frame.meta.id == id {
        RunSnoc(s, Only(front, id), e);
        StepOwn(Run(s, front), Run(s, Only(front, id)), e, id);
      } else {
        StepOther(Run(s, front), e, id);
        assert Only(front, id) + [] == Only(front, id);
      }
    }
  }

  /** Two runs in which a session has the same events give it the same data, whatever the other
      sessions do and wherever their outputs start to fail. */
  lemma OthersFailing(s: Server, es: seq<Event>, es': seq<Event>, id: uint16)
    requires s.Valid() && Only(es, id) == Only(es', id)
    ensures SameView(Run(s, es), Run(s, es'), id)
  {
    hide Run, Only;
    NonInterference(s, es, id);
    NonInterference(s, es', id);
  }

  /** Demultiplexing: if the frames of a session are those its writer has sent, and its output takes
      them, then in any interleaving with other sessions, failing ones included, the session is given
      what the writer's frames alone amount to. */
  lemma EachSessionGetsItsOwn(es: seq<Event>, id: uint16, log: seq<Frame>)
    requires Only(es, id) == Calm(log)
    ensures SameView(Run(EMPTY, es), Run(EMPTY, Calm(log)), id)
  {
    hide Run, Only, Calm;
    NonInterference(EMPTY, es, id);
  }

  /** A session that was closed keeps what it was given, until its id is opened anew. */
  lemma {:induction false} ClosedKeeps(s: Server, es: seq<Event>, id: uint16)
    requires s.Valid() && id in s.sinks && id !in s.open
    requires forall i :: 0 <= i < |es| && es[i].frame.meta.id == id ==> es[i].frame.meta.status != STATUS_NEW
    ensures id !in Run(s, es).open && id in Run(s, es).sinks && Run(s, es).sinks[id] == s.sinks[id]
    decreases |es|
  {
    if es != [] {
      var front, e := es[..|es| - 1], es[|es| - 1];
      ClosedKeeps(s, front, id);
      ReceivedKeeps(e.frame.meta, e.frame.udp);
    }
  }

  lemma {:induction false} RunConcat(s: Server, a: seq<Event>, b: seq<Event>)
    requires s.Valid()
    ensures Run(s, a + b) == Run(Run(s, a), b)
    decreases |b|
  {
    hide Step;
    if b == [] {
      assert a + b == a;
    } else {
      var front := b[..|b| - 1];
      assert (a + b)[..|a + b| - 1] == a + front;
      RunConcat(s, a, front);
    }
  }

  /** The sink of a session just before the data of a frame: new with the first frame. */
  ghost function SinkBefore(s: Server, f: Frame): Sink
    requires f.meta.status == STATUS_NEW || f.meta.id in s.sinks
  {
    if f.meta.status == STATUS_NEW then NewSink(Received(f.meta, f.udp)) else s.sinks[f.meta.id]
  }

  /** An output that starts to fail: the session ends up closed, with what the frames before gave it and,
      for a stream, the part of the failing frame that was taken. */
  lemma FailingGetsPrefix(es: seq<Event>, id: uint16, log: seq<Frame>, f: Frame, taken: nat, later: seq<Event>)
    requires Only(es, id) == Calm(log) + [Event(f, Some(taken))] + later
    requires f.meta.id == id && f.data.Some? && f.data.value != []
    requires f.meta.status == STATUS_NEW || (f.meta.status == STATUS_KEEP && id in Run(EMPTY, Calm(log)).open)
    requires forall i :: 0 <= i < |later| ==> later[i].frame.meta.status != STATUS_NEW
    ensures var s := Run(EMPTY, es);
            id !in s.open && id in s.sinks
            && s.sinks[id] == SinkBefore(Run(EMPTY, Calm(log)), f).AddPart(f.data.value, taken)
  {
    hide Run, Only, Calm, Step;
    NonInterference(EMPTY, es, id);
    var t, e := Run(EMPTY, Calm(log)), Event(f, Some(taken));
    RunConcat(EMPTY, Calm(log) + [e], later);
    RunSnoc(EMPTY, Calm(log), e);
    FailingStep(t, f, taken);
    ClosedKeeps(Step(t, e), later, id);
  }

  lemma FailingStep(s: Server, f: Frame, taken: nat)
    requires s.Valid() && f.data.Some? && f.data.value != []
    requires f.meta.status == STATUS_NEW || (f.meta.status == STATUS_KEEP && f.meta.id in s.open)
    ensures var t := Step(s, Event(f, Some(taken)));
            f.meta.id !in t.open && f.meta.id in t.sinks
            && t.sinks[f.meta.id] == SinkBefore(s, f).AddPart(f.data.value, taken)
  {
    ReceivedKeeps(f.meta, f.udp);
  }
}
