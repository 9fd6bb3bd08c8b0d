/** `ServerWorker`: the loop that takes frames off the link and hands their data to sessions. */
module MuxServer {
  import opened Octets
  import opened Streams
  import opened Chunks
  import opened Addresses
  import opened Frames
  import opened MuxLink
  import opened Demux

  class ServerWorker {
    const parse: Parser
    /** Destinations the dispatcher refuses, and the one network allowed, if any. */
    const refuses: Destination -> bool
    const allowed: Option<Network>
    const reader: BufferedReader
    var open: set<uint16>
    var sinks: map<uint16, Sink>
    var replies: seq<uint16>

    constructor (parse: Parser, refuses: Destination -> bool, allowed: Option<Network>, link: BufferedReader)
      ensures this.parse == parse && this.refuses == refuses && this.allowed == allowed
      ensures reader == link && State() == EMPTY
    {
      this.parse := parse;
      this.refuses := refuses;
      this.allowed := allowed;
      reader := link;
      open, sinks, replies := {}, map[], [];
    }

    ghost function State(): Server
      reads this
    {
      Server(open, sinks, replies)
    }

    /** Frames that do not end the connection. */
    ghost predicate Accepts(f: Frame) {
      Wellformed(parse, f) && Received(f.meta, f.udp).globalID == NO_GLOBAL_ID
      && STATUS_NEW <= f.meta.status <= STATUS_KEEP_ALIVE
      && (f.meta.status == STATUS_NEW ==> Dispatchable(f.meta.target.value))
    }

    predicate Dispatchable(d: Destination) {
      !refuses(d) && (allowed.Some? ==> d.network == allowed.value)
    }

    method Discard(m: Meta, ghost data: Option<Bytes>, ghost rest: Bytes)
      requires reader.Valid() && (m.HasData() <==> data.Some?) && (data.Some? ==> |data.value| <= SIZE)
      requires reader.Rest() == EncodeData(data) + rest
      modifies reader
      ensures reader.Valid() && reader.Rest() == rest
    {
      if m.HasData() {
        Skip(reader, data.value, rest);
      } else {
        assert [] + rest == rest;
      }
    }

    /** Copy the data of a frame to its session.  Its output may fail at any write: then the session is
        closed, and what is left of the data is skipped. */
    method Feed(m: Meta, ghost data: Bytes, ghost rest: Bytes) returns (ghost taken: Option<nat>)
      requires State().Valid() && m.id in open && reader.Valid() && |data| <= SIZE
      requires reader.Rest() == PutU16(|data|) + data + rest
      modifies `open, `sinks, reader
      ensures State() == Deliver(taken, old(State()), m, data)
      ensures reader.Valid() && reader.Rest() == rest
    {
      taken := None;
      if sinks[m.id].StreamSink? {
        var got, failed := CopyStream(reader, data, rest);
        sinks := sinks[m.id := StreamSink(sinks[m.id].bytes + got)];
        if failed {
          open := open - {m.id};
          taken := Some(|got|);
          assert data[..Min(|got|, |data|)] == got;
        }
      } else {
        HeadOf(data, rest, reader.Rest());
        assert (data + rest)[..|data|] == data && (data + rest)[|data|..] == rest;
        ghost var before := reader.Rest();
        assert before[2..2 + |data|] == before[2..][..|data|] && before[2 + |data|..] == before[2..][|data|..];
        var r := ReadPacket(reader);
        var packet := r.value;
        assert sinks == sinks[m.id := sinks[m.id]];
        if packet != [] {
          var failed: bool := *;
          if failed {
            open := open - {m.id};
            taken := Some(0);
          } else {
            sinks := sinks[m.id := PacketSink(sinks[m.id].packets + [Packet(packet, PacketDest(m))])];
          }
        }
      }
    }

    method HandleNew(m: Meta, ghost data: Option<Bytes>, ghost rest: Bytes) returns (ok: bool, ghost taken: Option<nat>)
      requires State().Valid() && reader.Valid() && m.status == STATUS_NEW && m.target.Some?
      requires (m.HasData() <==> data.Some?) && (data.Some? ==> |data.value| <= SIZE)
      requires reader.Rest() == EncodeData(data) + rest
      modifies `open, `sinks, reader
      ensures reader.Valid() && ok == Dispatchable(m.target.value)
      ensures ok ==> State() == Handle(taken, old(State()), m, data) && reader.Rest() == rest
      ensures !ok ==> State() == old(State())
    {
      taken := None;
      if allowed.Some? && m.target.value.network != allowed.value {
        return false, None;
      }
      if refuses(m.target.value) {
        Discard(m, data, rest);
        return false, None;
      }
      open := open + {m.id};
      sinks := sinks[m.id := if m.target.value.network == UDP then PacketSink([]) else StreamSink([])];
      if m.HasData() {
        taken := Feed(m, data.value, rest);
      } else {
        assert [] + rest == rest;
      }
      ok := true;
    }

    method HandleKeep(m: Meta, ghost data: Option<Bytes>, ghost rest: Bytes) returns (ghost taken: Option<nat>)
      requires State().Valid() && reader.Valid() && m.status == STATUS_KEEP
      requires (m.HasData() <==> data.Some?) && (data.Some? ==> |data.value| <= SIZE)
      requires reader.Rest() == EncodeData(data) + rest
      modifies `open, `sinks, `replies, reader
      ensures reader.Valid() && reader.Rest() == rest
      ensures State() == Handle(taken, old(State()), m, data)
    {
      taken := None;
      if !m.HasData() {
        assert [] + rest == rest;
        return;
      }
      if m.id !in open {
        replies := replies + [m.id];
        Discard(m, data, rest);
        return;
      }
      taken := Feed(m, data.value, rest);
    }

    /** `handleFrame`: one frame off the link.  The reader is left exactly at the next frame. */
    method HandleFrame(ghost f: Frame, ghost rest: Bytes) returns (ok: bool, ghost taken: Option<nat>)
      requires State().Valid() && reader.Valid() && Wellformed(parse, f)
      requires Received(f.meta, f.udp).globalID == NO_GLOBAL_ID
      requires reader.Rest() == EncodeFrame(parse, f) + rest
      modifies this, reader
      ensures reader.Valid() && ok == Accepts(f)
      ensures ok ==> State() == Step(old(State()), Event(f, taken)) && reader.Rest() == rest
      ensures !ok ==> State() == old(State())
    {
      hide EncodeFrame, Decode, Handle, EncodeData, Sendable;
      taken := None;
      UnmarshalFrame(parse, f, rest, reader.Rest());
      ReceivedKeeps(f.meta, f.udp);
      if f.meta.status == STATUS_NEW {
        ReceivedTarget(parse, f);
      }
      var r := Unmarshal(parse, reader);
      var m := r.value;
      ghost var data := f.data;
      if m.status == STATUS_KEEP_ALIVE {
        Discard(m, data, rest);
        HandleRest(taken, old(State()), m, data);
        ok := true;
      } else if m.status == STATUS_END {
        open := open - {m.id};
        Discard(m, data, rest);
        HandleRest(taken, old(State()), m, data);
        ok := true;
      } else if m.status == STATUS_NEW {
        ok, taken := HandleNew(m, data, rest);
      } else if m.status == STATUS_KEEP {
        taken := HandleKeep(m, data, rest);
        ok := true;
      } else {
        ok := false;
      }
    }

    /** The frame loop: over any sequence of frames, with outputs that fail at any write, it does what the
        frames say, in order, and consumes exactly their bytes.  A frame that is not acceptable ends it. */
    method Serve(ghost fs: seq<Frame>, count: nat, ghost rest: Bytes) returns (ghost es: seq<Event>)
      requires State() == EMPTY && reader.Valid() && count == |fs|
      requires forall i :: 0 <= i < |fs| ==>
                 Wellformed(parse, fs[i]) && Received(fs[i].meta, fs[i].udp).globalID == NO_GLOBAL_ID
      requires reader.Rest() == EncodeFrames(parse, fs) + rest
      modifies this, reader
      ensures reader.Valid() && |es| <= |fs| && State() == Run(EMPTY, es)
      ensures forall i :: 0 <= i < |es| ==> es[i].frame == fs[i] && Accepts(fs[i])
      ensures if |es| < |fs| then !Accepts(fs[|es|]) else reader.Rest() == rest
    {
      hide Wellformed, EncodeFrame, EncodeFrames, Run, Step, Received, Accepts;
      es := [];
      assert fs[0..] == fs;
      NothingServed();
      var n := 0;
      while n < count
        invariant n == |es| <= |fs| && reader.Valid() && State() == Run(EMPTY, es)
        invariant reader.Rest() == EncodeFrames(parse, fs[n..]) + rest
        invariant forall i :: 0 <= i < n ==> es[i].frame == fs[i] && Accepts(fs[i])
      {
        NextFrame(parse, fs, n, rest);
        var ok, taken := HandleFrame(fs[n], EncodeFrames(parse, fs[n + 1..]) + rest);
        if !ok {
          return;
        }
        RunSnoc(EMPTY, es, Event(fs[n], taken));
        es, n := es + [Event(fs[n], taken)], n + 1;
      }
      AllFrames(parse, fs, rest);
    }
  }

  lemma NothingServed()
    ensures Run(EMPTY, []) == EMPTY
  {
  }

  lemma NextFrame(parse: Parser, fs: seq<Frame>, n: nat, rest: Bytes)
    requires n < |fs| && forall i :: 0 <= i < |fs| ==> Wellformed(parse, fs[i])
    ensures EncodeFrames(parse, fs[n..]) + rest == EncodeFrame(parse, fs[n]) + (EncodeFrames(parse, fs[n + 1..]) + rest)
  {
    hide Wellformed, EncodeFrame;
    assert fs[n..][0] == fs[n] && fs[n..][1..] == fs[n + 1..];
  }

  lemma AllFrames(parse: Parser, fs: seq<Frame>, rest: Bytes)
    requires forall i :: 0 <= i < |fs| ==> Wellformed(parse, fs[i])
    ensures EncodeFrames(parse, fs[|fs|..]) + rest == rest
  {
    hide Wellformed, EncodeFrame;
  }

  lemma ReceivedTarget(parse: Parser, f: Frame)
    requires Wellformed(parse, f) && f.meta.status == STATUS_NEW
    ensures f.meta.target.Some? && Received(f.meta, f.udp).target == f.meta.target
  {
  }

  lemma HandleRest(taken: Option<nat>, s: Server, m: Meta, data: Option<Bytes>)
    requires s.Valid()
    ensures m.status == STATUS_END ==> Handle(taken, s, m, data) == s.(open := s.open - {m.id})
    ensures m.status == STATUS_KEEP_ALIVE ==> Handle(taken, s, m, data) == s
  {
  }
}
