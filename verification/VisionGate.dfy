/** The gate in front of the unpadding reader.

    After every batch of buffers `VisionReader` decides from the content, padding and command fields
    whether the padded stream is over; it does not look at how much of a header is still missing.
    `GateTransparent` gives the exact condition under which the gate changes nothing. */
module VisionGate {
  import opened Octets
  import opened VisionCodec

  datatype Gate = Gate(reader: Reader, within: bool)

  /** The decision taken at the end of a batch. */
  function Decide(s: Reader, within: bool): bool {
    if s.content > 0 || s.padding > 0 || s.current == 0 then true
    else if s.current == END || s.current == DIRECT then false
    else within
  }

  /** The command byte of a terminating block has been read, and neither length announces anything yet. */
  predicate MidTerminator(s: Reader) {
    0 < s.cmd < 5 && s.content <= 0 && s.padding <= 0 && (s.current == END || s.current == DIRECT)
  }

  /** What makes the reader switch to direct copy at the end of a batch. */
  predicate DirectSeen(s: Reader) {
    s.content <= 0 && s.padding <= 0 && s.current == DIRECT
  }

  datatype Outcome = Outcome(gate: Gate, out: Bytes)

  /** One batch.  `filtering` says that packets are still being inspected, which keeps the gate open. */
  function ReadBatch(uuid: Bytes, g: Gate, filtering: bool, bufs: seq<Bytes>): (r: Outcome)
    requires g.reader.Reachable()
    ensures r.gate.reader.Reachable()
  {
    if IsEmpty(bufs) then Outcome(g, [])
    else if g.within || filtering then
      var r := FeedAll(uuid, g.reader, bufs);
      Outcome(Gate(r.state, Decide(r.state, g.within)), r.out)
    else Outcome(g, Flatten(bufs))
  }

  datatype Batch = Batch(bufs: seq<Bytes>, filtering: bool)

  function ReadAll(uuid: Bytes, g: Gate, batches: seq<Batch>): Bytes
    requires g.reader.Reachable()
    decreases |batches|
  {
    if batches == [] then []
    else
      var r := ReadBatch(uuid, g, batches[0].filtering, batches[0].bufs);
      r.out + ReadAll(uuid, r.gate, batches[1..])
  }

  /** The gate behind a list of batches. */
  function GateAfter(uuid: Bytes, g: Gate, batches: seq<Batch>): (r: Gate)
    requires g.reader.Reachable()
    ensures r.reader.Reachable()
    decreases |batches|
  {
    if batches == [] then g
    else GateAfter(uuid, ReadBatch(uuid, g, batches[0].filtering, batches[0].bufs).gate, batches[1..])
  }

  /** Some batch of the run was unpadded and made the reader switch to direct copy. */
  predicate DirectRun(uuid: Bytes, g: Gate, batches: seq<Batch>)
    requires g.reader.Reachable()
    decreases |batches|
  {
    batches != [] &&
    var b := batches[0];
    var r := ReadBatch(uuid, g, b.filtering, b.bufs);
    (!IsEmpty(b.bufs) && (g.within || b.filtering) && DirectSeen(r.gate.reader)) || DirectRun(uuid, r.gate, batches[1..])
  }

  lemma {:induction false} DirectRunSnoc(uuid: Bytes, g: Gate, batches: seq<Batch>, b: Batch)
    requires g.reader.Reachable()
    ensures var h := GateAfter(uuid, g, batches);
            var r := ReadBatch(uuid, h, b.filtering, b.bufs);
            DirectRun(uuid, g, batches + [b]) <==>
            DirectRun(uuid, g, batches) || (!IsEmpty(b.bufs) && (h.within || b.filtering) && DirectSeen(r.gate.reader))
    decreases |batches|
  {
    hide ReadBatch, DirectSeen;
    var all := batches + [b];
    if batches == [] {
      assert all == [b] && all[1..] == [];
    } else {
      assert all[0] == batches[0] && all[1..] == batches[1..] + [b];
      DirectRunSnoc(uuid, ReadBatch(uuid, g, batches[0].filtering, batches[0].bufs).gate, batches[1..], b);
    }
  }

  lemma {:induction false} ReadAllSnoc(uuid: Bytes, g: Gate, batches: seq<Batch>, b: Batch)
    requires g.reader.Reachable()
    ensures var r := ReadBatch(uuid, GateAfter(uuid, g, batches), b.filtering, b.bufs);
            ReadAll(uuid, g, batches + [b]) == ReadAll(uuid, g, batches) + r.out
            && GateAfter(uuid, g, batches + [b]) == r.gate
    decreases |batches|
  {
    hide ReadBatch;
    var all := batches + [b];
    if batches == [] {
      assert all == [b] && all[1..] == [];
    } else {
      assert all[0] == batches[0] && all[1..] == batches[1..] + [b];
      ReadAllSnoc(uuid, ReadBatch(uuid, g, batches[0].filtering, batches[0].bufs).gate, batches[1..], b);
    }
  }

  function AllBufs(batches: seq<Batch>): seq<Bytes> {
    if batches == [] then [] else batches[0].bufs + AllBufs(batches[1..])
  }

  /** Inspection, once over, stays over. */
  predicate FilteringEnds(batches: seq<Batch>) {
    forall i, j :: 0 <= i < j < |batches| && batches[j].filtering ==> batches[i].filtering
  }

  /** No batch with data arrives at a closed gate while the reader is still inside the stream. */
  predicate GateSafe(uuid: Bytes, g: Gate, batches: seq<Batch>)
    requires g.reader.Reachable()
    decreases |batches|
  {
    batches == [] ||
    (!(!IsEmpty(batches[0].bufs) && !g.within && !batches[0].filtering && !g.reader.Idle()) &&
     GateSafe(uuid, ReadBatch(uuid, g, batches[0].filtering, batches[0].bufs).gate, batches[1..]))
  }

  /** No buffer opens a second padded stream after a terminating block. */
  predicate NoReopen(uuid: Bytes, s: Reader, bufs: seq<Bytes>)
    requires s.Reachable()
    decreases |bufs|
  {
    bufs == [] ||
    (!(s.Idle() && s.current != 0 && Opens(uuid, bufs[0])) && NoReopen(uuid, Feed(uuid, s, bufs[0]).state, bufs[1..]))
  }

  /** A reader waiting for a whole header has no command pending; true along every run without reopening. */
  predicate Steady(s: Reader) {
    s.Reachable() && (s.cmd == 5 ==> s.current == 0)
  }

  ghost predicate GateInv(g: Gate) {
    Steady(g.reader) && (g.within || (g.reader.Idle() && g.reader.current != 0) || MidTerminator(g.reader))
  }

  /** The gate closes too early exactly in the middle of a terminator's header. */
  lemma ClosesEarlyExactlyMidTerminator(s: Reader)
    requires Steady(s)
    ensures !Decide(s, true) && !s.Idle() <==> MidTerminator(s)
  {
  }

  /** Direct copy goes on behind a Direct block, and already inside its header. */
  lemma DirectSeenExactly(s: Reader)
    requires Steady(s)
    ensures DirectSeen(s) <==> s.current == DIRECT && (s.Idle() || MidTerminator(s))
  {
  }

  // ----- facts about runs

  lemma {:induction false} RunSteady(s: Reader, data: Bytes)
    requires Steady(s)
    ensures Steady(Run(s, data).state)
    ensures s.Busy() && s.cmd < 5 && s.current != 0 ==>
              Run(s, data).state.current == s.current && (Run(s, data).state.Idle() || Run(s, data).state.cmd < 5)
    ensures s.Busy() && s.cmd > 0 && data != [] ==> |Run(s, data).out| < |data|
    decreases |data|
  {
    if s.Busy() && data != [] {
      if s.cmd > 0 {
        HeaderKeepsBusy(s, data[0]);
      }
      RunSteady(Step(s, data[0]).state, data[1..]);
    }
  }

  lemma {:induction false} FeedAllSteady(uuid: Bytes, s: Reader, bufs: seq<Bytes>)
    requires Steady(s) && NoReopen(uuid, s, bufs)
    ensures var r := FeedAll(uuid, s, bufs);
            Steady(r.state)
            && (s.Idle() && s.current != 0 ==> r == Result(s, Flatten(bufs)))
            && (s.Busy() && 0 < s.cmd < 5 && s.current != 0 ==>
                  r.state.current == s.current && (r.state.Idle() || r.state.cmd < 5))
    decreases |bufs|
  {
    if bufs != [] {
      var first := Feed(uuid, s, bufs[0]);
      if s.Idle() && Opens(uuid, bufs[0]) {
        RunSteady(s.(cmd := 5), bufs[0][16..]);
      } else {
        RunSteady(s, bufs[0]);
      }
      FeedAllSteady(uuid, first.state, bufs[1..]);
      if s.Busy() && 0 < s.cmd < 5 && s.current != 0 && !first.state.Idle() && first.state.cmd == 0 {
        FeedAllInBlock(uuid, first.state, bufs[1..]);
      }
    }
  }

  /** Inside the body of a terminating block the command stays until the block ends. */
  lemma {:induction false} FeedAllInBlock(uuid: Bytes, s: Reader, bufs: seq<Bytes>)
    requires Steady(s) && s.Busy() && s.cmd < 5 && s.current != 0 && NoReopen(uuid, s, bufs)
    ensures var t := FeedAll(uuid, s, bufs).state; t.current == s.current && (t.Idle() || t.cmd < 5)
    decreases |bufs|
  {
    if bufs != [] {
      RunSteady(s, bufs[0]);
      var first := Feed(uuid, s, bufs[0]);
      if first.state.Idle() {
        FeedAllSteady(uuid, first.state, bufs[1..]);
      } else {
        FeedAllInBlock(uuid, first.state, bufs[1..]);
      }
    }
  }

  lemma {:induction false} HeaderBytesAreLost(uuid: Bytes, s: Reader, bufs: seq<Bytes>)
    requires Steady(s) && s.Busy() && s.cmd > 0 && Flatten(bufs) != []
    ensures |FeedAll(uuid, s, bufs).out| < |Flatten(bufs)|
    decreases |bufs|
  {
    RunSteady(s, bufs[0]);
    if bufs[0] == [] {
      HeaderBytesAreLost(uuid, s, bufs[1..]);
    }
  }

  lemma {:induction false} FeedAllConcat(uuid: Bytes, s: Reader, a: seq<Bytes>, b: seq<Bytes>)
    requires s.Reachable()
    ensures var r := FeedAll(uuid, s, a);
            FeedAll(uuid, s, a + b) == FeedAll(uuid, r.state, b).After(r.out)
            && (NoReopen(uuid, s, a + b) <==> NoReopen(uuid, s, a) && NoReopen(uuid, r.state, b))
    decreases |a|
  {
    if a == [] {
      assert a + b == b;
    } else {
      assert (a + b)[0] == a[0] && (a + b)[1..] == a[1..] + b;
      var first := Feed(uuid, s, a[0]);
      FeedAllConcat(uuid, first.state, a[1..], b);
      var rest := FeedAll(uuid, first.state, a[1..]);
      FeedAll(uuid, rest.state, b).AfterAfter(first.out, rest.out);
    }
  }

  lemma {:induction false} FeedNothing(uuid: Bytes, s: Reader, bufs: seq<Bytes>)
    requires s.Reachable() && IsEmpty(bufs)
    ensures FeedAll(uuid, s, bufs) == Result(s, [])
    decreases |bufs|
  {
    if bufs != [] {
      FeedNothing(uuid, s, bufs[1..]);
    }
  }

  // ----- the gate

  lemma GateStep(uuid: Bytes, g: Gate, filtering: bool, bufs: seq<Bytes>)
    requires GateInv(g) && NoReopen(uuid, g.reader, bufs)
    requires IsEmpty(bufs) || g.within || filtering || g.reader.Idle()
    ensures var r := ReadBatch(uuid, g, filtering, bufs);
            GateInv(r.gate) && FeedAll(uuid, g.reader, bufs) == Result(r.gate.reader, r.out)
  {
    if IsEmpty(bufs) {
      FeedNothing(uuid, g.reader, bufs);
    } else {
      FeedAllSteady(uuid, g.reader, bufs);
    }
  }

  /** At a gate that is closed for good, everything passes unchanged. */
  lemma {:induction false} ClosedForGood(uuid: Bytes, g: Gate, batches: seq<Batch>)
    requires g.reader.Reachable() && !g.within
    requires forall i :: 0 <= i < |batches| ==> !batches[i].filtering
    ensures ReadAll(uuid, g, batches) == Flatten(AllBufs(batches))
    decreases |batches|
  {
    if batches != [] {
      EmptyIffNoBytes(batches[0].bufs);
      ClosedForGood(uuid, g, batches[1..]);
      FlattenConcat(batches[0].bufs, AllBufs(batches[1..]));
    }
  }

  /** The gated reader delivers what the ungated one does if and only if no data reaches a closed
      gate mid-stream. */
  lemma {:induction false} GateTransparent(uuid: Bytes, g: Gate, batches: seq<Batch>)
    requires GateInv(g) && FilteringEnds(batches) && NoReopen(uuid, g.reader, AllBufs(batches))
    ensures GateSafe(uuid, g, batches)
       <==> ReadAll(uuid, g, batches) == FeedAll(uuid, g.reader, AllBufs(batches)).out
    decreases |batches|
  {
    if batches != [] {
      var bufs, rest := batches[0].bufs, batches[1..];
      FeedAllConcat(uuid, g.reader, bufs, AllBufs(rest));
      if !IsEmpty(bufs) && !g.within && !batches[0].filtering && !g.reader.Idle() {
        ClosedForGood(uuid, g, batches);
        FlattenConcat(bufs, AllBufs(rest));
        EmptyIffNoBytes(bufs);
        HeaderBytesAreLost(uuid, g.reader, AllBufs(batches));
      } else {
        GateStep(uuid, g, batches[0].filtering, bufs);
        var r := ReadBatch(uuid, g, batches[0].filtering, bufs);
        GateTransparent(uuid, r.gate, rest);
        SamePrefix(r.out, ReadAll(uuid, r.gate, rest), FeedAll(uuid, r.gate.reader, AllBufs(rest)).out);
      }
    }
  }

  lemma SamePrefix(a: Bytes, b: Bytes, c: Bytes)
    ensures a + b == a + c <==> b == c
  {
    assert (a + b)[|a|..] == b && (a + c)[|a|..] == c;
  }

  /** The condition matters: a batch that ends after the terminator's command byte makes the reader
      hand the rest of the header to the application. */
  lemma HeaderLeaks(uuid: Bytes)
    requires |uuid| == 16
    ensures var first := uuid + [0, 0, 0, 0, 0, END];
            var batches := [Batch([first], false), Batch([[0, 1, 0, 0, 65]], false)];
            ReadAll(uuid, Gate(INITIAL, true), batches) == [0, 1, 0, 0, 65]
            && FeedAll(uuid, INITIAL, [first, [0, 1, 0, 0, 65]]).out == [65]
  {
    hide Run;
    var first: Bytes := uuid + [0, 0, 0, 0, 0, END];
    var second: Bytes := [0, 1, 0, 0, 65];
    var m := Reader(4, 0, 0, 1);
    CutHeader();
    assert first[..16] == uuid && first[16..] == [0, 0, 0, 0, 0, END];
    assert FeedAll(uuid, INITIAL, [first]) == Result(m, []) by {
      assert [first][1..] == [];
    }
    assert FeedAll(uuid, m, [second]).out == [65] by {
      assert [second][1..] == [];
    }
    assert [first, second][1..] == [second];
    GateLeaks(uuid, first, second, m);
  }

  lemma CutHeader()
    ensures Run(INITIAL.(cmd := 5), [0, 0, 0, 0, 0, END]) == Result(Reader(4, 0, 0, 1), [])
    ensures Run(Reader(4, 0, 0, 1), [0, 1, 0, 0, 65]) == Result(Reader(-1, -1, -1, 1), [65])
  {
    hide Run;
    var second: Bytes := [0, 1, 0, 0, 65];
    var empty, last := Block(CONTINUE, [], []), Block(END, [65], []);
    var m, next := Reader(4, 0, 0, 1), AfterBlock(CONTINUE);
    RunBlock(INITIAL.(cmd := 5), empty, [END]);
    assert empty.Encode() + [END] == [0, 0, 0, 0, 0, END];
    RunQuiet(next, [END], m);
    RunQuiet(next, [END] + second, m);
    assert [END][1..] == [] && ([END] + second)[1..] == second;
    RunNothing(m);
    RunBlock(next, last, []);
    assert last.Encode() + [] == [END] + second;
    RunNothing(AfterBlock(END));
  }

  lemma GateLeaks(uuid: Bytes, first: Bytes, second: Bytes, m: Reader)
    requires MidTerminator(m) && m.Reachable() && first != [] && second != []
    requires FeedAll(uuid, INITIAL, [first]) == Result(m, [])
    ensures ReadAll(uuid, Gate(INITIAL, true), [Batch([first], false), Batch([second], false)]) == second
  {
    hide FeedAll;
    assert [first][0] != [] && [second][0] != [];
    var b0, b1 := Batch([first], false), Batch([second], false);
    assert ReadBatch(uuid, Gate(INITIAL, true), false, [first]) == Outcome(Gate(m, false), []);
    FlattenOne(second);
    assert ReadBatch(uuid, Gate(m, false), false, [second]) == Outcome(Gate(m, false), second);
    assert [b0, b1][1..] == [b1] && [b1][1..] == [];
    assert ReadAll(uuid, Gate(m, false), [b1]) == second;
  }
}
