/** Where in a padded stream the reader stands, told by offsets alone.

    The conditions under which the unpadding reader and the gate in front of it are faithful depend on
    the state of the reader.  For the streams a writer sends they depend only on how far from the end
    of the terminating block the buffers and the batches are cut. */
module VisionOffsets {
  import opened Octets
  import opened VisionCodec
  import opened VisionGate

  // ----- inside one block

  /** The state after `k` bytes of a block, when the header began in state `s`. */
  function InBlock(s: Reader, b: Block, k: nat): Reader
    requires b.Fits()
  {
    var c, p := PutU16(|b.content|), PutU16(|b.padding|);
    match k
    case 0 => s
    case 1 => s.(cmd := 4, current := b.command)
    case 2 => Reader(3, 256 * (c[0] as int), s.padding, b.command)
    case 3 => Reader(2, |b.content|, s.padding, b.command)
    case 4 => Reader(1, |b.content|, 256 * (p[0] as int), b.command)
    case _ =>
      var body := k - 5;
      Reader(0, if body < |b.content| then |b.content| - body else 0,
             if body < |b.content| then |b.padding| else |b.padding| + |b.content| - body, b.command)
  }

  /** One byte of the header. */
  lemma HeaderStep(s: Reader, b: Block, k: nat)
    requires s.Busy() && s.cmd == 5 && b.Fits() && k < 4
    ensures |b.Encode()| >= 5 && InBlock(s, b, k).Busy() && InBlock(s, b, k + 1).Reachable()
    ensures Step(InBlock(s, b, k), b.Encode()[k]).state == InBlock(s, b, k + 1)
  {
    HeaderBytes(b);
    if k == 2 {
      HeaderKeepsBusy(InBlock(s, b, 2), PutU16(|b.content|)[1]);
    }
  }

  lemma HeaderBytes(b: Block)
    requires b.Fits()
    ensures var c, p, h := PutU16(|b.content|), PutU16(|b.padding|), b.Encode();
            |h| >= 5 && h[0] == b.command && h[1] == c[0] && h[2] == c[1] && h[3] == p[0] && h[4] == p[1]
  {
  }

  lemma {:induction false} InHeader(s: Reader, b: Block, k: nat)
    requires s.Busy() && s.cmd == 5 && b.Fits() && k <= 4
    ensures |b.Encode()| >= 5 && Run(s, b.Encode()[..k]).state == InBlock(s, b, k)
  {
    hide Run, Step, InBlock;
    HeaderBytes(b);
    if k == 0 {
      assert b.Encode()[..0] == [];
      RunNothing(s);
      AtHeader(s, b);
    } else {
      InHeader(s, b, k - 1);
      HeaderStep(s, b, k - 1);
      OneMore(s, b.Encode(), k - 1, InBlock(s, b, k));
    }
  }

  lemma AtHeader(s: Reader, b: Block)
    requires b.Fits()
    ensures InBlock(s, b, 0) == s
  {
  }

  /** One more byte. */
  lemma OneMore(s: Reader, data: Bytes, k: nat, t: Reader)
    requires s.Reachable() && k < |data| && Run(s, data[..k]).state.Busy() && t.Reachable()
    requires Step(Run(s, data[..k]).state, data[k]).state == t
    ensures Run(s, data[..k + 1]).state == t
  {
    hide Step, Run;
    assert data[..k + 1] == data[..k] + [data[k]];
    RunAppend(s, data[..k], [data[k]]);
    RunOne(Run(s, data[..k]).state, data[k]);
  }

  lemma RunOne(s: Reader, b: byte)
    requires s.Busy()
    ensures Run(s, [b]).state == Step(s, b).state
  {
    hide Step;
    assert [b][1..] == [];
    RunNothing(Step(s, b).state);
  }

  lemma InBody(s: Reader, b: Block, k: nat)
    requires s.Busy() && s.cmd == 5 && b.Fits() && 5 <= k < |b.Encode()|
    ensures Run(s, b.Encode()[..k]).state == InBlock(s, b, k)
  {
    hide Run;
    var n, body := |b.content|, (b.content + b.padding)[..k - 5];
    assert b.Encode()[..k] == [b.command] + PutU16(n) + PutU16(|b.padding|) + body;
    RunHeader(s, b, body);
    var s0 := Reader(0, n, |b.padding|, b.command);
    if k == 5 {
      RunNothing(s0);
    } else if k - 5 <= n {
      RunSome(s0, body, k - 5);
    } else {
      if n > 0 {
        RunContent(s0, body, n);
      } else {
        assert body[0..] == body;
      }
      RunPadding(s0.(content := 0), body[n..], k - 5 - n);
      assert body[n..][k - 5 - n..] == [];
      RunNothing(InBlock(s, b, k));
    }
  }

  lemma RunSome(s: Reader, body: Bytes, k: nat)
    requires s.Busy() && s.cmd == 0 && s.content > 0 && 0 < k <= s.content && |body| == k
    requires k < s.content || s.padding > 0
    ensures Run(s, body).state == s.(content := s.content - k)
  {
    hide Run;
    RunContent(s, body, k);
    assert body[k..] == [];
    RunNothing(s.(content := s.content - k));
  }

  // ----- inside a stream

  /** With `left` bytes to the end of the terminating block, the reader is inside that block's header,
      the command is End or Direct, and the length bytes read so far are zero. */
  predicate HeaderCut(last: Block, left: int)
    requires last.Fits()
  {
    var k := |last.Encode()| - left;
    1 <= k <= 4 && (last.command == END || last.command == DIRECT)
    && forall i :: 1 <= i < k ==> last.Encode()[i] == 0
  }

  /** The state of a reader with `left` bytes to the end of the terminating block. */
  ghost predicate Stands(t: Reader, last: Block, left: int)
    requires last.Fits()
  {
    if left <= 0 then t == AfterBlock(last.command)
    else Steady(t) && t.Busy() && (MidTerminator(t) <==> HeaderCut(last, left))
         && (t.current != 0 && t.content <= 0 && t.padding <= 0 ==> t.current == last.command)
  }

  lemma StandsInLast(s: Reader, last: Block, k: nat)
    requires Steady(s) && s.Busy() && s.cmd == 5 && last.Fits() && last.command != CONTINUE && k < |last.Encode()|
    ensures Stands(InBlock(s, last, k), last, |last.Encode()| - k)
  {
    var h, n, m := last.Encode(), |last.content|, |last.padding|;
    var c, p := PutU16(n), PutU16(m);
    assert h[1] == c[0] && h[2] == c[1] && h[3] == p[0] && h[4] == p[1];
    assert n == 256 * (c[0] as int) + c[1] && m == 256 * (p[0] as int) + p[1];
  }

  lemma StandsBefore(s: Reader, b: Block, k: nat, last: Block, left: int)
    requires Steady(s) && s.Busy() && s.cmd == 5 && b.Fits() && b.command == CONTINUE && k < |b.Encode()|
    requires last.Fits() && left > |last.Encode()|
    ensures Stands(InBlock(s, b, k), last, left)
  {
  }

  /** The bytes up to the end of the terminating block, and behind them. */
  function Body(blocks: seq<Block>, last: Block, tail: Bytes): Bytes
    requires AllFit(blocks) && last.Fits()
  {
    EncodeAll(blocks) + (last.Encode() + tail)
  }

  function Length(blocks: seq<Block>, last: Block): nat
    requires AllFit(blocks) && last.Fits()
  {
    |EncodeAll(blocks)| + |last.Encode()|
  }

  ghost predicate Proper(blocks: seq<Block>, last: Block) {
    AllFit(blocks) && last.Fits() && last.command != CONTINUE
    && forall i :: 0 <= i < |blocks| ==> blocks[i].command == CONTINUE
  }

  /** After `n` bytes the reader stands where the offset says: idle exactly from the end of the
      terminating block on, and in the middle of a header with nothing announced exactly there. */
  lemma {:induction false} OffsetDecides(s: Reader, blocks: seq<Block>, last: Block, tail: Bytes, n: nat)
    requires Steady(s) && s.Busy() && s.cmd == 5 && Proper(blocks, last) && n <= |Body(blocks, last, tail)|
    ensures Stands(Run(s, Body(blocks, last, tail)[..n]).state, last, Length(blocks, last) - n)
    decreases |blocks|
  {
    hide Run, Stands;
    var body := Body(blocks, last, tail);
    if blocks == [] {
      assert body == last.Encode() + tail;
      InTerminator(s, last, tail, n);
    } else {
      var b, more := blocks[0], Body(blocks[1..], last, tail);
      assert body == b.Encode() + more;
      if n < |b.Encode()| {
        assert body[..n] == b.Encode()[..n];
        BlockPrefix(s, b, n);
        StandsBefore(s, b, n, last, Length(blocks, last) - n);
      } else {
        var m := n - |b.Encode()|;
        assert body[..n] == b.Encode() + more[..m];
        RunBlock(s, b, more[..m]);
        OffsetDecides(AfterBlock(CONTINUE), blocks[1..], last, tail, m);
      }
    }
  }

  lemma BlockPrefix(s: Reader, b: Block, k: nat)
    requires s.Busy() && s.cmd == 5 && b.Fits() && k < |b.Encode()|
    ensures Run(s, b.Encode()[..k]).state == InBlock(s, b, k)
  {
    hide Run;
    if k <= 4 {
      InHeader(s, b, k);
    } else {
      InBody(s, b, k);
    }
  }

  lemma InTerminator(s: Reader, last: Block, tail: Bytes, n: nat)
    requires Steady(s) && s.Busy() && s.cmd == 5 && last.Fits() && last.command != CONTINUE
    requires n <= |last.Encode() + tail|
    ensures Stands(Run(s, (last.Encode() + tail)[..n]).state, last, |last.Encode()| - n)
  {
    hide Run;
    var h := last.Encode();
    if n < |h| {
      assert (h + tail)[..n] == h[..n];
      BlockPrefix(s, last, n);
      StandsInLast(s, last, n);
    } else {
      assert (h + tail)[..n] == h + tail[..n - |h|];
      RunBlock(s, last, tail[..n - |h|]);
      RunIdle(AfterBlock(last.command), tail[..n - |h|]);
    }
  }

  // ----- where the buffers are cut

  /** No buffer that starts at or behind the end of the terminating block, `left` bytes away, starts with
      the identifier and is long enough to be taken for a new stream. */
  predicate NoneOpens(uuid: Bytes, bufs: seq<Bytes>, left: int) {
    bufs == [] || (!(left <= 0 && Opens(uuid, bufs[0])) && NoneOpens(uuid, bufs[1..], left - |bufs[0]|))
  }

  /** What is to be read from `n` on, as a stretch of the stream. */
  lemma NextStretch(body: Bytes, n: nat, a: Bytes, rest: Bytes)
    requires n <= |body| && body[n..] == a + rest
    ensures n + |a| <= |body| && body[..n + |a|] == body[..n] + a && body[n + |a|..] == rest
  {
    assert body == body[..n] + (a + rest);
  }

  /** Restarting is a matter of offsets. */
  lemma {:induction false} NoRestartByOffset(uuid: Bytes, s: Reader, blocks: seq<Block>, last: Block, tail: Bytes,
                                             n: nat, bufs: seq<Bytes>, rest: Bytes)
    requires Steady(s) && s.Busy() && s.cmd == 5 && Proper(blocks, last) && n <= |Body(blocks, last, tail)|
    requires Body(blocks, last, tail)[n..] == Flatten(bufs) + rest
    ensures NoRestart(uuid, Run(s, Body(blocks, last, tail)[..n]).state, bufs)
       <==> NoneOpens(uuid, bufs, Length(blocks, last) - n)
    decreases |bufs|
  {
    hide Run, Body, Length;
    if bufs != [] {
      var body, left := Body(blocks, last, tail), Length(blocks, last) - n;
      var t := Run(s, body[..n]).state;
      OffsetDecides(s, blocks, last, tail, n);
      IdleByOffset(t, last, left);
      assert body[n..] == bufs[0] + (Flatten(bufs[1..]) + rest);
      NextStretch(body, n, bufs[0], Flatten(bufs[1..]) + rest);
      RunAppend(s, body[..n], bufs[0]);
      if !(left <= 0 && Opens(uuid, bufs[0])) {
        if t.Idle() {
          RunIdle(t, bufs[0]);
        }
        NoRestartByOffset(uuid, s, blocks, last, tail, n + |bufs[0]|, bufs[1..], rest);
      }
    }
  }

  lemma IdleByOffset(t: Reader, last: Block, left: int)
    requires last.Fits() && last.command != CONTINUE && Stands(t, last, left)
    ensures t.Idle() <==> left <= 0
  {
  }

  /** The round trip in terms of the stream alone: the contents and the tail come back if and only if
      no buffer that starts behind the terminating block looks like the start of a new stream. */
  lemma RoundTripByOffset(uuid: Bytes, blocks: seq<Block>, last: Block, tail: Bytes, bufs: seq<Bytes>)
    requires |uuid| == 16 && Proper(blocks, last)
    requires bufs != [] && |bufs[0]| >= 21 && Flatten(bufs) == Stream(uuid, blocks, last, tail)
    ensures FeedAll(uuid, INITIAL, bufs).out == Payload(blocks) + last.content + tail
       <==> NoneOpens(uuid, bufs[1..], 16 + Length(blocks, last) - |bufs[0]|)
  {
    hide Run, EncodeAll;
    RoundTrip(uuid, blocks, last, tail, bufs);
    var s, body, n := INITIAL.(cmd := 5), Body(blocks, last, tail), |bufs[0]| - 16;
    FirstBuffer(uuid, body, bufs);
    assert body[n..] == Flatten(bufs[1..]) + [];
    NoRestartByOffset(uuid, s, blocks, last, tail, n, bufs[1..], []);
  }

  lemma FirstBuffer(uuid: Bytes, body: Bytes, bufs: seq<Bytes>)
    requires |uuid| == 16 && bufs != [] && |bufs[0]| >= 21 && Flatten(bufs) == uuid + body
    ensures var n := |bufs[0]| - 16;
            n <= |body| && Opens(uuid, bufs[0]) && bufs[0][16..] == body[..n] && body[n..] == Flatten(bufs[1..])
  {
    assert bufs[0] + Flatten(bufs[1..]) == uuid + body;
    assert (uuid + body)[..16] == uuid && (uuid + body)[16..] == body;
    assert (bufs[0] + Flatten(bufs[1..]))[..16] == bufs[0][..16];
    assert (bufs[0] + Flatten(bufs[1..]))[16..] == bufs[0][16..] + Flatten(bufs[1..]);
  }

  /** The condition matters: a tail that starts like the stream itself is swallowed. */
  lemma RestartLoses(uuid: Bytes)
    requires |uuid| == 16
    ensures var last, tail := Block(END, [], []), uuid + [END, 0, 0, 0, 0];
            Stream(uuid, [], last, tail) == Flatten([uuid + last.Encode(), tail])
            && FeedAll(uuid, INITIAL, [uuid + last.Encode(), tail]).out == []
  {
    hide Run;
    var last, tail := Block(END, [], []), uuid + [END, 0, 0, 0, 0];
    assert last.Encode() == [END, 0, 0, 0, 0];
    var first := uuid + last.Encode();
    assert first[..16] == uuid && first[16..] == last.Encode() + [];
    RunBlock(INITIAL.(cmd := 5), last, []);
    RunBlock(Reader(5, -1, -1, END), last, []);
    RunNothing(AfterBlock(END));
    assert [first, first][1..] == [first] && [first][1..] == [];
    assert first == tail;
    assert EncodeAll([]) + (last.Encode() + tail) == last.Encode() + tail;
    FlattenOne(first);
  }

  // ----- where the batches are cut

  /** The gate is closed for a batch that starts `left` bytes before the end of the terminating block. */
  predicate Closed(last: Block, left: int)
    requires last.Fits()
  {
    (last.command == END || last.command == DIRECT) && (left <= 0 || HeaderCut(last, left))
  }

  /** A batch that goes through the unpadding reader must not restart it; one that passes the closed
      gate must start behind the terminating block. */
  predicate BatchFine(uuid: Bytes, last: Block, b: Batch, left: int)
    requires last.Fits()
  {
    IsEmpty(b.bufs) || if b.filtering || !Closed(last, left) then NoneOpens(uuid, b.bufs, left) else left <= 0
  }

  predicate GateFine(uuid: Bytes, last: Block, batches: seq<Batch>, left: int)
    requires last.Fits()
  {
    batches == [] ||
    (BatchFine(uuid, last, batches[0], left) && GateFine(uuid, last, batches[1..], left - |Flatten(batches[0].bufs)|))
  }

  lemma DecideByOffset(t: Reader, last: Block, left: int, within: bool)
    requires last.Fits() && last.command != CONTINUE && Stands(t, last, left)
    requires within || last.command == END || last.command == DIRECT
    ensures Decide(t, within) == !Closed(last, left)
  {
  }

  lemma {:induction false} NoneOpensBefore(uuid: Bytes, bufs: seq<Bytes>, left: int)
    requires !NoneOpens(uuid, bufs, left)
    ensures left <= |Flatten(bufs)|
  {
    if !(left <= 0 && Opens(uuid, bufs[0])) {
      NoneOpensBefore(uuid, bufs[1..], left - |bufs[0]|);
    }
  }

  lemma {:induction false} ReadAllBound(uuid: Bytes, g: Gate, batches: seq<Batch>)
    requires g.reader.Reachable()
    ensures |ReadAll(uuid, g, batches)| <= |Flatten(AllBufs(batches))|
    decreases |batches|
  {
    hide FeedAll;
    if batches != [] {
      ReadAllBound(uuid, ReadBatch(uuid, g, batches[0].filtering, batches[0].bufs).gate, batches[1..]);
      FlattenConcat(batches[0].bufs, AllBufs(batches[1..]));
    }
  }

  /** The reader and its gate after `n` bytes of the stream. */
  ghost function At(s: Reader, blocks: seq<Block>, last: Block, tail: Bytes, n: nat): (g: Gate)
    requires s.Busy() && Proper(blocks, last) && n <= |Body(blocks, last, tail)|
    ensures g.reader.Reachable()
  {
    Gate(Run(s, Body(blocks, last, tail)[..n]).state, !Closed(last, Length(blocks, last) - n))
  }

  /** A batch that goes through the reader without restarting it. */
  lemma ThroughReader(uuid: Bytes, s: Reader, blocks: seq<Block>, last: Block, tail: Bytes,
                      n: nat, b: Batch, rest: Bytes)
    requires Steady(s) && s.Busy() && s.cmd == 5 && Proper(blocks, last) && n <= |Body(blocks, last, tail)|
    requires Body(blocks, last, tail)[n..] == Flatten(b.bufs) + rest && !IsEmpty(b.bufs)
    requires b.filtering || !Closed(last, Length(blocks, last) - n)
    requires NoneOpens(uuid, b.bufs, Length(blocks, last) - n)
    ensures n + |Flatten(b.bufs)| <= |Body(blocks, last, tail)|
    ensures var g := At(s, blocks, last, tail, n);
            ReadBatch(uuid, g, b.filtering, b.bufs) ==
            Outcome(At(s, blocks, last, tail, n + |Flatten(b.bufs)|), Run(g.reader, Flatten(b.bufs)).out)
  {
    hide Run, FeedAll, Body, Length, Decide, Closed, NoneOpens;
    var body, g, chunk := Body(blocks, last, tail), At(s, blocks, last, tail, n), Flatten(b.bufs);
    NoRestartByOffset(uuid, s, blocks, last, tail, n, b.bufs, rest);
    PiecesAreWhole(uuid, g.reader, b.bufs);
    NextStretch(body, n, chunk, rest);
    RunAppend(s, body[..n], chunk);
    OffsetDecides(s, blocks, last, tail, n + |chunk|);
    ClosedMeans(last, Length(blocks, last) - n);
    DecideByOffset(Run(g.reader, chunk).state, last, Length(blocks, last) - n - |chunk|, g.within);
  }

  lemma ClosedMeans(last: Block, left: int)
    requires last.Fits()
    ensures Closed(last, left) ==> last.command == END || last.command == DIRECT
    ensures Closed(last, left) && left > 0 ==> HeaderCut(last, left)
  {
  }

  /** A batch that restarts the reader: bytes are lost, whatever happens later. */
  lemma Restarted(uuid: Bytes, s: Reader, blocks: seq<Block>, last: Block, tail: Bytes, n: nat, batches: seq<Batch>)
    requires Steady(s) && s.Busy() && s.cmd == 5 && Proper(blocks, last) && n <= |Body(blocks, last, tail)|
    requires Body(blocks, last, tail)[n..] == Flatten(AllBufs(batches)) && batches != [] && !IsEmpty(batches[0].bufs)
    requires batches[0].filtering || !Closed(last, Length(blocks, last) - n)
    requires !NoneOpens(uuid, batches[0].bufs, Length(blocks, last) - n)
    ensures var g := At(s, blocks, last, tail, n);
            |ReadAll(uuid, g, batches)| < |Run(g.reader, Body(blocks, last, tail)[n..]).out|
  {
    hide Run, FeedAll, Body, Length, Decide, Closed, NoneOpens;
    var body, g := Body(blocks, last, tail), At(s, blocks, last, tail, n);
    var bufs, more := batches[0].bufs, AllBufs(batches[1..]);
    var chunk, rest := Flatten(bufs), Flatten(more);
    FlattenConcat(bufs, more);
    NoRestartByOffset(uuid, s, blocks, last, tail, n, bufs, rest);
    PiecesAreWhole(uuid, g.reader, bufs);
    NoneOpensBefore(uuid, bufs, Length(blocks, last) - n);
    NextStretch(body, n, chunk, rest);
    RunAppend(s, body[..n], chunk);
    OffsetDecides(s, blocks, last, tail, n + |chunk|);
    RunAppend(g.reader, chunk, rest);
    RunIdle(Run(g.reader, chunk).state, rest);
    ReadAllBound(uuid, ReadBatch(uuid, g, batches[0].filtering, bufs).gate, batches[1..]);
  }

  /** A batch that passes the closed gate inside a header: header bytes reach the application. */
  lemma Leaked(uuid: Bytes, s: Reader, blocks: seq<Block>, last: Block, tail: Bytes, n: nat, batches: seq<Batch>)
    requires Steady(s) && s.Busy() && s.cmd == 5 && Proper(blocks, last) && n <= |Body(blocks, last, tail)|
    requires Body(blocks, last, tail)[n..] == Flatten(AllBufs(batches)) && batches != [] && !IsEmpty(batches[0].bufs)
    requires FilteringEnds(batches) && !batches[0].filtering
    requires Closed(last, Length(blocks, last) - n) && Length(blocks, last) > n
    ensures var g := At(s, blocks, last, tail, n);
            |ReadAll(uuid, g, batches)| > |Run(g.reader, Body(blocks, last, tail)[n..]).out|
  {
    hide Run, FeedAll, Body, Length, Decide, Closed, NoneOpens;
    var body, g := Body(blocks, last, tail), At(s, blocks, last, tail, n);
    ClosedForGood(uuid, g, batches);
    OffsetDecides(s, blocks, last, tail, n);
    ClosedMeans(last, Length(blocks, last) - n);
    EmptyIffNoBytes(batches[0].bufs);
    FlattenConcat(batches[0].bufs, AllBufs(batches[1..]));
    RunSteady(g.reader, body[n..]);
  }

  /** The gated reader delivers what the stream says exactly if every batch is fine. */
  lemma {:induction false} GateByOffset(uuid: Bytes, s: Reader, blocks: seq<Block>, last: Block, tail: Bytes,
                                        n: nat, batches: seq<Batch>)
    requires Steady(s) && s.Busy() && s.cmd == 5 && Proper(blocks, last) && n <= |Body(blocks, last, tail)|
    requires Body(blocks, last, tail)[n..] == Flatten(AllBufs(batches)) && FilteringEnds(batches)
    ensures var g := At(s, blocks, last, tail, n);
            ReadAll(uuid, g, batches) == Run(g.reader, Body(blocks, last, tail)[n..]).out <==>
            GateFine(uuid, last, batches, Length(blocks, last) - n)
    decreases |batches|
  {
    hide Run, FeedAll, Body, Length, Decide, Closed, NoneOpens;
    var body, left, g := Body(blocks, last, tail), Length(blocks, last) - n, At(s, blocks, last, tail, n);
    if batches == [] {
      RunNothing(g.reader);
    } else {
      var b, more := batches[0], AllBufs(batches[1..]);
      FlattenConcat(b.bufs, more);
      EmptyIffNoBytes(b.bufs);
      if !BatchFine(uuid, last, b, left) {
        if b.filtering || !Closed(last, left) {
          Restarted(uuid, s, blocks, last, tail, n, batches);
        } else {
          Leaked(uuid, s, blocks, last, tail, n, batches);
        }
      } else {
        OneBatch(uuid, s, blocks, last, tail, n, b, Flatten(more));
        var r := ReadBatch(uuid, g, b.filtering, b.bufs);
        GateByOffset(uuid, s, blocks, last, tail, n + |Flatten(b.bufs)|, batches[1..]);
        SamePrefix(r.out, ReadAll(uuid, r.gate, batches[1..]), Run(r.gate.reader, Flatten(more)).out);
      }
    }
  }

  /** A batch that is fine moves reader and gate along the stream. */
  lemma OneBatch(uuid: Bytes, s: Reader, blocks: seq<Block>, last: Block, tail: Bytes, n: nat, b: Batch, rest: Bytes)
    requires Steady(s) && s.Busy() && s.cmd == 5 && Proper(blocks, last) && n <= |Body(blocks, last, tail)|
    requires Body(blocks, last, tail)[n..] == Flatten(b.bufs) + rest && BatchFine(uuid, last, b, Length(blocks, last) - n)
    ensures n + |Flatten(b.bufs)| <= |Body(blocks, last, tail)|
    ensures Body(blocks, last, tail)[n + |Flatten(b.bufs)|..] == rest
    ensures var g := At(s, blocks, last, tail, n);
            var r := ReadBatch(uuid, g, b.filtering, b.bufs);
            r.gate == At(s, blocks, last, tail, n + |Flatten(b.bufs)|)
            && Run(g.reader, Flatten(b.bufs) + rest).out == r.out + Run(r.gate.reader, rest).out
  {
    hide Run, FeedAll, Body, Length, Decide, Closed, NoneOpens;
    var body, left, g := Body(blocks, last, tail), Length(blocks, last) - n, At(s, blocks, last, tail, n);
    var chunk := Flatten(b.bufs);
    NextStretch(body, n, chunk, rest);
    RunAppend(s, body[..n], chunk);
    RunAppend(g.reader, chunk, rest);
    EmptyIffNoBytes(b.bufs);
    if IsEmpty(b.bufs) {
      RunNothing(g.reader);
      assert body[..n + 0] == body[..n];
    } else if b.filtering || !Closed(last, left) {
      ThroughReader(uuid, s, blocks, last, tail, n, b, rest);
    } else {
      OffsetDecides(s, blocks, last, tail, n);
      RunIdle(g.reader, chunk);
      StaysClosed(last, left, left - |chunk|);
    }
  }

  lemma StaysClosed(last: Block, left: int, left': int)
    requires last.Fits() && Closed(last, left) && left' <= 0
    ensures Closed(last, left')
  {
  }

  /** `VisionReader` over a whole stream in any batches: it returns the contents and the tail if and only
      if every batch is fine, which depends on where it starts and on nothing the reader does. */
  lemma {:induction false} VisionReaderRoundTrip(uuid: Bytes, blocks: seq<Block>, last: Block, tail: Bytes,
                                                 batches: seq<Batch>)
    requires |uuid| == 16 && Proper(blocks, last) && FilteringEnds(batches)
    requires var bufs := AllBufs(batches);
             bufs != [] && |bufs[0]| >= 21 && Flatten(bufs) == Stream(uuid, blocks, last, tail)
    ensures ReadAll(uuid, Gate(INITIAL, true), batches) == Payload(blocks) + last.content + tail
       <==> GateFine(uuid, last, batches, 16 + Length(blocks, last))
    decreases |batches|
  {
    hide Run, Feed, FeedAll, EncodeAll, Payload, Length, Closed, BatchFine, Stream, Flatten;
    if batches[0].bufs == [] {
      SkipEmpty(uuid, last, batches, 16 + Length(blocks, last));
      assert FilteringEnds(batches[1..]);
      VisionReaderRoundTrip(uuid, blocks, last, tail, batches[1..]);
    } else {
      FirstBatch(uuid, blocks, last, tail, batches);
    }
  }

  lemma SkipEmpty(uuid: Bytes, last: Block, batches: seq<Batch>, left: int)
    requires last.Fits() && batches != [] && batches[0].bufs == []
    ensures AllBufs(batches) == AllBufs(batches[1..])
    ensures ReadAll(uuid, Gate(INITIAL, true), batches) == ReadAll(uuid, Gate(INITIAL, true), batches[1..])
    ensures GateFine(uuid, last, batches, left) <==> GateFine(uuid, last, batches[1..], left)
  {
    assert ReadBatch(uuid, Gate(INITIAL, true), batches[0].filtering, []) == Outcome(Gate(INITIAL, true), []);
  }

  lemma FirstBatch(uuid: Bytes, blocks: seq<Block>, last: Block, tail: Bytes, batches: seq<Batch>)
    requires |uuid| == 16 && Proper(blocks, last) && FilteringEnds(batches) && batches != [] && batches[0].bufs != []
    requires |batches[0].bufs[0]| >= 21 && Flatten(AllBufs(batches)) == Stream(uuid, blocks, last, tail)
    ensures ReadAll(uuid, Gate(INITIAL, true), batches) == Payload(blocks) + last.content + tail
       <==> GateFine(uuid, last, batches, 16 + Length(blocks, last))
  {
    hide Run, EncodeAll, Payload, Body, Length, ReadAll, GateFine, Flatten, AllBufs, Stream, FilteringEnds;
    var b, rest := batches[0], batches[1..];
    assert batches == [b] + rest;
    var s, b' := INITIAL.(cmd := 5), Batch([b.bufs[0][16..]] + b.bufs[1..], b.filtering);
    TrimBufs(uuid, blocks, last, tail, batches, b');
    TrimReads(uuid, s, b, b', rest);
    TrimFine(uuid, blocks, last, b, b', rest);
    AtStart(s, blocks, last, tail);
    assert Body(blocks, last, tail)[0..] == Body(blocks, last, tail);
    GateByOffset(uuid, s, blocks, last, tail, 0, [b'] + rest);
    BodyPayload(s, blocks, last, tail);
  }

  lemma BodyPayload(s: Reader, blocks: seq<Block>, last: Block, tail: Bytes)
    requires Proper(blocks, last) && s == INITIAL.(cmd := 5)
    ensures Run(s, Body(blocks, last, tail)).out == Payload(blocks) + last.content + tail
  {
    BodyOfStream(blocks, last, tail);
  }

  lemma AtStart(s: Reader, blocks: seq<Block>, last: Block, tail: Bytes)
    requires Proper(blocks, last) && s == INITIAL.(cmd := 5)
    ensures At(s, blocks, last, tail, 0) == Gate(s, true)
  {
    assert Body(blocks, last, tail)[..0] == [];
    RunNothing(s);
  }

  /** Without the identifier the first batch is the beginning of the body. */
  lemma TrimBufs(uuid: Bytes, blocks: seq<Block>, last: Block, tail: Bytes, batches: seq<Batch>, b': Batch)
    requires |uuid| == 16 && Proper(blocks, last) && FilteringEnds(batches) && batches != [] && batches[0].bufs != []
    requires |batches[0].bufs[0]| >= 21 && Flatten(AllBufs(batches)) == Stream(uuid, blocks, last, tail)
    requires b' == Batch([batches[0].bufs[0][16..]] + batches[0].bufs[1..], batches[0].filtering)
    ensures Opens(uuid, batches[0].bufs[0]) && FilteringEnds([b'] + batches[1..])
    ensures Flatten(AllBufs([b'] + batches[1..])) == Body(blocks, last, tail)
  {
    hide EncodeAll, Flatten;
    var bufs, body := AllBufs(batches), Body(blocks, last, tail);
    TrimLists(batches, b');
    FirstBuffer(uuid, body, bufs);
    FlattenFirst(body[..|bufs[0]| - 16], bufs[1..]);
  }

  lemma TrimLists(batches: seq<Batch>, b': Batch)
    requires FilteringEnds(batches) && batches != [] && batches[0].bufs != [] && |batches[0].bufs[0]| >= 16
    requires b' == Batch([batches[0].bufs[0][16..]] + batches[0].bufs[1..], batches[0].filtering)
    ensures FilteringEnds([b'] + batches[1..]) && AllBufs(batches)[0] == batches[0].bufs[0]
    ensures AllBufs([b'] + batches[1..]) == [batches[0].bufs[0][16..]] + AllBufs(batches)[1..]
  {
    assert ([b'] + batches[1..])[1..] == batches[1..];
  }

  lemma FlattenFirst(a: Bytes, bufs: seq<Bytes>)
    ensures Flatten([a] + bufs) == a + Flatten(bufs)
  {
    assert ([a] + bufs)[1..] == bufs;
  }

  lemma TrimReads(uuid: Bytes, s: Reader, b: Batch, b': Batch, rest: seq<Batch>)
    requires s == INITIAL.(cmd := 5) && b.bufs != [] && Opens(uuid, b.bufs[0])
    requires b' == Batch([b.bufs[0][16..]] + b.bufs[1..], b.filtering)
    ensures ReadAll(uuid, Gate(INITIAL, true), [b] + rest) == ReadAll(uuid, Gate(s, true), [b'] + rest)
  {
    hide Run;
    assert Feed(uuid, INITIAL, b.bufs[0]) == Feed(uuid, s, b'.bufs[0]);
    assert b'.bufs[1..] == b.bufs[1..];
    assert b.bufs[0] != [] && b'.bufs[0] != [];
    assert ([b] + rest)[1..] == rest == ([b'] + rest)[1..];
  }

  lemma TrimFine(uuid: Bytes, blocks: seq<Block>, last: Block, b: Batch, b': Batch, rest: seq<Batch>)
    requires Proper(blocks, last) && b.bufs != [] && |b.bufs[0]| >= 21
    requires b' == Batch([b.bufs[0][16..]] + b.bufs[1..], b.filtering)
    ensures GateFine(uuid, last, [b] + rest, 16 + Length(blocks, last))
       <==> GateFine(uuid, last, [b'] + rest, Length(blocks, last))
  {
    var left := Length(blocks, last);
    assert |last.Encode()| >= 5;
    assert b.bufs[0] != [] && b'.bufs[0] != [] && b'.bufs[1..] == b.bufs[1..];
    assert ([b] + rest)[1..] == rest == ([b'] + rest)[1..];
    assert BatchFine(uuid, last, b, 16 + left) == BatchFine(uuid, last, b', left);
  }

  /** Direct copy, told by offsets: on exactly behind a Direct block and at the cuts inside its header. */
  lemma DirectByOffset(t: Reader, last: Block, left: int)
    requires last.Fits() && last.command != CONTINUE && Stands(t, last, left)
    ensures DirectSeen(t) <==> last.command == DIRECT && Closed(last, left)
  {
  }

  /** Too early: one byte of a Direct block is enough, with all of its content still to come. */
  lemma DirectTooEarly(uuid: Bytes)
    requires |uuid| == 16
    ensures var s := FeedAll(uuid, INITIAL, [uuid + [0, 0, 0, 0, 0, DIRECT]]).state;
            s == Reader(4, 0, 0, 2) && DirectSeen(s) && !s.Idle()
  {
    hide Run;
    var first, empty, next := uuid + [0, 0, 0, 0, 0, DIRECT], Block(CONTINUE, [], []), AfterBlock(CONTINUE);
    assert first[..16] == uuid && first[16..] == empty.Encode() + [DIRECT];
    RunBlock(INITIAL.(cmd := 5), empty, [DIRECT]);
    RunOne(next, DIRECT);
    assert [first][1..] == [];
  }

  // ----- direct copy over a whole run

  /** Some batch ends where the gate is closed: behind the terminating block, or at a header cut. */
  predicate SomeEndClosed(last: Block, batches: seq<Batch>, left: int)
    requires last.Fits()
  {
    batches != [] &&
    var left' := left - |Flatten(batches[0].bufs)|;
    Closed(last, left') || SomeEndClosed(last, batches[1..], left')
  }

  /** Without a Direct block direct copy never goes on. */
  lemma {:induction false} NoDirectRun(uuid: Bytes, s: Reader, blocks: seq<Block>, last: Block, tail: Bytes,
                                       n: nat, batches: seq<Batch>)
    requires Steady(s) && s.Busy() && s.cmd == 5 && Proper(blocks, last) && n <= |Body(blocks, last, tail)|
    requires Body(blocks, last, tail)[n..] == Flatten(AllBufs(batches)) && last.command != DIRECT
    requires GateFine(uuid, last, batches, Length(blocks, last) - n)
    ensures !DirectRun(uuid, At(s, blocks, last, tail, n), batches)
    decreases |batches|
  {
    hide Run, FeedAll, Body, Length, Decide, Closed, NoneOpens, BatchFine, ReadBatch;
    if batches != [] {
      var b, more := batches[0], Flatten(AllBufs(batches[1..]));
      var n' := n + |Flatten(b.bufs)|;
      FlattenConcat(b.bufs, AllBufs(batches[1..]));
      OneBatch(uuid, s, blocks, last, tail, n, b, more);
      OffsetDecides(s, blocks, last, tail, n');
      DirectByOffset(At(s, blocks, last, tail, n').reader, last, Length(blocks, last) - n');
      NoDirectRun(uuid, s, blocks, last, tail, n', batches[1..]);
    }
  }

  /** From an open gate, direct copy goes on exactly if the block is a Direct one and some batch ends where
      the gate is closed. */
  lemma {:induction false} DirectRunByOffset(uuid: Bytes, s: Reader, blocks: seq<Block>, last: Block, tail: Bytes,
                                             n: nat, batches: seq<Batch>)
    requires Steady(s) && s.Busy() && s.cmd == 5 && Proper(blocks, last) && n <= |Body(blocks, last, tail)|
    requires Body(blocks, last, tail)[n..] == Flatten(AllBufs(batches)) && last.command == DIRECT
    requires GateFine(uuid, last, batches, Length(blocks, last) - n) && !Closed(last, Length(blocks, last) - n)
    ensures DirectRun(uuid, At(s, blocks, last, tail, n), batches)
       <==> SomeEndClosed(last, batches, Length(blocks, last) - n)
    decreases |batches|
  {
    hide Run, FeedAll, Body, Length, Decide, Closed, NoneOpens, BatchFine, ReadBatch;
    if batches != [] {
      var b, more := batches[0], Flatten(AllBufs(batches[1..]));
      var n' := n + |Flatten(b.bufs)|;
      EmptyIffNoBytes(b.bufs);
      FlattenConcat(b.bufs, AllBufs(batches[1..]));
      OneBatch(uuid, s, blocks, last, tail, n, b, more);
      OffsetDecides(s, blocks, last, tail, n');
      DirectByOffset(At(s, blocks, last, tail, n').reader, last, Length(blocks, last) - n');
      if !Closed(last, Length(blocks, last) - n') {
        DirectRunByOffset(uuid, s, blocks, last, tail, n', batches[1..]);
      }
    }
  }

  /** Over a whole stream that is read faithfully: direct copy is on at the end exactly if the terminating
      block is a Direct one and some batch ends behind it or at a cut inside its header. */
  lemma {:induction false} DirectCopyRoundTrip(uuid: Bytes, blocks: seq<Block>, last: Block, tail: Bytes,
                                               batches: seq<Batch>)
    requires |uuid| == 16 && Proper(blocks, last) && FilteringEnds(batches)
    requires var bufs := AllBufs(batches);
             bufs != [] && |bufs[0]| >= 21 && Flatten(bufs) == Stream(uuid, blocks, last, tail)
    requires GateFine(uuid, last, batches, 16 + Length(blocks, last))
    ensures DirectRun(uuid, Gate(INITIAL, true), batches)
       <==> last.command == DIRECT && SomeEndClosed(last, batches, 16 + Length(blocks, last))
    decreases |batches|
  {
    hide Run, Feed, FeedAll, EncodeAll, Payload, Length, BatchFine, Stream, Flatten;
    StartsOpen(blocks, last);
    if batches[0].bufs == [] {
      SkipEmpty(uuid, last, batches, 16 + Length(blocks, last));
      SkipDirect(uuid, last, batches, 16 + Length(blocks, last));
      assert FilteringEnds(batches[1..]);
      DirectCopyRoundTrip(uuid, blocks, last, tail, batches[1..]);
    } else {
      FirstDirect(uuid, blocks, last, tail, batches);
    }
  }

  lemma StartsOpen(blocks: seq<Block>, last: Block)
    requires Proper(blocks, last)
    ensures !Closed(last, Length(blocks, last)) && !Closed(last, 16 + Length(blocks, last))
  {
    hide EncodeAll;
    HeaderBytes(last);
  }

  lemma SkipDirect(uuid: Bytes, last: Block, batches: seq<Batch>, left: int)
    requires last.Fits() && batches != [] && batches[0].bufs == [] && !Closed(last, left)
    ensures DirectRun(uuid, Gate(INITIAL, true), batches) <==> DirectRun(uuid, Gate(INITIAL, true), batches[1..])
    ensures SomeEndClosed(last, batches, left) <==> SomeEndClosed(last, batches[1..], left)
  {
    hide Closed;
    assert ReadBatch(uuid, Gate(INITIAL, true), batches[0].filtering, []) == Outcome(Gate(INITIAL, true), []);
    EmptyIffNoBytes(batches[0].bufs);
  }

  lemma FirstDirect(uuid: Bytes, blocks: seq<Block>, last: Block, tail: Bytes, batches: seq<Batch>)
    requires |uuid| == 16 && Proper(blocks, last) && FilteringEnds(batches) && batches != [] && batches[0].bufs != []
    requires |batches[0].bufs[0]| >= 21 && Flatten(AllBufs(batches)) == Stream(uuid, blocks, last, tail)
    requires GateFine(uuid, last, batches, 16 + Length(blocks, last)) && !Closed(last, Length(blocks, last))
    ensures DirectRun(uuid, Gate(INITIAL, true), batches)
       <==> last.command == DIRECT && SomeEndClosed(last, batches, 16 + Length(blocks, last))
  {
    hide Run, EncodeAll, Payload, Body, Length, DirectRun, GateFine, Flatten, AllBufs, Stream, FilteringEnds,
         SomeEndClosed, Closed;
    var b, rest := batches[0], batches[1..];
    assert batches == [b] + rest;
    var s, b' := INITIAL.(cmd := 5), Batch([b.bufs[0][16..]] + b.bufs[1..], b.filtering);
    TrimBufs(uuid, blocks, last, tail, batches, b');
    TrimDirect(uuid, s, last, b, b', rest, Length(blocks, last));
    TrimFine(uuid, blocks, last, b, b', rest);
    AtStart(s, blocks, last, tail);
    assert Body(blocks, last, tail)[0..] == Body(blocks, last, tail);
    if last.command == DIRECT {
      DirectRunByOffset(uuid, s, blocks, last, tail, 0, [b'] + rest);
    } else {
      NoDirectRun(uuid, s, blocks, last, tail, 0, [b'] + rest);
    }
  }

  lemma TrimDirect(uuid: Bytes, s: Reader, last: Block, b: Batch, b': Batch, rest: seq<Batch>, left: int)
    requires s == INITIAL.(cmd := 5) && last.Fits() && b.bufs != [] && Opens(uuid, b.bufs[0])
    requires b' == Batch([b.bufs[0][16..]] + b.bufs[1..], b.filtering)
    ensures DirectRun(uuid, Gate(INITIAL, true), [b] + rest) <==> DirectRun(uuid, Gate(s, true), [b'] + rest)
    ensures SomeEndClosed(last, [b] + rest, 16 + left) <==> SomeEndClosed(last, [b'] + rest, left)
  {
    hide Run, Closed;
    assert Feed(uuid, INITIAL, b.bufs[0]) == Feed(uuid, s, b'.bufs[0]);
    assert b'.bufs[1..] == b.bufs[1..];
    assert b.bufs[0] != [] && b'.bufs[0] != [];
    assert ([b] + rest)[1..] == rest == ([b'] + rest)[1..];
  }
}
