/** The Vision padding format, read one byte at a time.

    `Step` is the reference reader: it looks at a single byte.  `Feed` is what one buffer does to the
    reader, `FeedAll` what a list of buffers does.  The main results are that feeding a stream in
    pieces equals feeding it whole (`FragmentationIndependence`, with the exact condition under which
    it holds), and that reading an encoded stream gives back its payload (`RoundTrip`). */
module VisionCodec {
  import opened Octets

  const CONTINUE: byte := 0
  const END: byte := 1
  const DIRECT: byte := 2

  /** `RemainingCommand`, `RemainingContent`, `RemainingPadding` and `CurrentCommand`. */
  datatype Reader = Reader(cmd: int, content: int, padding: int, current: int) {

    /** The initial state, also the state after a terminating block. */
    predicate Idle() {
      cmd == -1 && content == -1 && padding == -1
    }

    /** Inside a padded stream, as every state the reader can get into is. */
    predicate Busy() {
      match cmd
      case 5 => -1 <= content <= 0 && -1 <= padding <= 0
      case 4 => -1 <= content <= 0 && -1 <= padding <= 0 && 0 <= current < 256
      case 3 => 0 <= content < 0x1_0000 && content % 256 == 0 && -1 <= padding <= 0 && 0 <= current < 256
      case 2 => 0 <= content < 0x1_0000 && -1 <= padding <= 0 && 0 <= current < 256
      case 1 => 0 <= content < 0x1_0000 && 0 <= padding < 0x1_0000 && padding % 256 == 0 && 0 <= current < 256
      case 0 => 0 <= content < 0x1_0000 && 0 <= padding < 0x1_0000 && content + padding > 0 && 0 <= current < 256
      case _ => false
    }

    predicate Reachable() {
      Idle() || Busy()
    }

    /** The state once the header, the content and the padding of a block are all used up. */
    function Settle(): Reader {
      if cmd <= 0 && content <= 0 && padding <= 0 then
        if current == 0 then this.(cmd := 5) else this.(cmd := -1, content := -1, padding := -1)
      else this
    }

    /** Consume one header byte. */
    function Header(b: byte): Reader
      requires cmd > 0
    {
      var s := match cmd
               case 5 => this.(current := b)
               case 4 => this.(content := 256 * (b as int))
               case 3 => if content < 0 then this else this.(content := BitOr(content, b))
               case 2 => this.(padding := 256 * (b as int))
               case 1 => if padding < 0 then this else this.(padding := BitOr(padding, b))
               case _ => this;
      s.(cmd := cmd - 1)
    }
  }

  const INITIAL := Reader(-1, -1, -1, 0)

  datatype Result = Result(state: Reader, out: Bytes) {
    /** This result with output already produced before it. */
    function After(before: Bytes): Result {
      Result(state, before + out)
    }

    lemma AfterAfter(a: Bytes, b: Bytes)
      ensures After(b).After(a) == After(a + b)
    {
    }
  }

  /** One byte of a padded stream. */
  function Step(s: Reader, b: byte): (r: Result)
    requires s.Busy()
    ensures r.state.Reachable()
  {
    if s.cmd > 0 then
      HeaderKeepsBusy(s, b);
      Result(s.Header(b).Settle(), [])
    else if s.content > 0 then
      Result(s.(content := s.content - 1).Settle(), [b])
    else
      Result(s.(padding := s.padding - 1).Settle(), [])
  }

  lemma HeaderKeepsBusy(s: Reader, b: byte)
    requires s.Busy() && s.cmd > 0
    ensures s.Header(b).Settle().Reachable()
    ensures s.cmd == 3 ==> s.Header(b).content == s.content + b
    ensures s.cmd == 1 ==> s.Header(b).padding == s.padding + b
  {
    if s.cmd == 3 {
      OrLowByte(s.content / 256, b);
    } else if s.cmd == 1 {
      OrLowByte(s.padding / 256, b);
    }
  }

  /** A run of bytes; what follows the terminating block is passed through. */
  function Run(s: Reader, data: Bytes): (r: Result)
    requires s.Reachable()
    ensures r.state.Reachable()
    ensures |r.out| <= |data|
    decreases |data|
  {
    if s.Idle() then Result(s, data)
    else if data == [] then Result(s, [])
    else
      var first := Step(s, data[0]);
      Run(first.state, data[1..]).After(first.out)
  }

  /** Does this buffer open a padded stream when the reader is idle? */
  predicate Opens(uuid: Bytes, data: Bytes) {
    |data| >= 21 && uuid == data[..16]
  }

  /** One call of the reader on one buffer. */
  function Feed(uuid: Bytes, s: Reader, data: Bytes): (r: Result)
    requires s.Reachable()
    ensures r.state.Reachable()
    ensures |r.out| <= |data|
    ensures s.Idle() && Opens(uuid, data) ==> |r.out| <= |data| - 16
  {
    if s.Idle() then
      if Opens(uuid, data) then Run(s.(cmd := 5), data[16..]) else Result(s, data)
    else Run(s, data)
  }

  /** An idle reader takes a buffer for the start of a stream from 21 bytes on, and passes any other. */
  lemma TakenFrom21(uuid: Bytes, s: Reader, data: Bytes)
    requires s.Idle() && |uuid| == 16
    ensures |data| < 21 || data[..16] != uuid ==> Feed(uuid, s, data) == Result(s, data)
    ensures |data| >= 21 && data[..16] == uuid ==> |Feed(uuid, s, data).out| <= |data| - 16
  {
  }

  function FeedAll(uuid: Bytes, s: Reader, bufs: seq<Bytes>): (r: Result)
    requires s.Reachable()
    ensures r.state.Reachable()
    ensures |r.out| <= |Flatten(bufs)|
    decreases |bufs|
  {
    if bufs == [] then Result(s, [])
    else
      var first := Feed(uuid, s, bufs[0]);
      FeedAll(uuid, first.state, bufs[1..]).After(first.out)
  }

  lemma RunNothing(s: Reader)
    requires s.Reachable()
    ensures Run(s, []) == Result(s, [])
  {
  }

  lemma RunIdle(s: Reader, data: Bytes)
    requires s.Idle()
    ensures Run(s, data) == Result(s, data)
  {
  }

  // ----- fragmentation

  lemma {:induction false} RunAppend(s: Reader, a: Bytes, b: Bytes)
    requires s.Reachable()
    ensures var r := Run(s, a);
            Run(s, a + b) == Run(r.state, b).After(r.out)
    decreases |a|
  {
    if s.Idle() {
    } else if a == [] {
      assert a + b == b;
    } else {
      assert (a + b)[0] == a[0] && (a + b)[1..] == a[1..] + b;
      var first := Step(s, a[0]);
      var r := Run(first.state, a[1..]);
      RunAppend(first.state, a[1..], b);
      Run(r.state, b).AfterAfter(first.out, r.out);
    }
  }

  /** No buffer that arrives while the reader is idle opens a second padded stream. */
  predicate NoRestart(uuid: Bytes, s: Reader, bufs: seq<Bytes>)
    requires s.Reachable()
    decreases bufs
  {
    bufs == [] ||
    (!(s.Idle() && Opens(uuid, bufs[0])) && NoRestart(uuid, Feed(uuid, s, bufs[0]).state, bufs[1..]))
  }

  /** Feeding pieces equals running over their concatenation exactly when no piece restarts the
      reader; otherwise bytes are lost. */
  lemma {:induction false} PiecesAreWhole(uuid: Bytes, s: Reader, bufs: seq<Bytes>)
    requires s.Reachable()
    ensures NoRestart(uuid, s, bufs) ==> FeedAll(uuid, s, bufs) == Run(s, Flatten(bufs))
    ensures !NoRestart(uuid, s, bufs) ==> |FeedAll(uuid, s, bufs).out| < |Run(s, Flatten(bufs)).out|
    decreases |bufs|
  {
    if bufs != [] {
      var first := Feed(uuid, s, bufs[0]);
      RunAppend(s, bufs[0], Flatten(bufs[1..]));
      if s.Idle() && Opens(uuid, bufs[0]) {
        assert |FeedAll(uuid, first.state, bufs[1..]).out| <= |Flatten(bufs[1..])|;
      } else {
        assert first == Run(s, bufs[0]);
        PiecesAreWhole(uuid, first.state, bufs[1..]);
      }
    }
  }

  /** Once the first buffer opens the stream, how the rest is cut does not matter: the pieces read
      as the whole stream does if and only if no later buffer restarts the idle reader. */
  lemma FragmentationIndependence(uuid: Bytes, s: Reader, first: Bytes, rest: seq<Bytes>)
    requires s.Idle() && Opens(uuid, first)
    ensures NoRestart(uuid, Feed(uuid, s, first).state, rest)
       <==> FeedAll(uuid, s, [first] + rest).out == Feed(uuid, s, first + Flatten(rest)).out
    ensures NoRestart(uuid, Feed(uuid, s, first).state, rest)
        ==> FeedAll(uuid, s, [first] + rest) == Feed(uuid, s, first + Flatten(rest))
  {
    var whole := first + Flatten(rest);
    assert whole[..16] == first[..16];
    assert whole[16..] == first[16..] + Flatten(rest);
    RunAppend(s.(cmd := 5), first[16..], Flatten(rest));
    PiecesAreWhole(uuid, Feed(uuid, s, first).state, rest);
    assert ([first] + rest)[1..] == rest;
  }

  // ----- blocks

  datatype Block = Block(command: byte, content: Bytes, padding: Bytes) {
    predicate Fits() {
      |content| < 0x1_0000 && |padding| < 0x1_0000
    }

    function Encode(): Bytes
      requires Fits()
    {
      [command] + PutU16(|content|) + PutU16(|padding|) + content + padding
    }
  }

  /** Command, length of the content, length of the padding, both big-endian, content and padding. */
  lemma EncodedBytes()
    ensures Block(2, [65], [0, 0, 0]).Encode() == [2, 0, 1, 0, 3, 65, 0, 0, 0]
  {
  }

  predicate AllFit(blocks: seq<Block>) {
    forall i :: 0 <= i < |blocks| ==> blocks[i].Fits()
  }

  function EncodeAll(blocks: seq<Block>): Bytes
    requires AllFit(blocks)
  {
    if blocks == [] then [] else blocks[0].Encode() + EncodeAll(blocks[1..])
  }

  function Payload(blocks: seq<Block>): Bytes {
    if blocks == [] then [] else blocks[0].content + Payload(blocks[1..])
  }

  /** Consuming `k` content bytes at once, as the source's loop does. */
  lemma {:induction false} RunContent(s: Reader, data: Bytes, k: nat)
    requires s.Busy() && s.cmd <= 0 && 0 < k <= s.content && k <= |data|
    ensures var s' := s.(content := s.content - k).Settle();
            s'.Reachable() && Run(s, data) == Run(s', data[k..]).After(data[..k])
    decreases k
  {
    var s1 := s.(content := s.content - 1);
    assert Step(s, data[0]) == Result(s1.Settle(), [data[0]]);
    if k == 1 {
      assert data[..1] == [data[0]];
    } else {
      assert s1.Settle() == s1;
      RunContent(s1, data[1..], k - 1);
      var s' := s.(content := s.content - k).Settle();
      assert data[1..][k - 1..] == data[k..];
      assert data[..k] == [data[0]] + data[1..][..k - 1];
      Run(s', data[k..]).AfterAfter([data[0]], data[1..][..k - 1]);
    }
  }

  /** Skipping `k` padding bytes at once. */
  lemma {:induction false} RunPadding(s: Reader, data: Bytes, k: nat)
    requires s.Busy() && s.cmd <= 0 && s.content == 0 && 0 < k <= s.padding && k <= |data|
    ensures var s' := s.(padding := s.padding - k).Settle();
            s'.Reachable() && Run(s, data) == Run(s', data[k..])
    decreases k
  {
    var s1 := s.(padding := s.padding - 1);
    assert Step(s, data[0]) == Result(s1.Settle(), []);
    if k > 1 {
      assert s1.Settle() == s1;
      RunPadding(s1, data[1..], k - 1);
      assert data[1..][k - 1..] == data[k..];
    }
  }

  /** Five header bytes announce the block's command and lengths. */
  lemma RunHeader(s: Reader, b: Block, rest: Bytes)
    requires s.Busy() && s.cmd == 5 && b.Fits()
    ensures var s' := Reader(0, |b.content|, |b.padding|, b.command).Settle();
            s'.Reachable()
            && Run(s, [b.command] + PutU16(|b.content|) + PutU16(|b.padding|) + rest) == Run(s', rest)
  {
    hide Run;
    var c, p := PutU16(|b.content|), PutU16(|b.padding|);
    var h := [b.command] + c + p;
    var s1 := s.(cmd := 4, current := b.command);
    var s2 := s1.(cmd := 3, content := 256 * (c[0] as int));
    var s3 := s2.(cmd := 2, content := |b.content|);
    var s4 := s3.(cmd := 1, padding := 256 * (p[0] as int));
    var s5 := s4.(cmd := 0, padding := |b.padding|).Settle();
    assert Step(s, h[0]) == Result(s1, []);
    assert Step(s1, h[1]) == Result(s2, []);
    assert Step(s2, h[2]) == Result(s3, []) by {
      HeaderKeepsBusy(s2, c[1]);
    }
    assert Step(s3, h[3]) == Result(s4, []);
    assert Step(s4, h[4]) == Result(s5, []) by {
      HeaderKeepsBusy(s4, p[1]);
    }
    RunFive(s, s1, s2, s3, s4, s5, h, rest);
  }

  lemma RunFive(s: Reader, s1: Reader, s2: Reader, s3: Reader, s4: Reader, s5: Reader, h: Bytes, rest: Bytes)
    requires s.Busy() && s1.Busy() && s2.Busy() && s3.Busy() && s4.Busy() && s5.Reachable() && |h| == 5
    requires Step(s, h[0]) == Result(s1, []) && Step(s1, h[1]) == Result(s2, [])
    requires Step(s2, h[2]) == Result(s3, []) && Step(s3, h[3]) == Result(s4, [])
    requires Step(s4, h[4]) == Result(s5, [])
    ensures Run(s, h + rest) == Run(s5, rest)
  {
    hide Run, Step;
    RunQuiet(s, h + rest, s1);
    assert (h + rest)[1..] == h[1..] + rest;
    RunQuiet(s1, h[1..] + rest, s2);
    assert (h[1..] + rest)[1..] == h[2..] + rest;
    RunQuiet(s2, h[2..] + rest, s3);
    assert (h[2..] + rest)[1..] == h[3..] + rest;
    RunQuiet(s3, h[3..] + rest, s4);
    assert (h[3..] + rest)[1..] == h[4..] + rest;
    RunQuiet(s4, h[4..] + rest, s5);
    assert (h[4..] + rest)[1..] == rest;
  }

  lemma RunQuiet(s: Reader, data: Bytes, s': Reader)
    requires s.Busy() && data != [] && Step(s, data[0]) == Result(s', [])
    ensures Run(s, data) == Run(s', data[1..])
  {
  }

  /** A block gives its content, and the reader then expects the next header or is idle. */
  lemma RunBlock(s: Reader, b: Block, rest: Bytes)
    requires s.Busy() && s.cmd == 5 && b.Fits()
    ensures var s' := AfterBlock(b.command);
            Run(s, b.Encode() + rest) == Run(s', rest).After(b.content)
  {
    hide Run;
    var s0 := Reader(0, |b.content|, |b.padding|, b.command);
    var tail := b.padding + rest;
    var body := b.content + tail;
    assert b.Encode() + rest == [b.command] + PutU16(|b.content|) + PutU16(|b.padding|) + body;
    RunHeader(s, b, body);
    if |b.content| > 0 {
      RunContent(s0, body, |b.content|);
      assert body[|b.content|..] == tail && body[..|b.content|] == b.content;
    } else {
      assert body == tail;
    }
    if |b.padding| > 0 {
      RunPadding(s0.(content := 0), tail, |b.padding|);
      assert tail[|b.padding|..] == rest;
    } else {
      assert tail == rest;
    }
  }

  function AfterBlock(command: byte): (s: Reader)
    ensures s.Reachable()
  {
    if command == CONTINUE then Reader(5, 0, 0, 0) else Reader(-1, -1, -1, command)
  }

  lemma {:induction false} RunContinues(s: Reader, blocks: seq<Block>, rest: Bytes)
    requires s.Busy() && s.cmd == 5 && AllFit(blocks)
    requires forall i :: 0 <= i < |blocks| ==> blocks[i].command == CONTINUE
    ensures var s' := if blocks == [] then s else AfterBlock(CONTINUE);
            Run(s, EncodeAll(blocks) + rest) == Run(s', rest).After(Payload(blocks))
    decreases |blocks|
  {
    if blocks == [] {
      assert EncodeAll(blocks) + rest == rest;
    } else {
      var more := EncodeAll(blocks[1..]) + rest;
      assert EncodeAll(blocks) + rest == blocks[0].Encode() + more;
      RunBlock(s, blocks[0], more);
      RunContinues(AfterBlock(CONTINUE), blocks[1..], rest);
      Run(AfterBlock(CONTINUE), rest).AfterAfter(blocks[0].content, Payload(blocks[1..]));
    }
  }

  /** The bytes of a padded stream: the identifier, continuing blocks, one terminating block, raw data. */
  function Stream(uuid: Bytes, blocks: seq<Block>, last: Block, tail: Bytes): Bytes
    requires AllFit(blocks) && last.Fits()
  {
    uuid + (EncodeAll(blocks) + (last.Encode() + tail))
  }

  /** A whole stream, in one piece, reads as its contents followed by the raw tail. */
  lemma WholeStream(uuid: Bytes, blocks: seq<Block>, last: Block, tail: Bytes)
    requires |uuid| == 16 && AllFit(blocks) && last.Fits() && last.command != CONTINUE
    requires forall i :: 0 <= i < |blocks| ==> blocks[i].command == CONTINUE
    ensures Feed(uuid, INITIAL, Stream(uuid, blocks, last, tail))
         == Result(AfterBlock(last.command), Payload(blocks) + last.content + tail)
  {
    var end := last.Encode() + tail;
    var body := EncodeAll(blocks) + end;
    assert |last.Encode()| >= 5;
    OpensStream(uuid, body);
    BodyOfStream(blocks, last, tail);
  }

  lemma OpensStream(uuid: Bytes, body: Bytes)
    requires |uuid| == 16 && |body| >= 5
    ensures Opens(uuid, uuid + body) && (uuid + body)[16..] == body
  {
  }

  lemma BodyOfStream(blocks: seq<Block>, last: Block, tail: Bytes)
    requires AllFit(blocks) && last.Fits() && last.command != CONTINUE
    requires forall i :: 0 <= i < |blocks| ==> blocks[i].command == CONTINUE
    ensures Run(INITIAL.(cmd := 5), EncodeAll(blocks) + (last.Encode() + tail))
         == Result(AfterBlock(last.command), Payload(blocks) + last.content + tail)
  {
    var s := INITIAL.(cmd := 5);
    RunContinues(s, blocks, last.Encode() + tail);
    RunBlock(if blocks == [] then s else AfterBlock(CONTINUE), last, tail);
    Run(AfterBlock(last.command), tail).AfterAfter(Payload(blocks), last.content);
  }

  /** The round trip: cut the stream anywhere, the first buffer holding the identifier and a whole
      header.  The reader recovers the contents and the tail if and only if none of the buffers
      that arrive after the terminating block starts with the identifier again. */
  lemma RoundTrip(uuid: Bytes, blocks: seq<Block>, last: Block, tail: Bytes, bufs: seq<Bytes>)
    requires |uuid| == 16 && AllFit(blocks) && last.Fits() && last.command != CONTINUE
    requires forall i :: 0 <= i < |blocks| ==> blocks[i].command == CONTINUE
    requires bufs != [] && |bufs[0]| >= 21 && Flatten(bufs) == Stream(uuid, blocks, last, tail)
    ensures NoRestart(uuid, Feed(uuid, INITIAL, bufs[0]).state, bufs[1..])
       <==> FeedAll(uuid, INITIAL, bufs).out == Payload(blocks) + last.content + tail
  {
    hide Run;
    WholeStream(uuid, blocks, last, tail);
    assert bufs[0][..16] == Flatten(bufs)[..16] == uuid;
    FragmentationIndependence(uuid, INITIAL, bufs[0], bufs[1..]);
    assert [bufs[0]] + bufs[1..] == bufs;
  }
}
