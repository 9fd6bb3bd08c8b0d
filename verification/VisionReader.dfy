/** The connection state Vision keeps, the unpadding loop, and the reader that gates it. */
module VisionRead {
  import opened Octets
  import opened Buffers
  import opened VisionCodec
  import opened VisionGate
  import opened TlsFilter

  /** `InboundState` / `OutboundState`: the reader's and the writer's state of one link. */
  class LinkState {
    var withinPaddingBuffers: bool
    var readerDirectCopy: bool
    var remainingCommand: int
    var remainingContent: int
    var remainingPadding: int
    var currentCommand: int
    var isPadding: bool
    var writerDirectCopy: bool

    constructor ()
      ensures Reader() == INITIAL
      ensures withinPaddingBuffers && isPadding && !readerDirectCopy && !writerDirectCopy
    {
      withinPaddingBuffers, readerDirectCopy := true, false;
      remainingCommand, remainingContent, remainingPadding, currentCommand := -1, -1, -1, 0;
      isPadding, writerDirectCopy := true, false;
    }

    /** The four parsing fields as a value. */
    ghost function Reader(): Reader
      reads `remainingCommand, `remainingContent, `remainingPadding, `currentCommand
    {
      VisionCodec.Reader(remainingCommand, remainingContent, remainingPadding, currentCommand)
    }

    /** The five-way switch on the header byte. */
    method ConsumeHeader(octet: byte)
      requires Reader().Busy() && remainingCommand > 0
      modifies `remainingCommand, `remainingContent, `remainingPadding, `currentCommand
      ensures Reader() == old(Reader()).Header(octet)
    {
      match remainingCommand {
        case 5 => currentCommand := octet;
        case 4 => remainingContent := 256 * (octet as int);
        case 3 => remainingContent := BitOr(remainingContent, octet);
        case 2 => remainingPadding := 256 * (octet as int);
        case 1 => remainingPadding := BitOr(remainingPadding, octet);
      }
      remainingCommand := remainingCommand - 1;
    }

    /** At the end of a block: expect another one, or go back to the initial state. */
    method EndOfBlock() returns (terminated: bool)
      modifies `remainingCommand, `remainingContent, `remainingPadding
      ensures Reader() == old(Reader()).Settle()
      ensures terminated <==>
              old(Reader().cmd <= 0 && Reader().content <= 0 && Reader().padding <= 0 && Reader().current != 0)
    {
      terminated := false;
      if remainingCommand <= 0 && remainingContent <= 0 && remainingPadding <= 0 {
        if currentCommand == 0 {
          remainingCommand := 5;
        } else {
          remainingCommand, remainingContent, remainingPadding := -1, -1, -1;
          terminated := true;
        }
      }
    }
  }

  class TrafficState {
    const userUUID: Bytes
    const inbound: LinkState
    const outbound: LinkState
    var numberOfPacketToFilter: int
    var enableXtls: bool
    var isTLS12orAbove: bool
    var isTLS: bool
    var cipher: uint16
    var remainingServerHello: int

    constructor (uuid: Bytes)
      ensures userUUID == uuid && fresh(inbound) && fresh(outbound) && inbound != outbound
      ensures inbound.Reader() == INITIAL && outbound.Reader() == INITIAL
      ensures inbound.isPadding && !inbound.writerDirectCopy && outbound.isPadding && !outbound.writerDirectCopy
      ensures inbound.withinPaddingBuffers && outbound.withinPaddingBuffers
      ensures numberOfPacketToFilter == 8 && FlagsConsistent()
    {
      userUUID := uuid;
      inbound := new LinkState();
      outbound := new LinkState();
      numberOfPacketToFilter, enableXtls, isTLS12orAbove, isTLS, cipher := 8, false, false, false, 0;
      remainingServerHello := -1;
    }

    function State(): Flags
      reads `numberOfPacketToFilter, `enableXtls, `isTLS12orAbove, `isTLS, `cipher, `remainingServerHello
    {
      Flags(numberOfPacketToFilter, enableXtls, isTLS12orAbove, isTLS, cipher, remainingServerHello)
    }

    /** Direct copy is only ever enabled after a server hello was seen. */
    ghost predicate FlagsConsistent()
      reads `numberOfPacketToFilter, `enableXtls, `isTLS12orAbove, `isTLS, `cipher, `remainingServerHello
    {
      State().Consistent()
    }

    /** The two bytes at an offset; past the contents the source sees whatever the storage holds. */
    method CipherAt(b: Bytes, at: nat) returns (c: uint16)
      ensures at + 2 <= |b| ==> c == GetU16(b[at..at + 2])
    {
      if at + 2 <= |b| {
        c := GetU16(b[at..at + 2]);
      } else {
        c :| true;
      }
    }

    /** The loop body of `XtlsFilterTls`: look at the start of one packet for a TLS hello. */
    method FilterPacket(b: Bytes) returns (stop: bool, ghost past: uint16)
      modifies this
      ensures State() == Inspect(old(State()), b, past) && stop == Stops(old(State()), b)
    {
      stop := false;
      past := 0;
      numberOfPacketToFilter := numberOfPacketToFilter - 1;
      if |b| >= 6 {
        if IsServerHello(b) {
          remainingServerHello := GetU16(b[3..5]) as int + 5;
          isTLS12orAbove, isTLS := true, true;
          if |b| >= 79 && remainingServerHello >= 79 {
            cipher := CipherAt(b, 44 + b[43] as int);
            past := cipher;
          }
        } else if IsClientHello(b) {
          isTLS := true;
        }
      }
      if remainingServerHello > 0 {
        var end := Min(remainingServerHello, |b|);
        remainingServerHello := remainingServerHello - |b|;
        if Contains(b[..end], TLS13_SUPPORTED_VERSIONS) {
          if cipher in TLS13_CIPHER_SUITES && cipher != TLS13_CCM8 {
            enableXtls := true;
          }
          numberOfPacketToFilter := 0;
          stop := true;
        } else if remainingServerHello <= 0 {
          numberOfPacketToFilter := 0;
          stop := true;
        }
      }
    }

    /** `XtlsFilterTls`: every packet up to the first that stops has its effect. */
    method XtlsFilterTls(mb: seq<Packet>) returns (ghost pasts: seq<uint16>)
      modifies this
      ensures |pasts| == |mb| && State() == Scan(old(State()), mb, pasts).flags
      ensures old(FlagsConsistent()) ==> FlagsConsistent()
      ensures old(numberOfPacketToFilter) <= 0 ==> numberOfPacketToFilter <= 0
    {
      hide Inspect, Stops, Scan;
      ghost var f := State();
      pasts := [];
      NothingScanned(f);
      for i := 0 to |mb|
        invariant |pasts| == i && Scan(f, mb[..i], pasts) == Scanned(State(), false)
      {
        assert mb[..i + 1] == mb[..i] + [mb[i]];
        if mb[i].Data? {
          var stop, past := FilterPacket(mb[i].bytes);
          ScanSnoc(f, mb[..i], pasts, mb[i], past);
          pasts := pasts + [past];
          if stop {
            ghost var all := pasts + seq(|mb| - i - 1, _ => 0);
            assert all[..i + 1] == pasts;
            StoppedStays(f, mb, i + 1, all);
            pasts := all;
            ScanExactly(f, mb, pasts);
            return;
          }
        } else {
          ScanSnoc(f, mb[..i], pasts, mb[i], 0);
          pasts := pasts + [0];
        }
      }
      assert mb[..|mb|] == mb;
      ScanExactly(f, mb, pasts);
    }

    /** The link whose fields a reader of the given direction uses. */
    function ReaderLink(isUplink: bool): LinkState {
      if isUplink then inbound else outbound
    }

    /** The link whose fields a writer of the given direction uses. */
    function WriterLink(isUplink: bool): LinkState {
      if isUplink then outbound else inbound
    }
  }

  /** What a regular buffer keeps of an output. */
  function Kept(out: Bytes): Bytes {
    out[..Min(|out|, SIZE)]
  }

  lemma KeptAppend(a: Bytes, b: Bytes)
    ensures Kept(a) + b[..Min(|b|, SIZE - |Kept(a)|)] == Kept(a + b)
  {
  }

  /** The output buffer of the loop: regular, and holding what fits of `out`. */
  ghost predicate Holds(nb: Buffer, out: Bytes)
    reads nb, nb.v
  {
    nb.Valid() && nb.start == 0 && nb.v.Length == SIZE && nb.Contents() == Kept(out)
  }

  method Append(nb: Buffer, data: Bytes, ghost out: Bytes)
    requires Holds(nb, out)
    modifies nb`end, nb.v
    ensures Holds(nb, out + data)
  {
    var _ := nb.Write(data);
    KeptAppend(out, data);
  }

  method MoveContent(b: Buffer, nb: Buffer, d: LinkState, ghost out: Bytes) returns (moved: Bytes)
    requires b.Valid() && b.Len() > 0 && b != nb && b.v != nb.v && Holds(nb, out) && d.remainingContent > 0
    modifies b`start, nb`end, nb.v, d`remainingContent
    ensures b.Valid() && moved != [] && Holds(nb, out + moved) && old(b.Contents()) == moved + b.Contents()
    ensures |moved| <= old(d.remainingContent) && d.remainingContent == old(d.remainingContent) - |moved|
  {
    var n := Min(d.remainingContent, b.Len());
    moved := b.ReadBytes(n);
    Append(nb, moved, out);
    d.remainingContent := d.remainingContent - n;
  }

  method SkipPadding(b: Buffer, d: LinkState) returns (ghost k: nat)
    requires b.Valid() && b.Len() > 0 && d.remainingPadding > 0
    modifies b`start, d`remainingPadding
    ensures b.Valid() && 0 < k <= old(b.Len()) && k <= old(d.remainingPadding) && b.Contents() == old(b.Contents())[k..]
    ensures d.remainingPadding == old(d.remainingPadding) - k
  {
    var n := Min(d.remainingPadding, b.Len());
    b.Advance(n);
    d.remainingPadding := d.remainingPadding - n;
    k := n;
  }

  /** One turn of the unpadding loop: a header byte, a run of content or a run of padding. */
  method UnpadOnce(b: Buffer, nb: Buffer, d: LinkState, ghost out: Bytes) returns (terminated: bool, ghost more: Bytes)
    requires b.Valid() && b.Len() > 0 && b != nb && b.v != nb.v && Holds(nb, out) && d.Reader().Busy()
    modifies b`start, nb`end, nb.v
    modifies d`remainingCommand, d`remainingContent, d`remainingPadding, d`currentCommand
    ensures b.Valid() && b.Len() < old(b.Len()) && Holds(nb, out + more)
    ensures d.Reader().Reachable() && terminated == d.Reader().Idle()
    ensures Run(old(d.Reader()), old(b.Contents())) == Run(d.Reader(), b.Contents()).After(more)
  {
    hide Run;
    more := [];
    ghost var before, data := d.Reader(), b.Contents();
    assert out + [] == out;
    if d.remainingCommand > 0 {
      HeaderByte(before, data);
      var octet := b.ReadByte();
      d.ConsumeHeader(octet);
    } else if d.remainingContent > 0 {
      var moved := MoveContent(b, nb, d, out);
      more := moved;
      ContentMoved(before, more, b.Contents());
    } else {
      ghost var k := SkipPadding(b, d);
      PaddingSkipped(before, data, k);
    }
    ghost var rest := b.Contents();
    assert d.Reader().Settle().Reachable() && Run(before, data) == Run(d.Reader().Settle(), rest).After(more);
    terminated := d.EndOfBlock();
    assert b.Contents() == rest;
  }

  lemma ContentMoved(s: Reader, moved: Bytes, rest: Bytes)
    requires s.Busy() && s.cmd <= 0 && 0 < |moved| <= s.content
    ensures var s' := s.(content := s.content - |moved|).Settle();
            s'.Reachable() && Run(s, moved + rest) == Run(s', rest).After(moved)
  {
    hide Run;
    Sides(moved, rest);
    RunContent(s, moved + rest, |moved|);
  }

  lemma Sides(a: Bytes, b: Bytes)
    ensures (a + b)[|a|..] == b && (a + b)[..|a|] == a
  {
  }

  lemma PaddingSkipped(s: Reader, data: Bytes, k: nat)
    requires s.Busy() && s.cmd <= 0 && s.content == 0 && 0 < k <= s.padding && k <= |data|
    ensures var s' := s.(padding := s.padding - k).Settle();
            s'.Reachable() && Run(s, data) == Run(s', data[k..]).After([])
  {
    RunPadding(s, data, k);
  }

  /** The loop of `XtlsUnpadding` on an open stream. */
  method UnpadLoop(b: Buffer, d: LinkState) returns (nb: Buffer)
    requires b.Valid() && d.Reader().Busy()
    modifies b`start
    modifies d`remainingCommand, d`remainingContent, d`remainingPadding, d`currentCommand
    ensures fresh(nb) && fresh(nb.v)
    ensures d.Reader() == Run(old(d.Reader()), old(b.Contents())).state
    ensures Holds(nb, Run(old(d.Reader()), old(b.Contents())).out)
  {
    hide Run;
    ghost var total := Run(d.Reader(), b.Contents());
    ghost var out: Bytes := [];
    nb := new Buffer();
    assert total.After([]) == total;
    while b.Len() > 0
      invariant b.Valid() && fresh(nb) && fresh(nb.v) && Holds(nb, out)
      invariant d.Reader().Busy()
      invariant Run(d.Reader(), b.Contents()).After(out) == total
      decreases b.Len()
    {
      var terminated, more := UnpadOnce(b, nb, d, out);
      Run(d.Reader(), b.Contents()).AfterAfter(out, more);
      out := out + more;
      if terminated {
        RunIdle(d.Reader(), b.Contents());
        Append(nb, b.v[b.start..b.end], out);
        return;
      }
    }
    RunNothing(d.Reader());
    assert b.Contents() == [] && out + [] == out;
  }

  /** `XtlsUnpadding`: strips the padding structure from one buffer.  The loop moves whole runs of
      content and padding; its effect is that of the byte-by-byte reader. */
  method XtlsUnpadding(b: Buffer, s: TrafficState, isUplink: bool) returns (nb: Buffer)
    requires b.Valid()
    requires s.ReaderLink(isUplink).Reader().Reachable()
    modifies b
    modifies s.ReaderLink(isUplink)`remainingCommand, s.ReaderLink(isUplink)`remainingContent
    modifies s.ReaderLink(isUplink)`remainingPadding, s.ReaderLink(isUplink)`currentCommand
    ensures nb.Valid() && (nb == b || fresh(nb)) && (nb.v == old(b.v) || fresh(nb.v))
    ensures var r := Feed(s.userUUID, old(s.ReaderLink(isUplink).Reader()), old(b.Contents()));
            s.ReaderLink(isUplink).Reader() == r.state &&
            nb.Contents() == if nb == b then r.out else Kept(r.out)
  {
    var d := s.ReaderLink(isUplink);
    assert b.Len() >= 21 ==> b.Contents()[..16] == b.v[b.start..b.start + 16];
    if d.remainingCommand == -1 && d.remainingContent == -1 && d.remainingPadding == -1 {
      if b.Len() >= 21 && s.userUUID == b.v[b.start..b.start + 16] {
        b.Advance(16);
        d.remainingCommand := 5;
      } else {
        return b;
      }
    }
    nb := UnpadLoop(b, d);
    b.Release();
  }

  lemma HeaderByte(s: Reader, data: Bytes)
    requires s.Busy() && s.cmd > 0 && data != []
    ensures s.Header(data[0]).Settle().Reachable()
    ensures Run(s, data) == Run(s.Header(data[0]).Settle(), data[1..]).After([])
  {
    HeaderKeepsBusy(s, data[0]);
    RunQuiet(s, data, s.Header(data[0]).Settle());
  }

  /** `VisionReader`: unpads a batch while the gate is open, passes it through otherwise. */
  class VisionReader {
    const trafficState: TrafficState
    const isUplink: bool

    constructor (state: TrafficState, isUplink: bool)
      ensures trafficState == state && this.isUplink == isUplink
    {
      trafficState := state;
      this.isUplink := isUplink;
    }

    function Link(): LinkState {
      trafficState.ReaderLink(isUplink)
    }

    method UnpadAll(batch: seq<Bytes>) returns (out: seq<Bytes>)
      requires forall i :: 0 <= i < |batch| ==> |batch[i]| <= SIZE
      requires Link().Reader().Reachable()
      modifies Link()`remainingCommand, Link()`remainingContent, Link()`remainingPadding, Link()`currentCommand
      ensures FeedAll(trafficState.userUUID, old(Link().Reader()), batch) == Result(Link().Reader(), Flatten(out))
      ensures out == Outputs(trafficState.userUUID, old(Link().Reader()), batch)
    {
      hide Run, FeedAll, Feed, Outputs, Flatten;
      out := [];
      assert batch[..0] == [];
      NoOutputs(trafficState.userUUID, Link().Reader());
      ghost var start := Link().Reader();
      for i := 0 to |batch|
        invariant Link().Reader().Reachable()
        invariant FeedAll(trafficState.userUUID, start, batch[..i]) == Result(Link().Reader(), Flatten(out))
        invariant out == Outputs(trafficState.userUUID, start, batch[..i])
      {
        ghost var before := Link().Reader();
        var b := new Buffer.FromBytes(batch[i]);
        var nb := XtlsUnpadding(b, trafficState, isUplink);
        ghost var r := Feed(trafficState.userUUID, before, batch[i]);
        assert nb.Contents() == r.out;
        assert batch[..i + 1] == batch[..i] + [batch[i]];
        OneOutput(trafficState.userUUID, start, batch[..i], batch[i], out);
        if nb.Len() > 0 {
          out := out + [nb.v[nb.start..nb.end]];
        }
      }
      assert batch[..|batch|] == batch;
    }

    /** One read.  `batch` is what the underlying reader delivered. */
    method ReadMultiBuffer(batch: seq<Bytes>) returns (out: seq<Bytes>, ghost pasts: seq<uint16>)
      requires forall i :: 0 <= i < |batch| ==> |batch[i]| <= SIZE
      requires Link().Reader().Reachable() && trafficState.FlagsConsistent()
      modifies trafficState
      modifies Link()`remainingCommand, Link()`remainingContent, Link()`remainingPadding, Link()`currentCommand
      modifies Link()`withinPaddingBuffers, Link()`readerDirectCopy
      ensures trafficState.FlagsConsistent()
      ensures ReadBatch(trafficState.userUUID, old(Gate(Link().Reader(), Link().withinPaddingBuffers)),
                        old(trafficState.numberOfPacketToFilter) > 0, batch)
           == Outcome(Gate(Link().Reader(), Link().withinPaddingBuffers), Flatten(out))
      ensures Link().readerDirectCopy == (old(Link().readerDirectCopy) ||
                (!IsEmpty(batch) && old(Link().withinPaddingBuffers || trafficState.numberOfPacketToFilter > 0) &&
                 DirectSeen(Link().Reader())))
      ensures old(trafficState.numberOfPacketToFilter) <= 0 ==> trafficState.numberOfPacketToFilter <= 0
      ensures out == if !IsEmpty(batch) && old(Link().withinPaddingBuffers || trafficState.numberOfPacketToFilter > 0)
                     then Outputs(trafficState.userUUID, old(Link().Reader()), batch) else batch
      ensures |pasts| == |out|
      ensures trafficState.State() ==
              if !IsEmpty(batch) && old(trafficState.numberOfPacketToFilter) > 0
              then Scan(old(trafficState.State()), Packets(out), pasts).flags else old(trafficState.State())
    {
      hide Run, FeedAll, Scan, Outputs;
      EmptyIffNoBytes(batch);
      out := batch;
      pasts := [];
      if !IsEmpty(batch) {
        var d := Link();
        if d.withinPaddingBuffers || trafficState.numberOfPacketToFilter > 0 {
          out := UnpadAll(batch);
          if d.remainingContent > 0 || d.remainingPadding > 0 || d.currentCommand == 0 {
            d.withinPaddingBuffers := true;
          } else if d.currentCommand == 1 {
            d.withinPaddingBuffers := false;
          } else if d.currentCommand == 2 {
            d.withinPaddingBuffers := false;
            d.readerDirectCopy := true;
          }
        }
        if trafficState.numberOfPacketToFilter > 0 {
          pasts := trafficState.XtlsFilterTls(Packets(out));
          return;
        }
      }
      pasts := seq(|out|, _ => 0);
    }

    /** A run of reads.  Between two of them the writer of the other direction may use up the packets left
        for inspection. */
    method ReadBatches(batches: seq<seq<Bytes>>) returns (out: seq<Bytes>, ghost seen: seq<Batch>)
      requires forall i, j :: 0 <= i < |batches| && 0 <= j < |batches[i]| ==> |batches[i][j]| <= SIZE
      requires Link().Reader().Reachable() && trafficState.FlagsConsistent()
      modifies trafficState
      modifies Link()`remainingCommand, Link()`remainingContent, Link()`remainingPadding, Link()`currentCommand
      modifies Link()`withinPaddingBuffers, Link()`readerDirectCopy
      ensures |seen| == |batches| && FilteringEnds(seen) && forall i :: 0 <= i < |seen| ==> seen[i].bufs == batches[i]
      ensures var uuid, g := trafficState.userUUID, old(Gate(Link().Reader(), Link().withinPaddingBuffers));
              Flatten(out) == ReadAll(uuid, g, seen)
              && Link().readerDirectCopy == (old(Link().readerDirectCopy) || DirectRun(uuid, g, seen))
    {
      hide Run, FeedAll, ReadBatch, ReadAll, GateAfter, DirectSeen, DirectRun, Scan, Outputs, Packets, Flatten, IsEmpty;
      out, seen := [], [];
      ghost var g := Gate(Link().Reader(), Link().withinPaddingBuffers);
      NothingRead(trafficState.userUUID, g);
      for i := 0 to |batches|
        invariant |seen| == i && forall j :: 0 <= j < i ==> seen[j].bufs == batches[j]
        invariant forall j, k :: 0 <= j < k < i && seen[k].filtering ==> seen[j].filtering
        invariant trafficState.numberOfPacketToFilter > 0 ==> forall j :: 0 <= j < i ==> seen[j].filtering
        invariant trafficState.FlagsConsistent()
        invariant GateAfter(trafficState.userUUID, g, seen) == Gate(Link().Reader(), Link().withinPaddingBuffers)
        invariant Flatten(out) == ReadAll(trafficState.userUUID, g, seen)
        invariant Link().readerDirectCopy == (old(Link().readerDirectCopy) || DirectRun(trafficState.userUUID, g, seen))
      {
        var budget: int :| budget <= trafficState.numberOfPacketToFilter || budget <= 0;
        trafficState.numberOfPacketToFilter := budget;
        ghost var b := Batch(batches[i], budget > 0);
        ReadAllSnoc(trafficState.userUUID, g, seen, b);
        DirectRunSnoc(trafficState.userUUID, g, seen, b);
        var mb, _ := ReadMultiBuffer(batches[i]);
        FlattenConcat(out, mb);
        out, seen := out + mb, seen + [b];
      }
    }
  }

  function Packets(bufs: seq<Bytes>): seq<Packet> {
    seq(|bufs|, i requires 0 <= i < |bufs| => Data(bufs[i]))
  }

  /** What the buffers of a batch leave, one by one and without the empty ones. */
  function Outputs(uuid: Bytes, s: Reader, bufs: seq<Bytes>): seq<Bytes>
    requires s.Reachable()
    decreases |bufs|
  {
    if bufs == [] then []
    else
      var front := bufs[..|bufs| - 1];
      var out := Feed(uuid, FeedAll(uuid, s, front).state, bufs[|bufs| - 1]).out;
      Outputs(uuid, s, front) + if out == [] then [] else [out]
  }

  lemma NoOutputs(uuid: Bytes, s: Reader)
    requires s.Reachable()
    ensures Outputs(uuid, s, []) == [] && FeedAll(uuid, s, []) == Result(s, []) && Flatten([]) == []
  {
  }

  lemma OneOutput(uuid: Bytes, s: Reader, bufs: seq<Bytes>, b: Bytes, out: seq<Bytes>)
    requires s.Reachable() && out == Outputs(uuid, s, bufs) && Flatten(out) == FeedAll(uuid, s, bufs).out
    ensures var r := Feed(uuid, FeedAll(uuid, s, bufs).state, b);
            var out' := if r.out == [] then out else out + [r.out];
            out' == Outputs(uuid, s, bufs + [b]) && FeedAll(uuid, s, bufs + [b]) == Result(r.state, Flatten(out'))
  {
    hide Run, FeedAll, Feed, Flatten;
    var t := FeedAll(uuid, s, bufs).state;
    var r := Feed(uuid, t, b);
    assert (bufs + [b])[..|bufs|] == bufs;
    FeedAllConcat(uuid, s, bufs, [b]);
    FeedOne(uuid, t, b);
    FlattenSnoc(out, r.out);
    assert out + [] == out && Flatten(out) + [] == Flatten(out);
  }

  lemma NothingScanned(f: Flags)
    ensures Scan(f, [], []) == Scanned(f, false)
  {
  }

  lemma NothingRead(uuid: Bytes, g: Gate)
    requires g.reader.Reachable()
    ensures ReadAll(uuid, g, []) == [] && GateAfter(uuid, g, []) == g && Flatten([]) == []
    ensures !DirectRun(uuid, g, [])
  {
  }

  lemma FeedOne(uuid: Bytes, s: Reader, data: Bytes)
    requires s.Reachable()
    ensures FeedAll(uuid, s, [data]) == Feed(uuid, s, data)
  {
  }
}
