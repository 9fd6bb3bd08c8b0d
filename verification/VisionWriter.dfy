/** The Vision writer: reshaping, padding, and the grammar of everything it ever sends. */
module VisionWrite {
  import opened Octets
  import opened Buffers
  import opened VisionCodec
  import opened VisionOffsets
  import opened VisionRead
  import opened TlsFilter

  /** Room every padded block leaves for the identifier and the header. */
  const OVERHEAD := 21

  function Contents(mb: seq<Packet>): Bytes {
    if mb == [] then [] else mb[0].Content() + Contents(mb[1..])
  }

  lemma {:induction false} ContentsConcat(a: seq<Packet>, b: seq<Packet>)
    ensures Contents(a + b) == Contents(a) + Contents(b)
  {
    if a == [] {
      assert a + b == b;
    } else {
      assert (a + b)[1..] == a[1..] + b;
      ContentsConcat(a[1..], b);
    }
  }

  lemma ContentsOne(p: Packet)
    ensures Contents([p]) == p.Content()
  {
  }

  lemma ContentsSplit(mb: seq<Packet>, i: nat)
    requires i <= |mb|
    ensures Contents(mb) == Contents(mb[..i]) + Contents(mb[i..])
  {
    hide Contents;
    assert mb == mb[..i] + mb[i..];
    ContentsConcat(mb[..i], mb[i..]);
  }

  lemma ContentsNext(mb: seq<Packet>, i: nat)
    requires i < |mb|
    ensures Contents(mb[..i + 1]) == Contents(mb[..i]) + mb[i].Content()
  {
    hide Contents;
    assert mb[..i + 1] == mb[..i] + [mb[i]];
    ContentsConcat(mb[..i], [mb[i]]);
    ContentsOne(mb[i]);
  }

  // ----- reshaping

  /** `bytes.LastIndex`, searching down from `i`. */
  function LastIndexFrom(data: Bytes, pattern: Bytes, i: nat): (r: int)
    ensures -1 <= r <= i
    ensures r >= 0 ==> OccursAt(data, pattern, r)
    ensures forall j: nat :: r < j <= i ==> !OccursAt(data, pattern, j)
  {
    if OccursAt(data, pattern, i) then i
    else if i == 0 then -1
    else LastIndexFrom(data, pattern, i - 1)
  }

  /** Where a buffer that is too full is cut: at the last record start, or in the middle. */
  function CutPoint(data: Bytes): (i: nat)
    ensures 21 <= i <= SIZE - OVERHEAD
    ensures i == SIZE / 2 || (OccursAt(data, TLS_APPLICATION_DATA_START, i)
                              && forall j: nat :: i < j <= |data| ==> !OccursAt(data, TLS_APPLICATION_DATA_START, j))
  {
    var i := LastIndexFrom(data, TLS_APPLICATION_DATA_START, |data|);
    if i < 21 || i > SIZE - OVERHEAD then SIZE / 2 else i
  }

  function ReshapeOne(p: Packet): seq<Packet>
    requires |p.Content()| <= SIZE
  {
    if |p.Content()| >= SIZE - OVERHEAD then
      var i := CutPoint(p.bytes);
      [Data(p.bytes[..i]), Data(p.bytes[i..])]
    else [p]
  }

  /** A record of application data starts at `i`, and none later. */
  predicate LastRecord(data: Bytes, i: nat) {
    OccursAt(data, [23, 3, 3], i) && forall j: nat :: i < j <= |data| ==> !OccursAt(data, [23, 3, 3], j)
  }

  /** A buffer of 8171 bytes or more is cut at the start of its last record of application data, if that
      lies between 21 and 8171, and else after 4096 bytes; any other stays whole. */
  lemma CutExactly(p: Packet)
    requires |p.Content()| <= 8192
    ensures |p.Content()| < 8171 ==> ReshapeOne(p) == [p]
    ensures |p.Content()| >= 8171 ==>
              (forall i: nat :: LastRecord(p.bytes, i) && 21 <= i <= 8171 ==>
                ReshapeOne(p) == [Data(p.bytes[..i]), Data(p.bytes[i..])])
              && ((forall i: nat :: LastRecord(p.bytes, i) ==> i < 21 || i > 8171) ==>
                    ReshapeOne(p) == [Data(p.bytes[..4096]), Data(p.bytes[4096..])])
  {
    hide CutPoint, LastRecord;
    if |p.Content()| >= 8171 {
      var cut := CutPoint(p.bytes);
      forall i: nat | LastRecord(p.bytes, i) && 21 <= i <= 8171
        ensures cut == i
      {
        CutAt(p.bytes, i);
      }
      if forall i: nat :: LastRecord(p.bytes, i) ==> i < 21 || i > 8171 {
        CutInTheMiddle(p.bytes);
      }
    }
  }

  lemma CutAt(data: Bytes, i: nat)
    requires LastRecord(data, i) && 21 <= i <= 8171
    ensures CutPoint(data) == i
  {
    hide OccursAt;
    assert TLS_APPLICATION_DATA_START == [23, 3, 3];
    OccursInside(data, i);
  }

  lemma OccursInside(data: Bytes, i: nat)
    requires OccursAt(data, [23, 3, 3], i)
    ensures i <= |data|
  {
  }

  lemma CutInTheMiddle(data: Bytes)
    requires forall i: nat :: LastRecord(data, i) ==> i < 21 || i > 8171
    ensures CutPoint(data) == 4096
  {
    hide OccursAt;
    assert TLS_APPLICATION_DATA_START == [23, 3, 3];
    var i := LastIndexFrom(data, [23, 3, 3], |data|);
    assert i >= 0 ==> LastRecord(data, i);
  }

  /** Every buffer that is too full, in two pieces. */
  function Reshaped(mb: seq<Packet>): seq<Packet>
    requires forall i :: 0 <= i < |mb| ==> |mb[i].Content()| <= SIZE
  {
    if mb == [] then [] else Reshaped(mb[..|mb| - 1]) + ReshapeOne(mb[|mb| - 1])
  }

  lemma {:induction false} NothingToReshape(mb: seq<Packet>)
    requires forall i :: 0 <= i < |mb| ==> |mb[i].Content()| < SIZE - OVERHEAD
    ensures Reshaped(mb) == mb
  {
    if mb != [] {
      NothingToReshape(mb[..|mb| - 1]);
    }
  }

  /** `ReshapeMultiBuffer`: nothing is lost, and every buffer leaves room for the padding structure. */
  method ReshapeMultiBuffer(mb: seq<Packet>) returns (r: seq<Packet>)
    requires forall i :: 0 <= i < |mb| ==> |mb[i].Content()| <= SIZE
    ensures Contents(r) == Contents(mb)
    ensures forall i :: 0 <= i < |r| ==> |r[i].Content()| <= SIZE - OVERHEAD
    ensures (forall i :: 0 <= i < |mb| ==> |mb[i].Content()| < SIZE - OVERHEAD) ==> r == mb
    ensures |mb| <= |r| <= 2 * |mb| && r == Reshaped(mb)
  {
    hide Contents, ReshapeOne, Reshaped;
    var needReshape := 0;
    for i := 0 to |mb|
      invariant 0 <= needReshape <= i
      invariant needReshape == 0 <==> forall k :: 0 <= k < i ==> |mb[k].Content()| < SIZE - OVERHEAD
    {
      if |mb[i].Content()| >= SIZE - OVERHEAD {
        needReshape := needReshape + 1;
      }
    }
    if needReshape == 0 {
      NothingToReshape(mb);
      return mb;
    }
    r := [];
    assert mb[..0] == [];
    NothingReshaped();
    for i := 0 to |mb|
      invariant Contents(r) == Contents(mb[..i])
      invariant forall k :: 0 <= k < |r| ==> |r[k].Content()| <= SIZE - OVERHEAD
      invariant i <= |r| <= 2 * i && r == Reshaped(mb[..i])
    {
      ReshapeOneKeeps(mb[i]);
      ContentsConcat(r, ReshapeOne(mb[i]));
      ContentsNext(mb, i);
      ReshapedNext(mb, i);
      r := r + ReshapeOne(mb[i]);
    }
    assert mb[..|mb|] == mb;
  }

  lemma NothingReshaped()
    ensures Reshaped([]) == [] && Contents([]) == []
  {
  }

  lemma ReshapedNext(mb: seq<Packet>, i: nat)
    requires i < |mb| && forall k :: 0 <= k < |mb| ==> |mb[k].Content()| <= SIZE
    ensures Reshaped(mb[..i + 1]) == Reshaped(mb[..i]) + ReshapeOne(mb[i])
  {
    hide ReshapeOne;
    assert mb[..i + 1][..i] == mb[..i];
  }

  lemma ReshapeOneKeeps(p: Packet)
    requires |p.Content()| <= SIZE
    ensures Contents(ReshapeOne(p)) == p.Content()
    ensures forall q :: q in ReshapeOne(p) ==> |q.Content()| <= SIZE - OVERHEAD
    ensures 1 <= |ReshapeOne(p)| <= 2
  {
    hide Contents, CutPoint, OccursAt;
    if |p.Content()| >= SIZE - OVERHEAD {
      TwoPieces(p.bytes, CutPoint(p.bytes));
    } else {
      ContentsOne(p);
    }
  }

  lemma TwoPieces(data: Bytes, i: nat)
    requires i <= |data|
    ensures Contents([Data(data[..i]), Data(data[i..])]) == data
  {
    hide Contents;
    var a, b := Data(data[..i]), Data(data[i..]);
    assert [a, b] == [a] + [b];
    ContentsConcat([a], [b]);
    ContentsOne(a);
    ContentsOne(b);
  }

  // ----- the grammar of the output

  predicate AllContinue(blocks: seq<Block>) {
    forall i :: 0 <= i < |blocks| ==> blocks[i].command == CONTINUE
  }

  /** Continuing blocks, then one terminating block. */
  predicate Terminated(blocks: seq<Block>) {
    blocks != [] && AllContinue(blocks[..|blocks| - 1])
    && (blocks[|blocks| - 1].command == END || blocks[|blocks| - 1].command == DIRECT)
  }

  lemma ContinueMore(blocks: seq<Block>, b: Block)
    requires AllContinue(blocks)
    ensures b.command == CONTINUE ==> AllContinue(blocks + [b])
    ensures b.command == END || b.command == DIRECT ==> Terminated(blocks + [b])
  {
  }

  /** The identifier once, before the first block. */
  function Wire(uuid: Bytes, blocks: seq<Block>): Bytes
    requires AllFit(blocks)
  {
    if blocks == [] then [] else uuid + EncodeAll(blocks)
  }

  lemma {:induction false} AppendBlock(blocks: seq<Block>, b: Block)
    requires AllFit(blocks) && b.Fits()
    ensures AllFit(blocks + [b])
    ensures EncodeAll(blocks + [b]) == EncodeAll(blocks) + b.Encode()
    ensures Payload(blocks + [b]) == Payload(blocks) + b.content
  {
    hide EncodeAll, Payload;
    if blocks == [] {
      assert blocks + [b] == [b] && [b][1..] == [];
      EncodeNone();
      EncodeStep([b]);
    } else {
      assert (blocks + [b])[1..] == blocks[1..] + [b];
      AppendBlock(blocks[1..], b);
      EncodeStep(blocks);
      EncodeStep(blocks + [b]);
      assert blocks[0].Encode() + (EncodeAll(blocks[1..]) + b.Encode()) == EncodeAll(blocks) + b.Encode();
      assert blocks[0].content + (Payload(blocks[1..]) + b.content) == Payload(blocks) + b.content;
    }
  }

  lemma EncodeStep(blocks: seq<Block>)
    requires AllFit(blocks) && blocks != []
    ensures EncodeAll(blocks) == blocks[0].Encode() + EncodeAll(blocks[1..])
    ensures Payload(blocks) == blocks[0].content + Payload(blocks[1..])
  {
  }

  lemma EncodeNone()
    ensures EncodeAll([]) == [] && Payload([]) == []
  {
  }

  lemma AppendWire(uuid: Bytes, blocks: seq<Block>, b: Block, before: Bytes, wire: Bytes)
    requires AllFit(blocks) && b.Fits() && before == Wire(uuid, blocks)
    requires wire == (if blocks == [] then uuid else []) + b.Encode()
    ensures AllFit(blocks + [b]) && before + wire == Wire(uuid, blocks + [b])
    ensures Payload(blocks + [b]) == Payload(blocks) + b.content
  {
    hide EncodeAll, Payload;
    AppendBlock(blocks, b);
    if blocks == [] {
      EncodeNone();
      assert EncodeAll(blocks) + b.Encode() == b.Encode();
    }
  }

  // ----- the plan of one call

  /** The packet starts with a TLS record of application data, in a connection known to be TLS. */
  predicate AppData(tls: bool, p: Packet) {
    tls && |p.Content()| >= 6 && p.Content()[..3] == TLS_APPLICATION_DATA_START
  }

  lemma AppDataBytes(p: Packet)
    ensures AppData(true, p) <==>
            |p.Content()| >= 6 && p.Content()[0] == 23 && p.Content()[1] == 3 && p.Content()[2] == 3
    ensures !AppData(false, p)
  {
  }

  ghost predicate SomeApp(tls: bool, mb: seq<Packet>) {
    exists i :: 0 <= i < |mb| && AppData(tls, mb[i])
  }

  lemma SomeAppSnoc(tls: bool, mb: seq<Packet>, i: nat)
    requires i < |mb|
    ensures SomeApp(tls, mb[..i + 1]) <==> SomeApp(tls, mb[..i]) || AppData(tls, mb[i])
  {
    hide AppData;
    assert mb[..i + 1] == mb[..i] + [mb[i]];
    assert AppData(tls, mb[i]) ==> AppData(tls, mb[..i + 1][i]);
    if SomeApp(tls, mb[..i]) {
      var j :| 0 <= j < i && AppData(tls, mb[..i][j]);
      assert mb[..i + 1][j] == mb[..i][j];
    }
  }

  /** Where padding ends although nothing was recognized: at the first other packet, if the packets left
      to inspect are about to run out without a server hello. */
  function EarlyEnd(f: Flags, mb: seq<Packet>): (n: nat)
    ensures n <= |mb| && (n < |mb| ==> !f.tls12 && f.budget <= 1 && !AppData(f.tls, mb[n]))
    ensures !f.tls12 && f.budget <= 1 ==> forall i :: 0 <= i < n ==> AppData(f.tls, mb[i])
    ensures f.tls12 || f.budget > 1 ==> n == |mb|
  {
    if f.tls12 || f.budget > 1 then |mb| else FirstOther(f.tls, mb)
  }

  function FirstOther(tls: bool, mb: seq<Packet>): (n: nat)
    ensures n <= |mb| && (n < |mb| ==> !AppData(tls, mb[n])) && forall i :: 0 <= i < n ==> AppData(tls, mb[i])
  {
    if mb == [] || !AppData(tls, mb[0]) then 0 else 1 + FirstOther(tls, mb[1..])
  }

  /** The command of block `i`: only the last block of a call can be a terminating one. */
  ghost function CommandOf(f: Flags, mb: seq<Packet>, i: nat): byte {
    if EarlyEnd(f, mb) < |mb| then (if i == EarlyEnd(f, mb) then END else CONTINUE)
    else if i == |mb| - 1 && SomeApp(f.tls, mb) then (if f.xtls then DIRECT else END)
    else CONTINUE
  }

  /** Blocks of application data, and all TLS ones before the first of those, are padded to some length. */
  ghost predicate LongAt(f: Flags, mb: seq<Packet>, i: nat)
    requires i < |mb|
  {
    AppData(f.tls, mb[i]) || (f.tls && !SomeApp(f.tls, mb[..i]))
  }

  predicate PaddedFor(b: Block, long: bool) {
    b.padding == Zeros(|b.padding|)
    && if long && |b.content| < 900 then 900 <= |b.content| + |b.padding| < 1400 else |b.padding| < 256
  }

  ghost predicate BlockFor(f: Flags, mb: seq<Packet>, i: nat, b: Block)
    requires i < |mb|
  {
    b.command == CommandOf(f, mb, i) && b.content == mb[i].Content() && PaddedFor(b, LongAt(f, mb, i))
  }

  /** The blocks written for `mb`: one for each packet, up to an early end. */
  ghost predicate Planned(f: Flags, mb: seq<Packet>, bs: seq<Block>) {
    |bs| == Min(EarlyEnd(f, mb) + 1, |mb|) && forall i :: 0 <= i < |bs| ==> BlockFor(f, mb, i, bs[i])
  }

  /** What is sent without padding in the same call. */
  ghost function Unpadded(f: Flags, mb: seq<Packet>): Bytes {
    Contents(mb[Min(EarlyEnd(f, mb) + 1, |mb|)..])
  }

  class VisionWriter {
    const trafficState: TrafficState
    const isUplink: bool
    /** The identifier until it has been written, then nothing. */
    var writeOnceUserUUID: Bytes
    /** Everything handed to the underlying writer. */
    var sent: Bytes
    /** History: the blocks written, the bytes sent raw, and the bytes the caller asked to send. */
    ghost var blocks: seq<Block>
    ghost var raw: Bytes
    ghost var payload: Bytes

    function Link(): LinkState {
      trafficState.WriterLink(isUplink)
    }

    ghost predicate Valid()
      reads this, trafficState, Link()
    {
      |trafficState.userUUID| == 16 && trafficState.FlagsConsistent() && AllFit(blocks)
      && sent == Wire(trafficState.userUUID, blocks) + raw
      && payload == Payload(blocks) + raw
      && writeOnceUserUUID == (if blocks == [] then trafficState.userUUID else [])
      && (if Link().isPadding then AllContinue(blocks) && raw == [] else Terminated(blocks))
      && (Link().writerDirectCopy ==> !Link().isPadding && blocks[|blocks| - 1].command == DIRECT)
    }

    constructor (state: TrafficState, isUplink: bool)
      requires |state.userUUID| == 16 && state.FlagsConsistent()
      requires state.WriterLink(isUplink).isPadding && !state.WriterLink(isUplink).writerDirectCopy
      ensures trafficState == state && this.isUplink == isUplink
      ensures Valid() && payload == [] && sent == []
    {
      trafficState := state;
      this.isUplink := isUplink;
      writeOnceUserUUID := state.userUUID;
      sent, blocks, raw, payload := [], [], [], [];
    }

    /** The random padding length of a block, clamped so that the block still fits a buffer. */
    static method PaddingLength(contentLen: nat, longPadding: bool) returns (paddingLen: nat)
      requires contentLen <= SIZE - OVERHEAD
      ensures contentLen + paddingLen <= SIZE - OVERHEAD
      ensures longPadding && contentLen < 900 ==> 900 <= contentLen + paddingLen < 1400
      ensures !(longPadding && contentLen < 900) ==> paddingLen < 256
    {
      if contentLen < 900 && longPadding {
        var l :| 0 <= l < 500;
        paddingLen := l + 900 - contentLen;
      } else {
        var l :| 0 <= l < 256;
        paddingLen := l;
      }
      if paddingLen > SIZE - OVERHEAD - contentLen {
        paddingLen := SIZE - OVERHEAD - contentLen;
      }
    }

    /** `XtlsPadding`: one block, with a random amount of padding.  The whole block, identifier
        included, fits a regular buffer. */
    method XtlsPadding(b: Packet, command: byte, longPadding: bool) returns (wire: Bytes, ghost block: Block)
      requires |b.Content()| <= SIZE - OVERHEAD && |writeOnceUserUUID| <= 16
      modifies `writeOnceUserUUID
      ensures block.Fits() && block.command == command && block.content == b.Content()
      ensures writeOnceUserUUID == []
      ensures wire == old(writeOnceUserUUID) + block.Encode() && |wire| <= SIZE
      ensures block.padding == Zeros(|block.padding|)
      ensures longPadding && |block.content| < 900 ==> 900 <= |block.content| + |block.padding| < 1400
      ensures !(longPadding && |block.content| < 900) ==> |block.padding| < 256
      ensures PaddedFor(block, longPadding)
    {
      var contentLen := |b.Content()|;
      var paddingLen := PaddingLength(contentLen, longPadding);
      var header := [command, contentLen / 256, contentLen % 256, paddingLen / 256, paddingLen % 256];
      var newbuffer := new Buffer();
      newbuffer.WriteAll(writeOnceUserUUID);
      newbuffer.WriteAll(header);
      newbuffer.WriteAll(b.Content());
      newbuffer.Extend(paddingLen);
      wire := newbuffer.v[newbuffer.start..newbuffer.end];
      block := Block(command, b.Content(), Zeros(paddingLen));
      BlockBytes(writeOnceUserUUID, block, header);
      writeOnceUserUUID := [];
    }

    static lemma BlockBytes(uuid: Bytes, block: Block, header: Bytes)
      requires block.Fits()
      requires header == [block.command] + PutU16(|block.content|) + PutU16(|block.padding|)
      ensures [] + uuid + header + block.content + block.padding == uuid + block.Encode()
    {
    }

    /** A padded block goes out; `out` collects the bytes of this call. */
    method Emit(b: Packet, command: byte, longPadding: bool, out: Bytes, ghost done: Bytes)
      returns (more: Bytes, ghost block: Block)
      requires Running(out, done) && AllContinue(blocks) && |b.Content()| <= SIZE - OVERHEAD
      modifies `writeOnceUserUUID, `blocks
      ensures Running(more, done + b.Content())
      ensures blocks == old(blocks) + [block] && block.command == command && block.content == b.Content()
      ensures PaddedFor(block, longPadding)
      ensures command == CONTINUE ==> AllContinue(blocks)
      ensures command == END || command == DIRECT ==> Terminated(blocks)
    {
      hide Payload, EncodeAll, Wire, Terminated, AllContinue, PaddedFor;
      var wire;
      wire, block := XtlsPadding(b, command, longPadding);
      ContinueMore(blocks, block);
      AppendWire(trafficState.userUUID, blocks, block, sent + out, wire);
      more := out + wire;
      blocks := blocks + [block];
      assert sent + more == (sent + out) + wire;
    }

    /** `WriteMultiBuffer`: whatever the flags and the random draws, the output keeps to the grammar
        and carries exactly the bytes written; the flags decide where the padding ends, and how. */
    method WriteMultiBuffer(mb: seq<Packet>) returns (ghost pasts: seq<uint16>)
      requires Valid()
      requires forall i :: 0 <= i < |mb| ==> |mb[i].Content()| <= SIZE
      modifies this, trafficState, Link()`isPadding, Link()`writerDirectCopy
      ensures Valid()
      ensures payload == old(payload) + Contents(mb)
      ensures old(sent) <= sent && old(blocks) <= blocks
      ensures !old(Link().isPadding) ==> !Link().isPadding && blocks == old(blocks)
                                         && sent == old(sent) + Contents(mb)
                                         && Link().writerDirectCopy == old(Link().writerDirectCopy)
      ensures old(trafficState.numberOfPacketToFilter) <= 0 ==> trafficState.numberOfPacketToFilter <= 0
      ensures |pasts| == |mb|
      ensures trafficState.State() ==
              if old(trafficState.numberOfPacketToFilter) > 0 then Scan(old(trafficState.State()), mb, pasts).flags
              else old(trafficState.State())
      ensures old(Link().isPadding) && mb == [Nil] ==>
        Link().isPadding && !Link().writerDirectCopy && |blocks| == |old(blocks)| + 1
        && HeaderBlock(blocks[|old(blocks)|])
      ensures old(Link().isPadding) && mb != [Nil] ==>
        Outcome(old(|blocks|), trafficState.State(), Reshaped(mb))
    {
      hide Payload, EncodeAll, Scan, Planned, SomeApp, EarlyEnd, Reshaped, Unpadded;
      pasts := seq(|mb|, _ => 0);
      if trafficState.numberOfPacketToFilter > 0 {
        pasts := trafficState.XtlsFilterTls(mb);
      }
      if Link().isPadding {
        if |mb| == 1 && mb[0] == Nil {
          WriteHeaderPadding();
          ContentsOne(Nil);
          assert mb == [Nil] && payload + [] == payload;
        } else {
          var shaped := ReshapeMultiBuffer(mb);
          WritePadded(shaped);
        }
      } else {
        WriteRaw(Contents(mb));
      }
    }

    /** What a call does that writes `mb` with padding, with flags `f`, after `n` blocks. */
    ghost predicate Outcome(n: nat, f: Flags, mb: seq<Packet>)
      reads this, Link()
    {
      n <= |blocks| && Planned(f, mb, blocks[n..]) && raw == Unpadded(f, mb)
      && Link().isPadding == (EarlyEnd(f, mb) == |mb| && !SomeApp(f.tls, mb))
      && Link().writerDirectCopy == (f.xtls && SomeApp(f.tls, mb))
    }

    method WriteRaw(data: Bytes)
      requires Valid() && !Link().isPadding
      modifies `sent, `raw, `payload
      ensures Valid() && payload == old(payload) + data && sent == old(sent) + data
    {
      hide Payload, EncodeAll, Wire;
      sent := sent + data;
      raw := raw + data;
      payload := payload + data;
    }

    /** The block without content that hides the length of the request header. */
    method WriteHeaderPadding()
      requires Valid() && Link().isPadding
      modifies `writeOnceUserUUID, `blocks, `sent
      ensures Valid() && old(sent) <= sent && old(blocks) <= blocks
      ensures |blocks| == |old(blocks)| + 1 && HeaderBlock(blocks[|old(blocks)|])
    {
      hide Payload, EncodeAll, Wire;
      StartPadding();
      assert payload + [] == payload;
      var out, _ := Emit(Nil, CONTINUE, true, [], payload);
      sent := sent + out;
    }

    /** The state between two turns of the padding loop: what `out` and `done` say of the blocks. */
    ghost predicate Running(out: Bytes, done: Bytes)
      reads this
    {
      |trafficState.userUUID| == 16 && raw == [] && AllFit(blocks)
      && sent + out == Wire(trafficState.userUUID, blocks) && Payload(blocks) == done
      && writeOnceUserUUID == (if blocks == [] then trafficState.userUUID else [])
    }

    /** Between two turns of the padding loop: `i` packets have their blocks, of which `n` came before this
        call, and the flags are what the packets so far call for. */
    ghost predicate Midway(f: Flags, mb: seq<Packet>, i: nat, long: bool, out: Bytes, n: nat)
      reads this, Link()
    {
      i <= |mb| && i <= EarlyEnd(f, mb) && Running(out, payload + Contents(mb[..i]))
      && |blocks| == n + i && BlocksSoFar(f, mb, blocks[n..])
      && var app := SomeApp(f.tls, mb[..i]);
         Link().isPadding == !app && Link().writerDirectCopy == (f.xtls && app) && long == (f.tls && !app)
         && if i == |mb| && app then Terminated(blocks) && (f.xtls ==> blocks[|blocks| - 1].command == DIRECT)
            else AllContinue(blocks)
    }

    /** The padding loop of one call. */
    method WritePadded(mb: seq<Packet>)
      requires Valid() && Link().isPadding
      requires forall i :: 0 <= i < |mb| ==> |mb[i].Content()| <= SIZE - OVERHEAD
      modifies this, Link()`isPadding, Link()`writerDirectCopy
      ensures Valid()
      ensures payload == old(payload) + Contents(mb)
      ensures old(sent) <= sent && old(blocks) <= blocks
      ensures Outcome(|old(blocks)|, trafficState.State(), mb)
    {
      hide Payload, EncodeAll, Wire, Contents, AllContinue, Terminated, Running, SomeApp, EarlyEnd, BlocksSoFar;
      ghost var f, n := trafficState.State(), |blocks|;
      var longPadding := trafficState.isTLS;
      var out: Bytes := [];
      StartPadding();
      NoBlocksYet(f, mb);
      NothingRaw(mb);
      assert blocks[n..] == [];
      for i := 0 to |mb|
        invariant Midway(f, mb, i, longPadding, out, n)
        invariant sent == old(sent) && payload == old(payload) && old(blocks) <= blocks
      {
        var ended;
        ContentsSplit(mb, i + 1);
        longPadding, out, ended := PadOne(mb, i, longPadding, out, n);
        if ended {
          Finish(out, Contents(mb[i + 1..]), payload + Contents(mb[..i + 1]));
          SoFarIsPlan(f, mb, blocks[n..]);
          return;
        }
      }
      assert mb[..|mb|] == mb;
      Finish(out, [], payload + Contents(mb));
      SoFarIsPlan(f, mb, blocks[n..]);
    }

    /** One turn of the padding loop; `ended` says that what follows is not padded. */
    method PadOne(mb: seq<Packet>, i: nat, long: bool, out: Bytes, ghost n: nat)
      returns (long': bool, out': Bytes, ended: bool)
      requires i < |mb| && Midway(trafficState.State(), mb, i, long, out, n) && trafficState.FlagsConsistent()
      requires |mb[i].Content()| <= SIZE - OVERHEAD
      modifies `writeOnceUserUUID, `blocks, Link()`isPadding, Link()`writerDirectCopy
      ensures old(blocks) <= blocks
      ensures !ended ==> Midway(trafficState.State(), mb, i + 1, long', out', n)
      ensures ended ==>
        i == EarlyEnd(trafficState.State(), mb) && !Link().isPadding && !Link().writerDirectCopy && Terminated(blocks)
        && Running(out', payload + Contents(mb[..i + 1]))
        && |blocks| == n + i + 1 && BlocksSoFar(trafficState.State(), mb, blocks[n..])
    {
      hide Payload, EncodeAll, Wire, Contents, AllContinue, Terminated, Running, SomeApp, EarlyEnd, PaddedFor;
      var s, d, b := trafficState, Link(), mb[i];
      ghost var f, done := s.State(), payload + Contents(mb[..i]);
      ContentsNext(mb, i);
      assert done + b.Content() == payload + Contents(mb[..i + 1]);
      SomeAppSnoc(f.tls, mb, i);
      EndsHere(f, mb, i);
      ghost var block, bs := HEADER, blocks[n..];
      long', ended := long, false;
      var command := CONTINUE;
      if s.isTLS && |b.Content()| >= 6 && b.bytes[..3] == TLS_APPLICATION_DATA_START {
        if s.enableXtls {
          d.writerDirectCopy := true;
        }
        if i == |mb| - 1 {
          command := if s.enableXtls then DIRECT else END;
        }
        out', block := Emit(b, command, true, out, done);
        d.isPadding := false;
        long' := false;
      } else if !s.isTLS12orAbove && s.numberOfPacketToFilter <= 1 {
        d.isPadding := false;
        out', block := Emit(b, END, long, out, done);
        ended := true;
      } else {
        if i == |mb| - 1 && !d.isPadding {
          command := if s.enableXtls then DIRECT else END;
        }
        out', block := Emit(b, command, long, out, done);
      }
      OneMoreBlock(f, mb, bs, block);
      assert blocks[n..] == bs + [block];
    }

    lemma StartPadding()
      requires Valid() && Link().isPadding
      ensures Running([], payload)
      ensures payload + Contents([]) == payload
    {
    }

    /** The bytes of the call go out, followed by buffers that are no longer padded. */
    method Finish(out: Bytes, rest: Bytes, ghost done: Bytes)
      requires Running(out, done) && trafficState.FlagsConsistent()
      requires if Link().isPadding then AllContinue(blocks) && rest == [] else Terminated(blocks)
      requires Link().writerDirectCopy ==> !Link().isPadding && blocks[|blocks| - 1].command == DIRECT
      modifies `sent, `raw, `payload
      ensures Valid() && payload == done + rest && sent == old(sent) + out + rest && raw == rest
    {
      hide Payload, EncodeAll, Wire;
      sent := sent + out + rest;
      raw := rest;
      payload := done + rest;
    }
  }

  // ----- both ends

  /** The block that stands for no content: long padding, and more to come. */
  predicate HeaderBlock(b: Block) {
    b.command == CONTINUE && b.content == [] && PaddedFor(b, true)
  }

  ghost const HEADER := Block(CONTINUE, [], [])

  lemma SoFarIsPlan(f: Flags, mb: seq<Packet>, bs: seq<Block>)
    requires BlocksSoFar(f, mb, bs) && |bs| == Min(EarlyEnd(f, mb) + 1, |mb|)
    ensures Planned(f, mb, bs)
  {
  }

  /** The first packets have their blocks. */
  ghost predicate BlocksSoFar(f: Flags, mb: seq<Packet>, bs: seq<Block>) {
    |bs| <= |mb| && forall j :: 0 <= j < |bs| ==> BlockFor(f, mb, j, bs[j])
  }

  lemma NoBlocksYet(f: Flags, mb: seq<Packet>)
    ensures BlocksSoFar(f, mb, []) && mb[..0] == [] && !SomeApp(f.tls, [])
  {
  }

  lemma NothingRaw(mb: seq<Packet>)
    ensures Contents(mb[|mb|..]) == []
  {
  }

  lemma OneMoreBlock(f: Flags, mb: seq<Packet>, bs: seq<Block>, b: Block)
    requires BlocksSoFar(f, mb, bs) && |bs| < |mb| && BlockFor(f, mb, |bs|, b)
    ensures BlocksSoFar(f, mb, bs + [b])
  {
    hide BlockFor;
  }

  lemma EndsHere(f: Flags, mb: seq<Packet>, i: nat)
    requires i < |mb| && i <= EarlyEnd(f, mb)
    ensures i == EarlyEnd(f, mb) <==> !AppData(f.tls, mb[i]) && !f.tls12 && f.budget <= 1
    ensures EarlyEnd(f, mb) <= |mb|
    ensures i == |mb| - 1 ==> mb[..i + 1] == mb
  {
  }

  lemma WireIsStream(uuid: Bytes, blocks: seq<Block>, last: Block, raw: Bytes)
    requires AllFit(blocks) && last.Fits()
    ensures AllFit(blocks + [last])
    ensures Wire(uuid, blocks + [last]) + raw == Stream(uuid, blocks, last, raw)
    ensures Payload(blocks + [last]) == Payload(blocks) + last.content
  {
    AppendBlock(blocks, last);
    hide EncodeAll, Payload;
  }

  /** Whatever a Vision writer has sent, in whatever pieces it arrives, the reader at the other end
      recovers exactly the payload so far, before and after the terminating block. */
  lemma ReaderRecoversPayload(uuid: Bytes, blocks: seq<Block>, raw: Bytes, bufs: seq<Bytes>)
    requires |uuid| == 16 && AllFit(blocks) && blocks != []
    requires (AllContinue(blocks) && raw == []) || Terminated(blocks)
    requires bufs != [] && |bufs[0]| >= 21 && Flatten(bufs) == Wire(uuid, blocks) + raw
    ensures AllContinue(blocks) ==> FeedAll(uuid, INITIAL, bufs).out == Payload(blocks)
    ensures Terminated(blocks) ==>
              (FeedAll(uuid, INITIAL, bufs).out == Payload(blocks) + raw <==>
               NoneOpens(uuid, bufs[1..], |Wire(uuid, blocks)| - |bufs[0]|))
  {
    hide Run, FeedAll, Feed, Payload, EncodeAll, NoneOpens;
    if Terminated(blocks) {
      var k := |blocks| - 1;
      var last := blocks[k];
      assert blocks == blocks[..k] + [last];
      WireIsStream(uuid, blocks[..k], last, raw);
      RoundTripByOffset(uuid, blocks[..k], last, raw, bufs);
    } else {
      assert Flatten(bufs) == Wire(uuid, blocks);
      ContinuesRecovered(uuid, blocks, bufs);
    }
  }

  lemma ContinuesRecovered(uuid: Bytes, blocks: seq<Block>, bufs: seq<Bytes>)
    requires |uuid| == 16 && AllFit(blocks) && blocks != [] && AllContinue(blocks)
    requires bufs != [] && |bufs[0]| >= 21 && Flatten(bufs) == Wire(uuid, blocks)
    ensures FeedAll(uuid, INITIAL, bufs).out == Payload(blocks)
  {
    hide Run;
    NeverRestarted(uuid, blocks, bufs);
    var body := EncodeAll(blocks);
    assert body == body + [];
    RunContinues(INITIAL.(cmd := 5), blocks, []);
    RunNothing(AfterBlock(CONTINUE));
    assert |blocks[0].Encode()| >= 5;
    OpensStream(uuid, body);
    assert bufs[0][..16] == Flatten(bufs)[..16] == uuid;
    FragmentationIndependence(uuid, INITIAL, bufs[0], bufs[1..]);
    assert [bufs[0]] + bufs[1..] == bufs;
    assert Payload(blocks) + [] == Payload(blocks);
  }

  /** Before the terminating block there is nothing to restart. */
  lemma NeverRestarted(uuid: Bytes, blocks: seq<Block>, bufs: seq<Bytes>)
    requires |uuid| == 16 && AllFit(blocks) && AllContinue(blocks)
    requires bufs != [] && |bufs[0]| >= 21 && Flatten(bufs) == Wire(uuid, blocks)
    ensures NoRestart(uuid, Feed(uuid, INITIAL, bufs[0]).state, bufs[1..])
  {
    hide Run, EncodeAll, NoneOpens;
    var last, body, n := Block(END, [], []), EncodeAll(blocks), |bufs[0]| - 16;
    FirstBuffer(uuid, body, bufs);
    var whole := Body(blocks, last, []);
    assert whole == body + last.Encode();
    assert whole[..n] == body[..n] && whole[n..] == Flatten(bufs[1..]) + last.Encode();
    NoRestartByOffset(uuid, INITIAL.(cmd := 5), blocks, last, [], n, bufs[1..], last.Encode());
    if !NoneOpens(uuid, bufs[1..], Length(blocks, last) - n) {
      NoneOpensBefore(uuid, bufs[1..], Length(blocks, last) - n);
    }
  }
}
