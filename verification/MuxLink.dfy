/** What the mux puts on the link and takes from it: whole frames, their metadata and their data. */
module MuxLink {
  import opened Octets
  import opened Buffers
  import opened Streams
  import opened Chunks
  import opened Addresses
  import opened Frames

  /** A frame: metadata, the destination attached to its buffer, and its data if it has any. */
  datatype Frame = Frame(meta: Meta, udp: Option<Destination>, data: Option<Bytes>)

  predicate Wellformed(parse: Parser, f: Frame) {
    Sendable(parse, f.meta, f.udp) && (f.meta.HasData() <==> f.data.Some?)
    && (f.data.Some? ==> |f.data.value| <= SIZE)
  }

  function EncodeMeta(m: Meta, udp: Option<Destination>): Bytes
    requires m.status == STATUS_NEW ==> m.target.Some? && Writable(m.target.value)
    requires udp.Some? ==> Writable(udp.value)
    requires |Body(m, udp)| < 0x1_0000
  {
    PutU16(|Body(m, udp)|) + Body(m, udp)
  }

  function EncodeData(data: Option<Bytes>): Bytes
    requires data.Some? ==> |data.value| < 0x1_0000
  {
    if data.Some? then PutU16(|data.value|) + data.value else []
  }

  /** The bytes of a frame. */
  function EncodeFrame(parse: Parser, f: Frame): Bytes
    requires Wellformed(parse, f)
  {
    MetaRoundTrip(parse, f.meta, f.udp);
    EncodeMeta(f.meta, f.udp) + EncodeData(f.data)
  }

  function EncodeFrames(parse: Parser, fs: seq<Frame>): Bytes
    requires forall i :: 0 <= i < |fs| ==> Wellformed(parse, fs[i])
  {
    if fs == [] then [] else EncodeFrame(parse, fs[0]) + EncodeFrames(parse, fs[1..])
  }

  lemma {:induction false} EncodeFramesSnoc(parse: Parser, fs: seq<Frame>, f: Frame)
    requires (forall i :: 0 <= i < |fs| ==> Wellformed(parse, fs[i])) && Wellformed(parse, f)
    ensures EncodeFrames(parse, fs + [f]) == EncodeFrames(parse, fs) + EncodeFrame(parse, f)
  {
    hide Wellformed, EncodeFrame;
    if fs == [] {
      assert fs + [f] == [f] && [f][1..] == [];
    } else {
      assert (fs + [f])[1..] == fs[1..] + [f];
      EncodeFramesSnoc(parse, fs[1..], f);
    }
  }

  // ----- writing

  /** `WriteTo`: reserve the length, write the fields, then fill the length in. */
  method WriteTo(m: Meta, udp: Option<Destination>, b: Buffer)
    requires b.Valid() && b.start == b.end == 0 && b.v.Length == SIZE && |m.globalID| == 8
    requires m.status == STATUS_NEW ==> m.target.Some? && Writable(m.target.value)
    requires udp.Some? ==> Writable(udp.value)
    modifies b, b.v
    ensures b.Valid() && b.v == old(b.v) && b.start == 0
    ensures |Body(m, udp)| <= 512 && b.Contents() == EncodeMeta(m, udp)
  {
    hide WriteAddress, Tail;
    b.Extend(2);
    b.WriteAll(PutU16(m.id));
    b.WriteAll([m.status, m.option]);
    WriteTail(m, udp, b);
    FieldsAre(m, udp, b.Contents());
    b.PutAt(0, PutU16(b.Len() - 2));
    assert PutU16(|Body(m, udp)|) + Body(m, udp) == [] + PutU16(|Body(m, udp)|) + Body(m, udp);
  }

  lemma FieldsAre(m: Meta, udp: Option<Destination>, c: Bytes)
    requires m.status == STATUS_NEW ==> m.target.Some? && Writable(m.target.value)
    requires udp.Some? ==> Writable(udp.value)
    requires c == [] + Zeros(2) + PutU16(m.id) + [m.status, m.option] + Tail(m, udp)
    ensures |c| == 2 + |Body(m, udp)| && c[..0] == [] && c[2..] == Body(m, udp)
  {
  }

  /** The part of the metadata that depends on the status. */
  method WriteTail(m: Meta, udp: Option<Destination>, b: Buffer)
    requires b.Valid() && b.end + 300 <= b.v.Length && |m.globalID| == 8
    requires m.status == STATUS_NEW ==> m.target.Some? && Writable(m.target.value)
    requires udp.Some? ==> Writable(udp.value)
    modifies b`end, b.v
    ensures b.Valid() && |Tail(m, udp)| <= 269 && b.end == old(b.end) + |Tail(m, udp)|
    ensures b.Contents() == old(b.Contents()) + Tail(m, udp)
  {
    hide Target;
    if m.status == STATUS_NEW {
      TargetLength(m.target.value);
      WriteTarget(m.target.value, b);
      if udp.Some? {
        b.WriteAll(m.globalID);
      }
    } else if udp.Some? {
      TargetLength(udp.value.(network := UDP));
      WriteTarget(udp.value.(network := UDP), b);
    }
  }

  lemma TargetLength(d: Destination)
    requires Writable(d)
    ensures |Target(d)| <= 261
  {
  }

  method WriteTarget(d: Destination, b: Buffer)
    requires b.Valid() && Writable(d) && b.end + |Target(d)| <= b.v.Length
    modifies b`end, b.v
    ensures b.Valid() && b.Contents() == old(b.Contents()) + Target(d) && b.end == old(b.end) + |Target(d)|
  {
    hide WriteAddress;
    b.WriteAll([NetworkByte(d.network)]);
    b.WriteAll(PutU16(d.port));
    b.WriteAll(WriteAddress(d.address).value);
    assert b.Contents() == old(b.Contents()) + Target(d);
  }

  // ----- reading

  /** `Unmarshal`: the length, within its limit, and the metadata. */
  method Unmarshal(parse: Parser, reader: BufferedReader) returns (r: Outcome<Meta>)
    requires reader.Valid()
    modifies reader
    ensures reader.Valid()
    ensures var before := old(reader.Rest());
            if |before| < 2 || GetU16(before[..2]) > 512 || |before| < 2 + GetU16(before[..2]) then r == Err
            else var n := GetU16(before[..2]); r == Decode(parse, before[2..2 + n]) && reader.Rest() == before[2 + n..]
  {
    hide Decode, Flatten, FlattenAll;
    var head, ok := reader.ReadFull(2);
    if !ok {
      return Err;
    }
    var n := GetU16(head);
    if n > 512 {
      return Err;
    }
    ghost var before := old(reader.Rest());
    assert |before| >= 2 + n ==> before[2..][..n] == before[2..2 + n] && before[2..][n..] == before[2 + n..];
    var body;
    body, ok := reader.ReadFull(n);
    if !ok {
      return Err;
    }
    r := Decode(parse, body);
  }

  /** The metadata of a well-formed frame is read as sent, and its data comes next. */
  lemma UnmarshalFrame(parse: Parser, f: Frame, rest: Bytes, before: Bytes)
    requires Wellformed(parse, f) && before == EncodeFrame(parse, f) + rest
    ensures |before| >= 2 && GetU16(before[..2]) <= 512 && |before| >= 2 + GetU16(before[..2])
    ensures var n := GetU16(before[..2]);
            Decode(parse, before[2..2 + n]) == Ok(Received(f.meta, f.udp))
            && before[2 + n..] == EncodeData(f.data) + rest
  {
    hide Decode, Body, Received, EncodeData;
    MetaRoundTrip(parse, f.meta, f.udp);
    var body := Body(f.meta, f.udp);
    LengthAndBody(body, EncodeData(f.data), rest, before);
  }

  lemma LengthAndBody(body: Bytes, data: Bytes, rest: Bytes, before: Bytes)
    requires |body| <= 512 && before == PutU16(|body|) + body + data + rest
    ensures |before| >= 2 + |body| && GetU16(before[..2]) == |body|
    ensures before[2..2 + |body|] == body && before[2 + |body|..] == data + rest
  {
  }

  /** Copying one chunk to an output, as its pieces arrive.  Each write may fail, with any part of the piece
      taken.  Either way the reader ends up just behind the chunk. */
  method CopyStream(reader: BufferedReader, ghost data: Bytes, ghost rest: Bytes)
    returns (delivered: Bytes, failed: bool)
    requires reader.Valid() && |data| < 0x1_0000 && reader.Rest() == PutU16(|data|) + data + rest
    modifies reader
    ensures reader.Valid() && reader.Rest() == rest
    ensures if failed then data != [] && delivered <= data else delivered == data
  {
    hide Flatten, At;
    var r := new ChunkStreamReader(reader, 1);
    ghost var cs, tail := OneChunk(data, rest);
    StartChunks(r, cs, tail);
    ghost var j: nat, pending: Bytes := 0, [];
    delivered, failed := [], false;
    assert [] + data == data;
    while !failed
      invariant At(r, cs, tail, j, pending) && j <= |cs|
      invariant if failed then data != [] && delivered <= data else delivered + Left(cs, j, pending) == data
      decreases !failed, |reader.Rest()|, |reader.source|, |reader.buffer|
    {
      var mb, status;
      ghost var before := Left(cs, j, pending);
      mb, status, j, pending := ReadSome(r, cs, tail, j, pending);
      if status != More {
        assert delivered + [] == delivered;
        return;
      }
      if !IsEmpty(mb) {
        var piece := Chunks.Joined(mb);
        EmptyIffNoBytes(mb);
        PieceOf(delivered, piece, Left(cs, j, pending), before, data);
        var n: nat :| n <= |piece|;
        failed := *;
        delivered := delivered + if failed then piece[..n] else piece;
      } else {
        EmptyIffNoBytes(mb);
        assert [] + Left(cs, j, pending) == Left(cs, j, pending);
      }
    }
    var _ := CopyAll(r, cs, tail, j, pending);
  }

  lemma PieceOf(delivered: Bytes, piece: Bytes, left: Bytes, before: Bytes, data: Bytes)
    requires delivered + before == data && before == piece + left
    ensures (delivered + piece) + left == data && (piece != [] ==> data != [])
    ensures forall n: nat :: n <= |piece| ==> delivered + piece[..n] <= data
  {
    assert data == delivered + (piece + left);
  }

  /** Skipping one chunk. */
  method Skip(reader: BufferedReader, ghost data: Bytes, ghost rest: Bytes)
    requires reader.Valid() && |data| < 0x1_0000 && reader.Rest() == PutU16(|data|) + data + rest
    modifies reader
    ensures reader.Valid() && reader.Rest() == rest
  {
    hide Flatten, At;
    var r := new ChunkStreamReader(reader, 1);
    ghost var cs, tail := OneChunk(data, rest);
    StartChunks(r, cs, tail);
    var _ := CopyAll(r, cs, tail, 0, []);
  }

  /** A frame's data as the chunks a one-chunk reader sees. */
  lemma OneChunk(data: Bytes, rest: Bytes) returns (cs: seq<Bytes>, tail: Bytes)
    requires |data| < 0x1_0000
    ensures Sized(cs) && NoneEmpty(cs) && Limit(1, cs, tail) && Flatten(cs) == data
    ensures Chunks.Encode(cs) + tail == PutU16(|data|) + data + rest && AfterChunks(1, cs, tail) == rest
  {
    if data == [] {
      cs, tail := [], [0, 0] + rest;
      assert PutU16(0) == [0, 0];
      assert tail[..2] == [0, 0];
    } else {
      cs, tail := [data], rest;
      assert cs[1..] == [];
      FlattenOne(data);
    }
  }

  /** `mux.PacketReader`: one whole packet, at most a regular buffer. */
  method ReadPacket(reader: BufferedReader) returns (r: Outcome<Bytes>)
    requires reader.Valid()
    modifies reader
    ensures reader.Valid()
    ensures var before := old(reader.Rest());
            if |before| < 2 || GetU16(before[..2]) > SIZE || |before| < 2 + GetU16(before[..2]) then r == Err
            else var n := GetU16(before[..2]); r == Ok(before[2..2 + n]) && reader.Rest() == before[2 + n..]
  {
    hide Flatten, FlattenAll;
    var head, ok := reader.ReadFull(2);
    if !ok {
      return Err;
    }
    var n := GetU16(head);
    if n > SIZE {
      return Err;
    }
    ghost var before := old(reader.Rest());
    assert |before| >= 2 + n ==> before[2..][..n] == before[2..2 + n] && before[2..][n..] == before[2 + n..];
    var body;
    body, ok := reader.ReadFull(n);
    r := if ok then Ok(body) else Err;
  }
}
