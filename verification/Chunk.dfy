/** Length-prefixed chunks: `crypto/chunk.go` with the plain size parser. */
module Chunks {
  import opened Octets
  import opened Streams

  /** Chunks on the wire. */
  predicate Sized(cs: seq<Bytes>) {
    forall i :: 0 <= i < |cs| ==> |cs[i]| < 0x1_0000
  }

  predicate NoneEmpty(cs: seq<Bytes>) {
    forall i :: 0 <= i < |cs| ==> cs[i] != []
  }

  function Encode(cs: seq<Bytes>): Bytes
    requires Sized(cs)
  {
    if cs == [] then [] else PutU16(|cs[0]|) + cs[0] + Encode(cs[1..])
  }

  lemma {:induction false} EncodeSnoc(cs: seq<Bytes>, c: Bytes)
    requires Sized(cs) && |c| < 0x1_0000
    ensures Encode(cs + [c]) == Encode(cs) + (PutU16(|c|) + c)
  {
    if cs == [] {
      assert cs + [c] == [c] && [c][1..] == [];
    } else {
      assert (cs + [c])[1..] == cs[1..] + [c];
      EncodeSnoc(cs[1..], c);
    }
  }

  /** The chunks that a stream of bytes consists of, up to the first incomplete one. */
  function Parse(wire: Bytes): seq<Bytes> {
    if |wire| < 2 || |wire| < 2 + GetU16(wire[..2]) then []
    else
      var n := GetU16(wire[..2]);
      [wire[2..2 + n]] + Parse(wire[2 + n..])
  }

  /** Parsing undoes encoding. */
  lemma {:induction false} ParseEncode(cs: seq<Bytes>)
    requires Sized(cs)
    ensures Parse(Encode(cs)) == cs
  {
    if cs != [] {
      var wire, n := Encode(cs), |cs[0]|;
      assert wire == PutU16(n) + cs[0] + Encode(cs[1..]);
      assert wire[..2] == PutU16(n) && wire[2..2 + n] == cs[0] && wire[2 + n..] == Encode(cs[1..]);
      ParseEncode(cs[1..]);
    }
  }

  // ----- the writer

  const SLICE := 8192

  /** `ChunkStreamWriter.WriteMultiBuffer`: the bytes are cut into chunks of at most 8192; an empty
      chunk is written exactly when there is nothing to write, and then only one. */
  method WriteChunks(mb: seq<Bytes>) returns (wire: Bytes, ghost cs: seq<Bytes>)
    requires Regular(mb)
    ensures Sized(cs) && wire == Encode(cs) && Flatten(cs) == Flatten(mb)
    ensures forall i :: 0 <= i < |cs| ==> |cs[i]| <= 8192
    ensures if IsEmpty(mb) then cs == [[]] else cs != [] && NoneEmpty(cs)
    ensures Parse(wire) == cs && Flatten(Parse(wire)) == Flatten(mb)
  {
    hide Flatten, Encode, Parse, Regular, IsEmpty, Sized, NoneEmpty;
    wire, cs := [], [];
    var left := mb;
    StartChunking(mb);
    var more := true;
    while more
      invariant Regular(left) && Progressed(mb, left, cs) && wire == Encode(cs)
      invariant cs == [] ==> more && left == mb
      invariant cs != [] ==> more == !IsEmpty(left)
      decreases more, |Flatten(left)|
    {
      var rest, slice := SplitSize(left, SLICE);
      NextSlice(mb, left, cs, slice, rest);
      var data := Joined(slice);
      wire := wire + (PutU16(|data|) + data);
      cs := cs + [Flatten(slice)];
      left := rest;
      EmptyIffNoBytes(left);
      more := !IsEmpty(left);
    }
    EmptyIffNoBytes(left);
    assert Flatten(cs) + [] == Flatten(cs);
    ParseEncode(cs);
  }

  /** The chunks so far and what is left make up the whole. */
  ghost predicate Progressed(mb: seq<Bytes>, left: seq<Bytes>, cs: seq<Bytes>) {
    Sized(cs) && Flatten(cs) + Flatten(left) == Flatten(mb)
    && (forall i :: 0 <= i < |cs| ==> |cs[i]| <= SLICE)
    && (cs != [] ==> if IsEmpty(mb) then cs == [[]] && IsEmpty(left) else NoneEmpty(cs))
  }

  lemma StartChunking(mb: seq<Bytes>)
    ensures Progressed(mb, mb, []) && Encode([]) == []
  {
  }

  lemma NextSlice(mb: seq<Bytes>, left: seq<Bytes>, cs: seq<Bytes>, slice: seq<Bytes>, rest: seq<Bytes>)
    requires Progressed(mb, left, cs) && (cs == [] || !IsEmpty(left)) && (cs == [] ==> left == mb)
    requires Flatten(slice) + Flatten(rest) == Flatten(left) && |Flatten(slice)| <= SLICE
    requires !IsEmpty(left) ==> Flatten(slice) != []
    ensures Progressed(mb, rest, cs + [Flatten(slice)])
    ensures Encode(cs + [Flatten(slice)]) == Encode(cs) + (PutU16(|Flatten(slice)|) + Flatten(slice))
    ensures !IsEmpty(left) ==> |Flatten(rest)| < |Flatten(left)|
  {
    hide Flatten, Encode, IsEmpty;
    var c := Flatten(slice);
    FlattenSnoc(cs, c);
    EncodeSnoc(cs, c);
    EmptyIffNoBytes(left);
    EmptyIffNoBytes(mb);
    EmptyIffNoBytes(rest);
    assert Flatten(cs) + (c + Flatten(rest)) == Flatten(cs) + c + Flatten(rest);
  }

  /** The bytes of a multi-buffer, written out buffer by buffer. */
  method Joined(mb: seq<Bytes>) returns (data: Bytes)
    ensures data == Flatten(mb)
  {
    data := [];
    for i := 0 to |mb|
      invariant data == Flatten(mb[..i])
    {
      assert mb[..i + 1] == mb[..i] + [mb[i]];
      FlattenSnoc(mb[..i], mb[i]);
      data := data + mb[i];
    }
    assert mb[..|mb|] == mb;
  }

  // ----- the reader

  datatype Status = More | EOF | Broken

  /** `ChunkStreamReader`; a limit of 0 means no limit. */
  class ChunkStreamReader {
    const reader: BufferedReader
    const maxNumChunk: nat
    var leftOverSize: nat
    var numChunk: nat

    constructor (reader: BufferedReader, maxNumChunk: nat)
      ensures this.reader == reader && this.maxNumChunk == maxNumChunk && leftOverSize == 0 && numChunk == 0
    {
      this.reader := reader;
      this.maxNumChunk := maxNumChunk;
      leftOverSize, numChunk := 0, 0;
    }

    /** One read: the next size if the last chunk is used up, then some bytes of the chunk. */
    method ReadMultiBuffer() returns (mb: seq<Bytes>, status: Status)
      requires reader.Valid()
      modifies this, reader
      ensures reader.Valid()
      ensures old(leftOverSize) > 0 ==>
                numChunk == old(numChunk) && Took(old(leftOverSize), old(reader.Rest()), mb, leftOverSize, reader.Rest())
                && (status == More || (status == EOF && reader.Rest() == [] && Flatten(mb) == []))
                && (status == More && Flatten(mb) == [] ==>
                      |reader.source| < |old(reader.source)| || |reader.buffer| < |old(reader.buffer)|)
      ensures old(leftOverSize) == 0 ==> numChunk == old(numChunk) + 1
      ensures old(leftOverSize) == 0 && maxNumChunk > 0 && old(numChunk) >= maxNumChunk ==>
                status == EOF && mb == [] && leftOverSize == 0 && reader.Rest() == old(reader.Rest())
      ensures old(leftOverSize) == 0 && !(maxNumChunk > 0 && old(numChunk) >= maxNumChunk) ==>
                if |old(reader.Rest())| < 2 then
                  mb == [] && reader.Rest() == []
                  && leftOverSize == 0 && status == if old(reader.Rest()) == [] then EOF else Broken
                else
                  var size := GetU16(old(reader.Rest())[..2]);
                  if size == 0 then
                    mb == [] && status == EOF && leftOverSize == 0 && reader.Rest() == old(reader.Rest())[2..]
                  else
                    Took(size, old(reader.Rest())[2..], mb, leftOverSize, reader.Rest())
                    && (status == More || (status == EOF && reader.Rest() == [] && Flatten(mb) == []))
      ensures |reader.source| <= |old(reader.source)|
    {
      hide Flatten, FlattenAll, Regular;
      FlattenNone();
      var size := leftOverSize;
      if size == 0 {
        numChunk := numChunk + 1;
        if maxNumChunk > 0 && numChunk > maxNumChunk {
          return [], EOF;
        }
        var head, ok := reader.ReadFull(2);
        if !ok {
          return [], if head == [] then EOF else Broken;
        }
        size := GetU16(head);
        if size == 0 {
          return [], EOF;
        }
      }
      leftOverSize := size;
      var eof;
      mb, eof := reader.ReadAtMost(size);
      leftOverSize := leftOverSize - ByteCount(mb);
      status := if eof then EOF else More;
    }
  }

  /** Some bytes of the current chunk were taken. */
  ghost predicate Took(size: nat, before: Bytes, mb: seq<Bytes>, left: nat, after: Bytes) {
    |Flatten(mb)| + left == size && before == Flatten(mb) + after
  }

  /** `MultiBuffer.Len`. */
  function ByteCount(mb: seq<Bytes>): (n: nat)
    ensures n == |Flatten(mb)|
  {
    if mb == [] then 0 else |mb[0]| + ByteCount(mb[1..])
  }

  /** The reader is inside the chunks `cs`: `j` sizes have been read, and `pending` is what is left of
      the current chunk. */
  ghost predicate At(r: ChunkStreamReader, cs: seq<Bytes>, tail: Bytes, j: nat, pending: Bytes)
    reads r, r.reader
  {
    r.reader.Valid() && Sized(cs) && NoneEmpty(cs) && Limit(r.maxNumChunk, cs, tail)
    && j <= |cs| && r.numChunk == j && |pending| == r.leftOverSize
    && r.reader.Rest() == pending + (Encode(cs[j..]) + tail)
  }

  /** The chunks end with the limit, with an empty chunk, or with the stream. */
  ghost predicate Limit(max: nat, cs: seq<Bytes>, tail: Bytes) {
    if max > 0 && |cs| >= max then |cs| == max
    else tail == [] || (|tail| >= 2 && tail[..2] == [0, 0])
  }

  /** The content still to come. */
  ghost function Left(cs: seq<Bytes>, j: nat, pending: Bytes): Bytes
    requires j <= |cs|
  {
    pending + Flatten(cs[j..])
  }

  /** Where the reader stands when it is done: it has consumed the chunks and nothing after them. */
  ghost function AfterChunks(max: nat, cs: seq<Bytes>, tail: Bytes): Bytes {
    if max > 0 && |cs| == max then tail else tail[Min(2, |tail|)..]
  }

  lemma StartChunks(r: ChunkStreamReader, cs: seq<Bytes>, tail: Bytes)
    requires r.reader.Valid() && r.leftOverSize == 0 && r.numChunk == 0
    requires Sized(cs) && NoneEmpty(cs) && Limit(r.maxNumChunk, cs, tail)
    requires r.reader.Rest() == Encode(cs) + tail
    ensures At(r, cs, tail, 0, []) && Left(cs, 0, []) == Flatten(cs)
  {
  }

  /** One read of a chunk reader, at whatever place it stands. */
  method ReadSome(r: ChunkStreamReader, ghost cs: seq<Bytes>, ghost tail: Bytes, ghost j: nat, ghost pending: Bytes)
    returns (mb: seq<Bytes>, status: Status, ghost j': nat, ghost pending': Bytes)
    requires At(r, cs, tail, j, pending)
    modifies r, r.reader
    ensures status == More ==>
              At(r, cs, tail, j', pending') && j' <= |cs| && Left(cs, j, pending) == Flatten(mb) + Left(cs, j', pending')
    ensures status == More ==>
              Shrinks(|old(r.reader.Rest())|, |old(r.reader.source)|, |old(r.reader.buffer)|,
                      |r.reader.Rest()|, |r.reader.source|, |r.reader.buffer|)
    ensures status != More ==>
              status == EOF && r.reader.Valid() && Left(cs, j, pending) == []
              && r.reader.Rest() == AfterChunks(r.maxNumChunk, cs, tail)
  {
    hide Flatten, FlattenAll, Regular, Encode;
    FlattenNone();
    NextChunk(cs, j, tail);
    j', pending' := j, pending;
    ghost var before := r.reader.Rest();
    assert pending == [] ==> before == Encode(cs[j..]) + tail;
    mb, status := r.ReadMultiBuffer();
    if pending == [] && j < |cs| {
      HeadOf(cs[j], Encode(cs[j + 1..]) + tail, before);
    }
    if status == More {
      if pending == [] {
        pending', j' := cs[j], j + 1;
      }
      TookPrefix(pending', Encode(cs[j'..]) + tail, Flatten(mb), r.reader.Rest());
      pending' := pending'[|Flatten(mb)|..];
    }
  }

  ghost predicate Shrinks(a: nat, b: nat, c: nat, a': nat, b': nat, c': nat) {
    a' < a || (a' == a && (b' < b || (b' == b && c' < c)))
  }

  /** `buf.Copy` from a chunk reader: everything it still gives, until it stops. */
  method CopyAll(r: ChunkStreamReader, ghost cs: seq<Bytes>, ghost tail: Bytes, ghost j0: nat, ghost pending0: Bytes)
    returns (out: seq<Bytes>)
    requires At(r, cs, tail, j0, pending0)
    modifies r, r.reader
    ensures r.reader.Valid() && r.reader.Rest() == AfterChunks(r.maxNumChunk, cs, tail)
    ensures j0 <= |cs| && Flatten(out) == Left(cs, j0, pending0)
  {
    hide Flatten, AfterChunks, Limit, Encode, Left;
    out := [];
    ghost var j: nat, pending: Bytes := j0, pending0;
    FlattenNone();
    assert [] + Left(cs, j0, pending0) == Left(cs, j0, pending0);
    while true
      invariant At(r, cs, tail, j, pending) && j <= |cs|
      invariant Flatten(out) + Left(cs, j, pending) == Left(cs, j0, pending0)
      decreases |r.reader.Rest()|, |r.reader.source|, |r.reader.buffer|
    {
      var mb, status, j', pending' := ReadSome(r, cs, tail, j, pending);
      if status != More {
        assert Flatten(out) + [] == Flatten(out);
        return;
      }
      FlattenConcat(out, mb);
      j, pending := j', pending';
      out := out + mb;
    }
  }

  lemma HeadOf(c: Bytes, rest: Bytes, data: Bytes)
    requires |c| < 0x1_0000 && data == PutU16(|c|) + (c + rest)
    ensures |data| >= 2 && GetU16(data[..2]) == |c| && data[2..] == c + rest
  {
  }

  lemma TookPrefix(x: Bytes, rest: Bytes, m: Bytes, after: Bytes)
    requires x + rest == m + after && |m| <= |x|
    ensures m == x[..|m|] && after == x[|m|..] + rest && x == m + x[|m|..]
  {
    assert m == (m + after)[..|m|] == x[..|m|];
    assert after == (m + after)[|m|..];
  }

  lemma NextChunk(cs: seq<Bytes>, j: nat, tail: Bytes)
    requires Sized(cs) && j <= |cs|
    ensures j == |cs| ==> Encode(cs[j..]) + tail == tail
    ensures j == |cs| ==> Flatten(cs[j..]) == []
    ensures j < |cs| ==> Flatten(cs[j..]) == cs[j] + Flatten(cs[j + 1..])
                         && Encode(cs[j..]) + tail == PutU16(|cs[j]|) + (cs[j] + (Encode(cs[j + 1..]) + tail))
  {
  }

  // ----- any bytes at all

  /** What a chunk reader gives of a stream, well formed or not: `left` bytes of a started chunk, then at
      most `budget` chunks, up to an empty chunk or to where the stream is cut. */
  function Delivered(left: nat, budget: int, wire: Bytes): Bytes
    decreases |wire|
  {
    if left > 0 then
      if |wire| <= left then wire else wire[..left] + Delivered(0, budget, wire[left..])
    else if budget == 0 || |wire| < 2 || GetU16(wire[..2]) == 0 then []
    else Delivered(GetU16(wire[..2]), budget - 1, wire[2..])
  }

  /** The chunks that may still be started; negative for any number. */
  function Budget(max: nat, num: nat): int {
    if max == 0 then -1 - num else if num >= max then 0 else max - num
  }

  lemma DeliverSome(left: nat, budget: int, m: Bytes, after: Bytes)
    requires 0 < left && |m| <= left
    ensures Delivered(left, budget, m + after) == m + Delivered(left - |m|, budget, after)
  {
    if |m| < left {
      assert |m + after| > left ==> (m + after)[..left] == m + after[..left - |m|];
      assert |m + after| > left ==> (m + after)[left..] == after[left - |m|..];
    } else if after == [] {
      assert m + after == m;
    } else {
      assert (m + after)[..left] == m && (m + after)[left..] == after;
    }
  }

  /** `buf.Copy` from a chunk reader over any bytes, in any batches. */
  method CopyAny(r: ChunkStreamReader) returns (out: seq<Bytes>)
    requires r.reader.Valid()
    modifies r, r.reader
    ensures Flatten(out)
         == old(Delivered(r.leftOverSize, Budget(r.maxNumChunk, r.numChunk), r.reader.Rest()))
  {
    hide Flatten, FlattenAll, Delivered;
    out := [];
    FlattenNone();
    ghost var all := Delivered(r.leftOverSize, Budget(r.maxNumChunk, r.numChunk), r.reader.Rest());
    assert [] + all == all;
    while true
      invariant r.reader.Valid()
      invariant Flatten(out) + Delivered(r.leftOverSize, Budget(r.maxNumChunk, r.numChunk), r.reader.Rest()) == all
      decreases |r.reader.Rest()|, |r.reader.source|, |r.reader.buffer|
    {
      ghost var left, budget, wire := r.leftOverSize, Budget(r.maxNumChunk, r.numChunk), r.reader.Rest();
      var mb, status := r.ReadMultiBuffer();
      OneRead(left, budget, wire, Flatten(mb), r.reader.Rest());
      if status != More {
        assert Flatten(out) + [] == Flatten(out);
        return;
      }
      FlattenConcat(out, mb);
      out := out + mb;
      assert all == Flatten(out) + Delivered(r.leftOverSize, Budget(r.maxNumChunk, r.numChunk), r.reader.Rest());
    }
  }

  /** One read in each of the states a reader can be in. */
  lemma OneRead(left: nat, budget: int, wire: Bytes, m: Bytes, after: Bytes)
    ensures left > 0 && wire == m + after && |m| <= left ==>
              Delivered(left, budget, wire) == m + Delivered(left - |m|, budget, after)
    ensures left > 0 && wire == [] ==> Delivered(left, budget, wire) == []
    ensures left == 0 && (budget == 0 || |wire| < 2 || GetU16(wire[..2]) == 0) ==> Delivered(left, budget, wire) == []
    ensures left == 0 && budget != 0 && |wire| >= 2 && GetU16(wire[..2]) > 0 && wire[2..] == m + after
            && |m| <= GetU16(wire[..2]) ==>
              Delivered(left, budget, wire) == m + Delivered(GetU16(wire[..2]) - |m|, budget - 1, after)
    ensures left == 0 && budget != 0 && |wire| == 2 ==> Delivered(left, budget, wire) == []
  {
    if left > 0 && |m| <= left {
      DeliverSome(left, budget, m, after);
    }
    if left == 0 && |wire| >= 2 && 0 < GetU16(wire[..2]) && |m| <= GetU16(wire[..2]) {
      DeliverSome(GetU16(wire[..2]), budget - 1, m, after);
    }
  }

  /** A stream of chunks that is cut gives a prefix of the bytes written. */
  lemma {:induction false} CutGivesPrefix(cs: seq<Bytes>, budget: int, n: nat)
    requires Sized(cs) && NoneEmpty(cs) && n <= |Encode(cs)| && budget < 0
    ensures Delivered(0, budget, Encode(cs)[..n]) <= Flatten(cs)
    ensures n == |Encode(cs)| ==> Delivered(0, budget, Encode(cs)[..n]) == Flatten(cs)
    decreases |cs|
  {
    if cs != [] && n >= 2 {
      var c, more := cs[0], Encode(cs[1..]);
      var wire := Encode(cs)[..n];
      assert Encode(cs) == PutU16(|c|) + (c + more);
      assert wire[..2] == PutU16(|c|) && wire[2..] == (c + more)[..n - 2];
      if n - 2 <= |c| {
        assert wire[2..] == c[..n - 2];
      } else {
        var m := n - 2 - |c|;
        assert wire[2..][..|c|] == c && wire[2..][|c|..] == more[..m];
        CutGivesPrefix(cs[1..], budget - 1, m);
      }
    }
  }
}
