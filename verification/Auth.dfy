/** `AuthenticationWriter` and `AuthenticationReader`. */
module Auth {
  import opened Octets
  import opened Buffers
  import opened Streams
  import opened AuthCodec

  class AuthenticationWriter<St(!new)> {
    const scheme: Scheme<St>
    /** The transfer type: packets, or a stream. */
    const packets: bool
    var state: St
    /** The bytes handed to the underlying writer. */
    var sent: Bytes
    /** History: the state at the start, and the chunks written since. */
    ghost var start: St
    ghost var chunks: seq<Chunk>

    ghost predicate Valid()
      reads this
    {
      Sound(scheme) && AllFit(scheme, start, chunks) && sent == Wire(scheme, start, chunks)
      && state == StateAfter(scheme, start, chunks)
    }

    constructor (scheme: Scheme<St>, state: St, packets: bool)
      requires Sound(scheme)
      ensures Valid() && this.scheme == scheme && this.state == state && this.packets == packets
      ensures start == state && chunks == [] && sent == []
    {
      this.scheme := scheme;
      this.state := state;
      this.packets := packets;
      start, chunks, sent := state, [], [];
    }

    /** `seal`: padding length, size, sealed content and noise, in this order.  A content too large
        for a buffer is refused, but the padding generator has moved on by then. */
    method Seal(b: Bytes) returns (ok: bool, eb: Bytes, ghost k: Chunk)
      requires Sound(scheme)
      modifies `state
      ensures ok == (scheme.sizeBytes + |b| + scheme.overhead + scheme.nextPadding(old(state)).0 <= SIZE)
      ensures ok ==> k.plain == b && |k.noise| == scheme.nextPadding(old(state)).0
                     && eb == Head(scheme, old(state), k) + Body(scheme, old(state), k)
                     && state == AfterChunk(scheme, old(state), k) && |eb| <= SIZE
      ensures !ok ==> state == AfterPadding(scheme, old(state))
    {
      var s := state;
      var encryptedSize := |b| + scheme.overhead;
      var paddingSize := scheme.nextPadding(state).0;
      state := scheme.nextPadding(state).1;
      k := Chunk(b, []);
      if scheme.sizeBytes + encryptedSize + paddingSize > SIZE {
        return false, [], k;
      }
      assert SizeOk(scheme, state, encryptedSize + paddingSize);
      var head := scheme.putSize(state, encryptedSize + paddingSize);
      state := head.1;
      assert SealOk(scheme, state, b);
      var sealed := scheme.seal(state, b);
      state := sealed.1;
      var noise := Noise(paddingSize);
      k := Chunk(b, noise);
      eb := head.0 + (sealed.0 + noise);
      ok := true;
    }

    /** Write one chunk that is known to fit. */
    method Append(b: Bytes)
      requires Valid() && |b| <= PayloadSize(scheme)
      modifies `state, `sent, `chunks
      ensures Valid() && |chunks| == |old(chunks)| + 1 && chunks[..|old(chunks)|] == old(chunks)
      ensures chunks[|old(chunks)|].plain == b && Plain(chunks) == Plain(old(chunks)) + b
    {
      hide Head, Body, AfterChunk, Wire, StateAfter, Plain, AllFit;
      var s := state;
      assert scheme.nextPadding(s).0 <= scheme.maxPadding;
      var ok, eb, k := Seal(b);
      WireSnoc(scheme, start, chunks, k);
      sent := sent + eb;
      chunks := chunks + [k];
    }

    /** `writeStream`: the bytes are cut into full chunks and a last one. */
    method WriteStream(mb: seq<Bytes>)
      requires Valid() && !IsEmpty(mb)
      modifies `state, `sent, `chunks
      ensures Valid() && old(chunks) <= chunks && Plain(chunks) == Plain(old(chunks)) + Flatten(mb)
      ensures forall i :: |old(chunks)| <= i < |chunks| ==> chunks[i].plain != []
      ensures forall i :: |old(chunks)| <= i < |chunks| - 1 ==> |chunks[i].plain| == PayloadSize(scheme)
    {
      hide Flatten, Wire, StateAfter, Plain, AllFit, Sound, IsEmpty;
      SchemeSizes(scheme);
      var payloadSize := SIZE - scheme.overhead - scheme.sizeBytes - scheme.maxPadding;
      var left := mb;
      var more := true;
      while more
        invariant Valid() && old(chunks) <= chunks && Plain(chunks) + Flatten(left) == Plain(old(chunks)) + Flatten(mb)
        invariant forall i :: |old(chunks)| <= i < |chunks| ==> chunks[i].plain != []
        invariant more == !IsEmpty(left)
        invariant forall i :: |old(chunks)| <= i < |chunks| && (more || i < |chunks| - 1) ==>
                    |chunks[i].plain| == PayloadSize(scheme)
        decreases more, |Flatten(left)|
      {
        EmptyIffNoBytes(left);
        var rest, data := SplitBytes(left, payloadSize);
        Append(data);
        left := rest;
        EmptyIffNoBytes(left);
        more := !IsEmpty(left);
      }
      EmptyIffNoBytes(left);
      assert Plain(chunks) + [] == Plain(chunks);
    }

    /** The packet fits with the padding it is about to get. */
    ghost predicate Room(b: Bytes)
      reads this
    {
      scheme.sizeBytes + |b| + scheme.overhead + scheme.nextPadding(state).0 <= SIZE
    }

    /** One turn of `writePacket`.  A packet without room is dropped, and then the writer stays in step
        with the reader exactly if its padding generator has no state to lose. */
    method PutPacket(b: Bytes) returns (ghost a: Attempt)
      requires Sound(scheme)
      modifies `state, `sent, `chunks
      ensures old(Valid()) ==>
        (Valid() <==> b == [] || old(Room(b)) || AfterPadding(scheme, old(state)) == old(state))
      ensures b == [] ==> state == old(state) && sent == old(sent) && chunks == old(chunks)
      ensures b != [] ==> Outcome(scheme, old(state), b, a) && state == AfterTry(scheme, old(state), a)
                          && sent == old(sent) + TryBytes(scheme, old(state), a)
                          && chunks == if a.Sealed? then old(chunks) + [a.k] else old(chunks)
    {
      hide Wire, StateAfter, Plain, AllFit, Head, Body, AfterChunk;
      a := Dropped;
      if b == [] {
        return;
      }
      var ok, eb, k := Seal(b);
      if !ok {
        assert sent + [] == sent;
        return;
      }
      a := Sealed(k);
      WireSnoc(scheme, start, chunks, k);
      sent := sent + eb;
      chunks := chunks + [k];
    }

    /** `writePacket`: one chunk for each packet that is not empty, in order, except for those that are
        dropped on the way. */
    method WritePacket(mb: seq<Bytes>) returns (ghost tries: seq<Attempt>)
      requires Valid()
      modifies `state, `sent, `chunks
      ensures Tried(scheme, old(state), NonEmpty(mb), tries) && state == TryState(scheme, old(state), tries)
      ensures sent == old(sent) + TryWire(scheme, old(state), tries) && chunks == old(chunks) + Kept(tries)
      ensures (forall i :: 0 <= i < |mb| ==> |mb[i]| <= PayloadSize(scheme)) ==>
        Valid() && Packets(Kept(tries)) == NonEmpty(mb) && forall k :: k in Kept(tries) ==> k.plain != []
    {
      hide Wire, StateAfter, Plain, AllFit, NonEmpty, AfterPadding, Outcome, AfterTry, TryBytes,
           Tried, TryState, TryWire, Kept, Packets, SoFar;
      ghost var fine := true;
      ghost var s0, sent0, chunks0 := state, sent, chunks;
      tries := [];
      NothingTried(scheme, state, sent, chunks);
      for i := 0 to |mb|
        invariant fine <==> forall j :: 0 <= j < i ==> |mb[j]| <= PayloadSize(scheme)
        invariant Sound(scheme) && (fine ==> Valid())
        invariant SoFar(scheme, s0, sent0, chunks0, NonEmpty(mb[..i]), tries, state, sent, chunks)
      {
        assert mb[..i + 1] == mb[..i] + [mb[i]];
        NextPacket(mb[..i], mb[i]);
        RoomFor(scheme, state, mb[i]);
        ghost var s, before, ks := state, sent, chunks;
        var a := PutPacket(mb[i]);
        if mb[i] != [] {
          OneMoreTry(scheme, s0, sent0, chunks0, NonEmpty(mb[..i]), tries, s, before, ks, mb[i], a);
          tries := tries + [a];
        }
        fine := fine && |mb[i]| <= PayloadSize(scheme);
      }
      assert mb[..|mb|] == mb;
      SoFarMeans(scheme, s0, sent0, chunks0, NonEmpty(mb), tries, state, sent, chunks);
      if fine {
        SmallPackets(mb, PayloadSize(scheme));
        AllKept(scheme, s0, NonEmpty(mb), tries);
      }
    }

    /** `WriteMultiBuffer`: the end marker when there is no content, and else a stream or packets. */
    method WriteMultiBuffer(mb: seq<Bytes>) returns (ghost tries: seq<Attempt>)
      requires Valid()
      modifies `state, `sent, `chunks
      ensures old(chunks) <= chunks
      ensures IsEmpty(mb) ==> Valid() && |chunks| == |old(chunks)| + 1 && chunks[|old(chunks)|].plain == []
      ensures !IsEmpty(mb) && !packets ==>
        Valid() && Plain(chunks) == Plain(old(chunks)) + Flatten(mb)
        && forall i :: |old(chunks)| <= i < |chunks| ==> chunks[i].plain != []
      ensures !IsEmpty(mb) && packets ==>
        Tried(scheme, old(state), NonEmpty(mb), tries) && state == TryState(scheme, old(state), tries)
        && sent == old(sent) + TryWire(scheme, old(state), tries) && chunks == old(chunks) + Kept(tries)
      ensures !IsEmpty(mb) && packets && (forall i :: 0 <= i < |mb| ==> |mb[i]| <= PayloadSize(scheme)) ==>
        Valid() && Packets(chunks[|old(chunks)|..]) == NonEmpty(mb)
    {
      hide Flatten, Wire, StateAfter, Plain, AllFit, Sound, IsEmpty, NonEmpty, Tried, TryState, TryWire, Kept, Packets;
      EmptyIffNoBytes(mb);
      tries := [];
      if IsEmpty(mb) {
        SchemeSizes(scheme);
        Append([]);
      } else if !packets {
        WriteStream(mb);
      } else {
        tries := WritePacket(mb);
        assert chunks[|old(chunks)|..] == Kept(tries);
      }
    }
  }

  // ----- packets

  /** What becomes of a packet: a chunk, or nothing. */
  datatype Attempt = Sealed(k: Chunk) | Dropped

  /** A packet is sealed if it has room with the padding it is about to get, and else dropped. */
  ghost predicate Outcome<St>(c: Scheme<St>, s: St, b: Bytes, a: Attempt) {
    if c.sizeBytes + |b| + c.overhead + c.nextPadding(s).0 <= SIZE then
      a.Sealed? && a.k.plain == b && |a.k.noise| == c.nextPadding(s).0
    else a.Dropped?
  }

  /** A dropped packet has moved the padding generator all the same. */
  function AfterTry<St>(c: Scheme<St>, s: St, a: Attempt): St {
    if a.Sealed? then AfterChunk(c, s, a.k) else AfterPadding(c, s)
  }

  function TryBytes<St>(c: Scheme<St>, s: St, a: Attempt): Bytes {
    if a.Sealed? then Head(c, s, a.k) + Body(c, s, a.k) else []
  }

  function TryState<St>(c: Scheme<St>, s: St, tries: seq<Attempt>): St {
    if tries == [] then s else AfterTry(c, TryState(c, s, tries[..|tries| - 1]), tries[|tries| - 1])
  }

  function TryWire<St>(c: Scheme<St>, s: St, tries: seq<Attempt>): Bytes {
    if tries == [] then []
    else TryWire(c, s, tries[..|tries| - 1]) + TryBytes(c, TryState(c, s, tries[..|tries| - 1]), tries[|tries| - 1])
  }

  ghost predicate Tried<St>(c: Scheme<St>, s: St, packets: seq<Bytes>, tries: seq<Attempt>) {
    |tries| == |packets|
    && (tries == [] || (Tried(c, s, packets[..|packets| - 1], tries[..|tries| - 1])
                        && Outcome(c, TryState(c, s, tries[..|tries| - 1]), packets[|packets| - 1], tries[|tries| - 1])))
  }

  function Kept(tries: seq<Attempt>): seq<Chunk> {
    if tries == [] then []
    else Kept(tries[..|tries| - 1]) + if tries[|tries| - 1].Sealed? then [tries[|tries| - 1].k] else []
  }

  /** What a writer has made of some packets, from the state, bytes and chunks it started with. */
  ghost predicate SoFar<St>(c: Scheme<St>, s0: St, sent0: Bytes, chunks0: seq<Chunk>, packets: seq<Bytes>,
                            tries: seq<Attempt>, s: St, sent: Bytes, chunks: seq<Chunk>)
  {
    Tried(c, s0, packets, tries) && s == TryState(c, s0, tries)
    && sent == sent0 + TryWire(c, s0, tries) && chunks == chunks0 + Kept(tries)
  }

  lemma SoFarMeans<St>(c: Scheme<St>, s0: St, sent0: Bytes, chunks0: seq<Chunk>, packets: seq<Bytes>,
                       tries: seq<Attempt>, s: St, sent: Bytes, chunks: seq<Chunk>)
    requires SoFar(c, s0, sent0, chunks0, packets, tries, s, sent, chunks)
    ensures Tried(c, s0, packets, tries) && s == TryState(c, s0, tries)
    ensures sent == sent0 + TryWire(c, s0, tries) && chunks == chunks0 + Kept(tries)
  {
  }

  lemma NothingTried<St>(c: Scheme<St>, s: St, sent: Bytes, chunks: seq<Chunk>)
    ensures SoFar(c, s, sent, chunks, NonEmpty([]), [], s, sent, chunks)
  {
    assert sent + [] == sent && chunks + [] == chunks;
  }

  lemma OneMoreTry<St>(c: Scheme<St>, s0: St, sent0: Bytes, chunks0: seq<Chunk>, packets: seq<Bytes>,
                       tries: seq<Attempt>, s: St, sent: Bytes, chunks: seq<Chunk>, b: Bytes, a: Attempt)
    requires SoFar(c, s0, sent0, chunks0, packets, tries, s, sent, chunks) && Outcome(c, s, b, a)
    ensures SoFar(c, s0, sent0, chunks0, packets + [b], tries + [a], AfterTry(c, s, a), sent + TryBytes(c, s, a),
                  if a.Sealed? then chunks + [a.k] else chunks)
  {
    hide AfterTry, TryBytes, Outcome;
    assert (tries + [a])[..|tries|] == tries && (packets + [b])[..|packets|] == packets;
    assert sent0 + (TryWire(c, s0, tries) + TryBytes(c, s, a)) == sent + TryBytes(c, s, a);
    assert a.Sealed? ==> chunks0 + (Kept(tries) + [a.k]) == chunks + [a.k];
    assert Kept(tries) + [] == Kept(tries);
  }

  lemma RoomFor<St(!new)>(c: Scheme<St>, s: St, b: Bytes)
    requires Sound(c)
    ensures |b| <= PayloadSize(c) ==> c.sizeBytes + |b| + c.overhead + c.nextPadding(s).0 <= SIZE
  {
  }

  /** Packets within the payload size are all sealed. */
  lemma {:induction false} AllKept<St(!new)>(c: Scheme<St>, s: St, packets: seq<Bytes>, tries: seq<Attempt>)
    requires Sound(c) && Tried(c, s, packets, tries)
    requires forall i :: 0 <= i < |packets| ==> 0 < |packets[i]| <= PayloadSize(c)
    ensures Packets(Kept(tries)) == packets && forall k :: k in Kept(tries) ==> k.plain != []
    decreases |tries|
  {
    hide AfterTry, TryBytes, Sound;
    if tries != [] {
      var front, ps, a := tries[..|tries| - 1], packets[..|packets| - 1], tries[|tries| - 1];
      AllKept(c, s, ps, front);
      RoomFor(c, TryState(c, s, front), packets[|packets| - 1]);
      PacketsSnoc(Kept(front), a.k);
      assert packets == ps + [packets[|packets| - 1]];
    }
  }

  lemma {:induction false} SmallPackets(mb: seq<Bytes>, size: int)
    requires forall i :: 0 <= i < |mb| ==> |mb[i]| <= size
    ensures forall i :: 0 <= i < |NonEmpty(mb)| ==> 0 < |NonEmpty(mb)[i]| <= size
  {
    if mb != [] {
      SmallPackets(mb[..|mb| - 1], size);
    }
  }

  /** The contents that are not empty, one by one. */
  function Packets(ks: seq<Chunk>): seq<Bytes> {
    if ks == [] then [] else (if ks[0].plain == [] then [] else [ks[0].plain]) + Packets(ks[1..])
  }

  lemma {:induction false} PacketsSnoc(ks: seq<Chunk>, k: Chunk)
    ensures Packets(ks + [k]) == Packets(ks) + if k.plain == [] then [] else [k.plain]
  {
    if ks == [] {
      assert ks + [k] == [k] && [k][1..] == [];
    } else {
      assert (ks + [k])[1..] == ks[1..] + [k];
      PacketsSnoc(ks[1..], k);
    }
  }

  function NonEmpty(mb: seq<Bytes>): seq<Bytes> {
    if mb == [] then []
    else NonEmpty(mb[..|mb| - 1]) + if mb[|mb| - 1] == [] then [] else [mb[|mb| - 1]]
  }

  lemma NextPacket(mb: seq<Bytes>, b: Bytes)
    ensures NonEmpty(mb + [b]) == if b == [] then NonEmpty(mb) else NonEmpty(mb) + [b]
  {
  }

  /** A scheme that pads every other chunk by one byte. */
  function Alternating(): Scheme<bool> {
    Scheme(0, 2, 1, (s: bool) => (if s then 1 else 0, !s), (s: bool, n: uint16) => (PutU16(n), s),
           (s: bool, b: Bytes) => (if |b| == 2 then Opened(GetU16(b)) else Rejected, s),
           (s: bool, p: Bytes) => (p, s), (s: bool, p: Bytes) => (Opened(p), s))
  }

  lemma AlternatingIsSound()
    ensures Sound(Alternating())
  {
    var c := Alternating();
    forall s: bool, n: uint16
      ensures SizeOk(c, s, n)
    {
      assert |PutU16(n)| == 2 && GetU16(PutU16(n)) == n;
    }
  }

  method Noise(n: nat) returns (b: Bytes)
    ensures |b| == n
  {
    assert |Zeros(n)| == n;
    b :| |b| == n;
  }

  lemma SchemeSizes<St(!new)>(c: Scheme<St>)
    requires Sound(c)
    ensures 0 < PayloadSize(c) < SIZE && c.sizeBytes >= 1
  {
  }

  // ----- the reader

  datatype Error = NoError | Soft | EOF | Truncated | Rejection

  /** An end marker, a chunk without content, stands at the end and nowhere else. */
  ghost predicate Marked(ks: seq<Chunk>) {
    forall i :: 0 <= i < |ks| ==> (ks[i].plain == [] <==> i == |ks| - 1)
  }

  /** The size of the next chunk has been read, its body has not. */
  ghost predicate Parked<St>(c: Scheme<St>, base: St, todo: seq<Chunk>, tail: Bytes,
                             state: St, size: nat, paddingLen: nat, rest: Bytes)
  {
    todo != [] && Fits(c, base, todo[0]) && state == AfterSize(c, base, todo[0])
    && size == Announced(c, todo[0]) && paddingLen == |todo[0].noise|
    && rest == Body(c, base, todo[0]) + (Wire(c, AfterChunk(c, base, todo[0]), todo[1..]) + tail)
  }

  lemma FirstChunk<St>(c: Scheme<St>, base: St, todo: seq<Chunk>)
    requires todo != []
    ensures Wire(c, base, todo)
         == Head(c, base, todo[0]) + Body(c, base, todo[0]) + Wire(c, AfterChunk(c, base, todo[0]), todo[1..])
    ensures AllFit(c, base, todo) <==> Fits(c, base, todo[0]) && AllFit(c, AfterChunk(c, base, todo[0]), todo[1..])
    ensures StateAfter(c, base, todo) == StateAfter(c, AfterChunk(c, base, todo[0]), todo[1..])
  {
    assert todo == [todo[0]] + todo[1..];
    WireCons(c, base, todo[0], todo[1..]);
  }

  /** Either all the bytes asked for are there, or the stream was cut. */
  lemma Front(rest: Bytes, missing: Bytes, head: Bytes, others: Bytes)
    requires rest + missing == head + others
    ensures |rest| >= |head| ==> rest[..|head|] == head && rest[|head|..] + missing == others
    ensures |rest| < |head| ==> missing != []
  {
    if |rest| >= |head| {
      assert (rest + missing)[..|head|] == rest[..|head|];
      assert (rest + missing)[|head|..] == rest[|head|..] + missing;
    }
  }

  class AuthenticationReader<St(!new)> {
    const scheme: Scheme<St>
    const reader: BufferedReader
    var state: St
    var size: nat
    var paddingLen: nat
    var hasSize: bool
    var done: bool
    /** What is still to come: the state before the current chunk, the chunks up to the end marker
        and the bytes behind it.  The last `missing` bytes of all that will never arrive. */
    ghost var base: St
    ghost var todo: seq<Chunk>
    ghost var tail: Bytes
    ghost var missing: Bytes

    /** The reader is where the writer was: at a chunk, or behind a size it has parked. */
    ghost predicate Valid()
      reads this, reader
    {
      Sound(scheme) && reader.Valid() && AllFit(scheme, base, todo) && Marked(todo)
      && (done <==> todo == []) && (hasSize ==> !done)
      && (!done && hasSize ==> Parked(scheme, base, todo, tail, state, size, paddingLen, reader.Rest() + missing))
      && (!done && !hasSize ==> state == base && reader.Rest() + missing == Wire(scheme, base, todo) + tail)
    }

    /** The bytes of the current chunk and of what follows it that have arrived or will arrive. */
    ghost function Arriving(): nat
      reads this, reader
    {
      |reader.Rest()| + if hasSize then scheme.sizeBytes else 0
    }

    constructor (scheme: Scheme<St>, state: St, reader: BufferedReader,
                 ghost todo: seq<Chunk>, ghost tail: Bytes, ghost missing: Bytes)
      requires Sound(scheme) && reader.Valid() && AllFit(scheme, state, todo) && Marked(todo) && todo != []
      requires reader.Rest() + missing == Wire(scheme, state, todo) + tail
      ensures Valid() && this.scheme == scheme && this.reader == reader && !done && !hasSize
      ensures this.todo == todo && this.tail == tail && this.missing == missing && base == state
    {
      this.scheme := scheme;
      this.state := state;
      this.reader := reader;
      size, paddingLen, hasSize, done := 0, 0, false, false;
      base := state;
      this.todo := todo;
      this.tail := tail;
      this.missing := missing;
    }

    /** `readSize`: the parked size, or the next one with its padding length. */
    method ReadSize() returns (err: Error)
      requires Valid() && !done
      modifies this, reader
      ensures base == old(base) && todo == old(todo) && tail == old(tail) && missing == old(missing) && !done
      ensures reader.Valid() && |reader.source| <= |old(reader.source)|
      ensures err == NoError ==>
        !hasSize && Parked(scheme, base, todo, tail, state, size, paddingLen, reader.Rest() + missing)
      ensures err != NoError ==>
        missing != [] && old(Arriving()) < scheme.sizeBytes && err == if old(Arriving()) == 0 then EOF else Truncated
      ensures err == NoError ==> old(Arriving()) == |reader.Rest()| + scheme.sizeBytes
      ensures old(reader.BufferedBytes()) >= scheme.sizeBytes ==> err == NoError && reader.source == old(reader.source)
    {
      hide Flatten, FlattenAll, AllFit, Marked, Wire, StateAfter, AfterChunk, Body, Plain;
      if hasSize {
        hasSize := false;
        return NoError;
      }
      ghost var k := todo[0];
      FirstChunk(scheme, base, todo);
      assert SizeOk(scheme, AfterPadding(scheme, base), Announced(scheme, k));
      ghost var behind := Wire(scheme, AfterChunk(scheme, base, k), todo[1..]) + tail;
      assert reader.Rest() + missing == Head(scheme, base, k) + (Body(scheme, base, k) + behind);
      Front(reader.Rest(), missing, Head(scheme, base, k), Body(scheme, base, k) + behind);
      var head, ok := reader.ReadFull(scheme.sizeBytes);
      if !ok {
        return if head == [] then EOF else Truncated;
      }
      paddingLen := scheme.nextPadding(state).0;
      state := scheme.nextPadding(state).1;
      var r := scheme.getSize(state, head);
      state := r.1;
      if r.0.Rejected? {
        return Rejection;
      }
      size := r.0.value;
      err := NoError;
    }

    /** The content of the chunk whose size has been read. */
    method ReadBody(mb: seq<Bytes>) returns (mb': seq<Bytes>, err: Error)
      requires Sound(scheme) && reader.Valid() && Regular(mb) && !done && !hasSize
      requires Parked(scheme, base, todo, tail, state, size, paddingLen, reader.Rest() + missing)
      modifies this, reader
      ensures reader.Valid() && Regular(mb') && tail == old(tail) && missing == old(missing) && !done && !hasSize
      ensures err == NoError ==>
        base == AfterChunk(scheme, old(base), old(todo)[0]) && state == base && todo == old(todo)[1..]
        && reader.Rest() + missing == Wire(scheme, base, todo) + tail
        && Flatten(mb') == Flatten(mb) + old(todo)[0].plain
        && (Announced(scheme, old(todo)[0]) <= SIZE ==> mb' == mb + [old(todo)[0].plain])
        && |old(reader.Rest())| == Announced(scheme, old(todo)[0]) + |reader.Rest()|
      ensures err != NoError ==>
        missing != [] && mb' == mb && todo == old(todo) && |old(reader.Rest())| < Announced(scheme, todo[0])
        && err == if old(reader.Rest()) == [] then EOF else Truncated
      ensures old(size) <= old(reader.BufferedBytes()) ==> err == NoError && reader.source == old(reader.source)
      ensures |reader.source| <= |old(reader.source)|
    {
      hide Flatten, FlattenAll, AllFit, Wire, StateAfter, Plain;
      ghost var k := todo[0];
      ghost var behind := Wire(scheme, AfterChunk(scheme, base, k), todo[1..]) + tail;
      assert SealOk(scheme, AfterSize(scheme, base, k), k.plain);
      Front(reader.Rest(), missing, Body(scheme, base, k), behind);
      var payload, ok := reader.ReadFull(size);
      if !ok {
        return mb, if payload == [] then EOF else Truncated;
      }
      var sealed := payload[..size - paddingLen];
      assert sealed == scheme.seal(AfterSize(scheme, base, k), k.plain).0;
      var r := scheme.open(state, sealed);
      state := r.1;
      if r.0.Rejected? {
        return mb, Rejection;
      }
      if size <= SIZE {
        mb' := mb + [r.0.value];
        FlattenSnoc(mb, r.0.value);
      } else {
        mb' := MergeBytes(mb, r.0.value);
      }
      base, todo := AfterChunk(scheme, base, k), todo[1..];
      err := NoError;
    }

    /** `readInternal`.  A soft read stops when the bytes at hand do not suffice, and never touches
        the underlying reader. */
    method ReadInternal(soft: bool, mb: seq<Bytes>) returns (mb': seq<Bytes>, err: Error)
      requires Valid() && Regular(mb)
      modifies this, reader
      ensures Regular(mb') && tail == old(tail) && missing == old(missing) && |reader.source| <= |old(reader.source)|
      ensures err == NoError ==>
        Valid() && old(todo) != [] && todo == old(todo)[1..] && old(todo)[0].plain != []
        && base == AfterChunk(scheme, old(base), old(todo)[0]) && Flatten(mb') == Flatten(mb) + old(todo)[0].plain
        && (Announced(scheme, old(todo)[0]) <= SIZE ==> mb' == mb + [old(todo)[0].plain])
        && old(Arriving()) == scheme.sizeBytes + Announced(scheme, old(todo)[0]) + Arriving()
      ensures err != NoError ==> mb' == mb
      ensures err == Soft ==> Valid() && soft && todo == old(todo) && base == old(base) && Arriving() == old(Arriving())
      ensures err == Soft ==> NothingAtHand()
      ensures done ==> Valid() && (err == Soft || err == EOF)
      ensures done && !old(done) ==>
        err == EOF && |old(todo)| == 1 && old(todo)[0].plain == [] && old(Arriving()) >= scheme.sizeBytes
      ensures !done && err != NoError && err != Soft ==>
        missing != [] && !soft && CutShort(scheme, old(todo), old(Arriving()), err)
      ensures err != Rejection
      ensures old(done) ==> done
      ensures soft ==> reader.source == old(reader.source)
    {
      hide Flatten, FlattenAll, AllFit, Wire, StateAfter, Plain, AfterChunk, AfterSize, Body, Sound;
      mb' := mb;
      if soft && reader.BufferedBytes() < scheme.sizeBytes {
        return mb, Soft;
      }
      if done {
        return mb, EOF;
      }
      FirstChunk(scheme, base, todo);
      err := ReadSize();
      if err != NoError {
        return mb, err;
      }
      Padding(scheme, base, todo[0]);
      if size == scheme.overhead + paddingLen {
        done := true;
        assert |todo| == 1;
        todo := [];
        WireEmpty(scheme, base);
        return mb, EOF;
      }
      if soft && size > reader.BufferedBytes() {
        hasSize := true;
        return mb, Soft;
      }
      assert todo[0].plain != [];
      mb', err := ReadBody(mb);
    }

    /** The bytes at hand do not make up a size, or not the chunk whose size has been read. */
    ghost predicate NothingAtHand()
      reads this, reader
    {
      reader.BufferedBytes() < scheme.sizeBytes || (hasSize && size > reader.BufferedBytes())
    }

    /** `ReadMultiBuffer`: one read that may wait, then up to fifteen that may not. */
    method ReadMultiBuffer() returns (mb: seq<Bytes>, err: Error)
      requires Valid()
      modifies this, reader
      ensures err == NoError ==>
        Valid() && Regular(mb) && Flatten(mb) != [] && |todo| < |old(todo)|
        && Delivers(scheme, old(todo), old(Arriving()), todo, Arriving(), mb)
      ensures err == NoError ==> |todo| + 16 <= |old(todo)| || done || NothingAtHand()
      ensures err != NoError ==> mb == [] && Arrived(scheme, old(todo), old(Arriving())) == []
      ensures err != NoError && done ==> Valid() && err == EOF && Fate(scheme, old(todo), old(Arriving())) == Whole
      ensures err != NoError && !done ==>
        missing != [] && (err == EOF || err == Truncated)
        && Fate(scheme, old(todo), old(Arriving())) == if err == EOF then Quiet else Torn
      ensures old(done) ==> done && err == EOF
      ensures missing == old(missing)
    {
      hide Flatten, FlattenAll, AllFit, Wire, StateAfter, AfterChunk, AfterSize, Body, Sound, Marked, Parked,
           Announced, CutShort, Fate, Arrived, Delivers;
      mb, err := ReadInternal(false, []);
      EndsHere(scheme, old(todo), old(Arriving()), err);
      NothingYet(scheme, old(todo), old(Arriving()));
      NoBytes();
      if err != NoError {
        return [], err;
      }
      OneChunk(scheme, old(todo), old(Arriving()), old(todo), old(Arriving()), [], Arriving(), mb);
      var i := 1;
      while i < 16
        invariant Valid() && Regular(mb) && |todo| < |old(todo)| && missing == old(missing) && Flatten(mb) != []
        invariant i <= 16 && |todo| + i <= |old(todo)|
        invariant Delivers(scheme, old(todo), old(Arriving()), todo, Arriving(), mb)
      {
        ghost var before, n, got := todo, Arriving(), mb;
        var e;
        mb, e := ReadInternal(true, mb);
        if e == Soft {
          SameDelivery(scheme, old(todo), old(Arriving()), before, n, mb, Arriving());
          break;
        }
        if e == EOF {
          AtMarker(scheme, old(todo), old(Arriving()), before, n, mb, Arriving());
          break;
        }
        if e != NoError {
          return [], e;
        }
        OneChunk(scheme, old(todo), old(Arriving()), before, n, got, Arriving(), mb);
        i := i + 1;
      }
      err := NoError;
    }

    /** The copy loop over `ReadMultiBuffer`: it delivers exactly the chunks that arrive whole, one by one if
        they fit a buffer.  It ends without an error behind the size of the end marker, and also where the
        bytes end at a chunk or just behind its size. */
    method CopyAll() returns (out: seq<Bytes>, err: Error)
      requires Valid()
      modifies this, reader
      ensures Flatten(out) == Plain(Arrived(scheme, old(todo), old(Arriving()))) <= Plain(old(todo))
      ensures AllSmall(scheme, old(todo)) ==> out == Packets(Arrived(scheme, old(todo), old(Arriving())))
      ensures err == (if Fate(scheme, old(todo), old(Arriving())) == Torn then Truncated else EOF)
      ensures done <==> Fate(scheme, old(todo), old(Arriving())) == Whole
      ensures done ==> Valid() && Flatten(out) == Plain(old(todo))
      ensures done && AllSmall(scheme, old(todo)) ==> out == Packets(old(todo))
      ensures missing == old(missing) && (!done ==> missing != [])
    {
      hide Flatten, FlattenAll, AllFit, Wire, StateAfter, Plain, AfterChunk, AfterSize, Body, Sound, Marked, Parked,
           Packets, Announced, CutShort, AllSmall, Fate, Arrived, Delivers;
      out, err := [], NoError;
      NothingYet(scheme, old(todo), old(Arriving()));
      ArrivedIsPrefix(scheme, old(todo), old(Arriving()));
      while true
        invariant Valid() && missing == old(missing)
        invariant Delivers(scheme, old(todo), old(Arriving()), todo, Arriving(), out)
        decreases |todo|
      {
        ghost var before, n := todo, Arriving();
        var mb;
        mb, err := ReadMultiBuffer();
        if err != NoError {
          AllDelivered(scheme, old(todo), old(Arriving()), before, n, out);
          return;
        }
        MoreDelivered(scheme, old(todo), old(Arriving()), before, n, out, todo, Arriving(), mb);
        out := out + mb;
      }
    }
  }

  // ----- how a stream ends

  /** The end marker arrives; the bytes end where a reader takes it for the end; or elsewhere. */
  datatype Ending = Whole | Quiet | Torn

  /** How the chunks end of which `n` bytes arrive. */
  ghost function Fate<St>(c: Scheme<St>, ks: seq<Chunk>, n: nat): Ending {
    if ks == [] then Whole
    else if n < c.sizeBytes then (if n == 0 then Quiet else Torn)
    else if ks[0].plain == [] then Whole
    else if n < c.sizeBytes + Announced(c, ks[0]) then (if n == c.sizeBytes then Quiet else Torn)
    else Fate(c, ks[1..], n - c.sizeBytes - Announced(c, ks[0]))
  }

  /** The chunks with content that arrive whole. */
  ghost function Arrived<St>(c: Scheme<St>, ks: seq<Chunk>, n: nat): seq<Chunk> {
    if ks == [] || ks[0].plain == [] || n < c.sizeBytes + Announced(c, ks[0]) then []
    else [ks[0]] + Arrived(c, ks[1..], n - c.sizeBytes - Announced(c, ks[0]))
  }

  /** The next chunk does not arrive, and the error with which the reader notices. */
  ghost predicate CutShort<St>(c: Scheme<St>, ks: seq<Chunk>, n: nat, err: Error) {
    ks != []
    && if n < c.sizeBytes then err == (if n == 0 then EOF else Truncated)
       else ks[0].plain != [] && n < c.sizeBytes + Announced(c, ks[0])
            && err == if n == c.sizeBytes then EOF else Truncated
  }

  lemma EndsHere<St>(c: Scheme<St>, ks: seq<Chunk>, n: nat, err: Error)
    ensures CutShort(c, ks, n, err) ==>
              Arrived(c, ks, n) == [] && Fate(c, ks, n) == (if err == EOF then Quiet else Torn)
              && (err == EOF || err == Truncated)
    ensures ks == [] || (ks[0].plain == [] && n >= c.sizeBytes) ==> Arrived(c, ks, n) == [] && Fate(c, ks, n) == Whole
  {
  }

  /** From `ks` with `n` bytes to `ks'` with `n'` bytes, `mb` was delivered. */
  ghost predicate Delivers<St>(c: Scheme<St>, ks: seq<Chunk>, n: nat, ks': seq<Chunk>, n': nat, mb: seq<Bytes>) {
    var a, a' := Arrived(c, ks, n), Arrived(c, ks', n');
    Fate(c, ks, n) == Fate(c, ks', n')
    && Flatten(mb) + Plain(a') == Plain(a) && Flatten(mb) + Plain(ks') == Plain(ks)
    && (AllSmall(c, ks) ==> AllSmall(c, ks') && mb + Packets(a') == Packets(a) && mb + Packets(ks') == Packets(ks))
  }

  lemma NothingYet<St>(c: Scheme<St>, ks: seq<Chunk>, n: nat)
    ensures Delivers(c, ks, n, ks, n, [])
  {
    hide Fate, Arrived, Plain, Packets, AllSmall;
  }

  lemma SameDelivery<St>(c: Scheme<St>, ks: seq<Chunk>, n: nat, ks1: seq<Chunk>, n1: nat, mb: seq<Bytes>, n2: nat)
    requires Delivers(c, ks, n, ks1, n1, mb) && (n1 == n2 || ks1 == [])
    ensures Delivers(c, ks, n, ks1, n2, mb)
  {
  }

  lemma OneChunk<St>(c: Scheme<St>, ks: seq<Chunk>, n: nat, ks1: seq<Chunk>, n1: nat, mb: seq<Bytes>,
                     n2: nat, mb': seq<Bytes>)
    requires Delivers(c, ks, n, ks1, n1, mb) && ks1 != [] && ks1[0].plain != []
    requires n1 == c.sizeBytes + Announced(c, ks1[0]) + n2 && Flatten(mb') == Flatten(mb) + ks1[0].plain
    requires Announced(c, ks1[0]) <= SIZE ==> mb' == mb + [ks1[0].plain]
    ensures Delivers(c, ks, n, ks1[1..], n2, mb')
  {
    hide Plain, Packets, Flatten;
    var a1, a2 := Arrived(c, ks1, n1), Arrived(c, ks1[1..], n2);
    assert a1 == [ks1[0]] + a2 && a1[1..] == a2;
    FirstPlain(a1);
    FirstPlain(ks1);
    Regroup(Flatten(mb), ks1[0].plain, Plain(a2));
    Regroup(Flatten(mb), ks1[0].plain, Plain(ks1[1..]));
    Regroup(mb, [ks1[0].plain], Packets(a2));
    Regroup(mb, [ks1[0].plain], Packets(ks1[1..]));
  }

  lemma Regroup<T>(a: seq<T>, b: seq<T>, d: seq<T>)
    ensures (a + b) + d == a + (b + d)
  {
  }

  lemma AtMarker<St>(c: Scheme<St>, ks: seq<Chunk>, n: nat, ks1: seq<Chunk>, n1: nat, mb: seq<Bytes>, n2: nat)
    requires Delivers(c, ks, n, ks1, n1, mb)
    requires ks1 == [] || (|ks1| == 1 && ks1[0].plain == [] && n1 >= c.sizeBytes)
    ensures Delivers(c, ks, n, [], n2, mb)
  {
    PlainOfMarker(ks1);
    PlainOfMarker([]);
  }

  lemma MoreDelivered<St>(c: Scheme<St>, ks: seq<Chunk>, n: nat, ks1: seq<Chunk>, n1: nat, out: seq<Bytes>,
                         ks2: seq<Chunk>, n2: nat, mb: seq<Bytes>)
    requires Delivers(c, ks, n, ks1, n1, out) && Delivers(c, ks1, n1, ks2, n2, mb)
    ensures Delivers(c, ks, n, ks2, n2, out + mb)
  {
    hide Plain, Packets, Flatten, Fate, Arrived;
    FlattenConcat(out, mb);
    Regroup(Flatten(out), Flatten(mb), Plain(Arrived(c, ks2, n2)));
    Regroup(Flatten(out), Flatten(mb), Plain(ks2));
    Regroup(out, mb, Packets(Arrived(c, ks2, n2)));
    Regroup(out, mb, Packets(ks2));
  }

  lemma AllDelivered<St>(c: Scheme<St>, ks: seq<Chunk>, n: nat, ks1: seq<Chunk>, n1: nat, out: seq<Bytes>)
    requires Delivers(c, ks, n, ks1, n1, out) && Arrived(c, ks1, n1) == []
    ensures Fate(c, ks, n) == Fate(c, ks1, n1) && Flatten(out) == Plain(Arrived(c, ks, n))
    ensures AllSmall(c, ks) ==> out == Packets(Arrived(c, ks, n))
  {
    hide Fate, Arrived;
    PlainOfMarker([]);
  }

  lemma {:induction false} ArrivedIsPrefix<St>(c: Scheme<St>, ks: seq<Chunk>, n: nat)
    ensures Arrived(c, ks, n) <= ks && Plain(Arrived(c, ks, n)) <= Plain(ks)
    ensures Fate(c, ks, n) == Whole && Marked(ks) ==>
              Plain(Arrived(c, ks, n)) == Plain(ks) && Packets(Arrived(c, ks, n)) == Packets(ks)
  {
    hide Plain, Packets;
    var a := Arrived(c, ks, n);
    if ks == [] {
    } else if a == [] {
      PlainOfMarker(a);
      if ks[0].plain == [] {
        PlainOfMarker(ks);
      }
    } else {
      var n' := n - c.sizeBytes - Announced(c, ks[0]);
      ArrivedIsPrefix(c, ks[1..], n');
      assert a[1..] == Arrived(c, ks[1..], n');
      FirstPlain(a);
      FirstPlain(ks);
    }
  }

  /** Where chunk `j` starts. */
  ghost function Offset<St>(c: Scheme<St>, ks: seq<Chunk>, j: nat): nat
    requires j <= |ks|
    decreases j
  {
    if j == 0 then 0 else c.sizeBytes + Announced(c, ks[0]) + Offset(c, ks[1..], j - 1)
  }

  /** The bytes end at the start of chunk `j`, or just behind its size. */
  ghost predicate EndsAt<St>(c: Scheme<St>, ks: seq<Chunk>, j: nat, n: nat)
    requires j < |ks|
  {
    n == Offset(c, ks, j) || n == Offset(c, ks, j) + c.sizeBytes
  }

  /** The ending by lengths alone: whole exactly if the size of the marker arrives, and quiet exactly if the
      bytes end before that, at a chunk or just behind a size. */
  lemma {:induction false} FateByOffset<St(!new)>(c: Scheme<St>, ks: seq<Chunk>, n: nat)
    requires Sound(c) && Marked(ks) && ks != []
    ensures Fate(c, ks, n) == Whole <==> n >= Offset(c, ks, |ks| - 1) + c.sizeBytes
    ensures Fate(c, ks, n) == Quiet <==>
              n < Offset(c, ks, |ks| - 1) + c.sizeBytes && exists j :: 0 <= j < |ks| && EndsAt(c, ks, j, n)
    decreases |ks|
  {
    hide Sound, Announced, EndsAt;
    SchemeSizes(c);
    if |ks| == 1 {
      OneEnd(c, ks, n);
    } else {
      var more, size := ks[1..], c.sizeBytes + Announced(c, ks[0]);
      assert Marked(more);
      HasContent(c, ks[0]);
      FirstEnds(c, ks, n);
      if n >= size {
        FateByOffset(c, more, n - size);
        LaterEnds(c, ks, n, n - size);
      }
    }
  }

  lemma OneEnd<St>(c: Scheme<St>, ks: seq<Chunk>, n: nat)
    requires |ks| == 1
    ensures EndsAt(c, ks, 0, n) <==> n == 0 || n == c.sizeBytes
  {
  }

  /** Before the end of the first chunk there are two such places. */
  lemma FirstEnds<St>(c: Scheme<St>, ks: seq<Chunk>, n: nat)
    requires |ks| > 1 && Announced(c, ks[0]) > 0
    ensures n < c.sizeBytes + Announced(c, ks[0]) ==>
              ((exists j :: 0 <= j < |ks| && EndsAt(c, ks, j, n)) <==> n == 0 || n == c.sizeBytes)
              && n < Offset(c, ks, |ks| - 1)
  {
    hide Announced;
    if n == 0 || n == c.sizeBytes {
      assert EndsAt(c, ks, 0, n);
    }
  }

  /** Behind it the places are those of the other chunks. */
  lemma LaterEnds<St>(c: Scheme<St>, ks: seq<Chunk>, n: nat, n': nat)
    requires |ks| > 1 && Announced(c, ks[0]) > 0 && n == c.sizeBytes + Announced(c, ks[0]) + n'
    ensures (exists j :: 0 <= j < |ks| && EndsAt(c, ks, j, n)) <==>
            (exists j :: 0 <= j < |ks[1..]| && EndsAt(c, ks[1..], j, n'))
    ensures Offset(c, ks, |ks| - 1) == n - n' + Offset(c, ks[1..], |ks| - 2)
  {
    hide Announced;
    if j :| 0 <= j < |ks| && EndsAt(c, ks, j, n) {
      assert EndsAt(c, ks[1..], j - 1, n');
    }
    if j :| 0 <= j < |ks[1..]| && EndsAt(c, ks[1..], j, n') {
      assert EndsAt(c, ks, j + 1, n);
    }
  }

  lemma HasContent<St>(c: Scheme<St>, k: Chunk)
    requires k.plain != []
    ensures Announced(c, k) > 0
  {
  }

  /** At least `j` chunks arrive whole exactly if the bytes reach the start of the next one. */
  lemma {:induction false} ArrivedByOffset<St>(c: Scheme<St>, ks: seq<Chunk>, n: nat, j: nat)
    requires Marked(ks) && j < |ks|
    ensures |Arrived(c, ks, n)| >= j <==> n >= Offset(c, ks, j)
    decreases |ks|
  {
    hide Announced;
    if j > 0 && n >= c.sizeBytes + Announced(c, ks[0]) {
      assert Marked(ks[1..]);
      ArrivedByOffset(c, ks[1..], n - c.sizeBytes - Announced(c, ks[0]), j - 1);
    }
  }

  /** All the content arrives exactly if the bytes reach the marker; behind its size an end is always that
      of the whole stream. */
  lemma {:induction false} WholeContent<St>(c: Scheme<St>, ks: seq<Chunk>, n: nat)
    requires Marked(ks) && ks != []
    ensures Plain(Arrived(c, ks, n)) == Plain(ks) <==> n >= Offset(c, ks, |ks| - 1)
    decreases |ks|
  {
    hide Announced, Plain;
    var a := Arrived(c, ks, n);
    PlainOfMarker([]);
    FirstPlain(ks);
    if |ks| == 1 {
      PlainOfMarker(ks);
    } else if a == [] {
      assert Plain(ks) != [];
    } else {
      var more, n' := ks[1..], n - c.sizeBytes - Announced(c, ks[0]);
      assert Marked(more) && a[1..] == Arrived(c, more, n');
      FirstPlain(a);
      WholeContent(c, more, n');
      SameTail(ks[0].plain, Plain(a[1..]), Plain(more));
    }
  }

  lemma SameTail(a: Bytes, b: Bytes, d: Bytes)
    ensures a + b == a + d <==> b == d
  {
    assert (a + b)[|a|..] == b && (a + d)[|a|..] == d;
  }

  /** Every chunk fits a buffer of the regular size. */
  ghost predicate AllSmall<St>(c: Scheme<St>, ks: seq<Chunk>) {
    forall i :: 0 <= i < |ks| ==> Announced(c, ks[i]) <= SIZE
  }

  lemma Padding<St(!new)>(c: Scheme<St>, s: St, k: Chunk)
    requires Sound(c) && Fits(c, s, k)
    ensures c.overhead + |k.noise| < 0x1_0000
    ensures k.plain == [] <==> Announced(c, k) == c.overhead + |k.noise|
  {
  }

  lemma NoBytes()
    ensures Flatten([]) == []
  {
  }

  lemma {:induction false} FirstPlain(ks: seq<Chunk>)
    requires ks != []
    ensures Plain(ks) == ks[0].plain + Plain(ks[1..])
    ensures Packets(ks) == (if ks[0].plain == [] then [] else [ks[0].plain]) + Packets(ks[1..])
  {
    if |ks| > 1 {
      var front := ks[..|ks| - 1];
      FirstPlain(front);
      assert ks[1..][..|ks| - 2] == front[1..];
    }
  }

  lemma PlainOfMarker(ks: seq<Chunk>)
    ensures ks == [] || (|ks| == 1 && ks[0].plain == []) ==> Plain(ks) == [] && Packets(ks) == []
  {
  }

  // ----- a run that loses lockstep

  /** What a reader that is one step behind sees in the bytes of a padded chunk. */
  lemma OneStepBehind(k: Chunk)
    requires k.plain == [7] && |k.noise| == 1
    ensures var c, k', marker := Alternating(), Chunk([7] + k.noise, []), Chunk([], [0]);
            Head(c, true, k) + Body(c, true, k) == Head(c, false, k') + Body(c, false, k')
            && |Head(c, true, k) + Body(c, true, k)| == 4
            && AllFit(c, false, [k', marker]) && AllSmall(c, [k', marker]) && Marked([k', marker])
            && Wire(c, false, [k', marker])
               == (Head(c, false, k') + Body(c, false, k')) + Wire(c, AfterChunk(c, false, k'), [marker])
            && Packets([k', marker]) == [[7] + k.noise] && Plain([k', marker]) == [7] + k.noise
  {
    var c, k', marker := Alternating(), Chunk([7] + k.noise, []), Chunk([], [0]);
    WireCons(c, false, k', [marker]);
    assert [k'] + [marker] == [k', marker];
    WireSnoc(c, true, [], marker);
    assert [] + [marker] == [marker];
    WireEmpty(c, true);
    FirstPlain([k', marker]);
    assert [k', marker][1..] == [marker];
    PlainOfMarker([marker]);
  }

  /** A full buffer is dropped, and a packet of one byte follows.  The reader returns that byte and its
      padding. */
  method DroppedPacketLosesLockstep() returns (mb: seq<Bytes>)
    ensures |mb| == 1 && |mb[0]| == 2 && mb[0][0] == 7
  {
    hide Wire, AllFit, Plain, Packets, Marked, Head, Body, AfterChunk, Sound;
    AlternatingIsSound();
    var w := new AuthenticationWriter(Alternating(), false, true);
    var lost := w.PutPacket(Zeros(SIZE));
    var sealed := w.PutPacket([7]);
    ghost var k := sealed.k;
    OneStepBehind(k);
    ghost var k', marker := Chunk([7] + k.noise, []), Chunk([], [0]);
    FlattenOne(w.sent);
    var source := new BufferedReader([[w.sent]]);
    assert FlattenAll([[w.sent]]) == w.sent + FlattenAll([]) == w.sent;
    ghost var missing := Wire(Alternating(), AfterChunk(Alternating(), false, k'), [marker]);
    assert Wire(Alternating(), false, [k', marker]) + [] == Wire(Alternating(), false, [k', marker]);
    var r := new AuthenticationReader(Alternating(), false, source, [k', marker], [], missing);
    var err;
    mb, err := r.ReadMultiBuffer();
    assert (mb + Packets(r.todo))[0] == mb[0];
  }

  // ----- a run that takes a cut for the end

  lemma FirstOfThree(ks: seq<Chunk>)
    requires |ks| == 3 && ks[0].plain == [7] && ks[1].plain == [8] && ks[2].plain == []
    requires AllFit(Alternating(), false, ks)
    ensures var c := Alternating();
            Marked(ks) && |ks[0].noise| == 0 && |Wire(c, false, ks)| >= 3 && AllSmall(c, ks[..1])
            && Arrived(c, ks, 3) == ks[..1] && Fate(c, ks, 3) == Quiet && Plain(ks[..1]) == [7] && Plain(ks) == [7, 8]
  {
    var c := Alternating();
    FirstChunk(c, false, ks);
    assert ks[..1] == [ks[0]];
    assert Arrived(c, ks[1..], 0) == [];
    FirstPlain(ks);
    FirstPlain(ks[1..]);
    PlainOfMarker(ks[2..]);
    assert ks[1..][1..] == ks[2..];
    FirstPlain(ks[..1]);
  }

  /** Two packets and the end marker are written. */
  method TwoPackets() returns (sent: Bytes, ghost ks: seq<Chunk>)
    ensures |ks| == 3 && ks[0].plain == [7] && ks[1].plain == [8] && ks[2].plain == []
    ensures Sound(Alternating()) && AllFit(Alternating(), false, ks) && sent == Wire(Alternating(), false, ks)
  {
    hide Wire, AllFit, Plain, Packets, Marked, Head, Body, AfterChunk, Sound, NonEmpty, StateAfter;
    AlternatingIsSound();
    var w := new AuthenticationWriter(Alternating(), false, true);
    var first := w.PutPacket([7]);
    var second := w.PutPacket([8]);
    var _ := w.WriteMultiBuffer([]);
    sent, ks := w.sent, w.chunks;
  }

  /** The connection is cut behind the first packet.  The reader delivers that packet and reports the end of
      the stream, without an error. */
  method CutLooksLikeTheEnd() returns (out: seq<Bytes>, err: Error, ghost written: Bytes)
    ensures err == EOF && Flatten(out) == [7] && written == [7, 8]
  {
    hide Wire, AllFit, Plain, Packets, Marked, Sound, Fate, Arrived;
    var sent, ks := TwoPackets();
    FirstOfThree(ks);
    written := Plain(ks);
    FlattenOne(sent[..3]);
    var source := new BufferedReader([[sent[..3]]]);
    assert FlattenAll([[sent[..3]]]) == sent[..3] + FlattenAll([]) == sent[..3];
    assert sent[..3] + sent[3..] == sent + [];
    var r := new AuthenticationReader(Alternating(), false, source, ks, [], sent[3..]);
    assert r.Arriving() == 3;
    out, err := r.CopyAll();
  }
}
