/** Authenticated chunks: what one chunk looks like, and how both ends step through their generators.

    The padding lengths, the size encoding and the sealing may all depend on generators with a state,
    possibly one they share.  A scheme is any such set of operations on one state, with the promise
    that decoding in a state undoes encoding in the same state and leads to the same next state. */
module AuthCodec {
  import opened Octets

  datatype Opened<+T> = Opened(value: T) | Rejected

  datatype Scheme<!St> = Scheme(
    overhead: nat, sizeBytes: nat, maxPadding: nat,
    nextPadding: St -> (nat, St),
    putSize: (St, uint16) -> (Bytes, St),
    getSize: (St, Bytes) -> (Opened<uint16>, St),
    seal: (St, Bytes) -> (Bytes, St),
    open: (St, Bytes) -> (Opened<Bytes>, St))

  /** Decoding undoes encoding, in lockstep, and sizes are as announced. */
  ghost predicate Sound<St(!new)>(c: Scheme<St>) {
    c.sizeBytes >= 1 && c.overhead + c.sizeBytes + c.maxPadding < SIZE
    && (forall s: St :: c.nextPadding(s).0 <= c.maxPadding)
    && (forall s: St, n: uint16 :: SizeOk(c, s, n))
    && (forall s: St, p: Bytes :: SealOk(c, s, p))
  }

  ghost predicate SizeOk<St>(c: Scheme<St>, s: St, n: uint16) {
    |c.putSize(s, n).0| == c.sizeBytes && c.getSize(s, c.putSize(s, n).0) == (Opened(n), c.putSize(s, n).1)
  }

  ghost predicate SealOk<St>(c: Scheme<St>, s: St, p: Bytes) {
    |c.seal(s, p).0| == |p| + c.overhead && c.open(s, c.seal(s, p).0) == (Opened(p), c.seal(s, p).1)
  }

  /** A chunk: its content and the random bytes that pad it. */
  datatype Chunk = Chunk(plain: Bytes, noise: Bytes)

  /** The most content a chunk may carry. */
  function PayloadSize<St>(c: Scheme<St>): int {
    SIZE - c.overhead - c.sizeBytes - c.maxPadding
  }

  function Announced<St>(c: Scheme<St>, k: Chunk): nat {
    |k.plain| + c.overhead + |k.noise|
  }

  /** The size of the chunk can be announced, and it is padded by as much as the generator says. */
  ghost predicate Fits<St>(c: Scheme<St>, s: St, k: Chunk) {
    Announced(c, k) < 0x1_0000 && |k.noise| == c.nextPadding(s).0
  }

  /** The states after the padding length, after the size, and after the chunk. */
  function AfterPadding<St>(c: Scheme<St>, s: St): St {
    c.nextPadding(s).1
  }

  function AfterSize<St>(c: Scheme<St>, s: St, k: Chunk): St {
    if Announced(c, k) < 0x1_0000 then c.putSize(AfterPadding(c, s), Announced(c, k)).1 else s
  }

  function AfterChunk<St>(c: Scheme<St>, s: St, k: Chunk): St {
    c.seal(AfterSize(c, s, k), k.plain).1
  }

  /** The size field of a chunk, and what follows it. */
  function Head<St>(c: Scheme<St>, s: St, k: Chunk): Bytes {
    if Announced(c, k) < 0x1_0000 then c.putSize(AfterPadding(c, s), Announced(c, k)).0 else []
  }

  function Body<St>(c: Scheme<St>, s: St, k: Chunk): Bytes {
    c.seal(AfterSize(c, s, k), k.plain).0 + k.noise
  }

  /** The generators of one chunk in turn: padding, then size, then content. */
  lemma ChunkInOrder<St>(c: Scheme<St>, s: St, k: Chunk)
    requires Fits(c, s, k)
    ensures var n := |k.plain| + c.overhead + |k.noise|;
            var padding := c.nextPadding(s);
            var size := c.putSize(padding.1, n);
            var content := c.seal(size.1, k.plain);
            |k.noise| == padding.0 && Head(c, s, k) == size.0 && Body(c, s, k) == content.0 + k.noise
            && AfterChunk(c, s, k) == content.1
  {
  }

  function StateAfter<St>(c: Scheme<St>, s: St, ks: seq<Chunk>): St {
    if ks == [] then s else AfterChunk(c, StateAfter(c, s, ks[..|ks| - 1]), ks[|ks| - 1])
  }

  ghost predicate AllFit<St>(c: Scheme<St>, s: St, ks: seq<Chunk>) {
    ks == [] || (AllFit(c, s, ks[..|ks| - 1]) && Fits(c, StateAfter(c, s, ks[..|ks| - 1]), ks[|ks| - 1]))
  }

  /** The bytes of a list of chunks. */
  function Wire<St>(c: Scheme<St>, s: St, ks: seq<Chunk>): Bytes {
    if ks == [] then []
    else
      var front, k := ks[..|ks| - 1], ks[|ks| - 1];
      var t := StateAfter(c, s, front);
      Wire(c, s, front) + (Head(c, t, k) + Body(c, t, k))
  }

  function Plain(ks: seq<Chunk>): Bytes {
    if ks == [] then [] else Plain(ks[..|ks| - 1]) + ks[|ks| - 1].plain
  }

  lemma WireSnoc<St>(c: Scheme<St>, s: St, ks: seq<Chunk>, k: Chunk)
    ensures var t := StateAfter(c, s, ks);
            Wire(c, s, ks + [k]) == Wire(c, s, ks) + (Head(c, t, k) + Body(c, t, k))
            && StateAfter(c, s, ks + [k]) == AfterChunk(c, t, k)
            && Plain(ks + [k]) == Plain(ks) + k.plain
            && (AllFit(c, s, ks + [k]) <==> AllFit(c, s, ks) && Fits(c, t, k))
  {
  }

  /** The same list read from its front: one chunk, then the others in the next state. */
  lemma {:induction false} WireCons<St>(c: Scheme<St>, s: St, k: Chunk, ks: seq<Chunk>)
    ensures Wire(c, s, [k] + ks) == Head(c, s, k) + Body(c, s, k) + Wire(c, AfterChunk(c, s, k), ks)
    ensures StateAfter(c, s, [k] + ks) == StateAfter(c, AfterChunk(c, s, k), ks)
    ensures AllFit(c, s, [k] + ks) <==> Fits(c, s, k) && AllFit(c, AfterChunk(c, s, k), ks)
    ensures Plain([k] + ks) == k.plain + Plain(ks)
    decreases |ks|
  {
    hide Head, Body, AfterChunk, Fits, Wire, StateAfter, AllFit, Plain;
    WireEmpty(c, s);
    WireEmpty(c, AfterChunk(c, s, k));
    if ks == [] {
      WireSnoc(c, s, [], k);
      assert [k] + ks == [] + [k];
    } else {
      var front, last := ks[..|ks| - 1], ks[|ks| - 1];
      WireCons(c, s, k, front);
      assert [k] + ks == ([k] + front) + [last] && ks == front + [last];
      WireSnoc(c, s, [k] + front, last);
      WireSnoc(c, AfterChunk(c, s, k), front, last);
    }
  }

  lemma WireEmpty<St>(c: Scheme<St>, s: St)
    ensures Wire(c, s, []) == [] && StateAfter(c, s, []) == s && AllFit(c, s, []) && Plain([]) == []
  {
  }
}
