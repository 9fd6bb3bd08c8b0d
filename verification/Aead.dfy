/** The scheme of an AEAD: `AEADAuthenticator` for the contents and `AEADChunkSizeParser` for the sizes,
    each with an increasing nonce of its own, and any padding generator. */
module Aead {
  import opened Octets
  import opened AuthCodec
  import opened Nonces

  /** Sealing and opening under a nonce. */
  datatype Cipher = Cipher(overhead: nat, seal: (Bytes, Bytes) -> Bytes, open: (Bytes, Bytes) -> Opened<Bytes>)

  /** Under one nonce, opening undoes sealing; the sealed form is longer by the overhead. */
  ghost predicate Inverse(a: Cipher) {
    a.overhead < 0x1_0000 && forall nonce: Bytes, p: Bytes :: Opens(a, nonce, p)
  }

  ghost predicate Opens(a: Cipher, nonce: Bytes, p: Bytes) {
    |a.seal(nonce, p)| == |p| + a.overhead && a.open(nonce, a.seal(nonce, p)) == Opened(p)
  }

  /** The two counters and the state of the padding generator. */
  datatype State<P> = State(sizeNonce: Bytes, nonce: Bytes, padding: P)

  /** The size field carries the size without the overhead, on sixteen bits. */
  function Shortened(n: uint16, overhead: nat): uint16 {
    (n - overhead) % 0x1_0000
  }

  function Lengthened(n: uint16, overhead: nat): uint16 {
    (n + overhead) % 0x1_0000
  }

  lemma LengthenedShortened(n: uint16, overhead: nat)
    requires overhead < 0x1_0000
    ensures Lengthened(Shortened(n, overhead), overhead) == n
  {
  }

  /** `AEADChunkSizeParser.Decode` on what was opened. */
  function SizeFrom(o: Opened<Bytes>, overhead: nat): Opened<uint16> {
    if o.Opened? && |o.value| == 2 then Opened(Lengthened(GetU16(o.value), overhead)) else Rejected
  }

  /** Every use of a cipher moves its counter first. */
  function AeadScheme<P(!new)>(sizes: Cipher, contents: Cipher, maxPadding: nat, next: P -> (nat, P)): Scheme<State<P>> {
    Scheme(contents.overhead, 2 + sizes.overhead, maxPadding,
           (s: State<P>) => (next(s.padding).0, s.(padding := next(s.padding).1)),
           (s: State<P>, n: uint16) =>
             (sizes.seal(Inc(s.sizeNonce), PutU16(Shortened(n, sizes.overhead))), s.(sizeNonce := Inc(s.sizeNonce))),
           (s: State<P>, b: Bytes) =>
             (SizeFrom(sizes.open(Inc(s.sizeNonce), b), sizes.overhead), s.(sizeNonce := Inc(s.sizeNonce))),
           (s: State<P>, p: Bytes) => (contents.seal(Inc(s.nonce), p), s.(nonce := Inc(s.nonce))),
           (s: State<P>, b: Bytes) => (contents.open(Inc(s.nonce), b), s.(nonce := Inc(s.nonce))))
  }

  /** The scheme is sound, for every AEAD that opens what it sealed and every padding within its bound. */
  lemma AeadIsSound<P(!new)>(sizes: Cipher, contents: Cipher, maxPadding: nat, next: P -> (nat, P))
    requires Inverse(sizes) && Inverse(contents) && forall p: P :: next(p).0 <= maxPadding
    requires contents.overhead + 2 + sizes.overhead + maxPadding < SIZE
    ensures Sound(AeadScheme(sizes, contents, maxPadding, next))
  {
    var c := AeadScheme(sizes, contents, maxPadding, next);
    forall s: State<P>
      ensures c.nextPadding(s).0 <= maxPadding
    {
      assert c.nextPadding(s).0 == next(s.padding).0;
    }
    forall s: State<P>, n: uint16
      ensures SizeOk(c, s, n)
    {
      var short := Shortened(n, sizes.overhead);
      assert Opens(sizes, Inc(s.sizeNonce), PutU16(short));
      LengthenedShortened(n, sizes.overhead);
    }
    forall s: State<P>, p: Bytes
      ensures SealOk(c, s, p)
    {
      assert Opens(contents, Inc(s.nonce), p);
    }
  }

  /** After the chunks `ks` the counters, and the padding generator, have moved by as many steps. */
  lemma {:induction false} OneNonceEach<P(!new)>(sizes: Cipher, contents: Cipher, maxPadding: nat, next: P -> (nat, P),
                                                 s: State<P>, ks: seq<Chunk>)
    requires AllFit(AeadScheme(sizes, contents, maxPadding, next), s, ks)
    ensures StateAfter(AeadScheme(sizes, contents, maxPadding, next), s, ks)
         == State(After(s.sizeNonce, |ks|), After(s.nonce, |ks|), Stepped(next, s.padding, |ks|))
  {
    if ks != [] {
      OneNonceEach(sizes, contents, maxPadding, next, s, ks[..|ks| - 1]);
    }
  }

  /** The state of the padding generator after `n` steps. */
  function Stepped<P>(next: P -> (nat, P), p: P, n: nat): P {
    if n == 0 then p else next(Stepped(next, p, n - 1)).1
  }

  lemma {:induction false} FitsAt<St>(c: Scheme<St>, s: St, ks: seq<Chunk>, i: nat)
    requires AllFit(c, s, ks) && i < |ks|
    ensures AllFit(c, s, ks[..i]) && Fits(c, StateAfter(c, s, ks[..i]), ks[i])
  {
    var n := |ks| - 1;
    if i < n {
      FitsAt(c, s, ks[..n], i);
      assert ks[..n][..i] == ks[..i];
    }
  }

  /** The bytes of chunk `i`: its size less the overhead, sealed under step `i + 1` of one counter, its
      content sealed under step `i + 1` of the other, and as much noise as step `i` of the padding says. */
  lemma SealedUnder<P(!new)>(sizes: Cipher, contents: Cipher, maxPadding: nat, next: P -> (nat, P),
                             s: State<P>, ks: seq<Chunk>, i: nat)
    requires AllFit(AeadScheme(sizes, contents, maxPadding, next), s, ks) && i < |ks|
    ensures var c := AeadScheme(sizes, contents, maxPadding, next);
            var t, k := StateAfter(c, s, ks[..i]), ks[i];
            var size := |k.plain| + contents.overhead + |k.noise|;
            Head(c, t, k) == sizes.seal(After(s.sizeNonce, i + 1), PutU16((size - sizes.overhead) % 0x1_0000))
            && Body(c, t, k) == contents.seal(After(s.nonce, i + 1), k.plain) + k.noise
            && |k.noise| == next(Stepped(next, s.padding, i)).0
  {
    hide AllFit, StateAfter, Head, Body, AeadScheme, Fits;
    var c := AeadScheme(sizes, contents, maxPadding, next);
    FitsAt(c, s, ks, i);
    OneNonceEach(sizes, contents, maxPadding, next, s, ks[..i]);
    ChunkBytes(sizes, contents, maxPadding, next, StateAfter(c, s, ks[..i]), ks[i]);
    OneStep(s.sizeNonce, i);
    OneStep(s.nonce, i);
  }

  lemma OneStep(nonce: Bytes, i: nat)
    ensures After(nonce, i + 1) == Inc(After(nonce, i))
  {
  }

  lemma ChunkBytes<P(!new)>(sizes: Cipher, contents: Cipher, maxPadding: nat, next: P -> (nat, P), t: State<P>, k: Chunk)
    requires Fits(AeadScheme(sizes, contents, maxPadding, next), t, k)
    ensures var c := AeadScheme(sizes, contents, maxPadding, next);
            var size := |k.plain| + contents.overhead + |k.noise|;
            Head(c, t, k) == sizes.seal(Inc(t.sizeNonce), PutU16((size - sizes.overhead) % 0x1_0000))
            && Body(c, t, k) == contents.seal(Inc(t.nonce), k.plain) + k.noise && |k.noise| == next(t.padding).0
  {
    hide PutU16, Inc;
    var c := AeadScheme(sizes, contents, maxPadding, next);
    var n: uint16 := Announced(c, k);
    assert n == |k.plain| + contents.overhead + |k.noise|;
    var t1 := AfterPadding(c, t);
    assert t1 == t.(padding := next(t.padding).1);
    var short := Shortened(n, sizes.overhead);
    assert short == (n - sizes.overhead) % 0x1_0000;
    assert c.putSize(t1, n).0 == sizes.seal(Inc(t1.sizeNonce), PutU16(short));
  }

  /** The counter after `n` steps. */
  function After(nonce: Bytes, n: nat): (r: Bytes)
    ensures |r| == |nonce|
  {
    if n == 0 then nonce else Inc(After(nonce, n - 1))
  }

  lemma {:induction false} AfterIsSum(nonce: Bytes, n: nat)
    ensures Value(After(nonce, n)) == Mod(Value(nonce) + n, Pow256(|nonce|))
  {
    hide Value, Pow256, Mod;
    IncIsSuccessor(nonce);
    if n == 0 {
      SmallMod(Value(nonce), Pow256(|nonce|));
    } else {
      AfterIsSum(nonce, n - 1);
      IncIsSuccessor(After(nonce, n - 1));
      NextModulo(Value(nonce) + n - 1, Pow256(|nonce|));
    }
  }

  lemma StepsRepeatExactly(nonce: Bytes, i: nat, j: nat)
    requires i <= j
    ensures After(nonce, i) == After(nonce, j) <==> (j - i) % Pow256(|nonce|) == 0
  {
    hide Value, Pow256, Mod, After;
    AfterIsSum(nonce, i);
    AfterIsSum(nonce, j);
    ValueIsInjective(After(nonce, i), After(nonce, j));
    SameRemainder(Value(nonce) + i, Value(nonce) + j, Pow256(|nonce|));
    ModIsRemainder(j - i, Pow256(|nonce|));
  }

  /** Two chunks of a stream are sealed under nonces of which the values are their numbers, counted from the
      start, and these are the same nonce exactly if a multiple of all counters lies between the chunks. */
  lemma NoncesRepeatExactly<P(!new)>(sizes: Cipher, contents: Cipher, maxPadding: nat, next: P -> (nat, P),
                                     s: State<P>, ks: seq<Chunk>, i: nat, j: nat) returns (a: Bytes, b: Bytes)
    requires AllFit(AeadScheme(sizes, contents, maxPadding, next), s, ks) && i <= j < |ks|
    ensures var c := AeadScheme(sizes, contents, maxPadding, next);
            Body(c, StateAfter(c, s, ks[..i]), ks[i]) == contents.seal(a, ks[i].plain) + ks[i].noise
            && Body(c, StateAfter(c, s, ks[..j]), ks[j]) == contents.seal(b, ks[j].plain) + ks[j].noise
    ensures Value(a) == (Value(s.nonce) + i + 1) % Pow256(|s.nonce|) && |a| == |s.nonce| == |b|
    ensures Value(b) == (Value(s.nonce) + j + 1) % Pow256(|s.nonce|)
    ensures a == b <==> (j - i) % Pow256(|s.nonce|) == 0
  {
    hide Value, Pow256, Mod, After, AllFit, StateAfter, Body, Head;
    a, b := After(s.nonce, i + 1), After(s.nonce, j + 1);
    SealedUnder(sizes, contents, maxPadding, next, s, ks, i);
    SealedUnder(sizes, contents, maxPadding, next, s, ks, j);
    AfterIsSum(s.nonce, i + 1);
    AfterIsSum(s.nonce, j + 1);
    ModIsRemainder(Value(s.nonce) + i + 1, Pow256(|s.nonce|));
    ModIsRemainder(Value(s.nonce) + j + 1, Pow256(|s.nonce|));
    StepsRepeatExactly(s.nonce, i + 1, j + 1);
  }

  lemma SmallMod(x: nat, p: nat)
    requires x < p
    ensures Mod(x, p) == x
  {
  }
}
