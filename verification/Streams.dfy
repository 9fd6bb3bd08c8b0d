/** Multi-buffers and the buffered reader: `multi_buffer.go` and `reader.go`.

    A multi-buffer is a list of buffers; what matters of it is the bytes it holds and that no buffer
    is larger than the regular size.  A buffered reader has bytes at hand and an underlying reader
    that delivers multi-buffers until the end of the stream. */
module Streams {
  import opened Octets

  predicate Regular(mb: seq<Bytes>) {
    forall i :: 0 <= i < |mb| ==> |mb[i]| <= SIZE
  }

  /** `SplitBytes`: takes up to `n` bytes from the front. */
  method SplitBytes(mb: seq<Bytes>, n: nat) returns (rest: seq<Bytes>, data: Bytes)
    ensures data + Flatten(rest) == Flatten(mb) && |data| == Min(n, |Flatten(mb)|)
    ensures Regular(mb) ==> Regular(rest)
  {
    hide Flatten;
    data := [];
    FlattenNone();
    assert mb[..0] == [];
    for i := 0 to |mb|
      invariant |data| <= n && data == Flatten(mb[..i])
    {
      var k := Min(n - |data|, |mb[i]|);
      TakeFrom(mb, i, k);
      data := data + mb[i][..k];
      if k < |mb[i]| {
        rest := [mb[i][k..]] + mb[i + 1..];
        return;
      }
    }
    rest := [];
    assert mb[..|mb|] == mb && data + [] == data;
  }

  lemma FlattenNone()
    ensures Flatten([]) == []
  {
  }

  lemma TakeFrom(mb: seq<Bytes>, i: nat, k: nat)
    requires i < |mb| && k <= |mb[i]|
    ensures Flatten(mb[..i]) + mb[i][..k] + Flatten([mb[i][k..]] + mb[i + 1..]) == Flatten(mb)
    ensures k == |mb[i]| ==> Flatten(mb[..i + 1]) == Flatten(mb[..i]) + mb[i][..k]
    ensures Flatten(mb[..0]) == []
  {
    hide Flatten;
    var b, tail := mb[i], mb[i + 1..];
    FlattenNone();
    assert mb[..0] == [];
    FlattenSplit(mb, i);
    assert mb[i..] == [b] + tail;
    FlattenConcat([b], tail);
    FlattenConcat([b[k..]], tail);
    FlattenOne(b);
    FlattenOne(b[k..]);
    assert b == b[..k] + b[k..];
    if k == |b| {
      assert mb[..i + 1] == mb[..i] + [b] && b[..k] == b;
      FlattenSnoc(mb[..i], b);
    }
  }

  /** `SplitSize`: takes whole buffers from the front while they fit, or a part of the first one. */
  method SplitSize(mb: seq<Bytes>, size: nat) returns (rest: seq<Bytes>, r: seq<Bytes>)
    requires Regular(mb) && size > 0
    ensures Flatten(r) + Flatten(rest) == Flatten(mb) && |Flatten(r)| <= size
    ensures Regular(r) && Regular(rest)
    ensures mb != [] ==> Flatten(r) != [] || |rest| < |mb|
    ensures size >= SIZE && !IsEmpty(mb) ==> Flatten(r) != []
    ensures |mb| == 1 && |mb[0]| <= size ==> r == mb
    ensures mb != [] && |mb[0]| > size ==> r == [mb[0][..size]] && rest == [mb[0][size..]] + mb[1..]
    ensures mb != [] && |mb[0]| <= size ==> r + rest == mb && (rest != [] ==> |Flatten(r)| + |rest[0]| > size)
  {
    hide Flatten;
    FlattenNone();
    if mb == [] {
      return [], [];
    }
    if |mb[0]| > size {
      TakeFrom(mb, 0, size);
      FlattenOne(mb[0][..size]);
      assert [] + mb[0][..size] == mb[0][..size];
      assert mb[0 + 1..] == mb[1..];
      rest, r := [mb[0][size..]] + mb[1..], [mb[0][..size]];
      return;
    }
    var i := WholeBuffers(mb, size);
    rest, r := mb[i..], mb[..i];
    FlattenSplit(mb, i);
    if i < |mb| {
      Progress(mb, i, size);
    } else {
      EmptyIffNoBytes(mb);
      assert r == mb;
    }
  }

  /** How many buffers fit, from the front; one at least if the first one does. */
  method WholeBuffers(mb: seq<Bytes>, size: nat) returns (k: nat)
    ensures k <= |mb| && |Flatten(mb[..k])| <= size
    ensures k < |mb| ==> |Flatten(mb[..k])| + |mb[k]| > size
    ensures mb != [] && |mb[0]| <= size ==> k > 0
  {
    hide Flatten;
    k := 0;
    var total := 0;
    assert mb[..0] == [];
    FlattenNone();
    while k < |mb| && total + |mb[k]| <= size
      invariant 0 <= k <= |mb| && total == |Flatten(mb[..k])| <= size && (k == 0 ==> total == 0)
    {
      assert mb[..k + 1] == mb[..k] + [mb[k]];
      FlattenSnoc(mb[..k], mb[k]);
      total := total + |mb[k]|;
      k := k + 1;
    }
  }

  lemma Progress(mb: seq<Bytes>, i: nat, size: nat)
    requires Regular(mb) && i < |mb| && |Flatten(mb[..i])| + |mb[i]| > size && |mb[0]| <= size
    ensures i > 0 && Flatten(mb) == Flatten(mb[..i]) + Flatten(mb[i..])
    ensures size >= SIZE ==> Flatten(mb[..i]) != []
  {
    hide Flatten;
    FlattenNone();
    FlattenSplit(mb, i);
    assert mb[..0] == [];
  }

  /** `MergeBytes`: appends bytes, filling the last buffer first. */
  method MergeBytes(dest: seq<Bytes>, src: Bytes) returns (r: seq<Bytes>)
    requires Regular(dest)
    ensures Flatten(r) == Flatten(dest) + src && Regular(r)
    ensures |dest| <= |r| && forall i :: 0 <= i < |dest| ==> dest[i] <= r[i]
    ensures forall i :: 0 <= i < |dest| - 1 ==> r[i] == dest[i]
    ensures forall i :: |dest| - 1 <= i < |r| - 1 && 0 <= i ==> |r[i]| == SIZE
  {
    hide Flatten;
    var n := |dest|;
    r := dest;
    var left := src;
    if n > 0 && |dest[n - 1]| < SIZE {
      var k := Min(|src|, SIZE - |dest[n - 1]|);
      r := dest[..n - 1] + [dest[n - 1] + src[..k]];
      left := src[k..];
      FlattenSnoc(dest[..n - 1], dest[n - 1]);
      FlattenSnoc(dest[..n - 1], dest[n - 1] + src[..k]);
      assert dest == dest[..n - 1] + [dest[n - 1]] && src == src[..k] + src[k..];
    }
    while |left| > 0
      invariant Regular(r) && Flatten(r) + left == Flatten(dest) + src && n <= |r|
      invariant forall i :: 0 <= i < n ==> dest[i] <= r[i]
      invariant forall i :: 0 <= i < n - 1 ==> r[i] == dest[i]
      invariant forall i :: n - 1 <= i < |r| && 0 <= i && (i < |r| - 1 || left != []) ==> |r[i]| == SIZE
      decreases |left|
    {
      var k := Min(|left|, SIZE);
      FlattenSnoc(r, left[..k]);
      assert left == left[..k] + left[k..];
      r, left := r + [left[..k]], left[k..];
    }
    assert Flatten(r) + [] == Flatten(r);
  }

  // ----- the buffered reader

  function FlattenAll(batches: seq<seq<Bytes>>): Bytes {
    if batches == [] then [] else Flatten(batches[0]) + FlattenAll(batches[1..])
  }

  class BufferedReader {
    /** Bytes already taken from the underlying reader. */
    var buffer: seq<Bytes>
    /** What the underlying reader will still deliver, before it reports the end. */
    var source: seq<seq<Bytes>>

    ghost predicate Valid()
      reads this
    {
      Regular(buffer) && forall i :: 0 <= i < |source| ==> Regular(source[i])
    }

    /** All bytes still to be read. */
    ghost function Rest(): Bytes
      reads this
    {
      Flatten(buffer) + FlattenAll(source)
    }

    constructor (batches: seq<seq<Bytes>>)
      requires forall i :: 0 <= i < |batches| ==> Regular(batches[i])
      ensures Valid() && Rest() == FlattenAll(batches) && buffer == []
    {
      buffer, source := [], batches;
    }

    function BufferedBytes(): (n: nat)
      reads this
      ensures n <= |Rest()|
    {
      |Flatten(buffer)|
    }

    /** `ReadMultiBuffer` of the underlying reader. */
    method Pull() returns (mb: seq<Bytes>, eof: bool)
      requires Valid() && IsEmpty(buffer)
      modifies `source
      ensures Valid() && Regular(mb) && eof == (old(source) == []) && (!eof ==> mb == old(source)[0])
      ensures if eof then mb == [] && source == old(source) && Rest() == []
              else source == old(source)[1..] && old(Rest()) == Flatten(mb) + FlattenAll(source)
    {
      EmptyIffNoBytes(buffer);
      eof := source == [];
      mb := [];
      if !eof {
        mb, source := source[0], source[1..];
      }
    }

    /** `Read`: from the bytes at hand, or else from the next batch; an empty batch gives nothing. */
    method Read(n: nat) returns (data: Bytes, eof: bool)
      requires Valid() && n > 0
      modifies this
      ensures Valid() && |data| <= n && old(Rest()) == data + Rest()
      ensures eof ==> data == [] && Rest() == []
      ensures !eof ==> data != [] || |source| < |old(source)|
      ensures |source| <= |old(source)|
      ensures !IsEmpty(old(buffer)) ==> source == old(source) && |data| == Min(n, old(BufferedBytes()))
      ensures IsEmpty(old(buffer)) ==> eof == (old(source) == [])
      ensures IsEmpty(old(buffer)) && old(source) != [] ==>
                source == old(source)[1..] && |data| == Min(n, |Flatten(old(source)[0])|)
    {
      hide Flatten, FlattenAll, IsEmpty;
      EmptyIffNoBytes(buffer);
      if !IsEmpty(buffer) {
        var rest;
        rest, data := SplitBytes(buffer, n);
        ReadFromBuffer(data, rest, buffer, source);
        EmptyIffNoBytes(rest);
        NothingHeld(rest, source);
        buffer := if IsEmpty(rest) then [] else rest;
        return data, false;
      }
      var mb;
      mb, eof := Pull();
      if eof {
        return [], true;
      }
      var rest;
      rest, data := SplitBytes(mb, n);
      ReadFromBuffer(data, rest, mb, source);
      EmptyIffNoBytes(rest);
      NothingHeld(rest, source);
      NothingHeld(buffer, source);
      if !IsEmpty(rest) {
        buffer := rest;
      }
    }

    /** `io.ReadFull`: all `n` bytes, or everything there is and a failure. */
    method ReadFull(n: nat) returns (data: Bytes, ok: bool)
      requires Valid()
      modifies this
      ensures Valid() && ok == (|old(Rest())| >= n)
      ensures ok ==> data == old(Rest())[..n] && Rest() == old(Rest())[n..]
      ensures !ok ==> data == old(Rest()) && Rest() == []
      ensures n <= old(BufferedBytes()) ==> source == old(source)
      ensures n > 0 && ok ==> |Rest()| < |old(Rest())|
      ensures |source| <= |old(source)|
    {
      hide Flatten, FlattenAll, IsEmpty, Regular;
      data := [];
      while |data| < n
        invariant Valid() && |data| <= n && old(Rest()) == data + Rest()
        invariant |source| <= |old(source)|
        invariant n <= old(BufferedBytes()) ==> source == old(source) && n - |data| <= BufferedBytes()
        decreases |source|, n - |data|
      {
        EmptyIffNoBytes(buffer);
        ghost var before := BufferedBytes();
        var more, eof := Read(n - |data|);
        if eof {
          assert data + [] == data;
          return data, false;
        }
        data := data + more;
      }
      ok := true;
    }

    /** `ReadAtMost`: some bytes, at most `size`, without splitting more than one buffer. */
    method ReadAtMost(size: nat) returns (mb: seq<Bytes>, eof: bool)
      requires Valid() && size > 0
      modifies this
      ensures Valid() && Regular(mb) && |Flatten(mb)| <= size && old(Rest()) == Flatten(mb) + Rest()
      ensures eof ==> Rest() == [] && Flatten(mb) == []
      ensures !eof && Flatten(mb) == [] ==> |source| < |old(source)| || |buffer| < |old(buffer)|
      ensures |source| <= |old(source)|
    {
      hide Flatten, FlattenAll, IsEmpty;
      EmptyIffNoBytes(buffer);
      FlattenNone();
      var held := buffer;
      if IsEmpty(buffer) {
        var more;
        more, eof := Pull();
        if eof {
          return [], true;
        }
        held := more;
      }
      var rest;
      rest, mb := SplitSize(held, size);
      ReadFromBuffer(Flatten(mb), rest, held, source);
      EmptyIffNoBytes(rest);
      NothingHeld(rest, source);
      buffer := if IsEmpty(rest) then [] else rest;
      eof := false;
    }
  }

  lemma ReadFromBuffer(data: Bytes, rest: seq<Bytes>, mb: seq<Bytes>, source: seq<seq<Bytes>>)
    requires data + Flatten(rest) == Flatten(mb)
    ensures Flatten(mb) + FlattenAll(source) == data + (Flatten(rest) + FlattenAll(source))
  {
  }

  lemma NothingHeld(mb: seq<Bytes>, source: seq<seq<Bytes>>)
    ensures IsEmpty(mb) ==> Flatten(mb) + FlattenAll(source) == Flatten([]) + FlattenAll(source)
  {
  }
}
