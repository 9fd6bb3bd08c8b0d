/** Names as lists of labels, last label first, and domain matching in those terms. */
module Labels {
  import opened Octets
  import opened Matchers

  /** The position of the last dot before `i`, or -1. */
  function LastDot(s: Bytes, i: nat): (r: int)
    requires i <= |s|
    ensures -1 <= r < i && (r >= 0 ==> s[r] == DOT) && forall k :: r < k < i ==> s[k] != DOT
  {
    if i == 0 then -1 else if s[i - 1] == DOT then i - 1 else LastDot(s, i - 1)
  }

  /** `strings.Split` at the dots. */
  function Split(s: Bytes): (parts: seq<Bytes>)
    ensures |parts| >= 1
    decreases |s|
  {
    var i := LastDot(s, |s|);
    if i == -1 then [s] else Split(s[..i]) + [s[i + 1..]]
  }

  /** The labels of a name from its end. */
  function Path(s: Bytes): (labels: seq<Bytes>)
    ensures |labels| >= 1
    decreases |s|
  {
    var i := LastDot(s, |s|);
    [s[i + 1..]] + if i == -1 then [] else Path(s[..i])
  }

  lemma PathUnfold(s: Bytes)
    ensures var i := LastDot(s, |s|);
            Path(s) == if i == -1 then [s] else [s[i + 1..]] + Path(s[..i])
  {
    hide LastDot;
    assert s[0..] == s && [s] + [] == [s];
  }

  lemma SplitUnfold(s: Bytes)
    ensures var i := LastDot(s, |s|);
            Split(s) == if i == -1 then [s] else Split(s[..i]) + [s[i + 1..]]
  {
    hide LastDot;
  }

  /** Walking the split name from its last part follows its path. */
  lemma {:induction false} PathReversesSplit(s: Bytes)
    ensures |Path(s)| == |Split(s)|
    ensures forall k :: 0 <= k < |Path(s)| ==> Path(s)[k] == Split(s)[|Split(s)| - 1 - k]
    decreases |s|
  {
    hide LastDot, Path, Split;
    PathUnfold(s);
    SplitUnfold(s);
    var i := LastDot(s, |s|);
    if i >= 0 {
      PathReversesSplit(s[..i]);
      Reverses(s[i + 1..], Path(s[..i]), Split(s[..i]), Path(s), Split(s));
    }
  }

  lemma Reverses(x: Bytes, a: seq<Bytes>, b: seq<Bytes>, a': seq<Bytes>, b': seq<Bytes>)
    requires |a| == |b| && forall k :: 0 <= k < |a| ==> a[k] == b[|b| - 1 - k]
    requires a' == [x] + a && b' == b + [x]
    ensures |a'| == |b'| && forall k :: 0 <= k < |a'| ==> a'[k] == b'[|b'| - 1 - k]
  {
    forall k | 0 <= k < |a'|
      ensures a'[k] == b'[|b'| - 1 - k]
    {
      if k > 0 {
        assert a'[k] == a[k - 1] && b'[|b'| - 1 - k] == b[|b| - k];
      }
    }
  }

  function Join(labels: seq<Bytes>): Bytes
    requires |labels| >= 1
  {
    if |labels| == 1 then labels[0] else Join(labels[1..]) + [DOT] + labels[0]
  }

  lemma JoinCons(x: Bytes, rest: seq<Bytes>)
    requires |rest| >= 1
    ensures Join([x] + rest) == Join(rest) + [DOT] + x
  {
  }

  lemma {:induction false} JoinPath(s: Bytes)
    ensures Join(Path(s)) == s
    decreases |s|
  {
    hide LastDot, Path, Join;
    PathUnfold(s);
    var i := LastDot(s, |s|);
    if i >= 0 {
      JoinPath(s[..i]);
      JoinCons(s[i + 1..], Path(s[..i]));
      assert s == s[..i] + [DOT] + s[i + 1..];
    } else {
      JoinOne(s);
    }
  }

  lemma JoinOne(s: Bytes)
    ensures Join([s]) == s
  {
  }

  lemma {:induction false} JoinConcat(a: seq<Bytes>, b: seq<Bytes>)
    requires |a| >= 1 && |b| >= 1
    ensures Join(a + b) == Join(b) + [DOT] + Join(a)
  {
    hide Join;
    if |a| == 1 {
      JoinCons(a[0], b);
      JoinOne(a[0]);
      assert a == [a[0]];
    } else {
      JoinConcat(a[1..], b);
      JoinCons(a[0], a[1..]);
      JoinCons(a[0], a[1..] + b);
      assert a == [a[0]] + a[1..] && a + b == [a[0]] + (a[1..] + b);
      assert Join(b) + [DOT] + Join(a[1..]) + [DOT] + a[0] == Join(b) + [DOT] + (Join(a[1..]) + [DOT] + a[0]);
    }
  }

  /** A dot separates the labels on its two sides. */
  lemma {:induction false} PathAtDot(t: Bytes, p: Bytes)
    ensures Path(t + [DOT] + p) == Path(p) + Path(t)
    decreases |p|
  {
    hide LastDot, Path;
    var s, i := t + [DOT] + p, LastDot(p, |p|);
    LastDotIn(t, p);
    PathUnfold(s);
    PathUnfold(p);
    if i == -1 {
      Parts(t, p, 0);
      assert s[..|t|] == t;
    } else {
      Parts(t, p, i + 1);
      PathAtDot(t, p[..i]);
      assert [p[i + 1..]] + (Path(p[..i]) + Path(t)) == ([p[i + 1..]] + Path(p[..i])) + Path(t);
    }
  }

  lemma Parts(t: Bytes, p: Bytes, i: nat)
    requires i <= |p|
    ensures (t + [DOT] + p)[|t| + 1 + i..] == p[i..] && p[0..] == p
    ensures i > 0 ==> (t + [DOT] + p)[..|t| + i] == t + [DOT] + p[..i - 1]
  {
  }

  lemma LastDotIn(t: Bytes, p: Bytes)
    ensures LastDot(t + [DOT] + p, |t + [DOT] + p|) == if LastDot(p, |p|) == -1 then |t| else |t| + 1 + LastDot(p, |p|)
  {
    hide LastDot;
    var s := t + [DOT] + p;
    var j, r := LastDot(p, |p|), LastDot(s, |s|);
    assert s[|t|] == DOT;
    forall k | |t| < k < |s|
      ensures s[k] == p[k - |t| - 1]
    {
    }
    assert j >= 0 ==> s[|t| + 1 + j] == DOT;
    assert forall k :: 0 <= k < |p| ==> p[k] == s[k + |t| + 1];
  }

  /** A domain pattern matches exactly the names whose labels begin, from the end, with its own. */
  lemma DomainMatchIsPrefix(p: Bytes, s: Bytes)
    ensures DomainMatch(p, s) <==> Path(p) <= Path(s)
  {
    hide Path, Join, LastDot;
    DomainMatchByDot(p, s);
    if HasSuffix(s, [DOT] + p) {
      var t := s[..|s| - |p| - 1];
      assert s == t + ([DOT] + p) == t + [DOT] + p;
      PathAtDot(t, p);
    }
    if Path(p) <= Path(s) {
      JoinPath(p);
      JoinPath(s);
      var rest := Path(s)[|Path(p)|..];
      assert Path(s) == Path(p) + rest;
      if rest == [] {
        assert Path(s) == Path(p);
      } else {
        JoinConcat(Path(p), rest);
        assert s == Join(rest) + ([DOT] + p);
      }
    }
  }
}
