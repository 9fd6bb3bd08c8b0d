/** `DomainMatcherGroup`: a trie over the labels of domain patterns. */
module DomainTrie {
  import opened Octets
  import opened Matchers
  import opened Labels

  datatype Entry = Entry(pattern: Bytes, value: uint32)

  /** The values added under a path, in order. */
  function ValuesAt(entries: seq<Entry>, path: seq<Bytes>): seq<uint32> {
    if entries == [] then []
    else
      var last := entries[|entries| - 1];
      ValuesAt(entries[..|entries| - 1], path) + if Path(last.pattern) == path then [last.value] else []
  }

  /** What `Match` returns: the values along the first `k` labels, longer suffixes first. */
  function Along(entries: seq<Entry>, path: seq<Bytes>, k: nat): seq<uint32>
    requires k <= |path|
  {
    if k == 0 then [] else ValuesAt(entries, path[..k]) + Along(entries, path, k - 1)
  }

  /** The values of the entries whose pattern matches, in the order they were added. */
  function Matching(entries: seq<Entry>, s: Bytes): seq<uint32> {
    if entries == [] then []
    else
      var last := entries[|entries| - 1];
      Matching(entries[..|entries| - 1], s) + if DomainMatch(last.pattern, s) then [last.value] else []
  }

  lemma ValuesAtSnoc(entries: seq<Entry>, e: Entry, path: seq<Bytes>)
    ensures ValuesAt(entries + [e], path) == ValuesAt(entries, path) + if Path(e.pattern) == path then [e.value] else []
  {
  }

  lemma {:induction false} NoValues(entries: seq<Entry>, path: seq<Bytes>)
    requires forall i :: 0 <= i < |entries| ==> Path(entries[i].pattern) != path
    ensures ValuesAt(entries, path) == []
  {
    if entries != [] {
      NoValues(entries[..|entries| - 1], path);
    }
  }

  lemma {:induction false} AlongSnoc(entries: seq<Entry>, e: Entry, path: seq<Bytes>, k: nat)
    requires k <= |path|
    ensures multiset(Along(entries + [e], path, k))
         == multiset(Along(entries, path, k)) + (if Path(e.pattern) <= path[..k] then multiset{e.value} else multiset{})
  {
    hide ValuesAt, Path, Along;
    AlongUnfold(entries, path, k);
    AlongUnfold(entries + [e], path, k);
    if k > 0 {
      AlongSnoc(entries, e, path, k - 1);
      ValuesAtSnoc(entries, e, path[..k]);
      PrefixOneMore(Path(e.pattern), path, k);
    }
  }

  lemma AlongUnfold(entries: seq<Entry>, path: seq<Bytes>, k: nat)
    requires k <= |path|
    ensures Along(entries, path, k) == if k == 0 then [] else ValuesAt(entries, path[..k]) + Along(entries, path, k - 1)
  {
  }

  lemma PrefixOneMore(p: seq<Bytes>, path: seq<Bytes>, k: nat)
    requires 0 < k <= |path| && p != []
    ensures p <= path[..k] <==> p <= path[..k - 1] || p == path[..k]
    ensures p == path[..k] ==> !(p <= path[..k - 1])
  {
  }

  /** The walk collects exactly the values whose pattern matches the name, each as often as added. */
  lemma {:induction false} AlongIsMatching(entries: seq<Entry>, s: Bytes)
    ensures multiset(Along(entries, Path(s), |Path(s)|)) == multiset(Matching(entries, s))
  {
    hide ValuesAt, Path;
    if entries == [] {
      AlongNothing(Path(s), |Path(s)|);
    } else {
      var front, e := entries[..|entries| - 1], entries[|entries| - 1];
      assert entries == front + [e];
      AlongIsMatching(front, s);
      AlongSnoc(front, e, Path(s), |Path(s)|);
      DomainMatchIsPrefix(e.pattern, s);
      assert Path(s)[..|Path(s)|] == Path(s);
    }
  }

  lemma {:induction false} AlongNothing(path: seq<Bytes>, k: nat)
    requires k <= |path|
    ensures Along([], path, k) == []
  {
    if k > 0 {
      AlongNothing(path, k - 1);
    }
  }

  // ----- the order of the answer

  /** The entries under a path, by their numbers. */
  function IndicesAt(entries: seq<Entry>, path: seq<Bytes>): seq<nat> {
    if entries == [] then []
    else
      var n := |entries| - 1;
      IndicesAt(entries[..n], path) + if Path(entries[n].pattern) == path then [n] else []
  }

  function IndicesAlong(entries: seq<Entry>, path: seq<Bytes>, k: nat): seq<nat>
    requires k <= |path|
  {
    if k == 0 then [] else IndicesAt(entries, path[..k]) + IndicesAlong(entries, path, k - 1)
  }

  /** `ix` lists the entries under the path in order, and `vs` their values. */
  ghost predicate ListsAt(entries: seq<Entry>, path: seq<Bytes>, ix: seq<nat>, vs: seq<uint32>) {
    |ix| == |vs|
    && (forall a :: 0 <= a < |ix| ==> ix[a] < |entries| && entries[ix[a]].value == vs[a])
    && (forall a :: 0 <= a < |ix| ==> Path(entries[ix[a]].pattern) == path)
    && (forall i :: 0 <= i < |entries| && Path(entries[i].pattern) == path ==> i in ix)
    && (forall a, b :: 0 <= a < b < |ix| ==> ix[a] < ix[b])
  }

  lemma ListsOneMore(entries: seq<Entry>, path: seq<Bytes>, ix: seq<nat>, vs: seq<uint32>, e: Entry)
    requires ListsAt(entries, path, ix, vs)
    ensures if Path(e.pattern) == path then ListsAt(entries + [e], path, ix + [|entries|], vs + [e.value])
            else ListsAt(entries + [e], path, ix, vs)
  {
    hide Path;
    var all := entries + [e];
    forall i | 0 <= i < |all| && Path(all[i].pattern) == path
      ensures i in if Path(e.pattern) == path then ix + [|entries|] else ix
    {
      if i < |entries| {
        assert all[i] == entries[i];
      } else {
        assert (ix + [|entries|])[|ix|] == i;
      }
    }
  }

  lemma {:induction false} IndicesAtExactly(entries: seq<Entry>, path: seq<Bytes>)
    ensures ListsAt(entries, path, IndicesAt(entries, path), ValuesAt(entries, path))
  {
    hide Path, ListsAt;
    if entries == [] {
      ListsNothing(path);
    } else {
      var n := |entries| - 1;
      var front, e := entries[..n], entries[n];
      assert entries == front + [e];
      IndicesAtExactly(front, path);
      ListsOneMore(front, path, IndicesAt(front, path), ValuesAt(front, path), e);
      assert IndicesAt(front, path) + [] == IndicesAt(front, path);
      assert ValuesAt(front, path) + [] == ValuesAt(front, path);
    }
  }

  lemma ListsNothing(path: seq<Bytes>)
    ensures ListsAt([], path, [], [])
  {
  }

  /** Deeper entries come first, and those under one path in the order they were added. */
  ghost predicate Ranked(entries: seq<Entry>, ix: seq<nat>) {
    (forall a :: 0 <= a < |ix| ==> ix[a] < |entries|)
    && forall a, b :: 0 <= a < b < |ix| ==> Before(entries, ix[a], ix[b])
  }

  predicate Before(entries: seq<Entry>, i: nat, j: nat)
    requires i < |entries| && j < |entries|
  {
    |Path(entries[i].pattern)| > |Path(entries[j].pattern)|
    || (|Path(entries[i].pattern)| == |Path(entries[j].pattern)| && i < j)
  }

  lemma {:induction false} IndicesAlongExactly(entries: seq<Entry>, path: seq<Bytes>, k: nat)
    requires k <= |path|
    ensures var ix := IndicesAlong(entries, path, k);
            Ranked(entries, ix)
            && (forall i :: i in ix <==> 0 <= i < |entries| && Path(entries[i].pattern) <= path[..k])
            && |ix| == |Along(entries, path, k)|
            && forall a :: 0 <= a < |ix| ==> Along(entries, path, k)[a] == entries[ix[a]].value
  {
    hide Path, ValuesAt, IndicesAt;
    if k == 0 {
      assert path[..0] == [];
    } else {
      IndicesAlongExactly(entries, path, k - 1);
      IndicesAtExactly(entries, path[..k]);
      var deep, rest := IndicesAt(entries, path[..k]), IndicesAlong(entries, path, k - 1);
      forall i | 0 <= i < |entries|
        ensures Path(entries[i].pattern) <= path[..k] <==>
                Path(entries[i].pattern) <= path[..k - 1] || Path(entries[i].pattern) == path[..k]
      {
        PrefixOneMore(Path(entries[i].pattern), path, k);
      }
      RankedConcat(entries, deep, rest, k);
    }
  }

  lemma RankedConcat(entries: seq<Entry>, deep: seq<nat>, rest: seq<nat>, k: nat)
    requires Ranked(entries, rest) && (forall a :: 0 <= a < |deep| ==> deep[a] < |entries|)
    requires forall a :: 0 <= a < |deep| ==> |Path(entries[deep[a]].pattern)| == k
    requires forall a :: 0 <= a < |rest| ==> |Path(entries[rest[a]].pattern)| < k
    requires forall a, b :: 0 <= a < b < |deep| ==> deep[a] < deep[b]
    ensures Ranked(entries, deep + rest)
  {
    hide Path;
    var all := deep + rest;
    forall a, b | 0 <= a < b < |all|
      ensures Before(entries, all[a], all[b])
    {
      assert a >= |deep| ==> all[a] == rest[a - |deep|] && all[b] == rest[b - |deep|];
    }
  }

  /** Of two patterns that match a name, the longer one has more labels; equally many make them equal. */
  lemma LongerIsDeeper(p: Bytes, q: Bytes, s: Bytes)
    requires DomainMatch(p, s) && DomainMatch(q, s)
    ensures |Path(p)| > |Path(q)| ==> |p| > |q|
    ensures |Path(p)| == |Path(q)| ==> p == q
  {
    hide Path;
    DomainMatchIsPrefix(p, s);
    DomainMatchIsPrefix(q, s);
    DomainMatchIsPrefix(q, p);
    DomainMatchIsPrefix(p, q);
    if |Path(p)| >= |Path(q)| {
      assert Path(q) <= Path(p);
      assert |p| == |q| ==> p[|p| - |q|..] == p;
    }
  }

  /** The answer for a name, entry by entry: all entries whose pattern matches, each once, longer patterns
      first and equal ones in the order they were added. */
  lemma AnswerInOrder(entries: seq<Entry>, s: Bytes) returns (ix: seq<nat>)
    ensures |ix| == |Along(entries, Path(s), |Path(s)|)|
    ensures forall a :: 0 <= a < |ix| ==>
              ix[a] < |entries| && Along(entries, Path(s), |Path(s)|)[a] == entries[ix[a]].value
    ensures forall i :: i in ix <==> 0 <= i < |entries| && DomainMatch(entries[i].pattern, s)
    ensures forall a, b :: 0 <= a < b < |ix| ==>
              |entries[ix[a]].pattern| > |entries[ix[b]].pattern|
              || (entries[ix[a]].pattern == entries[ix[b]].pattern && ix[a] < ix[b])
  {
    hide Path, Along, IndicesAlong, DomainMatch;
    var path := Path(s);
    assert path[..|path|] == path;
    ix := IndicesAlong(entries, path, |path|);
    IndicesAlongExactly(entries, path, |path|);
    forall i | 0 <= i < |entries|
      ensures DomainMatch(entries[i].pattern, s) <==> Path(entries[i].pattern) <= path
    {
      DomainMatchIsPrefix(entries[i].pattern, s);
    }
    forall a, b | 0 <= a < b < |ix|
      ensures |entries[ix[a]].pattern| > |entries[ix[b]].pattern|
              || (entries[ix[a]].pattern == entries[ix[b]].pattern && ix[a] < ix[b])
    {
      assert ix[a] in ix && ix[b] in ix && Before(entries, ix[a], ix[b]);
      LongerIsDeeper(entries[ix[a]].pattern, entries[ix[b]].pattern, s);
    }
  }

  class Node {
    var values: seq<uint32>
    var sub: map<Bytes, Node>

    constructor ()
      ensures values == [] && sub == map[]
    {
      values, sub := [], map[];
    }
  }

  // ----- trees as values

  function Below(p: seq<Bytes>, part: Bytes): (q: seq<Bytes>)
    ensures q != [] && Up(q) == p && Tip(q) == part
  {
    p + [part]
  }

  function Up(q: seq<Bytes>): seq<Bytes>
    requires q != []
  {
    q[..|q| - 1]
  }

  function Tip(q: seq<Bytes>): Bytes
    requires q != []
  {
    q[|q| - 1]
  }

  ghost predicate Injective(nodes: map<seq<Bytes>, Node>) {
    forall p, q :: p in nodes && q in nodes && p != q ==> nodes[p] != nodes[q]
  }

  /** Every node but the root is a child of the one above it. */
  ghost predicate Linked(nodes: map<seq<Bytes>, Node>, subs: map<seq<Bytes>, map<Bytes, Node>>)
    requires subs.Keys == nodes.Keys
  {
    forall q :: q in nodes && q != [] ==>
      Up(q) in nodes && Tip(q) in subs[Up(q)] && subs[Up(q)][Tip(q)] == nodes[q]
  }

  /** Every child is a node. */
  ghost predicate Closed(nodes: map<seq<Bytes>, Node>, subs: map<seq<Bytes>, map<Bytes, Node>>)
    requires subs.Keys == nodes.Keys
  {
    forall p, k :: p in nodes && k in subs[p] ==> Below(p, k) in nodes
  }

  ghost predicate TreeOk(nodes: map<seq<Bytes>, Node>, subs: map<seq<Bytes>, map<Bytes, Node>>) {
    subs.Keys == nodes.Keys && Injective(nodes) && Linked(nodes, subs) && Closed(nodes, subs)
  }

  ghost predicate ContentsOk(values: map<seq<Bytes>, seq<uint32>>, entries: seq<Entry>) {
    (forall p :: p in values ==> values[p] == ValuesAt(entries, p))
    && (forall i :: 0 <= i < |entries| ==> Path(entries[i].pattern) in values)
  }

  lemma SamePath(q: seq<Bytes>, r: seq<Bytes>)
    requires q != [] && r != [] && Up(q) == Up(r) && Tip(q) == Tip(r)
    ensures q == r
  {
  }

  lemma NewChild(nodes: map<seq<Bytes>, Node>, subs: map<seq<Bytes>, map<Bytes, Node>>, at: seq<Bytes>,
                 part: Bytes, next: Node)
    requires TreeOk(nodes, subs) && at in nodes && Below(at, part) !in nodes && next !in nodes.Values
    ensures TreeOk(nodes[Below(at, part) := next], subs[at := subs[at][part := next]][Below(at, part) := map[]])
  {
    hide Below, Up, Tip, Injective, Linked, Closed;
    var q := Below(at, part);
    var nodes', subs' := nodes[q := next], subs[at := subs[at][part := next]][q := map[]];
    assert subs'.Keys == nodes'.Keys;
    assert Injective(nodes') by {
      NewInjective(nodes, q, next);
    }
    NewLinked(nodes, subs, q, next);
    NewClosed(nodes, subs, q, next);
  }

  lemma NewInjective(nodes: map<seq<Bytes>, Node>, q: seq<Bytes>, next: Node)
    requires Injective(nodes) && next !in nodes.Values
    ensures Injective(nodes[q := next])
  {
  }

  lemma NewLinked(nodes: map<seq<Bytes>, Node>, subs: map<seq<Bytes>, map<Bytes, Node>>, q: seq<Bytes>, next: Node)
    requires TreeOk(nodes, subs) && q != [] && q !in nodes && Up(q) in nodes
    ensures var subs' := subs[Up(q) := subs[Up(q)][Tip(q) := next]][q := map[]];
            subs'.Keys == nodes[q := next].Keys && Linked(nodes[q := next], subs')
  {
    hide Up, Tip, Below, Closed, Injective;
    var nodes', subs' := nodes[q := next], subs[Up(q) := subs[Up(q)][Tip(q) := next]][q := map[]];
    assert subs'.Keys == nodes'.Keys;
    forall r | r in nodes' && r != []
      ensures Up(r) in nodes' && Tip(r) in subs'[Up(r)] && subs'[Up(r)][Tip(r)] == nodes'[r]
    {
      if r != q {
        assert r in nodes && Up(r) in nodes && Up(r) != q;
        if Up(r) == Up(q) {
          if Tip(r) == Tip(q) {
            SamePath(r, q);
          }
        } else {
          assert subs'[Up(r)] == subs[Up(r)];
        }
      }
    }
  }

  lemma NewClosed(nodes: map<seq<Bytes>, Node>, subs: map<seq<Bytes>, map<Bytes, Node>>, q: seq<Bytes>, next: Node)
    requires TreeOk(nodes, subs) && q != [] && q !in nodes && Up(q) in nodes
    ensures var subs' := subs[Up(q) := subs[Up(q)][Tip(q) := next]][q := map[]];
            subs'.Keys == nodes[q := next].Keys && Closed(nodes[q := next], subs')
  {
    hide Up, Tip, Below, Linked, Injective;
    var nodes', subs' := nodes[q := next], subs[Up(q) := subs[Up(q)][Tip(q) := next]][q := map[]];
    assert subs'.Keys == nodes'.Keys;
    forall p, k | p in nodes' && k in subs'[p]
      ensures Below(p, k) in nodes'
    {
      if p == Up(q) && k == Tip(q) {
        SamePath(Below(p, k), q);
      }
    }
  }

  lemma NewChildContents(values: map<seq<Bytes>, seq<uint32>>, entries: seq<Entry>, q: seq<Bytes>)
    requires ContentsOk(values, entries) && q !in values
    ensures ContentsOk(values[q := []], entries)
  {
    hide ValuesAt, Path;
    NoValues(entries, q);
  }

  lemma PutContents(values: map<seq<Bytes>, seq<uint32>>, entries: seq<Entry>, e: Entry)
    requires ContentsOk(values, entries) && Path(e.pattern) in values
    ensures ContentsOk(values[Path(e.pattern) := values[Path(e.pattern)] + [e.value]], entries + [e])
  {
  }

  class DomainMatcherGroup {
    var root: Node?
    /** History: the node of every path, and the entries in the order they were added. */
    ghost var nodes: map<seq<Bytes>, Node>
    ghost var entries: seq<Entry>

    ghost predicate Valid()
      reads this, nodes.Values
    {
      Tree() && Contents()
    }

    /** The nodes form a tree, and each knows its children. */
    ghost predicate Tree()
      reads this, nodes.Values
    {
      (root == null <==> nodes == map[]) && (root != null ==> [] in nodes && nodes[[]] == root)
      && TreeOk(nodes, Subs())
    }

    ghost predicate Contents()
      reads this, nodes.Values
    {
      ContentsOk(Values(), entries)
    }

    /** The children and the values of all nodes, as values. */
    ghost function Subs(): map<seq<Bytes>, map<Bytes, Node>>
      reads this, nodes.Values
    {
      map p | p in nodes :: nodes[p].sub
    }

    ghost function Values(): map<seq<Bytes>, seq<uint32>>
      reads this, nodes.Values
    {
      map p | p in nodes :: nodes[p].values
    }

    constructor ()
      ensures Valid() && entries == [] && nodes == map[]
    {
      root, nodes, entries := null, map[], [];
    }

    /** `Match`: walk down the labels from the end of the name; deeper nodes rank higher. */
    method Match(domain: Bytes) returns (result: seq<uint32>)
      requires Valid()
      ensures domain == [] ==> result == []
      ensures domain != [] ==> result == Along(entries, Path(domain), |Path(domain)|)
    {
      hide ValuesAt, Path, Along, Tree, Contents, Reversed;
      result := [];
      if domain == [] {
        return;
      }
      ghost var path := Path(domain);
      if root == null {
        NoEntries(path);
        return;
      }
      var current: Node := root;
      var matches: seq<seq<uint32>> := [];
      var idx := |domain|;
      ghost var k := 0;
      AtRoot(path);
      assert domain[..|domain|] == domain && path[0..] == path;
      while idx != -1
        invariant -1 <= idx <= |domain| && k <= |path| && path[..k] in nodes && current == nodes[path[..k]]
        invariant if idx == -1 then k == |path| else path[k..] == Path(domain[..idx])
        invariant Reversed(matches) == Along(entries, path, k)
        decreases idx + 1
      {
        var nidx := NextPart(domain, idx);
        var part := domain[nidx + 1..idx];
        WalkNext(domain, idx, path, k);
        if part !in current.sub {
          DeadEnd(path, k);
          break;
        }
        Descend(path, k);
        current := current.sub[part];
        idx := nidx;
        k := k + 1;
        ReversedSnoc(matches, current.values);
        if |current.values| > 0 {
          matches := matches + [current.values];
        }
      }
      result := Concat(matches);
    }

    /** `Add`: create the nodes of the path that are missing, and append the value at its end. */
    method Add(domain: Bytes, value: uint32)
      requires Valid()
      modifies this, nodes.Values
      ensures Valid() && entries == old(entries) + [Entry(domain, value)]
      ensures forall n :: n in nodes.Values ==> n in old(nodes.Values) || fresh(n)
    {
      hide ValuesAt, Path, Contents, Tree, Split, Along, LastDot;
      if root == null {
        EnsureRoot();
      }
      AtRoot(Path(domain));
      var current: Node := root;
      var parts := Split(domain);
      ghost var path := Path(domain);
      PathReversesSplit(domain);
      var i := |parts| - 1;
      while i >= 0
        invariant -1 <= i < |parts| == |path|
        invariant Tree() && Contents() && entries == old(entries) && root != null
        invariant forall n :: n in nodes.Values ==> n in old(nodes.Values) || fresh(n)
        invariant path[..|parts| - 1 - i] in nodes && current == nodes[path[..|parts| - 1 - i]]
      {
        ghost var at := path[..|parts| - 1 - i];
        assert path[..|parts| - i] == Below(at, parts[i]);
        current := Child(at, current, parts[i]);
        i := i - 1;
      }
      assert path[..|path|] == path;
      Put(domain, value, current);
    }

    method EnsureRoot()
      requires Tree() && Contents() && root == null
      modifies this
      ensures Tree() && Contents() && root != null && entries == old(entries)
      ensures fresh(root) && nodes.Values == {root}
    {
      hide ValuesAt, Path;
      NoEntries([]);
      var n := new Node();
      root := n;
      nodes := map[[] := n];
      assert nodes.Values == {n};
    }

    /** The child of a node, created when missing. */
    method Child(ghost at: seq<Bytes>, current: Node, part: Bytes) returns (next: Node)
      requires Tree() && Contents() && root != null && at in nodes && current == nodes[at]
      modifies this`nodes, current`sub
      ensures Tree() && Contents()
      ensures Below(at, part) in nodes && next == nodes[Below(at, part)]
      ensures forall n :: n in nodes.Values ==> n in old(nodes.Values) || fresh(n)
    {
      hide TreeOk, ContentsOk, Below, Contents;
      ChildOf(nodes, Subs(), at, part);
      if part in current.sub {
        next := current.sub[part];
      } else {
        next := NewNode(at, current, part);
      }
    }

    method NewNode(ghost at: seq<Bytes>, current: Node, part: Bytes) returns (next: Node)
      requires Tree() && Contents() && root != null && at in nodes && current == nodes[at]
      requires Below(at, part) !in nodes
      modifies this`nodes, current`sub
      ensures Tree() && Contents()
      ensures fresh(next) && nodes == old(nodes)[Below(at, part) := next]
    {
      hide TreeOk, ContentsOk, Below, Up, Tip, Injective, ValuesAt, Path;
      ghost var q := Below(at, part);
      ghost var subs, values := Subs(), Values();
      next := new Node();
      ChildOf(nodes, subs, at, part);
      NewChild(nodes, subs, at, part, next);
      NewChildContents(values, entries, q);
      OthersAre(nodes, at, current);
      Attach(at, current, part, q, next);
    }

    method Attach(ghost at: seq<Bytes>, current: Node, part: Bytes, ghost q: seq<Bytes>, next: Node)
      requires at in nodes && current == nodes[at] && q !in nodes && next !in nodes.Values
      requires forall p :: p in nodes && p != at ==> nodes[p] != current
      requires next.values == [] && next.sub == map[]
      modifies this`nodes, current`sub
      ensures nodes == old(nodes)[q := next]
      ensures Subs() == old(Subs())[at := old(Subs())[at][part := next]][q := map[]]
      ensures Values() == old(Values())[q := []]
    {
      hide Subs, Values;
      SetSub(at, current, part, next);
      Register(q, next);
    }

    method SetSub(ghost at: seq<Bytes>, current: Node, part: Bytes, next: Node)
      requires at in nodes && current == nodes[at] && next !in nodes.Values
      requires forall p :: p in nodes && p != at ==> nodes[p] != current
      modifies current`sub
      ensures at in old(Subs()) && Subs() == old(Subs())[at := old(Subs())[at][part := next]]
      ensures Values() == old(Values())
      ensures next != current
    {
      assert next != current;
      current.sub := current.sub[part := next];
    }

    ghost method Register(q: seq<Bytes>, next: Node)
      requires q !in nodes && next.values == [] && next.sub == map[]
      modifies this`nodes
      ensures nodes == old(nodes)[q := next]
      ensures Subs() == old(Subs())[q := map[]] && Values() == old(Values())[q := []]
    {
      nodes := nodes[q := next];
    }

    method Put(domain: Bytes, value: uint32, current: Node)
      requires Tree() && Contents() && Path(domain) in nodes && current == nodes[Path(domain)]
      modifies this`entries, current`values
      ensures Tree() && Contents() && entries == old(entries) + [Entry(domain, value)]
    {
      hide TreeOk, ContentsOk, Path;
      ghost var p, subs, values := Path(domain), Subs(), Values();
      PutContents(values, entries, Entry(domain, value));
      DistinctNodes(nodes, subs);
      OthersAre(nodes, p, current);
      current.values := current.values + [value];
      entries := entries + [Entry(domain, value)];
      assert Subs() == subs;
      assert Values() == values[p := values[p] + [value]];
    }

    // ----- facts about the tree

    lemma AtRoot(path: seq<Bytes>)
      requires Tree() && root != null
      ensures path[..0] in nodes && nodes[path[..0]] == root && Along(entries, path, 0) == [] == Reversed([])
    {
    }

    lemma NoEntries(path: seq<Bytes>)
      requires Tree() && Contents() && root == null
      ensures entries == [] && Along(entries, path, |path|) == [] && ValuesAt(entries, []) == []
    {
      hide Along, Path, TreeOk;
      FirstEntry(entries);
      AlongNothing(path, |path|);
    }

    lemma Descend(path: seq<Bytes>, k: nat)
      requires Tree() && Contents() && k < |path| && path[..k] in nodes && path[k] in nodes[path[..k]].sub
      ensures path[..k + 1] in nodes && nodes[path[..k]].sub[path[k]] == nodes[path[..k + 1]]
      ensures Along(entries, path, k + 1) == nodes[path[..k + 1]].values + Along(entries, path, k)
    {
      hide ValuesAt, Path, TreeOk;
      ChildOf(nodes, Subs(), path[..k], path[k]);
      assert path[..k + 1] == Below(path[..k], path[k]);
      assert Values()[path[..k + 1]] == nodes[path[..k + 1]].values;
    }

    /** Below a missing child there is nothing, so the walk may stop. */
    lemma DeadEnd(path: seq<Bytes>, k: nat)
      requires Tree() && Contents() && k < |path| && path[..k] in nodes && path[k] !in nodes[path[..k]].sub
      ensures Along(entries, path, |path|) == Along(entries, path, k)
    {
      hide ValuesAt, Path, TreeOk, ContentsOk, Along;
      ChildOf(nodes, Subs(), path[..k], path[k]);
      assert path[..k + 1] == Below(path[..k], path[k]);
      NothingBelow(nodes, Subs(), Values(), entries, path, k, |path|);
    }
  }

  lemma OthersAre(nodes: map<seq<Bytes>, Node>, at: seq<Bytes>, current: Node)
    requires Injective(nodes) && at in nodes && nodes[at] == current
    ensures forall p :: p in nodes && p != at ==> nodes[p] != current
  {
  }

  lemma DistinctNodes(nodes: map<seq<Bytes>, Node>, subs: map<seq<Bytes>, map<Bytes, Node>>)
    requires TreeOk(nodes, subs)
    ensures Injective(nodes)
  {
  }

  /** A node's children are the nodes one label below it. */
  lemma ChildOf(nodes: map<seq<Bytes>, Node>, subs: map<seq<Bytes>, map<Bytes, Node>>, at: seq<Bytes>, part: Bytes)
    requires TreeOk(nodes, subs) && at in nodes
    ensures at in subs && (part in subs[at] <==> Below(at, part) in nodes)
    ensures part in subs[at] ==> subs[at][part] == nodes[Below(at, part)]
    ensures Injective(nodes) && Below(at, part) != at
  {
  }

  lemma {:induction false} NothingBelow(nodes: map<seq<Bytes>, Node>, subs: map<seq<Bytes>, map<Bytes, Node>>,
                                        values: map<seq<Bytes>, seq<uint32>>, entries: seq<Entry>,
                                        path: seq<Bytes>, k: nat, j: nat)
    requires TreeOk(nodes, subs) && ContentsOk(values, entries) && values.Keys == nodes.Keys
    requires k < j <= |path| && path[..k + 1] !in nodes
    ensures path[..j] !in nodes && Along(entries, path, j) == Along(entries, path, k)
  {
    hide TreeOk, ContentsOk, Along;
    if j > k + 1 {
      NothingBelow(nodes, subs, values, entries, path, k, j - 1);
      assert Up(path[..j]) == path[..j - 1];
      if path[..j] in nodes {
        UpInTree(nodes, subs, path[..j]);
      }
    }
    AlongMissing(values, entries, path, j);
  }

  lemma UpInTree(nodes: map<seq<Bytes>, Node>, subs: map<seq<Bytes>, map<Bytes, Node>>, q: seq<Bytes>)
    requires TreeOk(nodes, subs) && q in nodes && q != []
    ensures Up(q) in nodes
  {
  }

  lemma AlongMissing(values: map<seq<Bytes>, seq<uint32>>, entries: seq<Entry>, path: seq<Bytes>, j: nat)
    requires ContentsOk(values, entries) && 0 < j <= |path| && path[..j] !in values
    ensures Along(entries, path, j) == Along(entries, path, j - 1)
  {
    hide ValuesAt, Path;
    NoValues(entries, path[..j]);
  }

  lemma FirstEntry(entries: seq<Entry>)
    ensures entries != [] ==> entries[0] in entries
  {
  }

  lemma LastDotPrefix(s: Bytes, i: nat)
    requires i <= |s|
    ensures LastDot(s[..i], i) == LastDot(s, i)
  {
  }

  lemma WalkNext(domain: Bytes, idx: nat, path: seq<Bytes>, k: nat)
    requires idx <= |domain| && k <= |path| && path[k..] == Path(domain[..idx])
    ensures var nidx := LastDot(domain, idx);
            k < |path| && path[k] == domain[nidx + 1..idx]
            && (if nidx == -1 then k + 1 == |path| else path[k + 1..] == Path(domain[..nidx]))
  {
    hide LastDot, Path;
    var nidx := LastDot(domain, idx);
    PathOfPrefix(domain, idx);
    FirstPart(path, k, domain[nidx + 1..idx], if nidx == -1 then [] else Path(domain[..nidx]));
  }

  lemma PathOfPrefix(domain: Bytes, idx: nat)
    requires idx <= |domain|
    ensures var nidx := LastDot(domain, idx);
            Path(domain[..idx]) == [domain[nidx + 1..idx]] + if nidx == -1 then [] else Path(domain[..nidx])
  {
    hide LastDot, Path;
    var d := domain[..idx];
    var nidx := LastDot(domain, idx);
    LastDotPrefix(domain, idx);
    assert LastDot(d, |d|) == nidx;
    PathUnfold(d);
    if nidx == -1 {
      assert Path(d) == [d] + [] && domain[0..idx] == d;
    } else {
      PartOf(domain, idx, nidx);
    }
  }

  lemma PartOf(domain: Bytes, idx: nat, nidx: int)
    requires -1 <= nidx < idx <= |domain|
    ensures domain[..idx][nidx + 1..] == domain[nidx + 1..idx]
    ensures nidx >= 0 ==> domain[..idx][..nidx] == domain[..nidx]
  {
  }

  lemma FirstPart(path: seq<Bytes>, k: nat, head: Bytes, tail: seq<Bytes>)
    requires k <= |path| && path[k..] == [head] + tail
    ensures k < |path| && path[k] == head && path[k + 1..] == tail
  {
  }

  /** All values, the list collected last first. */
  function Reversed(matches: seq<seq<uint32>>): seq<uint32> {
    if matches == [] then [] else matches[|matches| - 1] + Reversed(matches[..|matches| - 1])
  }

  lemma ReversedSnoc(matches: seq<seq<uint32>>, vs: seq<uint32>)
    ensures Reversed(matches + [vs]) == vs + Reversed(matches)
    ensures vs == [] ==> vs + Reversed(matches) == Reversed(matches)
  {
  }

  method Concat(matches: seq<seq<uint32>>) returns (result: seq<uint32>)
    ensures result == Reversed(matches)
  {
    result := [];
    var idx := 0;
    assert matches[..|matches|] == matches;
    while idx < |matches|
      invariant 0 <= idx <= |matches|
      invariant Reversed(matches) == result + Reversed(matches[..|matches| - idx])
    {
      var n := |matches| - idx;
      assert matches[..n][..n - 1] == matches[..n - 1];
      assert Reversed(matches[..n]) == matches[n - 1] + Reversed(matches[..n - 1]);
      result := result + matches[|matches| - 1 - idx];
      idx := idx + 1;
    }
  }

  method NextPart(domain: Bytes, idx: nat) returns (r: int)
    requires idx <= |domain|
    ensures r == LastDot(domain, idx)
  {
    var i := idx - 1;
    while i >= 0
      invariant -1 <= i < idx && LastDot(domain, idx) == LastDot(domain, i + 1)
    {
      if domain[i] == DOT {
        return i;
      }
      i := i - 1;
    }
    return -1;
  }
}
