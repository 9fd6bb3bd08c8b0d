/** `ac_automaton_matcher.go`, for the substring patterns `MphMatcherGroup` puts into it. */
module AhoCorasick {
  import opened Octets
  import opened Matchers
  import opened SuffixTheory

  const VALID_CHAR_COUNT := 53
  /** The length of the index table; a larger byte ends a match with false. */
  const TABLE := 127

  /** `char2Index`: letters fold case, unlisted bytes share the index of 'a'. */
  function CharIndex(b: byte): (i: nat)
    ensures i < VALID_CHAR_COUNT
  {
    if 65 <= b <= 90 then b - 65
    else if 97 <= b <= 122 then b - 97
    else if 48 <= b <= 57 then b - 5
    else match b
      case 33 => 26  // !
      case 36 => 27  // $
      case 38 => 28  // &
      case 39 => 29  // '
      case 40 => 30  // (
      case 41 => 31  // )
      case 42 => 32  // *
      case 43 => 33  // +
      case 44 => 34  // ,
      case 59 => 35  // ;
      case 61 => 36  // =
      case 58 => 37  // :
      case 37 => 38  // %
      case 45 => 39  // -
      case 46 => 40  // .
      case 95 => 41  // _
      case 126 => 42 // ~
      case _ => 0
  }

  /** The indices of a string, from its end to its beginning: the order in which it is read. */
  function Reading(s: Bytes): (w: Word)
    ensures |w| == |s|
  {
    seq(|s|, i requires 0 <= i < |s| => CharIndex(s[|s| - 1 - i]))
  }

  ghost function Readings(strings: set<Bytes>): set<Word> {
    set s | s in strings :: Reading(s)
  }

  datatype MatchType = MatchType(matchType: Type, exist: bool)

  datatype Edge = Edge(edgeType: bool, nextNode: nat)

  type Row = seq<Edge>

  function EmptyRow(): (r: seq<Edge>)
    ensures |r| == VALID_CHAR_COUNT
  {
    seq(VALID_CHAR_COUNT, _ => Edge(false, 0))
  }

  // ----- the trie, in terms of the word each node stands for

  ghost function WordSet(words: seq<Word>): set<Word> {
    set w | w in words
  }

  lemma SameNode(words: seq<Word>, m: nat, n: nat)
    requires Distinct(words) && m < |words| && n < |words| && words[m] == words[n]
    ensures m == n
  {
  }

  ghost predicate Shape(trie: seq<Row>, words: seq<Word>) {
    |trie| == |words| && words != [] && words[0] == [] && Distinct(words)
    && (forall n :: 0 <= n < |trie| ==> |trie[n]| == VALID_CHAR_COUNT)
    && (forall n :: 0 < n < |words| ==> words[n] != [] && words[n][|words[n]| - 1] < VALID_CHAR_COUNT)
  }

  /** Node `n` has an edge for exactly its children. */
  ghost predicate Raw(trie: seq<Row>, words: seq<Word>, n: nat)
    requires n < |trie| == |words|
  {
    |trie[n]| == VALID_CHAR_COUNT &&
    forall c :: 0 <= c < VALID_CHAR_COUNT ==> RawEdge(trie[n][c], words, words[n] + [c])
  }

  ghost predicate RawEdge(e: Edge, words: seq<Word>, w: Word) {
    e.nextNode < |words| && e.edgeType == (e.nextNode != 0)
    && (if e.nextNode == 0 then w !in words else words[e.nextNode] == w)
  }

  /** Every node has exactly its children. */
  ghost predicate RawTrie(trie: seq<Row>, words: seq<Word>) {
    Shape(trie, words) && forall n :: 0 <= n < |trie| ==> Raw(trie, words, n)
  }

  lemma EdgeOf(trie: seq<Row>, words: seq<Word>, n: nat, c: nat)
    requires RawTrie(trie, words) && n < |trie| && c < VALID_CHAR_COUNT
    ensures n < |words| && |trie[n]| == VALID_CHAR_COUNT && RawEdge(trie[n][c], words, words[n] + [c])
  {
    assert Raw(trie, words, n);
  }

  /** Node `n` has an edge for every letter, to the longest suffix that is a word. */
  ghost predicate Done(trie: seq<Row>, words: seq<Word>, n: nat)
    requires n < |trie| == |words| && [] in WordSet(words)
  {
    |trie[n]| == VALID_CHAR_COUNT &&
    forall c :: 0 <= c < VALID_CHAR_COUNT ==> DoneEdge(trie[n][c], words, words[n] + [c])
  }

  ghost predicate DoneEdge(e: Edge, words: seq<Word>, w: Word)
    requires [] in WordSet(words)
  {
    e.nextNode < |words| && words[e.nextNode] == Longest(WordSet(words), w) && e.edgeType == (w in words)
  }

  lemma RawAt(trie: seq<Row>, words: seq<Word>, n: nat, c: nat)
    requires n < |trie| == |words| && Raw(trie, words, n) && c < VALID_CHAR_COUNT
    ensures |trie[n]| == VALID_CHAR_COUNT && RawEdge(trie[n][c], words, words[n] + [c])
  {
  }

  lemma DoneAt(trie: seq<Row>, words: seq<Word>, n: nat, c: nat)
    requires n < |trie| == |words| && [] in WordSet(words) && Done(trie, words, n) && c < VALID_CHAR_COUNT
    ensures |trie[n]| == VALID_CHAR_COUNT && DoneEdge(trie[n][c], words, words[n] + [c])
  {
  }

  /** Nodes are marked exactly when their word is a pattern. */
  ghost predicate Marks(marks: seq<MatchType>, words: seq<Word>, P: set<Word>) {
    |marks| == |words| &&
    forall n :: 0 <= n < |words| ==>
      marks[n] == if words[n] in P then MatchType(Substr, true) else MatchType(Full, false)
  }

  lemma TrieGrows(W: set<Word>, P: set<Word>, r: Word, k: nat)
    requires k < |r| && IsTrieOf(W, P + {r[..k]})
    ensures IsTrieOf(W + {r[..k + 1]}, P + {r[..k + 1]})
  {
    var W', P' := W + {r[..k + 1]}, P + {r[..k + 1]};
    forall w | w in W' && w != []
      ensures exists p :: p in P' && w <= p
    {
      if w == r[..k + 1] {
        assert r[..k + 1] in P';
      } else {
        var p :| p in P + {r[..k]} && w <= p;
        if p !in P {
          assert w <= r[..k + 1];
        }
      }
    }
    forall p, j | p in P' && 0 <= j <= |p|
      ensures p[..j] in W'
    {
      if p == r[..k + 1] {
        if j == k + 1 {
          assert p[..j] == r[..k + 1];
        } else {
          assert p[..j] == r[..k][..j];
        }
      }
    }
  }

  lemma RootRowIsDone(trie: seq<Row>, words: seq<Word>)
    requires Shape(trie, words) && Raw(trie, words, 0)
    ensures Done(trie, words, 0)
  {
  }

  ghost predicate NoFails(fail: seq<nat>) {
    forall n :: 0 <= n < |fail| ==> fail[n] == 0
  }

  /** The words and marks after asking for the child with word `w`: as before, or with one node more. */
  ghost predicate Grown(words: seq<Word>, marks: seq<MatchType>, w: Word, words': seq<Word>, marks': seq<MatchType>) {
    (words' == words && marks' == marks) ||
    (w !in words && words' == words + [w] && marks' == marks + [MatchType(Full, false)])
  }

  class ACAutomaton {
    var trie: seq<Row>
    var fail: seq<nat>
    var marks: seq<MatchType>
    var count: nat
    /** History: the word of every node, the patterns as words, and the patterns as added. */
    ghost var words: seq<Word>
    ghost var patterns: set<Word>
    ghost var added: set<Bytes>

    /** Holding the patterns, before `Build`. */
    ghost predicate Open()
      reads this
    {
      Growing(patterns) && Marks(marks, words, patterns) && patterns == Readings(added)
    }

    /** The trie of the patterns together with the ones in `P`. */
    ghost predicate Growing(P: set<Word>)
      reads this
    {
      Counted() && RawTrie(trie, words) && IsTrieOf(WordSet(words), P)
    }

    ghost predicate Counted()
      reads this
    {
      0 < |trie| == |words| == |fail| == |marks| == count + 1 && NoFails(fail)
    }

    /** After `Build`, ready to match. */
    ghost predicate Built()
      reads this
    {
      Shape(trie, words) && Marks(marks, words, patterns) && IsTrieOf(WordSet(words), patterns)
      && patterns == Readings(added) && AllFailOk(fail, words)
      && (forall n :: 0 <= n < |trie| ==> Done(trie, words, n))
    }

    constructor ()
      ensures Open() && added == {}
    {
      trie, fail, count := [EmptyRow()], [0], 0;
      marks := [MatchType(Full, false)];
      words, patterns, added := [[]], {}, {};
    }

    /** The child of a node, created when missing. */
    method Child(node: nat, idx: nat) returns (next: nat)
      requires node < |trie| && idx < VALID_CHAR_COUNT
      requires Counted() && RawTrie(trie, words) && PrefixClosed(WordSet(words))
      modifies `trie, `fail, `marks, `count, `words
      ensures Counted() && RawTrie(trie, words)
      ensures next < |words| && words[next] == old(words)[node] + [idx]
      ensures Grown(old(words), old(marks), old(words)[node] + [idx], words, marks)
    {
      hide RawTrie, PrefixClosed, EmptyRow, NoFails, Distinct, WithChild, WordSet;
      ghost var w := words[node] + [idx];
      EdgeOf(trie, words, node, idx);
      if trie[node][idx].nextNode == 0 {
        NewNode(trie, words, node, idx, fail);
        count := count + 1;
        trie := WithChild(trie, node, idx);
        fail, marks, words := fail + [0], marks + [MatchType(Full, false)], words + [w];
        next := count;
      } else {
        next := trie[node][idx].nextNode;
      }
    }

    /** One letter of a pattern, read from its end. */
    method AddLetter(domain: Bytes, i: nat, node: nat) returns (next: nat)
      requires i < |domain| && node < |words| && words[node] == Reading(domain)[..|domain| - 1 - i]
      requires Growing(patterns + {Reading(domain)[..|domain| - 1 - i]})
      requires Marks(marks, words, patterns) && PatternsPresent(words, patterns)
      modifies `trie, `fail, `marks, `count, `words
      ensures next < |words| && words[next] == Reading(domain)[..|domain| - i]
      ensures Growing(patterns + {Reading(domain)[..|domain| - i]})
      ensures Marks(marks, words, patterns) && PatternsPresent(words, patterns)
    {
      hide RawTrie, IsTrieOf, PrefixClosed, Marks, CharIndex, PatternsPresent, Grown, NoFails, WordSet, Reading;
      ghost var r, k := Reading(domain), |domain| - 1 - i;
      TrieIsPrefixClosed(WordSet(words), patterns + {r[..k]});
      ghost var words0, marks0 := words, marks;
      next := Child(node, CharIndex(domain[i]));
      ReadingNext(domain, k);
      AfterChild(words0, marks0, patterns, r, k, words, marks, next);
    }

    /** `Add` of a substring pattern; bytes outside the index table make the source panic. */
    method Add(domain: Bytes)
      requires Open()
      requires forall i :: 0 <= i < |domain| ==> domain[i] < TABLE
      modifies this
      ensures Open() && added == old(added) + {domain}
    {
      hide RawTrie, IsTrieOf, PrefixClosed, Marks, PatternsPresent, NoFails, WordSet, Reading, Readings;
      ghost var r := Reading(domain);
      var node: nat := 0;
      var i := |domain| - 1;
      StartOfPattern(trie, words, marks, patterns, r);
      while i >= 0
        invariant -1 <= i < |domain| && node < |words| && words[node] == r[..|domain| - 1 - i]
        invariant patterns == old(patterns) && added == old(added) && Growing(patterns + {r[..|domain| - 1 - i]})
        invariant Marks(marks, words, patterns) && PatternsPresent(words, patterns)
      {
        node := AddLetter(domain, i, node);
        i := i - 1;
      }
      assert r[..|domain|] == r;
      EndOfPattern(trie, marks, words, patterns, r, node);
      ReadingsMore(added, domain);
      marks := marks[node := MatchType(Substr, true)];
      patterns, added := patterns + {r}, added + {domain};
    }

    /** The inner loop of `Build`: complete the row of a node and queue its children. */
    method CompleteNode(node: nat, rest: seq<nat>) returns (queue: seq<nat>)
      requires node < |trie| == |words| == |fail| && fail[node] < |trie| && fail[node] != node
      requires CanComplete(trie, words, node, fail[node]) && |trie[node]| == VALID_CHAR_COUNT
      modifies `trie, `fail
      ensures |trie| == |old(trie)| && trie == old(trie)[node := trie[node]] && |fail| == |old(fail)|
      ensures RowDone(trie[node], old(trie)[node], words, words[node], VALID_CHAR_COUNT)
      ensures queue == rest + Kids(old(trie)[node], VALID_CHAR_COUNT)
      ensures FailsDone(fail, old(fail), words, Kids(old(trie)[node], VALID_CHAR_COUNT))
    {
      hide CanComplete, RowDone, FailsDone, Kids, DoneEdge, Longest;
      queue := rest;
      ghost var row, fail0, w := trie[node], fail, words[node];
      var f := fail[node];
      var i := 0;
      LetterOf(trie, words, node, f, 0);
      StartRow(row, words, w, fail);
      assert rest + [] == rest;
      while i < VALID_CHAR_COUNT
        invariant 0 <= i <= VALID_CHAR_COUNT && |fail| == |fail0| && fail[node] == f
        invariant |trie| == |old(trie)| && trie == old(trie)[node := trie[node]]
        invariant |row| == |trie[node]| == |trie[f]| == VALID_CHAR_COUNT
        invariant RowDone(trie[node], row, words, w, i)
        invariant queue == rest + Kids(row, i)
        invariant FailsDone(fail, fail0, words, Kids(row, i))
      {
        LetterOf(old(trie), words, node, f, i);
        RowNext(trie[node], row, words, w, i, trie[f][i].nextNode);
        var child, target := trie[node][i].nextNode, trie[f][i].nextNode;
        if child != 0 {
          FailNext(fail, fail0, words, Kids(row, i), child, target);
          fail := fail[child := target];
          queue := queue + [child];
          assert rest + (Kids(row, i) + [child]) == rest + Kids(row, i) + [child];
        } else {
          trie := trie[node := trie[node][i := Edge(false, target)]];
        }
        i := i + 1;
      }
    }

    /** The first loop of `Build`: queue the children of the root. */
    method RootKids() returns (queue: seq<nat>)
      requires |trie| > 0 && |trie[0]| == VALID_CHAR_COUNT
      ensures queue == Kids(trie[0], VALID_CHAR_COUNT)
    {
      queue := [];
      for i := 0 to VALID_CHAR_COUNT
        invariant queue == Kids(trie[0], i)
      {
        if trie[0][i].nextNode != 0 {
          queue := queue + [trie[0][i].nextNode];
        }
      }
    }

    /** `Build`: complete all rows breadth first. */
    method Build()
      requires Open()
      modifies `trie, `fail
      ensures Built() && added == old(added)
    {
      hide RawTrie, IsTrieOf, PrefixClosed, Marks, Shape, NoFails, Discovery, Progress, Done, Kids, AllFailOk;
      TrieIsPrefixClosed(WordSet(words), patterns);
      FirstDiscovery(trie, fail, words);
      var queue := RootKids();
      ghost var done: set<Word> := {};
      while queue != []
        invariant |trie| == |words| == |fail|
        invariant Discovery(words, queue, done) && Progress(trie, fail, words, queue, done)
        decreases WordSet(words) - done
      {
        ghost var w;
        queue, w := BuildStep(queue, done);
        done := done + {w};
      }
      AllDone(trie, fail, words, done);
    }

    /** One turn of the breadth-first loop. */
    method BuildStep(queue: seq<nat>, ghost done: set<Word>) returns (queue': seq<nat>, ghost w: Word)
      requires |trie| == |words| == |fail| && queue != []
      requires Discovery(words, queue, done) && Progress(trie, fail, words, queue, done)
      modifies `trie, `fail
      ensures |trie| == |words| == |fail| && w in WordSet(words) - done
      ensures Discovery(words, queue', done + {w}) && Progress(trie, fail, words, queue', done + {w})
    {
      hide Discovery, Progress, CanComplete, RowDone, FailsDone, Kids, WordSet;
      FrontCanComplete(trie, fail, words, queue, done);
      FrontKids(trie, fail, words, queue, done);
      var node := queue[0];
      ghost var trie0, fail0 := trie, fail;
      queue' := CompleteNode(node, queue[1..]);
      NextProgress(trie0, fail0, words, queue, done, trie, fail, Kids(trie0[node], VALID_CHAR_COUNT));
      w := words[node];
    }

    /** `Match`: follow the edges from the end of the string; only the node reached is inspected. */
    method Match(s: Bytes) returns (found: bool)
      requires Built()
      ensures found == Matches(WordSet(words), patterns, s)
    {
      hide Longest, Marks, Done, IsTrieOf, CharIndex, PrefixClosed, Shape, Matches, NoHit, Reading, Readable, WordSet,
           AllFailOk;
      StartMatch(trie, words, patterns, s);
      ghost var W := WordSet(words);
      var node: nat := 0;
      var fullMatch := true;
      var i := |s| - 1;
      while i >= 0
        invariant -1 <= i < |s| && node < |words| == |trie| && words[node] == Longest(W, Reading(s)[..|s| - 1 - i])
        invariant Readable(s, |s| - 1 - i) && NoHit(W, patterns, Reading(s), |s| - 1 - i)
        invariant i == |s| - 1 ==> node == 0 && fullMatch
      {
        if s[i] >= TABLE {
          UnreadableEnd(W, patterns, s, i);
          return false;
        }
        var idx := CharIndex(s[i]);
        MatchStep(trie, words, patterns, s, |s| - 1 - i, node);
        fullMatch := fullMatch && trie[node][idx].edgeType;
        node := trie[node][idx].nextNode;
        MarkOf(marks, words, patterns, node);
        if marks[node].matchType == Substr {
          return true;
        }
        if marks[node].matchType == Domain && fullMatch {
          return true;
        }
        i := i - 1;
      }
      MarkOf(marks, words, patterns, node);
      NoHitAtEnd(W, patterns, s, words[node]);
      return fullMatch && marks[node].exist;
    }
  }

  // ----- matching

  /** The last `k` bytes of the string are in the index table. */
  ghost predicate Readable(s: Bytes, k: nat) {
    k <= |s| && forall i :: |s| - k <= i < |s| ==> s[i] < TABLE
  }

  /** What `Match` answers: a hit after some letter, before any byte outside the table is read. */
  ghost predicate Matches(W: set<Word>, P: set<Word>, s: Bytes)
    requires [] in W
  {
    if s == [] then [] in P
    else exists k: nat :: 0 < k && Readable(s, k) && HitAt(W, P, Reading(s), k)
  }

  /** No hit after the first `k` letters. */
  ghost predicate NoHit(W: set<Word>, P: set<Word>, text: Word, k: nat)
    requires [] in W
  {
    forall j: nat :: 0 < j <= k ==> !HitAt(W, P, text, j)
  }

  lemma StartMatch(trie: seq<Row>, words: seq<Word>, P: set<Word>, s: Bytes)
    requires Shape(trie, words) && IsTrieOf(WordSet(words), P)
    ensures |trie| == |words| > 0 && [] in WordSet(words) && words[0] == Longest(WordSet(words), Reading(s)[..0])
    ensures Readable(s, 0) && NoHit(WordSet(words), P, Reading(s), 0)
  {
  }

  /** One letter: the edge leads to the longest suffix of the longer reading, which is a hit or not. */
  lemma MatchStep(trie: seq<Row>, words: seq<Word>, P: set<Word>, s: Bytes, k: nat, node: nat)
    requires node < |trie| == |words| && k < |s| && s[|s| - 1 - k] < TABLE && Readable(s, k)
    requires [] in WordSet(words) && IsTrieOf(WordSet(words), P) && Done(trie, words, node)
    requires words[node] == Longest(WordSet(words), Reading(s)[..k]) && NoHit(WordSet(words), P, Reading(s), k)
    ensures |trie[node]| == VALID_CHAR_COUNT
    ensures var next := trie[node][CharIndex(s[|s| - 1 - k])].nextNode;
            next < |words| && words[next] == Longest(WordSet(words), Reading(s)[..k + 1])
            && Readable(s, k + 1)
            && (if words[next] in P then Matches(WordSet(words), P, s) else NoHit(WordSet(words), P, Reading(s), k + 1))
  {
    hide Longest, Done, IsTrieOf, CharIndex, PrefixClosed, WordSet, Reading, NoHit, Matches, Readable;
    var W, idx := WordSet(words), CharIndex(s[|s| - 1 - k]);
    TrieIsPrefixClosed(W, P);
    ReadingNext(s, k);
    ReadableNext(s, k);
    LongestExtend(W, Reading(s)[..k], idx);
    DoneAt(trie, words, node, idx);
    HitOrNot(W, P, s, k);
  }

  lemma ReadingNext(s: Bytes, k: nat)
    requires k < |s|
    ensures Reading(s)[..k + 1] == Reading(s)[..k] + [CharIndex(s[|s| - 1 - k])]
  {
  }

  lemma ReadableNext(s: Bytes, k: nat)
    requires k < |s| && s[|s| - 1 - k] < TABLE && Readable(s, k)
    ensures Readable(s, k + 1)
  {
  }

  lemma HitOrNot(W: set<Word>, P: set<Word>, s: Bytes, k: nat)
    requires [] in W && k < |s| && Readable(s, k + 1) && NoHit(W, P, Reading(s), k)
    ensures if Longest(W, Reading(s)[..k + 1]) in P then Matches(W, P, s) else NoHit(W, P, Reading(s), k + 1)
  {
    hide Longest, Reading, Readable;
    assert HitAt(W, P, Reading(s), k + 1) <==> Longest(W, Reading(s)[..k + 1]) in P;
  }

  lemma UnreadableEnd(W: set<Word>, P: set<Word>, s: Bytes, i: nat)
    requires [] in W && i < |s| && s[i] >= TABLE && NoHit(W, P, Reading(s), |s| - 1 - i)
    ensures !Matches(W, P, s)
  {
  }

  lemma NoHitAtEnd(W: set<Word>, P: set<Word>, s: Bytes, w: Word)
    requires [] in W && NoHit(W, P, Reading(s), |s|) && w == Longest(W, Reading(s)[..|s|])
    ensures s != [] ==> w !in P && !Matches(W, P, s)
    ensures s == [] ==> (Matches(W, P, s) <==> w in P)
  {
    hide Longest;
    if s != [] {
      assert !HitAt(W, P, Reading(s), |s|);
      assert forall k: nat :: Readable(s, k) ==> k <= |s|;
    } else {
      LongestUnfold(W, []);
      assert Reading(s)[..0] == [];
    }
  }

  lemma MarkOf(marks: seq<MatchType>, words: seq<Word>, P: set<Word>, n: nat)
    requires Marks(marks, words, P) && n < |words|
    ensures |marks| == |words|
    ensures marks[n] == if words[n] in P then MatchType(Substr, true) else MatchType(Full, false)
  {
  }

  /** `strings.Contains`, up to the folding of the index table. */
  ghost predicate FoldContains(s: Bytes, p: Bytes) {
    exists i :: 0 <= i <= |s| && FoldsAt(s, p, i)
  }

  ghost predicate FoldsAt(s: Bytes, p: Bytes, i: nat) {
    i + |p| <= |s| && Reading(s[i..i + |p|]) == Reading(p)
  }

  ghost predicate AllReadable(s: Bytes) {
    forall i :: 0 <= i < |s| ==> s[i] < TABLE
  }

  lemma ReadingSlice(s: Bytes, a: nat, b: nat)
    requires a <= b <= |s|
    ensures Reading(s)[|s| - b..|s| - a] == Reading(s[a..b])
  {
  }

  /** A pattern occurs in the reading of a string exactly when the string contains it. */
  lemma OccursIffContains(added: set<Bytes>, s: Bytes)
    ensures Occurs(Readings(added), Reading(s)) <==> exists p :: p in added && FoldContains(s, p)
  {
    hide Reading;
    if Occurs(Readings(added), Reading(s)) {
      var j: nat :| EndsAt(Readings(added), Reading(s), j);
      var w :| w in Readings(added) && IsSuffix(w, Reading(s)[..j]);
      var p :| p in added && Reading(p) == w;
      var i := |s| - j;
      assert Reading(s)[..j][j - |p|..] == Reading(s)[j - |p|..j];
      ReadingSlice(s, i, i + |p|);
      assert FoldsAt(s, p, i);
    }
    forall p, i | p in added && 0 <= i <= |s| && FoldsAt(s, p, i)
      ensures Occurs(Readings(added), Reading(s))
    {
      var j := |s| - i;
      ReadingSlice(s, i, i + |p|);
      assert Reading(s)[..j][j - |p|..] == Reading(s)[j - |p|..j];
      assert IsSuffix(Reading(p), Reading(s)[..j]);
      assert EndsAt(Readings(added), Reading(s), j);
    }
  }

  lemma ReadableMatches(W: set<Word>, P: set<Word>, s: Bytes)
    requires [] in W
    ensures Matches(W, P, s) ==> Hit(W, P, Reading(s))
    ensures AllReadable(s) ==> (Matches(W, P, s) <==> Hit(W, P, Reading(s)))
  {
  }

  /** A match is always a real one. */
  lemma MatchIsSound(W: set<Word>, added: set<Bytes>, s: Bytes)
    requires [] in W && Matches(W, Readings(added), s)
    ensures exists p :: p in added && FoldContains(s, p)
  {
    hide Matches, Hit, Occurs, Reading, FoldContains;
    ReadableMatches(W, Readings(added), s);
    HitsAreOccurrences(W, Readings(added), Reading(s));
    OccursIffContains(added, s);
  }

  /** `Match` finds every string that contains a pattern if and only if the pattern set is covered. */
  lemma MatchCompleteExactlyWhenCovered(W: set<Word>, added: set<Bytes>)
    requires IsTrieOf(W, Readings(added)) && forall p :: p in added ==> AllReadable(p)
    ensures (forall s :: AllReadable(s) ==>
               (Matches(W, Readings(added), s) <==> exists p :: p in added && FoldContains(s, p)))
       <==> Covered(Readings(added))
  {
    hide Matches, Hit, Occurs, Reading, FoldContains, IsTrieOf, Covered;
    var P := Readings(added);
    TrieIsPrefixClosed(W, P);
    RootInTrie(W, P);
    if Covered(P) {
      forall s | AllReadable(s)
        ensures Matches(W, P, s) <==> exists p :: p in added && FoldContains(s, p)
      {
        ReadableMatches(W, P, s);
        OccursIffContains(added, s);
        CompleteExactlyWhenCovered(W, P);
      }
    } else {
      var s, _, _ := MissedString(W, added);
    }
  }

  lemma RootInTrie(W: set<Word>, P: set<Word>)
    requires IsTrieOf(W, P)
    ensures [] in W
  {
  }

  /** The missed text of an uncovered pattern set is the end of one of the patterns. */
  lemma MissedString(W: set<Word>, added: set<Bytes>) returns (s: Bytes, p: Bytes, k: nat)
    requires [] in W && IsTrieOf(W, Readings(added)) && !Covered(Readings(added))
    requires forall p :: p in added ==> AllReadable(p)
    ensures p in added && k <= |p| && s == p[k..]
    ensures AllReadable(s) && !Matches(W, Readings(added), s) && exists p :: p in added && FoldContains(s, p)
  {
    hide Matches, Hit, Occurs, Reading, FoldContains, IsTrieOf, Covered, EndsWithPattern, HasPatternPrefix;
    var P := Readings(added);
    var w, j := UncoveredAt(P);
    p :| p in added && Reading(p) == w;
    k := |p| - j;
    s := p[|p| - j..];
    ReadingSlice(p, |p| - j, |p|);
    assert p[|p| - j..|p|] == s;
    UncoveredIsMissed(W, P, w, j);
    ReadableMatches(W, P, s);
    OccursIffContains(added, s);
  }

  const ABC: Bytes := [97, 98, 99]
  const BC: Bytes := [98, 99]
  const B: Bytes := [98]

  /** Two keywords for which it is not: with "abc" and "b" added, "bc" contains "b" and is missed. */
  lemma UncoveredExample(W: set<Word>)
    requires IsTrieOf(W, Readings({ABC, B}))
    ensures !Covered(Readings({ABC, B})) && FoldContains(BC, B) && !Matches(W, Readings({ABC, B}), BC)
  {
    hide Matches, Hit;
    var P := Readings({ABC, B});
    var p: Word := [2, 1, 0];
    assert CharIndex(97) == 0 && CharIndex(98) == 1 && CharIndex(99) == 2;
    assert Reading(ABC) == p && Reading(B) == [1] && Reading(BC) == [2, 1];
    assert ABC in {ABC, B} && p in P && B in {ABC, B} && [1] in P;
    assert p[..2] == [2, 1];
    assert IsSuffix([1], p[..2]);
    assert EndsWithPattern(P, p[..2]);
    assert p[..2][..1] == [2] && p[..2][..2] == [2, 1];
    assert !HasPatternPrefix(P, p[..2]);
    assert BC[0..1] == B && FoldsAt(BC, B, 0);
    UncoveredIsMissed(W, P, p, 2);
    ReadableMatches(W, P, BC);
  }

  /** The automaton itself, on these keywords. */
  method MissesBC() returns (found: bool)
    ensures !found
  {
    var ac := new ACAutomaton();
    ac.Add(ABC);
    ac.Add(B);
    assert ac.added == {ABC, B};
    ac.Build();
    found := ac.Match(BC);
    UncoveredExample(WordSet(ac.words));
  }

  lemma UncoveredAt(P: set<Word>) returns (p: Word, j: nat)
    requires !Covered(P)
    ensures p in P && 0 < j <= |p| && EndsWithPattern(P, p[..j]) && !HasPatternPrefix(P, p[..j])
  {
    p, j :| p in P && 0 < j <= |p| && EndsWithPattern(P, p[..j]) && !HasPatternPrefix(P, p[..j]);
  }

  // ----- breadth-first order

  function Parent(w: Word): Word
    requires w != []
  {
    w[..|w| - 1]
  }

  /** `n` is completed or waiting in the queue. */
  ghost predicate Found(words: seq<Word>, queue: seq<nat>, done: set<Word>, n: nat)
    requires n < |words|
  {
    words[n] in done || n in queue
  }

  /** The queue holds nodes that are not completed, each once, in order of length. */
  ghost predicate Queued(words: seq<Word>, queue: seq<nat>, done: set<Word>) {
    (forall i :: 0 <= i < |queue| ==> 0 < queue[i] < |words| && words[queue[i]] !in done)
    && (forall i, j :: 0 <= i < j < |queue| ==> queue[i] != queue[j])
    && (forall i, j :: 0 <= i < j < |queue| ==> |words[queue[i]]| <= |words[queue[j]]|)
    && (forall i :: 0 <= i < |queue| ==> |words[queue[i]]| <= |words[queue[0]]| + 1)
  }

  /** Exactly the nodes below the root or below a completed node have been found. */
  ghost predicate Frontier(words: seq<Word>, queue: seq<nat>, done: set<Word>) {
    forall n :: 0 < n < |words| ==> AtFrontier(words, queue, done, n)
  }

  ghost predicate AtFrontier(words: seq<Word>, queue: seq<nat>, done: set<Word>, n: nat)
    requires n < |words|
  {
    words[n] != [] && (Found(words, queue, done, n) <==> Parent(words[n]) == [] || Parent(words[n]) in done)
  }

  ghost predicate Discovery(words: seq<Word>, queue: seq<nat>, done: set<Word>) {
    Queued(words, queue, done) && Frontier(words, queue, done) && done <= WordSet(words)
  }

  /** Completed nodes have complete rows, the others raw ones; fail links are set where needed. */
  ghost predicate Progress(trie: seq<Row>, fail: seq<nat>, words: seq<Word>, queue: seq<nat>, done: set<Word>) {
    |trie| == |fail| && Shape(trie, words) && PrefixClosed(WordSet(words))
    && (forall n :: 0 <= n < |words| && (n == 0 || words[n] in done) ==> Done(trie, words, n))
    && (forall n :: 0 < n < |words| && words[n] !in done ==> Raw(trie, words, n))
    && (forall n :: 0 < n < |words| && Found(words, queue, done, n) ==> FailOk(fail, words, n))
  }

  ghost predicate IsChild(words: seq<Word>, n: nat, m: nat, i: nat)
    requires n < |words|
  {
    0 < m < |words| && words[m] != [] && Parent(words[m]) == words[n] && words[m][|words[m]| - 1] < i
  }

  lemma {:induction false} KidsAre(trie: seq<Row>, words: seq<Word>, n: nat, i: nat)
    requires Shape(trie, words) && n < |words| && Raw(trie, words, n) && i <= VALID_CHAR_COUNT
    ensures |trie[n]| == VALID_CHAR_COUNT
    ensures forall m :: m in Kids(trie[n], i) <==> IsChild(words, n, m, i)
    ensures forall j, k :: 0 <= j < k < |Kids(trie[n], i)| ==> Kids(trie[n], i)[j] != Kids(trie[n], i)[k]
  {
    hide Raw, Distinct, IsChild, Kids, RawEdge;
    RawAt(trie, words, n, 0);
    if i == 0 {
      NoKids(trie[n], words, n);
    } else {
      KidsAre(trie, words, n, i - 1);
      var next := trie[n][i - 1].nextNode;
      RawAt(trie, words, n, i - 1);
      KidsNext(trie[n], i - 1);
      forall m: nat
        ensures IsChild(words, n, m, i) <==> IsChild(words, n, m, i - 1) || (m == next && next != 0)
        ensures m == next && next != 0 ==> !IsChild(words, n, m, i - 1)
      {
        NextChild(trie, words, n, m, i - 1);
      }
      assert next != 0 ==> next !in Kids(trie[n], i - 1) by {
        NextChild(trie, words, n, next, i - 1);
      }
      OneMoreKid(Kids(trie[n], i - 1), next);
    }
  }

  lemma OneMoreKid(kids: seq<nat>, next: nat)
    requires forall j, k :: 0 <= j < k < |kids| ==> kids[j] != kids[k]
    ensures next !in kids ==>
              forall j, k :: 0 <= j < k < |kids + [next]| ==> (kids + [next])[j] != (kids + [next])[k]
  {
  }

  lemma NoKids(row: Row, words: seq<Word>, n: nat)
    requires n < |words|
    ensures Kids(row, 0) == [] && forall m: nat :: !IsChild(words, n, m, 0)
  {
  }

  lemma NextChild(trie: seq<Row>, words: seq<Word>, n: nat, m: nat, c: nat)
    requires Shape(trie, words) && n < |words| && c < VALID_CHAR_COUNT && RawEdge(trie[n][c], words, words[n] + [c])
    ensures IsChild(words, n, m, c + 1)
       <==> IsChild(words, n, m, c) || (m == trie[n][c].nextNode && trie[n][c].nextNode != 0)
    ensures m == trie[n][c].nextNode ==> !IsChild(words, n, m, c)
  {
    var e := trie[n][c];
    var w := words[n] + [c];
    assert Parent(w) == words[n] && w[|w| - 1] == c;
    if IsChild(words, n, m, c + 1) && !IsChild(words, n, m, c) {
      assert words[m] == w;
      SameNode(words, m, e.nextNode);
    }
  }

  lemma KidsOf(trie: seq<Row>, words: seq<Word>, n: nat)
    requires Shape(trie, words) && n < |words| && Raw(trie, words, n)
    ensures |trie[n]| == VALID_CHAR_COUNT && KidsExactly(words, n, Kids(trie[n], VALID_CHAR_COUNT))
  {
    hide Kids, Raw, Distinct;
    KidsAre(trie, words, n, VALID_CHAR_COUNT);
  }

  /** `kids` lists the nodes one letter below `n`, each once. */
  ghost predicate KidsExactly(words: seq<Word>, n: nat, kids: seq<nat>) {
    n < |words|
    && (forall m :: m in kids <==> 0 < m < |words| && words[m] != [] && Parent(words[m]) == words[n])
    && (forall j, k :: 0 <= j < k < |kids| ==> kids[j] != kids[k])
  }

  /** Every word shorter than the one at the front is completed. */
  lemma {:induction false} ShorterDone(words: seq<Word>, queue: seq<nat>, done: set<Word>, n: nat)
    requires words != [] && words[0] == [] && Discovery(words, queue, done) && PrefixClosed(WordSet(words))
    requires 0 < n < |words| && (queue != [] ==> |words[n]| < |words[queue[0]]|)
    ensures words[n] in done
    decreases |words[n]|
  {
    assert AtFrontier(words, queue, done, n);
    var p := Parent(words[n]);
    if p != [] {
      assert p in WordSet(words);
      var k :| 0 <= k < |words| && words[k] == p;
      ShorterDone(words, queue, done, k);
    }
    assert AtFrontier(words, queue, done, n);
    assert forall i :: 0 <= i < |queue| ==> |words[queue[0]]| <= |words[queue[i]]|;
  }

  lemma FirstDiscovery(trie: seq<Row>, fail: seq<nat>, words: seq<Word>)
    requires RawTrie(trie, words) && PrefixClosed(WordSet(words)) && |fail| == |trie| && NoFails(fail)
    ensures |trie| > 0 && |trie[0]| == VALID_CHAR_COUNT
    ensures var queue := Kids(trie[0], VALID_CHAR_COUNT);
            Discovery(words, queue, {}) && Progress(trie, fail, words, queue, {})
  {
    hide Kids, Raw, Done, Distinct, PrefixClosed, Queued, Frontier, NoFails, KidsExactly;
    var queue := Kids(trie[0], VALID_CHAR_COUNT);
    assert Raw(trie, words, 0);
    KidsOf(trie, words, 0);
    RootRowIsDone(trie, words);
    FirstQueue(trie, words, fail, queue);
  }

  lemma FirstQueue(trie: seq<Row>, words: seq<Word>, fail: seq<nat>, queue: seq<nat>)
    requires Shape(trie, words) && KidsExactly(words, 0, queue) && |fail| == |words| && NoFails(fail)
    requires PrefixClosed(WordSet(words))
    ensures Queued(words, queue, {}) && Frontier(words, queue, {})
    ensures forall n :: 0 < n < |words| && Found(words, queue, {}, n) ==> FailOk(fail, words, n)
  {
    hide Distinct, PrefixClosed, Longest, FailOk;
    ClosedHasRoot(WordSet(words));
    forall m | m in queue
      ensures |words[m]| == 1 && FailOk(fail, words, m)
    {
      KidOfRoot(words, fail, queue, m);
    }
    assert forall i :: 0 <= i < |queue| ==> queue[i] in queue;
  }

  /** A child of the root stands for one letter, and its fail link is the root. */
  lemma KidOfRoot(words: seq<Word>, fail: seq<nat>, queue: seq<nat>, m: nat)
    requires KidsExactly(words, 0, queue) && words[0] == [] && m in queue && [] in WordSet(words)
    requires |fail| == |words| && NoFails(fail)
    ensures m < |words| && |words[m]| == 1 && FailOk(fail, words, m)
  {
    hide Longest;
    assert words[m][1..] == [];
    LongestUnfold(WordSet(words), []);
  }

  lemma FrontCanComplete(trie: seq<Row>, fail: seq<nat>, words: seq<Word>, queue: seq<nat>, done: set<Word>)
    requires queue != [] && Discovery(words, queue, done) && Progress(trie, fail, words, queue, done)
    ensures var node := queue[0];
            0 < node < |words| == |trie| && fail[node] < |trie| && fail[node] != node && |trie[node]| == VALID_CHAR_COUNT
            && CanComplete(trie, words, node, fail[node])
  {
    hide Distinct, PrefixClosed, Longest, Raw, Done;
    var node := queue[0];
    ClosedHasRoot(WordSet(words));
    assert Found(words, queue, done, node);
    assert FailOk(fail, words, node);
    var f := fail[node];
    assert |words[f]| < |words[node]|;
    if f != 0 {
      ShorterDone(words, queue, done, f);
    }
    RawAt(trie, words, node, 0);
  }

  lemma NextQueued(words: seq<Word>, queue: seq<nat>, done: set<Word>, kids: seq<nat>)
    requires queue != [] && Queued(words, queue, done) && Frontier(words, queue, done)
    requires KidsExactly(words, queue[0], kids) && Distinct(words) && words[queue[0]] != []
    ensures Queued(words, queue[1..] + kids, done + {words[queue[0]]})
  {
    hide Distinct, Frontier, KidsExactly;
    var w, queue', done' := words[queue[0]], queue[1..] + kids, done + {words[queue[0]]};
    var n := |queue| - 1;
    KidsAreNew(words, queue, done, kids);
    forall i | 0 <= i < |queue'|
      ensures 0 < queue'[i] < |words| && words[queue'[i]] !in done' && |w| <= |words[queue'[i]]| <= |w| + 1
      ensures if i < n then queue'[i] == queue[i + 1] && queue'[i] in queue
              else queue'[i] == kids[i - n] && queue'[i] !in queue && |words[queue'[i]]| == |w| + 1
    {
      if i < n {
        StillQueued(words, queue, done, i + 1);
      } else {
        assert queue'[i] in kids;
      }
    }
    Ordered(words, queue, kids, queue');
  }

  lemma StillQueued(words: seq<Word>, queue: seq<nat>, done: set<Word>, i: nat)
    requires Queued(words, queue, done) && Distinct(words) && 0 < i < |queue|
    ensures words[queue[i]] !in done + {words[queue[0]]}
    ensures |words[queue[0]]| <= |words[queue[i]]| <= |words[queue[0]]| + 1
  {
  }

  /** The rest of the queue, then longer words: still in order, each once. */
  lemma Ordered(words: seq<Word>, queue: seq<nat>, kids: seq<nat>, queue': seq<nat>)
    requires queue != [] && queue' == queue[1..] + kids
    requires forall i :: 0 <= i < |queue'| ==> queue'[i] < |words|
    requires forall i :: 0 <= i < |queue| ==> queue[i] < |words|
    requires forall i, j :: 0 <= i < j < |queue| ==> queue[i] != queue[j] && |words[queue[i]]| <= |words[queue[j]]|
    requires forall i :: 0 <= i < |queue| ==> |words[queue[i]]| <= |words[queue[0]]| + 1
    requires forall i :: |queue| - 1 <= i < |queue'| ==>
               queue'[i] !in queue && |words[queue'[i]]| == |words[queue[0]]| + 1
    requires forall i, j :: 0 <= i < j < |kids| ==> kids[i] != kids[j]
    ensures forall i, j :: 0 <= i < j < |queue'| ==>
              queue'[i] != queue'[j] && |words[queue'[i]]| <= |words[queue'[j]]|
  {
  }

  lemma KidsAreNew(words: seq<Word>, queue: seq<nat>, done: set<Word>, kids: seq<nat>)
    requires queue != [] && Queued(words, queue, done) && Frontier(words, queue, done)
    requires KidsExactly(words, queue[0], kids) && words[queue[0]] != []
    ensures forall m :: m in kids ==>
              0 < m < |words| && words[m] !in done && words[m] != words[queue[0]]
              && m !in queue && |words[m]| == |words[queue[0]]| + 1
    ensures forall j, k :: 0 <= j < k < |kids| ==> kids[j] != kids[k]
  {
    forall m | m in kids
      ensures words[m] !in done && m !in queue && |words[m]| == |words[queue[0]]| + 1
    {
      assert AtFrontier(words, queue, done, m);
      assert !Found(words, queue, done, m);
    }
  }

  lemma FoundNext(words: seq<Word>, queue: seq<nat>, done: set<Word>, kids: seq<nat>, n: nat)
    requires queue != [] && 0 < queue[0] < |words| && n < |words| && Distinct(words)
    ensures Found(words, queue[1..] + kids, done + {words[queue[0]]}, n)
       <==> Found(words, queue, done, n) || n in kids
  {
  }

  lemma NextFrontier(words: seq<Word>, queue: seq<nat>, done: set<Word>, kids: seq<nat>)
    requires queue != [] && Frontier(words, queue, done) && 0 < queue[0] < |words|
    requires KidsExactly(words, queue[0], kids) && Distinct(words)
    ensures Frontier(words, queue[1..] + kids, done + {words[queue[0]]})
  {
    hide Found, Distinct;
    forall n | 0 < n < |words|
      ensures AtFrontier(words, queue[1..] + kids, done + {words[queue[0]]}, n)
    {
      assert AtFrontier(words, queue, done, n);
      FoundNext(words, queue, done, kids, n);
    }
  }

  lemma NextProgress(trie: seq<Row>, fail: seq<nat>, words: seq<Word>, queue: seq<nat>, done: set<Word>,
                     trie': seq<Row>, fail': seq<nat>, kids: seq<nat>)
    requires queue != [] && 0 < queue[0] < |words| && Progress(trie, fail, words, queue, done)
    requires var node := queue[0];
             |trie'| == |trie| && trie' == trie[node := trie'[node]]
             && RowDone(trie'[node], trie[node], words, words[node], VALID_CHAR_COUNT)
             && FailsDone(fail', fail, words, kids)
    ensures Progress(trie', fail', words, queue[1..] + kids, done + {words[queue[0]]})
  {
    hide Done, Raw, PrefixClosed, FailOk, Found, RowDone, FailsDone, Distinct;
    var node, queue', done' := queue[0], queue[1..] + kids, done + {words[queue[0]]};
    ClosedHasRoot(WordSet(words));
    forall n | 0 <= n < |words| && (n == 0 || words[n] in done')
      ensures Done(trie', words, n)
    {
      if n == node {
        RowIsDone(trie', trie[node], words, n);
      } else {
        if words[n] == words[node] {
          SameNode(words, n, node);
        }
        assert Done(trie, words, n);
        SameRow(trie, trie', words, n);
      }
    }
    forall n | 0 < n < |words| && words[n] !in done'
      ensures Raw(trie', words, n)
    {
      assert Raw(trie, words, n);
      SameRawRow(trie, trie', words, n);
    }
    RowIsDone(trie', trie[node], words, node);
    NextFails(fail, words, queue, done, fail', kids);
  }

  lemma RowIsDone(trie: seq<Row>, row0: Row, words: seq<Word>, n: nat)
    requires n < |trie| == |words| && [] in WordSet(words)
    requires RowDone(trie[n], row0, words, words[n], VALID_CHAR_COUNT)
    ensures |trie[n]| == VALID_CHAR_COUNT && Done(trie, words, n)
  {
  }

  lemma SameRawRow(trie: seq<Row>, trie': seq<Row>, words: seq<Word>, n: nat)
    requires n < |trie| == |trie'| == |words| && trie'[n] == trie[n] && Raw(trie, words, n)
    ensures Raw(trie', words, n)
  {
  }

  lemma NextFails(fail: seq<nat>, words: seq<Word>, queue: seq<nat>, done: set<Word>, fail': seq<nat>, kids: seq<nat>)
    requires queue != [] && 0 < queue[0] < |words| && Distinct(words) && FailsDone(fail', fail, words, kids)
    requires forall n :: 0 < n < |words| && Found(words, queue, done, n) ==> FailOk(fail, words, n)
    ensures |fail'| == |fail|
    ensures forall n :: 0 < n < |words| && Found(words, queue[1..] + kids, done + {words[queue[0]]}, n) ==>
              FailOk(fail', words, n)
  {
    hide FailOk, Found, Distinct;
    forall n | 0 < n < |words| && Found(words, queue[1..] + kids, done + {words[queue[0]]}, n)
      ensures FailOk(fail', words, n)
    {
      FoundNext(words, queue, done, kids, n);
      if n !in kids {
        FailLength(fail, words, n);
        SameFail(fail, fail', words, n);
      }
    }
  }

  lemma FailLength(fail: seq<nat>, words: seq<Word>, n: nat)
    requires FailOk(fail, words, n)
    ensures n < |fail|
  {
  }

  lemma SameFail(fail: seq<nat>, fail': seq<nat>, words: seq<Word>, n: nat)
    requires FailOk(fail, words, n) && |fail'| == |fail| && fail'[n] == fail[n]
    ensures FailOk(fail', words, n)
  {
  }

  lemma SameRow(trie: seq<Row>, trie': seq<Row>, words: seq<Word>, n: nat)
    requires n < |trie| == |trie'| == |words| && trie'[n] == trie[n] && [] in WordSet(words) && Done(trie, words, n)
    ensures Done(trie', words, n)
  {
  }

  lemma FrontKids(trie: seq<Row>, fail: seq<nat>, words: seq<Word>, queue: seq<nat>, done: set<Word>)
    requires queue != [] && Discovery(words, queue, done) && Progress(trie, fail, words, queue, done)
    ensures 0 < queue[0] < |trie| == |words| && words[queue[0]] in WordSet(words) - done
    ensures |trie[queue[0]]| == VALID_CHAR_COUNT
    ensures Discovery(words, queue[1..] + Kids(trie[queue[0]], VALID_CHAR_COUNT), done + {words[queue[0]]})
  {
    hide Kids, Raw, Done, PrefixClosed, Distinct, KidsExactly;
    KidsOf(trie, words, queue[0]);
    NextQueued(words, queue, done, Kids(trie[queue[0]], VALID_CHAR_COUNT));
    NextFrontier(words, queue, done, Kids(trie[queue[0]], VALID_CHAR_COUNT));
  }

  /** Every fail link leads to the longest proper suffix that is a word. */
  ghost predicate AllFailOk(fail: seq<nat>, words: seq<Word>) {
    |fail| == |words| && forall n :: 0 < n < |words| ==> FailOk(fail, words, n)
  }

  lemma AllDone(trie: seq<Row>, fail: seq<nat>, words: seq<Word>, done: set<Word>)
    requires Discovery(words, [], done) && Progress(trie, fail, words, [], done)
    ensures Shape(trie, words) && [] in WordSet(words) && forall n :: 0 <= n < |trie| ==> Done(trie, words, n)
    ensures AllFailOk(fail, words)
  {
    hide FailOk;
    forall n | 0 < n < |words|
      ensures words[n] in done
    {
      ShorterDone(words, [], done, n);
    }
  }

  /** A node whose row can be completed: its own row is still raw, that of its fail link is complete. */
  ghost predicate CanComplete(trie: seq<Row>, words: seq<Word>, node: nat, f: nat)
    requires node < |trie| == |words| && f < |trie|
  {
    Shape(trie, words) && Raw(trie, words, node) && Done(trie, words, f)
    && PrefixClosed(WordSet(words)) && words[node] != []
    && words[f] == Longest(WordSet(words), words[node][1..])
  }

  /** The first `i` letters of a row are complete, the others as in `row0`. */
  ghost predicate RowDone(row: Row, row0: Row, words: seq<Word>, w: Word, i: nat) {
    [] in WordSet(words) && |row| == |row0| == VALID_CHAR_COUNT
    && (forall c :: i <= c < VALID_CHAR_COUNT ==> row[c] == row0[c])
    && forall c :: 0 <= c < i && c < VALID_CHAR_COUNT ==> DoneEdge(row[c], words, w + [c])
  }

  /** The fail links of `kids` are set, the others as in `fail0`. */
  ghost predicate FailsDone(fail: seq<nat>, fail0: seq<nat>, words: seq<Word>, kids: seq<nat>) {
    |fail| == |fail0| && (forall n :: 0 <= n < |fail| && n !in kids ==> fail[n] == fail0[n])
    && forall n :: n in kids ==> FailOk(fail, words, n)
  }

  lemma StartRow(row: Row, words: seq<Word>, w: Word, fail: seq<nat>)
    requires [] in WordSet(words) && |row| == VALID_CHAR_COUNT
    ensures RowDone(row, row, words, w, 0) && Kids(row, 0) == [] && FailsDone(fail, fail, words, [])
  {
  }

  lemma RowNext(row: Row, row0: Row, words: seq<Word>, w: Word, i: nat, target: nat)
    requires i < VALID_CHAR_COUNT && |row| == |row0| == VALID_CHAR_COUNT && RowDone(row, row0, words, w, i)
    requires if row0[i].nextNode != 0
             then DoneEdge(row0[i], words, w + [i])
             else DoneEdge(Edge(false, target), words, w + [i])
    ensures row[i] == row0[i]
    ensures Kids(row0, i + 1) == if row0[i].nextNode != 0 then Kids(row0, i) + [row0[i].nextNode] else Kids(row0, i)
    ensures RowDone(if row0[i].nextNode != 0 then row else row[i := Edge(false, target)], row0, words, w, i + 1)
  {
    hide DoneEdge, Kids;
    KidsNext(row0, i);
    var row' := if row0[i].nextNode != 0 then row else row[i := Edge(false, target)];
    forall c | 0 <= c < i + 1
      ensures DoneEdge(row'[c], words, w + [c])
    {
      assert c < i ==> row'[c] == row[c];
    }
  }

  lemma KidsNext(row: Row, i: nat)
    requires i < |row|
    ensures Kids(row, i + 1) == if row[i].nextNode != 0 then Kids(row, i) + [row[i].nextNode] else Kids(row, i)
  {
  }

  lemma FailNext(fail: seq<nat>, fail0: seq<nat>, words: seq<Word>, kids: seq<nat>, child: nat, target: nat)
    requires FailsDone(fail, fail0, words, kids) && child < |fail| == |words| && target < |words| && [] in WordSet(words)
    requires words[child] != [] && words[target] == Longest(WordSet(words), words[child][1..])
    ensures FailsDone(fail[child := target], fail0, words, kids + [child])
  {
    hide Longest;
    var fail' := fail[child := target];
    forall n | n in kids + [child]
      ensures FailOk(fail', words, n)
    {
      if n != child {
        assert FailOk(fail, words, n);
      }
    }
  }

  /** The children a row leads to, in letter order. */
  ghost function Kids(row: Row, i: nat): seq<nat>
    requires i <= |row|
  {
    if i == 0 then []
    else Kids(row, i - 1) + if row[i - 1].nextNode != 0 then [row[i - 1].nextNode] else []
  }

  /** The fail link of a node leads to the longest proper suffix that is a word. */
  ghost predicate FailOk(fail: seq<nat>, words: seq<Word>, n: nat) {
    n < |fail| == |words| && fail[n] < |words| && [] in WordSet(words) && words[n] != []
    && words[fail[n]] == Longest(WordSet(words), words[n][1..])
  }

  /** What a letter does at a node with fail link `f`, before and after completion. */
  lemma LetterOf(trie: seq<Row>, words: seq<Word>, node: nat, f: nat, c: nat)
    requires node < |trie| == |words| && f < |trie| && c < VALID_CHAR_COUNT && CanComplete(trie, words, node, f)
    ensures [] in WordSet(words) && |trie[node]| == |trie[f]| == VALID_CHAR_COUNT
    ensures var child, target := trie[node][c].nextNode, trie[f][c].nextNode;
            child < |words| && target < |words| && child != node
            && (if child != 0 then words[child] != [] && words[target] == Longest(WordSet(words), words[child][1..])
                                   && DoneEdge(trie[node][c], words, words[node] + [c])
                else DoneEdge(Edge(false, target), words, words[node] + [c]))
  {
    hide Longest, Raw, Done, PrefixClosed, Distinct;
    var W, w := WordSet(words), words[node];
    assert [] in W by {
      ClosedHasRoot(W);
    }
    RawAt(trie, words, node, c);
    DoneAt(trie, words, f, c);
    LongestExtend(W, w[1..], c);
    LongestUnfold(W, w + [c]);
    assert (w + [c])[1..] == w[1..] + [c];
    if trie[node][c].nextNode != 0 {
      assert |words[trie[node][c].nextNode]| == |w| + 1;
    }
  }

  lemma ClosedHasRoot(W: set<Word>)
    requires PrefixClosed(W)
    ensures [] in W
  {
  }

  ghost predicate PatternsPresent(words: seq<Word>, P: set<Word>) {
    forall p :: p in P ==> p in words
  }

  lemma AfterChild(words: seq<Word>, marks: seq<MatchType>, P: set<Word>, r: Word, k: nat,
                   words': seq<Word>, marks': seq<MatchType>, next: nat)
    requires k < |r| && IsTrieOf(WordSet(words), P + {r[..k]}) && Marks(marks, words, P) && PatternsPresent(words, P)
    requires next < |words'| && words'[next] == r[..k + 1]
    requires Grown(words, marks, r[..k + 1], words', marks')
    ensures IsTrieOf(WordSet(words'), P + {r[..k + 1]}) && Marks(marks', words', P) && PatternsPresent(words', P)
  {
    TrieGrows(WordSet(words), P, r, k);
    assert WordSet(words') == WordSet(words) + {r[..k + 1]};
  }

  lemma EndOfPattern(trie: seq<Row>, marks: seq<MatchType>, words: seq<Word>, P: set<Word>, r: Word, node: nat)
    requires RawTrie(trie, words) && Marks(marks, words, P) && node < |words| && words[node] == r
    ensures Marks(marks[node := MatchType(Substr, true)], words, P + {r})
  {
  }

  lemma ReadingsMore(added: set<Bytes>, s: Bytes)
    ensures Readings(added + {s}) == Readings(added) + {Reading(s)}
  {
  }

  lemma StartOfPattern(trie: seq<Row>, words: seq<Word>, marks: seq<MatchType>, P: set<Word>, r: Word)
    requires RawTrie(trie, words) && IsTrieOf(WordSet(words), P)
    ensures words != [] && words[0] == [] == r[..0] && IsTrieOf(WordSet(words), P + {r[..0]})
    ensures PatternsPresent(words, P)
  {
    forall p | p in P
      ensures p in words
    {
      PatternInTrie(WordSet(words), P, p);
    }
  }

  /** The trie with a new node below `node`. */
  function WithChild(trie: seq<Row>, node: nat, idx: nat): (r: seq<Row>)
    requires node < |trie| && idx < |trie[node]|
    ensures |r| == |trie| + 1
  {
    (trie + [EmptyRow()])[node := trie[node][idx := Edge(true, |trie|)]]
  }

  lemma NewNode(trie: seq<Row>, words: seq<Word>, node: nat, idx: nat, fail: seq<nat>)
    requires RawTrie(trie, words)
    requires node < |trie| == |words| && idx < |trie[node]| == VALID_CHAR_COUNT && trie[node][idx].nextNode == 0
    requires PrefixClosed(WordSet(words)) && NoFails(fail)
    ensures RawTrie(WithChild(trie, node, idx), words + [words[node] + [idx]])
    ensures NoFails(fail + [0])
  {
    hide RawTrie, Raw, EmptyRow, PrefixClosed, Shape;
    EdgeOf(trie, words, node, idx);
    var w, trie', words' := words[node] + [idx], WithChild(trie, node, idx), words + [words[node] + [idx]];
    NewShape(trie, words, node, idx);
    forall n | 0 <= n < |trie|
      ensures Raw(trie', words', n)
    {
      NewNodeOldRow(trie, words, node, idx, trie', words', n);
    }
    NewNodeNewRow(trie, words, w, trie', words');
    AllRaw(trie', words', |trie|);
  }

  lemma AllRaw(trie: seq<Row>, words: seq<Word>, k: nat)
    requires Shape(trie, words) && k + 1 == |trie| && Raw(trie, words, k)
    requires forall n :: 0 <= n < k ==> Raw(trie, words, n)
    ensures RawTrie(trie, words)
  {
  }

  lemma NewShape(trie: seq<Row>, words: seq<Word>, node: nat, idx: nat)
    requires RawTrie(trie, words) && node < |trie| == |words| && idx < |trie[node]| == VALID_CHAR_COUNT
    requires words[node] + [idx] !in words
    ensures Shape(WithChild(trie, node, idx), words + [words[node] + [idx]])
  {
  }

  lemma NewNodeOldRow(trie: seq<Row>, words: seq<Word>, node: nat, idx: nat, trie': seq<Row>, words': seq<Word>, n: nat)
    requires RawTrie(trie, words) && n < |trie| == |words|
    requires node < |trie| && idx < |trie[node]| == VALID_CHAR_COUNT && trie[node][idx].nextNode == 0
    requires words' == words + [words[node] + [idx]]
    requires |trie'| == |words'| && trie'[n] == if n == node then trie[n][idx := Edge(true, |trie|)] else trie[n]
    ensures Raw(trie', words', n)
  {
    hide RawTrie;
    var w := words[node] + [idx];
    EdgeOf(trie, words, n, 0);
    forall c | 0 <= c < VALID_CHAR_COUNT
      ensures RawEdge(trie'[n][c], words', words'[n] + [c])
    {
      var x := words[n] + [c];
      EdgeOf(trie, words, n, c);
      if x == w {
        assert Parent(x) == words[n] && Parent(w) == words[node] && x[|x| - 1] == c && w[|w| - 1] == idx;
        SameNodeIn(trie, words, n, node);
      }
    }
  }

  lemma SameNodeIn(trie: seq<Row>, words: seq<Word>, m: nat, n: nat)
    requires RawTrie(trie, words) && m < |words| && n < |words| && words[m] == words[n]
    ensures m == n
  {
  }

  lemma NewNodeNewRow(trie: seq<Row>, words: seq<Word>, w: Word, trie': seq<Row>, words': seq<Word>)
    requires PrefixClosed(WordSet(words)) && w !in words && words' == words + [w]
    requires |trie| == |words| && |trie'| == |words'| && trie'[|trie|] == EmptyRow()
    ensures Raw(trie', words', |trie|)
  {
    forall c | 0 <= c < VALID_CHAR_COUNT
      ensures RawEdge(trie'[|trie|][c], words', w + [c])
    {
      var x: Word := w + [c];
      assert Parent(x) == w;
      assert x in words ==> x in WordSet(words);
      assert trie'[|trie|][c] == Edge(false, 0);
    }
  }
}
