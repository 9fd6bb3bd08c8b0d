/** Longest suffixes in a prefix-closed set of words, and when looking only at the longest one finds
    every occurrence.

    The automaton of `ac_automaton_matcher.go` remembers, of the text read so far, its longest suffix
    that is a trie word, and reports a match only when that suffix is itself a pattern.  The theorems
    here say what this finds (`HitsAreOccurrences`) and for exactly which pattern sets nothing is
    missed (`CompleteExactlyWhenCovered`). */
module SuffixTheory {
  type Word = seq<nat>

  ghost predicate PrefixClosed(W: set<Word>) {
    [] in W && forall w :: w in W && w != [] ==> w[..|w| - 1] in W
  }

  predicate IsSuffix(x: Word, w: Word) {
    |x| <= |w| && w[|w| - |x|..] == x
  }

  /** The longest suffix of `w` in `W`. */
  ghost function Longest(W: set<Word>, w: Word): (r: Word)
    requires [] in W
    ensures r in W && IsSuffix(r, w)
    ensures forall x :: x in W && IsSuffix(x, w) ==> IsSuffix(x, r)
    decreases |w|
  {
    if w in W then w
    else
      LongestStep(W, w);
      Longest(W, w[1..])
  }

  /** A word outside `W` has the same suffixes in `W` as its tail. */
  lemma LongestStep(W: set<Word>, w: Word)
    requires [] in W && w !in W
    ensures w != []
    ensures forall x :: x in W && IsSuffix(x, w) ==> IsSuffix(x, w[1..])
    ensures forall x :: IsSuffix(x, w[1..]) ==> IsSuffix(x, w)
  {
  }

  lemma LongestUnfold(W: set<Word>, w: Word)
    requires [] in W
    ensures w in W ==> Longest(W, w) == w
    ensures w !in W ==> w != [] && Longest(W, w) == Longest(W, w[1..])
  {
  }

  /** One more letter: it is enough to remember the longest suffix. */
  lemma {:induction false} LongestExtend(W: set<Word>, w: Word, c: nat)
    requires PrefixClosed(W)
    ensures Longest(W, w + [c]) == Longest(W, Longest(W, w) + [c])
    decreases |w|
  {
    if w !in W {
      assert w + [c] !in W by {
        assert (w + [c])[..|w|] == w;
      }
      assert (w + [c])[1..] == w[1..] + [c];
      LongestExtend(W, w[1..], c);
    }
  }

  // ----- patterns

  /** All prefixes of the patterns: the words of their trie. */
  ghost predicate IsTrieOf(W: set<Word>, P: set<Word>) {
    [] in W && (forall w :: w in W && w != [] ==> exists p :: p in P && w <= p)
    && forall p, k :: p in P && 0 <= k <= |p| ==> p[..k] in W
  }

  lemma TrieIsPrefixClosed(W: set<Word>, P: set<Word>)
    requires IsTrieOf(W, P)
    ensures PrefixClosed(W)
  {
    forall w | w in W && w != []
      ensures w[..|w| - 1] in W
    {
      var p :| p in P && w <= p;
      assert p[..|w| - 1] == w[..|w| - 1];
    }
  }

  /** A pattern ends at position `j` of the text. */
  ghost predicate EndsAt(P: set<Word>, text: Word, j: nat) {
    j <= |text| && exists p :: p in P && IsSuffix(p, text[..j])
  }

  /** Some pattern occurs in the text. */
  ghost predicate Occurs(P: set<Word>, text: Word) {
    exists j: nat :: EndsAt(P, text, j)
  }

  /** After `k` letters the longest suffix is a pattern. */
  ghost predicate HitAt(W: set<Word>, P: set<Word>, text: Word, k: nat)
    requires [] in W
  {
    k <= |text| && Longest(W, text[..k]) in P
  }

  /** The automaton reports a match: after some letter, or on the empty text. */
  ghost predicate Hit(W: set<Word>, P: set<Word>, text: Word)
    requires [] in W
  {
    if text == [] then [] in P else exists k: nat :: 0 < k && HitAt(W, P, text, k)
  }

  lemma HitsAreOccurrences(W: set<Word>, P: set<Word>, text: Word)
    requires [] in W && Hit(W, P, text)
    ensures Occurs(P, text)
  {
    if text == [] {
      assert IsSuffix([], text[..0]);
      assert EndsAt(P, text, 0);
    } else {
      var k: nat :| 0 < k && HitAt(W, P, text, k);
      assert EndsAt(P, text, k);
    }
  }

  ghost predicate HasPatternPrefix(P: set<Word>, u: Word) {
    exists k: nat :: 0 < k <= |u| && u[..k] in P
  }

  ghost predicate EndsWithPattern(P: set<Word>, u: Word) {
    exists q :: q in P && IsSuffix(q, u)
  }

  /** Wherever a pattern ends inside another one, a pattern has already been completed from the start. */
  ghost predicate Covered(P: set<Word>) {
    forall p, j :: p in P && 0 < j <= |p| && EndsWithPattern(P, p[..j]) ==> HasPatternPrefix(P, p[..j])
  }

  /** No pattern lies inside another. */
  ghost predicate InfixFree(P: set<Word>) {
    forall p, q, j :: p in P && q in P && 0 <= j <= |p| && IsSuffix(q, p[..j]) ==> p == q
  }

  lemma InfixFreeIsCovered(P: set<Word>)
    requires InfixFree(P)
    ensures Covered(P)
  {
    forall p, j | p in P && 0 < j <= |p| && EndsWithPattern(P, p[..j])
      ensures HasPatternPrefix(P, p[..j])
    {
      var q :| q in P && IsSuffix(q, p[..j]);
      assert p == q;
      assert p[..j][..j] == p;
    }
  }

  /** In a covered set the first place where a pattern ends is a hit. */
  lemma FirstOccurrenceIsHit(W: set<Word>, P: set<Word>, text: Word, j: nat)
    requires IsTrieOf(W, P) && Covered(P)
    requires 0 < j && EndsAt(P, text, j)
    requires forall i: nat :: 0 < i < j ==> !EndsAt(P, text, i)
    ensures HitAt(W, P, text, j)
  {
    var q :| q in P && IsSuffix(q, text[..j]);
    PatternInTrie(W, P, q);
    hide IsTrieOf, Covered, IsSuffix, Longest;
    LongestIsPattern(W, P, Longest(W, text[..j]), q, text, j);
  }

  lemma PatternInTrie(W: set<Word>, P: set<Word>, q: Word)
    requires IsTrieOf(W, P) && q in P
    ensures q in W
  {
    assert q[..|q|] == q;
  }

  lemma LongestIsPattern(W: set<Word>, P: set<Word>, u: Word, q: Word, text: Word, j: nat)
    requires IsTrieOf(W, P) && Covered(P) && u in W && q in P && IsSuffix(q, u)
    requires j <= |text| && 0 < j && IsSuffix(u, text[..j])
    requires forall i: nat :: 0 < i < j ==> !EndsAt(P, text, i)
    ensures u in P
  {
    if u == [] {
      assert q == u;
    } else {
      CoveredWord(W, P, u, q);
      hide IsTrieOf, Covered;
      var k: nat :| 0 < k <= |u| && u[..k] in P;
      EndsEarlier(u, k, text, j);
      hide IsSuffix;
      assert EndsAt(P, text, j - |u| + k);
      assert k == |u| && u[..k] == u;
    }
  }

  lemma CoveredWord(W: set<Word>, P: set<Word>, u: Word, q: Word)
    requires IsTrieOf(W, P) && Covered(P) && u in W && u != [] && q in P && IsSuffix(q, u)
    ensures HasPatternPrefix(P, u)
  {
    var p :| p in P && u <= p;
    assert p[..|u|] == u;
    assert EndsWithPattern(P, p[..|u|]);
  }

  lemma EndsEarlier(u: Word, k: nat, text: Word, j: nat)
    requires k <= |u| && j <= |text| && IsSuffix(u, text[..j])
    ensures IsSuffix(u[..k], text[..j - |u| + k])
  {
  }

  lemma {:induction false} FirstEnd(P: set<Word>, text: Word, j: nat) returns (i: nat)
    requires 0 < j && EndsAt(P, text, j)
    ensures 0 < i <= j && EndsAt(P, text, i)
    ensures forall k: nat :: 0 < k < i ==> !EndsAt(P, text, k)
  {
    if k: nat :| 0 < k < j && EndsAt(P, text, k) {
      i := FirstEnd(P, text, k);
    } else {
      i := j;
    }
  }

  lemma CoveredIsComplete(W: set<Word>, P: set<Word>, text: Word)
    requires IsTrieOf(W, P) && Covered(P) && Occurs(P, text)
    ensures Hit(W, P, text)
  {
    var j: nat :| EndsAt(P, text, j);
    var p :| p in P && IsSuffix(p, text[..j]);
    if j == 0 && text != [] {
      assert p == [] && IsSuffix(p, text[..1]);
      assert EndsAt(P, text, 1);
      j := 1;
    }
    if text != [] {
      var i := FirstEnd(P, text, j);
      FirstOccurrenceIsHit(W, P, text, i);
    }
  }

  /** An uncovered prefix of a pattern is itself a text on which the automaton misses an occurrence. */
  lemma UncoveredIsMissed(W: set<Word>, P: set<Word>, p: Word, j: nat)
    requires IsTrieOf(W, P) && p in P && 0 < j <= |p|
    requires EndsWithPattern(P, p[..j]) && !HasPatternPrefix(P, p[..j])
    ensures Occurs(P, p[..j]) && !Hit(W, P, p[..j])
  {
    var u := p[..j];
    assert u[..j] == u;
    assert EndsAt(P, u, j);
    forall k: nat | 0 < k <= |u|
      ensures !HitAt(W, P, u, k)
    {
      assert u[..k] == p[..k];
      assert u[..k] in W;
    }
  }

  /** The automaton reports exactly the texts in which a pattern occurs, if and only if the pattern
      set is covered. */
  lemma CompleteExactlyWhenCovered(W: set<Word>, P: set<Word>)
    requires IsTrieOf(W, P)
    ensures (forall text :: Hit(W, P, text) <==> Occurs(P, text)) <==> Covered(P)
  {
    if Covered(P) {
      forall text
        ensures Hit(W, P, text) <==> Occurs(P, text)
      {
        if Hit(W, P, text) {
          HitsAreOccurrences(W, P, text);
        }
        if Occurs(P, text) {
          CoveredIsComplete(W, P, text);
        }
      }
    } else {
      var p, j :| p in P && 0 < j <= |p| && EndsWithPattern(P, p[..j]) && !HasPatternPrefix(P, p[..j]);
      UncoveredIsMissed(W, P, p, j);
    }
  }
}
