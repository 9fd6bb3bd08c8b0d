/** Keyword matching in terms of the bytes of names: what the automaton answers, compared with
    `strings.Contains` on lower-case strings. */
module Keywords {
  import opened Octets
  import opened Matchers
  import opened SuffixTheory
  import opened AhoCorasick

  /** The bytes of the index table: letters, digits and the signs ! $ & ' ( ) * + , ; = : % - . _ ~ */
  predicate Listed(b: byte) {
    65 <= b <= 90 || 97 <= b <= 122 || 48 <= b <= 57
    || b in {33, 36, 38, 39, 40, 41, 42, 43, 44, 59, 61, 58, 37, 45, 46, 95, 126}
  }

  predicate AllListed(s: Bytes) {
    forall i :: 0 <= i < |s| ==> Listed(s[i])
  }

  /** Listed bytes share an index exactly if they are the same letter in two cases; the others all have
      that of 'a'. */
  lemma IndexExactly(a: byte, b: byte)
    ensures Listed(a) && Listed(b) ==> (CharIndex(a) == CharIndex(b) <==> ToLower(a) == ToLower(b))
    ensures !Listed(a) ==> CharIndex(a) == CharIndex(97) == CharIndex(65)
    ensures Listed(a) ==> a < TABLE
  {
  }

  /** A string that ends with a byte from 127 on matches nothing. */
  lemma BeyondTheTable(W: set<Word>, P: set<Word>, s: Bytes)
    requires [] in W && s != [] && s[|s| - 1] >= 127
    ensures !Matches(W, P, s)
  {
  }

  lemma ReadingIsLower(a: Bytes, b: Bytes)
    requires AllListed(a) && AllListed(b)
    ensures Reading(a) == Reading(b) <==> Lower(a) == Lower(b)
  {
    hide CharIndex, ToLower, Listed;
    if |a| == |b| {
      var n := |a|;
      forall i | 0 <= i < n
        ensures Reading(a)[n - 1 - i] == Reading(b)[n - 1 - i] <==> Lower(a)[i] == Lower(b)[i]
      {
        IndexExactly(a[i], b[i]);
      }
      if Reading(a) == Reading(b) {
        assert forall i :: 0 <= i < n ==> Lower(a)[i] == Lower(b)[i];
      }
      if Lower(a) == Lower(b) {
        forall k | 0 <= k < n
          ensures Reading(a)[k] == Reading(b)[k]
        {
          assert Lower(a)[n - 1 - k] == Lower(b)[n - 1 - k];
        }
      }
    } else {
      assert |Reading(a)| != |Reading(b)| && |Lower(a)| != |Lower(b)|;
    }
  }

  /** Up to the index table is up to case. */
  lemma FoldIsLower(s: Bytes, p: Bytes)
    requires AllListed(s) && AllListed(p)
    ensures FoldContains(s, p) <==> SubstrMatch(Lower(p), Lower(s))
  {
    hide Reading, Listed;
    forall i | 0 <= i <= |s|
      ensures FoldsAt(s, p, i) <==> ContainsAt(Lower(p), Lower(s), i)
    {
      if i + |p| <= |s| {
        ReadingIsLower(s[i..i + |p|], p);
        assert Lower(s)[i..i + |p|] == Lower(s[i..i + |p|]);
      }
    }
  }

  /** Every end piece of a keyword that begins with a keyword also ends with one, up to case. */
  ghost predicate CoveredKeywords(added: set<Bytes>) {
    forall p, k :: p in added && 0 <= k < |p| && BeginsWithKeyword(added, p[k..]) ==> EndsWithKeyword(added, p[k..])
  }

  ghost predicate BeginsWithKeyword(added: set<Bytes>, t: Bytes) {
    exists q :: q in added && Lower(q) <= Lower(t)
  }

  ghost predicate EndsWithKeyword(added: set<Bytes>, t: Bytes) {
    exists q :: q in added && q != [] && HasSuffix(Lower(t), Lower(q))
  }

  lemma BeginsExactly(added: set<Bytes>, t: Bytes)
    requires AllListed(t) && forall p :: p in added ==> AllListed(p)
    ensures BeginsWithKeyword(added, t) <==> EndsWithPattern(Readings(added), Reading(t))
  {
    hide Reading, Listed, Lower;
    forall q | q in added
      ensures Lower(q) <= Lower(t) <==> IsSuffix(Reading(q), Reading(t))
    {
      if |q| <= |t| {
        ReadingSlice(t, 0, |q|);
        ReadingIsLower(t[..|q|], q);
        LowerSlice(t, 0, |q|);
        assert t[0..|q|] == t[..|q|];
        assert Reading(t)[|t| - |q|..|t| - 0] == Reading(t)[|t| - |q|..];
      }
    }
    if q :| q in added && Lower(q) <= Lower(t) {
      assert Reading(q) in Readings(added);
    }
    if w :| w in Readings(added) && IsSuffix(w, Reading(t)) {
      var q :| q in added && Reading(q) == w;
      assert Lower(q) <= Lower(t);
    }
  }

  lemma EndsExactly(added: set<Bytes>, t: Bytes)
    requires AllListed(t) && forall p :: p in added ==> AllListed(p)
    ensures EndsWithKeyword(added, t) <==> HasPatternPrefix(Readings(added), Reading(t))
  {
    hide Reading, Listed, Lower;
    forall q | q in added && |q| <= |t|
      ensures HasSuffix(Lower(t), Lower(q)) <==> Reading(t)[..|q|] == Reading(q)
    {
      ReadingSlice(t, |t| - |q|, |t|);
      ReadingIsLower(t[|t| - |q|..], q);
      LowerSlice(t, |t| - |q|, |t|);
      assert t[|t| - |q|..|t|] == t[|t| - |q|..];
    }
    if q :| q in added && q != [] && HasSuffix(Lower(t), Lower(q)) {
      assert Reading(t)[..|q|] in Readings(added);
    }
    if k: nat :| 0 < k <= |Reading(t)| && Reading(t)[..k] in Readings(added) {
      var q :| q in added && Reading(q) == Reading(t)[..k];
      assert |q| == k && HasSuffix(Lower(t), Lower(q));
    }
  }

  lemma LowerSlice(s: Bytes, a: nat, b: nat)
    requires a <= b <= |s|
    ensures Lower(s[a..b]) == Lower(s)[a..b]
  {
  }

  lemma EndPiece(p: Bytes, k: nat)
    requires k <= |p|
    ensures Reading(p)[..|p| - k] == Reading(p[k..]) && (AllListed(p) ==> AllListed(p[k..]))
  {
    hide Listed;
    ReadingSlice(p, k, |p|);
    assert p[k..|p|] == p[k..];
  }

  lemma CoveredExactly(added: set<Bytes>)
    requires forall p :: p in added ==> AllListed(p)
    ensures CoveredKeywords(added) <==> Covered(Readings(added))
  {
    hide Reading, AllListed, BeginsWithKeyword, EndsWithKeyword, EndsWithPattern, HasPatternPrefix;
    var P := Readings(added);
    forall p, k | p in added && 0 <= k < |p|
      ensures BeginsWithKeyword(added, p[k..]) <==> EndsWithPattern(P, Reading(p)[..|p| - k])
      ensures EndsWithKeyword(added, p[k..]) <==> HasPatternPrefix(P, Reading(p)[..|p| - k])
    {
      EndPiece(p, k);
      BeginsExactly(added, p[k..]);
      EndsExactly(added, p[k..]);
    }
    if CoveredKeywords(added) {
      forall w, j | w in P && 0 < j <= |w| && EndsWithPattern(P, w[..j])
        ensures HasPatternPrefix(P, w[..j])
      {
        var p :| p in added && Reading(p) == w;
        var k := |p| - j;
        assert BeginsWithKeyword(added, p[k..]) <==> EndsWithPattern(P, Reading(p)[..|p| - k]);
      }
    }
    if Covered(P) {
      forall p, k | p in added && 0 <= k < |p| && BeginsWithKeyword(added, p[k..])
        ensures EndsWithKeyword(added, p[k..])
      {
        assert Reading(p) in P;
      }
    }
  }

  /** A name matches if some keyword is contained in it, up to case. */
  ghost predicate SomeKeyword(added: set<Bytes>, s: Bytes) {
    exists p :: p in added && SubstrMatch(Lower(p), Lower(s))
  }

  lemma SomeKeywordIsFold(added: set<Bytes>, s: Bytes)
    requires AllListed(s) && forall p :: p in added ==> AllListed(p)
    ensures SomeKeyword(added, s) <==> exists p :: p in added && FoldContains(s, p)
  {
    hide AllListed, FoldContains, SubstrMatch, Lower;
    forall p | p in added
      ensures SubstrMatch(Lower(p), Lower(s)) <==> FoldContains(s, p)
    {
      FoldIsLower(s, p);
    }
  }

  lemma ListedIsReadable(s: Bytes)
    requires AllListed(s)
    ensures AllReadable(s)
  {
    hide Listed, CharIndex;
    forall i | 0 <= i < |s|
      ensures s[i] < TABLE
    {
      IndexExactly(s[i], s[i]);
    }
  }

  /** The automaton of some keywords answers as the substring matchers do, on all names of listed bytes, if
      and only if the keywords are covered. */
  lemma KeywordsExactly(W: set<Word>, added: set<Bytes>)
    requires IsTrieOf(W, Readings(added)) && forall p :: p in added ==> AllListed(p)
    ensures (forall s :: AllListed(s) ==> (Matches(W, Readings(added), s) <==> SomeKeyword(added, s)))
       <==> CoveredKeywords(added)
  {
    hide Matches, IsTrieOf, Covered, CoveredKeywords, AllListed, SomeKeyword, AllReadable, FoldContains, Reading;
    CoveredExactly(added);
    RootInTrie(W, Readings(added));
    forall p | p in added
      ensures AllReadable(p)
    {
      ListedIsReadable(p);
    }
    if CoveredKeywords(added) {
      MatchCompleteExactlyWhenCovered(W, added);
      forall s | AllListed(s)
        ensures Matches(W, Readings(added), s) <==> SomeKeyword(added, s)
      {
        ListedIsReadable(s);
        SomeKeywordIsFold(added, s);
      }
    } else {
      var s, p, k := MissedString(W, added);
      EndPiece(p, k);
      SomeKeywordIsFold(added, s);
      assert AllListed(s) && !Matches(W, Readings(added), s) && SomeKeyword(added, s);
    }
  }

  /** A match of the automaton is one of a substring matcher, always. */
  lemma KeywordsSound(W: set<Word>, added: set<Bytes>, s: Bytes)
    requires [] in W && Matches(W, Readings(added), s) && AllListed(s) && forall p :: p in added ==> AllListed(p)
    ensures SomeKeyword(added, s)
  {
    hide Matches, AllListed, SomeKeyword, FoldContains, Reading;
    MatchIsSound(W, added, s);
    SomeKeywordIsFold(added, s);
  }
}
