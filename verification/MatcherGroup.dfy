/** `MatcherGroup`: full, domain and other matchers behind one index. */
module MatcherGroups {
  import opened Octets
  import opened Matchers
  import opened Labels
  import opened DomainTrie

  /** `Matcher`; substring and regular-expression matchers are arbitrary predicates on strings. */
  datatype Matcher = FullMatcher(pattern: Bytes) | DomainMatcher(pattern: Bytes) | OtherMatcher(accepts: Bytes -> bool) {
    predicate Match(s: Bytes) {
      match this
      case FullMatcher(p) => FullMatch(p, s)
      case DomainMatcher(p) => DomainMatch(p, s)
      case OtherMatcher(f) => f(s)
    }
  }

  /** The index given to the matcher added after `n` others; it wraps around at 32 bits. */
  function IdAfter(n: nat): uint32 {
    (n + 1) % WORD32
  }

  // ----- the three sub-indexes as functions of the matchers added

  ghost function FullIds(ms: seq<Matcher>, s: Bytes): seq<uint32> {
    if ms == [] then []
    else
      var n := |ms| - 1;
      FullIds(ms[..n], s) + if ms[n].FullMatcher? && ms[n].pattern == s then [IdAfter(n)] else []
  }

  ghost function DomainEntries(ms: seq<Matcher>): seq<Entry> {
    if ms == [] then []
    else
      var n := |ms| - 1;
      DomainEntries(ms[..n]) + if ms[n].DomainMatcher? then [Entry(ms[n].pattern, IdAfter(n))] else []
  }

  datatype OtherEntry = OtherEntry(m: Matcher, id: uint32)

  ghost function OtherEntries(ms: seq<Matcher>): seq<OtherEntry> {
    if ms == [] then []
    else
      var n := |ms| - 1;
      OtherEntries(ms[..n]) + if ms[n].OtherMatcher? then [OtherEntry(ms[n], IdAfter(n))] else []
  }

  ghost function OtherIds(es: seq<OtherEntry>, s: Bytes): seq<uint32> {
    if es == [] then []
    else
      var n := |es| - 1;
      OtherIds(es[..n], s) + if es[n].m.Match(s) then [es[n].id] else []
  }

  /** The reference: the ids of the matchers that match, in the order they were added. */
  ghost function MatchingIds(ms: seq<Matcher>, s: Bytes): seq<uint32> {
    if ms == [] then []
    else
      var n := |ms| - 1;
      MatchingIds(ms[..n], s) + if ms[n].Match(s) then [IdAfter(n)] else []
  }

  lemma OtherIdsSnoc(es: seq<OtherEntry>, e: OtherEntry, s: Bytes)
    ensures OtherIds(es + [e], s) == OtherIds(es, s) + if e.m.Match(s) then [e.id] else []
  {
  }

  lemma MatchingSnoc(es: seq<Entry>, e: Entry, s: Bytes)
    ensures Matching(es + [e], s) == Matching(es, s) + if DomainMatch(e.pattern, s) then [e.value] else []
  {
  }

  /** Together the three parts report every matching matcher, as often as it was added. */
  lemma {:induction false} PartsAreMatching(ms: seq<Matcher>, s: Bytes)
    ensures multiset(FullIds(ms, s)) + multiset(Matching(DomainEntries(ms), s)) + multiset(OtherIds(OtherEntries(ms), s))
         == multiset(MatchingIds(ms, s))
  {
    hide DomainMatch, Matching, OtherIds, IdAfter, FullIds, DomainEntries, OtherEntries, MatchingIds;
    if ms == [] {
      NoIds(s);
    } else {
      var front, m := ms[..|ms| - 1], ms[|ms| - 1];
      assert ms == front + [m];
      PartsAreMatching(front, s);
      AddedSnoc(front, m);
      MatchingIdsSnoc(front, m, s);
      MatchingSnoc(DomainEntries(front), Entry(if m.OtherMatcher? then [] else m.pattern, IdAfter(|front|)), s);
      OtherIdsSnoc(OtherEntries(front), OtherEntry(m, IdAfter(|front|)), s);
    }
  }

  lemma MatchingIdsSnoc(ms: seq<Matcher>, m: Matcher, s: Bytes)
    ensures MatchingIds(ms + [m], s) == MatchingIds(ms, s) + if m.Match(s) then [IdAfter(|ms|)] else []
  {
    assert (ms + [m])[..|ms|] == ms;
  }

  /** The full matchers, and the others, are reported in the order they were added. */
  lemma {:induction false} PartsInOrder(ms: seq<Matcher>, s: Bytes)
    requires |ms| < WORD32
    ensures Ascending(FullIds(ms, s), |ms|) && Ascending(OtherIds(OtherEntries(ms), s), |ms|)
  {
    hide DomainMatch, FullIds, DomainEntries, OtherEntries, OtherIds, Ascending;
    if ms == [] {
      NoIds(s);
      AscendingMore([], 0);
    } else {
      var front, m := ms[..|ms| - 1], ms[|ms| - 1];
      assert ms == front + [m];
      PartsInOrder(front, s);
      AddedSnoc(front, m);
      OtherIdsSnoc(OtherEntries(front), OtherEntry(m, IdAfter(|front|)), s);
      AscendingMore(FullIds(front, s), |front|);
      AscendingMore(OtherIds(OtherEntries(front), s), |front|);
      assert FullIds(front, s) + [] == FullIds(front, s);
    }
  }

  lemma AscendingMore(ids: seq<uint32>, n: nat)
    requires n + 1 < WORD32
    ensures Ascending([], 0)
    ensures Ascending(ids, n) ==> Ascending(ids, n + 1) && Ascending(ids + [n + 1], n + 1) && Ascending(ids + [], n + 1)
  {
    assert ids + [] == ids;
  }

  ghost predicate Ascending(ids: seq<uint32>, last: int) {
    (forall i :: 0 <= i < |ids| ==> 1 <= ids[i] <= last) && forall i, j :: 0 <= i < j < |ids| ==> ids[i] < ids[j]
  }

  lemma NoIds(s: Bytes)
    ensures Matching([], s) == [] && OtherIds([], s) == [] && FullIds([], s) == [] && MatchingIds([], s) == []
    ensures DomainEntries([]) == [] && OtherEntries([]) == []
  {
  }

  /** Ids are positions plus one while fewer than 2^32 matchers are added, so none is reported twice. */
  lemma {:induction false} MatchingIdsDistinct(ms: seq<Matcher>, s: Bytes)
    requires |ms| < WORD32
    ensures forall i :: 0 <= i < |MatchingIds(ms, s)| ==> 1 <= MatchingIds(ms, s)[i] <= |ms|
    ensures forall i, j :: 0 <= i < j < |MatchingIds(ms, s)| ==> MatchingIds(ms, s)[i] < MatchingIds(ms, s)[j]
    ensures forall k :: 0 <= k < |ms| ==> ((k + 1) in MatchingIds(ms, s) <==> ms[k].Match(s))
  {
    hide DomainMatch;
    if ms != [] {
      var n := |ms| - 1;
      MatchingIdsDistinct(ms[..n], s);
      var front, ids := MatchingIds(ms[..n], s), MatchingIds(ms, s);
      forall k | 0 <= k < |ms|
        ensures (k + 1) in ids <==> ms[k].Match(s)
      {
        if k < n {
          assert ms[..n][k] == ms[k];
          assert (k + 1) in ids <==> (k + 1) in front;
        }
      }
    }
  }

  class FullMatcherGroup {
    var matchers: map<Bytes, seq<uint32>>

    constructor ()
      ensures matchers == map[]
    {
      matchers := map[];
    }

    ghost function At(s: Bytes): seq<uint32>
      reads this
    {
      if s in matchers then matchers[s] else []
    }

    method Add(domain: Bytes, value: uint32)
      modifies this
      ensures forall s :: At(s) == old(At(s)) + if s == domain then [value] else []
    {
      var before := if domain in matchers then matchers[domain] else [];
      matchers := matchers[domain := before + [value]];
    }

    method Match(s: Bytes) returns (ids: seq<uint32>)
      ensures ids == At(s)
    {
      ids := if s in matchers then matchers[s] else [];
    }
  }

  class MatcherGroup {
    var count: uint32
    const fullMatcher: FullMatcherGroup
    const domainMatcher: DomainMatcherGroup
    var otherMatchers: seq<OtherEntry>
    /** History: the matchers added. */
    ghost var added: seq<Matcher>

    ghost predicate Valid()
      reads this, fullMatcher, domainMatcher, domainMatcher.nodes.Values
    {
      domainMatcher.Valid() && count == |added| % WORD32
      && (forall s :: fullMatcher.At(s) == FullIds(added, s))
      && domainMatcher.entries == DomainEntries(added)
      && otherMatchers == OtherEntries(added)
    }

    constructor ()
      ensures Valid() && added == []
      ensures fresh(fullMatcher) && fresh(domainMatcher) && domainMatcher.nodes == map[]
    {
      count, otherMatchers, added := 0, [], [];
      fullMatcher := new FullMatcherGroup();
      domainMatcher := new DomainMatcherGroup();
    }

    /** `Add` returns the index of the new matcher. */
    method Add(m: Matcher) returns (c: uint32)
      requires Valid()
      modifies this, fullMatcher, domainMatcher, domainMatcher.nodes.Values
      ensures Valid() && added == old(added) + [m] && c == IdAfter(|old(added)|)
      ensures forall n :: n in domainMatcher.nodes.Values ==> n in old(domainMatcher.nodes.Values) || fresh(n)
    {
      hide IdAfter, FullIds, DomainEntries, OtherEntries, DomainMatcherGroup.Tree, DomainMatcherGroup.Contents;
      AddedSnoc(added, m);
      NextId(|added|);
      count := (count + 1) % WORD32;
      c := count;
      match m {
        case FullMatcher(p) => fullMatcher.Add(p, c);
        case DomainMatcher(p) => domainMatcher.Add(p, c);
        case OtherMatcher(_) => otherMatchers := otherMatchers + [OtherEntry(m, c)];
      }
      added := added + [m];
    }

    /** `Match`: full matchers first, then domains from the most specific, then the others in order.
        It reports exactly the matchers that match if and only if the name is not empty or no
        empty domain pattern was added. */
    method Match(pattern: Bytes) returns (result: seq<uint32>)
      requires Valid()
      ensures var domains := if pattern == [] then [] else Along(DomainEntries(added), Path(pattern), |Path(pattern)|);
              result == FullIds(added, pattern) + domains + OtherIds(OtherEntries(added), pattern)
      ensures pattern != [] || DomainMatcher([]) !in added ==> multiset(result) == multiset(MatchingIds(added, pattern))
      ensures pattern == [] && DomainMatcher([]) in added ==> multiset(result) < multiset(MatchingIds(added, pattern))
    {
      hide DomainMatch, Along, Matching, FullIds, OtherIds, MatchingIds, DomainEntries, OtherEntries;
      var full := fullMatcher.Match(pattern);
      var domain := domainMatcher.Match(pattern);
      var other := MatchOthers(otherMatchers, pattern);
      result := full + domain + other;
      PartsAreMatching(added, pattern);
      if pattern != [] {
        AlongIsMatching(DomainEntries(added), pattern);
      } else {
        EmptyName(added);
      }
    }
  }

  method MatchOthers(es: seq<OtherEntry>, s: Bytes) returns (ids: seq<uint32>)
    ensures ids == OtherIds(es, s)
  {
    ids := [];
    for i := 0 to |es|
      invariant ids == OtherIds(es[..i], s)
    {
      assert es[..i + 1] == es[..i] + [es[i]];
      OtherIdsSnoc(es[..i], es[i], s);
      if es[i].m.Match(s) {
        ids := ids + [es[i].id];
      }
    }
    assert es[..|es|] == es;
  }

  lemma NextId(n: nat)
    ensures (n % WORD32 + 1) % WORD32 == (n + 1) % WORD32 == IdAfter(n)
  {
  }

  lemma AddedSnoc(ms: seq<Matcher>, m: Matcher)
    ensures forall s :: FullIds(ms + [m], s)
              == FullIds(ms, s) + if m.FullMatcher? && m.pattern == s then [IdAfter(|ms|)] else []
    ensures DomainEntries(ms + [m])
         == if m.DomainMatcher? then DomainEntries(ms) + [Entry(m.pattern, IdAfter(|ms|))] else DomainEntries(ms)
    ensures OtherEntries(ms + [m])
         == if m.OtherMatcher? then OtherEntries(ms) + [OtherEntry(m, IdAfter(|ms|))] else OtherEntries(ms)
  {
    assert (ms + [m])[..|ms|] == ms;
  }

  /** On the empty name the domain part is silent, and only an empty domain pattern would match it. */
  lemma {:induction false} EmptyName(ms: seq<Matcher>)
    ensures Matching(DomainEntries(ms), []) == [] <==> DomainMatcher([]) !in ms
  {
    hide Matching;
    if ms == [] {
      NoIds([]);
    } else {
      var n := |ms| - 1;
      EmptyName(ms[..n]);
      assert DomainEntries(ms[..n]) + [] == DomainEntries(ms[..n]);
      assert ms == ms[..n] + [ms[n]];
      if ms[n].DomainMatcher? {
        MatchingSnoc(DomainEntries(ms[..n]), Entry(ms[n].pattern, IdAfter(n)), []);
      }
    }
  }
}
