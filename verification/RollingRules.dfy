/** What the rolling-hash part of `MphMatcherGroup` answers, in terms of its stored rules.

    A domain pattern is stored twice, with and without a leading dot; a name is looked up as a whole
    and from each of its dots on.  `RulesExact` says for which pattern sets this agrees with the
    one-line matchers. */
module RollingRules {
  import opened Octets
  import opened Matchers

  const PRIME_RK := 16777619

  /** The polynomial of which the hash is the value modulo 2^32. */
  function Polynomial(s: Bytes): nat {
    if s == [] then 0 else s[0] + 16777619 * Polynomial(s[1..])
  }

  lemma {:induction false} HashIsPolynomial(s: Bytes)
    ensures HashOf(s) == Polynomial(s) % 0x1_0000_0000
  {
    if s != [] {
      HashIsPolynomial(s[1..]);
      TimesModulo(Polynomial(s[1..]), s[0]);
    }
  }

  lemma TimesModulo(x: nat, b: byte)
    ensures (x % 0x1_0000_0000 * 16777619 + b) % 0x1_0000_0000 == (b + 16777619 * x) % 0x1_0000_0000
  {
    var q, y := x / 0x1_0000_0000, x % 0x1_0000_0000 * 16777619 + b;
    assert b + 16777619 * x == y + 0x1_0000_0000 * (16777619 * q);
    AddMultiple(y, 16777619 * q);
  }

  lemma {:induction false} AddMultiple(y: nat, q: nat)
    ensures (y + 0x1_0000_0000 * q) % 0x1_0000_0000 == y % 0x1_0000_0000
  {
    if q > 0 {
      AddMultiple(y, q - 1);
      var z := y + 0x1_0000_0000 * (q - 1);
      assert y + 0x1_0000_0000 * q == z + 0x1_0000_0000;
      OneMultiple(z);
    }
  }

  lemma OneMultiple(z: nat)
    ensures (z + 0x1_0000_0000) % 0x1_0000_0000 == z % 0x1_0000_0000
  {
  }

  /** `RollingHash`: the 32-bit hash of a string, computed from its end. */
  function HashOf(s: Bytes): uint32 {
    if s == [] then 0 else (HashOf(s[1..]) * PRIME_RK + s[0]) % WORD32
  }

  const SENTINEL: Bytes := [101, 109, 112, 116, 121, 95, 95, 95]  // empty___

  ghost function Dotted(D: set<Bytes>): set<Bytes> {
    set d | d in D :: [DOT] + d
  }

  lemma DottedMore(D: set<Bytes>, p: Bytes)
    ensures Dotted(D + {p}) == Dotted(D) + {[DOT] + p}
  {
  }

  /** The rules stored for full patterns `F` and domain patterns `D`. */
  ghost function RulesOf(F: set<Bytes>, D: set<Bytes>): set<Bytes> {
    if F == {} && D == {} then {SENTINEL} else F + D + Dotted(D)
  }

  /** Some lookup succeeds: from a dot on, or of the whole name. */
  ghost predicate Found(rules: set<Bytes>, s: Bytes) {
    s in rules || exists i :: 0 <= i < |s| && FoundAt(rules, s, i)
  }

  ghost predicate FoundAt(rules: set<Bytes>, s: Bytes, i: nat) {
    i < |s| && s[i] == DOT && s[i..] in rules
  }

  ghost predicate SomeMatcher(F: set<Bytes>, D: set<Bytes>, s: Bytes) {
    s in F || exists d :: d in D && DomainMatch(d, s)
  }

  /** Every pattern that starts with a dot already ends with a dot and a domain pattern. */
  ghost predicate DotSafe(F: set<Bytes>, D: set<Bytes>) {
    forall x :: x in F + D && x != [] && x[0] == DOT ==> exists d :: d in D && HasSuffix(x, [DOT] + d)
  }

  lemma MatcherIsFound(F: set<Bytes>, D: set<Bytes>, s: Bytes)
    requires SomeMatcher(F, D, s)
    ensures Found(RulesOf(F, D), s)
  {
    if s !in F {
      var d :| d in D && DomainMatch(d, s);
      DomainMatchByDot(d, s);
      if s != d {
        var r, i := [DOT] + d, |s| - |d| - 1;
        assert s[i..] == r && s[i] == r[0];
        assert FoundAt(RulesOf(F, D), s, i);
      }
    }
  }

  /** A stored rule that starts with a dot ends with a dot and a domain pattern. */
  lemma DottedRule(F: set<Bytes>, D: set<Bytes>, r: Bytes)
    requires F + D != {} && DotSafe(F, D) && r in RulesOf(F, D) && r != [] && r[0] == DOT
    ensures exists d :: d in D && HasSuffix(r, [DOT] + d)
  {
  }

  lemma FoundIsMatcher(F: set<Bytes>, D: set<Bytes>, s: Bytes)
    requires F + D != {} && DotSafe(F, D) && Found(RulesOf(F, D), s)
    ensures SomeMatcher(F, D, s)
  {
    if exists i :: 0 <= i < |s| && FoundAt(RulesOf(F, D), s, i) {
      var i :| 0 <= i < |s| && FoundAt(RulesOf(F, D), s, i);
      var r := s[i..];
      DottedRule(F, D, r);
      var d :| d in D && HasSuffix(r, [DOT] + d);
      SuffixTransitive(s, r, [DOT] + d);
      DomainMatchByDot(d, s);
    } else if s !in F {
      if s in D {
        DomainMatchByDot(s, s);
      } else {
        var d :| d in D && s == [DOT] + d;
        assert HasSuffix(s, [DOT] + d);
        DomainMatchByDot(d, s);
      }
    }
  }

  /** A name longer than every pattern: `n` letters before `x`. */
  function Padded(n: nat, x: Bytes): Bytes {
    seq(n, _ => 97) + x
  }

  lemma MaxLength(S: set<Bytes>) returns (n: nat)
    ensures forall s :: s in S ==> |s| < n
    decreases S
  {
    n := 1;
    if S != {} {
      var s :| s in S;
      n := MaxLength(S - {s});
      if n <= |s| {
        n := |s| + 1;
      }
    }
  }

  lemma PaddedSuffix(n: nat, x: Bytes, d: Bytes)
    requires HasSuffix(Padded(n, x), [DOT] + d)
    ensures HasSuffix(x, [DOT] + d)
  {
    var s := Padded(n, x);
    var k := |s| - |d| - 1;
    assert s[k..][0] == DOT;
    assert s[k..] == x[k - n..];
  }

  /** An unsafe dotted pattern is found inside a name that no matcher accepts. */
  lemma UnsafeIsWrong(F: set<Bytes>, D: set<Bytes>, x: Bytes) returns (s: Bytes)
    requires x in F + D && x != [] && x[0] == DOT && forall d :: d in D ==> !HasSuffix(x, [DOT] + d)
    ensures Found(RulesOf(F, D), s) && !SomeMatcher(F, D, s)
  {
    var n := MaxLength(F + D);
    s := Padded(n, x);
    assert s[n..] == x;
    assert FoundAt(RulesOf(F, D), s, n);
    forall d | d in D
      ensures !DomainMatch(d, s)
    {
      DomainMatchByDot(d, s);
      if HasSuffix(s, [DOT] + d) {
        PaddedSuffix(n, x, d);
      }
    }
  }

  /** The lookups agree with the matchers on every name if and only if there is a pattern at all and
      the dotted ones are safe. */
  lemma RulesExact(F: set<Bytes>, D: set<Bytes>)
    ensures (forall s :: Found(RulesOf(F, D), s) <==> SomeMatcher(F, D, s))
       <==> (F + D != {} && DotSafe(F, D))
  {
    if F + D != {} && DotSafe(F, D) {
      forall s
        ensures Found(RulesOf(F, D), s) <==> SomeMatcher(F, D, s)
      {
        if Found(RulesOf(F, D), s) {
          FoundIsMatcher(F, D, s);
        }
        if SomeMatcher(F, D, s) {
          MatcherIsFound(F, D, s);
        }
      }
    } else if F + D == {} {
      assert F == {} && D == {};
      assert Found(RulesOf(F, D), SENTINEL) && !SomeMatcher(F, D, SENTINEL);
    } else {
      var x :| x in F + D && x != [] && x[0] == DOT && !exists d :: d in D && HasSuffix(x, [DOT] + d);
      var s := UnsafeIsWrong(F, D, x);
    }
  }

  /** Without any pattern the name "empty___" is found. */
  lemma EmptyIsFound()
    ensures Found(RulesOf({}, {}), [101, 109, 112, 116, 121, 95, 95, 95])
  {
    assert SENTINEL[0..] == SENTINEL;
  }
}
