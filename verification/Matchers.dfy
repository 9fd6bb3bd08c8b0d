/** `matchers.go`: the one-line matchers every index must agree with. */
module Matchers {
  import opened Octets

  const DOT: byte := 46

  /** `strmatcher.Type`. */
  datatype Type = Full | Substr | Domain | Regex

  predicate HasSuffix(s: Bytes, suffix: Bytes) {
    |suffix| <= |s| && s[|s| - |suffix|..] == suffix
  }

  predicate FullMatch(pattern: Bytes, s: Bytes) {
    pattern == s
  }

  predicate ContainsAt(pattern: Bytes, s: Bytes, i: nat) {
    i + |pattern| <= |s| && s[i..i + |pattern|] == pattern
  }

  /** `strings.Contains`. */
  predicate SubstrMatch(pattern: Bytes, s: Bytes) {
    exists i :: 0 <= i <= |s| && ContainsAt(pattern, s, i)
  }

  function ToLower(b: byte): byte {
    if 65 <= b <= 90 then b + 32 else b
  }

  function Lower(s: Bytes): (t: Bytes)
    ensures |t| == |s|
  {
    seq(|s|, i requires 0 <= i < |s| => ToLower(s[i]))
  }

  predicate DomainMatch(pattern: Bytes, s: Bytes) {
    HasSuffix(s, pattern) && (|s| == |pattern| || s[|s| - |pattern| - 1] == DOT)
  }

  /** A domain pattern matches the name itself, or names that end with a dot and the pattern. */
  lemma DomainMatchByDot(pattern: Bytes, s: Bytes)
    ensures DomainMatch(pattern, s) <==> s == pattern || HasSuffix(s, [DOT] + pattern)
  {
    var k := |s| - |pattern|;
    if k > 0 && HasSuffix(s, pattern) {
      assert s[k - 1..] == [s[k - 1]] + s[k..];
    }
    if HasSuffix(s, [DOT] + pattern) {
      assert s[k..] == s[k - 1..][1..] && s[k - 1] == s[k - 1..][0];
    }
  }

  /** "b.a" and "a" match the domain "a"; "b/a" and "ba" do not. */
  lemma DotSeparates()
    ensures DomainMatch([97], [98, 46, 97]) && DomainMatch([97], [97])
    ensures !DomainMatch([97], [98, 47, 97]) && !DomainMatch([97], [98, 97])
  {
  }

  lemma SuffixTransitive(s: Bytes, t: Bytes, u: Bytes)
    requires HasSuffix(s, t) && HasSuffix(t, u)
    ensures HasSuffix(s, u)
  {
  }
}
