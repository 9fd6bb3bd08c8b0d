/** What "least recently used" means: the touched items, latest touch first. */
module Recency {
  import opened Octets

  function Remove<T(==)>(s: seq<T>, x: T): (r: seq<T>)
    ensures |r| == if x in s then |s| - 1 else |s|
  {
    if s == [] then [] else if s[0] == x then s[1..] else [s[0]] + Remove(s[1..], x)
  }

  function Take<T>(s: seq<T>, n: nat): seq<T> {
    if |s| <= n then s else s[..n]
  }

  /** Every item of the log once, in the order of its last touch, latest first. */
  function Order<T(==)>(log: seq<T>): seq<T> {
    if log == [] then [] else [log[|log| - 1]] + Remove(Order(log[..|log| - 1]), log[|log| - 1])
  }

  /** The `n` items touched last. */
  function Recent<T(==)>(log: seq<T>, n: nat): seq<T> {
    Take(Order(log), n)
  }

  /** The item at `i` moved to the front. */
  function ToFront<T>(s: seq<T>, i: nat): (r: seq<T>)
    requires i < |s|
    ensures |r| == |s| && r[0] == s[i]
  {
    [s[i]] + s[..i] + s[i + 1..]
  }

  lemma {:induction false} RemoveAt<T>(s: seq<T>, i: nat)
    requires Distinct(s) && i < |s|
    ensures Remove(s, s[i]) == s[..i] + s[i + 1..]
  {
    hide Distinct;
    DistinctTail(s, i);
    if i == 0 {
      assert s[..0] == [];
    } else {
      var t := s[1..];
      RemoveAt(t, i - 1);
      assert [s[0]] + (t[..i - 1] + t[i..]) == s[..i] + s[i + 1..];
    }
  }

  lemma DistinctTail<T>(s: seq<T>, i: nat)
    requires Distinct(s) && i < |s|
    ensures Distinct(s[1..]) && (i > 0 ==> s[0] != s[i] && s[1..][i - 1] == s[i])
  {
  }

  lemma {:induction false} RemoveAbsent<T>(s: seq<T>, x: T)
    requires x !in s
    ensures Remove(s, x) == s
  {
    if s != [] {
      RemoveAbsent(s[1..], x);
    }
  }

  lemma RemoveContents<T>(s: seq<T>, x: T)
    requires Distinct(s)
    ensures Distinct(Remove(s, x)) && x !in Remove(s, x)
    ensures forall y :: y in Remove(s, x) <==> y in s && y != x
  {
    if x in s {
      var i :| 0 <= i < |s| && s[i] == x;
      RemoveAt(s, i);
      assert forall y :: y in s <==> y in s[..i] || y == x || y in s[i + 1..];
    } else {
      RemoveAbsent(s, x);
    }
  }

  lemma {:induction false} OrderIsDistinct<T>(log: seq<T>)
    ensures Distinct(Order(log)) && forall x :: x in Order(log) <==> x in log
  {
    if log != [] {
      var front, x := log[..|log| - 1], log[|log| - 1];
      OrderIsDistinct(front);
      RemoveContents(Order(front), x);
      assert log == front + [x];
    }
  }

  lemma OrderSnoc<T>(log: seq<T>, x: T)
    ensures Order(log + [x]) == [x] + Remove(Order(log), x)
  {
  }

  /** Touching one of the recent items moves it to the front. */
  lemma TouchRecent<T>(log: seq<T>, n: nat, i: nat)
    requires i < |Recent(log, n)|
    ensures Recent(log + [Recent(log, n)[i]], n) == ToFront(Recent(log, n), i)
  {
    hide Order, Distinct;
    var o := Order(log);
    OrderIsDistinct(log);
    RemoveAt(o, i);
    OrderSnoc(log, o[i]);
    TakeMoved(o, n, i);
  }

  lemma TakeMoved<T>(o: seq<T>, n: nat, i: nat)
    requires i < |Take(o, n)|
    ensures Take([o[i]] + (o[..i] + o[i + 1..]), n) == ToFront(Take(o, n), i)
  {
  }

  /** Touching another item puts it in front and drops the one touched longest ago. */
  lemma TouchOther<T>(log: seq<T>, n: nat, x: T)
    requires x !in Recent(log, n)
    ensures Recent(log + [x], n) == Take([x] + Recent(log, n), n)
  {
    hide Order, Distinct, Remove;
    var o := Order(log);
    OrderIsDistinct(log);
    OrderSnoc(log, x);
    if x in o {
      var i :| 0 <= i < |o| && o[i] == x;
      RemoveAt(o, i);
      assert i >= n;
      TakeLate(o, n, i);
    } else {
      RemoveAbsent(o, x);
      TakeTwice(o, n, x);
    }
  }

  lemma TakeLate<T>(o: seq<T>, n: nat, i: nat)
    requires n <= i < |o|
    ensures Take([o[i]] + (o[..i] + o[i + 1..]), n) == Take([o[i]] + Take(o, n), n)
  {
  }

  lemma TakeTwice<T>(o: seq<T>, n: nat, x: T)
    ensures Take([x] + o, n) == Take([x] + Take(o, n), n)
  {
  }

  // ----- the order is the order of the last touches

  /** One more than the index of the last touch, zero if there was none. */
  function LastTouch<T(==)>(log: seq<T>, x: T): (n: nat)
    ensures n <= |log| && (n == 0 <==> x !in log)
    ensures n > 0 ==> log[n - 1] == x && x !in log[n..]
  {
    if log == [] then 0
    else if log[|log| - 1] == x then |log|
    else LastTouch(log[..|log| - 1], x)
  }

  ghost predicate ByLastTouch<T>(log: seq<T>, s: seq<T>) {
    forall i, j :: 0 <= i < j < |s| ==> LastTouch(log, s[i]) > LastTouch(log, s[j])
  }

  lemma RemoveKeepsOrder<T>(log: seq<T>, s: seq<T>, x: T)
    requires ByLastTouch(log, s) && Distinct(s)
    ensures ByLastTouch(log, Remove(s, x))
  {
    hide LastTouch, Remove, Distinct;
    if x in s {
      var k :| 0 <= k < |s| && s[k] == x;
      RemoveAt(s, k);
      var r := Remove(s, x);
      forall i, j | 0 <= i < j < |r| ensures LastTouch(log, r[i]) > LastTouch(log, r[j]) {
        assert r[i] == s[if i < k then i else i + 1] && r[j] == s[if j < k then j else j + 1];
      }
    } else {
      RemoveAbsent(s, x);
    }
  }

  lemma TouchFirst<T>(log: seq<T>, s: seq<T>, x: T)
    requires ByLastTouch(log, s) && x !in s
    ensures ByLastTouch(log + [x], [x] + s)
  {
  }

  lemma {:induction false} OrderIsByLastTouch<T>(log: seq<T>)
    ensures ByLastTouch(log, Order(log))
  {
    hide LastTouch, ByLastTouch, Distinct, Remove;
    if log == [] {
      NothingTouched(log);
    } else {
      var front, x := log[..|log| - 1], log[|log| - 1];
      OrderIsByLastTouch(front);
      OrderIsDistinct(front);
      RemoveKeepsOrder(front, Order(front), x);
      RemoveContents(Order(front), x);
      TouchFirst(front, Remove(Order(front), x), x);
      assert log == front + [x];
    }
  }

  lemma NothingTouched<T>(log: seq<T>)
    ensures ByLastTouch(log, [])
  {
  }
}
