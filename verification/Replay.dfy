/** The replay filter: two pools of checked sums, cleared in turn.  A pool is an exact set here. */
module Replay {
  import opened Octets

  datatype Pools = Pools(poolA: set<Bytes>, poolB: set<Bytes>, poolSwap: bool, lastSwap: int)

  datatype Query = Query(time: int, sum: Bytes)

  const EMPTY := Pools({}, {}, false, 0)

  class ReplayFilter {
    var poolA: set<Bytes>
    var poolB: set<Bytes>
    var poolSwap: bool
    var lastSwap: int
    const interval: int

    function State(): Pools
      reads this
    {
      Pools(poolA, poolB, poolSwap, lastSwap)
    }

    constructor (interval: int)
      ensures State() == EMPTY && this.interval == interval
    {
      poolA, poolB, poolSwap, lastSwap := {}, {}, false, 0;
      this.interval := interval;
    }

    /** `Check` at the given time. */
    method Check(now: int, sum: Bytes) returns (ok: bool)
      modifies this
      ensures State() == Checked(old(State()), interval, Query(now, sum))
      ensures ok == Accepts(old(State()), interval, Query(now, sum))
    {
      if lastSwap == 0 {
        lastSwap := now;
        poolA := {};
        poolB := {};
      }
      var elapsed := now - lastSwap;
      if elapsed >= interval {
        if poolSwap {
          poolA := {};
        } else {
          poolB := {};
        }
        poolSwap := !poolSwap;
        lastSwap := now;
      }
      ok := sum !in poolA;
      poolA := poolA + {sum};
      if ok {
        ok := sum !in poolB;
        poolB := poolB + {sum};
      }
    }
  }

  // ----- one check, as a value

  function Started(p: Pools, now: int): Pools {
    if p.lastSwap == 0 then p.(poolA := {}, poolB := {}, lastSwap := now) else p
  }

  function Swapped(p: Pools, interval: int, now: int): Pools {
    if now - p.lastSwap < interval then p
    else if p.poolSwap then Pools({}, p.poolB, false, now)
    else Pools(p.poolA, {}, true, now)
  }

  function Turned(p: Pools, interval: int, now: int): Pools {
    Swapped(Started(p, now), interval, now)
  }

  /** A sum is accepted if neither pool has it. */
  predicate Accepts(p: Pools, interval: int, q: Query) {
    var t := Turned(p, interval, q.time);
    q.sum !in t.poolA && q.sum !in t.poolB
  }

  function Checked(p: Pools, interval: int, q: Query): Pools {
    var t := Turned(p, interval, q.time);
    t.(poolA := t.poolA + {q.sum}, poolB := if q.sum in t.poolA then t.poolB else t.poolB + {q.sum})
  }

  // ----- whole runs

  function Run(interval: int, qs: seq<Query>): Pools {
    if qs == [] then EMPTY else Checked(Run(interval, qs[..|qs| - 1]), interval, qs[|qs| - 1])
  }

  /** The answer to query `i` of the run. */
  predicate Accepted(interval: int, qs: seq<Query>, i: nat)
    requires i < |qs|
  {
    Accepts(Run(interval, qs[..i]), interval, qs[i])
  }

  /** The same sum, asked again within the interval. */
  predicate Again(interval: int, q: Query, r: Query) {
    q.sum == r.sum && r.time - q.time < interval
  }

  /** No sum is accepted again within the interval. */
  ghost predicate Safe(interval: int, qs: seq<Query>) {
    forall i, j :: 0 <= i < j < |qs| && Again(interval, qs[i], qs[j]) && Accepted(interval, qs, i) ==>
      !Accepted(interval, qs, j)
  }

  /** The clock does not run backwards. */
  ghost predicate Clock(qs: seq<Query>) {
    forall i, j :: 0 <= i <= j < |qs| ==> 0 <= qs[i].time <= qs[j].time
  }

  /** The time zero is taken for "never used": a filter first used then forgets its first sum. */
  predicate ForgetsFirst(interval: int, qs: seq<Query>) {
    |qs| >= 2 && qs[0].time == 0 && qs[1].time < interval
  }

  /** What a run leaves behind: a sum accepted since the last swap is in both pools, one accepted
      less than an interval before the last swap is in the pool that swap spared. */
  ghost predicate Kept(interval: int, qs: seq<Query>, p: Pools) {
    forall i :: 0 <= i < |qs| && Accepted(interval, qs, i) ==> Remembered(interval, p, qs[i])
  }

  predicate Remembered(interval: int, p: Pools, q: Query) {
    (q.time >= p.lastSwap ==> q.sum in p.poolA && q.sum in p.poolB)
    && (q.time + interval > p.lastSwap ==> if p.poolSwap then q.sum in p.poolA else q.sum in p.poolB)
  }

  ghost predicate Inv(interval: int, qs: seq<Query>, p: Pools) {
    qs != [] ==>
      && p.lastSwap <= qs[|qs| - 1].time < p.lastSwap + interval
      && (p.lastSwap == 0 ==> |qs| == 1 && qs[0].time == 0)
      && Kept(interval, qs, p)
  }

  lemma TurnedKeeps(interval: int, p: Pools, now: int, last: int, q: Query)
    requires interval > 0 && p.lastSwap != 0 && p.lastSwap <= last < p.lastSwap + interval
    requires q.time <= last <= now && Remembered(interval, p, q)
    ensures Remembered(interval, Turned(p, interval, now), q)
    ensures var t := Turned(p, interval, now); t.lastSwap <= now < t.lastSwap + interval
    ensures now - q.time < interval ==> var t := Turned(p, interval, now); q.sum in t.poolA || q.sum in t.poolB
  {
  }

  lemma AnswersOfPrefix(interval: int, qs: seq<Query>, i: nat)
    requires i < |qs| - 1
    ensures Accepted(interval, qs[..|qs| - 1], i) == Accepted(interval, qs, i)
  {
    assert qs[..|qs| - 1][..i] == qs[..i];
  }

  /** One check keeps the invariant, and rejects what was accepted within the interval. */
  lemma CheckKeeps(interval: int, qs: seq<Query>)
    requires interval > 0 && qs != [] && Clock(qs) && !ForgetsFirst(interval, qs)
    requires Inv(interval, qs[..|qs| - 1], Run(interval, qs[..|qs| - 1]))
    ensures Inv(interval, qs, Run(interval, qs))
    ensures forall i :: 0 <= i < |qs| - 1 && Again(interval, qs[i], qs[|qs| - 1]) && Accepted(interval, qs, i) ==>
              !Accepted(interval, qs, |qs| - 1)
  {
    hide Accepted, Run;
    var n := |qs| - 1;
    var front, q := qs[..n], qs[n];
    var p := Run(interval, front);
    RunSnoc(interval, qs);
    assert n > 0 ==> front[n - 1] == qs[n - 1] && qs[n - 1].time <= q.time;
    EmptyRun(interval);
    var t := Turned(p, interval, q.time);
    forall i | 0 <= i < n && Accepted(interval, qs, i)
      ensures Remembered(interval, t, qs[i])
      ensures q.time - qs[i].time < interval ==> qs[i].sum in t.poolA || qs[i].sum in t.poolB
    {
      AnswersOfPrefix(interval, qs, i);
      assert front[i] == qs[i];
      if p.lastSwap != 0 {
        TurnedKeeps(interval, p, q.time, qs[n - 1].time, qs[i]);
      } else {
        assert n == 1 && front[0] == qs[0];
      }
    }
    assert t.lastSwap <= q.time < t.lastSwap + interval;
  }

  lemma RunSnoc(interval: int, qs: seq<Query>)
    requires qs != []
    ensures var p := Run(interval, qs[..|qs| - 1]);
            Run(interval, qs) == Checked(p, interval, qs[|qs| - 1])
            && Accepted(interval, qs, |qs| - 1) == Accepts(p, interval, qs[|qs| - 1])
  {
  }

  lemma EmptyRun(interval: int)
    ensures Run(interval, []) == EMPTY
  {
  }

  lemma {:induction false} RunIsSafe(interval: int, qs: seq<Query>)
    requires interval > 0 && Clock(qs) && !ForgetsFirst(interval, qs)
    ensures Inv(interval, qs, Run(interval, qs)) && Safe(interval, qs)
  {
    hide Run, Accepted, Kept;
    if qs != [] {
      var front := qs[..|qs| - 1];
      RunIsSafe(interval, front);
      CheckKeeps(interval, qs);
      forall i, j | 0 <= i < j < |qs| && Again(interval, qs[i], qs[j]) && Accepted(interval, qs, i)
        ensures !Accepted(interval, qs, j)
      {
        if j < |qs| - 1 {
          AnswersOfPrefix(interval, qs, i);
          AnswersOfPrefix(interval, qs, j);
        }
      }
    }
  }

  /** The replay window.  For the given times, no sum whatever is accepted twice within the interval,
      exactly unless the filter is first used at time zero and used again within the interval. */
  lemma SafeExactly(interval: int, times: seq<Query>)
    requires Clock(times)
    ensures !ForgetsFirst(interval, times) <==>
            forall qs: seq<Query> :: SameTimes(qs, times) ==> Safe(interval, qs)
  {
    if ForgetsFirst(interval, times) {
      var qs := seq(|times|, i requires 0 <= i < |times| => times[i].(sum := []));
      assert SameTimes(qs, times);
      Forgotten(interval, qs);
    } else {
      forall qs: seq<Query> | SameTimes(qs, times) ensures Safe(interval, qs) {
        if interval > 0 {
          RunIsSafe(interval, qs);
        }
      }
    }
  }

  ghost predicate SameTimes(qs: seq<Query>, times: seq<Query>) {
    |qs| == |times| && forall i :: 0 <= i < |qs| ==> qs[i].time == times[i].time
  }

  /** The same sum, asked twice at the start, is accepted twice. */
  lemma Forgotten(interval: int, qs: seq<Query>)
    requires Clock(qs) && ForgetsFirst(interval, qs) && qs[0].sum == qs[1].sum
    ensures !Safe(interval, qs)
  {
  }

  /** Only sums that were checked before are ever rejected. */
  lemma {:induction false} PoolsHoldOnlyWhatWasChecked(interval: int, qs: seq<Query>, x: Bytes)
    requires x in Run(interval, qs).poolA || x in Run(interval, qs).poolB
    ensures exists i :: 0 <= i < |qs| && qs[i].sum == x
  {
    var front := qs[..|qs| - 1];
    if qs[|qs| - 1].sum != x {
      PoolsHoldOnlyWhatWasChecked(interval, front, x);
      var i :| 0 <= i < |front| && front[i].sum == x;
      assert qs[i].sum == x;
    }
  }

  lemma NewSumsAreAccepted(interval: int, qs: seq<Query>, j: nat)
    requires j < |qs| && forall i :: 0 <= i < j ==> qs[i].sum != qs[j].sum
    ensures Accepted(interval, qs, j)
  {
    if !Accepted(interval, qs, j) {
      PoolsHoldOnlyWhatWasChecked(interval, qs[..j], qs[j].sum);
      assert false;
    }
  }

  // ----- forgetting

  /** The sum is gone from both pools, or at least from the one cleared last. */
  predicate Gone(p: Pools, x: Bytes) {
    x !in p.poolA && x !in p.poolB
  }

  predicate HalfGone(p: Pools, x: Bytes) {
    if p.poolSwap then x !in p.poolB else x !in p.poolA
  }

  /** A check of another sum: what is gone stays gone, and a swap takes it one pool further. */
  lemma CheckForgets(p: Pools, interval: int, q: Query, x: Bytes)
    ensures var t := Turned(p, interval, q.time);
            (Gone(p, x) ==> Gone(t, x))
            && (HalfGone(p, x) ==> Gone(t, x) || (HalfGone(t, x) && t.lastSwap == p.lastSwap))
            && (HalfGone(t, x) || t.lastSwap == p.lastSwap)
            && (q.time - p.lastSwap >= interval ==> HalfGone(t, x) && (HalfGone(p, x) ==> Gone(t, x)))
    ensures q.sum != x ==>
              var t, c := Turned(p, interval, q.time), Checked(p, interval, q);
              (Gone(t, x) ==> Gone(c, x)) && (HalfGone(t, x) ==> HalfGone(c, x)) && c.lastSwap == t.lastSwap
  {
  }

  lemma {:induction false} SwapNotLater(interval: int, qs: seq<Query>)
    requires Clock(qs) && qs != []
    ensures Run(interval, qs).lastSwap <= qs[|qs| - 1].time
    decreases |qs|
  {
    var n := |qs| - 1;
    RunSnoc(interval, qs);
    if n > 0 {
      SwapNotLater(interval, qs[..n]);
    }
  }

  /** No query from `i` on, up to `j`, asks for the sum. */
  ghost predicate Unasked(qs: seq<Query>, x: Bytes, i: nat, j: nat) {
    i <= j <= |qs| && forall k :: i <= k < j ==> qs[k].sum != x
  }

  /** After query `i`, as long as the sum is not asked for: no swap yet, or one pool has been cleared. */
  lemma {:induction false} FirstSwap(interval: int, qs: seq<Query>, x: Bytes, i: nat, n: nat)
    requires Clock(qs) && i < n <= |qs| && Unasked(qs, x, i + 1, n)
    ensures var p := Run(interval, qs[..n]); HalfGone(p, x) || p.lastSwap <= qs[i].time
    decreases n
  {
    if n == i + 1 {
      SwapNotLater(interval, qs[..n]);
    } else {
      FirstSwap(interval, qs, x, i, n - 1);
      RunOneMore(interval, qs, n - 1);
      CheckForgets(Run(interval, qs[..n - 1]), interval, qs[n - 1], x);
    }
  }

  lemma RunOneMore(interval: int, qs: seq<Query>, n: nat)
    requires n < |qs|
    ensures Run(interval, qs[..n + 1]) == Checked(Run(interval, qs[..n]), interval, qs[n])
  {
    assert qs[..n + 1][..n] == qs[..n];
  }

  /** After query `u`, once one pool has been cleared: no further swap, or both have been cleared. */
  lemma {:induction false} SecondSwap(interval: int, qs: seq<Query>, x: Bytes, u: nat, n: nat)
    requires Clock(qs) && u < n <= |qs| && Unasked(qs, x, u + 1, n) && HalfGone(Run(interval, qs[..u + 1]), x)
    ensures var p := Run(interval, qs[..n]); Gone(p, x) || (HalfGone(p, x) && p.lastSwap <= qs[u].time)
    decreases n
  {
    if n == u + 1 {
      SwapNotLater(interval, qs[..n]);
    } else {
      SecondSwap(interval, qs, x, u, n - 1);
      RunOneMore(interval, qs, n - 1);
      CheckForgets(Run(interval, qs[..n - 1]), interval, qs[n - 1], x);
    }
  }

  lemma {:induction false} StaysGone(interval: int, qs: seq<Query>, x: Bytes, v: nat, n: nat)
    requires v <= n <= |qs| && Unasked(qs, x, v, n) && Gone(Run(interval, qs[..v]), x)
    ensures Gone(Run(interval, qs[..n]), x)
    decreases n
  {
    if v < n {
      StaysGone(interval, qs, x, v, n - 1);
      RunOneMore(interval, qs, n - 1);
      CheckForgets(Run(interval, qs[..n - 1]), interval, qs[n - 1], x);
    }
  }

  /** A sum is forgotten: if since query `i` it was not asked for, and there was a query an interval after
      `i` and one an interval after that, then it is accepted again. */
  lemma ForgottenAfterTwoIntervals(interval: int, qs: seq<Query>, i: nat, u: nat, v: nat, j: nat)
    requires Clock(qs) && i < u < v <= j < |qs| && Unasked(qs, qs[j].sum, i + 1, j)
    requires qs[u].time >= qs[i].time + interval && qs[v].time >= qs[u].time + interval
    ensures Accepted(interval, qs, j)
  {
    var x := qs[j].sum;
    FirstSwap(interval, qs, x, i, u);
    RunOneMore(interval, qs, u);
    CheckForgets(Run(interval, qs[..u]), interval, qs[u], x);
    SecondSwap(interval, qs, x, u, v);
    CheckForgets(Run(interval, qs[..v]), interval, qs[v], x);
    if v < j {
      RunOneMore(interval, qs, v);
      StaysGone(interval, qs, x, v + 1, j);
      CheckForgets(Run(interval, qs[..j]), interval, qs[j], x);
    }
  }

  /** Four checks with interval 10: the first sum is forgotten at time 22. */
  lemma ForgetsAtTwentyTwo(x: Bytes, y: Bytes, z: Bytes)
    requires x != y && x != z
    ensures Accepted(10, [Query(1, x), Query(11, y), Query(21, z), Query(22, x)], 3)
  {
    ForgottenAfterTwoIntervals(10, [Query(1, x), Query(11, y), Query(21, z), Query(22, x)], 0, 1, 2, 3);
  }
}
