/** `MphMatcherGroup`: the two-level perfect hash table over the stored rules.

    The string hash is any function of a string and a seed.  `Build` tries the 2^32 seeds of a bucket
    in turn; in the source the seed wraps around, so a bucket for which none works is retried for
    ever.  The model reports that case instead. */
module Mph {
  import opened Octets
  import opened Matchers
  import opened RollingRules

  type StrHash = (Bytes, uint32) -> nat

  function BitLen(v: nat): nat {
    if v == 0 then 0 else 1 + BitLen(v / 2)
  }

  /** `nextPow2`: a power of two above `v`, and 1 for 0 and 1. */
  function NextPow2(v: nat): (r: nat)
    ensures r >= 1
  {
    if v <= 1 then 1 else Pow2(BitLen(v))
  }

  /** The result is a power of two, above the argument and at most twice it. */
  lemma NextPow2Exactly(v: nat)
    ensures exists k :: NextPow2(v) == Pow2(k)
    ensures v <= 1 ==> NextPow2(v) == 1
    ensures v > 1 ==> v < NextPow2(v) <= 2 * v
  {
    if v <= 1 {
      assert Pow2(0) == 1;
    } else {
      BitLenBounds(v);
    }
  }

  lemma {:induction false} BitLenBounds(v: nat)
    requires v >= 1
    ensures v < Pow2(BitLen(v)) <= 2 * v
  {
    if v > 1 {
      BitLenBounds(v / 2);
    }
  }

  /** The bucket of a rule, and its slot under a seed. */
  function BucketOf(s: Bytes, size0: nat): (n: nat)
    requires size0 >= 1
    ensures n < size0
  {
    BitAnd(HashOf(s), size0 - 1)
  }

  function SlotOf(h: StrHash, s: Bytes, seed: uint32, size1: nat): (n: nat)
    requires size1 >= 1
    ensures n < size1
  {
    BitAnd(h(s, seed), size1 - 1)
  }

  /** Rule `i` can be looked up. */
  ghost predicate Placed(h: StrHash, rules: seq<Bytes>, level0: seq<uint32>, level1: seq<nat>, i: nat)
    requires i < |rules| && |level0| >= 1 && |level1| >= 1
  {
    level1[SlotOf(h, rules[i], level0[BucketOf(rules[i], |level0|)], |level1|)] == i
  }

  ghost predicate Indices(rules: seq<Bytes>, level1: seq<nat>) {
    forall k :: 0 <= k < |level1| ==> level1[k] < |rules|
  }

  /** The table is complete: whatever else the slots hold, every rule is where it is looked for. */
  ghost predicate Perfect(h: StrHash, rules: seq<Bytes>, level0: seq<uint32>, level1: seq<nat>) {
    |level0| >= 1 && |level1| >= 1 && Indices(rules, level1)
    && forall i :: 0 <= i < |rules| ==> Placed(h, rules, level0, level1, i)
  }

  // ----- distributing the rules over buckets

  /** `buckets[n]` lists the indices of the rules of bucket `n`, each once. */
  ghost predicate Sorted(rules: seq<Bytes>, buckets: seq<seq<nat>>) {
    |buckets| >= 1
    && (forall i :: 0 <= i < |rules| ==> i in buckets[BucketOf(rules[i], |buckets|)])
    && (forall n :: 0 <= n < |buckets| ==> BucketOk(rules, |buckets|, n, buckets[n]))
  }

  ghost predicate BucketOk(rules: seq<Bytes>, size0: nat, n: nat, vals: seq<nat>)
    requires size0 >= 1
  {
    (forall j :: 0 <= j < |vals| ==> vals[j] < |rules| && BucketOf(rules[vals[j]], size0) == n)
    && Distinct(vals)
  }

  method Distribute(ruleMap: map<Bytes, uint32>, size0: nat) returns (rules: seq<Bytes>, buckets: seq<seq<nat>>)
    requires size0 >= 1 && forall r :: r in ruleMap ==> ruleMap[r] == HashOf(r)
    ensures (set r | r in rules) == ruleMap.Keys && Distinct(rules) && |buckets| == size0 && Sorted(rules, buckets)
  {
    hide BitAnd, HashOf;
    rules := [];
    buckets := seq(size0, _ => []);
    var left := ruleMap.Keys;
    while left != {}
      invariant left <= ruleMap.Keys && (set r | r in rules) == ruleMap.Keys - left
      invariant Distinct(rules) && |buckets| == size0 && Sorted(rules, buckets)
      decreases left
    {
      var rule :| rule in left;
      var n := BitAnd(ruleMap[rule], size0 - 1);
      AddToBucket(rules, buckets, rule);
      assert (set r | r in rules + [rule]) == (set r | r in rules) + {rule};
      assert rule !in (set r | r in rules);
      rules, buckets := rules + [rule], buckets[n := buckets[n] + [|rules|]];
      left := left - {rule};
    }
  }

  lemma AddToBucket(rules: seq<Bytes>, buckets: seq<seq<nat>>, rule: Bytes)
    requires Sorted(rules, buckets)
    ensures var n := BucketOf(rule, |buckets|);
            Sorted(rules + [rule], buckets[n := buckets[n] + [|rules|]])
  {
  }

  // ----- placing one bucket

  /** The slots of a bucket's rules under a seed. */
  ghost function Slots(h: StrHash, rules: seq<Bytes>, vals: seq<nat>, seed: uint32, size1: nat): (r: seq<nat>)
    requires size1 >= 1 && forall j :: 0 <= j < |vals| ==> vals[j] < |rules|
    ensures |r| == |vals| && forall j :: 0 <= j < |r| ==> r[j] == SlotOf(h, rules[vals[j]], seed, size1)
  {
    seq(|vals|, j requires 0 <= j < |vals| => SlotOf(h, rules[vals[j]], seed, size1))
  }

  /** A seed works when it sends the rules of a bucket to different free slots. */
  ghost predicate GoodSeed(slots: seq<nat>, occ: seq<bool>) {
    (forall j :: 0 <= j < |slots| ==> slots[j] < |occ| && !occ[slots[j]])
    && forall j, k :: 0 <= j < k < |slots| ==> slots[j] != slots[k]
  }

  /** `occ` with the given slots taken. */
  ghost predicate Taken(occ0: seq<bool>, slots: seq<nat>, occ: seq<bool>) {
    |occ| == |occ0| && forall n :: 0 <= n < |occ| ==> (occ[n] <==> occ0[n] || n in slots)
  }

  /** Occupied slots keep their entry; the others may hold anything left by an abandoned seed. */
  ghost predicate Kept(occ0: seq<bool>, level0: seq<nat>, level1: seq<nat>) {
    |level0| == |level1| == |occ0| && forall n :: 0 <= n < |occ0| && occ0[n] ==> level1[n] == level0[n]
  }

  /** Try to place the rules of a bucket under one seed; on a conflict, give the slots back. */
  method TrySeed(h: StrHash, rules: seq<Bytes>, vals: seq<nat>, seed: uint32, occ: array<bool>, level1: array<nat>)
    returns (ok: bool)
    requires occ.Length == level1.Length >= 1 && forall j :: 0 <= j < |vals| ==> vals[j] < |rules|
    requires Indices(rules, level1[..])
    modifies occ, level1
    ensures ok == GoodSeed(Slots(h, rules, vals, seed, level1.Length), old(occ[..]))
    ensures if ok then Taken(old(occ[..]), Slots(h, rules, vals, seed, level1.Length), occ[..])
                  else occ[..] == old(occ[..])
    ensures ok ==> Written(Slots(h, rules, vals, seed, level1.Length), vals, level1[..])
    ensures Kept(old(occ[..]), old(level1[..]), level1[..]) && Indices(rules, level1[..])
  {
    hide SlotOf, GoodSeed, Taken, Kept, Indices, Written;
    ghost var slots := Slots(h, rules, vals, seed, level1.Length);
    ghost var occ0, level10 := occ[..], level1[..];
    var tmpOcc: seq<nat> := [];
    assert slots[..0] == [] && vals[..0] == [];
    StartSlots(occ0, level10);
    for j := 0 to |vals|
      invariant tmpOcc == slots[..j] && GoodSeed(slots[..j], occ0) && Taken(occ0, slots[..j], occ[..])
      invariant Kept(occ0, level10, level1[..]) && Written(slots[..j], vals[..j], level1[..])
      invariant Indices(rules, level1[..])
    {
      var n := SlotOf(h, rules[vals[j]], seed, level1.Length);
      assert slots[j] == n;
      if occ[n] {
        Conflict(slots, occ0, occ[..], j);
        Clear(occ, tmpOcc, occ0);
        return false;
      }
      NextSlot(slots, vals, occ0, occ[..], level10, level1[..], rules, j);
      occ[n] := true;
      tmpOcc := tmpOcc + [n];
      level1[n] := vals[j];
      assert slots[..j + 1] == slots[..j] + [n] && vals[..j + 1] == vals[..j] + [vals[j]];
    }
    assert slots[..|vals|] == slots && vals[..|vals|] == vals;
    return true;
  }

  /** The rules sit in their slots. */
  ghost predicate Written(slots: seq<nat>, vals: seq<nat>, level1: seq<nat>) {
    |slots| == |vals| && forall j :: 0 <= j < |slots| ==> slots[j] < |level1| && level1[slots[j]] == vals[j]
  }

  lemma StartSlots(occ: seq<bool>, level1: seq<nat>)
    requires |occ| == |level1|
    ensures GoodSeed([], occ) && Taken(occ, [], occ) && Kept(occ, level1, level1) && Written([], [], level1)
  {
  }

  lemma Conflict(slots: seq<nat>, occ0: seq<bool>, occ: seq<bool>, j: nat)
    requires j < |slots| && slots[j] < |occ0| && Taken(occ0, slots[..j], occ) && occ[slots[j]]
    ensures !GoodSeed(slots, occ0)
  {
  }

  lemma NextSlot(slots: seq<nat>, vals: seq<nat>, occ0: seq<bool>, occ: seq<bool>, level10: seq<nat>, level1: seq<nat>,
                 rules: seq<Bytes>, j: nat)
    requires j < |slots| == |vals| && slots[j] < |occ0| && vals[j] < |rules|
    requires GoodSeed(slots[..j], occ0) && Taken(occ0, slots[..j], occ) && !occ[slots[j]]
    requires Kept(occ0, level10, level1) && Written(slots[..j], vals[..j], level1) && Indices(rules, level1)
    ensures GoodSeed(slots[..j] + [slots[j]], occ0) && Taken(occ0, slots[..j] + [slots[j]], occ[slots[j] := true])
    ensures Kept(occ0, level10, level1[slots[j] := vals[j]]) && Indices(rules, level1[slots[j] := vals[j]])
    ensures Written(slots[..j] + [slots[j]], vals[..j] + [vals[j]], level1[slots[j] := vals[j]])
  {
  }

  /** Free the slots taken under an abandoned seed. */
  method Clear(occ: array<bool>, tmpOcc: seq<nat>, ghost occ0: seq<bool>)
    requires Taken(occ0, tmpOcc, occ[..]) && GoodSeed(tmpOcc, occ0)
    modifies occ
    ensures occ[..] == occ0
  {
    for k := 0 to |tmpOcc|
      invariant Taken(occ0, tmpOcc[k..], occ[..])
    {
      var n := tmpOcc[k];
      assert tmpOcc[k..] == [n] + tmpOcc[k + 1..];
      assert n !in tmpOcc[k + 1..];
      occ[n] := false;
    }
  }

  /** Search the seeds from 0 upward.  `found` is false exactly when no seed works. */
  method FindSeed(h: StrHash, rules: seq<Bytes>, vals: seq<nat>, occ: array<bool>, level1: array<nat>)
    returns (found: bool, seed: uint32)
    requires occ.Length == level1.Length >= 1 && forall j :: 0 <= j < |vals| ==> vals[j] < |rules|
    requires Indices(rules, level1[..])
    modifies occ, level1
    ensures found <==> exists s: uint32 :: GoodSeed(Slots(h, rules, vals, s, level1.Length), old(occ[..]))
    ensures found ==> forall s: uint32 :: s < seed ==> !GoodSeed(Slots(h, rules, vals, s, level1.Length), old(occ[..]))
    ensures found ==> Taken(old(occ[..]), Slots(h, rules, vals, seed, level1.Length), occ[..])
                      && Written(Slots(h, rules, vals, seed, level1.Length), vals, level1[..])
    ensures !found ==> occ[..] == old(occ[..])
    ensures Kept(old(occ[..]), old(level1[..]), level1[..]) && Indices(rules, level1[..])
  {
    hide GoodSeed, Taken, Kept, Indices, Written, Slots;
    seed := 0;
    StartSlots(occ[..], level1[..]);
    while true
      invariant 0 <= seed < WORD32 && occ[..] == old(occ[..])
      invariant Kept(old(occ[..]), old(level1[..]), level1[..]) && Indices(rules, level1[..])
      invariant forall s: uint32 :: s < seed ==> !GoodSeed(Slots(h, rules, vals, s, level1.Length), old(occ[..]))
      decreases WORD32 - seed
    {
      ghost var before := level1[..];
      found := TrySeed(h, rules, vals, seed, occ, level1);
      KeptTwice(old(occ[..]), old(level1[..]), before, level1[..]);
      if found {
        return;
      }
      if seed == WORD32 - 1 {
        return;
      }
      seed := seed + 1;
    }
  }

  lemma KeptTwice(occ: seq<bool>, a: seq<nat>, b: seq<nat>, c: seq<nat>)
    requires Kept(occ, a, b) && Kept(occ, b, c)
    ensures Kept(occ, a, c)
  {
  }

  // ----- placing all buckets

  /** The rules of bucket `n` sit in occupied slots, under the seed recorded for the bucket. */
  ghost predicate BucketDone(h: StrHash, rules: seq<Bytes>, n: nat, vals: seq<nat>,
                             level0: seq<uint32>, level1: seq<nat>, occ: seq<bool>)
  {
    n < |level0| && |occ| == |level1| >= 1 && (forall j :: 0 <= j < |vals| ==> vals[j] < |rules|)
    && forall j :: 0 <= j < |vals| ==>
         var k := SlotOf(h, rules[vals[j]], level0[n], |level1|); occ[k] && level1[k] == vals[j]
  }

  ghost predicate AllDone(h: StrHash, rules: seq<Bytes>, buckets: seq<seq<nat>>, todo: set<nat>,
                          level0: seq<uint32>, level1: seq<nat>, occ: seq<bool>)
  {
    |level0| == |buckets| &&
    forall n :: 0 <= n < |buckets| && n !in todo ==> BucketDone(h, rules, n, buckets[n], level0, level1, occ)
  }

  /** A slot is taken by a rule of a finished bucket. */
  ghost predicate TakenBy(h: StrHash, rules: seq<Bytes>, buckets: seq<seq<nat>>, todo: set<nat>,
                          level0: seq<uint32>, size1: nat, k: nat)
  {
    exists m, j :: 0 <= m < |buckets| && m < |level0| && m !in todo && 0 <= j < |buckets[m]| && buckets[m][j] < |rules|
                   && size1 >= 1 && SlotOf(h, rules[buckets[m][j]], level0[m], size1) == k
  }

  /** Exactly the slots of the finished buckets are occupied. */
  ghost predicate OnlyThese(h: StrHash, rules: seq<Bytes>, buckets: seq<seq<nat>>, todo: set<nat>,
                            level0: seq<uint32>, occ: seq<bool>)
  {
    forall k :: 0 <= k < |occ| && occ[k] ==> TakenBy(h, rules, buckets, todo, level0, |occ|, k)
  }

  lemma OneMoreOf(h: StrHash, rules: seq<Bytes>, buckets: seq<seq<nat>>, todo: set<nat>, n: nat, seed: uint32,
                  level0: seq<uint32>, occ: seq<bool>, occ': seq<bool>)
    requires n < |buckets| == |level0| && n in todo && |occ| >= 1
    requires forall j :: 0 <= j < |buckets[n]| ==> buckets[n][j] < |rules|
    requires OnlyThese(h, rules, buckets, todo, level0, occ) && Taken(occ, Slots(h, rules, buckets[n], seed, |occ|), occ')
    ensures OnlyThese(h, rules, buckets, todo - {n}, level0[n := seed], occ')
  {
    hide SlotOf;
    var level0' := level0[n := seed];
    forall k | 0 <= k < |occ'| && occ'[k]
      ensures TakenBy(h, rules, buckets, todo - {n}, level0', |occ'|, k)
    {
      if occ[k] {
        assert TakenBy(h, rules, buckets, todo, level0, |occ|, k);
        var m, j :| 0 <= m < |buckets| && m !in todo && 0 <= j < |buckets[m]| && buckets[m][j] < |rules|
                    && SlotOf(h, rules[buckets[m][j]], level0[m], |occ|) == k;
        assert level0'[m] == level0[m];
      } else {
        var j :| 0 <= j < |buckets[n]| && Slots(h, rules, buckets[n], seed, |occ|)[j] == k;
        assert level0'[n] == seed;
      }
    }
  }

  /** The search is stuck: the finished buckets, none smaller than the others, occupy exactly their own
      slots, and a largest of the others has no seed that sends its rules to different free slots. */
  ghost predicate StuckAt(h: StrHash, rules: seq<Bytes>, buckets: seq<seq<nat>>, level0: seq<uint32>, level1: seq<nat>,
                          todo: set<nat>, n: nat, occ: seq<bool>)
  {
    AllDone(h, rules, buckets, todo, level0, level1, occ) && OnlyThese(h, rules, buckets, todo, level0, occ)
    && n in todo && LargestFirst(buckets, todo, n) && |occ| == |level1| && NoSeed(h, rules, buckets[n], occ, |level1|)
  }

  ghost predicate Stuck(h: StrHash, rules: seq<Bytes>, buckets: seq<seq<nat>>, level0: seq<uint32>, level1: seq<nat>) {
    Sorted(rules, buckets) && exists todo, n, occ :: StuckAt(h, rules, buckets, level0, level1, todo, n, occ)
  }

  /** Bucket `n` is a largest of those to do, and no larger than the finished ones. */
  ghost predicate LargestFirst(buckets: seq<seq<nat>>, todo: set<nat>, n: nat) {
    n < |buckets|
    && (forall m :: m in todo ==> m < |buckets| && 0 < |buckets[m]| <= |buckets[n]|)
    && (forall m :: 0 <= m < |buckets| && m !in todo && buckets[m] != [] ==> |buckets[n]| <= |buckets[m]|)
  }

  /** Placing one more bucket leaves the finished ones alone. */
  lemma PlaceOne(h: StrHash, rules: seq<Bytes>, buckets: seq<seq<nat>>, todo: set<nat>, n: nat, seed: uint32,
                 level0: seq<uint32>, level1: seq<nat>, occ: seq<bool>, level1': seq<nat>, occ': seq<bool>)
    requires n < |buckets| && |occ| == |level1| >= 1 && BucketOk(rules, |buckets|, n, buckets[n])
    requires AllDone(h, rules, buckets, todo, level0, level1, occ) && Kept(occ, level1, level1')
    requires var slots := Slots(h, rules, buckets[n], seed, |level1|);
             Taken(occ, slots, occ') && Written(slots, buckets[n], level1')
    ensures AllDone(h, rules, buckets, todo - {n}, level0[n := seed], level1', occ')
  {
  }

  lemma {:induction false} Largest(buckets: seq<seq<nat>>, todo: set<nat>) returns (n: nat)
    requires todo != {} && forall m :: m in todo ==> m < |buckets|
    ensures n in todo && forall m :: m in todo ==> |buckets[m]| <= |buckets[n]|
    decreases todo
  {
    n :| n in todo;
    if todo != {n} {
      var rest := todo - {n};
      assert todo == rest + {n} && rest != {};
      var k := Largest(buckets, rest);
      if |buckets[n]| < |buckets[k]| {
        n := k;
      }
    }
  }

  /** The seed search over the buckets, largest first and equally large ones in any order.  It gives
      up only where it is stuck. */
  method PlaceAll(h: StrHash, rules: seq<Bytes>, buckets: seq<seq<nat>>, level0: array<uint32>, level1: array<nat>)
    returns (finished: bool)
    requires level0.Length == |buckets| >= 1 && level1.Length >= 1 && Sorted(rules, buckets)
    requires Indices(rules, level1[..])
    modifies level0, level1
    ensures finished ==> Perfect(h, rules, level0[..], level1[..])
    ensures !finished ==> Stuck(h, rules, buckets, level0[..], level1[..])
  {
    hide SlotOf, BucketOf, Indices, AllDone, Taken, Written, Kept, GoodSeed, Slots, Perfect, NoSeed, OnlyThese;
    var occ := new bool[level1.Length](_ => false);
    var todo := set n | 0 <= n < |buckets| && buckets[n] != [];
    NothingPlaced(h, rules, buckets, todo, level0[..], level1[..], occ[..]);
    while todo != {}
      invariant forall m :: m in todo ==> 0 <= m < |buckets| && buckets[m] != []
      invariant forall m, k :: m in todo && 0 <= k < |buckets| && k !in todo && buckets[k] != [] ==>
                  |buckets[m]| <= |buckets[k]|
      invariant Indices(rules, level1[..]) && AllDone(h, rules, buckets, todo, level0[..], level1[..], occ[..])
      invariant OnlyThese(h, rules, buckets, todo, level0[..], occ[..])
      decreases todo
    {
      ghost var largest := Largest(buckets, todo);
      var n :| n in todo && forall m :: m in todo ==> |buckets[m]| <= |buckets[n]|;
      assert BucketOk(rules, |buckets|, n, buckets[n]);
      ghost var level00, level10, occ0 := level0[..], level1[..], occ[..];
      var found, seed := FindSeed(h, rules, buckets[n], occ, level1);
      if !found {
        NoSeedHere(h, rules, buckets[n], occ0, level1.Length);
        StillDone(h, rules, buckets, todo, level00, level10, level1[..], occ0);
        assert StuckAt(h, rules, buckets, level0[..], level1[..], todo, n, occ[..]);
        return false;
      }
      PlaceOne(h, rules, buckets, todo, n, seed, level00, level10, occ0, level1[..], occ[..]);
      OneMoreOf(h, rules, buckets, todo, n, seed, level00, occ0, occ[..]);
      level0[n] := seed;
      assert level0[..] == level00[n := seed];
      todo := todo - {n};
    }
    AllPlaced(h, rules, buckets, level0[..], level1[..], occ[..]);
    return true;
  }

  /** A single rule is always placed. */
  lemma OneRuleIsPlaced(h: StrHash, rules: seq<Bytes>, buckets: seq<seq<nat>>, level0: seq<uint32>, level1: seq<nat>)
    requires |rules| == 1
    ensures !Stuck(h, rules, buckets, level0, level1)
  {
    hide SlotOf, BucketOf, AllDone, OnlyThese, GoodSeed, Slots, Sorted;
    forall todo: set<nat>, n: nat, occ: seq<bool> |
      Sorted(rules, buckets) && n in todo && LargestFirst(buckets, todo, n)
      && OnlyThese(h, rules, buckets, todo, level0, occ) && |occ| == |level1| >= 1
      ensures !NoSeed(h, rules, buckets[n], occ, |level1|)
    {
      OneRuleHasSeed(h, rules, buckets, level0, todo, n, occ);
    }
  }

  lemma OneRuleHasSeed(h: StrHash, rules: seq<Bytes>, buckets: seq<seq<nat>>, level0: seq<uint32>,
                       todo: set<nat>, n: nat, occ: seq<bool>)
    requires |rules| == 1 && Sorted(rules, buckets) && n in todo && LargestFirst(buckets, todo, n) && |occ| >= 1
    requires OnlyThese(h, rules, buckets, todo, level0, occ)
    ensures BucketOk(rules, |buckets|, n, buckets[n]) && GoodSeed(Slots(h, rules, buckets[n], 0, |occ|), occ)
  {
    hide SlotOf, BucketOf;
    OnlyBucket(rules, buckets, n);
    assert forall k :: 0 <= k < |occ| ==> !occ[k];
  }

  lemma OnlyBucket(rules: seq<Bytes>, buckets: seq<seq<nat>>, n: nat)
    requires |rules| == 1 && Sorted(rules, buckets) && n < |buckets| && buckets[n] != []
    ensures |buckets[n]| == 1 && forall m :: 0 <= m < |buckets| && m != n ==> buckets[m] == []
  {
    hide BucketOf, BucketOk;
    forall m | 0 <= m < |buckets| && buckets[m] != []
      ensures |buckets[m]| == 1 && BucketOf(rules[0], |buckets|) == m
    {
      InBucket(rules, |buckets|, m, buckets[m]);
    }
  }

  lemma InBucket(rules: seq<Bytes>, size0: nat, m: nat, vals: seq<nat>)
    requires |rules| == 1 && size0 >= 1 && BucketOk(rules, size0, m, vals) && vals != []
    ensures |vals| == 1 && BucketOf(rules[0], size0) == m
  {
    hide BucketOf;
    assert vals[0] == 0;
    SomeElement(vals);
  }

  lemma SomeElement<T>(s: seq<T>)
    ensures |s| > 1 ==> s[1] in s
  {
  }

  /** What an abandoned search writes does not touch the finished buckets. */
  lemma StillDone(h: StrHash, rules: seq<Bytes>, buckets: seq<seq<nat>>, todo: set<nat>,
                  level0: seq<uint32>, level1: seq<nat>, level1': seq<nat>, occ: seq<bool>)
    requires AllDone(h, rules, buckets, todo, level0, level1, occ) && Kept(occ, level1, level1')
    ensures AllDone(h, rules, buckets, todo, level0, level1', occ)
  {
  }

  /** No seed sends the rules of a bucket to different free slots. */
  ghost predicate NoSeed(h: StrHash, rules: seq<Bytes>, vals: seq<nat>, occ: seq<bool>, size1: nat) {
    size1 >= 1 && (forall j :: 0 <= j < |vals| ==> vals[j] < |rules|)
    && forall s: uint32 :: !GoodSeed(Slots(h, rules, vals, s, size1), occ)
  }

  lemma NoSeedHere(h: StrHash, rules: seq<Bytes>, vals: seq<nat>, occ: seq<bool>, size1: nat)
    requires size1 >= 1 && (forall j :: 0 <= j < |vals| ==> vals[j] < |rules|)
    requires !exists s: uint32 :: GoodSeed(Slots(h, rules, vals, s, size1), occ)
    ensures NoSeed(h, rules, vals, occ, size1)
  {
  }

  lemma NothingPlaced(h: StrHash, rules: seq<Bytes>, buckets: seq<seq<nat>>, todo: set<nat>,
                      level0: seq<uint32>, level1: seq<nat>, occ: seq<bool>)
    requires |level0| == |buckets| && |occ| == |level1| >= 1
    requires forall n :: 0 <= n < |buckets| && n !in todo ==> buckets[n] == []
    ensures AllDone(h, rules, buckets, todo, level0, level1, occ)
    ensures (forall k :: 0 <= k < |occ| ==> !occ[k]) ==> OnlyThese(h, rules, buckets, todo, level0, occ)
  {
  }

  lemma AllPlaced(h: StrHash, rules: seq<Bytes>, buckets: seq<seq<nat>>,
                  level0: seq<uint32>, level1: seq<nat>, occ: seq<bool>)
    requires |level0| == |buckets| && |level1| >= 1 && Sorted(rules, buckets) && Indices(rules, level1)
    requires AllDone(h, rules, buckets, {}, level0, level1, occ)
    ensures Perfect(h, rules, level0, level1)
  {
  }

  class MphMatcherGroup {
    const strhash: StrHash
    var rules: seq<Bytes>
    var level0: array<uint32>
    var level1: array<nat>
    var ruleMap: map<Bytes, uint32>
    /** History: the full and the domain patterns added. */
    ghost var full: set<Bytes>
    ghost var domain: set<Bytes>

    /** Collecting patterns. */
    ghost predicate Open()
      reads this
    {
      (forall r :: r in ruleMap ==> ruleMap[r] == HashOf(r))
      && ruleMap.Keys == full + domain + Dotted(domain)
    }

    /** Ready for lookups. */
    ghost predicate Built()
      reads this, level0, level1
    {
      Perfect(strhash, rules, level0[..], level1[..]) && rules != []
      && (set r | r in rules) == RulesOf(full, domain)
    }

    constructor (strhash: StrHash)
      ensures Open() && full == {} && domain == {}
    {
      this.strhash := strhash;
      rules, ruleMap := [], map[];
      level0, level1 := new uint32[0], new nat[0];
      full, domain := {}, {};
    }

    /** A domain pattern is stored with a leading dot as well, and falls through to the full case. */
    method AddFullOrDomainPattern(pattern: Bytes, t: Type)
      requires Open()
      modifies this
      ensures Open()
      ensures full == if t == Full then old(full) + {pattern} else old(full)
      ensures domain == if t == Domain then old(domain) + {pattern} else old(domain)
    {
      hide HashOf, Dotted;
      var h := RollingHash(pattern);
      match t {
        case Domain =>
          var dotted := [DOT] + pattern;
          HashNext(dotted, 0);
          assert dotted[0..] == dotted && dotted[1..] == pattern;
          DottedMore(domain, pattern);
          ruleMap := ruleMap[dotted := (h * PRIME_RK + DOT) % WORD32];
          ruleMap := ruleMap[pattern := h];
          domain := domain + {pattern};
        case Full =>
          ruleMap := ruleMap[pattern := h];
          full := full + {pattern};
        case _ =>
      }
    }

    /** `Build` of the hash table.  When it finishes, the table is perfect, and it gives up only where
        the search is stuck. */
    method Build() returns (finished: bool)
      requires Open()
      modifies this
      ensures full == old(full) && domain == old(domain) && fresh(level0) && fresh(level1)
      ensures (set r | r in rules) == RulesOf(full, domain) && Distinct(rules)
      ensures level1.Length == NextPow2(|rules|) >= |rules| && level0.Length == NextPow2(|rules| / 4)
      ensures finished ==> Built()
      ensures !finished ==> exists buckets :: |buckets| == level0.Length
                                              && Stuck(strhash, rules, buckets, level0[..], level1[..])
    {
      hide Perfect, Indices, Sorted, HashOf, NextPow2, Stuck, RulesOf, Dotted, Distinct;
      var keys := ruleMap;
      if |keys| == 0 {
        var h := RollingHash(SENTINEL);
        keys := keys[SENTINEL := h];
      }
      RuleSet(ruleMap, keys, full, domain);
      level0 := new uint32[NextPow2(|keys| / 4)](_ => 0);
      level1 := new nat[NextPow2(|keys|)](_ => 0);
      var buckets;
      rules, buckets := Distribute(keys, level0.Length);
      ruleMap := map[];
      SomeRule(rules, keys.Keys);
      EachRuleOnce(rules, keys.Keys);
      NextPow2Exactly(|rules|);
      ZeroIndices(rules, level1[..]);
      finished := PlaceAll(strhash, rules, buckets, level0, level1);
    }

    /** `Lookup` finds only stored rules, and under the rolling hash of the string itself all of them. */
    method Lookup(h: uint32, s: Bytes) returns (found: bool)
      requires Built()
      ensures found ==> s in RulesOf(full, domain)
      ensures h == HashOf(s) ==> (found <==> s in RulesOf(full, domain))
    {
      hide HashOf, BitAnd, RulesOf;
      PerfectSizes(strhash, rules, level0[..], level1[..]);
      var i0 := BitAnd(h, level0.Length - 1);
      var seed := level0[i0];
      var i1 := BitAnd(strhash(s, seed), level1.Length - 1);
      var n := level1[i1];
      LookupExact(strhash, rules, level0[..], level1[..], s);
      return s == rules[n];
    }

    /** The rolling-hash part of `Match`: look the name up from each of its dots, then as a whole. */
    method MatchRules(pattern: Bytes) returns (found: bool)
      requires Built()
      ensures found <==> Found(RulesOf(full, domain), pattern)
    {
      hide RulesOf, HashOf, Perfect;
      var hash: uint32 := 0;
      var i := |pattern|;
      HashStart(pattern);
      while i > 0
        invariant 0 <= i <= |pattern| && hash == HashOf(pattern[i..])
        invariant forall k :: i <= k < |pattern| ==> !FoundAt(RulesOf(full, domain), pattern, k)
      {
        i := i - 1;
        HashNext(pattern, i);
        hash := (hash * PRIME_RK + pattern[i]) % WORD32;
        if pattern[i] == DOT {
          var hit := Lookup(hash, pattern[i..]);
          if hit {
            assert FoundAt(RulesOf(full, domain), pattern, i);
            return true;
          }
        }
      }
      assert pattern[0..] == pattern;
      found := Lookup(hash, pattern);
    }
  }

  lemma RuleSet(ruleMap: map<Bytes, uint32>, keys: map<Bytes, uint32>, F: set<Bytes>, D: set<Bytes>)
    requires (forall r :: r in ruleMap ==> ruleMap[r] == HashOf(r))
    requires ruleMap.Keys == F + D + Dotted(D)
    requires keys == if |ruleMap| == 0 then ruleMap[SENTINEL := HashOf(SENTINEL)] else ruleMap
    ensures keys.Keys == RulesOf(F, D) && keys.Keys != {} && forall r :: r in keys ==> keys[r] == HashOf(r)
  {
    hide HashOf;
    if |ruleMap| == 0 {
      assert ruleMap.Keys == {};
      assert F == {} && D == {};
    } else {
      assert ruleMap.Keys != {};
      assert F == {} && D == {} ==> ruleMap.Keys == {};
    }
  }

  lemma {:induction false} EachRuleOnce(rules: seq<Bytes>, keys: set<Bytes>)
    requires (set r | r in rules) == keys && Distinct(rules)
    ensures |rules| == |keys|
  {
    if rules == [] {
      assert keys == {};
    } else {
      var n := |rules| - 1;
      var front, last := rules[..n], rules[n];
      assert rules == front + [last];
      assert last !in front;
      assert (set r | r in front) == keys - {last};
      EachRuleOnce(front, keys - {last});
    }
  }

  lemma SomeRule(rules: seq<Bytes>, keys: set<Bytes>)
    requires (set r | r in rules) == keys && keys != {}
    ensures rules != []
  {
  }

  lemma ZeroIndices(rules: seq<Bytes>, level1: seq<nat>)
    requires rules != [] && forall k :: 0 <= k < |level1| ==> level1[k] == 0
    ensures Indices(rules, level1)
  {
  }

  lemma PerfectSizes(h: StrHash, rules: seq<Bytes>, level0: seq<uint32>, level1: seq<nat>)
    requires Perfect(h, rules, level0, level1)
    ensures |level0| >= 1 && |level1| >= 1 && forall k :: 0 <= k < |level1| ==> level1[k] < |rules|
  {
  }

  /** In a perfect table the candidate for `s` is `s` itself exactly when `s` is a rule. */
  lemma LookupExact(h: StrHash, rules: seq<Bytes>, level0: seq<uint32>, level1: seq<nat>, s: Bytes)
    requires Perfect(h, rules, level0, level1)
    ensures var n := level1[SlotOf(h, s, level0[BucketOf(s, |level0|)], |level1|)];
            n < |rules| && (s == rules[n] <==> s in (set r | r in rules))
  {
    hide SlotOf, BucketOf;
    if s in rules {
      var i :| 0 <= i < |rules| && rules[i] == s;
      assert Placed(h, rules, level0, level1, i);
    }
  }

  lemma HashStart(s: Bytes)
    ensures HashOf(s[|s|..]) == 0
  {
  }

  lemma HashNext(s: Bytes, i: nat)
    requires i < |s|
    ensures HashOf(s[i..]) == (HashOf(s[i + 1..]) * PRIME_RK + s[i]) % WORD32
  {
  }

  /** `RollingHash`, as a loop from the end of the string. */
  method RollingHash(s: Bytes) returns (h: uint32)
    ensures h == HashOf(s)
  {
    h := 0;
    var i := |s|;
    while i > 0
      invariant 0 <= i <= |s| && h == HashOf(s[i..])
    {
      i := i - 1;
      assert s[i..][1..] == s[i + 1..];
      h := (h * PRIME_RK + s[i]) % WORD32;
    }
    assert s[0..] == s;
  }
}
