/** The cache of `lru.go`: a list of elements, latest first, and maps to it from keys and from values. */
module Lru {
  import opened Octets
  import opened Recency

  /** An element of the list; its content is replaced in place. */
  class Element<K, V> {
    var key: K
    var value: V

    constructor (key: K, value: V)
      ensures this.key == key && this.value == value
    {
      this.key, this.value := key, value;
    }
  }

  ghost function PairsOf<K, V>(es: seq<Element<K, V>>): (r: seq<(K, V)>)
    reads es
    ensures |r| == |es| && forall i :: 0 <= i < |es| ==> r[i] == (es[i].key, es[i].value)
  {
    if es == [] then [] else [(es[0].key, es[0].value)] + PairsOf(es[1..])
  }

  ghost function Keys<K, V>(ps: seq<(K, V)>): (r: seq<K>)
    ensures |r| == |ps| && forall i :: 0 <= i < |ps| ==> r[i] == ps[i].0
  {
    seq(|ps|, i requires 0 <= i < |ps| => ps[i].0)
  }

  ghost function Values<K, V>(ps: seq<(K, V)>): (r: seq<V>)
    ensures |r| == |ps| && forall i :: 0 <= i < |ps| ==> r[i] == ps[i].1
  {
    seq(|ps|, i requires 0 <= i < |ps| => ps[i].1)
  }

  /** The map leads from the name of every element to it, and from nothing else. */
  ghost predicate Indexed<E, N>(es: seq<E>, names: seq<N>, m: map<N, E>) {
    |names| == |es|
    && (forall i :: 0 <= i < |es| ==> names[i] in m && m[names[i]] == es[i])
    && (forall n :: n in m ==> m[n] in es)
    && (forall n, i :: n in m && 0 <= i < |es| && es[i] == m[n] ==> names[i] == n)
  }

  ghost predicate Bijection<E, K, V>(es: seq<E>, ps: seq<(K, V)>, k2e: map<K, E>, v2e: map<V, E>) {
    Distinct(es) && Indexed(es, Keys(ps), k2e) && Indexed(es, Values(ps), v2e)
  }

  class LruCache<K(==, !new), V(==, !new)> {
    const capacity: int
    var list: seq<Element<K, V>>
    var keyToElement: map<K, Element<K, V>>
    var valueToElement: map<V, Element<K, V>>
    /** History: every pair put or got, in order. */
    ghost var log: seq<(K, V)>

    ghost function Pairs(): seq<(K, V)>
      reads this, list
    {
      PairsOf(list)
    }

    ghost function Room(): nat {
      RoomFor(capacity)
    }

    /** List and maps describe one bijection between keys and values. */
    ghost predicate Linked()
      reads this, list
    {
      Bijection(list, Pairs(), keyToElement, valueToElement)
    }

    /** ... and the list is the pairs touched last, as many as there is room for. */
    ghost predicate Valid()
      reads this, list
    {
      Linked() && Pairs() == Recent(log, Room())
    }

    constructor (cap: int)
      ensures Valid() && capacity == cap && log == [] && list == []
    {
      capacity := cap;
      list, keyToElement, valueToElement, log := [], map[], map[], [];
    }

    method MoveToFront(e: Element<K, V>) returns (ghost i: nat)
      requires e in list
      modifies `list
      ensures i < |old(list)| && old(list)[i] == e && list == ToFront(old(list), i)
      ensures forall x :: x in list <==> x in old(list)
    {
      var k :| 0 <= k < |list| && list[k] == e;
      i := k;
      list := ToFront(list, k);
    }

    method Get(key: K) returns (r: Option<V>)
      requires Valid()
      modifies this
      ensures Valid()
      ensures r.Some? ==> (key, r.value) in old(Pairs()) && log == old(log) + [(key, r.value)]
      ensures r.None? ==> (forall p :: p in old(Pairs()) ==> p.0 != key) && log == old(log) && list == old(list)
      ensures forall e :: e in list <==> e in old(list)
    {
      hide Recent, Distinct, ToFront, Keys, Values, PairsOf;
      if key in keyToElement {
        var element := keyToElement[key];
        assert element in list;
        Stored(list, element);
        ghost var i := MoveToFront(element);
        TouchKeeps(old(list), i, keyToElement, valueToElement, log, Room());
        log := log + [(element.key, element.value)];
        return Some(element.value);
      }
      return None;
    }

    method GetKeyFromValue(value: V) returns (r: Option<K>)
      requires Valid()
      modifies this
      ensures Valid()
      ensures r.Some? ==> (r.value, value) in old(Pairs()) && log == old(log) + [(r.value, value)]
      ensures r.None? ==> (forall p :: p in old(Pairs()) ==> p.1 != value) && log == old(log) && list == old(list)
      ensures forall e :: e in list <==> e in old(list)
    {
      hide Recent, Distinct, ToFront, Keys, Values, PairsOf;
      if value in valueToElement {
        var element := valueToElement[value];
        assert element in list;
        Stored(list, element);
        ghost var i := MoveToFront(element);
        TouchKeeps(old(list), i, keyToElement, valueToElement, log, Room());
        log := log + [(element.key, element.value)];
        return Some(element.key);
      }
      return None;
    }

    /** Looks, and does not touch. */
    method PeekKeyFromValue(value: V) returns (r: Option<K>)
      requires Valid()
      ensures r.Some? ==> (r.value, value) in Pairs()
      ensures r.None? ==> forall p :: p in Pairs() ==> p.1 != value
    {
      hide Recent, Distinct, ToFront, Keys, Values, PairsOf;
      if value in valueToElement {
        var element := valueToElement[value];
        assert element in list;
        Stored(list, element);
        return Some(element.key);
      }
      return None;
    }

    /** The pair is stored already, or neither its key nor its value is. */
    ghost predicate Consistent(key: K, value: V)
      reads this, list
    {
      (key, value) in Pairs() || (key !in Keys(Pairs()) && value !in Values(Pairs()))
    }

    /** `Put`.  The bijection survives exactly if the pair is consistent with it. */
    method Put(key: K, value: V)
      requires Valid()
      modifies this, list
      ensures Linked() <==> old(Consistent(key, value))
      ensures old(Consistent(key, value)) ==> Valid() && log == old(log) + [(key, value)]
      ensures old(Consistent(key, value)) ==> |list| <= if capacity < 0 then 0 else capacity
      ensures forall e :: e in list && e !in old(list) ==> fresh(e)
    {
      hide Order, Distinct, PairsOf, Keys, Values, Indexed;
      Named(list, Keys(Pairs()), keyToElement, key);
      if key in keyToElement {
        PutStored(key, value);
      } else {
        PutNew(key, value);
      }
    }

    method PutStored(key: K, value: V)
      requires Valid() && key in keyToElement
      modifies this, list
      ensures Linked() <==> old(Consistent(key, value))
      ensures old(Consistent(key, value)) ==> Valid() && log == old(log) + [(key, value)]
      ensures forall e :: e in list && e !in old(list) ==> fresh(e)
    {
      hide Recent, Distinct, PairsOf, Keys, Values;
      var element := keyToElement[key];
      Stored(list, element);
      assert old(Consistent(key, value)) <==> element.value == value;
      ghost var same := element.value == value;
      element.key, element.value := key, value;
      ghost var i := MoveToFront(element);
      log := log + [(key, value)];
      if same {
        TouchKeeps(old(list), i, keyToElement, valueToElement, old(log), Room());
      }
    }

    /** The element at the back goes, and its names with it. */
    method RemoveBack()
      requires list != []
      modifies `list, `keyToElement, `valueToElement
      ensures var back := old(list)[|old(list)| - 1];
              list == old(list)[..|old(list)| - 1] && keyToElement == old(keyToElement) - {back.key}
              && valueToElement == old(valueToElement) - {back.value}
    {
      var back := list[|list| - 1];
      list := list[..|list| - 1];
      keyToElement := keyToElement - {back.key};
      valueToElement := valueToElement - {back.value};
    }

    method PutNew(key: K, value: V)
      requires Valid() && key !in keyToElement
      modifies this
      ensures Linked() <==> old(Consistent(key, value))
      ensures old(Consistent(key, value)) ==> Valid() && log == old(log) + [(key, value)]
      ensures forall e :: e in list && e !in old(list) ==> fresh(e)
    {
      hide Recent, Bijection, PairsOf, Keys, Values;
      ghost var es, k2e, v2e := list, keyToElement, valueToElement;
      NamesStored(es, k2e, v2e, key, value);
      var element := new Element(key, value);
      list := [element] + list;
      keyToElement := keyToElement[key := element];
      valueToElement := valueToElement[value := element];
      if |list| > capacity {
        RemoveBack();
      }
      assert PairsOf(es) == old(Pairs());
      PushOutcome(es, k2e, v2e, log, capacity, element, list, keyToElement, valueToElement);
      log := log + [(key, value)];
    }
  }

  /** A stored key that gets another value: the old value still leads to the element. */
  method StaleValue() returns (c: LruCache<int, int>)
    ensures !c.Linked()
  {
    c := new LruCache(2);
    c.Put(1, 1);
    assert Order([(1, 1)]) == [(1, 1)];
    assert c.Pairs() == [(1, 1)];
    assert Keys(c.Pairs())[0] == 1;
    c.Put(1, 2);
  }

  function RoomFor(capacity: int): nat {
    if capacity < 0 then 0 else capacity
  }

  lemma Names<K, V>(ps: seq<(K, V)>, k: K, v: V)
    ensures (k, v) in ps ==> k in Keys(ps) && v in Values(ps)
  {
  }

  lemma PushPairs<K, V>(es: seq<Element<K, V>>, e: Element<K, V>)
    ensures PairsOf([e] + es) == [(e.key, e.value)] + PairsOf(es)
    ensures Keys(PairsOf([e] + es)) == [e.key] + Keys(PairsOf(es))
    ensures Values(PairsOf([e] + es)) == [e.value] + Values(PairsOf(es))
  {
    hide PairsOf, Keys, Values;
  }

  lemma DropPairs<K, V>(es: seq<Element<K, V>>)
    requires es != []
    ensures var b := |es| - 1; var ps := PairsOf(es);
            PairsOf(es[..b]) == ps[..b] && Keys(ps[..b]) == Keys(ps)[..b] && Values(ps[..b]) == Values(ps)[..b]
            && es[b].key == Keys(ps)[b] && es[b].value == Values(ps)[b]
  {
    hide PairsOf, Keys, Values;
    var b, ps := |es| - 1, PairsOf(es);
    assert PairsOf(es[..b]) == ps[..b];
    DropNames(ps, b);
  }

  lemma DropNames<K, V>(ps: seq<(K, V)>, b: nat)
    requires b <= |ps|
    ensures Keys(ps[..b]) == Keys(ps)[..b] && Values(ps[..b]) == Values(ps)[..b]
  {
    hide Keys, Values;
  }

  /** A touch of a stored pair. */
  lemma TouchKeeps<K(!new), V(!new)>(es: seq<Element<K, V>>, i: nat, k2e: map<K, Element<K, V>>,
                                     v2e: map<V, Element<K, V>>, log: seq<(K, V)>, room: nat)
    requires Distinct(es) && i < |es| && PairsOf(es) == Recent(log, room)
    requires Indexed(es, Keys(PairsOf(es)), k2e) && Indexed(es, Values(PairsOf(es)), v2e)
    ensures var es' := ToFront(es, i);
            Distinct(es') && PairsOf(es') == Recent(log + [(es[i].key, es[i].value)], room)
            && Indexed(es', Keys(PairsOf(es')), k2e) && Indexed(es', Values(PairsOf(es')), v2e)
  {
    hide Recent, Distinct, PairsOf, Keys, Values, Indexed, ToFront;
    TouchRecent(log, room, i);
    Moved(es, i);
    PairsMoved(es, i);
    MovedIndex(es, Keys(PairsOf(es)), k2e, i);
    MovedIndex(es, Values(PairsOf(es)), v2e, i);
  }

  /** A new pair in front, and the last one dropped if there is no room for it. */
  lemma PushKeeps<K(!new), V(!new)>(es: seq<Element<K, V>>, e: Element<K, V>, k2e: map<K, Element<K, V>>,
                                    v2e: map<V, Element<K, V>>, log: seq<(K, V)>, room: nat)
    requires Distinct(es) && e !in es && PairsOf(es) == Recent(log, room)
    requires Indexed(es, Keys(PairsOf(es)), k2e) && Indexed(es, Values(PairsOf(es)), v2e)
    requires e.key !in k2e && e.value !in v2e
    ensures var es' := [e] + es; var b := |es|;
            |es| <= room && Distinct(es') && Distinct(es'[..b])
            && Indexed(es', Keys(PairsOf(es')), k2e[e.key := e])
            && Indexed(es', Values(PairsOf(es')), v2e[e.value := e])
            && Indexed(es'[..b], Keys(PairsOf(es'))[..b], k2e[e.key := e] - {es'[b].key})
            && Indexed(es'[..b], Values(PairsOf(es'))[..b], v2e[e.value := e] - {es'[b].value})
    ensures PairsOf(if |es| < room then [e] + es else ([e] + es)[..|es|])
         == Recent(log + [(e.key, e.value)], room)
  {
    hide Distinct, PairsOf, Keys, Values, Indexed, Order;
    var es' := [e] + es;
    PushPairs(es, e);
    DropPairs(es');
    PushDistinct(es, e);
    PushIndex(es, Keys(PairsOf(es)), k2e, e, e.key);
    PushIndex(es, Values(PairsOf(es)), v2e, e, e.value);
    DropIndex(es', Keys(PairsOf(es')), k2e[e.key := e]);
    DropIndex(es', Values(PairsOf(es')), v2e[e.value := e]);
    Named(es, Keys(PairsOf(es)), k2e, e.key);
    Names(PairsOf(es), e.key, e.value);
    TouchOther(log, room, (e.key, e.value));
  }

  /** The outcome of pushing a new key: the bijection survives exactly if the value is new as well. */
  lemma PushOutcome<K(!new), V(!new)>(
      es: seq<Element<K, V>>, k2e: map<K, Element<K, V>>, v2e: map<V, Element<K, V>>, log: seq<(K, V)>, capacity: int,
      e: Element<K, V>,
      es': seq<Element<K, V>>, k2e': map<K, Element<K, V>>, v2e': map<V, Element<K, V>>)
    requires Bijection(es, PairsOf(es), k2e, v2e) && PairsOf(es) == Recent(log, RoomFor(capacity))
    requires e !in es && e.key !in k2e
    requires |es| < capacity ==>
               es' == [e] + es && k2e' == k2e[e.key := e] && v2e' == v2e[e.value := e]
    requires |es| >= capacity ==>
               var back := ([e] + es)[|es|];
               es' == ([e] + es)[..|es|] && k2e' == k2e[e.key := e] - {back.key} && v2e' == v2e[e.value := e] - {back.value}
    ensures Bijection(es', PairsOf(es'), k2e', v2e') <==> e.value !in v2e
    ensures e.value !in v2e ==> PairsOf(es') == Recent(log + [(e.key, e.value)], RoomFor(capacity))
  {
    hide Recent, Distinct, PairsOf, Keys, Values, Indexed;
    PushPairs(es, e);
    DropPairs([e] + es);
    if e.value in v2e {
      PushTaken(es, Values(PairsOf(es)), v2e, e, e.value);
    } else {
      PushKeeps(es, e, k2e, v2e, log, RoomFor(capacity));
    }
  }

  lemma NamesStored<K(!new), V(!new)>(es: seq<Element<K, V>>, k2e: map<K, Element<K, V>>,
                                      v2e: map<V, Element<K, V>>, k: K, v: V)
    requires Bijection(es, PairsOf(es), k2e, v2e)
    ensures k in k2e <==> k in Keys(PairsOf(es))
    ensures v in v2e <==> v in Values(PairsOf(es))
    ensures (k, v) in PairsOf(es) ==> k in k2e && v in v2e
  {
  }

  lemma PushDistinct<T>(s: seq<T>, x: T)
    requires Distinct(s) && x !in s
    ensures Distinct([x] + s)
  {
  }

  lemma PushIndex<E, N>(es: seq<E>, names: seq<N>, m: map<N, E>, e: E, n: N)
    requires Indexed(es, names, m) && e !in es && n !in m
    ensures Indexed([e] + es, [n] + names, m[n := e])
  {
  }

  lemma DropIndex<E, N>(es: seq<E>, names: seq<N>, m: map<N, E>)
    requires Indexed(es, names, m) && Distinct(es) && es != []
    ensures var b := |es| - 1; Indexed(es[..b], names[..b], m - {names[b]}) && Distinct(es[..b])
  {
  }

  /** A taken name leads to the new element only, so the old one is lost. */
  lemma PushTaken<E, N>(es: seq<E>, names: seq<N>, m: map<N, E>, e: E, n: N)
    requires Indexed(es, names, m) && Distinct(es) && e !in es && n in m
    ensures !Indexed([e] + es, [n] + names, m[n := e])
    ensures var b := |es|; !Indexed(([e] + es)[..b], ([n] + names)[..b], m[n := e] - {([n] + names)[b]})
  {
    var j :| 0 <= j < |es| && es[j] == m[n];
    var es', names' := [e] + es, [n] + names;
    assert names'[j + 1] == n && es'[j + 1] == es[j];
    var b := |es|;
    if j + 1 == b {
      assert names'[..b][0] == n;
    } else {
      assert names'[b] == names[b - 1] != n;
      assert names'[..b][j + 1] == n && es'[..b][j + 1] == es[j];
    }
  }

  lemma Named<E, N>(es: seq<E>, names: seq<N>, m: map<N, E>, n: N)
    requires Indexed(es, names, m)
    ensures n in m <==> n in names
  {
  }

  /** Where the item that ends up at `j` came from. */
  function Origin(i: nat, j: nat): nat {
    if j == 0 then i else if j <= i then j - 1 else j
  }

  lemma ToFrontAt<T>(s: seq<T>, i: nat, j: nat)
    requires i < |s| && j < |s|
    ensures ToFront(s, i)[j] == s[Origin(i, j)]
  {
  }

  lemma Moved<T>(s: seq<T>, i: nat)
    requires i < |s| && Distinct(s)
    ensures Distinct(ToFront(s, i)) && forall x :: x in ToFront(s, i) <==> x in s
  {
  }

  lemma MovedIndex<E, N>(es: seq<E>, names: seq<N>, m: map<N, E>, i: nat)
    requires Indexed(es, names, m) && i < |es| && Distinct(es)
    ensures Indexed(ToFront(es, i), ToFront(names, i), m)
  {
  }

  lemma PairsMoved<K, V>(es: seq<Element<K, V>>, i: nat)
    requires i < |es|
    ensures PairsOf(ToFront(es, i)) == ToFront(PairsOf(es), i)
    ensures Keys(ToFront(PairsOf(es), i)) == ToFront(Keys(PairsOf(es)), i)
    ensures Values(ToFront(PairsOf(es), i)) == ToFront(Values(PairsOf(es)), i)
  {
    hide ToFront, PairsOf, Keys, Values;
    var ps := PairsOf(es);
    forall j | 0 <= j < |es|
      ensures PairsOf(ToFront(es, i))[j] == ToFront(ps, i)[j]
      ensures Keys(ToFront(ps, i))[j] == ToFront(Keys(ps), i)[j]
      ensures Values(ToFront(ps, i))[j] == ToFront(Values(ps), i)[j]
    {
      ToFrontAt(es, i, j);
      ToFrontAt(ps, i, j);
      ToFrontAt(Keys(ps), i, j);
      ToFrontAt(Values(ps), i, j);
    }
  }

  lemma Stored<K, V>(es: seq<Element<K, V>>, e: Element<K, V>)
    requires e in es
    ensures (e.key, e.value) in PairsOf(es)
  {
  }
}
