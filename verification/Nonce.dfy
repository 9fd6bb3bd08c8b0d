/** Nonce generators: a counter of bytes, least significant first, incremented in place. */
module Nonces {
  import opened Octets

  /** The number that the bytes stand for. */
  function Value(s: Bytes): nat {
    if s == [] then 0 else s[0] + 256 * Value(s[1..])
  }

  function Pow256(n: nat): (r: nat)
    ensures r >= 1
  {
    if n == 0 then 1 else 256 * Pow256(n - 1)
  }

  /** The bytes after one increment. */
  function Inc(s: Bytes): (r: Bytes)
    ensures |r| == |s|
  {
    if s == [] then [] else if s[0] == 255 then [0] + Inc(s[1..]) else [s[0] + 1] + s[1..]
  }

  lemma {:induction false} IncIsSuccessor(s: Bytes)
    ensures Value(s) < Pow256(|s|)
    ensures Value(Inc(s)) == if Value(s) + 1 == Pow256(|s|) then 0 else Value(s) + 1
  {
    if s != [] {
      IncIsSuccessor(s[1..]);
      assert Inc(s)[1..] == if s[0] == 255 then Inc(s[1..]) else s[1..];
    }
  }

  lemma {:induction false} ValueIsInjective(a: Bytes, b: Bytes)
    requires |a| == |b|
    ensures Value(a) == Value(b) <==> a == b
  {
    if a != [] {
      ValueIsInjective(a[1..], b[1..]);
      assert a == [a[0]] + a[1..] && b == [b[0]] + b[1..];
    }
  }

  /** The remainder modulo `p`, by subtraction. */
  function Mod(x: nat, p: nat): (r: nat)
    requires p >= 1
    ensures r < p
  {
    if x < p then x else Mod(x - p, p)
  }

  lemma {:induction false} ModOfSum(q: nat, r: nat, p: nat)
    requires r < p
    ensures Mod(Times(q, p) + r, p) == r
  {
    if q > 0 {
      ModOfSum(q - 1, r, p);
    }
  }

  function Times(q: nat, p: nat): nat {
    if q == 0 then 0 else Times(q - 1, p) + p
  }

  lemma {:induction false} TimesIsProduct(q: nat, p: nat)
    ensures Times(q, p) == q * p
  {
    if q > 0 {
      TimesIsProduct(q - 1, p);
    }
  }

  lemma ModIsRemainder(x: nat, p: nat)
    requires p >= 1
    ensures Mod(x, p) == x % p
  {
    hide Mod, Times;
    TimesIsProduct(x / p, p);
    ModOfSum(x / p, x % p, p);
  }

  lemma {:induction false} NextModulo(x: nat, p: nat)
    requires p >= 1
    ensures Mod(x + 1, p) == if Mod(x, p) + 1 == p then 0 else Mod(x, p) + 1
  {
    if x >= p {
      NextModulo(x - p, p);
    }
  }

  lemma {:induction false} SameRemainder(x: nat, y: nat, p: nat)
    requires x <= y && p >= 1
    ensures Mod(x, p) == Mod(y, p) <==> Mod(y - x, p) == 0
    decreases x + y
  {
    if x >= p {
      SameRemainder(x - p, y - p, p);
    } else if y - x >= p {
      SameRemainder(x, y - p, p);
    }
  }

  /** One byte of the increment, with the bytes before it done. */
  lemma IncAt(a: Bytes, t: Bytes)
    requires t != []
    ensures a + Inc(t) == if t[0] == 255 then (a + [0]) + Inc(t[1..]) else a + ([t[0] + 1] + t[1..])
  {
  }

  lemma Put(a: Bytes, t: Bytes, x: byte)
    requires t != []
    ensures (a + t)[|a| := x] == a + ([x] + t[1..]) == (a + [x]) + t[1..] && (a + t)[|a|] == t[0]
  {
  }

  class NonceGenerator {
    const c: array<byte>
    /** The initial counter, and every nonce given so far. */
    ghost const start: nat
    ghost var given: seq<Bytes>

    ghost predicate Valid()
      reads this, c
    {
      Value(c[..]) == Mod(start + |given|, Pow256(c.Length))
      && forall i :: 0 <= i < |given| ==> IsNonce(given[i], i)
    }

    /** The nonce of call `i`, counted from zero. */
    ghost predicate IsNonce(nonce: Bytes, i: nat) {
      |nonce| == c.Length && Value(nonce) == Mod(start + i + 1, Pow256(c.Length))
    }

    /** `GenerateIncreasingNonce`: counts on from a copy of the given bytes. */
    constructor (nonce: Bytes)
      ensures Valid() && fresh(c) && c.Length == |nonce| && start == Value(nonce) && given == []
    {
      c := new byte[|nonce|](i requires 0 <= i < |nonce| => nonce[i]);
      start := Value(nonce);
      given := [];
      new;
      assert c[..] == nonce;
      IncIsSuccessor(nonce);
    }

    /** `GenerateAEADNonceWithSize`: all ones, so that the first nonce is zero. */
    constructor AEAD(nonceSize: nat)
      ensures Valid() && fresh(c) && c.Length == nonceSize && start == Pow256(nonceSize) - 1 && given == []
    {
      c := new byte[nonceSize](i => 0xFF);
      start := Pow256(nonceSize) - 1;
      given := [];
      new;
      Ones(c[..]);
    }

    /** One call of the generator. */
    method Next() returns (r: array<byte>)
      requires Valid()
      modifies this, c
      ensures Valid() && r == c && given == old(given) + [c[..]]
    {
      hide Value, Pow256, Mod, Inc;
      var i := 0;
      ghost var s := c[..];
      ghost var a: Bytes, t: Bytes := [], s;
      var carry := true;
      while carry && i < c.Length
        invariant 0 <= i <= c.Length && given == old(given) && |a| == i
        invariant carry ==> c[..] == a + t && Inc(s) == a + Inc(t)
        invariant !carry ==> c[..] == Inc(s)
        decreases carry, c.Length - i
      {
        IncAt(a, t);
        Put(a, t, if t[0] == 255 then 0 else t[0] + 1);
        ghost var before := c[..];
        c[i] := if c[i] == 255 then 0 else c[i] + 1;
        assert c[..] == before[i := c[i]];
        if c[i] != 0 {
          carry := false;
        } else {
          i := i + 1;
          a, t := a + [0], t[1..];
        }
      }
      assert carry ==> t == [] && a + Inc(t) == a == a + t;
      IncIsSuccessor(s);
      NextModulo(start + |given|, Pow256(c.Length));
      given := given + [c[..]];
      r := c;
    }

    /** Two nonces are equal exactly if a multiple of all possible counters lies between them. */
    lemma NoncesRepeatExactlyAfterAll(i: nat, j: nat)
      requires Valid() && i <= j < |given|
      ensures given[i] == given[j] <==> (j - i) % Pow256(c.Length) == 0
    {
      ModIsRemainder(j - i, Pow256(c.Length));
      assert IsNonce(given[i], i) && IsNonce(given[j], j);
      ValueIsInjective(given[i], given[j]);
      SameRemainder(start + i + 1, start + j + 1, Pow256(c.Length));
    }

    /** From all ones the nonces are zero, one, two and so on. */
    lemma AEADCountsFromZero(i: nat)
      requires Valid() && i < |given| && start == Pow256(c.Length) - 1
      ensures Value(given[i]) == i % Pow256(c.Length)
    {
      hide Pow256;
      ModIsRemainder(i, Pow256(c.Length));
      assert IsNonce(given[i], i);
      SameRemainder(i, start + i + 1, Pow256(c.Length));
    }
  }

  lemma {:induction false} Ones(s: Bytes)
    requires forall i :: 0 <= i < |s| ==> s[i] == 0xFF
    ensures Value(s) == Pow256(|s|) - 1 && Mod(Value(s), Pow256(|s|)) == Value(s)
  {
    if s != [] {
      Ones(s[1..]);
    }
  }
}
