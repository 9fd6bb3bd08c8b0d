/** Bytes, lists of byte buffers and the big-endian 16-bit integers every wire format here uses. */
module Octets {
  type byte = x: int | 0 <= x < 256
  type uint16 = x: int | 0 <= x < 0x1_0000
  type uint32 = x: int | 0 <= x < 0x1_0000_0000
  type Bytes = seq<byte>

  datatype Option<+T> = None | Some(value: T)

  /** One more than the largest 32-bit integer. */
  const WORD32 := 0x1_0000_0000

  /** The capacity of a regular buffer (`buf.Size`). */
  const SIZE := 8192

  /** Each element once. */
  ghost predicate Distinct<T>(s: seq<T>) {
    forall i, j :: 0 <= i < j < |s| ==> s[i] != s[j]
  }

  function Min(a: int, b: int): int {
    if a < b then a else b
  }

  /** All bytes of a list of buffers, in order. */
  function Flatten(mb: seq<Bytes>): Bytes {
    if mb == [] then [] else mb[0] + Flatten(mb[1..])
  }

  lemma {:induction false} FlattenConcat(a: seq<Bytes>, b: seq<Bytes>)
    ensures Flatten(a + b) == Flatten(a) + Flatten(b)
  {
    if a == [] {
      assert a + b == b;
    } else {
      assert (a + b)[1..] == a[1..] + b;
      FlattenConcat(a[1..], b);
    }
  }

  lemma FlattenOne(b: Bytes)
    ensures Flatten([b]) == b
  {
  }

  lemma FlattenSnoc(a: seq<Bytes>, b: Bytes)
    ensures Flatten(a + [b]) == Flatten(a) + b
  {
    FlattenConcat(a, [b]);
    FlattenOne(b);
  }

  lemma FlattenSplit(mb: seq<Bytes>, i: nat)
    requires i <= |mb|
    ensures Flatten(mb) == Flatten(mb[..i]) + Flatten(mb[i..])
  {
    assert mb == mb[..i] + mb[i..];
    FlattenConcat(mb[..i], mb[i..]);
  }

  /** No buffer of the list holds any byte (`MultiBuffer.IsEmpty`). */
  predicate IsEmpty(mb: seq<Bytes>) {
    forall i :: 0 <= i < |mb| ==> mb[i] == []
  }

  lemma {:induction false} EmptyIffNoBytes(mb: seq<Bytes>)
    ensures IsEmpty(mb) <==> Flatten(mb) == []
  {
    if mb != [] {
      EmptyIffNoBytes(mb[1..]);
      if Flatten(mb) == [] {
        assert |mb[0]| <= |Flatten(mb)|;
        assert forall i :: 1 <= i < |mb| ==> mb[i] == mb[1..][i - 1];
      } else if mb[0] == [] {
        assert !IsEmpty(mb[1..]);
        var i :| 0 <= i < |mb[1..]| && mb[1..][i] != [];
        assert mb[i + 1] != [];
      }
    }
  }

  /** `binary.BigEndian.Uint16`. */
  function GetU16(b: Bytes): (n: uint16)
    requires |b| == 2
  {
    var hi: int, lo: int := b[0], b[1];
    256 * hi + lo
  }

  /** `binary.BigEndian.PutUint16` and `serial.WriteUint16`. */
  function PutU16(n: uint16): (b: Bytes)
    ensures |b| == 2 && GetU16(b) == n
  {
    [n / 256, n % 256]
  }

  /** The more significant byte comes first. */
  lemma BigEndian(n: uint16)
    ensures PutU16(n) == [n / 256, n % 256] && PutU16(0x1234) == [0x12, 0x34] && GetU16([0x12, 0x34]) == 0x1234
  {
  }

  /** Bitwise operations on natural numbers, as the source's integer operators compute them. */
  function BitOr(x: nat, y: nat): nat
    decreases x + y
  {
    if x == 0 then y
    else if y == 0 then x
    else 2 * BitOr(x / 2, y / 2) + (if x % 2 == 1 || y % 2 == 1 then 1 else 0)
  }

  function BitAnd(x: nat, y: nat): (r: nat)
    ensures r <= y
    decreases x
  {
    if x == 0 || y == 0 then 0
    else 2 * BitAnd(x / 2, y / 2) + (if x % 2 == 1 && y % 2 == 1 then 1 else 0)
  }

  function Pow2(k: nat): (p: nat)
    ensures p >= 1
  {
    if k == 0 then 1 else 2 * Pow2(k - 1)
  }

  /** Or-ing a small number into a multiple of a power of two adds it. */
  lemma {:induction false} OrIsPlus(h: nat, k: nat, d: nat)
    requires d < Pow2(k)
    ensures BitOr(h * Pow2(k), d) == h * Pow2(k) + d
  {
    if k > 0 && h > 0 && d > 0 {
      var x := h * Pow2(k);
      assert x == 2 * (h * Pow2(k - 1));
      OrIsPlus(h, k - 1, d / 2);
    }
  }

  lemma OrLowByte(h: byte, d: byte)
    ensures BitOr(256 * h, d) == 256 * h + d
  {
    assert Pow2(8) == 256 by {
      assert Pow2(4) == 16;
    }
    OrIsPlus(h, 8, d);
  }
}
