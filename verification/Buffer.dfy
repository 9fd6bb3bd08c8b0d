/** `buf.Buffer`: a byte array with a window `start..end` that reads consume and writes extend. */
module Buffers {
  import opened Octets

  class Buffer {
    var v: array<byte>
    var start: int
    var end: int

    ghost predicate Valid()
      reads this
    {
      0 <= start <= end <= v.Length
    }

    ghost function Contents(): Bytes
      requires Valid()
      reads this, v
    {
      v[start..end]
    }

    /** An empty buffer of the regular size. */
    constructor ()
      ensures Valid() && fresh(v) && v.Length == SIZE && start == end == 0
      ensures Contents() == []
    {
      v := new byte[SIZE](_ => 0);
      start, end := 0, 0;
    }

    /** A buffer holding exactly the given bytes (`FromBytes`). */
    constructor FromBytes(data: Bytes)
      ensures Valid() && fresh(v) && start == 0 && end == v.Length == |data|
      ensures Contents() == data
    {
      v := new byte[|data|](i requires 0 <= i < |data| => data[i]);
      start, end := 0, |data|;
    }

    function Len(): int
      reads this
    {
      end - start
    }

    /** Gives the storage back; the buffer is empty afterwards. */
    method Release()
      modifies this
      ensures Valid() && fresh(v) && Contents() == []
    {
      v := new byte[0];
      start, end := 0, 0;
    }

    /** Appends as much of `data` as still fits; the rest is silently dropped. */
    method Write(data: Bytes) returns (n: nat)
      requires Valid()
      modifies `end, v
      ensures Valid() && n == Min(|data|, v.Length - old(end)) && end == old(end) + n
      ensures Contents() == old(Contents()) + data[..n]
    {
      n := Min(|data|, v.Length - end);
      forall i | 0 <= i < n {
        v[end + i] := data[i];
      }
      end := end + n;
      assert v[start..old(end)] == old(v[start..end]);
      assert v[old(end)..end] == data[..n];
    }

    /** `Write` when the room is known to suffice. */
    method WriteAll(data: Bytes)
      requires Valid() && |data| <= v.Length - end
      modifies `end, v
      ensures Valid() && end == old(end) + |data|
      ensures Contents() == old(Contents()) + data
    {
      var n := Write(data);
      assert data[..n] == data;
    }

    /** Grows the window by `n` zero bytes; the source panics when they do not fit. */
    method Extend(n: nat)
      requires Valid() && end + n <= v.Length
      modifies `end, v
      ensures Valid() && end == old(end) + n
      ensures Contents() == old(Contents()) + Zeros(n)
    {
      forall i | 0 <= i < n {
        v[end + i] := 0;
      }
      end := end + n;
      assert v[start..old(end)] == old(v[start..end]);
      assert v[old(end)..end] == Zeros(n);
    }

    /** Overwrites bytes of the contents in place. */
    method PutAt(at: nat, data: Bytes)
      requires Valid() && at + |data| <= Len()
      modifies v
      ensures Valid() && Contents() == old(Contents())[..at] + data + old(Contents())[at + |data|..]
    {
      forall i | 0 <= i < |data| {
        v[start + at + i] := data[i];
      }
    }

    /** Drops bytes from the front; a negative count is taken from the end, and the window is clamped. */
    method Advance(from: int)
      requires Valid()
      modifies `start
      ensures Valid()
      ensures 0 <= from ==> Contents() == old(Contents())[Min(from, old(Len()))..]
      ensures -old(Len()) <= from < 0 ==> Contents() == old(Contents())[old(Len()) + from..]
    {
      start := start + (if from < 0 then from + Len() else from);
      if start < 0 {
        start := 0;
      }
      if start > end {
        start := end;
      }
    }

    method ReadByte() returns (b: byte)
      requires Valid() && Len() > 0
      modifies `start
      ensures Valid() && start == old(start) + 1
      ensures b == old(Contents())[0] && Contents() == old(Contents())[1..]
    {
      b := v[start];
      start := start + 1;
    }

    method ReadBytes(n: nat) returns (data: Bytes)
      requires Valid() && n <= Len()
      modifies `start
      ensures Valid() && start == old(start) + n
      ensures data == old(Contents())[..n] && Contents() == old(Contents())[n..]
    {
      data := v[start..start + n];
      assert v[start..end][..n] == data && v[start..end][n..] == v[start + n..end];
      start := start + n;
    }
  }

  function Zeros(n: nat): Bytes {
    seq(n, _ => 0)
  }
}
