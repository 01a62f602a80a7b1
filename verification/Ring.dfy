/**
 The wrapping byte buffer between socket and parser.  Pointers into `data` are indices here.
 One cell always stays unused, so that equal pointers mean an empty buffer.
 */
module RingBuffer {
  import opened Bytes

  // ----- The byte queue that the buffer implements

  datatype Op = Put(bytes: seq<byte>) | Take(n: nat)

  /** A queue, what has been put into it and what has been taken from it. */
  datatype Trace = Trace(queue: seq<byte>, put: seq<byte>, taken: seq<byte>)

  /** An operation that does not fit has no effect. */
  function Apply(capacity: nat, t: Trace, op: Op): Trace {
    match op
    case Put(b) =>
      if |t.queue| + |b| <= capacity then Trace(t.queue + b, t.put + b, t.taken) else t
    case Take(n) =>
      if n <= |t.queue| then Trace(t.queue[n..], t.put, t.taken + t.queue[..n]) else t
  }

  function ApplyAll(capacity: nat, t: Trace, ops: seq<Op>): Trace
    decreases |ops|
  {
    if ops == [] then t else ApplyAll(capacity, Apply(capacity, t, ops[0]), ops[1..])
  }

  /** Whatever the interleaving, the bytes taken and the bytes waiting are the bytes put. */
  lemma {:induction false} FirstInFirstOut(capacity: nat, t: Trace, ops: seq<Op>)
    requires t.taken + t.queue == t.put && |t.queue| <= capacity
    ensures var u := ApplyAll(capacity, t, ops); u.taken + u.queue == u.put && |u.queue| <= capacity
    decreases |ops|
  {
    if ops != [] {
      var u := Apply(capacity, t, ops[0]);
      assert u.taken + u.queue == u.put by {
        if ops[0].Take? && ops[0].n <= |t.queue| {
          assert t.queue[..ops[0].n] + t.queue[ops[0].n..] == t.queue;
        }
      }
      FirstInFirstOut(capacity, u, ops[1..]);
    }
  }

  // ----- The buffer

  /** `memcpy` to position `at` of an array. */
  method Memcpy(a: array<byte>, at: nat, src: seq<byte>)
    requires at + |src| <= a.Length
    modifies a
    ensures a[at..at + |src|] == src
    ensures a[..at] == old(a[..at]) && a[at + |src|..] == old(a[at + |src|..])
  {
    forall i | 0 <= i < |src| { a[at + i] := src[i]; }
    assert forall i :: at <= i < at + |src| ==> a[i] == src[i - at];
  }

  /** Two copies, one behind the other. */
  method MemcpyTwice(a: array<byte>, s: seq<byte>, t: seq<byte>)
    requires |s| + |t| <= a.Length
    modifies a
    ensures a[..] == s + t + old(a[|s| + |t|..])
  {
    ghost var rest := a[|s|..];
    assert a[|s| + |t|..] == rest[|t|..];
    Memcpy(a, 0, s);
    assert a[|s| + |t|..] == rest[|t|..];
    Memcpy(a, |s|, t);
    assert a[..] == a[..|s|] + a[|s|..|s| + |t|] + a[|s| + |t|..];
  }

  class Ring {
    const size: nat
    const data: array<byte>
    var rd: nat
    var wr: nat

    ghost predicate Valid()
      reads this
    {
      data.Length == size && rd < size && wr < size
    }

    /** The unread bytes, oldest first. */
    ghost function Contents(): (s: seq<byte>)
      requires Valid()
      reads this, data
      ensures |s| == if rd <= wr then wr - rd else size - rd + wr
    {
      if rd <= wr then data[rd..wr] else data[rd..] + data[..wr]
    }

    constructor (size: nat)
      requires size > 0
      ensures Valid() && fresh(data) && this.size == size
      ensures Contents() == []
    {
      this.size := size;
      data := new byte[size];
      rd, wr := 0, 0;
    }

    /** Where the cell number `p` is after wrapping at most once. */
    ghost function Wrap(p: nat): nat {
      if p < size then p else p - size
    }

    predicate AnyAvailable()
      requires Valid()
      reads this, data
      ensures AnyAvailable() <==> Contents() != []
    {
      rd != wr
    }

    function PeekOne(): (c: byte)
      requires Valid()
      reads this, data
      ensures Contents() != [] ==> c == Contents()[0]
    {
      data[rd]
    }

    /** The cell before the read pointer, wrapping at the start of the buffer. */
    function PeekPrev(): (c: byte)
      requires Valid()
      reads this, data
    {
      if rd == 0 then data[size - 1] else data[rd - 1]
    }

    /** The cell after `p`; `p` may be the place before the first cell. */
    function Next(p: int): (q: nat)
      requires Valid() && -1 <= p < size
      reads this
      ensures q == Wrap(p + 1)
    {
      if p < size - 1 then p + 1 else 0
    }

    method ReadOne() returns (c: byte)
      requires Valid() && Contents() != []
      modifies this`rd
      ensures Valid() && Contents() == old(Contents())[1..]
      ensures c == old(Contents())[0] && PeekPrev() == c
    {
      c := data[rd];
      rd := Next(rd);
    }

    method IncRead()
      requires Valid() && Contents() != []
      modifies this`rd
      ensures Valid() && Contents() == old(Contents())[1..]
      ensures PeekPrev() == old(Contents())[0]
    {
      rd := Next(rd);
    }

    /** Free bytes from the write pointer on, without wrapping. */
    function FreeSpaceContig(): (n: nat)
      requires Valid()
      reads this, data
      ensures n <= FreeSpace() && wr + n <= size
      ensures n == 0 <==> |Contents()| == size - 1
    {
      if rd > wr then rd - wr - 1 else size - wr - (if rd == 0 then 1 else 0)
    }

    function Available(): (n: nat)
      requires Valid()
      reads this, data
      ensures n == |Contents()|
    {
      if wr >= rd then wr - rd else size - (rd - wr)
    }

    function AvailableContig(): (n: nat)
      requires Valid()
      reads this, data
      ensures n <= |Contents()| && rd + n <= size && Contents()[..n] == data[rd..rd + n]
      ensures n < |Contents()| ==> rd + n == size && Contents()[n..] == data[..|Contents()| - n]
    {
      if wr >= rd then wr - rd else size - rd
    }

    /** The pointers are never ambiguous: used and free bytes always add up to `size - 1`. */
    function FreeSpace(): (n: nat)
      requires Valid()
      reads this, data
      ensures n + |Contents()| == size - 1
    {
      if rd > wr then rd - wr - 1 else size - (wr - rd) - 1
    }

    method AdvanceRead(n: nat)
      requires Valid() && n <= size
      modifies this`rd
      ensures Valid() && rd == Wrap(old(rd) + n)
      ensures n <= |old(Contents())| ==> Contents() == old(Contents())[n..]
    {
      if n != 0 {
        if rd + n < size {
          rd := Next(rd + n - 1);
        } else {
          rd := rd + n - size;
        }
      }
    }

    /** Publishes `n` bytes that were stored at the write pointer. */
    method AdvanceWrite(n: nat)
      requires Valid() && n <= size
      modifies this`wr
      ensures Valid() && wr == Wrap(old(wr) + n)
      ensures n <= old(FreeSpaceContig()) ==> Contents() == old(Contents()) + data[old(wr)..old(wr) + n]
    {
      if n != 0 {
        if wr + n < size {
          wr := Next(wr + n - 1);
        } else {
          wr := wr + n - size;
        }
      }
    }

    /** Negative: too few bytes; zero: match, and the bytes are consumed; positive: no match. */
    method Memcmp(ref: seq<byte>) returns (r: int)
      requires Valid()
      modifies this`rd
      ensures Valid()
      ensures r < 0 <==> |old(Contents())| < |ref|
      ensures r == 0 <==> |ref| <= |old(Contents())| && old(Contents())[..|ref|] == ref
      ensures r == 0 ==> Contents() == old(Contents())[|ref|..]
      ensures r != 0 ==> rd == old(rd)
    {
      if Available() < |ref| {
        return -1;
      }
      ghost var q := Contents();
      var contig := AvailableContig();
      if contig >= |ref| {
        assert q[..|ref|] == q[..contig][..|ref|] == data[rd..rd + |ref|];
        if data[rd..rd + |ref|] != ref {
          return 1;
        }
        AdvanceRead(|ref|);
        return 0;
      }
      var rest := |ref| - contig;
      assert q[contig..][..rest] == data[..rest];
      assert q[..|ref|] == q[..contig] + q[contig..][..rest];
      assert ref == ref[..contig] + ref[contig..];
      if data[rd..rd + contig] != ref[..contig] || data[..rest] != ref[contig..] {
        assert q[..contig] != ref[..contig] || q[contig..][..rest] != ref[contig..];
        assert q[..|ref|][..contig] == q[..contig] && q[..|ref|][contig..] == q[contig..][..rest];
        return 1;
      }
      AdvanceRead(|ref|);
      return 0;
    }

    method Peek(dst: array<byte>, len: nat) returns (ok: bool)
      requires Valid() && len <= dst.Length && dst != data
      modifies dst
      ensures ok <==> len <= |Contents()|
      ensures dst[..] == if ok then Contents()[..len] + old(dst[len..]) else old(dst[..])
    {
      if Available() < len {
        return false;
      }
      Copy(dst, len);
      return true;
    }

    /** The one or two block copies that bring the first `len` unread bytes to `dst`. */
    method Copy(dst: array<byte>, len: nat)
      requires Valid() && len <= dst.Length && dst != data && len <= |Contents()|
      modifies dst
      ensures dst[..] == Contents()[..len] + old(dst[len..])
    {
      ghost var q := Contents();
      var contig := AvailableContig();
      if contig >= len {
        assert data[rd..rd + len] == q[..contig][..len];
        Memcpy(dst, 0, data[rd..rd + len]);
        assert dst[..] == dst[..len] + dst[len..];
      } else {
        assert q[..len] == data[rd..rd + contig] + data[..len - contig] by {
          assert data[..len - contig] == q[contig..][..len - contig];
        }
        MemcpyTwice(dst, data[rd..rd + contig], data[..len - contig]);
      }
    }

    method Read(dst: array<byte>, len: nat) returns (ok: bool)
      requires Valid() && len <= dst.Length && dst != data
      modifies this`rd, dst
      ensures Valid() && (ok <==> len <= |old(Contents())|)
      ensures ok ==> Contents() == old(Contents())[len..] && dst[..] == old(Contents())[..len] + old(dst[len..])
      ensures Contents() == Apply(size - 1, Trace(old(Contents()), [], []), Take(len)).queue
      ensures !ok ==> rd == old(rd) && dst[..] == old(dst[..])
    {
      if Available() < len {
        return false;
      }
      hide Contents;
      var contig := AvailableContig();
      Copy(dst, len);
      if contig >= len {
        BumpRead(len);
      } else {
        WrapRead(len, contig);
      }
      return true;
    }

    method BumpRead(n: nat)
      requires Valid() && n <= AvailableContig()
      modifies this`rd
      ensures Valid() && Contents() == old(Contents())[n..]
    {
      rd := Next(rd + n - 1);
    }

    method WrapRead(n: nat, contig: nat)
      requires Valid() && contig == AvailableContig() < n <= |Contents()|
      modifies this`rd
      ensures Valid() && Contents() == old(Contents())[n..]
    {
      rd := n - contig;
    }

    method Write(src: seq<byte>) returns (ok: bool)
      requires Valid()
      modifies this`wr, data
      ensures Valid() && (ok <==> |src| <= old(FreeSpace()))
      ensures Contents() == if ok then old(Contents()) + src else old(Contents())
      ensures Contents() == Apply(size - 1, Trace(old(Contents()), [], []), Put(src)).queue
    {
      if FreeSpace() < |src| {
        return false;
      }
      if FreeSpaceContig() >= |src| {
        WriteContig(src);
      } else {
        WriteWrapping(src);
      }
      return true;
    }

    /** Fills free cells behind the write pointer; the unread bytes are not touched. */
    method StoreContig(src: seq<byte>)
      requires Valid() && |src| <= FreeSpaceContig()
      modifies data
      ensures Contents() == old(Contents()) && data[wr..wr + |src|] == src
    {
      ghost var q, low, high, n := Contents(), data[..wr], data[wr + |src|..], |src|;
      Memcpy(data, wr, src);
      if rd <= wr {
        assert q == low[rd..];
        assert data[rd..wr] == data[..wr][rd..];
      } else {
        assert q == high[rd - wr - n..] + low;
        assert data[rd..] == high[rd - wr - n..];
      }
    }

    method WriteContig(src: seq<byte>)
      requires Valid() && |src| <= FreeSpaceContig()
      modifies this`wr, data
      ensures Valid() && Contents() == old(Contents()) + src
    {
      hide Contents;
      StoreContig(src);
      BumpWrite(|src|);
    }

    method BumpWrite(n: nat)
      requires Valid() && n <= FreeSpaceContig()
      modifies this`wr
      ensures Valid() && Contents() == old(Contents()) + data[old(wr)..old(wr) + n]
    {
      wr := Next(wr + n - 1);
    }

    /** What a `read` from the socket to the write pointer does with the bytes it returns. */
    method Receive(src: seq<byte>)
      requires Valid() && |src| <= FreeSpaceContig()
      modifies this`wr, data
      ensures Valid() && Contents() == old(Contents()) + src
    {
      hide Contents;
      StoreContig(src);
      AdvanceWrite(|src|);
    }

    method WriteWrapping(src: seq<byte>)
      requires Valid() && FreeSpaceContig() < |src| <= FreeSpace()
      modifies this`wr, data
      ensures Valid() && Contents() == old(Contents()) + src
    {
      hide Contents;
      var contig := FreeSpaceContig();
      FillToEnd(src[..contig]);
      PutAtStart(src[contig..]);
      assert src == src[..contig] + src[contig..];
    }

    /** The second of two copies: from the start of the buffer. */
    method PutAtStart(src: seq<byte>)
      requires Valid() && |src| < rd
      modifies this`wr, data
      ensures Valid() && Contents() == old(data[rd..]) + src
    {
      ghost var tail, high := data[rd..], data[|src|..];
      assert tail == high[rd - |src|..];
      Memcpy(data, 0, src);
      assert data[rd..] == high[rd - |src|..];
      wr := |src|;
    }

    /** The first of two copies: from the write pointer to the end of the buffer. */
    method FillToEnd(src: seq<byte>)
      requires Valid() && rd <= wr && wr + |src| == size
      modifies data
      ensures data[rd..] == old(Contents()) + src
    {
      ghost var low := data[..wr];
      assert Contents() == low[rd..];
      Memcpy(data, wr, src);
      assert data[rd..wr] == low[rd..];
      assert data[rd..] == data[rd..wr] + data[wr..];
    }
  }

  /** Any interleaving of writes and reads on a ring is that interleaving on the byte queue. */
  method Operate(ring: Ring, ops: seq<Op>) returns (ghost put: seq<byte>, taken: seq<byte>)
    requires ring.Valid() && ring.Contents() == []
    modifies ring`rd, ring`wr, ring.data
    ensures ring.Valid()
    ensures Trace(ring.Contents(), put, taken) == ApplyAll(ring.size - 1, Trace([], [], []), ops)
    ensures taken + ring.Contents() == put
  {
    hide Ring.Contents;
    put, taken := [], [];
    assert ops[0..] == ops;
    for i := 0 to |ops|
      invariant ring.Valid()
      invariant ApplyAll(ring.size - 1, Trace(ring.Contents(), put, taken), ops[i..])
             == ApplyAll(ring.size - 1, Trace([], [], []), ops)
    {
      ghost var t := Trace(ring.Contents(), put, taken);
      assert ops[i..][1..] == ops[i + 1..];
      match ops[i] {
        case Put(b) =>
          var ok := ring.Write(b);
          put := if ok then put + b else put;
        case Take(n) =>
          var dst := new byte[n];
          var ok := ring.Read(dst, n);
          if ok {
            assert dst[..] == t.queue[..n] + [];
            taken := taken + dst[..];
          }
      }
      assert Trace(ring.Contents(), put, taken) == Apply(ring.size - 1, t, ops[i]);
    }
    FirstInFirstOut(ring.size - 1, Trace([], [], []), ops);
  }
}
