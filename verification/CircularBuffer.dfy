/** A byte queue of bounded length in a ring of memory. One cell of the ring always stays
    unused, so that an empty queue and a full one can be told apart. */
module CircularBuffer {
  import opened Arithmetic
  import opened Sequences

  // ---- Rings as values ----

  /** The queued bytes: from begin up to end, around the end of the memory if need be. */
  function Ring(b: seq<byte>, begin: nat, end: nat): seq<byte>
    requires begin <= |b| && end <= |b|
  {
    if end >= begin then b[begin..end] else b[begin..] + b[..end]
  }

  function Wrap(i: nat, size: nat): nat {
    if i == size then 0 else i
  }

  /** i steps further on in the ring, at most once around. */
  function Advance(i: nat, k: nat, size: nat): nat {
    if i + k < size then i + k else i + k - size
  }

  lemma RingDrop(b: seq<byte>, begin: nat, end: nat, k: nat)
    requires begin < |b| && end < |b| && k <= |Ring(b, begin, end)|
    ensures Advance(begin, k, |b|) < |b|
    ensures Ring(b, Advance(begin, k, |b|), end) == Ring(b, begin, end)[k..]
  {
  }

  /** The first k bytes, as one piece or as two. */
  lemma RingTake(b: seq<byte>, begin: nat, end: nat, k: nat)
    requires begin < |b| && end < |b| && k <= |Ring(b, begin, end)|
    ensures begin + k <= |b| ==> b[begin..begin + k] == Ring(b, begin, end)[..k]
    ensures begin + k > |b| ==> end < begin && b[begin..] + b[..begin + k - |b|] == Ring(b, begin, end)[..k]
  {
  }

  lemma RingAt(b: seq<byte>, begin: nat, end: nat)
    requires begin < |b| && end < |b|
    ensures |Ring(b, begin, end)| < |b| && Advance(begin, |Ring(b, begin, end)|, |b|) == end
    ensures forall i :: 0 <= i < |Ring(b, begin, end)| ==> Ring(b, begin, end)[i] == b[Advance(begin, i, |b|)]
  {
  }

  /** memcpy of src to position at. */
  function Overwrite(b: seq<byte>, at: nat, src: seq<byte>): (w: seq<byte>)
    requires at + |src| <= |b|
    ensures |w| == |b|
    ensures forall i :: 0 <= i < |b| ==> w[i] == if at <= i < at + |src| then src[i - at] else b[i]
  {
    b[..at] + src + b[at + |src|..]
  }

  /** A sequence that agrees with the ring cell by cell is the queue. */
  lemma RingIs(b: seq<byte>, begin: nat, end: nat, q: seq<byte>)
    requires begin < |b| && |q| < |b| && end == Advance(begin, |q|, |b|)
    requires forall i :: 0 <= i < |q| ==> b[Advance(begin, i, |b|)] == q[i]
    ensures Ring(b, begin, end) == q
  {
  }

  /** If the queued cells are untouched and the next ones hold src, then src is appended. */
  lemma RingAppend(b: seq<byte>, w: seq<byte>, begin: nat, end: nat, src: seq<byte>)
    requires begin < |b| == |w| && end < |b| && |Ring(b, begin, end)| + |src| < |b|
    requires forall i :: 0 <= i < |Ring(b, begin, end)| ==> w[Advance(begin, i, |b|)] == b[Advance(begin, i, |b|)]
    requires forall i :: 0 <= i < |src| ==> w[Advance(end, i, |b|)] == src[i]
    ensures Advance(end, |src|, |b|) < |b|
    ensures Ring(w, begin, Advance(end, |src|, |b|)) == Ring(b, begin, end) + src
  {
    var q := Ring(b, begin, end);
    RingAt(b, begin, end);
    hide Ring;
    forall i | 0 <= i < |q + src| ensures w[Advance(begin, i, |b|)] == (q + src)[i] {
      if i >= |q| {
        assert Advance(begin, i, |b|) == Advance(end, i - |q|, |b|);
      }
    }
    RingIs(w, begin, Advance(end, |src|, |b|), q + src);
  }

  /** Bytes written behind the end in one piece are appended to the queue. */
  lemma AppendStraight(b: seq<byte>, begin: nat, end: nat, src: seq<byte>)
    requires begin < |b| && end < |b| && |Ring(b, begin, end)| + |src| < |b| && end + |src| <= |b|
    ensures Ring(Overwrite(b, end, src), begin, Wrap(end + |src|, |b|)) == Ring(b, begin, end) + src
  {
    RingAt(b, begin, end);
    hide Ring, Overwrite;
    RingAppend(b, Overwrite(b, end, src), begin, end, src);
  }

  /** So are bytes that go on at the start of the memory. */
  lemma AppendWrapped(b: seq<byte>, begin: nat, end: nat, src: seq<byte>)
    requires begin < |b| && end < |b| && |Ring(b, begin, end)| + |src| < |b| && end + |src| > |b|
    ensures begin <= end && |src| < |b|
    ensures var top, rest := src[..|b| - end], src[|b| - end..];
            Ring(Overwrite(Overwrite(b, end, top), 0, rest), begin, |rest|) == Ring(b, begin, end) + src
  {
    RingAt(b, begin, end);
    hide Ring, Overwrite;
    var top, rest := src[..|b| - end], src[|b| - end..];
    RingAppend(b, Overwrite(Overwrite(b, end, top), 0, rest), begin, end, src);
  }

  /** Two copies that meet. */
  lemma OverwriteTwice(d: seq<byte>, x: seq<byte>, y: seq<byte>)
    requires |x| + |y| <= |d|
    ensures Overwrite(Overwrite(d, 0, x), |x|, y) == Overwrite(d, 0, x + y)
  {
  }

  // ---- The buffer ----

  class Cbuf {
    var size: nat // of the memory, one more than the capacity
    var buf: array<byte>
    var begin: nat
    var end: nat

    ghost predicate Valid()
      reads this
    {
      buf.Length == size && begin < size && end < size
    }

    ghost function Contents(): seq<byte>
      requires Valid()
      reads this, buf
    {
      Ring(buf[..], begin, end)
    }

    constructor (capacity: nat)
      requires capacity + 1 < TWO32
      ensures Valid() && Contents() == [] && size == capacity + 1 && fresh(buf)
    {
      size, begin, end := capacity + 1, 0, 0;
      buf := new byte[capacity + 1];
    }

    predicate Empty()
      reads this
    {
      begin == end
    }

    predicate Full()
      reads this
    {
      Wrap(end + 1, size) == begin
    }

    function Available(): int
      reads this
    {
      if end >= begin then end - begin else size - (begin - end)
    }

    function Room(): int
      reads this
    {
      if end >= begin then size - (end - begin) - 1 else begin - end - 1
    }

    /** The pointers tell the length of the queue, and how far it is from the capacity. */
    lemma Measures()
      requires Valid()
      ensures Available() == |Contents()| && Available() + Room() == size - 1
      ensures Empty() <==> Contents() == []
      ensures Full() <==> |Contents()| == size - 1
    {
    }

    method PeekByte() returns (r: int)
      requires Valid()
      ensures r == if Contents() == [] then -1 else Contents()[0]
    {
      if Empty() {
        return -1;
      }
      return buf[begin];
    }

    /** memcpy out of the ring, to offset off of dst. */
    method CopyOut(dst: array<byte>, off: nat, from: nat, n: nat)
      requires Valid() && from + n <= size && off + n <= dst.Length && dst != buf
      modifies dst
      ensures dst[..] == Overwrite(old(dst[..]), off, buf[from..from + n])
    {
      forall i | 0 <= i < n {
        dst[off + i] := buf[from + i];
      }
    }

    /** The copying that Peek and Read have in common; last is where it ends. */
    method CopyFront(dst: array<byte>, k: nat) returns (last: nat)
      requires Valid() && dst != buf && k <= dst.Length && k <= |Contents()|
      modifies dst
      ensures dst[..] == Overwrite(old(dst[..]), 0, Contents()[..k])
      ensures last <= size && Wrap(last, size) == Advance(begin, k, size)
    {
      RingAt(buf[..], begin, end);
      hide Ring, Overwrite;
      if end < begin && k > size - begin {
        last := k - (size - begin);
        CopyTwoPieces(dst, k);
      } else {
        last := begin + k;
        RingTake(buf[..], begin, end, k);
        assert Contents()[..k] == buf[begin..last];
        CopyOut(dst, 0, begin, k);
      }
    }

    method CopyTwoPieces(dst: array<byte>, k: nat)
      requires Valid() && dst != buf && k <= dst.Length && k <= |Contents()| && begin + k > size
      modifies dst
      ensures dst[..] == Overwrite(old(dst[..]), 0, Contents()[..k])
    {
      var topSize := size - begin;
      ghost var x, y := buf[begin..size], buf[0..k - topSize];
      RingTake(buf[..], begin, end, k);
      assert Contents()[..k] == x + y;
      hide Ring, Overwrite;
      OverwriteTwice(dst[..], x, y);
      CopyOut(dst, 0, begin, topSize);
      CopyOut(dst, topSize, 0, k - topSize);
    }

    method Peek(dst: array<byte>, n: nat) returns (k: nat)
      requires Valid() && dst != buf
      requires dst.Length >= n || dst.Length >= |Contents()|
      modifies dst
      ensures k == if n < |Contents()| then n else |Contents()|
      ensures dst[..] == Overwrite(old(dst[..]), 0, Contents()[..k])
    {
      Measures();
      k := if n < Available() then n else Available();
      hide Ring;
      var last := CopyFront(dst, k);
    }

    method ReadByte() returns (r: int)
      requires Valid()
      modifies this`begin
      ensures Valid()
      ensures if old(Contents()) == [] then r == -1 && Contents() == []
              else r == old(Contents())[0] && Contents() == old(Contents())[1..]
    {
      if Empty() {
        return -1;
      }
      r := buf[begin];
      RingDrop(buf[..], begin, end, 1);
      begin := Wrap(begin + 1, size);
    }

    method Read(dst: array<byte>, n: nat) returns (k: nat)
      requires Valid() && dst != buf
      requires dst.Length >= n || dst.Length >= |Contents()|
      modifies this`begin, dst
      ensures Valid()
      ensures k == if n < |old(Contents())| then n else |old(Contents())|
      ensures dst[..] == Overwrite(old(dst[..]), 0, old(Contents())[..k])
      ensures Contents() == old(Contents())[k..]
    {
      Measures();
      k := if n < Available() then n else Available();
      RingDrop(buf[..], begin, end, k);
      hide Ring;
      var last := CopyFront(dst, k);
      begin := Wrap(last, size);
    }

    method WriteByte(c: byte) returns (k: nat)
      requires Valid()
      modifies this`end, buf
      ensures Valid()
      ensures k == if |old(Contents())| < size - 1 then 1 else 0
      ensures Contents() == if k == 1 then old(Contents()) + [c] else old(Contents())
    {
      Measures();
      if Full() {
        return 0;
      }
      AppendStraight(buf[..], begin, end, [c]);
      ghost var w := Overwrite(buf[..], end, [c]);
      buf[end] := c;
      assert buf[..] == w;
      end := Wrap(end + 1, size);
      return 1;
    }

    /** memcpy into the ring. */
    method CopyIn(to: nat, src: seq<byte>)
      requires Valid() && to + |src| <= size
      modifies buf
      ensures buf[..] == Overwrite(old(buf[..]), to, src)
    {
      forall i | 0 <= i < |src| {
        buf[to + i] := src[i];
      }
    }

    method Write(src: seq<byte>) returns (k: nat)
      requires Valid()
      modifies this`end, buf
      ensures Valid()
      ensures var room := size - 1 - |old(Contents())|; k == if |src| < room then |src| else room
      ensures Contents() == old(Contents()) + src[..k]
    {
      Measures();
      k := if |src| < Room() then |src| else Room();
      hide Ring;
      if end >= begin && k > size - end {
        WriteTwoPieces(src[..k]);
      } else {
        WriteOnePiece(src[..k]);
      }
    }

    method WriteOnePiece(src: seq<byte>)
      requires Valid() && |Contents()| + |src| < size && end + |src| <= size
      modifies this`end, buf
      ensures Valid() && Contents() == old(Contents()) + src
    {
      AppendStraight(buf[..], begin, end, src);
      hide Ring, Overwrite;
      CopyIn(end, src);
      end := Wrap(end + |src|, size);
    }

    method WriteTwoPieces(src: seq<byte>)
      requires Valid() && |Contents()| + |src| < size && end + |src| > size
      modifies this`end, buf
      ensures Valid() && Contents() == old(Contents()) + src
    {
      AppendWrapped(buf[..], begin, end, src);
      hide Ring, Overwrite;
      var topSize := size - end;
      CopyIn(end, src[..topSize]);
      CopyIn(0, src[topSize..]);
      end := |src| - topSize;
    }

    method Flush()
      requires Valid()
      modifies this`begin, this`end
      ensures Valid() && Contents() == []
    {
      begin, end := 0, 0;
    }

    method Remove(n: nat) returns (k: nat)
      requires Valid()
      modifies this`begin, this`end
      ensures Valid() && k == |Contents()|
      ensures Contents() == if n >= |old(Contents())| then [] else old(Contents())[n..]
    {
      Measures();
      if n >= Available() {
        Flush();
        return 0;
      }
      RingDrop(buf[..], begin, end, n);
      var sizeToRemove := n;
      if end < begin && sizeToRemove > size - begin {
        sizeToRemove := sizeToRemove - (size - begin);
        begin := 0;
      }
      begin := Wrap(begin + sizeToRemove, size);
      Measures();
      k := Available();
    }

    /** Changes the capacity. Nothing happens when the new memory would be smaller than the
        queued bytes, or of the same size as the old. Otherwise the queue is kept, but when
        the new memory is exactly as large as the queue there is no unused cell left: end
        then points behind the memory, and the buffer must not be used any more. */
    method Resize(newSize: nat) returns (r: nat)
      requires Valid() && newSize < TWO32
      modifies this
      ensures r == size
      ensures var n := (newSize + 1) % TWO32;
              if n < |old(Contents())| || n == old(size) then
                size == old(size) && buf == old(buf) && Valid() && Contents() == old(Contents())
              else
                size == n && fresh(buf) && buf.Length == n && begin == 0 && end == |old(Contents())|
                && Ring(buf[..], begin, end) == old(Contents())
      ensures Valid() <==> (newSize + 1) % TWO32 != |old(Contents())|
      ensures Valid() ==> Contents() == old(Contents())
    {
      Measures();
      var bytesAvailable := Available();
      var n := (newSize + 1) % TWO32;
      if n < bytesAvailable || n == size {
        return size;
      }
      var newbuf := new byte[n];
      var k := Read(newbuf, bytesAvailable);
      forall i | bytesAvailable <= i < n {
        newbuf[i] := 0;
      }
      begin := 0;
      end := bytesAvailable;
      size := n;
      buf := newbuf;
      return size;
    }

    /** Adds to the size of the memory, which makes the capacity grow by one more. */
    method ResizeAdd(addSize: nat) returns (r: nat)
      requires Valid() && size + addSize + 1 < TWO32
      modifies this
      ensures Valid() && Contents() == old(Contents()) && r == size == old(size) + addSize + 1
    {
      Measures();
      r := Resize(size + addSize);
    }
  }

  /** A full buffer of capacity 2, asked to shrink to capacity 1. */
  method ResizeTooTight() returns (c: Cbuf)
    ensures fresh(c) && !c.Valid() && c.end == c.size == 2 && c.buf.Length == 2
  {
    c := new Cbuf(2);
    var k := c.Write([1, 2]);
    var n := c.Resize(1);
  }
}
