/** The pipe: a ring of 32 bytes, and readers and writers that take turns on it
    (os/src/fs/pipe.rs). */
module Pipes {
  import opened Words

  datatype RingBufferStatus = Full | Empty | Normal

  /** Position i from head on, going round. */
  function Slot(head: nat, i: nat): (k: nat)
    ensures k < 32
  {
    (head + i) % 32
  }

  /** n bytes of the ring from position head on. */
  function Ring(a: seq<byte>, head: nat, n: nat): (s: seq<byte>)
    requires |a| == 32
    ensures |s| == n
  {
    seq<byte>(n, i requires 0 <= i => a[Slot(head, i)])
  }

  lemma SlotIs(head: nat, i: nat)
    requires head < 32 && i <= 32
    ensures Slot(head, i) == if head + i < 32 then head + i else head + i - 32
  {
  }

  lemma RingPop(a: seq<byte>, head: nat, n: nat)
    requires |a| == 32 && head < 32 && 0 < n <= 32
    ensures Ring(a, head, n) == [a[head]] + Ring(a, Slot(head, 1), n - 1)
  {
    SlotIs(head, 0);
    SlotIs(head, 1);
    forall i: nat | 0 < i < n
      ensures Slot(head, i) == Slot(Slot(head, 1), i - 1)
    {
      SlotIs(head, i);
      SlotIs(Slot(head, 1), i - 1);
    }
    hide Slot;
  }

  lemma RingPush(a: seq<byte>, head: nat, n: nat, b: byte)
    requires |a| == 32 && head < 32 && n < 32
    ensures Ring(a[Slot(head, n) := b], head, n + 1) == Ring(a, head, n) + [b]
  {
    SlotIs(head, n);
    forall i: nat | 0 <= i < n
      ensures Slot(head, i) != Slot(head, n)
    {
      SlotIs(head, i);
    }
    hide Slot;
  }

  class PipeRingBuffer {
    const arr: array<byte>
    var head: nat
    var tail: nat
    var status: RingBufferStatus
    var writeEnds: nat // strong references to the write end

    ghost predicate Valid()
      reads this`head, this`tail, this`status
    {
      arr.Length == 32 && head < 32 && tail < 32 && (status == Normal <==> head != tail)
    }

    ghost function Length(): (n: nat)
      requires Valid()
      reads this`head, this`tail, this`status
      ensures n <= 32
    {
      if status == Empty then 0 else if tail > head then tail - head else tail + 32 - head
    }

    /** The bytes in the ring, oldest first. */
    ghost function Contents(): (s: seq<byte>)
      requires Valid()
      reads this`head, this`tail, this`status, arr
      ensures |s| == Length()
    {
      Ring(arr[..], head, Length())
    }

    constructor (writeEnds: nat)
      ensures Valid() && Contents() == [] && this.writeEnds == writeEnds && fresh(arr)
    {
      arr := new byte[32](_ => 0);
      head, tail, status, this.writeEnds := 0, 0, Empty, writeEnds;
    }

    /** The callers only read when something is there. */
    method ReadByte() returns (c: byte)
      requires Valid() && Contents() != []
      modifies this`head, this`status
      ensures Valid() && [c] + Contents() == old(Contents())
    {
      hide Ring;
      RingPop(arr[..], head, Length());
      status := Normal;
      c := arr[head];
      head := (head + 1) % 32;
      if head == tail {
        status := Empty;
      }
    }

    /** The callers only write when there is room. */
    method WriteByte(byte_: byte)
      requires Valid() && |Contents()| < 32
      modifies this`tail, this`status, arr
      ensures Valid() && Contents() == old(Contents()) + [byte_]
    {
      hide Ring;
      ghost var was := arr[..];
      RingPush(was, head, Length(), byte_);
      status := Normal;
      arr[tail] := byte_;
      assert arr[..] == was[tail := byte_];
      tail := (tail + 1) % 32;
      if tail == head {
        status := Full;
      }
    }

    method AvailableRead() returns (n: nat)
      requires Valid()
      ensures n == |Contents()|
    {
      if status == Empty {
        n := 0;
      } else if tail > head {
        n := tail - head;
      } else {
        n := tail + 32 - head;
      }
    }

    method AvailableWrite() returns (n: nat)
      requires Valid()
      ensures n == 32 - |Contents()|
    {
      if status == Full {
        n := 0;
      } else {
        var used := AvailableRead();
        n := 32 - used;
      }
    }
  }

  function Min(a: nat, b: nat): nat { if a < b then a else b }

  /** A read in progress: what its user buffer got so far and the room left in it. */
  class ReadCall {
    var got: seq<byte>
    var left: nat
    var done: bool

    constructor (length: nat)
      ensures got == [] && left == length && !done
    {
      got, left, done := [], length, false;
    }

    /** From being scheduled to the next suspension or the return. Whatever the ring holds
        is taken, as far as there is room; the call returns if the ring held more than
        there was room for or if all write ends are closed, and else waits, even when its
        buffer has just become full. */
    method Turn(ring: PipeRingBuffer)
      requires ring.Valid() && !done
      modifies this, ring`head, ring`status
      ensures ring.Valid()
      ensures var n := Min(old(left), |old(ring.Contents())|);
        got == old(got) + old(ring.Contents())[..n] && left == old(left) - n && ring.Contents() == old(ring.Contents())[n..]
      ensures done <==> |old(ring.Contents())| > old(left) || ring.writeEnds == 0
    {
      hide Ring, PipeRingBuffer.Contents, PipeRingBuffer.Length, PipeRingBuffer.Valid;
      ghost var c := ring.Contents();
      ghost var n := 0;
      while true
        invariant ring.Valid() && n <= |c| && n <= old(left) && !done
        invariant got == old(got) + c[..n] && left == old(left) - n && ring.Contents() == c[n..]
        invariant n == 0 || n == |c|
        decreases |c| - n
      {
        var loopRead := ring.AvailableRead();
        if loopRead == 0 {
          if ring.writeEnds == 0 {
            done := true;
          }
          return;
        }
        var j := 0;
        while j < loopRead
          invariant j <= loopRead && ring.Valid() && n == j && n <= |c| && n <= old(left) && !done
          invariant got == old(got) + c[..n] && left == old(left) - n && ring.Contents() == c[n..]
          invariant loopRead == |c|
        {
          if left == 0 {
            done := true;
            return;
          }
          var b := ring.ReadByte();
          assert c[..n + 1] == c[..n] + [b];
          got := got + [b];
          left := left - 1;
          n := n + 1;
          j := j + 1;
        }
      }
    }
  }

  /** A write in progress: its data and how much of it has gone into the ring. */
  class WriteCall {
    const data: seq<byte>
    var pos: nat
    var done: bool

    constructor (data: seq<byte>)
      ensures this.data == data && pos == 0 && !done
    {
      this.data, pos, done := data, 0, false;
    }

    /** Likewise for a writer: it returns when there was more room than data. */
    method Turn(ring: PipeRingBuffer)
      requires ring.Valid() && !done && pos <= |data|
      modifies this, ring`tail, ring`status, ring.arr
      ensures ring.Valid() && pos <= |data|
      ensures var n := Min(|data| - old(pos), 32 - |old(ring.Contents())|);
        pos == old(pos) + n && ring.Contents() == old(ring.Contents()) + data[old(pos)..pos]
      ensures done <==> 32 - |old(ring.Contents())| > |data| - old(pos)
    {
      hide Ring, PipeRingBuffer.Contents, PipeRingBuffer.Length, PipeRingBuffer.Valid;
      ghost var c := ring.Contents();
      ghost var n := 0;
      while true
        invariant ring.Valid() && n <= 32 - |c| && pos == old(pos) + n <= |data| && !done
        invariant ring.Contents() == c + data[old(pos)..pos]
        invariant n == 0 || n == 32 - |c|
        decreases 32 - |c| - n
      {
        var loopWrite := ring.AvailableWrite();
        if loopWrite == 0 {
          return;
        }
        var j := 0;
        while j < loopWrite
          invariant j <= loopWrite == 32 - |c| && ring.Valid() && n == j && pos == old(pos) + n <= |data| && !done
          invariant ring.Contents() == c + data[old(pos)..pos]
        {
          if pos == |data| {
            done := true;
            return;
          }
          assert data[old(pos)..pos + 1] == data[old(pos)..pos] + [data[pos]];
          ring.WriteByte(data[pos]);
          pos := pos + 1;
          n := n + 1;
          j := j + 1;
        }
      }
    }
  }
}
