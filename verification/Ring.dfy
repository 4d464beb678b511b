/** The byte ring between the application and the stack, used by one side at a time. */
module Ring {
  import opened Arith
  import opened Bytes

  /** The bytes between two positions, going round the end. */
  function Held(ring: seq<byte>, readPos: nat, writePos: nat): (s: seq<byte>)
    requires readPos < |ring| && writePos < |ring|
    ensures |s| < |ring|
  {
    if writePos >= readPos then ring[readPos..writePos] else ring[readPos..] + ring[..writePos]
  }

  /** The ring with `data` written from `at` on, going round the end. */
  function Written(ring: seq<byte>, at: nat, data: seq<byte>): (r: seq<byte>)
    requires at < |ring| && |data| <= |ring|
    ensures |r| == |ring|
  {
    if at + |data| <= |ring| then PutSlice(ring, at, data)
    else PutSlice(PutSlice(ring, at, data[..|ring| - at]), 0, data[|ring| - at..])
  }

  function Advance(pos: nat, n: nat, capacity: nat): nat
    requires capacity > 0
  {
    (pos + n) % capacity
  }

  lemma WrapOnce(pos: nat, n: nat, capacity: nat)
    requires pos < capacity && n <= capacity
    ensures Advance(pos, n, capacity) == if pos + n < capacity then pos + n else pos + n - capacity
  {
    if pos + n < capacity {
      DivUnique(pos + n, capacity, 0, pos + n);
    } else {
      DivUnique(pos + n, capacity, 1, pos + n - capacity);
    }
  }

  lemma HeldLength(ring: seq<byte>, readPos: nat, writePos: nat)
    requires readPos < |ring| && writePos < |ring|
    ensures |Held(ring, readPos, writePos)|
         == if writePos >= readPos then writePos - readPos else |ring| - readPos + writePos
  {}

  /** The first n bytes held lie in one part of the ring, or in two. */
  lemma TwoParts(ring: seq<byte>, readPos: nat, writePos: nat, n: nat)
    requires readPos < |ring| && writePos < |ring| && n <= |Held(ring, readPos, writePos)|
    ensures readPos + n <= |ring| ==> Held(ring, readPos, writePos)[..n] == ring[readPos..readPos + n]
    ensures readPos + n > |ring| ==>
              var first := |ring| - readPos;
              n - first <= |ring| && Held(ring, readPos, writePos)[..n] == ring[readPos..] + ring[..n - first]
  {}

  /** The position k bytes on, going round the end. */
  function Around(pos: nat, k: nat, capacity: nat): nat {
    if pos + k < capacity then pos + k else pos + k - capacity
  }

  lemma HeldAt(ring: seq<byte>, readPos: nat, writePos: nat, k: nat)
    requires readPos < |ring| && writePos < |ring| && k < |Held(ring, readPos, writePos)|
    ensures Around(readPos, k, |ring|) < |ring|
    ensures Held(ring, readPos, writePos)[k] == ring[Around(readPos, k, |ring|)]
  {}

  lemma WrittenAt(ring: seq<byte>, at: nat, data: seq<byte>, k: nat)
    requires at < |ring| && |data| <= |ring| && k < |ring|
    ensures var p := Around(at, k, |ring|);
            p < |ring| && Written(ring, at, data)[p] == if k < |data| then data[k] else ring[p]
  {
    hide PutSlice;
    var c := |ring|;
    var p := Around(at, k, c);
    if at + |data| <= c {
      SliceAt(ring, at, data, p);
    } else {
      SliceAt(ring, at, data[..c - at], p);
      SliceAt(PutSlice(ring, at, data[..c - at]), 0, data[c - at..], p);
    }
  }

  /** Writing behind what is held adds it, as long as one byte stays free. */
  lemma WrittenIsAdded(ring: seq<byte>, readPos: nat, writePos: nat, data: seq<byte>)
    requires readPos < |ring| && writePos < |ring| && |Held(ring, readPos, writePos)| + |data| < |ring|
    ensures var w := Advance(writePos, |data|, |ring|);
            w < |ring| && Held(Written(ring, writePos, data), readPos, w) == Held(ring, readPos, writePos) + data
  {
    var c := |ring|;
    WrapOnce(writePos, |data|, c);
    var w := Advance(writePos, |data|, c);
    var was := Held(ring, readPos, writePos);
    var now := Held(Written(ring, writePos, data), readPos, w);
    AddedLength(ring, readPos, writePos, data);
    forall k | 0 <= k < |now| ensures now[k] == (was + data)[k] {
      hide Written, Held, Advance;
      HeldAt(Written(ring, writePos, data), readPos, w, k);
      if k < |was| {
        HeldAt(ring, readPos, writePos, k);
        BeforeWrite(ring, readPos, writePos, k);
        WrittenAt(ring, writePos, data, c - |was| + k);
      } else {
        BeforeWrite(ring, readPos, writePos, |was|);
        WrittenAt(ring, writePos, data, k - |was|);
        AroundTwice(readPos, |was|, k - |was|, c);
      }
    }
  }

  lemma AddedLength(ring: seq<byte>, readPos: nat, writePos: nat, data: seq<byte>)
    requires readPos < |ring| && writePos < |ring| && |Held(ring, readPos, writePos)| + |data| < |ring|
    ensures var w := Advance(writePos, |data|, |ring|);
            w < |ring| && |Held(Written(ring, writePos, data), readPos, w)| == |Held(ring, readPos, writePos)| + |data|
  {
    WrapOnce(writePos, |data|, |ring|);
  }

  /** The write position is as far round from the read position as bytes are held. */
  lemma BeforeWrite(ring: seq<byte>, readPos: nat, writePos: nat, k: nat)
    requires readPos < |ring| && writePos < |ring| && k <= |Held(ring, readPos, writePos)|
    ensures var (was, c) := (|Held(ring, readPos, writePos)|, |ring|);
            && Around(readPos, was, c) == writePos
            && (k < was ==> Around(writePos, c - was + k, c) == Around(readPos, k, c))
  {}

  lemma AroundTwice(pos: nat, j: nat, k: nat, c: nat)
    requires pos < c && j < c && j + k < c
    ensures Around(Around(pos, j, c), k, c) == Around(pos, j + k, c)
  {}

  /** Moving the read position on drops the oldest bytes. */
  lemma AdvanceDrops(ring: seq<byte>, readPos: nat, writePos: nat, n: nat)
    requires readPos < |ring| && writePos < |ring| && n <= |Held(ring, readPos, writePos)|
    ensures var r := Advance(readPos, n, |ring|);
            r < |ring| && Held(ring, r, writePos) == Held(ring, readPos, writePos)[n..]
  {
    WrapOnce(readPos, n, |ring|);
  }

  class LockFreeRingBuffer {
    const buffer: array<byte>
    const capacity: nat
    var writePos: nat
    var readPos: nat

    ghost predicate Valid()
      reads this
    {
      buffer.Length == capacity > 0 && writePos < capacity && readPos < capacity
    }

    /** The bytes held, oldest first. */
    ghost function Contents(): (s: seq<byte>)
      reads this, buffer
      requires Valid()
      ensures |s| < capacity
    {
      Held(buffer[..], readPos, writePos)
    }

    constructor (capacity: nat)
      requires capacity > 0
      ensures Valid() && fresh(buffer) && this.capacity == capacity && Contents() == []
    {
      this.capacity := capacity;
      buffer := new byte[capacity](_ => 0);
      writePos, readPos := 0, 0;
    }

    /** One `copy_from_slice` into the ring. */
    method CopyIn(at: nat, data: seq<byte>)
      requires at + |data| <= buffer.Length
      modifies buffer
      ensures buffer[..] == PutSlice(old(buffer[..]), at, data)
    {
      forall k | 0 <= k < |data| {
        buffer[at + k] := data[k];
      }
    }

    /** The copy of `enqueue_slice`, in two parts where it goes round the end. */
    method CopyRound(at: nat, data: seq<byte>)
      requires at < buffer.Length && |data| <= buffer.Length
      modifies buffer
      ensures buffer[..] == Written(old(buffer[..]), at, data)
    {
      if at + |data| <= buffer.Length {
        CopyIn(at, data);
      } else {
        var first := buffer.Length - at;
        CopyIn(at, data[..first]);
        CopyIn(0, data[first..]);
      }
    }

    /** The store of the new write position. */
    method Publish(n: nat)
      requires Valid() && Advance(writePos, n, capacity) < capacity
      modifies this`writePos
      ensures Valid() && writePos == Advance(old(writePos), n, capacity)
      ensures Contents() == Held(buffer[..], readPos, Advance(old(writePos), n, capacity))
    {
      writePos := (writePos + n) % capacity;
    }

    /** `enqueue_slice`: as much as fits, one byte of the ring staying free. */
    method EnqueueSlice(data: seq<byte>) returns (n: nat)
      requires Valid()
      modifies this`writePos, buffer
      ensures Valid() && readPos == old(readPos)
      ensures n == Min(|data|, capacity - 1 - |old(Contents())|)
      ensures Contents() == old(Contents()) + data[..n]
    {
      var available := if readPos <= writePos then capacity - writePos + readPos - 1 else readPos - writePos - 1;
      n := Min(|data|, available);
      HeldLength(buffer[..], readPos, writePos);
      if n == 0 {
        return;
      }
      hide *;
      WrittenIsAdded(buffer[..], readPos, writePos, data[..n]);
      CopyRound(writePos, data[..n]);
      Publish(n);
    }

    /** The copy of `dequeue_slice`, in two parts where it goes round the end. */
    method CopyOutRound(buf: array<byte>, n: nat)
      requires Valid() && buf != buffer && n <= buf.Length && n <= |Contents()|
      modifies buf
      ensures buf[..n] == Contents()[..n] && buf[n..] == old(buf[n..])
    {
      ghost var held := Contents()[..n];
      TwoParts(buffer[..], readPos, writePos, n);
      if readPos + n <= capacity {
        CopyOut(buf, 0, buffer[readPos..readPos + n]);
        assert buf[..n] == buf[0..n] == held;
      } else {
        var first := capacity - readPos;
        CopyOut(buf, 0, buffer[readPos..]);
        ghost var part := buf[..first];
        assert part == buf[0..first];
        CopyOut(buf, first, buffer[..n - first]);
        assert buf[..n] == part + buf[first..n];
      }
    }

    /** `dequeue_slice`: as much as there is room for. */
    method DequeueSlice(buf: array<byte>) returns (n: nat)
      requires Valid() && buf != buffer
      modifies this`readPos, buf
      ensures Valid() && writePos == old(writePos)
      ensures n == Min(buf.Length, |old(Contents())|)
      ensures buf[..n] == old(Contents())[..n] && buf[n..] == old(buf[n..])
      ensures Contents() == old(Contents())[n..]
    {
      var available := if writePos >= readPos then writePos - readPos else capacity - readPos + writePos;
      n := Min(buf.Length, available);
      HeldLength(buffer[..], readPos, writePos);
      if n == 0 {
        return;
      }
      hide Held;
      AdvanceDrops(buffer[..], readPos, writePos, n);
      CopyOutRound(buf, n);
      readPos := (readPos + n) % capacity;
    }

    /** One `copy_from_slice` out of the ring. */
    method CopyOut(buf: array<byte>, at: nat, data: seq<byte>)
      requires at + |data| <= buf.Length
      modifies buf
      ensures buf[at..at + |data|] == data
      ensures buf[..at] == old(buf[..at]) && buf[at + |data|..] == old(buf[at + |data|..])
    {
      forall k | 0 <= k < |data| {
        buf[at + k] := data[k];
      }
    }

    method IsEmpty() returns (empty: bool)
      requires Valid()
      ensures empty <==> Contents() == []
    {
      empty := readPos == writePos;
    }

    method IsFull() returns (full: bool)
      requires Valid()
      ensures full <==> |Contents()| == capacity - 1
    {
      WrapOnce(writePos, 1, capacity);
      full := (writePos + 1) % capacity == readPos;
    }
  }
}
