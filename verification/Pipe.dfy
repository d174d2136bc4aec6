/** Pipes: a ring buffer of 4096 bytes, read and written in place, with counted ends. */
module Pipes {
  import opened Wrappers

  const PIPE_BUFFER_SIZE: nat := 4096
  const MAX_PIPES: nat := 16

  datatype ErrorCode = EPIPE | EAGAIN | EBADF | EINVAL | EMFILE

  function Min(a: nat, b: nat): nat {
    if a < b then a else b
  }

  class Pipe {
    const buffer: array<bv8>
    var readPos: nat
    var writePos: nat
    var count: nat
    var readRefcount: nat
    var writeRefcount: nat
    /** Every byte ever accepted by a write to this slot, and every byte ever returned by a read. */
    ghost var accepted: seq<bv8>
    ghost var returned: seq<bv8>

    /** The unread bytes in order. */
    ghost function Contents(): seq<bv8>
      requires buffer.Length == PIPE_BUFFER_SIZE
      reads this, buffer
    {
      Ring(buffer[..], readPos, count)
    }

    /** The positions agree with the count, and over the whole history what went in came out first or is still there. */
    ghost predicate Valid()
      reads this, buffer
    {
      && buffer.Length == PIPE_BUFFER_SIZE
      && readPos < PIPE_BUFFER_SIZE && count <= PIPE_BUFFER_SIZE
      && writePos == Slot(readPos, count)
      && accepted == returned + Contents()
    }

    constructor ()
      ensures Valid() && fresh(buffer) && Contents() == [] && accepted == [] && returned == []
      ensures readRefcount == 0 && writeRefcount == 0
    {
      buffer := new bv8[PIPE_BUFFER_SIZE](i => 0);
      readPos, writePos, count, readRefcount, writeRefcount := 0, 0, 0, 0, 0;
      accepted, returned := [], [];
    }

    predicate IsAllocated()
      reads this
    {
      readRefcount > 0 || writeRefcount > 0
    }

    /** Appends as many bytes as fit. */
    method Write(data: seq<bv8>) returns (r: Result<nat, ErrorCode>)
      requires Valid()
      modifies this`writePos, this`count, this`accepted, buffer
      ensures Valid()
      ensures r == if readRefcount == 0 then Err(EPIPE)
                   else if old(count) == PIPE_BUFFER_SIZE then Err(EAGAIN)
                   else Ok(Min(|data|, PIPE_BUFFER_SIZE - old(count)))
      ensures r.Err? ==> Contents() == old(Contents()) && accepted == old(accepted)
      ensures r.Ok? ==> Contents() == old(Contents()) + data[..r.value] && accepted == old(accepted) + data[..r.value]
    {
      hide Slot, Ring, Next;
      if readRefcount == 0 {
        return Err(EPIPE);
      }
      if count == PIPE_BUFFER_SIZE {
        return Err(EAGAIN);
      }
      var toWrite := Min(|data|, PIPE_BUFFER_SIZE - count);
      ghost var all := Contents() + data;
      RingAt(buffer[..], readPos, count);
      for i := 0 to toWrite
        invariant count == old(count) && accepted == old(accepted) && writePos == Slot(readPos, count + i)
        invariant forall k :: 0 <= k < count + i ==> buffer[Slot(readPos, k)] == all[k]
      {
        forall k | 0 <= k < count + i
          ensures Slot(readPos, k) != writePos
        {
          SlotDistinct(readPos, k, count + i);
        }
        SlotNext(readPos, count + i);
        buffer[writePos] := data[i];
        writePos := Next(writePos);
      }
      count := count + toWrite;
      accepted := accepted + data[..toWrite];
      RingIs(buffer[..], readPos, all[..count]);
      assert all[..count] == old(Contents()) + data[..toWrite];
      assert accepted == returned + all[..count];
      r := Ok(toWrite);
    }

    /** Takes up to `max` bytes from the front. An empty answer to a non-empty request is end of file. */
    method Read(max: nat) returns (r: Result<seq<bv8>, ErrorCode>)
      requires Valid()
      modifies this`readPos, this`count, this`returned
      ensures Valid()
      ensures r == if old(count) == 0 then (if writeRefcount == 0 then Ok([]) else Err(EAGAIN))
                   else Ok(old(Contents())[..Min(max, old(count))])
      ensures r.Err? ==> Contents() == old(Contents()) && returned == old(returned)
      ensures r.Ok? ==> Contents() == old(Contents())[|r.value|..] && returned == old(returned) + r.value
    {
      hide Slot, Ring, Next;
      RingAt(buffer[..], readPos, count);
      if writeRefcount == 0 && count == 0 {
        assert Contents() == [];
        return Ok([]);
      }
      if count == 0 {
        return Err(EAGAIN);
      }
      var toRead := Min(max, count);
      var buf := [];
      ghost var before := Contents();
      ghost var start := readPos;
      SlotZero(start);
      for i := 0 to toRead
        invariant count == old(count) && returned == old(returned) && readPos == Slot(start, i)
        invariant buf == before[..i]
      {
        SlotNext(start, i);
        TakeNext(before, i);
        assert buffer[readPos] == before[i];
        buf := buf + [buffer[readPos]];
        readPos := Next(readPos);
      }
      SlotShift(start, toRead, count - toRead);
      RingDrop(buffer[..], start, toRead, count - toRead);
      SplitAfter(returned, before, toRead);
      count := count - toRead;
      returned := returned + buf;
      r := Ok(buf);
    }
  }

  lemma TakeNext(s: seq<bv8>, i: nat)
    requires i < |s|
    ensures s[..i + 1] == s[..i] + [s[i]]
  {
  }

  lemma SplitAfter(front: seq<bv8>, s: seq<bv8>, n: nat)
    requires n <= |s|
    ensures front + s == front + s[..n] + s[n..]
  {
  }

  /** The bytes of a ring from a position on. */
  ghost function Ring(bytes: seq<bv8>, start: nat, count: nat): (s: seq<bv8>)
    requires |bytes| == PIPE_BUFFER_SIZE
    ensures |s| == count
  {
    seq(count, i requires 0 <= i < count => bytes[Slot(start, i)])
  }

  lemma RingAt(bytes: seq<bv8>, start: nat, count: nat)
    requires |bytes| == PIPE_BUFFER_SIZE
    ensures forall k :: 0 <= k < count ==> Ring(bytes, start, count)[k] == bytes[Slot(start, k)]
  {
  }

  lemma RingIs(bytes: seq<bv8>, start: nat, s: seq<bv8>)
    requires |bytes| == PIPE_BUFFER_SIZE && forall k :: 0 <= k < |s| ==> bytes[Slot(start, k)] == s[k]
    ensures Ring(bytes, start, |s|) == s
  {
  }

  /** Taking bytes off the front leaves the rest. */
  lemma RingDrop(bytes: seq<bv8>, start: nat, n: nat, rest: nat)
    requires |bytes| == PIPE_BUFFER_SIZE
    ensures Ring(bytes, Slot(start, n), rest) == Ring(bytes, start, n + rest)[n..]
  {
    hide Slot;
    forall k | 0 <= k < rest
      ensures Ring(bytes, Slot(start, n), rest)[k] == Ring(bytes, start, n + rest)[n + k]
    {
      SlotShift(start, n, k);
    }
  }

  /** The place in the ring k bytes after a position. */
  function Slot(start: nat, k: nat): (p: nat)
    ensures p < PIPE_BUFFER_SIZE
  {
    (start + k) % PIPE_BUFFER_SIZE
  }

  function Next(p: nat): nat {
    (p + 1) % PIPE_BUFFER_SIZE
  }

  lemma SlotZero(start: nat)
    requires start < PIPE_BUFFER_SIZE
    ensures Slot(start, 0) == start
  {
  }

  lemma SlotNext(start: nat, k: nat)
    ensures Slot(start, k + 1) == Next(Slot(start, k))
  {
  }

  lemma SlotShift(start: nat, a: nat, b: nat)
    ensures Slot(Slot(start, a), b) == Slot(start, a + b)
  {
  }

  /** Two places less than a buffer apart are different places. */
  lemma SlotDistinct(start: nat, a: nat, b: nat)
    requires a < b < PIPE_BUFFER_SIZE
    ensures Slot(start, a) != Slot(start, b)
  {
  }
}
