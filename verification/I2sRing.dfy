/**
  The ring buffer between an I2S interrupt and the program, and the copies of a program's buffer
  into it.
 */
module I2sRing {
  import opened Arith
  import opened Bits
  import opened Sequences

  // ---- slots

  function Next(i: nat, size: nat): nat {
    if i + 1 == size then 0 else i + 1
  }

  // The slot k places after slot i.
  function After(i: nat, k: nat, size: nat): int {
    if i + k < size then i + k else i + k - size
  }

  function Count(head: nat, tail: nat, size: nat): int {
    if head <= tail then tail - head else tail + size - head
  }

  // The bytes from head to tail.
  function Held(buffer: seq<Byte>, head: nat, tail: nat): seq<Byte>
    requires head < |buffer| && tail < |buffer|
  {
    if head <= tail then buffer[head..tail] else buffer[head..] + buffer[..tail]
  }

  lemma HeldAt(buffer: seq<Byte>, head: nat, tail: nat)
    requires head < |buffer| && tail < |buffer|
    ensures |Held(buffer, head, tail)| == Count(head, tail, |buffer|) < |buffer|
    ensures forall k: nat :: k < Count(head, tail, |buffer|) ==>
      Held(buffer, head, tail)[k] == buffer[After(head, k, |buffer|)]
  {
  }

  // Writing the slot at the tail and moving the tail appends; the slot is not a held one.
  lemma HeldAppend(buffer: seq<Byte>, head: nat, tail: nat, b: Byte)
    requires head < |buffer| && tail < |buffer| && Next(tail, |buffer|) != head
    ensures Held(buffer[tail := b], head, Next(tail, |buffer|)) == Held(buffer, head, tail) + [b]
  {
  }

  lemma HeldFirst(buffer: seq<Byte>, head: nat, tail: nat)
    requires head < |buffer| && tail < |buffer| && head != tail
    ensures Held(buffer, head, tail) == [buffer[head]] + Held(buffer, Next(head, |buffer|), tail)
  {
    if head < tail {
      assert buffer[head..tail] == [buffer[head]] + buffer[head + 1..tail];
    } else if head + 1 == |buffer| {
      assert buffer[head..] == [buffer[head]];
    } else {
      assert buffer[head..] == [buffer[head]] + buffer[head + 1..];
      Regroup([buffer[head]], buffer[head + 1..], buffer[..tail]);
    }
  }

  lemma NextIsModulo(i: nat, size: nat)
    requires i < size
    ensures (i + 1) % size == Next(i, size) < size
  {
  }

  // (tail - head + size) % size in unsigned arithmetic.
  function Available(head: nat, tail: nat, size: nat): nat
    requires size > 0
  {
    ((tail - head) % SIZE_T_RANGE + size) % SIZE_T_RANGE % size
  }

  // The subtraction wraps round below zero and the sum comes back.
  lemma CountIsModulo(head: nat, tail: nat, size: nat)
    requires head < size && tail < size && size <= SIZE_T_RANGE / 2
    ensures Available(head, tail, size) == Count(head, tail, size)
  {
    var d := tail - head;
    if d >= 0 {
      Small(d + size, SIZE_T_RANGE);
      DivMod(1, d, size);
    } else {
      DivMod(-1, d + SIZE_T_RANGE, SIZE_T_RANGE);
      DivMod(1, d + size, SIZE_T_RANGE);
      Small(d + size, size);
    }
  }

  lemma Small(a: nat, d: nat)
    requires a < d
    ensures a % d == a
  {
  }

  // ---- the buffer as an object

  datatype IoMode = Blocking | Asyncio | NonBlocking

  class RingBuffer {
    const size: nat
    const buffer: array<Byte>
    var head: nat
    var tail: nat

    ghost predicate Valid()
      reads this
    {
      size == buffer.Length && head < size && tail < size && size <= SIZE_T_RANGE / 2
    }

    ghost function Contents(): seq<Byte>
      reads this, buffer
      requires Valid()
    {
      Held(buffer[..], head, tail)
    }

    constructor (buf: array<Byte>)
      requires 0 < buf.Length <= SIZE_T_RANGE / 2
      ensures Valid() && buffer == buf && Contents() == []
    {
      buffer := buf;
      size := buf.Length;
      head := 0;
      tail := 0;
    }

    // One slot stays free.
    method Push(data: Byte) returns (pushed: bool)
      requires Valid()
      modifies this`tail, buffer
      ensures Valid()
      ensures pushed <==> |old(Contents())| < size - 1
      ensures Contents() == if pushed then old(Contents()) + [data] else old(Contents())
      ensures !pushed ==> buffer[..] == old(buffer[..])
    {
      NextIsModulo(tail, size);
      HeldAt(buffer[..], head, tail);
      var nextTail := (tail + 1) % size;
      if nextTail != head {
        HeldAppend(buffer[..], head, tail, data);
        buffer[tail] := data;
        tail := nextTail;
        return true;
      }
      return false;
    }

    method Pop() returns (popped: bool, data: Byte)
      requires Valid()
      modifies this`head
      ensures Valid()
      ensures popped <==> old(Contents()) != []
      ensures popped ==> old(Contents()) == [data] + Contents()
      ensures !popped ==> Contents() == old(Contents())
    {
      HeldAt(buffer[..], head, tail);
      if head == tail {
        return false, 0;
      }
      NextIsModulo(head, size);
      HeldFirst(buffer[..], head, tail);
      data := buffer[head];
      head := (head + 1) % size;
      return true, data;
    }

    method IsEmpty() returns (empty: bool)
      requires Valid()
      ensures empty <==> Contents() == []
    {
      HeldAt(buffer[..], head, tail);
      return head == tail;
    }

    method IsFull() returns (full: bool)
      requires Valid()
      ensures full <==> |Contents()| == size - 1
    {
      HeldAt(buffer[..], head, tail);
      NextIsModulo(tail, size);
      return (tail + 1) % size == head;
    }

    method AvailableData() returns (n: nat)
      requires Valid()
      ensures n == |Contents()|
    {
      hide Available, Held;
      HeldAt(buffer[..], head, tail);
      CountIsModulo(head, tail, size);
      return Available(head, tail, size);
    }

    method AvailableSpace() returns (n: nat)
      requires Valid()
      ensures n == size - 1 - |Contents()|
    {
      HeldAt(buffer[..], head, tail);
      var data := AvailableData();
      return size - data - 1;
    }

    // What the other side of the buffer does while this side waits: it takes up to n bytes.
    method Drain(n: nat) returns (out: seq<Byte>)
      requires Valid()
      modifies this`head
      ensures Valid()
      ensures old(Contents()) == out + Contents()
      ensures |out| == n || Contents() == []
    {
      hide Held;
      out := [];
      while |out| < n
        invariant Valid() && |out| <= n
        invariant old(Contents()) == out + Contents()
        modifies this`head
        decreases n - |out|
      {
        var popped, b := Pop();
        if !popped {
          return;
        }
        Regroup(out, [b], Contents());
        out := out + [b];
      }
    }

    // Copies a program's buffer in. A blocking copy polls: after each push that fails the
    // interrupt takes the next number of bytes, until the given interrupts are used up.
    method CopyIn(appbuf: seq<Byte>, mode: IoMode, interrupts: seq<nat>) returns (n: nat, drained: seq<Byte>)
      requires Valid()
      modifies this, buffer
      ensures Valid() && n <= |appbuf|
      ensures drained + Contents() == old(Contents()) + appbuf[..n]
      ensures mode.NonBlocking? ==> n == 0
      ensures !mode.Blocking? ==> drained == []
      ensures mode.Asyncio? ==> n == |appbuf| || |Contents()| == size - 1
      ensures mode.Blocking? && Enough(interrupts, |appbuf|, size) ==> n == |appbuf|
    {
      hide Held, Next, Count, After;
      n, drained := 0, [];
      if mode.NonBlocking? {
        return;
      }
      var polls := 0;
      while n < |appbuf|
        invariant Valid() && n <= |appbuf| && polls <= |interrupts|
        invariant drained + Contents() == old(Contents()) + appbuf[..n]
        invariant mode.Asyncio? ==> drained == []
        invariant mode.Blocking? && Enough(interrupts, |appbuf|, size) ==>
          polls <= n || (polls == n + 1 && |Contents()| < size - 1)
        decreases |appbuf| - n, |interrupts| - polls
      {
        ghost var before := Contents();
        HeldAt(buffer[..], head, tail);
        var pushed := Push(appbuf[n]);
        if pushed {
          assert appbuf[..n + 1] == appbuf[..n] + [appbuf[n]];
          Regroup(drained, before, [appbuf[n]]);
          Regroup(old(Contents()), appbuf[..n], [appbuf[n]]);
          n := n + 1;
        } else if mode.Asyncio? || polls == |interrupts| {
          return;
        } else {
          var out := Drain(interrupts[polls]);
          Regroup(drained, out, Contents());
          drained := drained + out;
          polls := polls + 1;
        }
      }
    }
  }

  // A write that the interrupt carries on with, one block at a time.
  class BackgroundCopy {
    const ring: RingBuffer
    const blockSize: nat
    var appbuf: seq<Byte>
    var index: nat
    var copyInProgress: bool

    constructor (ring: RingBuffer, blockSize: nat, appbuf: seq<Byte>)
      ensures this.ring == ring && this.blockSize == blockSize && this.appbuf == appbuf
      ensures index == 0 && copyInProgress
    {
      this.ring := ring;
      this.blockSize := blockSize;
      this.appbuf := appbuf;
      index := 0;
      copyInProgress := true;
    }

    function Block(): nat
      requires index <= |appbuf|
      reads this
    {
      if blockSize < |appbuf| - index then blockSize else |appbuf| - index
    }

    // A whole block goes in or nothing does; the callback is due when all has gone in.
    method Continue() returns (callback: bool)
      requires ring.Valid() && index <= |appbuf|
      modifies this, ring, ring.buffer
      ensures ring.Valid() && appbuf == old(appbuf) && old(index) <= index <= |appbuf|
      ensures ring.Contents() == old(ring.Contents()) + appbuf[old(index)..index]
      ensures index - old(index) ==
              if old(|ring.Contents()| + Block() <= ring.size - 1) then old(Block()) else 0
      ensures callback ==> index == |appbuf| && !copyInProgress
      ensures !callback ==> copyInProgress == old(copyInProgress)
      ensures callback <==> index == |appbuf| && old(|ring.Contents()| + Block() <= ring.size - 1)
    {
      hide Held;
      var n := Block();
      var space := ring.AvailableSpace();
      callback := false;
      if space >= n {
        for i := 0 to n
          invariant ring.Valid() && appbuf == old(appbuf) && index == old(index)
          invariant copyInProgress == old(copyInProgress)
          invariant ring.Contents() == old(ring.Contents()) + appbuf[index..index + i]
        {
          var pushed := ring.Push(appbuf[index + i]);
          Regroup(old(ring.Contents()), appbuf[index..index + i], [appbuf[index + i]]);
          assert appbuf[index..index + i + 1] == appbuf[index..index + i] + [appbuf[index + i]];
        }
        index := index + n;
        if index >= |appbuf| {
          copyInProgress := false;
          callback := true;
        }
      }
    }
  }

  // Every interrupt takes something, there are enough of them, and there is a slot to use.
  ghost predicate Enough(interrupts: seq<nat>, needed: nat, size: nat) {
    size > 1 && |interrupts| >= needed && forall k :: 0 <= k < |interrupts| ==> interrupts[k] > 0
  }
}
