/**
  The accept queue of a listening lwIP socket: a ring of connection slots, filled by one
  callback, emptied by accept, and with a failed connection taken out of its middle by another.
 */
module LwipAccept {

  // A connection block, or NULL.
  datatype Slot = Null | Pcb(id: nat)

  // ---- the queue as a sequence

  predicate Distinct(q: seq<nat>) {
    forall i, j :: 0 <= i < j < |q| ==> q[i] != q[j]
  }

  function Arrived(q: seq<nat>, pcb: nat, capacity: nat): seq<nat> {
    if |q| < capacity then q + [pcb] else q
  }

  // The sequence without some connections, in order.
  function Without(q: seq<nat>, gone: set<nat>): seq<nat> {
    if q == [] then []
    else if q[|q| - 1] in gone then Without(q[..|q| - 1], gone)
    else Without(q[..|q| - 1], gone) + [q[|q| - 1]]
  }

  lemma {:induction false} WithoutNone(q: seq<nat>, gone: set<nat>)
    requires forall i :: 0 <= i < |q| ==> q[i] !in gone
    ensures Without(q, gone) == q
  {
    if q != [] {
      WithoutNone(q[..|q| - 1], gone);
    }
  }

  lemma {:induction false} WithoutAppend(a: seq<nat>, b: seq<nat>, gone: set<nat>)
    ensures Without(a + b, gone) == Without(a, gone) + Without(b, gone)
  {
    if b == [] {
      assert a + b == a;
    } else {
      assert (a + b)[..|a + b| - 1] == a + b[..|b| - 1];
      WithoutAppend(a, b[..|b| - 1], gone);
    }
  }

  lemma {:induction false} WithoutTwice(q: seq<nat>, g: set<nat>, h: set<nat>)
    ensures Without(Without(q, g), h) == Without(q, g + h)
  {
    if q != [] {
      var p, x := q[..|q| - 1], q[|q| - 1];
      WithoutTwice(p, g, h);
      if x !in g {
        WithoutAppend(Without(p, g), [x], h);
        assert Without([], h) == [];
        assert [x][..0] == [];
      }
    }
  }

  lemma WithoutSingle(x: nat, gone: set<nat>)
    ensures Without([x], gone) == if x in gone then [] else [x]
  {
    assert [x][..0] == [];
  }

  lemma WithoutMiddle(a: seq<nat>, x: nat, b: seq<nat>)
    requires x !in a && x !in b
    ensures Without(a + ([x] + b), {x}) == a + b
  {
    hide Without;
    WithoutAppend(a, [x] + b, {x});
    WithoutAppend([x], b, {x});
    WithoutSingle(x, {x});
    WithoutNone(a, {x});
    WithoutNone(b, {x});
    assert [] + b == b;
  }

  lemma DistinctParts(q: seq<nat>, k: nat)
    requires Distinct(q) && k < |q|
    ensures q[k] !in q[..k] && q[k] !in q[k + 1..]
  {
  }

  lemma SplitAt(q: seq<nat>, k: nat)
    requires k < |q|
    ensures q == q[..k] + ([q[k]] + q[k + 1..])
  {
  }

  // Taking out the connection at one position.
  lemma WithoutOne(q: seq<nat>, k: nat)
    requires Distinct(q) && k < |q|
    ensures Without(q, {q[k]}) == q[..k] + q[k + 1..]
  {
    hide Without, Distinct;
    DistinctParts(q, k);
    SplitAt(q, k);
    WithoutMiddle(q[..k], q[k], q[k + 1..]);
  }

  lemma {:induction false} WithoutMembers(q: seq<nat>, gone: set<nat>, x: nat)
    ensures x in Without(q, gone) <==> x in q && x !in gone
    ensures |Without(q, gone)| <= |q|
  {
    if q != [] {
      WithoutMembers(q[..|q| - 1], gone, x);
      assert q == q[..|q| - 1] + [q[|q| - 1]];
    }
  }

  lemma {:induction false} WithoutDistinct(q: seq<nat>, gone: set<nat>)
    requires Distinct(q)
    ensures Distinct(Without(q, gone))
  {
    if q != [] {
      WithoutDistinct(q[..|q| - 1], gone);
      WithoutMembers(q[..|q| - 1], gone, q[|q| - 1]);
    }
  }

  // ---- the ring

  // The position k places after `from` in a ring, for k up to the size of the ring.
  function Ring(from: nat, k: nat, size: nat): int {
    if from + k < size then from + k else from + k - size
  }

  lemma RingStart(from: nat, size: nat)
    requires from < size
    ensures Ring(from, 0, size) == from
    ensures forall k: nat :: k <= size ==> 0 <= Ring(from, k, size) < size
  {
  }

  // The place after place j - 1, and when it is the place where the next connection goes.
  lemma RingMeets(from: nat, j: nat, n: nat, size: nat)
    requires from < size && 0 < j <= size && n <= size
    ensures var i := Ring(from, j - 1, size) + 1;
            && 0 < i <= size && Ring(from, j, size) == (if i >= size then 0 else i)
            && (j <= n || n == 0 ==> (Ring(from, j, size) == Ring(from, n, size) <==> j == if n == 0 then size else n))
  {
  }

  // The ring read from one position on.
  ghost function View(slots: seq<Slot>, from: nat, size: nat): seq<Slot>
    requires from < size <= |slots|
  {
    seq(size, k requires 0 <= k < size => slots[Ring(from, k, size)])
  }

  lemma ViewWrite(slots: seq<Slot>, from: nat, size: nat, k: nat, v: Slot)
    requires from < size <= |slots| && k < size
    ensures View(slots[Ring(from, k, size) := v], from, size) == View(slots, from, size)[k := v]
  {
  }

  // Moving on by one place rotates the view.
  lemma ViewRotate(slots: seq<Slot>, from: nat, size: nat)
    requires from < size <= |slots|
    ensures Ring(from, 1, size) < size
    ensures View(slots, Ring(from, 1, size), size) == View(slots, from, size)[1..] + View(slots, from, size)[..1]
  {
    var v := View(slots, from, size);
    forall k | 0 <= k < size
      ensures View(slots, Ring(from, 1, size), size)[k] == (v[1..] + v[..1])[k]
    {
      if k + 1 < size {
        assert Ring(Ring(from, 1, size), k, size) == Ring(from, k + 1, size);
      } else {
        assert Ring(Ring(from, 1, size), k, size) == Ring(from, 0, size);
      }
    }
  }

  // A queue and the free slots behind it.
  ghost function Layout(q: seq<nat>, size: nat): seq<Slot> {
    seq(size, k => if 0 <= k < |q| then Pcb(q[k]) else Null)
  }

  // What listen makes of a backlog: how many connections the queue holds, and what is in it at
  // first.
  function QueueLength(backlog: int): nat {
    if backlog <= 1 || backlog % 256 == 0 then 1 else backlog % 256
  }

  function StartQueue(backlog: int, pointer: nat): seq<nat> {
    if backlog > 1 && backlog % 256 == 0 then [pointer] else []
  }

  class ListenSocket {
    // Kept in 8 bits; 0 means that the one slot is the union member `item`.
    var alloc: nat
    var iget: nat
    var iput: nat
    var slots: array<Slot>
    ghost var queue: seq<nat>

    ghost function Capacity(): nat
      reads this
    {
      if alloc == 0 then 1 else alloc
    }

    // The queued connections are in the slots from iget on, the other slots are NULL, and iput
    // is where the next one goes.
    ghost predicate Valid()
      reads this, slots
    {
      && alloc < 256 && Capacity() <= slots.Length
      && iget < Capacity() && |queue| <= Capacity() && Distinct(queue)
      && iput == Ring(iget, |queue|, Capacity())
      && View(slots[..], iget, Capacity()) == Layout(queue, Capacity())
    }

    lemma QueueFits()
      requires Valid()
      ensures Distinct(queue) && |queue| <= Capacity()
    {
    }

    // The queue part of listen. `backlog` slots are allocated but their number is kept in 8 bits:
    // for a multiple of 256 it becomes 0, and the pointer to the slots is then taken for the one
    // slot, as if a connection were queued already.
    constructor Listen(backlog: int, pointer: nat)
      ensures fresh(slots)
      ensures Valid() && queue == StartQueue(backlog, pointer) && Capacity() == QueueLength(backlog)
      ensures Capacity() == (if backlog <= 1 then 1 else backlog) <==> backlog <= 255
    {
      iget, iput, queue := 0, 0, StartQueue(backlog, pointer);
      if backlog <= 1 {
        alloc := 0;
        slots := new Slot[1](_ => Null);
      } else if backlog % 256 != 0 {
        alloc := backlog % 256;
        slots := new Slot[backlog](_ => Null);
      } else {
        alloc := 0;
        slots := new Slot[1](_ => Pcb(pointer));
      }
    }

    // _lwip_tcp_accept: true for ERR_OK and false for ERR_BUF.
    method Accept(newpcb: nat, err: bool) returns (ok: bool)
      requires Valid() && newpcb !in queue
      modifies this`iput, this`queue, slots
      ensures Valid()
      ensures err ==> ok && queue == old(queue)
      ensures !err ==>
                (ok <==> |old(queue)| < Capacity()) && queue == Arrived(old(queue), newpcb, Capacity())
    {
      if err {
        return true;
      }
      ghost var n := |queue|;
      assert n < Capacity() ==> View(slots[..], iget, Capacity())[n] == Null;
      assert n == Capacity() ==> View(slots[..], iget, Capacity())[0] == Pcb(queue[0]);
      if slots[iput] == Null {
        ViewWrite(slots[..], iget, Capacity(), n, Pcb(newpcb));
        slots[iput] := Pcb(newpcb);
        iput := iput + 1;
        if iput >= alloc {
          iput := 0;
        }
        queue := queue + [newpcb];
        return true;
      }
      return false;
    }

    // The queue part of accept: the head of the queue, or NULL while there is none.
    method Take() returns (pcb: Slot)
      requires Valid()
      modifies this`iget, this`queue, slots
      ensures Valid()
      ensures old(queue) == [] ==> pcb == Null && queue == []
      ensures old(queue) != [] ==> pcb == Pcb(old(queue)[0]) && queue == old(queue)[1..]
    {
      ghost var size := Capacity();
      assert View(slots[..], iget, size)[0] == slots[iget];
      pcb := slots[iget];
      if pcb == Null {
        return;
      }
      ViewWrite(slots[..], iget, size, 0, Null);
      ghost var view := View(slots[..], iget, size)[0 := Null];
      slots[iget] := Null;
      ViewRotate(slots[..], iget, size);
      iget := iget + 1;
      if iget >= alloc {
        iget := 0;
      }
      queue := queue[1..];
      assert view[1..] + view[..1] == Layout(queue, size);
    }

    // The loop of _lwip_tcp_err_unaccepted, which shifts down what is behind the failed
    // connection; the slot it ends with, or -1 if the connection is not there.
    method ShiftDown(pcb: nat) returns (shiftDown: int, ghost at: nat)
      requires Valid()
      modifies slots
      ensures shiftDown == -1 ==> pcb !in queue && slots[..] == old(slots[..])
      ensures shiftDown != -1 ==>
                && at < |queue| && queue[at] == pcb && shiftDown == Ring(iget, |queue| - 1, Capacity())
                && View(slots[..], iget, Capacity()) == Shifted(old(View(slots[..], iget, Capacity())), at, |queue|)
    {
      hide Shifted, Distinct, Layout, Ring;
      ghost var size, view := Capacity(), View(slots[..], iget, Capacity());
      RingStart(iget, size);
      shiftDown, at := -1, 0;
      var i := iget;
      ghost var j: nat := 0;
      ghost var stop: nat := if queue == [] then size else |queue|;
      var going := true;
      while going
        invariant 0 <= i < size && i == Ring(iget, j, size) && if going then j < stop else j == stop
        invariant shiftDown == -1 ==>
          slots[..] == old(slots[..]) && forall k :: 0 <= k < j && k < |queue| ==> queue[k] != pcb
        invariant shiftDown != -1 ==> at < j <= |queue| && queue[at] == pcb && shiftDown == Ring(iget, j - 1, size)
        invariant shiftDown != -1 ==> View(slots[..], iget, size) == Shifted(view, at, j)
        decreases stop - j
      {
        LayoutAt(queue, size, j);
        assert slots[i] == View(slots[..], iget, size)[j] == view[j] by {
          if shiftDown != -1 {
            ShiftedAt(view, at, j);
          }
        }
        if shiftDown == -1 {
          if slots[i] == Pcb(pcb) {
            shiftDown, at := i, j;
            ShiftedStart(view, at);
          }
        } else {
          ViewWrite(slots[..], iget, size, j - 1, slots[i]);
          slots[shiftDown] := slots[i];
          shiftDown := i;
          ShiftedOn(view, at, j);
        }
        RingMeets(iget, j + 1, |queue|, size);
        i := i + 1;
        if i >= alloc {
          i := 0;
        }
        j := j + 1;
        if i == iput {
          going := false;
        }
      }
    }

    // _lwip_tcp_err_unaccepted: takes the failed connection out and keeps the order of the rest.
    method ErrUnaccepted(pcb: nat)
      requires Valid()
      modifies this`iput, this`queue, slots
      ensures Valid() && queue == Without(old(queue), {pcb})
    {
      ghost var size, q, view := Capacity(), queue, View(slots[..], iget, Capacity());
      var shiftDown, at := ShiftDown(pcb);
      if shiftDown != -1 {
        WithoutOne(q, at);
        ViewWrite(slots[..], iget, size, |q| - 1, Null);
        slots[shiftDown] := Null;
        iput := shiftDown;
        queue := q[..at] + q[at + 1..];
        OneLess(q, at, size);
      } else {
        WithoutNone(q, {pcb});
      }
    }
  }

  // The places from `at` to before j - 1 have moved down by one.
  ghost function Shifted(view: seq<Slot>, at: nat, j: nat): seq<Slot>
    requires j <= |view|
  {
    seq(|view|, k requires 0 <= k < |view| => if at <= k < j - 1 then view[k + 1] else view[k])
  }

  lemma LayoutAt(q: seq<nat>, size: nat, j: nat)
    requires j < size
    ensures Layout(q, size)[j] == if j < |q| then Pcb(q[j]) else Null
  {
  }

  lemma OneLess(q: seq<nat>, at: nat, size: nat)
    requires at < |q| <= size
    ensures Shifted(Layout(q, size), at, |q|)[|q| - 1 := Null] == Layout(q[..at] + q[at + 1..], size)
  {
  }

  lemma ShiftedStart(view: seq<Slot>, at: nat)
    requires at < |view|
    ensures Shifted(view, at, at + 1) == view
  {
  }

  lemma ShiftedAt(view: seq<Slot>, at: nat, j: nat)
    requires at < j < |view|
    ensures |Shifted(view, at, j)| == |view| && Shifted(view, at, j)[j] == view[j]
  {
  }

  lemma ShiftedOn(view: seq<Slot>, at: nat, j: nat)
    requires at < j < |view|
    ensures |Shifted(view, at, j)| == |view| && Shifted(view, at, j)[j - 1 := view[j]] == Shifted(view, at, j + 1)
  {
  }

  // ---- runs

  datatype Event = Arrival(pcb: nat) | Failure(pcb: nat) | UserAccept

  // What a run leaves: the queue, what the user was given, what was let in, and what failed
  // while it was queued.
  datatype Run = Run(queue: seq<nat>, taken: seq<nat>, entered: seq<nat>, failed: set<nat>)

  function Next(r: Run, e: Event, capacity: nat): Run {
    match e
    case Arrival(pcb) =>
      if |r.queue| < capacity then r.(queue := Arrived(r.queue, pcb, capacity), entered := r.entered + [pcb]) else r
    case Failure(pcb) =>
      if pcb in r.queue then r.(queue := Without(r.queue, {pcb}), failed := r.failed + {pcb}) else r
    case UserAccept =>
      if r.queue == [] then r else r.(queue := r.queue[1..], taken := r.taken + [r.queue[0]])
  }

  function After(start: seq<nat>, events: seq<Event>, capacity: nat): Run {
    if events == [] then Run(start, [], [], {})
    else Next(After(start, events[..|events| - 1], capacity), events[|events| - 1], capacity)
  }

  // lwIP hands over a new connection each time.
  ghost predicate FreshArrivals(start: seq<nat>, events: seq<Event>) {
    && (forall i, j :: 0 <= i < j < |events| && events[i].Arrival? && events[j].Arrival? ==>
          events[i].pcb != events[j].pcb)
    && (forall i :: 0 <= i < |events| && events[i].Arrival? ==> events[i].pcb !in start)
  }

  lemma {:induction false} EnteredArrived(start: seq<nat>, events: seq<Event>, capacity: nat, x: nat)
    ensures x in After(start, events, capacity).entered ==> exists i :: 0 <= i < |events| && events[i] == Arrival(x)
  {
    if events != [] {
      var n := |events| - 1;
      EnteredArrived(start, events[..n], capacity, x);
      var r := After(start, events[..n], capacity);
      assert x in After(start, events, capacity).entered ==> x in r.entered || events[n] == Arrival(x);
      if x in r.entered {
        var i :| 0 <= i < n && events[..n][i] == Arrival(x);
        assert events[i] == Arrival(x);
      }
    }
  }

  // `start` and then what was let in, all of it distinct, is what a run has to account for.
  ghost predicate Accounted(start: seq<nat>, r: Run, capacity: nat) {
    && r.taken + r.queue == Without(start + r.entered, r.failed)
    && Distinct(start + r.entered) && |r.queue| <= capacity
    && forall x :: x in r.failed ==> x in start + r.entered
  }

  lemma AccountedArrival(start: seq<nat>, r: Run, pcb: nat, capacity: nat)
    requires Accounted(start, r, capacity) && pcb !in start + r.entered
    ensures Accounted(start, Next(r, Arrival(pcb), capacity), capacity)
  {
    hide Without;
    if |r.queue| < capacity {
      WithoutAppend(start + r.entered, [pcb], r.failed);
      WithoutSingle(pcb, r.failed);
      assert start + (r.entered + [pcb]) == (start + r.entered) + [pcb];
      assert r.taken + (r.queue + [pcb]) == r.taken + r.queue + [pcb];
    }
  }

  lemma AccountedFailure(start: seq<nat>, r: Run, pcb: nat, capacity: nat)
    requires Accounted(start, r, capacity)
    ensures Accounted(start, Next(r, Failure(pcb), capacity), capacity)
  {
    hide Without;
    if pcb in r.queue {
      var all, come := r.taken + r.queue, start + r.entered;
      WithoutDistinct(come, r.failed);
      var k :| 0 <= k < |r.queue| && r.queue[k] == pcb;
      assert all[|r.taken| + k] == pcb;
      assert forall i :: 0 <= i < |r.taken| ==> all[i] == r.taken[i];
      WithoutNone(r.taken, {pcb});
      WithoutAppend(r.taken, r.queue, {pcb});
      WithoutTwice(come, r.failed, {pcb});
      WithoutMembers(r.queue, {pcb}, pcb);
      WithoutMembers(come, r.failed, pcb);
      assert pcb in all;
    }
  }

  lemma AccountedUserAccept(start: seq<nat>, r: Run, capacity: nat)
    requires Accounted(start, r, capacity)
    ensures Accounted(start, Next(r, UserAccept, capacity), capacity)
  {
    if r.queue != [] {
      var r' := Next(r, UserAccept, capacity);
      assert r'.taken + r'.queue == r.taken + r.queue;
    }
  }

  // Over every run, what the user was given followed by what is queued is what was there at
  // first and then let in, in order of arrival, without what failed while queued; nothing is
  // there twice.
  lemma {:induction false} FifoOverRuns(start: seq<nat>, events: seq<Event>, capacity: nat)
    requires FreshArrivals(start, events) && Distinct(start) && |start| <= capacity
    ensures Accounted(start, After(start, events, capacity), capacity)
    ensures var r := After(start, events, capacity); Distinct(r.taken + r.queue)
  {
    hide Without, Accounted, Next;
    var n := |events| - 1;
    if events == [] {
      AccountedAtStart(start, capacity);
    } else {
      FifoOverRuns(start, events[..n], capacity);
      var r := After(start, events[..n], capacity);
      match events[n] {
        case Arrival(pcb) =>
          EnteredArrived(start, events[..n], capacity, pcb);
          assert forall i :: 0 <= i < n ==> events[..n][i] == events[i];
          AccountedArrival(start, r, pcb, capacity);
        case Failure(pcb) => AccountedFailure(start, r, pcb, capacity);
        case UserAccept => AccountedUserAccept(start, r, capacity);
      }
    }
    NothingTwice(start, After(start, events, capacity), capacity);
  }

  lemma AccountedAtStart(start: seq<nat>, capacity: nat)
    requires Distinct(start) && |start| <= capacity
    ensures Accounted(start, Run(start, [], [], {}), capacity)
  {
    hide Without;
    WithoutNone(start, {});
    assert start + [] == start && [] + start == start;
  }

  lemma NothingTwice(start: seq<nat>, r: Run, capacity: nat)
    requires Accounted(start, r, capacity)
    ensures Distinct(r.taken + r.queue)
  {
    WithoutDistinct(start + r.entered, r.failed);
  }

  // A connection on its way has not been queued before.
  lemma NotQueued(start: seq<nat>, events: seq<Event>, capacity: nat, i: nat)
    requires FreshArrivals(start, events) && Distinct(start) && |start| <= capacity
    requires i < |events| && events[i].Arrival?
    ensures events[i].pcb !in After(start, events[..i], capacity).queue
  {
    hide After, Without;
    assert FreshArrivals(start, events[..i]);
    FifoOverRuns(start, events[..i], capacity);
    var r, pcb := After(start, events[..i], capacity), events[i].pcb;
    EnteredArrived(start, events[..i], capacity, pcb);
    WithoutMembers(start + r.entered, r.failed, pcb);
    assert pcb !in r.taken + r.queue;
  }

  // The callbacks and accept calls of a run, on the ring itself.
  method Drive(l: ListenSocket, events: seq<Event>) returns (taken: seq<nat>)
    requires l.Valid() && FreshArrivals(l.queue, events)
    modifies l, l.slots
    ensures l.Valid() && l.Capacity() == old(l.Capacity()) && l.slots == old(l.slots)
    ensures var r := After(old(l.queue), events, l.Capacity()); l.queue == r.queue && taken == r.taken
  {
    hide ListenSocket.Valid, Without;
    ghost var start, capacity := l.queue, l.Capacity();
    l.QueueFits();
    taken := [];
    for i := 0 to |events|
      invariant l.Valid() && l.Capacity() == capacity && l.slots == old(l.slots)
      invariant var r := After(start, events[..i], capacity); l.queue == r.queue && taken == r.taken
    {
      assert events[..i + 1][..i] == events[..i];
      match events[i] {
        case Arrival(pcb) =>
          NotQueued(start, events, capacity, i);
          var ok := l.Accept(pcb, false);
        case Failure(pcb) =>
          WithoutAbsent(l.queue, pcb);
          l.ErrUnaccepted(pcb);
        case UserAccept =>
          var pcb := l.Take();
          if pcb.Pcb? {
            taken := taken + [pcb.id];
          }
      }
    }
    assert events[..|events|] == events;
  }

  lemma WithoutAbsent(q: seq<nat>, x: nat)
    ensures x !in q ==> Without(q, {x}) == q
  {
    if x !in q {
      WithoutNone(q, {x});
    }
  }

  // A queue that starts with the pointer refuses every connection until the user takes it.
  lemma {:induction false} PointerFirst(pointer: nat, events: seq<Event>)
    requires Failure(pointer) !in events
    ensures var r := After([pointer], events, 1);
            if UserAccept in events then pointer in r.taken else r == Run([pointer], [], [], {})
  {
    if events != [] {
      var n := |events| - 1;
      assert events == events[..n] + [events[n]];
      PointerFirst(pointer, events[..n]);
    }
  }

  lemma {:induction false} TakenArrived(events: seq<Event>, capacity: nat, x: nat)
    requires FreshArrivals([], events)
    ensures x in After([], events, capacity).taken ==> Arrival(x) in events
  {
    hide Without, After;
    var r := After([], events, capacity);
    FifoOverRuns([], events, capacity);
    EnteredArrived([], events, capacity, x);
    WithoutMembers([] + r.entered, r.failed, x);
    assert x in r.taken ==> x in r.taken + r.queue;
    assert [] + r.entered == r.entered;
  }

  // The user is only ever given connections that arrived, exactly when the backlog is at most
  // one or not a multiple of 256, or accept is never called.
  lemma OnlyArrivalsTaken(backlog: int, pointer: nat, events: seq<Event>)
    requires FreshArrivals(StartQueue(backlog, pointer), events) && Failure(pointer) !in events
    ensures var r := After(StartQueue(backlog, pointer), events, QueueLength(backlog));
            (forall x :: x in r.taken ==> Arrival(x) in events)
            <==> backlog <= 1 || backlog % 256 != 0 || UserAccept !in events
  {
    hide After;
    if backlog <= 1 || backlog % 256 != 0 {
      forall x
        ensures x in After([], events, QueueLength(backlog)).taken ==> Arrival(x) in events
      {
        TakenArrived(events, QueueLength(backlog), x);
      }
    } else {
      PointerFirst(pointer, events);
    }
  }

  // For one: a backlog of 256, and accept called before anything has arrived.
  lemma GivenThePointer(pointer: nat)
    ensures After(StartQueue(256, pointer), [UserAccept], QueueLength(256)) == Run([], [pointer], [], {})
  {
    assert [UserAccept][..0] == [];
  }

  method AcceptOfBacklog256(pointer: nat) returns (pcb: Slot, l: ListenSocket)
    ensures pcb == Pcb(pointer) && fresh(l) && l.Valid() && l.queue == [] && l.Capacity() == 1
  {
    l := new ListenSocket.Listen(256, pointer);
    pcb := l.Take();
  }
}
