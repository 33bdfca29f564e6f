/** The heapq module: binary heaps kept in a list. */
module HeapQ {
  import opened Wrappers

  // ---- order

  // What the sifting needs of the less-than operator: a total preorder seen from its strict side.
  ghost predicate StrictWeakOrder<T(!new)>(lt: (T, T) -> bool) {
    && (forall a, b :: lt(a, b) ==> !lt(b, a))
    && (forall a, b, c :: !lt(a, b) && !lt(b, c) ==> !lt(a, c))
  }

  function Parent(i: int): int
    requires i > 0
  {
    (i - 1) / 2
  }

  lemma Children(c: int, pos: int)
    requires c > 0 && pos >= 0
    ensures Parent(c) == pos <==> c == 2 * pos + 1 || c == 2 * pos + 2
    ensures 0 <= Parent(c) < c
  {
  }

  ghost predicate InOrder<T>(lt: (T, T) -> bool, v: seq<T>, i: int)
    requires 0 < i < |v|
  {
    !lt(v[i], v[Parent(i)])
  }

  // Every item whose parent is at start or later is no less than its parent.
  ghost predicate HeapFrom<T>(lt: (T, T) -> bool, v: seq<T>, start: int) {
    forall i :: 0 < i < |v| && start <= Parent(i) ==> InOrder(lt, v, i)
  }

  ghost predicate IsHeap<T>(lt: (T, T) -> bool, v: seq<T>) {
    HeapFrom(lt, v, 0)
  }

  // No item is greater than the two at twice its index plus one and plus two.
  lemma HeapShape<T>(lt: (T, T) -> bool, v: seq<T>)
    ensures IsHeap(lt, v) <==> forall k: nat :: k < |v| ==> UnderChildren(lt, v, k)
  {
    if IsHeap(lt, v) {
      forall k: nat | k < |v| ensures UnderChildren(lt, v, k) {
        Children(2 * k + 1, k);
        Children(2 * k + 2, k);
        assert 2 * k + 1 < |v| ==> InOrder(lt, v, 2 * k + 1);
        assert 2 * k + 2 < |v| ==> InOrder(lt, v, 2 * k + 2);
      }
    }
    if forall k: nat :: k < |v| ==> UnderChildren(lt, v, k) {
      forall i | 0 < i < |v| ensures InOrder(lt, v, i) {
        Children(i, Parent(i));
        assert UnderChildren(lt, v, Parent(i));
      }
    }
  }

  ghost predicate UnderChildren<T>(lt: (T, T) -> bool, v: seq<T>, k: nat)
    requires k < |v|
  {
    && (2 * k + 1 < |v| ==> !lt(v[2 * k + 1], v[k]))
    && (2 * k + 2 < |v| ==> !lt(v[2 * k + 2], v[k]))
  }

  // The same but for the item at pos, and with `down`, but for its children too.
  ghost predicate HeapExcept<T>(lt: (T, T) -> bool, v: seq<T>, start: int, pos: int, down: bool) {
    && (forall i :: 0 < i < |v| && start <= Parent(i) && i != pos && (down ==> Parent(i) != pos) ==> InOrder(lt, v, i))
    && (0 < pos < |v| && start <= Parent(pos) ==>
          forall c :: 0 < c < |v| && Parent(c) == pos ==> !lt(v[c], v[Parent(pos)]))
  }

  ghost predicate Ancestor(start: nat, pos: nat)
    decreases pos
  {
    pos == start || (pos > start && Ancestor(start, Parent(pos)))
  }

  function Swap<T>(v: seq<T>, i: nat, j: nat): seq<T>
    requires i < |v| && j < |v|
  {
    v[i := v[j]][j := v[i]]
  }

  lemma SwapPermutes<T>(v: seq<T>, i: nat, j: nat)
    requires i < |v| && j < |v|
    ensures multiset(Swap(v, i, j)) == multiset(v)
  {
  }

  // Exchanging an item with a greater parent moves the disorder to the parent.
  lemma StepUp<T(!new)>(lt: (T, T) -> bool, v: seq<T>, start: nat, pos: nat)
    requires StrictWeakOrder(lt) && start < pos < |v| && Ancestor(start, pos)
    requires HeapExcept(lt, v, start, pos, false) && lt(v[pos], v[Parent(pos)])
    ensures HeapExcept(lt, Swap(v, pos, Parent(pos)), start, Parent(pos), false)
  {
    var p := Parent(pos);
    var w := Swap(v, pos, p);
    Children(pos, p);
    forall i | 0 < i < |w| && start <= Parent(i) && i != p
      ensures InOrder(lt, w, i)
    {
      Children(i, pos);
      assert i != pos ==> InOrder(lt, v, i);
    }
    if 0 < p && start <= Parent(p) {
      assert InOrder(lt, v, p);
      forall c | 0 < c < |w| && Parent(c) == p
        ensures !lt(w[c], w[Parent(p)])
      {
        Children(p, Parent(p));
        assert c != pos ==> InOrder(lt, v, c);
      }
    }
  }

  lemma StepDown<T(!new)>(lt: (T, T) -> bool, v: seq<T>, start: nat, pos: nat, child: nat)
    requires StrictWeakOrder(lt) && start <= pos < child < |v| && Parent(child) == pos
    requires HeapExcept(lt, v, start, pos, true)
    requires forall c :: 0 < c < |v| && Parent(c) == pos ==> !lt(v[c], v[child])
    ensures HeapExcept(lt, Swap(v, pos, child), start, child, true)
  {
    var w := Swap(v, pos, child);
    forall i | 0 < i < |w| && start <= Parent(i) && i != child && Parent(i) != child
      ensures InOrder(lt, w, i)
    {
      Children(i, pos);
      assert i != pos && Parent(i) != pos ==> InOrder(lt, v, i);
    }
    forall c | 0 < c < |w| && Parent(c) == child
      ensures !lt(w[c], w[pos])
    {
      Children(c, child);
      assert InOrder(lt, v, c);
    }
  }

  // The hole at pos moves to another slot: with the item put in it, that exchanges the two.
  lemma HoleMoves<T>(items: seq<T>, item: T, pos: nat, to: nat)
    requires pos < |items| && to < |items| && pos != to
    ensures items[pos := items[to]][to := item] == Swap(items[pos := item], pos, to)
    ensures multiset(items[pos := items[to]][to := item]) == multiset(items[pos := item])
  {
    SwapPermutes(items[pos := item], pos, to);
  }

  lemma BelowHole<T(!new)>(lt: (T, T) -> bool, v: seq<T>, start: nat)
    requires start < |v| && HeapFrom(lt, v, start + 1)
    ensures HeapExcept(lt, v, start, start, true)
  {
  }

  lemma AtLeaf<T(!new)>(lt: (T, T) -> bool, v: seq<T>, start: nat, pos: nat)
    requires HeapExcept(lt, v, start, pos, true) && |v| <= 2 * pos + 1
    ensures HeapExcept(lt, v, start, pos, false)
  {
    forall i | 0 < i < |v|
      ensures Parent(i) != pos
    {
      Children(i, pos);
    }
  }

  lemma AtStart<T(!new)>(lt: (T, T) -> bool, v: seq<T>, start: nat, pos: nat)
    requires HeapExcept(lt, v, start, pos, false) && 0 <= pos < |v|
    requires pos == start || (pos > start && Parent(pos) >= start && !lt(v[pos], v[Parent(pos)]))
    ensures HeapFrom(lt, v, start)
  {
    forall i | 0 < i < |v| && start <= Parent(i)
      ensures InOrder(lt, v, i)
    {
      Children(i, start);
    }
  }

  lemma AncestorFacts(start: nat, pos: nat, child: nat)
    requires Ancestor(start, pos)
    ensures start <= pos
    ensures pos > start ==> Ancestor(start, Parent(pos)) && start <= Parent(pos) < pos
    ensures child == 2 * pos + 1 || child == 2 * pos + 2 ==> Ancestor(start, child) && Parent(child) == pos
  {
  }

  lemma StartsThere(start: nat)
    ensures Ancestor(start, start)
  {
  }

  lemma {:induction false} FromTheRoot(pos: nat)
    ensures Ancestor(0, pos)
  {
    if pos > 0 {
      FromTheRoot(Parent(pos));
    }
  }

  lemma SmallerChild<T(!new)>(lt: (T, T) -> bool, v: seq<T>, pos: nat, child: nat)
    requires StrictWeakOrder(lt) && child < |v|
    requires child == 2 * pos + 1 ==> child + 1 < |v| ==> lt(v[child], v[child + 1])
    requires child == 2 * pos + 1 || (child == 2 * pos + 2 && !lt(v[child - 1], v[child]))
    ensures forall c :: 0 < c < |v| && Parent(c) == pos ==> !lt(v[c], v[child])
  {
    forall c | 0 < c < |v| && Parent(c) == pos
      ensures !lt(v[c], v[child])
    {
      Children(c, pos);
    }
  }

  lemma Sinks<T(!new)>(lt: (T, T) -> bool, items: seq<T>, item: T, start: nat, pos: nat, child: nat)
    requires pos < |items| && pos < child < |items| && Ancestor(start, pos)
    requires child == 2 * pos + 1 ==> child + 1 < |items| ==> lt(items[child], items[child + 1])
    requires child == 2 * pos + 1 || (child == 2 * pos + 2 && !lt(items[child - 1], items[child]))
    ensures var next := items[pos := items[child]];
            && multiset(next[child := item]) == multiset(items[pos := item])
            && Ancestor(start, child)
            && (StrictWeakOrder(lt) && HeapExcept(lt, items[pos := item], start, pos, true) ==>
                  HeapExcept(lt, next[child := item], start, child, true))
  {
    hide StrictWeakOrder, HeapExcept, Ancestor, Swap;
    AncestorFacts(start, pos, child);
    HoleMoves(items, item, pos, child);
    var v := items[pos := item];
    if StrictWeakOrder(lt) && HeapExcept(lt, v, start, pos, true) {
      SmallerChild(lt, v, pos, child);
      StepDown(lt, v, start, pos, child);
    }
  }

  lemma Grown<T(!new)>(lt: (T, T) -> bool, v: seq<T>, item: T)
    requires IsHeap(lt, v)
    ensures HeapExcept(lt, v + [item], 0, |v|, false)
  {
    forall i | 0 < i < |v|
      ensures InOrder(lt, v + [item], i)
    {
      assert InOrder(lt, v, i);
    }
  }

  // A heap without its last item, whatever its first.
  lemma Shrunk<T(!new)>(lt: (T, T) -> bool, v: seq<T>)
    requires IsHeap(lt, v) && v != []
    ensures |v| == 1 ==> IsHeap(lt, v[..|v| - 1])
    ensures |v| > 1 ==> HeapFrom(lt, v[..|v| - 1][0 := v[|v| - 1]], 1)
  {
    if |v| > 1 {
      var w := v[..|v| - 1][0 := v[|v| - 1]];
      forall i | 0 < i < |w| && 1 <= Parent(i)
        ensures InOrder(lt, w, i)
      {
        assert InOrder(lt, v, i);
      }
    }
  }

  lemma LastToFirst<T>(v: seq<T>)
    requires v != []
    ensures |v| == 1 ==> multiset(v) == multiset(v[..|v| - 1]) + multiset{v[0]}
    ensures |v| > 1 ==> multiset(v) == multiset(v[..|v| - 1][0 := v[|v| - 1]]) + multiset{v[0]}
  {
    assert v == v[..|v| - 1] + [v[|v| - 1]];
  }

  lemma {:induction false} RootIsLeast<T(!new)>(lt: (T, T) -> bool, v: seq<T>, i: nat)
    requires StrictWeakOrder(lt) && IsHeap(lt, v) && i < |v|
    ensures !lt(v[i], v[0])
    decreases i
  {
    if i > 0 {
      RootIsLeast(lt, v, Parent(i));
      assert InOrder(lt, v, i);
    }
  }

  lemma NoneIsLess<T(!new)>(lt: (T, T) -> bool, v: seq<T>)
    requires StrictWeakOrder(lt) && IsHeap(lt, v) && v != []
    ensures forall y :: y in v ==> !lt(y, v[0])
  {
    forall i: nat | i < |v|
      ensures !lt(v[i], v[0])
    {
      RootIsLeast(lt, v, i);
    }
  }

  // ---- the heap as an object

  class Heap<T(!new)> {
    const lt: (T, T) -> bool
    var items: seq<T>

    constructor (lt: (T, T) -> bool, items: seq<T>)
      ensures this.lt == lt && this.items == items
    {
      this.lt := lt;
      this.items := items;
    }

    method SiftDown(start: nat, pos: nat)
      requires start <= pos < |items| && Ancestor(start, pos)
      modifies this
      ensures |items| == |old(items)| && multiset(items) == multiset(old(items))
      ensures StrictWeakOrder(lt) && old(HeapExcept(lt, items, start, pos, false)) ==> HeapFrom(lt, items, start)
    {
      hide StrictWeakOrder, HeapExcept, HeapFrom, Ancestor, Swap, InOrder;
      var item := items[pos];
      assert items[pos := item] == items;
      var at: nat := pos;
      ghost var good := StrictWeakOrder(lt) && HeapExcept(lt, items, start, pos, false);
      AncestorFacts(start, pos, 0);
      while at > start
        invariant start <= at < |items| == |old(items)| && Ancestor(start, at)
        invariant multiset(items[at := item]) == multiset(old(items))
        invariant good ==> HeapExcept(lt, items[at := item], start, at, false)
      {
        var parentPos: nat := (at - 1) / 2;
        var parent := items[parentPos];
        AncestorFacts(start, at, 0);
        if lt(item, parent) {
          if good {
            StepUp(lt, items[at := item], start, at);
          }
          HoleMoves(items, item, at, parentPos);
          items := items[at := parent];
          at := parentPos;
        } else {
          break;
        }
      }
      if good {
        AtStart(lt, items[at := item], start, at);
      }
      items := items[at := item];
    }

    // The hole sinks to a leaf, then the item is sifted back.
    method SiftUp(start: nat)
      requires start < |items|
      modifies this
      ensures |items| == |old(items)| && multiset(items) == multiset(old(items))
      ensures StrictWeakOrder(lt) && old(HeapFrom(lt, items, start + 1)) ==> HeapFrom(lt, items, start)
    {
      hide StrictWeakOrder, HeapExcept, HeapFrom, Ancestor, Swap, InOrder;
      var pos := start;
      var endPos := |items|;
      var item := items[pos];
      assert items[pos := item] == items;
      ghost var good := StrictWeakOrder(lt) && HeapFrom(lt, items, start + 1);
      if good {
        BelowHole(lt, items, start);
      }
      StartsThere(start);
      var childPos: nat := 2 * pos + 1;
      while childPos < endPos
        invariant start <= pos < endPos == |items| == |old(items)| && Ancestor(start, pos)
        invariant childPos == 2 * pos + 1
        invariant multiset(items[pos := item]) == multiset(old(items))
        invariant good ==> HeapExcept(lt, items[pos := item], start, pos, true)
        decreases endPos - pos
      {
        if childPos + 1 < endPos && !lt(items[childPos], items[childPos + 1]) {
          childPos := childPos + 1;
        }
        Sinks(lt, items, item, start, pos, childPos);
        items := items[pos := items[childPos]];
        pos := childPos;
        childPos := 2 * pos + 1;
      }
      if good {
        AtLeaf(lt, items[pos := item], start, pos);
      }
      items := items[pos := item];
      SiftDown(start, pos);
    }

    method HeapPush(item: T)
      modifies this
      ensures multiset(items) == multiset(old(items)) + multiset{item}
      ensures StrictWeakOrder(lt) && old(IsHeap(lt, items)) ==> IsHeap(lt, items)
    {
      hide StrictWeakOrder, HeapExcept, HeapFrom, Ancestor;
      if IsHeap(lt, items) {
        Grown(lt, items, item);
      }
      items := items + [item];
      FromTheRoot(|items| - 1);
      SiftDown(0, |items| - 1);
    }

    // None where the source raises an IndexError.
    method HeapPop() returns (r: Option<T>)
      modifies this
      ensures r.None? <==> old(items) == []
      ensures r.None? ==> items == []
      ensures r.Some? ==> r.value == old(items)[0] && multiset(old(items)) == multiset(items) + multiset{r.value}
      ensures StrictWeakOrder(lt) && old(IsHeap(lt, items)) && r.Some? ==> Popped(lt, old(items), r.value, items)
    {
      hide StrictWeakOrder, HeapExcept, HeapFrom, Ancestor, InOrder;
      if |items| == 0 {
        return None;
      }
      var item := items[0];
      var last := items[|items| - 1];
      ghost var good := StrictWeakOrder(lt) && IsHeap(lt, items);
      if good {
        Shrunk(lt, items);
        NoneIsLess(lt, items);
      }
      LastToFirst(items);
      items := items[..|items| - 1];
      if |items| > 0 {
        items := items[0 := last];
        SiftUp(0);
      }
      return Some(item);
    }

    method Heapify()
      modifies this
      ensures multiset(items) == multiset(old(items))
      ensures StrictWeakOrder(lt) ==> IsHeap(lt, items)
    {
      var i: nat := |items| / 2;
      while i > 0
        invariant |items| == |old(items)| && i <= |items| / 2
        invariant multiset(items) == multiset(old(items))
        invariant StrictWeakOrder(lt) ==> HeapFrom(lt, items, i)
      {
        i := i - 1;
        SiftUp(i);
      }
    }
  }

  // ---- what a pop takes

  // A heap from which the least item x was taken leaving another heap.
  ghost predicate Popped<T(!new)>(lt: (T, T) -> bool, before: seq<T>, x: T, after: seq<T>) {
    && multiset(before) == multiset(after) + multiset{x}
    && IsHeap(lt, after)
    && forall y :: y in before ==> !lt(y, x)
  }

  ghost predicate Sorted<T>(lt: (T, T) -> bool, s: seq<T>) {
    forall i, j :: 0 <= i < j < |s| ==> !lt(s[j], s[i])
  }

  // The lists between pops, and what each pop took.
  ghost predicate PopRun<T(!new)>(lt: (T, T) -> bool, lists: seq<seq<T>>, taken: seq<T>) {
    && |lists| == |taken| + 1
    && forall k :: 0 <= k < |taken| ==> Popped(lt, lists[k], taken[k], lists[k + 1])
  }

  lemma TailOfRun<T(!new)>(lt: (T, T) -> bool, lists: seq<seq<T>>, taken: seq<T>)
    requires PopRun(lt, lists, taken) && taken != []
    ensures PopRun(lt, lists[1..], taken[1..]) && Popped(lt, lists[0], taken[0], lists[1])
  {
    hide Popped;
  }

  lemma {:induction false} PopsConserve<T(!new)>(lt: (T, T) -> bool, lists: seq<seq<T>>, taken: seq<T>)
    requires PopRun(lt, lists, taken)
    ensures multiset(lists[0]) == multiset(taken) + multiset(lists[|taken|])
    decreases |taken|
  {
    hide IsHeap, HeapFrom, InOrder;
    if taken != [] {
      hide PopRun;
      TailOfRun(lt, lists, taken);
      PopsConserve(lt, lists[1..], taken[1..]);
      assert taken == [taken[0]] + taken[1..];
    }
  }

  // Popping takes items out in order, and loses none.
  lemma {:induction false} PopsInOrder<T(!new)>(lt: (T, T) -> bool, lists: seq<seq<T>>, taken: seq<T>)
    requires PopRun(lt, lists, taken)
    ensures multiset(lists[0]) == multiset(taken) + multiset(lists[|taken|])
    ensures Sorted(lt, taken)
    decreases |taken|
  {
    hide IsHeap, HeapFrom, InOrder;
    PopsConserve(lt, lists, taken);
    if taken != [] {
      hide PopRun, Sorted;
      var x, rest := taken[0], taken[1..];
      TailOfRun(lt, lists, taken);
      PopsInOrder(lt, lists[1..], rest);
      forall j | 0 <= j < |rest|
        ensures !lt(rest[j], x)
      {
        assert rest[j] == taken[j + 1];
        assert taken[j + 1] in multiset(taken);
        assert taken[j + 1] in multiset(lists[0]);
        assert taken[j + 1] in lists[0];
      }
      SortedCons(lt, x, rest);
      assert taken == [x] + rest;
    }
  }

  lemma SortedCons<T>(lt: (T, T) -> bool, x: T, rest: seq<T>)
    requires Sorted(lt, rest) && forall j :: 0 <= j < |rest| ==> !lt(rest[j], x)
    ensures Sorted(lt, [x] + rest)
  {
  }

  // Popping until nothing is left sorts.
  lemma HeapSort<T(!new)>(lt: (T, T) -> bool, lists: seq<seq<T>>, taken: seq<T>)
    requires PopRun(lt, lists, taken) && lists[|taken|] == []
    ensures multiset(taken) == multiset(lists[0]) && Sorted(lt, taken)
  {
    PopsInOrder(lt, lists, taken);
  }

  // Pops until the list is empty.
  method PopAll<T(!new)>(h: Heap<T>) returns (taken: seq<T>)
    requires StrictWeakOrder(h.lt) && IsHeap(h.lt, h.items)
    modifies h
    ensures h.items == [] && multiset(taken) == multiset(old(h.items)) && Sorted(h.lt, taken)
  {
    hide StrictWeakOrder, IsHeap, Popped, Sorted;
    taken := [];
    ghost var lists := [h.items];
    while |h.items| > 0
      invariant IsHeap(h.lt, h.items)
      invariant PopRun(h.lt, lists, taken) && lists[0] == old(h.items) && lists[|taken|] == h.items
      decreases |h.items|
    {
      ghost var before := h.items;
      var r := h.HeapPop();
      PoppedKeeps(h.lt, before, r.value, h.items);
      taken, lists := taken + [r.value], lists + [h.items];
    }
    HeapSort(h.lt, lists, taken);
  }

  lemma PoppedKeeps<T(!new)>(lt: (T, T) -> bool, before: seq<T>, x: T, after: seq<T>)
    requires Popped(lt, before, x, after)
    ensures IsHeap(lt, after) && |before| == |after| + 1
  {
    assert |multiset(before)| == |multiset(after) + multiset{x}|;
  }

  // Heapify and then pop: any list comes out sorted.
  method SortList<T(!new)>(lt: (T, T) -> bool, items: seq<T>) returns (sorted: seq<T>)
    requires StrictWeakOrder(lt)
    ensures multiset(sorted) == multiset(items) && Sorted(lt, sorted)
  {
    var h := new Heap(lt, items);
    h.Heapify();
    sorted := PopAll(h);
  }
}
