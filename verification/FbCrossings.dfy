/**
  The scan line of the polygon fill on numbers alone: where the edges cross a row, that they do
  so an even number of times, sorting the crossings in place, and which pixels lie between them.
 */
module FbCrossings {
  import opened Arith

  // ---- C division truncates toward zero

  function Quot(a: int, b: int): int
    requires b != 0
  {
    if a >= 0 then (if b > 0 then a / b else -(a / -b)) else (if b > 0 then -(-a / b) else -a / -b)
  }

  // ---- the edges, from the vertex list as a flat array of coordinates

  // An odd number of values is rounded down to whole vertices.
  function VertexCount(coords: seq<int>): nat {
    |coords| / 2
  }

  datatype Edge = Edge(px1: int, py1: int, px2: int, py2: int)

  // The loop walks the vertices backwards from the last to vertex 0, starting at vertex 0.
  function EdgeAt(coords: seq<int>, j: nat): Edge
    requires j < VertexCount(coords)
  {
    var n := VertexCount(coords);
    var from, to := if j == 0 then 0 else n - j, n - 1 - j;
    Edge(coords[2 * from], coords[2 * from + 1], coords[2 * to], coords[2 * to + 1])
  }

  predicate Crosses(e: Edge, row: int) {
    e.py1 != e.py2 && ((e.py1 > row && e.py2 <= row) || (e.py1 <= row && e.py2 > row))
  }

  // The column at which an edge crosses a row, by integer interpolation.
  function Node(e: Edge, row: int): int
    requires e.py1 != e.py2
  {
    Quot(32 * e.px1 + Quot(32 * (e.px2 - e.px1) * (row - e.py1), e.py2 - e.py1) + 16, 32)
  }

  function Crossings(coords: seq<int>, row: int, n: nat): (nodes: seq<int>)
    requires n <= VertexCount(coords)
    ensures |nodes| <= n
  {
    if n == 0 then []
    else
      Crossings(coords, row, n - 1)
      + (if Crosses(EdgeAt(coords, n - 1), row) then [Node(EdgeAt(coords, n - 1), row)] else [])
  }

  // ---- how far a node is from where the edge crosses the row

  // The column of the crossing in 32nds, cut toward the first vertex, and the half added to it.
  function Scaled(e: Edge, row: int): int
    requires e.py1 != e.py2
  {
    32 * e.px1 + Quot(32 * (e.px2 - e.px1) * (row - e.py1), e.py2 - e.py1) + 16
  }

  // Division rounds down, but toward zero below it.
  lemma QuotRounds(a: int)
    ensures Quot(a, 32) == if a >= 0 || a % 32 == 0 then a / 32 else a / 32 + 1
  {
    if a < 0 {
      Fundamental(a, 32);
      if a % 32 == 0 {
        DivMod(-(a / 32), 0, 32);
      } else {
        DivMod(-(a / 32) - 1, 32 - a % 32, 32);
      }
    }
  }

  // A node is the crossing rounded to the nearest column exactly when the scaled column is not
  // negative or a whole number of columns; else it is one column further right.
  lemma NodeRounds(e: Edge, row: int)
    requires e.py1 != e.py2
    ensures Node(e, row) == Scaled(e, row) / 32 <==> Scaled(e, row) >= 0 || Scaled(e, row) % 32 == 0
    ensures Node(e, row) == Scaled(e, row) / 32 || Node(e, row) == Scaled(e, row) / 32 + 1
  {
    QuotRounds(Scaled(e, row));
  }

  lemma Negations(x: int, y: int)
    ensures -x * y == -(x * y) && x * -y == -(x * y) && -x * -y == x * y
  {
  }

  lemma QuotNear(a: int, b: int)
    requires b != 0
    ensures -Abs(b) < Quot(a, b) * b - a < Abs(b)
  {
    var x := Abs(a) / Abs(b);
    Fundamental(Abs(a), Abs(b));
    Negations(x, Abs(b));
    QuotTimes(a, b);
  }

  lemma QuotTimes(a: int, b: int)
    requires b != 0
    ensures Quot(a, b) * b == (if a >= 0 then 1 else -1) * (Abs(a) / Abs(b) * Abs(b))
  {
    var x, q := Abs(a) / Abs(b), Abs(b);
    Negations(x, q);
    assert Quot(a, b) == if (a >= 0) == (b > 0) then x else -x;
    assert b == if b > 0 then q else -q;
  }

  // What C asks of division: the remainder is smaller than the divisor and has the sign of the
  // dividend.
  lemma QuotTruncates(a: int, b: int)
    requires b != 0
    ensures var r := a - Quot(a, b) * b;
            Abs(r) < Abs(b) && (r > 0 ==> a > 0) && (r < 0 ==> a < 0)
  {
    hide Quot, Abs;
    QuotTimes(a, b);
    PositiveAbs(b);
    Fundamental(Abs(a), Abs(b));
    QuotientNonNegative(Abs(a), Abs(b));
    NonNegative(Abs(a) / Abs(b), Abs(b));
    var x := Abs(a) / Abs(b) * Abs(b);
    SignedRemainder(a, Quot(a, b) * b, x, Abs(a) % Abs(b), Abs(b));
  }

  lemma PositiveAbs(b: int)
    requires b != 0
    ensures Abs(b) > 0
  {
  }

  lemma SignedRemainder(a: int, p: int, x: int, rest: int, d: int)
    requires Abs(a) == x + rest && 0 <= rest < d && x >= 0
    requires p == (if a >= 0 then 1 else -1) * x
    ensures Abs(a - p) < d && (a - p > 0 ==> a > 0) && (a - p < 0 ==> a < 0)
  {
  }

  // How far right of the crossing a node is, in 32nds of a column times the height of the edge.
  function Off(e: Edge, row: int): int
    requires e.py1 != e.py2
  {
    var d := e.py2 - e.py1;
    (if d > 0 then 1 else -1) * (32 * (Node(e, row) - e.px1) * d - 32 * (e.px2 - e.px1) * (row - e.py1))
  }

  // A node rounded to the nearest column is within 17/32 of a column of the crossing; any other
  // is between 1/2 and 3/2 of a column to the right of it.
  lemma NodeDistance(e: Edge, row: int)
    requires e.py1 != e.py2
    ensures var d := Abs(e.py2 - e.py1);
            if Scaled(e, row) >= 0 || Scaled(e, row) % 32 == 0 then -17 * d < Off(e, row) < 17 * d
            else 16 * d < Off(e, row) < 48 * d
  {
    var d := e.py2 - e.py1;
    var n := 32 * (e.px2 - e.px1) * (row - e.py1);
    var t := Quot(n, d);
    QuotNear(n, d);
    QuotRounds(Scaled(e, row));
    var g := 32 * (Node(e, row) - e.px1) - t;
    assert 32 * (Node(e, row) - e.px1) * d == g * d + t * d by {
      Distribute(g, t, d);
    }
    if Scaled(e, row) >= 0 || Scaled(e, row) % 32 == 0 {
      assert -16 < g <= 16;
      Between(-16, g, 16, d);
    } else {
      assert 17 <= g <= 47;
      Between(17, g, 47, d);
    }
  }

  lemma Between(a: int, g: int, b: int, d: int)
    requires a <= g <= b
    ensures a * Abs(d) <= g * Abs(d) <= b * Abs(d)
    ensures g * d == if d < 0 then -(g * Abs(d)) else g * Abs(d)
  {
    Monotone(a, g, Abs(d));
    Monotone(g, b, Abs(d));
  }

  // A vertical edge is met in its own column exactly when that is not negative, and one column
  // further right otherwise.
  lemma VerticalEdge(e: Edge, row: int)
    requires Crosses(e, row) && e.px1 == e.px2
    ensures Node(e, row) == if e.px1 >= 0 then e.px1 else e.px1 + 1
  {
    assert 32 * (e.px2 - e.px1) * (row - e.py1) == 0;
    QuotZero(e.py2 - e.py1);
    QuotRounds(32 * e.px1 + 16);
  }

  // For one: column -5 from row 0 to row 10.
  lemma NegativeColumn()
    ensures Node(Edge(-5, 0, -5, 10), 3) == -4
  {
    VerticalEdge(Edge(-5, 0, -5, 10), 3);
  }

  lemma QuotZero(d: int)
    requires d != 0
    ensures Quot(0, d) == 0
  {
  }

  // Moving a polygon by k columns moves a node by k exactly when both are rounded alike.
  lemma ShiftedNode(e: Edge, row: int, k: int)
    requires e.py1 != e.py2
    ensures Node(Edge(e.px1 + k, e.py1, e.px2 + k, e.py2), row) == Node(e, row) + k <==>
            Scaled(e, row) % 32 == 0 || (Scaled(e, row) >= 0 <==> Scaled(e, row) + 32 * k >= 0)
  {
    var a := Scaled(e, row);
    assert Scaled(Edge(e.px1 + k, e.py1, e.px2 + k, e.py2), row) == a + 32 * k;
    Fundamental(a, 32);
    DivMod(a / 32 + k, a % 32, 32);
    QuotRounds(a);
    QuotRounds(a + 32 * k);
  }

  // Each edge begins where the one before it ends.
  lemma EdgesJoin(coords: seq<int>, j: nat)
    requires 0 < j < VertexCount(coords)
    ensures EdgeAt(coords, j).py1 == EdgeAt(coords, j - 1).py2
  {
  }

  // An edge crosses a row when its ends are on different sides.
  lemma CrossesSides(e: Edge, row: int)
    ensures Crosses(e, row) <==> (e.py1 > row) != (e.py2 > row)
  {
  }

  lemma OneMoreEdge(coords: seq<int>, row: int, n: nat)
    requires 0 < n <= VertexCount(coords)
    ensures |Crossings(coords, row, n)| ==
            |Crossings(coords, row, n - 1)| + if Crosses(EdgeAt(coords, n - 1), row) then 1 else 0
  {
    hide EdgeAt, Node;
  }

  // A walk along n edges has crossed the row an odd number of times when its ends are on
  // opposite sides.
  lemma {:induction false} ParityOfWalk(coords: seq<int>, row: int, n: nat)
    requires 0 < n <= VertexCount(coords)
    ensures |Crossings(coords, row, n)| % 2 ==
            if (coords[1] > row) == (EdgeAt(coords, n - 1).py2 > row) then 0 else 1
  {
    hide Crossings, Crosses;
    OneMoreEdge(coords, row, n);
    CrossesSides(EdgeAt(coords, n - 1), row);
    if n > 1 {
      hide EdgeAt;
      ParityOfWalk(coords, row, n - 1);
      EdgesJoin(coords, n - 1);
    } else {
      NoCrossings(coords, row);
    }
  }

  lemma NoCrossings(coords: seq<int>, row: int)
    ensures Crossings(coords, row, 0) == []
  {
  }

  // The walk around the polygon returns to where it began.
  lemma EvenCrossings(coords: seq<int>, row: int)
    ensures |Crossings(coords, row, VertexCount(coords))| % 2 == 0
    ensures |Crossings(coords, row, VertexCount(coords))| <= VertexCount(coords)
  {
    if VertexCount(coords) > 0 {
      ParityOfWalk(coords, row, VertexCount(coords));
    }
  }

  // ---- sorting

  ghost predicate Sorted(s: seq<int>) {
    forall i, j :: 0 <= i <= j < |s| ==> s[i] <= s[j]
  }

  function CountAbove(s: seq<int>, v: int): nat {
    if s == [] then 0 else CountAbove(s[..|s| - 1], v) + (if s[|s| - 1] > v then 1 else 0)
  }

  function Inversions(s: seq<int>): nat {
    if s == [] then 0 else Inversions(s[..|s| - 1]) + CountAbove(s[..|s| - 1], s[|s| - 1])
  }

  function SwapNext(s: seq<int>, i: nat): seq<int>
    requires i + 1 < |s|
  {
    s[i := s[i + 1]][i + 1 := s[i]]
  }

  lemma {:induction false} CountAfterSwap(s: seq<int>, i: nat, v: int)
    requires i + 1 < |s|
    ensures CountAbove(SwapNext(s, i), v) == CountAbove(s, v)
  {
    var t := SwapNext(s, i);
    var n := |s|;
    if i + 2 < n {
      assert t[..n - 1] == SwapNext(s[..n - 1], i);
      CountAfterSwap(s[..n - 1], i, v);
    } else {
      assert t[..n - 1][..n - 2] == s[..n - 1][..n - 2];
    }
  }

  // Exchanging two neighbours that are out of order removes one inversion.
  lemma {:induction false} SwapRemovesInversion(s: seq<int>, i: nat)
    requires i + 1 < |s| && s[i] > s[i + 1]
    ensures Inversions(SwapNext(s, i)) == Inversions(s) - 1
  {
    var t := SwapNext(s, i);
    var n := |s|;
    if i + 2 < n {
      assert t[..n - 1] == SwapNext(s[..n - 1], i);
      SwapRemovesInversion(s[..n - 1], i);
      CountAfterSwap(s[..n - 1], i, s[n - 1]);
    } else {
      assert t[..n - 1][..n - 2] == s[..n - 1][..n - 2];
    }
  }

  lemma SwapPermutes(s: seq<int>, i: nat)
    requires i + 1 < |s|
    ensures multiset(SwapNext(s, i)) == multiset(s)
  {
  }

  ghost predicate Ascending(s: seq<int>, n: int)
    requires n < |s| || n == 0
  {
    forall j :: 0 <= j < n ==> s[j] <= s[j + 1]
  }

  method Exchange(nodes: array<int>, n: nat, i: nat)
    requires n <= nodes.Length && i + 1 < n
    modifies nodes
    ensures nodes[..n] == SwapNext(old(nodes[..n]), i)
  {
    nodes[i], nodes[i + 1] := nodes[i + 1], nodes[i];
  }

  // Sorts the first n elements by exchanging neighbours and stepping back.
  method SortNodes(nodes: array<int>, n: nat)
    requires n <= nodes.Length
    modifies nodes
    ensures Sorted(nodes[..n]) && multiset(nodes[..n]) == multiset(old(nodes[..n]))
  {
    hide Inversions, Sorted;
    var i := 0;
    while i < n - 1
      invariant 0 <= i && if n == 0 then i == 0 else i < n
      invariant Ascending(nodes[..n], i)
      invariant multiset(nodes[..n]) == multiset(old(nodes[..n]))
      decreases Inversions(nodes[..n]), n - i
    {
      ghost var s := nodes[..n];
      assert nodes[i] == s[i] && nodes[i + 1] == s[i + 1];
      if nodes[i] > nodes[i + 1] {
        SwapRemovesInversion(s, i);
        SwapPermutes(s, i);
        Exchange(nodes, n, i);
        if i > 0 {
          i := i - 1;
        }
      } else {
        i := i + 1;
      }
    }
    StepwiseSorted(nodes[..n]);
  }

  lemma {:induction false} StepwiseSorted(s: seq<int>)
    requires forall j :: 0 <= j < |s| - 1 ==> s[j] <= s[j + 1]
    ensures Sorted(s)
  {
    if s != [] {
      var t := s[..|s| - 1];
      StepwiseSorted(t);
      forall i, j | 0 <= i <= j < |s| ensures s[i] <= s[j] {
        if i < j == |s| - 1 {
          assert t[i] <= t[|t| - 1] == s[j - 1];
        } else if j < |t| {
          assert t[i] <= t[j];
        }
      }
    }
  }

  // ---- the pixels between the crossings

  function CountUpTo(s: seq<int>, v: int): nat {
    if s == [] then 0 else CountUpTo(s[..|s| - 1], v) + (if s[|s| - 1] <= v then 1 else 0)
  }

  // Even-odd rule: inside when an odd number of crossings is at or left of the pixel, and the
  // crossings themselves belong to the inside.
  predicate EvenOdd(nodes: seq<int>, c: int) {
    CountUpTo(nodes, c) % 2 == 1 || c in nodes
  }

  // Between the two crossings of one of the first m consecutive pairs.
  ghost predicate InSpan(nodes: seq<int>, c: int, m: nat)
    requires |nodes| % 2 == 0
  {
    exists k: nat :: 2 * k + 1 < |nodes| && k < m && nodes[2 * k] <= c <= nodes[2 * k + 1]
  }

  lemma {:induction false} CountInSorted(s: seq<int>, v: int)
    requires Sorted(s)
    ensures CountUpTo(s, v) <= |s|
    ensures forall i :: 0 <= i < |s| ==> (s[i] <= v <==> i < CountUpTo(s, v))
  {
    if s != [] {
      CountInSorted(s[..|s| - 1], v);
    }
  }

  // Filling between the pairs of the sorted crossings is the even-odd rule.
  lemma SpansAreEvenOdd(s: seq<int>, c: int)
    requires Sorted(s) && |s| % 2 == 0
    ensures InSpan(s, c, |s| / 2) <==> EvenOdd(s, c)
  {
    CountInSorted(s, c);
    var j := CountUpTo(s, c);
    if j % 2 == 1 {
      var k := (j - 1) / 2;
      assert s[2 * k] <= c <= s[2 * k + 1];
    } else {
      if c in s {
        var i :| 0 <= i < |s| && s[i] == c;
        var k := (j - 2) / 2;
        assert s[i] <= s[j - 1] <= c;
        assert s[2 * k] <= c <= s[2 * k + 1];
      }
      if InSpan(s, c, |s| / 2) {
        var k: nat :| 2 * k + 1 < |s| && s[2 * k] <= c <= s[2 * k + 1];
        assert 2 * k < j;
        assert s[2 * k + 1] <= c;
      }
    }
  }

  lemma {:induction false} CountAppend(a: seq<int>, b: seq<int>, v: int)
    ensures CountUpTo(a + b, v) == CountUpTo(a, v) + CountUpTo(b, v)
  {
    if b == [] {
      assert a + b == a;
    } else {
      assert (a + b)[..|a + b| - 1] == a + b[..|b| - 1];
      CountAppend(a, b[..|b| - 1], v);
    }
  }

  lemma CountWithout(t: seq<int>, i: nat, v: int)
    requires i < |t|
    ensures CountUpTo(t, v) == CountUpTo(t[..i] + t[i + 1..], v) + CountUpTo([t[i]], v)
  {
    hide CountUpTo;
    var a, b := t[..i], t[i + 1..];
    assert t == a + ([t[i]] + b);
    CountAppend(a, [t[i]] + b, v);
    CountAppend([t[i]], b, v);
    CountAppend(a, b, v);
  }

  lemma MultisetWithout(t: seq<int>, i: nat)
    requires i < |t|
    ensures multiset(t[..i] + t[i + 1..]) == multiset(t) - multiset{t[i]}
  {
    assert t == t[..i] + ([t[i]] + t[i + 1..]);
  }

  // The rule does not depend on the order of the crossings.
  lemma {:induction false} CountOfPermutation(s: seq<int>, t: seq<int>, v: int)
    requires multiset(s) == multiset(t)
    ensures CountUpTo(s, v) == CountUpTo(t, v)
  {
    if s == [] {
      assert |multiset(t)| == 0;
    } else {
      hide CountUpTo;
      var n := |s| - 1;
      assert s[n] in multiset(s);
      var i :| 0 <= i < |t| && t[i] == s[n];
      MultisetWithout(s, n);
      MultisetWithout(t, i);
      CountWithout(s, n, v);
      CountWithout(t, i, v);
      CountOfPermutation(s[..n] + s[n + 1..], t[..i] + t[i + 1..], v);
    }
  }

  lemma EvenOddOfPermutation(s: seq<int>, t: seq<int>, c: int)
    requires multiset(s) == multiset(t)
    ensures EvenOdd(s, c) <==> EvenOdd(t, c)
  {
    CountOfPermutation(s, t, c);
    assert c in s <==> c in multiset(s);
    assert c in t <==> c in multiset(t);
  }
}
