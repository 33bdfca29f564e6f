/** Transfers over several buffers on ports whose transfers take a single one. */
module I2cAdaptor {
  import opened Sequences

  ghost predicate Distinct(bufs: seq<array<nat>>) {
    forall i, j :: 0 <= i < j < |bufs| ==> bufs[i] != bufs[j]
  }

  ghost function Contents(bufs: seq<array<nat>>): (c: seq<seq<nat>>)
    reads bufs
    ensures |c| == |bufs| && forall i :: 0 <= i < |bufs| ==> c[i] == bufs[i][..]
  {
    seq(|bufs|, i requires 0 <= i < |bufs| reads bufs => bufs[i][..])
  }

  function Sizes(bufs: seq<array<nat>>): nat {
    if bufs == [] then 0 else Sizes(bufs[..|bufs| - 1]) + bufs[|bufs| - 1].Length
  }

  // What the port does with the one buffer: its result and what it leaves in the buffer. A
  // write leaves the buffer alone.
  type Single = seq<nat> -> (int, seq<nat>)

  ghost predicate KeepsLength(single: Single) {
    forall s :: |single(s).1| == |s|
  }

  method Gather(bufs: seq<array<nat>>) returns (buf: seq<nat>)
    ensures buf == Concat(Contents(bufs))
  {
    buf := [];
    for i := 0 to |bufs|
      invariant buf == Concat(Contents(bufs)[..i])
    {
      ConcatSnoc(Contents(bufs)[..i], bufs[i][..]);
      assert Contents(bufs)[..i + 1] == Contents(bufs)[..i] + [bufs[i][..]];
      buf := buf + bufs[i][..];
    }
    assert Contents(bufs)[..|bufs|] == Contents(bufs);
  }

  method CopyOut(buf: seq<nat>, from: nat, out: array<nat>)
    requires from + out.Length <= |buf|
    modifies out
    ensures out[..] == buf[from..from + out.Length]
  {
    for j := 0 to out.Length
      invariant out[..j] == buf[from..from + j]
    {
      out[j] := buf[from + j];
      assert out[..j + 1] == out[..j] + [out[j]];
    }
  }

  // The part of the one buffer that goes to buffer i.
  function Part(buf: seq<nat>, bufs: seq<array<nat>>, i: nat): (p: seq<nat>)
    requires i < |bufs| && |buf| == Sizes(bufs)
    ensures |p| == bufs[i].Length
  {
    SizesUpTo(bufs, i);
    buf[Sizes(bufs[..i])..Sizes(bufs[..i]) + bufs[i].Length]
  }

  // Where a buffer stands for the last time among the first n.
  ghost predicate LastUse(bufs: seq<array<nat>>, i: nat, n: nat) {
    i < n <= |bufs| && forall j :: i < j < n ==> bufs[j] != bufs[i]
  }

  // A buffer that stands in the list more than once keeps what it got last.
  method Scatter(buf: seq<nat>, bufs: seq<array<nat>>)
    requires |buf| == Sizes(bufs)
    modifies bufs
    ensures forall i: nat :: LastUse(bufs, i, |bufs|) ==> bufs[i][..] == Part(buf, bufs, i)
  {
    hide Sizes, Part;
    Nothing();
    var len: nat := 0;
    assert bufs[..|bufs|] == bufs;
    assert bufs[..0] == [];
    for n := 0 to |bufs|
      invariant len == Sizes(bufs[..n]) <= |buf|
      invariant forall i: nat :: LastUse(bufs, i, n) ==> bufs[i][..] == Part(buf, bufs, i)
    {
      SizesUpTo(bufs, n);
      ThePart(buf, bufs, n);
      CopyOut(buf, len, bufs[n]);
      forall i: nat | LastUse(bufs, i, n + 1)
        ensures bufs[i][..] == Part(buf, bufs, i)
      {
        assert i < n ==> LastUse(bufs, i, n) && bufs[i] != bufs[n];
      }
      len := len + bufs[n].Length;
    }
  }

  lemma ThePart(buf: seq<nat>, bufs: seq<array<nat>>, i: nat)
    requires i < |bufs| && |buf| == Sizes(bufs)
    ensures Sizes(bufs[..i]) + bufs[i].Length <= |buf|
    ensures Part(buf, bufs, i) == buf[Sizes(bufs[..i])..Sizes(bufs[..i]) + bufs[i].Length]
  {
    SizesUpTo(bufs, i);
  }

  // Buffers that all differ hold the parts one after the other.
  lemma {:induction false} PartsJoin(buf: seq<nat>, bufs: seq<array<nat>>, n: nat)
    requires n <= |bufs| && |buf| == Sizes(bufs)
    requires forall i: nat :: i < n ==> bufs[i][..] == Part(buf, bufs, i)
    ensures Sizes(bufs[..n]) <= |buf| && Concat(Contents(bufs[..n])) == buf[..Sizes(bufs[..n])]
  {
    hide Concat, Sizes, Part;
    Nothing();
    if n == 0 {
      assert bufs[..0] == [];
    } else {
      PartsJoin(buf, bufs, n - 1);
      SizesUpTo(bufs, n - 1);
      ThePart(buf, bufs, n - 1);
      ConcatSnoc(Contents(bufs[..n - 1]), bufs[n - 1][..]);
      assert Contents(bufs[..n]) == Contents(bufs[..n - 1]) + [bufs[n - 1][..]];
    }
  }

  lemma Nothing()
    ensures Concat<nat>([]) == [] && Sizes([]) == 0
  {
  }

  lemma {:induction false} SizesUpTo(bufs: seq<array<nat>>, i: nat)
    requires i < |bufs|
    ensures Sizes(bufs[..i + 1]) == Sizes(bufs[..i]) + bufs[i].Length
    ensures Sizes(bufs[..i + 1]) <= Sizes(bufs)
    decreases |bufs|
  {
    assert bufs[..i + 1][..i] == bufs[..i];
    var n := |bufs| - 1;
    if i < n {
      SizesUpTo(bufs[..n], i);
      assert bufs[..n][..i + 1] == bufs[..i + 1];
    } else {
      assert bufs[..i + 1] == bufs;
    }
  }

  // mp_machine_i2c_transfer_adaptor: one transfer of the buffers put together, whatever a new
  // buffer holds at first. A read then fills the buffers with what was read, in order.
  method TransferAdaptor(bufs: seq<array<nat>>, read: bool, single: Single, made: seq<nat>) returns (ret: int)
    requires KeepsLength(single) && |made| == Sizes(bufs)
    modifies bufs
    ensures !read ==> ret == single(old(Concat(Contents(bufs)))).0 && Contents(bufs) == old(Contents(bufs))
    ensures read ==>
      var given := if |bufs| == 1 then old(Concat(Contents(bufs))) else made;
      && ret == single(given).0 && |single(given).1| == Sizes(bufs)
      && (forall i: nat :: LastUse(bufs, i, |bufs|) ==> bufs[i][..] == Part(single(given).1, bufs, i))
      && (Distinct(bufs) ==> Concat(Contents(bufs)) == single(given).1)
  {
    hide KeepsLength, Part;
    var buf := made;
    if |bufs| == 1 {
      OneBuffer(bufs);
      buf := bufs[0][..];
    } else if !read {
      buf := Gather(bufs);
    }
    var result := single(buf);
    ret := result.0;
    if read {
      SameLength(single, buf);
      Scatter(result.1, bufs);
      if Distinct(bufs) {
        forall i: nat | i < |bufs|
          ensures bufs[i][..] == Part(result.1, bufs, i)
        {
          assert LastUse(bufs, i, |bufs|);
        }
        PartsJoin(result.1, bufs, |bufs|);
        assert bufs[..|bufs|] == bufs;
      }
    }
  }

  lemma SameLength(single: Single, s: seq<nat>)
    requires KeepsLength(single)
    ensures |single(s).1| == |s|
  {
  }

  lemma OneBuffer(bufs: seq<array<nat>>)
    requires |bufs| == 1
    ensures Concat(Contents(bufs)) == bufs[0][..] && Sizes(bufs) == bufs[0].Length
  {
    assert Contents(bufs)[1..] == [];
  }
}
