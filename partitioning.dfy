/** The work partition of MainForm.Init (line 196): `Partitioner.Create(0, count, size)` with
    `size = Math.Max(count / ProcessorCount / 2, 100)` splits [0, count) into consecutive
    ranges of `size` indices, the last one possibly shorter. Only that documented contract of
    the partitioner is modelled. */
module Partitioning {

  const MinChunk: int := 100

  /** The range size of line 196: `count / processors / 2`, but never below 100. */
  function ChunkSize(count: nat, processors: int): (size: int)
    requires processors >= 1
    ensures size >= MinChunk
    ensures count < 2 * processors * (MinChunk + 1) ==> size == MinChunk
  {
    var q := count / processors / 2;
    if q > MinChunk then q else MinChunk
  }

  /** With at least 202 indices per processor the range size is `count / (2 * processors)`,
      so the partition has about two ranges per processor; below that every range holds 100
      indices. */
  lemma ChunkSizeSplits(count: nat, processors: int)
    requires processors >= 1
    ensures 2 * processors * (MinChunk + 1) <= count ==>
      2 * processors * ChunkSize(count, processors) <= count < 2 * processors * (ChunkSize(count, processors) + 1)
  {
    NestedDivision(count, processors);
  }

  /** Dividing by `processors` and then by 2 is dividing by `2 * processors`. */
  lemma NestedDivision(count: nat, processors: int)
    requires processors >= 1
    ensures 2 * processors * (count / processors / 2) <= count < 2 * processors * (count / processors / 2 + 1)
  {
    var p, q := count / processors, count / processors / 2;
    assert processors * p <= count < processors * (p + 1);
    assert 2 * q <= p < 2 * q + 2;
    assert processors * (2 * q) <= processors * p;
    assert processors * (p + 1) <= processors * (2 * q + 2);
  }

  /** The number of ranges, ceil(count / size). */
  function RangeCount(count: nat, size: int): (n: nat)
    requires size >= 1
    ensures n * size >= count
    ensures n == 0 || (n - 1) * size < count
  {
    var n := (count + size - 1) / size;
    assert size * n <= count + size - 1 < size * (n + 1);
    n
  }

  /** Where range `k` starts (and range `k - 1` ends): `min(k * size, count)`. */
  function Boundary(count: nat, size: int, k: nat): nat
    requires size >= 1
  {
    if k * size < count then k * size else count
  }

  /** The ranges the partitioner hands out, in order. */
  function Ranges(count: nat, size: int): (r: seq<(nat, nat)>)
    requires size >= 1
    ensures |r| == RangeCount(count, size)
    ensures |r| > 0 ==> r[0].0 == 0 && r[|r| - 1].1 == count
    ensures forall k :: 0 <= k < |r| ==> r[k].0 < r[k].1 <= r[k].0 + size
  {
    RangesAreConsecutive(count, size);
    seq(RangeCount(count, size), k requires 0 <= k => (Boundary(count, size, k), Boundary(count, size, k + 1)))
  }

  /** The ranges are consecutive: the first starts at 0, each ends where the next starts, the
      last ends at `count`, and none is empty or longer than `size`. */
  lemma RangesAreConsecutive(count: nat, size: int)
    requires size >= 1
    ensures Boundary(count, size, 0) == 0
    ensures Boundary(count, size, RangeCount(count, size)) == count
    ensures forall k :: 0 <= k < RangeCount(count, size) ==>
      Boundary(count, size, k) < Boundary(count, size, k + 1) <= Boundary(count, size, k) + size
  {
    var n := RangeCount(count, size);
    forall k | 0 <= k < n
      ensures Boundary(count, size, k) < Boundary(count, size, k + 1) <= Boundary(count, size, k) + size
    {
      assert k * size <= (n - 1) * size;
      assert (k + 1) * size == k * size + size;
    }
  }

  /** Each range ends where the next one starts. */
  lemma RangesChain(count: nat, size: int)
    requires size >= 1
    ensures forall k :: 0 <= k < |Ranges(count, size)| - 1 ==> Ranges(count, size)[k].1 == Ranges(count, size)[k + 1].0
  {
  }

  lemma MulMonotone(a: int, b: int, size: int)
    requires a <= b && size >= 0
    ensures a * size <= b * size
  {
    assert b * size - a * size == (b - a) * size;
  }

  /** Index `i` lies between the boundaries of range `k` exactly when `k == i / size`. */
  lemma BoundaryCover(count: nat, size: int, i: int, k: nat)
    requires size >= 1 && 0 <= i < count
    ensures Boundary(count, size, k) <= i < Boundary(count, size, k + 1) <==> k == i / size
  {
    var j := i / size;
    assert j * size <= i < (j + 1) * size;
    if k < j {
      MulMonotone(k + 1, j, size);
    } else if k > j {
      MulMonotone(j + 1, k, size);
    }
  }

  lemma IndexHasRange(count: nat, size: int, i: int)
    requires size >= 1 && 0 <= i < count
    ensures i / size < RangeCount(count, size)
  {
    var n, j := RangeCount(count, size), i / size;
    assert j * size <= i;
    if j >= n {
      MulMonotone(n, j, size);
    }
  }

  /** Index `i` of [0, count) lies in exactly one range, the one numbered `i / size`: the loops
      over the ranges visit every index once. */
  lemma RangesCoverOnce(count: nat, size: int, i: int)
    requires size >= 1 && 0 <= i < count
    ensures i / size < |Ranges(count, size)|
    ensures forall k :: 0 <= k < |Ranges(count, size)| ==>
      (Ranges(count, size)[k].0 <= i < Ranges(count, size)[k].1 <==> k == i / size)
  {
    var rs, j := Ranges(count, size), i / size;
    IndexHasRange(count, size, i);
    forall k | 0 <= k < |rs|
      ensures rs[k].0 <= i < rs[k].1 <==> k == j
    {
      assert rs[k] == (Boundary(count, size, k), Boundary(count, size, k + 1));
      BoundaryCover(count, size, i, k);
    }
  }

  /** 1000 particles on 4 processors: ranges of 125, eight of them. */
  lemma FourProcessors()
    ensures ChunkSize(1000, 4) == 125
    ensures Ranges(1000, 125) == [(0, 125), (125, 250), (250, 375), (375, 500), (500, 625), (625, 750), (750, 875), (875, 1000)]
  {
  }
}
