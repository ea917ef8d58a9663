/** The periodic reorder of DrawParticles (lines 136-143): `Array.Sort` of the particle array
    with a comparison by row, then by column. Array.Sort is not stable, so the model promises
    only what any correct sort with this comparison gives: the result is ordered and is a
    permutation of the input. */
module Ordering {
  import opened Physics

  /** Particle `a` may come before `b`: an earlier row, or the same row and no later column. */
  predicate Before(a: Particle, b: Particle)
  {
    a.Y < b.Y || (a.Y == b.Y && a.X <= b.X)
  }

  /** The comparison of lines 138-142: negative, zero or positive as `a` sorts before, level
      with, or after `b`. Positions are screen coordinates, so the subtractions cannot overflow. */
  function Compare(a: Particle, b: Particle): (c: int)
    ensures c <= 0 <==> Before(a, b)
    ensures c == 0 <==> (a.X == b.X && a.Y == b.Y)
    ensures c < 0 <==> (a.Y < b.Y || (a.Y == b.Y && a.X < b.X))
  {
    var yDiff := a.Y - b.Y;
    if yDiff == 0 then a.X - b.X else yDiff
  }

  predicate Sorted(s: seq<Particle>)
  {
    forall i, j :: 0 <= i < j < |s| ==> Before(s[i], s[j])
  }

  /** Exchanges two entries of the array. */
  method Swap(a: array<Particle>, i: int, j: int)
    requires 0 <= i < a.Length && 0 <= j < a.Length
    modifies a
    ensures a[i] == old(a[j]) && a[j] == old(a[i])
    ensures forall k :: 0 <= k < a.Length && k != i && k != j ==> a[k] == old(a[k])
    ensures multiset(a[..]) == multiset(old(a[..]))
  {
    a[i], a[j] := a[j], a[i];
  }

  /** Sorts the particles in place by (Y, X). */
  method SortByPosition(a: array<Particle>)
    modifies a
    ensures Sorted(a[..])
    ensures multiset(a[..]) == multiset(old(a[..]))
  {
    var i := 0;
    while i < a.Length
      invariant 0 <= i <= a.Length
      invariant forall k, l :: 0 <= k < l < i ==> Before(a[k], a[l])
      invariant multiset(a[..]) == multiset(old(a[..]))
    {
      var j := i;
      while j > 0 && Compare(a[j - 1], a[j]) > 0
        invariant 0 <= j <= i
        invariant forall k, l :: 0 <= k < l <= i && l != j && k != j ==> Before(a[k], a[l])
        invariant forall l :: j < l <= i ==> Before(a[j], a[l])
        invariant multiset(a[..]) == multiset(old(a[..]))
      {
        Swap(a, j - 1, j);
        j := j - 1;
      }
      i := i + 1;
    }
  }
}
