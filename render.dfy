/** The render pass of DrawParticles (lines 145-151) and RenderParticle (lines 201-205): every
    particle blends the particle colour into the pixel under it. This module specifies the frame
    one sequential pass produces and shows that, the colour being the same for every particle,
    the final frame depends only on how many particles sit on each pixel, not on their order. */
module Render {
  import opened Pixel
  import opened Physics
  import opened Canvas

  predicate AllInArea(ps: seq<Particle>, width: int, height: int)
  {
    forall p | p in ps :: InArea(p, width, height)
  }

  /** The cleared frame of line 134: every pixel opaque black. */
  function BlackFrame(size: nat): (frame: seq<uint32>)
    ensures |frame| == size && forall q :: 0 <= q < size ==> frame[q] == OpaqueBlack
  {
    seq(size, _ => OpaqueBlack)
  }

  /** The frame after SetPixel(p.X, p.Y, color) for the particles `ps`: every pixel is blended
      with the colour once for each particle on it. That this is what SetPixel produces one
      particle after the other is RenderedStep. */
  function Rendered(frame: seq<uint32>, ps: seq<Particle>, width: int, height: int, color: uint32): (r: seq<uint32>)
    requires 0 < width && 0 < height && |frame| == width * height && AllInArea(ps, width, height)
    ensures |r| == |frame|
  {
    seq(|frame|, q requires 0 <= q < |frame| => BlendRepeated(frame[q], color, Hits(ps, q, width)))
  }

  lemma SliceInArea(ps: seq<Particle>, n: int, width: int, height: int)
    requires 0 <= n <= |ps| && AllInArea(ps, width, height)
    ensures AllInArea(ps[..n], width, height)
  {
    forall p | p in ps[..n] ensures InArea(p, width, height) {
      var i :| 0 <= i < n && ps[..n][i] == p;
      assert ps[i] == p;
    }
  }

  /** Rendering one more particle of `ps` blends the colour into the pixel under it. */
  lemma RenderedStep(frame: seq<uint32>, ps: seq<Particle>, n: int, width: int, height: int, color: uint32)
    requires 0 < width && 0 < height && |frame| == width * height && AllInArea(ps, width, height)
    requires 0 <= n < |ps|
    ensures AllInArea(ps[..n], width, height) && AllInArea(ps[..n + 1], width, height)
    ensures var index := PixelIndex(ps[n].X, ps[n].Y, width);
      var before := Rendered(frame, ps[..n], width, height, color);
      0 <= index < |frame| &&
      Rendered(frame, ps[..n + 1], width, height, color) == before[index := BlendPixel(before[index], color)]
  {
    SliceInArea(ps, n, width, height);
    SliceInArea(ps, n + 1, width, height);
    assert ps[n] in ps;
    PixelIndexInBuffer(ps[n].X, ps[n].Y, width, height);
    var index := PixelIndex(ps[n].X, ps[n].Y, width);
    var before, after := Rendered(frame, ps[..n], width, height, color), Rendered(frame, ps[..n + 1], width, height, color);
    forall q | 0 <= q < |frame|
      ensures after[q] == before[index := BlendPixel(before[index], color)][q]
    {
      HitsStep(ps, n, q, width);
      if q == index {
        assert after[q] == BlendRepeated(frame[q], color, Hits(ps[..n], q, width) + 1);
      }
    }
  }

  /** One more particle adds a hit to its own pixel only. */
  lemma HitsStep(ps: seq<Particle>, n: int, q: int, width: int)
    requires 0 <= n < |ps|
    ensures Hits(ps[..n + 1], q, width) == Hits(ps[..n], q, width) + (if PixelIndex(ps[n].X, ps[n].Y, width) == q then 1 else 0)
  {
    assert ps[..n + 1][..n] == ps[..n];
  }

  /** How many particles of `ps` land on pixel `q`. */
  function Hits(ps: seq<Particle>, q: int, width: int): nat
    decreases |ps|
  {
    if ps == [] then 0
    else
      var p := ps[|ps| - 1];
      Hits(ps[..|ps| - 1], q, width) + (if PixelIndex(p.X, p.Y, width) == q then 1 else 0)
  }

  lemma {:induction false} HitsAppend(a: seq<Particle>, b: seq<Particle>, q: int, width: int)
    ensures Hits(a + b, q, width) == Hits(a, q, width) + Hits(b, q, width)
    decreases |b|
  {
    if b != [] {
      assert (a + b)[..|a + b| - 1] == a + b[..|b| - 1];
      HitsAppend(a, b[..|b| - 1], q, width);
    } else {
      assert a + b == a;
    }
  }

  /** Taking out the particle at `j` takes its hit off its pixel. */
  lemma HitsRemove(b: seq<Particle>, j: int, q: int, width: int)
    requires 0 <= j < |b|
    ensures Hits(b, q, width) == Hits(b[..j] + b[j + 1..], q, width) + Hits([b[j]], q, width)
  {
    assert b == b[..j] + [b[j]] + b[j + 1..];
    HitsAppend(b[..j] + [b[j]], b[j + 1..], q, width);
    HitsAppend(b[..j], [b[j]], q, width);
    HitsAppend(b[..j], b[j + 1..], q, width);
  }

  /** Reordering the particles does not change how many land on any pixel. */
  lemma {:induction false} HitsPermutation(a: seq<Particle>, b: seq<Particle>, q: int, width: int)
    requires multiset(a) == multiset(b)
    ensures Hits(a, q, width) == Hits(b, q, width)
    decreases |a|
  {
    if a == [] {
      assert |b| == |multiset(b)| == 0;
    } else {
      var n := |a| - 1;
      assert a[n] in multiset(b);
      var j :| 0 <= j < |b| && b[j] == a[n];
      MultisetRemove(a, n);
      MultisetRemove(b, j);
      HitsPermutation(a[..n] + a[n + 1..], b[..j] + b[j + 1..], q, width);
      HitsRemove(a, n, q, width);
      HitsRemove(b, j, q, width);
    }
  }

  /** The render pass is order-independent: any permutation of the particles, and so any
      sequential interleaving of the workers' ranges, yields the same frame. */
  lemma RenderOrderIrrelevant(frame: seq<uint32>, a: seq<Particle>, b: seq<Particle>, width: int, height: int, color: uint32)
    requires 0 < width && 0 < height && |frame| == width * height && AllInArea(a, width, height)
    requires multiset(a) == multiset(b)
    ensures AllInArea(b, width, height)
    ensures Rendered(frame, a, width, height, color) == Rendered(frame, b, width, height, color)
  {
    forall p | p in b ensures InArea(p, width, height) {
      assert p in multiset(b);
    }
    var ra, rb := Rendered(frame, a, width, height, color), Rendered(frame, b, width, height, color);
    forall q | 0 <= q < |frame| ensures ra[q] == rb[q] {
      HitsPermutation(a, b, q, width);
    }
  }

  /** The frame DrawParticles produces: a pixel no particle sits on stays opaque black; one
      with `n` particles is 0xffff_gg00 with gg = min(65 n, 255). */
  lemma SalmonFrame(ps: seq<Particle>, width: int, height: int, q: int)
    requires 0 < width && 0 < height && AllInArea(ps, width, height)
    requires 0 <= q < width * height
    ensures var n := Hits(ps, q, width);
      Rendered(BlackFrame(width * height), ps, width, height, LightSalmon)[q] ==
        if n == 0 then OpaqueBlack else YellowishRed(SalmonGreen(n))
  {
    if Hits(ps, q, width) > 0 {
      SalmonOnBlack(Hits(ps, q, width));
    }
  }
}
