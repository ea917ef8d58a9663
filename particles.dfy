/** The form that drives the simulation (MainForm): it owns the particle array, the framebuffer,
    the partition's range size and the pass counter. Each idle iteration runs one physics pass
    (Animate) and one render pass (DrawParticles). The parallel loops over the partition's ranges
    are modelled as one sequential run over the ranges in order. */
module Particles {
  import opened Pixel
  import opened Physics
  import opened Canvas
  import opened Partitioning
  import opened Ordering
  import opened Render

  /** The size of the particle array (line 185). */
  const ParticleCount: int := 1_000_000
  /** DrawParticles sorts on every pass whose counter is a multiple of this (line 136). */
  const SortInterval: int := 5000
  /** `_pass` is a `ulong`, so `_pass++` wraps around at 2^64. */
  const PassLimit: int := 0x1_0000_0000_0000_0000

  /** `_pass++` on a `ulong`: one more, back to 0 after the largest value. */
  function Increment(p: int): (r: int)
    requires 0 <= p < PassLimit
    ensures 0 <= r < PassLimit && r == (p + 1) % PassLimit
  {
    if p + 1 == PassLimit then 0 else p + 1
  }

  /** Incrementing a counter that holds `s` modulo 2^64 gives `s + 1` modulo 2^64. */
  lemma IncrementWraps(s: nat)
    ensures Increment(s % PassLimit) == (s + 1) % PassLimit
  {
    var q, m := s / PassLimit, s % PassLimit;
    assert s == q * PassLimit + m;
    if m + 1 == PassLimit {
      assert s + 1 == (q + 1) * PassLimit;
    } else {
      assert s + 1 == q * PassLimit + (m + 1);
    }
  }

  /** The counter after `n` increments from `p`. */
  function PassAfter(p: int, n: nat): (r: int)
    requires 0 <= p < PassLimit
    ensures 0 <= r < PassLimit
  {
    if n == 0 then p else Increment(PassAfter(p, n - 1))
  }

  /** `n` increments of a `ulong` counter add `n` modulo 2^64. */
  lemma {:induction false} PassAfterWraps(p: int, n: nat)
    requires 0 <= p < PassLimit
    ensures PassAfter(p, n) == (p + n) % PassLimit
  {
    if n > 0 {
      PassAfterWraps(p, n - 1);
      var s := p + n - 1;
      assert PassAfter(p, n) == Increment(s % PassLimit);
      IncrementWraps(s);
    }
  }

  /** `Random.Next(maxValue)`: some value in [0, maxValue), or 0 when `maxValue` is 0. Which
      value is left open. */
  method RandomNext(maxValue: int) returns (r: int)
    requires maxValue >= 0
    ensures maxValue == 0 ==> r == 0
    ensures maxValue > 0 ==> 0 <= r < maxValue
  {
    if maxValue == 0 {
      r := 0;
    } else {
      r :| 0 <= r < maxValue;
    }
  }

  /** The particle population of Init (lines 184-193): every particle at a random point of the
      area, at rest. */
  method Init(areaWidth: int, areaHeight: int) returns (particles: array<Particle>)
    requires areaWidth >= 1 && areaHeight >= 1
    ensures fresh(particles) && particles.Length == ParticleCount
    ensures forall i :: 0 <= i < particles.Length ==>
      InArea(particles[i], areaWidth, areaHeight) && particles[i].Xv == 0.0 && particles[i].Yv == 0.0
  {
    particles := new Particle[ParticleCount](_ => Particle(0, 0, 0.0, 0.0));
    for i := 0 to particles.Length
      invariant forall j :: 0 <= j < i ==>
        InArea(particles[j], areaWidth, areaHeight) && particles[j].Xv == 0.0 && particles[j].Yv == 0.0
    {
      var x := RandomNext(areaWidth);
      var y := RandomNext(areaHeight);
      particles[i] := Particle(x, y, 0.0, 0.0);
    }
  }

  predicate AtRest(p: Particle)
  {
    p.Xv == 0.0 && p.Yv == 0.0
  }

  /** Init's placement, read as a collection: every particle settled and at rest. */
  lemma PlacedAreSettled(ps: seq<Particle>, width: int, height: int)
    requires forall i :: 0 <= i < |ps| ==> InArea(ps[i], width, height) && ps[i].Xv == 0.0 && ps[i].Yv == 0.0
    ensures forall p | p in ps :: Settled(p, width, height) && AtRest(p)
  {
  }

  /** Reordering a population at rest leaves it at rest. */
  lemma ReorderedAtRest(a: seq<Particle>, b: seq<Particle>)
    requires multiset(a) == multiset(b)
    requires forall p | p in a :: AtRest(p)
    ensures forall p | p in b :: AtRest(p)
  {
    forall p | p in b ensures AtRest(p) {
      assert p in multiset(b);
    }
  }

  /** The particles after one physics pass towards each cursor sample in turn, in array order.
      The periodic sorts only permute the array, so the form's particles are always a
      permutation of these. */
  function Animated(ps: seq<Particle>, cursors: seq<(int, int)>, width: int, height: int): (r: seq<Particle>)
    ensures |r| == |ps|
    decreases |cursors|
  {
    if cursors == [] then ps
    else
      var (x, y) := cursors[|cursors| - 1];
      StepAll(Animated(ps, cursors[..|cursors| - 1], width, height), x, y, width, height)
  }

  /** One more pass on a permutation of the animated particles is a permutation of the
      particles animated with one more cursor sample. */
  lemma AnimatedStep(current: seq<Particle>, start: seq<Particle>, cursors: seq<(int, int)>, n: int, width: int, height: int)
    requires 0 <= n < |cursors|
    requires multiset(current) == multiset(Animated(start, cursors[..n], width, height))
    ensures multiset(StepAll(current, cursors[n].0, cursors[n].1, width, height))
      == multiset(Animated(start, cursors[..n + 1], width, height))
  {
    assert cursors[..n + 1][..n] == cursors[..n];
    StepAllPermutation(current, Animated(start, cursors[..n], width, height), cursors[n].0, cursors[n].1, width, height);
  }

  class MainForm {
    var AreaWidth: int
    var AreaHeight: int
    var particles: array<Particle>
    var lck: LockBitmap
    /** The range size of the partitioner built in Init. */
    var chunk: int
    var pass: int
    /** `Color.LightSalmon.ToArgb()`. */
    const ParticleColor: uint32 := LightSalmon

    /** The framebuffer covers the area, the array holds the full population and the counter
        is a `ulong`. */
    ghost predicate Wellformed()
      reads this, lck
    {
      && particles.Length == ParticleCount
      && lck.Valid() && lck.Width == AreaWidth && lck.Height == AreaHeight
      && chunk >= MinChunk
      && 0 <= pass < PassLimit
    }

    /** Between frames the bitmap is unlocked. */
    ghost predicate Valid()
      reads this, lck
    {
      Wellformed() && !lck.locked
    }

    /** Every particle is inside the area: what the render pass needs for its unchecked writes. */
    ghost predicate AllParticlesInArea()
      reads this, particles
    {
      AllInArea(particles[..], AreaWidth, AreaHeight)
    }

    /** The bitmap shows the current particles on black, as DrawParticles leaves it. */
    ghost predicate ShowsParticles()
      reads this, lck, lck.pixels, particles
    {
      && Wellformed() && AllParticlesInArea()
      && lck.pixels[..] == Rendered(BlackFrame(lck.DataLength), particles[..], AreaWidth, AreaHeight, ParticleColor)
    }

    /** Every particle is inside the area and no faster than MaxSpeed. */
    ghost predicate AllSettled()
      reads this, particles
    {
      forall p | p in particles[..] :: Settled(p, AreaWidth, AreaHeight)
    }

    /** Form1Shown (lines 169-180) with Init (lines 182-199): the area takes the form's size, the
        population is placed, the framebuffer wraps a new bitmap of the area's size, the
        partition is fixed, and the first frame is drawn. */
    constructor (width: int, height: int, processorCount: int)
      requires 1 <= width && 1 <= height && width * height < 0x8000_0000
      requires processorCount >= 1
      ensures Valid() && AreaWidth == width && AreaHeight == height
      ensures AllSettled()
      ensures forall p | p in particles[..] :: AtRest(p)
      ensures pass == 1 && Sorted(particles[..])
      ensures chunk == ChunkSize(ParticleCount, processorCount)
      ensures lck.pixels[..] == Rendered(BlackFrame(width * height), particles[..], width, height, LightSalmon)
      ensures ShowsParticles()
      ensures fresh(particles) && fresh(lck) && fresh(lck.pixels)
    {
      AreaWidth := width;
      AreaHeight := height;
      var ps := Init(width, height);
      particles := ps;
      lck := new LockBitmap(width, height);
      chunk := ChunkSize(ParticleCount, processorCount);
      pass := 0;
      new;
      PlacedAreSettled(particles[..], width, height);
      ghost var placed := particles[..];
      assert pass % SortInterval == 0;
      DrawParticles();
      ReorderedAtRest(placed, particles[..]);
    }

    /** MainForm.AnimateImpl (lines 73-129) on particle `i`, updated field by field. */
    method AnimateImpl(i: int, x: int, y: int)
      requires 0 <= i < particles.Length
      modifies particles
      ensures particles[i] == Step(old(particles[i]), x, y, AreaWidth, AreaHeight)
      ensures forall j :: 0 <= j < particles.Length && j != i ==> particles[j] == old(particles[j])
    {
      var particle := particles[i];
      var num4, num5 := particle.X - x, particle.Y - y;
      var num6 := num4 * num4 + num5 * num5;
      var num3 := if num6 >= DeadZone then Attraction / num6 as real else 0.0;
      var xv := particle.Xv * Damping + (x - particle.X) as real * num3;
      var yv := particle.Yv * Damping + (y - particle.Y) as real * num3;
      assert num3 == Pull(num6);
      ghost var acc := Accelerate(particle, x, y);
      assert xv == acc.0 && yv == acc.1;
      var px := particle.X + Truncate(xv);
      var py := particle.Y + Truncate(yv);
      ghost var xr, yr := Reflect(px, AreaWidth), Reflect(py, AreaHeight);
      var flag, flag2 := false, false;
      if px >= AreaWidth {
        flag := true;
        px := AreaWidth - (px - AreaWidth) - 1;
      } else if px < 0 {
        flag := true;
        px := -px;
      }
      if py >= AreaHeight {
        flag2 := true;
        py := AreaHeight - (py - AreaHeight) - 1;
      } else if py < 0 {
        flag2 := true;
        py := -py;
      }
      assert px == xr.0 && flag == xr.1 && py == yr.0 && flag2 == yr.1;
      if flag {
        xv := -xv * 0.5;
      }
      if flag2 {
        yv := -yv * 0.5;
      }
      particles[i] := Particle(px, py, xv, yv);
    }

    /** The body of Animate's parallel loop (lines 64-70): one step for each particle of the
        range [lo, hi); the particles before `lo` have had their step already. */
    method AnimateRange(lo: int, hi: int, x: int, y: int, ghost start: seq<Particle>)
      requires 0 <= lo <= hi <= particles.Length == |start|
      requires forall j :: 0 <= j < lo ==> particles[j] == Step(start[j], x, y, AreaWidth, AreaHeight)
      requires forall j :: lo <= j < particles.Length ==> particles[j] == start[j]
      modifies particles
      ensures forall j :: 0 <= j < hi ==> particles[j] == Step(start[j], x, y, AreaWidth, AreaHeight)
      ensures forall j :: hi <= j < particles.Length ==> particles[j] == start[j]
    {
      var i := lo;
      while i < hi
        invariant lo <= i <= hi
        invariant forall j :: 0 <= j < i ==> particles[j] == Step(start[j], x, y, AreaWidth, AreaHeight)
        invariant forall j :: i <= j < particles.Length ==> particles[j] == start[j]
      {
        AnimateImpl(i, x, y);
        i := i + 1;
      }
    }

    /** MainForm.Animate (lines 58-71): one physics step for every particle, range by range. */
    method Animate(x: int, y: int)
      requires Wellformed()
      modifies particles
      ensures forall i :: 0 <= i < particles.Length ==> particles[i] == Step(old(particles[i]), x, y, AreaWidth, AreaHeight)
      ensures particles[..] == StepAll(old(particles[..]), x, y, AreaWidth, AreaHeight)
    {
      var n := particles.Length;
      ghost var start := particles[..];
      var ranges := Ranges(n, chunk);
      var k := 0;
      while k < |ranges|
        invariant 0 <= k <= |ranges|
        invariant forall i :: 0 <= i < Boundary(n, chunk, k) ==> particles[i] == Step(start[i], x, y, AreaWidth, AreaHeight)
        invariant forall i :: Boundary(n, chunk, k) <= i < n ==> particles[i] == start[i]
      {
        var (lo, hi) := ranges[k];
        assert lo == Boundary(n, chunk, k) <= hi == Boundary(n, chunk, k + 1) <= n by {
          RangesAreConsecutive(n, chunk);
        }
        AnimateRange(lo, hi, x, y, start);
        k := k + 1;
      }
      assert Boundary(n, chunk, k) == n by {
        RangesAreConsecutive(n, chunk);
      }
      assert particles[..] == StepAll(start, x, y, AreaWidth, AreaHeight);
    }

    /** MainForm.RenderParticle (lines 201-205): blends the particle colour into the pixel
        under particle `i`. The write is in bounds because the particle is inside the area and
        the bitmap has the area's size. */
    method RenderParticle(i: int)
      requires Wellformed() && lck.locked
      requires 0 <= i < particles.Length && InArea(particles[i], AreaWidth, AreaHeight)
      modifies lck.pixels
      ensures var p := particles[i];
        var index := PixelIndex(p.X, p.Y, AreaWidth);
        (PixelIndexInBuffer(p.X, p.Y, AreaWidth, AreaHeight);
         lck.pixels[..] == old(lck.pixels[..])[index := BlendPixel(old(lck.pixels[index]), ParticleColor)])
    {
      var particle := particles[i];
      PixelIndexInBuffer(particle.X, particle.Y, AreaWidth, AreaHeight);
      lck.SetPixel(particle.X, particle.Y, ParticleColor);
    }

    /** The body of DrawParticles' parallel loop (lines 146-150): renders the particles of the
        range [lo, hi) on top of the frame the particles before `lo` have made. */
    method RenderRange(lo: int, hi: int, ghost frame: seq<uint32>)
      requires Wellformed() && lck.locked && AllParticlesInArea()
      requires 0 <= lo <= hi <= particles.Length && |frame| == lck.DataLength
      requires AllInArea(particles[..lo], AreaWidth, AreaHeight)
      requires lck.pixels[..] == Rendered(frame, particles[..lo], AreaWidth, AreaHeight, ParticleColor)
      modifies lck.pixels
      ensures AllInArea(particles[..hi], AreaWidth, AreaHeight)
      ensures lck.pixels[..] == Rendered(frame, particles[..hi], AreaWidth, AreaHeight, ParticleColor)
    {
      ghost var ps := particles[..];
      var j := lo;
      while j < hi
        invariant lo <= j <= hi
        invariant AllInArea(ps[..j], AreaWidth, AreaHeight)
        invariant lck.pixels[..] == Rendered(frame, ps[..j], AreaWidth, AreaHeight, ParticleColor)
      {
        RenderedStep(frame, ps, j, AreaWidth, AreaHeight, ParticleColor);
        assert ps[j] in ps;
        RenderParticle(j);
        j := j + 1;
      }
    }

    /** The render loop of DrawParticles (lines 145-151): every particle, range by range. */
    method RenderPass()
      requires Wellformed() && lck.locked && AllParticlesInArea()
      modifies lck.pixels
      ensures lck.pixels[..] == Rendered(old(lck.pixels[..]), particles[..], AreaWidth, AreaHeight, ParticleColor)
    {
      var n := particles.Length;
      ghost var frame := lck.pixels[..];
      var ranges := Ranges(n, chunk);
      assert particles[..0] == [];
      var k := 0;
      while k < |ranges|
        invariant 0 <= k <= |ranges|
        invariant AllInArea(particles[..Boundary(n, chunk, k)], AreaWidth, AreaHeight)
        invariant lck.pixels[..] == Rendered(frame, particles[..Boundary(n, chunk, k)], AreaWidth, AreaHeight, ParticleColor)
      {
        var (lo, hi) := ranges[k];
        assert lo == Boundary(n, chunk, k) <= hi == Boundary(n, chunk, k + 1) <= n by {
          RangesAreConsecutive(n, chunk);
        }
        RenderRange(lo, hi, frame);
        k := k + 1;
      }
      assert Boundary(n, chunk, k) == n by {
        RangesAreConsecutive(n, chunk);
      }
      assert particles[..Boundary(n, chunk, k)] == particles[..];
    }

    /** MainForm.DrawParticles (lines 131-155): clear the frame, sort the particles when the
        pass counter (before its increment) is a multiple of 5000, render every particle, and
        release the bitmap. */
    method DrawParticles()
      requires Valid() && AllParticlesInArea()
      modifies this`pass, particles, lck, lck.pixels
      ensures Valid() && AllParticlesInArea()
      ensures pass == Increment(old(pass))
      ensures old(AllSettled()) ==> AllSettled()
      ensures multiset(particles[..]) == multiset(old(particles[..]))
      ensures old(pass) % SortInterval == 0 ==> Sorted(particles[..])
      ensures old(pass) % SortInterval != 0 ==> particles[..] == old(particles[..])
      ensures lck.pixels[..] == Rendered(BlackFrame(lck.DataLength), particles[..], AreaWidth, AreaHeight, ParticleColor)
    {
      lck.LockBits();
      lck.Fill(OpaqueBlack);
      assert lck.pixels[..] == BlackFrame(lck.DataLength);
      var sortNow := pass % SortInterval == 0;
      pass := Increment(pass);
      ghost var before := particles[..];
      if sortNow {
        SortByPosition(particles);
        RenderOrderIrrelevant(BlackFrame(lck.DataLength), before, particles[..], AreaWidth, AreaHeight, ParticleColor);
      }
      RenderPass();
      lck.UnlockBits();
      assert forall p | p in particles[..] :: p in before by {
        forall p | p in particles[..] ensures p in before {
          assert p in multiset(particles[..]);
        }
      }
    }

    /** One iteration of the idle loop (lines 53-54): a physics pass towards the cursor at
        (x, y), then a frame. The particles are the stepped particles, sorted when the counter
        says so, and the frame shows them on black. In an area at least MinSafeSide pixels on
        each side every particle stays settled, so every render write stays inside the bitmap. */
    method IdleStep(x: int, y: int)
      requires Valid() && AllSettled()
      requires AreaWidth >= MinSafeSide && AreaHeight >= MinSafeSide
      modifies this`pass, particles, lck, lck.pixels
      ensures Valid() && AllSettled() && AllParticlesInArea()
      ensures pass == Increment(old(pass))
      ensures multiset(particles[..]) == multiset(StepAll(old(particles[..]), x, y, AreaWidth, AreaHeight))
      ensures old(pass) % SortInterval == 0 ==> Sorted(particles[..])
      ensures old(pass) % SortInterval != 0 ==> particles[..] == StepAll(old(particles[..]), x, y, AreaWidth, AreaHeight)
      ensures ShowsParticles()
    {
      ghost var start := particles[..];
      Animate(x, y);
      assert AllSettled() by {
        forall p | p in particles[..] ensures Settled(p, AreaWidth, AreaHeight) {
          var i :| 0 <= i < particles.Length && particles[i] == p;
          assert start[i] in start;
          StepStaysSettled(start[i], x, y, AreaWidth, AreaHeight);
        }
      }
      DrawParticles();
    }

    /** HandleApplicationIdle (lines 49-56): while the host reports no pending message, one
        physics pass and one frame. The cursor samples, one per iteration, stand for the idle
        test and Cursor.Position. Afterwards the particles are a permutation of the population
        stepped towards each sample in turn, the frame still shows them on black, and the pass
        counter advanced once per frame, modulo 2^64. Without a sample nothing changes. */
    method HandleApplicationIdle(cursors: seq<(int, int)>)
      requires Valid() && AllSettled() && ShowsParticles()
      requires AreaWidth >= MinSafeSide && AreaHeight >= MinSafeSide
      modifies this`pass, particles, lck, lck.pixels
      ensures Valid() && AllSettled() && ShowsParticles()
      ensures pass == (old(pass) + |cursors|) % PassLimit
      ensures multiset(particles[..]) == multiset(Animated(old(particles[..]), cursors, AreaWidth, AreaHeight))
      ensures |cursors| == 0 ==> unchanged(particles) && unchanged(lck.pixels)
    {
      ghost var start := particles[..];
      var frame := 0;
      while frame < |cursors|
        invariant 0 <= frame <= |cursors|
        invariant Valid() && AllSettled() && ShowsParticles()
        invariant pass == PassAfter(old(pass), frame)
        invariant multiset(particles[..]) == multiset(Animated(start, cursors[..frame], AreaWidth, AreaHeight))
        invariant frame == 0 ==> unchanged(particles) && unchanged(lck.pixels)
      {
        var (x, y) := cursors[frame];
        ghost var before := particles[..];
        IdleStep(x, y);
        AnimatedStep(before, start, cursors, frame, AreaWidth, AreaHeight);
        frame := frame + 1;
      }
      assert cursors[..frame] == cursors;
      PassAfterWraps(old(pass), frame);
    }
  }
}
