/** One physics step of a particle (MainForm.AnimateImpl): attraction towards the cursor with a
    dead zone, damping, an integer position update by the truncated velocity, and reflection at
    the edges of the area. The source computes in IEEE doubles; here they are exact reals, so
    rounding is not modelled. */
module Physics {

  datatype Particle = Particle(X: int, Y: int, Xv: real, Yv: real)

  /** The attraction constant of line 83 (the float 16.673847f widened to double). */
  const Attraction: real := 16.673847198486328
  /** Squared radius of the dead zone around the cursor (line 81). */
  const DeadZone: int := 400
  /** Per-step damping factor (lines 91-92, the float 0.9975f widened to double). */
  const Damping: real := 0.99750000238418579

  /** The terminal speed: the largest per-axis pull, Attraction / 20, balanced by the damping
      loss. No particle that starts at rest ever exceeds it. */
  const MaxSpeed: real := Attraction / 20.0 / (1.0 - Damping)
  /** The smallest side length for which a particle moving at up to MaxSpeed per step cannot
      jump past the reflection band. */
  const MinSafeSide: int := 334

  /** C#'s `(int)` of a double: truncation toward zero. */
  function Truncate(v: real): (n: int)
    ensures 0.0 <= v ==> 0 <= n && n as real <= v < n as real + 1.0
    ensures v < 0.0 ==> n <= 0 && n as real - 1.0 < v <= n as real
  {
    if v >= 0.0 then v.Floor else -((-v).Floor)
  }

  /** The attraction factor of lines 80-88 for the squared distance `distSq`: zero inside the
      dead zone, otherwise Attraction / distSq. The division is only reached for distSq >= 400. */
  function Pull(distSq: int): (f: real)
    requires distSq >= 0
    ensures distSq < DeadZone ==> f == 0.0
    ensures distSq >= DeadZone ==> f > 0.0 && f * distSq as real == Attraction
  {
    if distSq >= DeadZone then Attraction / distSq as real else 0.0
  }

  /** One axis of the velocity update: damping, then the pull over the cursor offset `d`. */
  function AxisVelocity(v: real, d: int, distSq: int): real
    requires distSq >= 0
  {
    v * Damping + d as real * Pull(distSq)
  }

  /** The velocity after damping and acceleration towards the cursor (tx, ty), lines 76-94. */
  function Accelerate(p: Particle, tx: int, ty: int): (v: (real, real))
    ensures var distSq := (p.X - tx) * (p.X - tx) + (p.Y - ty) * (p.Y - ty);
      distSq < DeadZone ==> v == (p.Xv * Damping, p.Yv * Damping)
    ensures var distSq := (p.X - tx) * (p.X - tx) + (p.Y - ty) * (p.Y - ty);
      distSq >= DeadZone ==>
        && (tx > p.X ==> v.0 > p.Xv * Damping) && (tx < p.X ==> v.0 < p.Xv * Damping)
        && (tx == p.X ==> v.0 == p.Xv * Damping)
        && (ty > p.Y ==> v.1 > p.Yv * Damping) && (ty < p.Y ==> v.1 < p.Yv * Damping)
        && (ty == p.Y ==> v.1 == p.Yv * Damping)
  {
    var dx, dy := p.X - tx, p.Y - ty;
    var distSq := dx * dx + dy * dy;
    (AxisVelocity(p.Xv, tx - p.X, distSq), AxisVelocity(p.Yv, ty - p.Y, distSq))
  }

  /** The reflection of one coordinate at the edges of [0, size), lines 100-119: the result and
      whether the axis bounced. */
  function Reflect(pos: int, size: int): (r: (int, bool))
    ensures r.1 <==> !(0 <= pos < size)
    ensures !r.1 ==> r.0 == pos
    ensures pos >= size ==> r.0 + pos == 2 * size - 1
    ensures 0 <= size <= pos ==> r.0 < size
    ensures pos < 0 <= size ==> r.0 == -pos && r.0 > 0
    ensures (0 <= r.0 < size) <==> (-size < pos < 2 * size)
  {
    if pos >= size then (size - (pos - size) - 1, true)
    else if pos < 0 then (-pos, true)
    else (pos, false)
  }

  /** The velocity of an axis after the step: negated and halved if it bounced (lines 121-128). */
  function Rebound(v: real, bounced: bool): (r: real)
    ensures !bounced ==> r == v
    ensures bounced ==> 2.0 * Abs(r) == Abs(v) && (v > 0.0 ==> r < 0.0) && (v < 0.0 ==> r > 0.0)
  {
    if bounced then -v * 0.5 else v
  }

  /** MainForm.AnimateImpl as a function of the particle, the cursor and the area. */
  function Step(p: Particle, tx: int, ty: int, width: int, height: int): (r: Particle)
    ensures Abs(r.Xv) <= Abs(Accelerate(p, tx, ty).0) && Abs(r.Yv) <= Abs(Accelerate(p, tx, ty).1)
  {
    var (xv, yv) := Accelerate(p, tx, ty);
    var (x, xBounced) := Reflect(p.X + Truncate(xv), width);
    var (y, yBounced) := Reflect(p.Y + Truncate(yv), height);
    Particle(x, y, Rebound(xv, xBounced), Rebound(yv, yBounced))
  }

  /** The bounce flags of lines 97-119 and their use in lines 121-128: an axis whose advanced
      coordinate is inside the area keeps it and keeps its accelerated velocity; an axis that
      left the area is reflected and only its velocity is negated and halved. */
  lemma StepAxes(p: Particle, tx: int, ty: int, width: int, height: int)
    ensures var (xv, yv) := Accelerate(p, tx, ty);
      var (x, y) := (p.X + Truncate(xv), p.Y + Truncate(yv));
      var r := Step(p, tx, ty, width, height);
      && (0 <= x < width ==> r.X == x && r.Xv == xv)
      && (!(0 <= x < width) ==> r.X == Reflect(x, width).0 && r.X != x && r.Xv == -xv * 0.5)
      && (0 <= y < height ==> r.Y == y && r.Yv == yv)
      && (!(0 <= y < height) ==> r.Y == Reflect(y, height).0 && r.Y != y && r.Yv == -yv * 0.5)
  {
  }

  /** One physics pass: every particle of `ps` stepped towards (tx, ty), in place. */
  /** A step lands inside the area exactly when the unreflected position is less than one
      area away from it on both axes: a single reflection cannot bring back a particle that
      overshoots further. */
  lemma StepInArea(p: Particle, tx: int, ty: int, width: int, height: int)
    ensures InArea(Step(p, tx, ty, width, height), width, height) <==>
      && -width < p.X + Truncate(Accelerate(p, tx, ty).0) < 2 * width
      && -height < p.Y + Truncate(Accelerate(p, tx, ty).1) < 2 * height
  {
    var (xv, yv) := Accelerate(p, tx, ty);
    var xr, yr := Reflect(p.X + Truncate(xv), width), Reflect(p.Y + Truncate(yv), height);
    assert Step(p, tx, ty, width, height).X == xr.0 && Step(p, tx, ty, width, height).Y == yr.0;
  }

  function StepAll(ps: seq<Particle>, tx: int, ty: int, width: int, height: int): (r: seq<Particle>)
    ensures |r| == |ps|
    ensures forall i :: 0 <= i < |ps| ==> r[i] == Step(ps[i], tx, ty, width, height)
  {
    seq(|ps|, i requires 0 <= i < |ps| => Step(ps[i], tx, ty, width, height))
  }

  lemma StepAllAppend(u: seq<Particle>, v: seq<Particle>, tx: int, ty: int, width: int, height: int)
    ensures StepAll(u + v, tx, ty, width, height) == StepAll(u, tx, ty, width, height) + StepAll(v, tx, ty, width, height)
  {
    var l, r := StepAll(u + v, tx, ty, width, height), StepAll(u, tx, ty, width, height) + StepAll(v, tx, ty, width, height);
    forall i | 0 <= i < |l| ensures l[i] == r[i] {
      if i >= |u| {
        assert (u + v)[i] == v[i - |u|];
      }
    }
  }

  /** Taking out the element at `j` takes it out of the multiset. */
  lemma MultisetRemove<T>(s: seq<T>, j: int)
    requires 0 <= j < |s|
    ensures multiset(s[..j] + s[j + 1..]) == multiset(s) - multiset{s[j]}
  {
    assert s == s[..j] + [s[j]] + s[j + 1..];
  }

  /** Stepping a sequence steps the particle at `j` together with all the others. */
  lemma StepAllRemove(b: seq<Particle>, j: int, tx: int, ty: int, width: int, height: int)
    requires 0 <= j < |b|
    ensures multiset(StepAll(b, tx, ty, width, height))
         == multiset(StepAll(b[..j] + b[j + 1..], tx, ty, width, height)) + multiset{Step(b[j], tx, ty, width, height)}
  {
    var front, back := b[..j], b[j + 1..];
    assert b == front + [b[j]] + back;
    StepAllAppend(front + [b[j]], back, tx, ty, width, height);
    StepAllAppend(front, [b[j]], tx, ty, width, height);
    StepAllAppend(front, back, tx, ty, width, height);
    var sf, sb := StepAll(front, tx, ty, width, height), StepAll(back, tx, ty, width, height);
    assert StepAll([b[j]], tx, ty, width, height) == [Step(b[j], tx, ty, width, height)];
    assert multiset(StepAll(b, tx, ty, width, height)) == multiset(sf) + multiset{Step(b[j], tx, ty, width, height)} + multiset(sb);
  }

  /** A pass steps each particle on its own, so it commutes with any reordering: stepping a
      permutation of the particles gives a permutation of the stepped particles. */
  lemma {:induction false} StepAllPermutation(a: seq<Particle>, b: seq<Particle>, tx: int, ty: int, width: int, height: int)
    requires multiset(a) == multiset(b)
    ensures multiset(StepAll(a, tx, ty, width, height)) == multiset(StepAll(b, tx, ty, width, height))
    decreases |a|
  {
    if a == [] {
      assert |b| == |multiset(b)| == 0;
    } else {
      var n := |a| - 1;
      assert a[n] in multiset(b);
      var j :| 0 <= j < |b| && b[j] == a[n];
      MultisetRemove(a, n);
      MultisetRemove(b, j);
      StepAllPermutation(a[..n] + a[n + 1..], b[..j] + b[j + 1..], tx, ty, width, height);
      StepAllRemove(a, n, tx, ty, width, height);
      StepAllRemove(b, j, tx, ty, width, height);
    }
  }

  predicate InArea(p: Particle, width: int, height: int)
  {
    0 <= p.X < width && 0 <= p.Y < height
  }

  /** In the area and no faster than MaxSpeed on either axis. */
  predicate Settled(p: Particle, width: int, height: int)
  {
    InArea(p, width, height) && -MaxSpeed <= p.Xv <= MaxSpeed && -MaxSpeed <= p.Yv <= MaxSpeed
  }

  function Abs(v: real): real
  {
    if v < 0.0 then -v else v
  }

  /** A coordinate in [0, size) moved by a displacement in [-(size - 1), size] reflects back
      into [0, size); nothing guards larger displacements. */
  lemma ReflectStaysInside(pos: int, d: int, size: int)
    requires 0 <= pos < size && -(size - 1) <= d <= size
    ensures 0 <= Reflect(pos + d, size).0 < size
  {
  }

  /** The dead zone caps the pull on one axis: |d| * Pull(distSq) <= Attraction / 20 when
      d^2 <= distSq, because outside the dead zone 20 |d| <= distSq. */
  lemma PullBound(d: int, distSq: int)
    requires 0 <= d * d <= distSq
    ensures Abs(d as real * Pull(distSq)) <= Attraction / 20.0
  {
    if distSq >= DeadZone {
      var m := if d < 0 then -d else d;
      assert 20 * m <= distSq by {
        assert d * d == m * m;
        if m >= 20 {
          assert m * m >= 20 * m;
        }
      }
    }
  }

  /** One axis of Accelerate: the damped velocity plus a pull of at most Attraction / 20 stays
      within MaxSpeed, since MaxSpeed * Damping + Attraction / 20 == MaxSpeed. */
  lemma DampedPullKeepsSpeed(v: real, pull: real)
    requires Abs(v) <= MaxSpeed && Abs(pull) <= Attraction / 20.0
    ensures Abs(v * Damping + pull) <= MaxSpeed
  {
    assert MaxSpeed * Damping + Attraction / 20.0 == MaxSpeed;
    assert Abs(v * Damping) <= MaxSpeed * Damping;
  }

  /** One axis of Accelerate, with `d` the cursor offset on that axis. */
  lemma AxisKeepsSpeed(v: real, d: int, distSq: int)
    requires Abs(v) <= MaxSpeed && 0 <= d * d <= distSq
    ensures Abs(AxisVelocity(v, d, distSq)) <= MaxSpeed
  {
    PullBound(d, distSq);
    DampedPullKeepsSpeed(v, d as real * Pull(distSq));
  }

  /** The damped, accelerated velocity stays within MaxSpeed when the old one was. */
  lemma AccelerateKeepsSpeed(p: Particle, tx: int, ty: int)
    requires Abs(p.Xv) <= MaxSpeed && Abs(p.Yv) <= MaxSpeed
    ensures Abs(Accelerate(p, tx, ty).0) <= MaxSpeed && Abs(Accelerate(p, tx, ty).1) <= MaxSpeed
  {
    var dx, dy := p.X - tx, p.Y - ty;
    var distSq := dx * dx + dy * dy;
    assert (tx - p.X) * (tx - p.X) == dx * dx && (ty - p.Y) * (ty - p.Y) == dy * dy;
    assert 0 <= dx * dx && 0 <= dy * dy;
    AxisKeepsSpeed(p.Xv, tx - p.X, distSq);
    AxisKeepsSpeed(p.Yv, ty - p.Y, distSq);
  }

  /** A speed of at most MaxSpeed moves a coordinate by at most MinSafeSide - 1 pixels. */
  lemma TruncatedSpeed(v: real)
    requires Abs(v) <= MaxSpeed
    ensures -(MinSafeSide - 1) <= Truncate(v) <= MinSafeSide - 1
  {
    assert MaxSpeed < MinSafeSide as real;
  }

  /** The boundary invariant: a settled particle stays settled after a step, in any area whose
      sides are at least MinSafeSide. */
  lemma StepStaysSettled(p: Particle, tx: int, ty: int, width: int, height: int)
    requires Settled(p, width, height)
    requires width >= MinSafeSide && height >= MinSafeSide
    ensures Settled(Step(p, tx, ty, width, height), width, height)
  {
    var (xv, yv) := Accelerate(p, tx, ty);
    AccelerateKeepsSpeed(p, tx, ty);
    TruncatedSpeed(xv);
    TruncatedSpeed(yv);
    ReflectStaysInside(p.X, Truncate(xv), width);
    ReflectStaysInside(p.Y, Truncate(yv), height);
  }
}
