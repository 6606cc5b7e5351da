/** The reference positions for the model predictive controller: six sample times are looked up in
    the commanded trajectory and interpolated. */
module MpcReference {
  import opened PathSampling
  import opened RealProducts
  import opened SpeedProfile
  import opened TrajectoryCommand
  import opened Hermite

  const PREDICTION_STEPS: nat := 6
  const DELAY_COMPENSATION_STEPS: nat := 3
  const DT_CONTROL_LOOP: nat := 20_000_000
  const DT_MPC: nat := 50_000_000

  function PredictionTime(now: nat, i: nat): nat {
    now + DELAY_COMPENSATION_STEPS * DT_CONTROL_LOOP + DT_MPC + i * DT_MPC
  }

  /** The two range checks. */
  predicate InRange(points: seq<TrajectoryPoint>, now: nat) {
    && |points| >= 2
    && points[0].t < PredictionTime(now, 0)
    && points[|points| - 1].t >= PredictionTime(now, PREDICTION_STEPS - 1)
  }

  predicate Sorted(points: seq<TrajectoryPoint>) {
    forall i, j | 0 <= i <= j < |points| :: points[i].t <= points[j].t
  }

  /** Time `t` lies in the segment that ends at point `k`. */
  predicate Brackets(points: seq<TrajectoryPoint>, k: nat, t: nat) {
    1 <= k < |points| && points[k - 1].t < t <= points[k].t
  }

  ghost predicate HasSegment(points: seq<TrajectoryPoint>, t: nat) {
    exists k: nat :: Brackets(points, k, t)
  }

  /** First point from `from` on that is not before `t`. */
  function FirstNotBefore(points: seq<TrajectoryPoint>, t: nat, from: nat): (k: nat)
    requires from <= |points|
    ensures from <= k <= |points| && (k < |points| ==> points[k].t >= t)
    ensures forall j | from <= j < k :: points[j].t < t
    decreases |points| - from
  {
    if from == |points| || points[from].t >= t then from else FirstNotBefore(points, t, from + 1)
  }

  /** Once the two checks pass, every sample time has a segment around it, which is the one the
      search finds; it ends after `now` and has positive length. The points need not be sorted. */
  lemma LookupSound(points: seq<TrajectoryPoint>, now: nat, i: nat)
    requires InRange(points, now) && i < PREDICTION_STEPS
    ensures var k := FirstNotBefore(points, PredictionTime(now, i), 1);
            Brackets(points, k, PredictionTime(now, i)) && now <= points[k].t
  {
    var t := PredictionTime(now, i);
    var k := FirstNotBefore(points, t, 1);
    assert points[|points| - 1].t >= t;
  }

  /** For sorted points the checks ask for no more than is needed. */
  lemma ChecksExact(points: seq<TrajectoryPoint>, now: nat)
    requires |points| >= 2 && Sorted(points)
    ensures InRange(points, now) <==>
            forall i: nat | i < PREDICTION_STEPS :: HasSegment(points, PredictionTime(now, i))
  {
    if InRange(points, now) {
      forall i: nat | i < PREDICTION_STEPS
        ensures HasSegment(points, PredictionTime(now, i))
      {
        LookupSound(points, now, i);
      }
    }
    if forall i: nat | i < PREDICTION_STEPS :: HasSegment(points, PredictionTime(now, i)) {
      assert HasSegment(points, PredictionTime(now, 0)) && HasSegment(points, PredictionTime(now, PREDICTION_STEPS - 1));
      var k: nat :| Brackets(points, k, PredictionTime(now, 0));
      var l: nat :| Brackets(points, l, PredictionTime(now, PREDICTION_STEPS - 1));
      assert points[0].t <= points[k - 1].t && points[l].t <= points[|points| - 1].t;
    }
  }

  /** What the lab control center sends is usable: a command made at `now` passes both checks at
      every control step from 190 ms until 940 ms later. */
  lemma SentCommandUsable(c: Command, trajectory: seq<TrajectoryPoint>, now: nat, later: nat)
    requires Followable(c, trajectory, now)
    requires now + 190_000_000 < later <= now + 940_000_000
    ensures InRange(c.points, later)
  {
  }

  ghost function Reference(points: seq<TrajectoryPoint>, now: nat, i: nat): Interpolation
    requires InRange(points, now) && i < PREDICTION_STEPS
  {
    LookupSound(points, now, i);
    var t := PredictionTime(now, i);
    var k := FirstNotBefore(points, t, 1);
    Interpolate(Seconds(t), points[k - 1], points[k])
  }

  function SquaredSpeed(i: Interpolation): real {
    i.velocityX * i.velocityX + i.velocityY * i.velocityY
  }

  function Speed(i: Interpolation, sqrt: SquareRoot): real {
    sqrt(SquaredSpeed(i))
  }

  function CurvatureAt(i: Interpolation, speed: real): real
    requires speed * speed * speed != 0.0
  {
    (i.velocityX * i.accelerationY - i.velocityY * i.accelerationX) / (speed * speed * speed)
  }

  /** Neither acceleration nor, while driving, curvature is too large. */
  predicate Drivable(i: Interpolation, sqrt: SquareRoot) {
    && Abs(i.accelerationX) <= 20.0 && Abs(i.accelerationY) <= 20.0
    && var speed := Speed(i, sqrt);
       !(Abs(speed) > 0.1 && TooCurved(i, speed))
  }

  predicate TooCurved(i: Interpolation, speed: real)
    requires Abs(speed) > 0.1
  {
    CubeNotZero(speed);
    Abs(CurvatureAt(i, speed)) > 50.0
  }

  lemma CubeNotZero(speed: real)
    requires speed != 0.0
    ensures speed * speed * speed != 0.0
  {
    assert speed * speed != 0.0;
  }

  /** For a vehicle that moves straight on at constant velocity, the six references are where it will
      be 110, 160, ..., 360 ms from now. */
  lemma UniformMotionReferences(points: seq<TrajectoryPoint>, now: nat, i: nat, x: real, y: real, vx: real, vy: real)
    requires InRange(points, now) && i < PREDICTION_STEPS
    requires forall k | 0 <= k < |points| ::
               && points[k].px == x + vx * Seconds(points[k].t) && points[k].py == y + vy * Seconds(points[k].t)
               && points[k].vx == vx && points[k].vy == vy
    ensures var t := Seconds(now + 110_000_000 + i * 50_000_000);
            Reference(points, now, i) == Interpolation(x + vx * t, y + vy * t, vx, vy, 0.0, 0.0)
  {
    hide Interpolate, Seconds;
    LookupSound(points, now, i);
    var t := PredictionTime(now, i);
    assert t == now + 110_000_000 + i * 50_000_000;
    var k := FirstNotBefore(points, t, 1);
    UniformReproduced(points[k - 1], points[k], Seconds(t), x, y);
  }

  /** A vehicle at speed `v` that turns at `w` radians per second, heading where the cosine is `c`
      and the sine `s`. */
  function Turning(v: real, w: real, c: real, s: real): Interpolation {
    Interpolation(0.0, 0.0, v * c, v * s, -(v * w * s), v * w * c)
  }

  /** Its speed is `v` and its curvature `w / v`; and it is found drivable exactly if both components
      of its acceleration are at most 20 and, above 0.1 m/s, the curvature is at most 50. */
  lemma TurningDrivableIff(v: real, w: real, c: real, s: real, sqrt: SquareRoot)
    requires v > 0.0 && c * c + s * s == 1.0 && IsSquareRoot(sqrt)
    ensures Speed(Turning(v, w, c, s), sqrt) == v
    ensures v * v * v != 0.0 && CurvatureAt(Turning(v, w, c, s), v) == w / v
    ensures Drivable(Turning(v, w, c, s), sqrt) <==>
              Abs(v * w * s) <= 20.0 && Abs(v * w * c) <= 20.0 && (v > 0.1 ==> Abs(w / v) <= 50.0)
  {
    TurningSpeed(v, w, c, s, sqrt);
    TurningCurvature(v, w, c, s);
    hide Speed, CurvatureAt, IsSquareRoot;
  }

  lemma TurningSpeed(v: real, w: real, c: real, s: real, sqrt: SquareRoot)
    requires v > 0.0 && c * c + s * s == 1.0 && IsSquareRoot(sqrt)
    ensures Speed(Turning(v, w, c, s), sqrt) == v
  {
    hide IsSquareRoot;
    OnCircle(v, c, s);
    var square := v * v;
    assert SquaredSpeed(Turning(v, w, c, s)) == square;
    hide SquaredSpeed, Turning;
    RootOfSquare(v, square, sqrt);
  }

  lemma RootOfSquare(v: real, square: real, sqrt: SquareRoot)
    requires v > 0.0 && square == v * v && IsSquareRoot(sqrt)
    ensures sqrt(square) == v
  {
    Positive(v, v);
    Unfold(v, v);
    assert square >= 0.0;
    var q := sqrt(square);
    assert q >= 0.0 && q * q == square;
    hide IsSquareRoot;
    SameRoot(q, v);
  }

  lemma SameRoot(q: real, v: real)
    requires q >= 0.0 && v > 0.0 && q * q == v * v
    ensures q == v
  {
    assert (q - v) * (q + v) == 0.0;
    assert q + v > 0.0;
  }

  lemma TurningCurvature(v: real, w: real, c: real, s: real)
    requires v > 0.0 && c * c + s * s == 1.0
    ensures v * v * v != 0.0 && CurvatureAt(Turning(v, w, c, s), v) == w / v
  {
    CubeNotZero(v);
    var n := (v * c) * (v * w * c) - (v * s) * -(v * w * s);
    CrossProduct(v, w, c, s, n);
    CubeQuotient(v, w, n);
  }

  lemma CrossProduct(v: real, w: real, c: real, s: real, n: real)
    requires c * c + s * s == 1.0 && n == (v * c) * (v * w * c) - (v * s) * -(v * w * s)
    ensures n == v * v * w
  {
    assert (v * c) * (v * w * c) == (v * v * w) * (c * c);
    assert (v * s) * -(v * w * s) == -((v * v * w) * (s * s));
    assert (v * v * w) * (c * c) + (v * v * w) * (s * s) == (v * v * w) * (c * c + s * s);
  }

  lemma CubeQuotient(v: real, w: real, n: real)
    requires v > 0.0 && n == v * v * w
    ensures v * v * v > 0.0 && n / (v * v * v) == w / v
  {
    Positive(v, v);
    Positive(v, v * v);
    var q := w / v;
    assert w == q * v;
    assert n == q * (v * v * v);
  }

  /** Succeeds exactly if the range checks pass and all six interpolations are drivable; then the
      outputs are their positions. */
  method InterpolateReferenceTrajectory(now: nat, points: seq<TrajectoryPoint>, sqrt: SquareRoot)
      returns (ok: bool, xs: seq<real>, ys: seq<real>)
    ensures ok <==> InRange(points, now) && forall i: nat | i < PREDICTION_STEPS :: Drivable(Reference(points, now, i), sqrt)
    ensures ok ==> |xs| == |ys| == PREDICTION_STEPS
                   && forall i: nat | i < PREDICTION_STEPS ::
                        xs[i] == Reference(points, now, i).positionX && ys[i] == Reference(points, now, i).positionY
  {
    hide Interpolate, Drivable;
    ok, xs, ys := false, [], [];
    if |points| < 2 {
      return;
    }
    var start := now + DELAY_COMPENSATION_STEPS * DT_CONTROL_LOOP + DT_MPC;
    var end := start + (PREDICTION_STEPS - 1) * DT_MPC;
    if points[0].t >= start || points[|points| - 1].t < end {
      return;
    }
    for i := 0 to PREDICTION_STEPS
      invariant InRange(points, now) && |xs| == |ys| == i
      invariant forall j: nat | j < i :: Drivable(Reference(points, now, j), sqrt)
      invariant forall j: nat | j < i ::
                  xs[j] == Reference(points, now, j).positionX && ys[j] == Reference(points, now, j).positionY
    {
      var t := start + i * DT_MPC;
      var k := FindEnd(points, t);
      LookupSound(points, now, i);
      assert now <= points[k].t;
      assert points[k - 1].t <= t;
      assert t <= points[k].t;
      var interpolation := Interpolate(Seconds(t), points[k - 1], points[k]);
      assert interpolation == Reference(points, now, i);
      if !Drivable(interpolation, sqrt) {
        return;
      }
      xs, ys := xs + [interpolation.positionX], ys + [interpolation.positionY];
    }
    ok := true;
  }

  method FindEnd(points: seq<TrajectoryPoint>, t: nat) returns (k: nat)
    requires |points| >= 1
    ensures k == FirstNotBefore(points, t, 1)
  {
    k := 1;
    while k < |points| && points[k].t < t
      invariant 1 <= k <= |points| && FirstNotBefore(points, t, 1) == FirstNotBefore(points, t, k)
    {
      k := k + 1;
    }
  }
}
