/** Timed trajectories from paths, and the part of each that is sent to its vehicle. */
module TrajectoryCommand {
  import opened Options
  import opened RealProducts
  import opened SpeedProfile
  import opened PathSampling

  const DT_NANOS: nat := 100_000_000
  const MAX_COMM_DELAY: nat := 200_000_000
  const T_MIN_LEAD: nat := 500_000_000
  const T_COMMAND_TIMEOUT: nat := 500_000_000
  const DEFAULT_DELAY: nat := 500_000_000
  const NANOS: real := 1000000000.0

  datatype TrajectoryPoint = TrajectoryPoint(t: nat, px: real, py: real, vx: real, vy: real)

  /** The duration that is reported; a path of length 0 divides 0 by 0, and the conversion of the
      result to an integer is undefined. */
  datatype Duration = Duration(nanos: nat) | Undefined

  function SampleTime(k: nat): real {
    k as real / 10.0
  }

  function DurationNanos(p: Profile): (nanos: nat)
    requires p.Valid()
    ensures nanos as real <= NANOS * p.TotalTime() < nanos as real + 1.0
  {
    (NANOS * p.TotalTime()).Floor
  }

  function PathIndex(path: seq<Pose2D>, p: Profile, k: nat, sqrt: SquareRoot): (i: nat)
    requires path != []
    ensures i < |path|
    ensures forall j: nat | j < |path| ::
              Abs(ArcLength(path, i, sqrt) - NodeAt(p, SampleTime(k)).distance) <= Abs(ArcLength(path, j, sqrt) - NodeAt(p, SampleTime(k)).distance)
  {
    NearestOnPath(path, NodeAt(p, SampleTime(k)).distance, sqrt);
    Nearest(ArcLengths(path, sqrt), NodeAt(p, SampleTime(k)).distance, |path|)
  }

  lemma NearestOnPath(path: seq<Pose2D>, d: real, sqrt: SquareRoot)
    requires path != []
    ensures forall j: nat | j < |path| ::
              Abs(ArcLength(path, Nearest(ArcLengths(path, sqrt), d, |path|), sqrt) - d) <= Abs(ArcLength(path, j, sqrt) - d)
  {
    var arc := ArcLengths(path, sqrt);
    var best := Nearest(arc, d, |path|);
    assert forall j: nat | j < |path| :: arc[j] == ArcLength(path, j, sqrt);
  }

  /** Sines and cosines enter only through this. */
  ghost predicate OnUnitCircle(cos: real -> real, sin: real -> real) {
    forall a: real :: cos(a) * cos(a) + sin(a) * sin(a) == 1.0
  }

  /** The trajectory of a path: a sample every 0.1 s for as long as the profile lasts. */
  ghost predicate Samples(points: seq<TrajectoryPoint>, path: seq<Pose2D>, p: Profile, start: nat, m: Maths)
    requires path != []
  {
    && (forall k: nat | k < |points| :: points[k] == PointAt(path, p, start, k, m) && SampleTime(k) < p.TotalTime())
    && SampleTime(|points|) >= p.TotalTime()
  }

  datatype Maths = Maths(sqrt: SquareRoot, cos: real -> real, sin: real -> real) {
    ghost predicate Valid() {
      IsSquareRoot(sqrt) && OnUnitCircle(cos, sin)
    }
  }

  function PointAt(path: seq<Pose2D>, p: Profile, start: nat, k: nat, m: Maths): TrajectoryPoint
    requires path != []
  {
    var pose, speed := path[PathIndex(path, p, k, m.sqrt)], NodeAt(p, SampleTime(k)).speed;
    TrajectoryPoint(start + k * DT_NANOS, pose.x, pose.y, speed * m.cos(pose.yaw), speed * m.sin(pose.yaw))
  }

  // What every trajectory guarantees.

  predicate Standing(point: TrajectoryPoint) {
    point.vx == 0.0 && point.vy == 0.0
  }

  /** It starts at the path's start and ends at its end, at rest; the points visited go forward
      along the path; the times are 0.1 s apart. */
  lemma FromStartToEnd(points: seq<TrajectoryPoint>, path: seq<Pose2D>, p: Profile, start: nat, m: Maths)
    requires path != [] && m.Valid() && p.Valid() && p.distance == TotalDistance(path, m.sqrt)
    requires Samples(points, path, p, start, m)
    ensures |points| >= 31
    ensures Standing(points[0]) && points[0].px == path[0].x && points[0].py == path[0].y
    ensures var last, end := points[|points| - 1], path[|path| - 1];
            Standing(last) && last.px == end.x && last.py == end.y
    ensures forall k: nat, l: nat | k <= l < |points| :: PathIndex(path, p, k, m.sqrt) <= PathIndex(path, p, l, m.sqrt)
    ensures forall k: nat | k < |points| :: points[k].t == start + k * DT_NANOS
  {
    LongEnough(p, |points|);
    hide Samples, NodeAt, Nearest;
    ArcNonDecreasing(path, m.sqrt);
    FirstSample(points, path, p, start, m);
    LastSample(points, path, p, start, m);
    forall k: nat, l: nat | k <= l < |points|
      ensures PathIndex(path, p, k, m.sqrt) <= PathIndex(path, p, l, m.sqrt)
    {
      DistanceGrows(p, SampleTime(k), SampleTime(l));
      NearestMonotone(ArcLengths(path, m.sqrt), NodeAt(p, SampleTime(k)).distance, NodeAt(p, SampleTime(l)).distance);
    }
    forall k: nat | k < |points|
      ensures points[k].t == start + k * DT_NANOS
    {
      assert points[k] == PointAt(path, p, start, k, m) by { SampleIs(points, path, p, start, m, k); }
    }
  }

  lemma LongEnough(p: Profile, n: nat)
    requires p.Valid() && SampleTime(n) >= p.TotalTime()
    ensures n >= 31
  {
    assert p.TotalTime() > 3.0;
  }

  lemma SampleIs(points: seq<TrajectoryPoint>, path: seq<Pose2D>, p: Profile, start: nat, m: Maths, k: nat)
    requires path != [] && Samples(points, path, p, start, m) && k < |points|
    ensures points[k] == PointAt(path, p, start, k, m) && SampleTime(k) < p.TotalTime() <= SampleTime(|points|)
  {
  }

  lemma FirstSample(points: seq<TrajectoryPoint>, path: seq<Pose2D>, p: Profile, start: nat, m: Maths)
    requires path != [] && p.Valid() && points != []
    requires Samples(points, path, p, start, m)
    ensures Standing(points[0]) && points[0].px == path[0].x && points[0].py == path[0].y
  {
    hide NodeAt, Samples, Nearest, Profile.Valid;
    SampleIs(points, path, p, start, m, 0);
    Boundaries(p, SampleTime(0));
    NearestAtEnds(ArcLengths(path, m.sqrt), 0.0);
  }

  lemma LastSample(points: seq<TrajectoryPoint>, path: seq<Pose2D>, p: Profile, start: nat, m: Maths)
    requires path != [] && p.Valid() && points != [] && IsSquareRoot(m.sqrt) && p.distance == TotalDistance(path, m.sqrt)
    requires Samples(points, path, p, start, m)
    ensures var last, end := points[|points| - 1], path[|path| - 1];
            Standing(last) && last.px == end.x && last.py == end.y
  {
    var k := |points| - 1;
    hide NodeAt, Samples, Nearest, Profile.Valid, IsSquareRoot;
    SampleIs(points, path, p, start, m, k);
    Boundaries(p, SampleTime(k));
    assert SampleTime(k) >= p.TotalTime() - STANDSTILL_TIME;
    var arc := ArcLengths(path, m.sqrt);
    NearestAtEnds(arc, p.distance);
    var i := PathIndex(path, p, k, m.sqrt);
    SamePlace(path, i, |path| - 1, m.sqrt);
  }

  /** No sample is faster than the profile's top speed, and a sample that moves lies strictly between
      the two standstills. */
  lemma SpeedLimit(points: seq<TrajectoryPoint>, path: seq<Pose2D>, p: Profile, start: nat, m: Maths, k: nat)
    requires path != [] && m.Valid() && p.Valid() && Samples(points, path, p, start, m) && k < |points|
    ensures points[k].vx * points[k].vx + points[k].vy * points[k].vy <= MAX_SPEED * MAX_SPEED
    ensures !Standing(points[k]) ==> STANDSTILL_TIME < SampleTime(k) < p.TotalTime() - STANDSTILL_TIME
  {
    hide *;
    var v, c, s := SampleVelocity(points, path, p, start, m, k);
    Velocity(points[k], v, c, s);
  }

  lemma SampleVelocity(points: seq<TrajectoryPoint>, path: seq<Pose2D>, p: Profile, start: nat, m: Maths, k: nat)
      returns (v: real, c: real, s: real)
    requires path != [] && m.Valid() && p.Valid() && Samples(points, path, p, start, m) && k < |points|
    ensures points[k].vx == v * c && points[k].vy == v * s && c * c + s * s == 1.0 && 0.0 <= v <= MAX_SPEED
    ensures v > 0.0 ==> STANDSTILL_TIME < SampleTime(k) < p.TotalTime() - STANDSTILL_TIME
  {
    hide *;
    SampleIs(points, path, p, start, m, k);
    Boundaries(p, SampleTime(k));
    TopSpeed(p);
    v := NodeAt(p, SampleTime(k)).speed;
    c, s := VelocityFactors(path, p, start, k, m);
  }

  lemma TopSpeed(p: Profile)
    requires p.Valid()
    ensures p.speed <= MAX_SPEED
  {
  }

  lemma VelocityFactors(path: seq<Pose2D>, p: Profile, start: nat, k: nat, m: Maths) returns (c: real, s: real)
    requires path != [] && m.Valid()
    ensures var point, v := PointAt(path, p, start, k, m), NodeAt(p, SampleTime(k)).speed;
            point.vx == v * c && point.vy == v * s && c * c + s * s == 1.0
  {
    hide NodeAt, PathIndex;
    var yaw := path[PathIndex(path, p, k, m.sqrt)].yaw;
    c, s := m.cos(yaw), m.sin(yaw);
  }

  lemma Velocity(point: TrajectoryPoint, v: real, c: real, s: real)
    requires point.vx == v * c && point.vy == v * s && c * c + s * s == 1.0 && 0.0 <= v <= MAX_SPEED
    ensures point.vx * point.vx + point.vy * point.vy <= MAX_SPEED * MAX_SPEED
    ensures v == 0.0 ==> Standing(point)
  {
    OnCircle(v, c, s);
    SquareBound(v, MAX_SPEED);
  }

  lemma OnCircle(v: real, c: real, s: real)
    requires c * c + s * s == 1.0
    ensures (v * c) * (v * c) + (v * s) * (v * s) == v * v
  {
    assert (v * c) * (v * c) == (v * v) * (c * c);
    assert (v * s) * (v * s) == (v * v) * (s * s);
    assert (v * v) * (c * c) + (v * v) * (s * s) == (v * v) * (c * c + s * s);
  }

  lemma SquareBound(v: real, top: real)
    requires 0.0 <= v <= top
    ensures v * v <= top * top
  {
    Monotone(v, v, top);
    Monotone(top, v, top);
    Commute(v, top);
    Unfold(v, v);
    Unfold(top, top);
    hide Times;
  }

  /** Every sample is at the path point nearest to the distance travelled, and its velocity points
      along that point's heading, with the speed of the profile: nothing across it. */
  lemma AlongHeading(points: seq<TrajectoryPoint>, path: seq<Pose2D>, p: Profile, start: nat, m: Maths, k: nat)
    requires path != [] && m.Valid() && p.Valid() && Samples(points, path, p, start, m) && k < |points|
    ensures var pose, speed := path[PathIndex(path, p, k, m.sqrt)], NodeAt(p, SampleTime(k)).speed;
            && points[k].px == pose.x && points[k].py == pose.y && speed >= 0.0
            && points[k].vx * m.cos(pose.yaw) + points[k].vy * m.sin(pose.yaw) == speed
            && points[k].vx * m.sin(pose.yaw) == points[k].vy * m.cos(pose.yaw)
  {
    hide *;
    SampleIs(points, path, p, start, m, k);
    Boundaries(p, SampleTime(k));
    PointIs(path, p, start, k, m);
    UnitCircle(m, path[PathIndex(path, p, k, m.sqrt)].yaw);
    var pose, v := path[PathIndex(path, p, k, m.sqrt)], NodeAt(p, SampleTime(k)).speed;
    Projected(points[k].vx, points[k].vy, v, m.cos(pose.yaw), m.sin(pose.yaw));
  }

  lemma PointIs(path: seq<Pose2D>, p: Profile, start: nat, k: nat, m: Maths)
    requires path != []
    ensures var pose, v, point := path[PathIndex(path, p, k, m.sqrt)], NodeAt(p, SampleTime(k)).speed, PointAt(path, p, start, k, m);
            point.px == pose.x && point.py == pose.y && point.vx == v * m.cos(pose.yaw) && point.vy == v * m.sin(pose.yaw)
  {
    hide NodeAt, PathIndex;
  }

  lemma UnitCircle(m: Maths, yaw: real)
    requires m.Valid()
    ensures m.cos(yaw) * m.cos(yaw) + m.sin(yaw) * m.sin(yaw) == 1.0
  {
  }

  lemma Projected(vx: real, vy: real, v: real, c: real, s: real)
    requires vx == v * c && vy == v * s && c * c + s * s == 1.0
    ensures vx * c + vy * s == v && vx * s == vy * c
  {
    assert vx * c == v * (c * c) && vy * s == v * (s * s);
    assert v * (c * c) + v * (s * s) == v * (c * c + s * s);
  }

  /** On a path with heading 0 all the way no vehicle is sent sideways, and one that moves is sent forward. */
  lemma StraightAhead(points: seq<TrajectoryPoint>, path: seq<Pose2D>, p: Profile, start: nat, m: Maths, k: nat)
    requires path != [] && m.Valid() && p.Valid() && Samples(points, path, p, start, m) && k < |points|
    requires m.cos(0.0) == 1.0 && m.sin(0.0) == 0.0 && forall i | 0 <= i < |path| :: path[i].yaw == 0.0
    ensures points[k].vy == 0.0 && points[k].vx >= 0.0
    ensures STANDSTILL_TIME < SampleTime(k) < p.TotalTime() - STANDSTILL_TIME ==> points[k].vx > 0.0
  {
    hide Samples, NodeAt, PathIndex, PointAt, IsSquareRoot, OnUnitCircle, Profile.Valid;
    AlongHeading(points, path, p, start, m, k);
    Boundaries(p, SampleTime(k));
  }

  /** Samples in time order. */
  ghost predicate Timed(points: seq<TrajectoryPoint>) {
    forall k: nat | k < |points| :: points[k].t == points[0].t + k * DT_NANOS
  }

  // Sending.

  datatype Command = Command(points: seq<TrajectoryPoint>, createStamp: nat, validAfter: nat)

  function ValidNanos(now: nat): nat {
    now + MAX_COMM_DELAY + DT_NANOS
  }

  /** A command that a vehicle can follow: the points start at the last one that is not after the
      time from which the command is valid, and go on for at least a second after it. */
  ghost predicate Followable(c: Command, points: seq<TrajectoryPoint>, now: nat) {
    && c.createStamp == now && c.validAfter == ValidNanos(now)
    && 2 <= |c.points| <= 20
    && c.points[0].t <= c.validAfter < c.points[1].t
    && c.points[|c.points| - 1].t >= c.validAfter + T_MIN_LEAD + T_COMMAND_TIMEOUT
    && exists i: nat :: SliceAt(c.points, points, i) && (|c.points| == 20 || i + |c.points| == |points|)
  }

  ghost predicate SliceAt(slice: seq<TrajectoryPoint>, points: seq<TrajectoryPoint>, i: nat) {
    i + |slice| <= |points| && slice == points[i..i + |slice|]
  }

  /** Whether a command is due: the trajectory has begun and lasts long enough. */
  predicate Due(points: seq<TrajectoryPoint>, now: nat) {
    && points != []
    && points[|points| - 1].t >= ValidNanos(now) + T_MIN_LEAD + T_COMMAND_TIMEOUT
    && points[0].t <= ValidNanos(now)
  }

  class Sender {
    const maths: Maths
    var vehicleTrajectories: map<nat, seq<TrajectoryPoint>>

    ghost predicate Valid()
      reads this
    {
      && maths.Valid()
      && forall id | id in vehicleTrajectories :: Timed(vehicleTrajectories[id])
    }

    constructor (maths: Maths)
      requires maths.Valid()
      ensures Valid() && this.maths == maths && vehicleTrajectories == map[]
    {
      this.maths := maths;
      vehicleTrajectories := map[];
    }

    /** Plans the speed along the path and stores the samples; they start `delay` after `now`. */
    method SetPath(vehicleId: nat, path: seq<Pose2D>, delay: nat, now: nat) returns (duration: Duration)
      requires Valid()
      modifies this
      ensures Valid()
      ensures |path| < 3 ==> duration == Duration(0) && vehicleTrajectories == old(vehicleTrajectories)
      ensures |path| >= 3 ==>
        && vehicleTrajectories.Keys == old(vehicleTrajectories).Keys + {vehicleId}
        && forall id | id in old(vehicleTrajectories) && id != vehicleId :: vehicleTrajectories[id] == old(vehicleTrajectories)[id]
      ensures |path| >= 3 ==>
        var total := TotalDistance(path, maths.sqrt);
        if total <= 0.0 then duration == Undefined && vehicleTrajectories[vehicleId] == []
        else
          var p := Plan(total, maths.sqrt);
          && duration == Duration(DurationNanos(p))
          && Samples(vehicleTrajectories[vehicleId], path, p, now + delay, maths)
    {
      if |path| < 3 {
        return Duration(0);
      }
      var arcLength := ComputeArcLengths(path, maths.sqrt);
      var total := arcLength[|path| - 1];
      if total <= 0.0 {
        vehicleTrajectories := vehicleTrajectories[vehicleId := []];
        return Undefined;
      }
      var p := Plan(total, maths.sqrt);
      var trajectory := SampleAll(path, arcLength, p, now + delay, maths);
      vehicleTrajectories := vehicleTrajectories[vehicleId := trajectory];
      duration := Duration(DurationNanos(p));
    }

    method SetPathSoon(vehicleId: nat, path: seq<Pose2D>, now: nat)
      requires Valid()
      modifies this
      ensures Valid()
      ensures |path| >= 3 && TotalDistance(path, maths.sqrt) > 0.0 ==>
        && vehicleId in vehicleTrajectories
        && Samples(vehicleTrajectories[vehicleId], path, Plan(TotalDistance(path, maths.sqrt), maths.sqrt), now + DEFAULT_DELAY, maths)
    {
      var _ := SetPath(vehicleId, path, DEFAULT_DELAY, now);
    }

    method Stop(vehicleId: nat)
      requires Valid()
      modifies this
      ensures Valid() && vehicleTrajectories == old(vehicleTrajectories) - {vehicleId}
    {
      vehicleTrajectories := vehicleTrajectories - {vehicleId};
    }

    /** One command for every vehicle whose trajectory is due, and none for the others. */
    method SendTrajectory(now: nat) returns (commands: map<nat, Command>)
      requires Valid()
      ensures forall id :: id in commands <==> id in vehicleTrajectories && Due(vehicleTrajectories[id], now)
      ensures forall id | id in commands :: Followable(commands[id], vehicleTrajectories[id], now)
    {
      commands := map[];
      var pending := vehicleTrajectories.Keys;
      while pending != {}
        invariant pending <= vehicleTrajectories.Keys
        invariant forall id :: id in commands <==>
                    id in vehicleTrajectories && id !in pending && Due(vehicleTrajectories[id], now)
        invariant forall id | id in commands :: Followable(commands[id], vehicleTrajectories[id], now)
        decreases |pending|
      {
        var id :| id in pending;
        pending := pending - {id};
        var command := CommandFor(vehicleTrajectories[id], now);
        if command.Some? {
          commands := commands[id := command.value];
        }
      }
    }
  }

  method CommandFor(trajectory: seq<TrajectoryPoint>, now: nat) returns (command: Option<Command>)
    requires Timed(trajectory)
    ensures command.Some? <==> Due(trajectory, now)
    ensures command.Some? ==> Followable(command.value, trajectory, now)
  {
    var validNanos := ValidNanos(now);
    if trajectory != [] && trajectory[|trajectory| - 1].t < validNanos + T_MIN_LEAD + T_COMMAND_TIMEOUT {
      return None;
    }
    if trajectory != [] && trajectory[0].t > validNanos {
      return None;
    }
    var found, index := FindActive(trajectory, validNanos);
    if !found {
      return None;
    }
    var end := if index + 20 <= |trajectory| then index + 20 else |trajectory|;
    var c := Command(trajectory[index..end], now, validNanos);
    assert SliceAt(c.points, trajectory, index);
    command := Some(c);
  }

  /** The last point that is not after `validNanos`. */
  method FindActive(trajectory: seq<TrajectoryPoint>, validNanos: nat) returns (found: bool, index: nat)
    requires Timed(trajectory)
    ensures found <==> trajectory != [] && trajectory[0].t <= validNanos
    ensures found ==> index < |trajectory| && trajectory[index].t <= validNanos
    ensures found && index + 1 < |trajectory| ==> validNanos < trajectory[index + 1].t
  {
    index, found := 0, false;
    for i := 0 to |trajectory|
      invariant found <==> i > 0 && trajectory[0].t <= validNanos
      invariant found ==> index == i - 1 && trajectory[index].t <= validNanos
    {
      if validNanos >= trajectory[i].t {
        index, found := i, true;
      } else if found {
        break;
      }
    }
  }

  lemma LoopEnds(total: real, k: nat)
    requires SampleTime(k) < total
    ensures (total * 10.0).Floor - k >= 0
  {
  }

  method SampleAll(path: seq<Pose2D>, arcLength: seq<real>, p: Profile, start: nat, m: Maths) returns (trajectory: seq<TrajectoryPoint>)
    requires path != [] && arcLength == ArcLengths(path, m.sqrt) && p.Valid()
    ensures Samples(trajectory, path, p, start, m) && Timed(trajectory)
  {
    hide NodeAt, Nearest, Profile.Valid, ArcLengths;
    trajectory := [];
    var k := 0;
    while SampleTime(k) < p.TotalTime()
      invariant k == |trajectory|
      invariant forall j: nat | j < k :: trajectory[j] == PointAt(path, p, start, j, m) && SampleTime(j) < p.TotalTime()
      invariant Timed(trajectory)
      decreases (p.TotalTime() * 10.0).Floor - k
    {
      LoopEnds(p.TotalTime(), k);
      var node := NodeAt(p, SampleTime(k));
      var pathIndex := FindNearest(arcLength, node.distance);
      var pose := path[pathIndex];
      trajectory := trajectory + [TrajectoryPoint(start + k * DT_NANOS, pose.x, pose.y,
                                                  node.speed * m.cos(pose.yaw), node.speed * m.sin(pose.yaw))];
      k := k + 1;
    }
  }
}
