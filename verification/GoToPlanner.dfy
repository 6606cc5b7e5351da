/** Driving all vehicles to their goal poses one after another: the greedy planning loop and the
    schedule of the trajectories it issues. */
module GoToPlanner {
  import opened Options
  import opened SpeedProfile
  import opened PathSampling
  import opened TrajectoryCommand

  const PLANNING_DELAY: nat := 1_000_000_000

  /** The path planner: a path for one vehicle among all poses to its goal, or none. */
  type PathPlanner = (seq<Pose2D>, nat, Pose2D) -> Option<seq<Pose2D>>

  /** The path makes its vehicle move: it is long enough for a trajectory, and not all in one place. */
  ghost predicate Moves(path: seq<Pose2D>, sqrt: SquareRoot) {
    |path| >= 3 && TotalDistance(path, sqrt) > 0.0
  }

  /** The duration reported for a path; three points or more in one place can report anything. */
  ghost predicate Lasts(path: seq<Pose2D>, duration: nat, sqrt: SquareRoot)
    requires IsSquareRoot(sqrt)
  {
    && (|path| < 3 ==> duration == 0)
    && (Moves(path, sqrt) ==> duration == DurationNanos(Plan(TotalDistance(path, sqrt), sqrt)))
  }

  datatype Issued = Issued(vehicle: nat, path: seq<Pose2D>, start: nat, duration: nat)

  function Max(a: nat, b: nat): nat {
    if a < b then b else a
  }

  ghost function Durations(issued: seq<Issued>): nat {
    if issued == [] then 0 else Durations(issued[..|issued| - 1]) + issued[|issued| - 1].duration
  }

  /** Where the vehicles are once they have followed the issued trajectories. */
  ghost function PosesAfter(poses: seq<Pose2D>, issued: seq<Issued>): (after: seq<Pose2D>)
    ensures |after| == |poses|
  {
    if issued == [] then poses
    else
      var before, last := PosesAfter(poses, issued[..|issued| - 1]), issued[|issued| - 1];
      if last.vehicle < |poses| && last.path != [] then before[last.vehicle := last.path[|last.path| - 1]] else before
  }

  ghost predicate Planned(issued: seq<Issued>, i: nat) {
    exists k: nat :: k < |issued| && issued[k].vehicle == i
  }

  /** Vehicle `i` need not or cannot be moved now. */
  ghost predicate Blocked(issued: seq<Issued>, poses: seq<Pose2D>, goals: seq<Pose2D>, plan: PathPlanner, i: nat) {
    Planned(issued, i) || i >= |goals| || plan(PosesAfter(poses, issued), i, goals[i]).None?
  }

  /** The k-th trajectory belongs to the first vehicle that can be moved then, and follows its plan. */
  ghost predicate GreedyAt(issued: seq<Issued>, poses: seq<Pose2D>, goals: seq<Pose2D>, plan: PathPlanner, k: nat)
    requires k < |issued|
  {
    var before, it := issued[..k], issued[k];
    && it.vehicle < |goals| && it.vehicle < |poses| && !Planned(before, it.vehicle)
    && plan(PosesAfter(poses, before), it.vehicle, goals[it.vehicle]) == Some(it.path)
    && forall i: nat | i < it.vehicle :: Blocked(before, poses, goals, plan, i)
  }

  /** When the k-th trajectory starts and how long it is. */
  ghost predicate ScheduledAt(issued: seq<Issued>, clock: nat -> nat, sqrt: SquareRoot, k: nat)
    requires k < |issued| && IsSquareRoot(sqrt)
  {
    var it := issued[k];
    && it.start == clock(k) + Max(Durations(issued[..k]), PLANNING_DELAY)
    && it.path != [] && Lasts(it.path, it.duration, sqrt)
  }

  ghost predicate Run(issued: seq<Issued>, poses: seq<Pose2D>, goals: seq<Pose2D>, plan: PathPlanner, clock: nat -> nat, sqrt: SquareRoot)
    requires IsSquareRoot(sqrt)
  {
    forall k: nat | k < |issued| :: GreedyAt(issued, poses, goals, plan, k) && ScheduledAt(issued, clock, sqrt, k)
  }

  /** The trajectory commanded for an issued path of at least three points; an empty one if they are
      all in one place. */
  ghost predicate StoredAt(trajectories: map<nat, seq<TrajectoryPoint>>, id: nat, it: Issued, m: Maths)
    requires IsSquareRoot(m.sqrt)
  {
    |it.path| >= 3 ==>
      && id in trajectories
      && if TotalDistance(it.path, m.sqrt) <= 0.0 then trajectories[id] == []
         else Samples(trajectories[id], it.path, Plan(TotalDistance(it.path, m.sqrt), m.sqrt), it.start, m)
  }

  ghost predicate StoredAll(trajectories: map<nat, seq<TrajectoryPoint>>, ids: seq<nat>, issued: seq<Issued>, m: Maths)
    requires IsSquareRoot(m.sqrt)
  {
    forall k: nat | k < |issued| && issued[k].vehicle < |ids| :: StoredAt(trajectories, ids[issued[k].vehicle], issued[k], m)
  }

  lemma NothingIssued(trajectories: map<nat, seq<TrajectoryPoint>>, ids: seq<nat>, poses: seq<Pose2D>, goals: seq<Pose2D>,
                      plan: PathPlanner, clock: nat -> nat, m: Maths)
    requires IsSquareRoot(m.sqrt)
    ensures StoredAll(trajectories, ids, [], m) && Run([], poses, goals, plan, clock, m.sqrt)
    ensures PosesAfter(poses, []) == poses && Durations([]) == 0 && forall i: nat :: !Planned([], i)
  {
  }

  ghost predicate AllDistinct(ids: seq<nat>) {
    forall i, j | 0 <= i < j < |ids| :: ids[i] != ids[j]
  }

  /** The first vehicle that can be moved gets a valid path without points. */
  ghost predicate EmptyPlan(issued: seq<Issued>, poses: seq<Pose2D>, goals: seq<Pose2D>, plan: PathPlanner, i: nat) {
    && i < |goals| && !Planned(issued, i)
    && plan(PosesAfter(poses, issued), i, goals[i]) == Some([])
    && forall j: nat | j < i :: Blocked(issued, poses, goals, plan, j)
  }

  lemma EmptyPlanFound(issued: seq<Issued>, poses: seq<Pose2D>, goals: seq<Pose2D>, plan: PathPlanner, i: nat)
    requires i < |goals| && !Planned(issued, i) && plan(PosesAfter(poses, issued), i, goals[i]) == Some([])
    requires forall j: nat | j < i :: Blocked(issued, poses, goals, plan, j)
    ensures EmptyPlan(issued, poses, goals, plan, i)
  {
  }

  /** Plans and commands trajectories until no vehicle can be moved any more, or until a valid path is
      empty, whose last point does not exist. Where the conversion of
      a duration is undefined, it yields `undefined(k)` for the k-th trajectory. */
  method GoToPoses(sender: Sender, vehicleIds: seq<nat>, poses: seq<Pose2D>, goals: seq<Pose2D>, plan: PathPlanner, clock: nat -> nat,
                   undefined: nat -> nat)
      returns (issued: seq<Issued>, emptyPath: bool)
    requires sender.Valid() && |poses| == |vehicleIds| && AllDistinct(vehicleIds)
    modifies sender
    ensures sender.Valid() && |issued| <= |vehicleIds| && |issued| <= |goals|
    ensures Run(issued, poses, goals, plan, clock, sender.maths.sqrt)
    ensures if emptyPath then exists i: nat :: EmptyPlan(issued, poses, goals, plan, i)
            else forall i: nat | i < |vehicleIds| :: Blocked(issued, poses, goals, plan, i)
    ensures StoredAll(sender.vehicleTrajectories, vehicleIds, issued, sender.maths)
  {
    hide Samples, StoredAll, IsSquareRoot, ScheduledAt, Run, TotalDistance, Plan;
    hide PosesAfter, Durations, Planned, EmptyPlan;
    NothingIssued(sender.vehicleTrajectories, vehicleIds, poses, goals, plan, clock, sender.maths);
    issued, emptyPath := [], false;
    var toPlan := if |vehicleIds| < |goals| then |vehicleIds| else |goals|;
    var current, atGoal := poses, seq(toPlan, _ => false);
    var total := 0;
    var moveable := true;
    AllOpen(atGoal);
    while moveable
      invariant sender.Valid() && |atGoal| == toPlan && current == PosesAfter(poses, issued) && total == Durations(issued)
      invariant forall i: nat | i < toPlan :: atGoal[i] <==> Planned(issued, i)
      invariant |issued| + Open(atGoal) == toPlan
      invariant Run(issued, poses, goals, plan, clock, sender.maths.sqrt)
      invariant !emptyPath
      invariant !moveable ==> forall i: nat | i < toPlan :: Blocked(issued, poses, goals, plan, i)
      invariant StoredAll(sender.vehicleTrajectories, vehicleIds, issued, sender.maths)
      decreases Open(atGoal), if moveable then 1 else 0
    {
      var iVeh, path;
      moveable, iVeh, path := FirstMoveable(issued, poses, goals, plan, current, atGoal);
      if moveable {
        if path == [] {
          emptyPath := true;
          EmptyPlanFound(issued, poses, goals, plan, iVeh);
          return;
        }
        var it := IssuePath(sender, vehicleIds, issued, iVeh, path, Max(total, PLANNING_DELAY), clock(|issued|), undefined(|issued|));
        IssueKeepsRun(issued, it, poses, goals, plan, clock, sender.maths.sqrt);
        OpenShrinks(atGoal, iVeh);
        issued := issued + [it];
        total := total + it.duration;
        atGoal := atGoal[iVeh := true];
        current := current[iVeh := path[|path| - 1]];
      }
    }
  }

  /** Commands one path; the trajectories of the vehicles before stay as they are. */
  method IssuePath(sender: Sender, vehicleIds: seq<nat>, ghost issued: seq<Issued>, iVeh: nat, path: seq<Pose2D>, delay: nat, now: nat,
                   undefined: nat)
      returns (it: Issued)
    requires sender.Valid() && AllDistinct(vehicleIds) && iVeh < |vehicleIds| && !Planned(issued, iVeh)
    requires StoredAll(sender.vehicleTrajectories, vehicleIds, issued, sender.maths)
    modifies sender
    ensures sender.Valid() && it.vehicle == iVeh && it.path == path && it.start == now + delay
    ensures Lasts(path, it.duration, sender.maths.sqrt)
    ensures StoredAll(sender.vehicleTrajectories, vehicleIds, issued + [it], sender.maths)
  {
    hide Samples, IsSquareRoot, Plan, TotalDistance;
    var duration := sender.SetPath(vehicleIds[iVeh], path, delay, now);
    it := Issued(iVeh, path, now + delay, if duration.Undefined? then undefined else duration.nanos);
    forall k: nat | k < |issued| && issued[k].vehicle < |vehicleIds|
      ensures StoredAt(sender.vehicleTrajectories, vehicleIds[issued[k].vehicle], issued[k], sender.maths)
    {
      assert issued[k].vehicle != iVeh;
    }
  }

  /** The first vehicle that is not at its goal and has a valid path. */
  method FirstMoveable(ghost issued: seq<Issued>, ghost poses: seq<Pose2D>, goals: seq<Pose2D>, plan: PathPlanner,
                       current: seq<Pose2D>, atGoal: seq<bool>) returns (found: bool, iVeh: nat, path: seq<Pose2D>)
    requires current == PosesAfter(poses, issued) && |atGoal| <= |goals|
    requires forall i: nat | i < |atGoal| :: atGoal[i] <==> Planned(issued, i)
    ensures found ==> iVeh < |atGoal| && !atGoal[iVeh] && plan(current, iVeh, goals[iVeh]) == Some(path)
    ensures forall i: nat | i < (if found then iVeh else |atGoal|) :: Blocked(issued, poses, goals, plan, i)
  {
    found, iVeh, path := false, 0, [];
    while iVeh < |atGoal|
      invariant iVeh <= |atGoal|
      invariant forall i: nat | i < iVeh :: Blocked(issued, poses, goals, plan, i)
    {
      if !atGoal[iVeh] {
        var result := plan(current, iVeh, goals[iVeh]);
        if result.Some? {
          found, path := true, result.value;
          return;
        }
      }
      iVeh := iVeh + 1;
    }
  }

  /** Number of vehicles that are not at their goal yet. */
  function Open(atGoal: seq<bool>): nat {
    if atGoal == [] then 0 else (if atGoal[0] then 0 else 1) + Open(atGoal[1..])
  }

  lemma {:induction false} AllOpen(atGoal: seq<bool>)
    requires forall i | 0 <= i < |atGoal| :: !atGoal[i]
    ensures Open(atGoal) == |atGoal|
  {
    if atGoal != [] {
      AllOpen(atGoal[1..]);
    }
  }

  lemma {:induction false} OpenShrinks(atGoal: seq<bool>, i: nat)
    requires i < |atGoal| && !atGoal[i]
    ensures Open(atGoal[i := true]) == Open(atGoal) - 1
  {
    if i == 0 {
      assert atGoal[0 := true][1..] == atGoal[1..];
    } else {
      assert atGoal[i := true][1..] == atGoal[1..][i - 1 := true];
      OpenShrinks(atGoal[1..], i - 1);
    }
  }

  lemma PlannedExtends(issued: seq<Issued>, it: Issued, i: nat)
    ensures Planned(issued + [it], i) <==> Planned(issued, i) || i == it.vehicle
  {
    var longer := issued + [it];
    if Planned(issued, i) {
      var k: nat :| k < |issued| && issued[k].vehicle == i;
      assert longer[k].vehicle == i;
    }
    if i == it.vehicle {
      assert longer[|issued|].vehicle == i;
    }
  }

  lemma IssueKeepsRun(issued: seq<Issued>, it: Issued, poses: seq<Pose2D>, goals: seq<Pose2D>, plan: PathPlanner,
                      clock: nat -> nat, sqrt: SquareRoot)
    requires IsSquareRoot(sqrt) && Run(issued, poses, goals, plan, clock, sqrt)
    requires it.vehicle < |goals| && it.vehicle < |poses| && !Planned(issued, it.vehicle)
    requires plan(PosesAfter(poses, issued), it.vehicle, goals[it.vehicle]) == Some(it.path) && it.path != []
    requires forall i: nat | i < it.vehicle :: Blocked(issued, poses, goals, plan, i)
    requires it.start == clock(|issued|) + Max(Durations(issued), PLANNING_DELAY)
    requires Lasts(it.path, it.duration, sqrt)
    ensures Run(issued + [it], poses, goals, plan, clock, sqrt)
    ensures Durations(issued + [it]) == Durations(issued) + it.duration
    ensures PosesAfter(poses, issued + [it]) == PosesAfter(poses, issued)[it.vehicle := it.path[|it.path| - 1]]
    ensures forall i: nat :: Planned(issued + [it], i) <==> Planned(issued, i) || i == it.vehicle
  {
    var longer := issued + [it];
    assert longer[..|issued|] == issued;
    hide IsSquareRoot, Plan, TotalDistance, DurationNanos;
    forall k: nat | k < |longer|
      ensures GreedyAt(longer, poses, goals, plan, k) && ScheduledAt(longer, clock, sqrt, k)
    {
      if k < |issued| {
        assert longer[..k] == issued[..k];
        assert GreedyAt(issued, poses, goals, plan, k) && ScheduledAt(issued, clock, sqrt, k);
      }
    }
    forall i: nat
      ensures Planned(longer, i) <==> Planned(issued, i) || i == it.vehicle
    {
      PlannedExtends(issued, it, i);
    }
  }

  // What a run guarantees.

  /** Each vehicle is planned at most once. */
  lemma PlannedOnce(issued: seq<Issued>, poses: seq<Pose2D>, goals: seq<Pose2D>, plan: PathPlanner, clock: nat -> nat, sqrt: SquareRoot)
    requires IsSquareRoot(sqrt) && Run(issued, poses, goals, plan, clock, sqrt)
    ensures forall j: nat, k: nat | j < k < |issued| :: issued[j].vehicle != issued[k].vehicle
  {
    hide IsSquareRoot, ScheduledAt;
    forall j: nat, k: nat | j < k < |issued|
      ensures issued[j].vehicle != issued[k].vehicle
    {
      assert GreedyAt(issued, poses, goals, plan, k);
      assert issued[..k][j] == issued[j];
    }
  }

  /** Each vehicle issued stands at the end of its path, and every other one where it was. */
  ghost predicate AtEnds(known: seq<Pose2D>, poses: seq<Pose2D>, issued: seq<Issued>) {
    && |known| == |poses|
    && (forall j: nat | j < |issued| && issued[j].vehicle < |poses| && issued[j].path != [] ::
          known[issued[j].vehicle] == issued[j].path[|issued[j].path| - 1])
    && forall i: nat | i < |poses| && !Planned(issued, i) :: known[i] == poses[i]
  }

  /** The path is the plan for vehicles that stand at those places. */
  ghost predicate PlannedWithEnds(it: Issued, before: seq<Issued>, poses: seq<Pose2D>, goals: seq<Pose2D>, plan: PathPlanner) {
    it.vehicle < |goals| &&
    exists known: seq<Pose2D> :: AtEnds(known, poses, before) && plan(known, it.vehicle, goals[it.vehicle]) == Some(it.path)
  }

  lemma PlannedFromEnds(issued: seq<Issued>, poses: seq<Pose2D>, goals: seq<Pose2D>, plan: PathPlanner, clock: nat -> nat, sqrt: SquareRoot)
    requires IsSquareRoot(sqrt) && Run(issued, poses, goals, plan, clock, sqrt)
    ensures forall k: nat | k < |issued| :: PlannedWithEnds(issued[k], issued[..k], poses, goals, plan)
  {
    hide IsSquareRoot, AtEnds, PosesAfter;
    PlannedOnce(issued, poses, goals, plan, clock, sqrt);
    forall k: nat | k < |issued|
      ensures PlannedWithEnds(issued[k], issued[..k], poses, goals, plan)
    {
      assert GreedyAt(issued, poses, goals, plan, k);
      forall j: nat | j < k
        ensures issued[j].vehicle < |poses| && issued[j].path != []
      {
        assert GreedyAt(issued, poses, goals, plan, j) && ScheduledAt(issued, clock, sqrt, j);
      }
      PosesAreEnds(issued[..k], poses);
    }
  }

  lemma {:induction false} PosesAreEnds(issued: seq<Issued>, poses: seq<Pose2D>)
    requires forall j: nat | j < |issued| :: issued[j].vehicle < |poses| && issued[j].path != []
    requires forall j: nat, k: nat | j < k < |issued| :: issued[j].vehicle != issued[k].vehicle
    ensures AtEnds(PosesAfter(poses, issued), poses, issued)
  {
    if issued == [] {
      assert PosesAfter(poses, issued) == poses;
    } else {
      var before, last := issued[..|issued| - 1], issued[|issued| - 1];
      PosesAreEnds(before, poses);
      assert before + [last] == issued;
      var known := PosesAfter(poses, before);
      assert PosesAfter(poses, issued) == known[last.vehicle := last.path[|last.path| - 1]];
      OneMoreEnd(known, poses, before, last);
    }
  }

  lemma OneMoreEnd(known: seq<Pose2D>, poses: seq<Pose2D>, before: seq<Issued>, last: Issued)
    requires AtEnds(known, poses, before) && last.vehicle < |poses| && last.path != []
    requires forall j: nat | j < |before| :: before[j].vehicle != last.vehicle
    ensures AtEnds(known[last.vehicle := last.path[|last.path| - 1]], poses, before + [last])
  {
    hide Planned;
    var longer, after := before + [last], known[last.vehicle := last.path[|last.path| - 1]];
    forall j: nat | j < |longer| && longer[j].vehicle < |poses| && longer[j].path != []
      ensures after[longer[j].vehicle] == longer[j].path[|longer[j].path| - 1]
    {
      if j < |before| {
        assert longer[j] == before[j];
      }
    }
    forall i: nat | i < |poses| && !Planned(longer, i)
      ensures after[i] == poses[i]
    {
      PlannedExtends(before, last, i);
    }
  }

  ghost predicate NonDecreasingClock(clock: nat -> nat) {
    forall i: nat, j: nat | i <= j :: clock(i) <= clock(j)
  }

  /** Seconds on the profile's time scale, as real nanoseconds. */
  function Nanos(seconds: real): real {
    seconds * NANOS
  }

  /** From when to when the vehicle may move: between its two standstills. */
  function MoveStart(it: Issued): real {
    it.start as real + Nanos(STANDSTILL_TIME)
  }

  function MoveEnd(it: Issued, sqrt: SquareRoot): real
    requires IsSquareRoot(sqrt) && Moves(it.path, sqrt)
  {
    it.start as real + Nanos(Plan(TotalDistance(it.path, sqrt), sqrt).TotalTime() - STANDSTILL_TIME)
  }

  lemma {:induction false} DurationsGrow(issued: seq<Issued>, j: nat, k: nat)
    requires j < k <= |issued|
    ensures Durations(issued[..j]) + issued[j].duration <= Durations(issued[..k])
  {
    assert issued[..k][..k - 1] == issued[..k - 1];
    if j < k - 1 {
      DurationsGrow(issued, j, k - 1);
    }
  }

  /** A vehicle starts moving only when every vehicle before it has stood still for 2 s, up to the
      rounding of the durations to whole nanoseconds. */
  lemma OneMoverAtATime(issued: seq<Issued>, clock: nat -> nat, sqrt: SquareRoot, j: nat, k: nat)
    requires IsSquareRoot(sqrt) && NonDecreasingClock(clock) && j < k < |issued|
    requires ScheduledAt(issued, clock, sqrt, j) && ScheduledAt(issued, clock, sqrt, k)
    requires Moves(issued[j].path, sqrt)
    ensures MoveEnd(issued[j], sqrt) + 2.0 * NANOS - 1.0 < MoveStart(issued[k])
  {
    DurationsGrow(issued, j, k);
    var p := Plan(TotalDistance(issued[j].path, sqrt), sqrt);
    assert issued[j].duration as real > NANOS * p.TotalTime() - 1.0;
    assert clock(j) <= clock(k);
  }

  /** Whole trajectories, standstills included, overlap by less than the planning delay and a nanosecond. */
  lemma OverlapAtMost(issued: seq<Issued>, clock: nat -> nat, sqrt: SquareRoot, j: nat, k: nat)
    requires IsSquareRoot(sqrt) && NonDecreasingClock(clock) && j < k < |issued|
    requires ScheduledAt(issued, clock, sqrt, j) && ScheduledAt(issued, clock, sqrt, k)
    requires Moves(issued[j].path, sqrt)
    ensures issued[k].start as real > issued[j].start as real + issued[j].duration as real - NANOS - 1.0
    ensures Durations(issued[..j]) >= PLANNING_DELAY ==> issued[k].start >= issued[j].start + issued[j].duration
  {
    DurationsGrow(issued, j, k);
    assert clock(j) <= clock(k);
  }

  /** Whole trajectories of neighbours overlap exactly if the second is planned so soon after the
      first that the durations before it do not yet make up for the planning delay; never once
      these durations reach it. */
  lemma NeighboursOverlapIff(issued: seq<Issued>, clock: nat -> nat, sqrt: SquareRoot, j: nat)
    requires IsSquareRoot(sqrt) && NonDecreasingClock(clock) && j + 1 < |issued|
    requires ScheduledAt(issued, clock, sqrt, j) && ScheduledAt(issued, clock, sqrt, j + 1)
    requires Moves(issued[j].path, sqrt)
    ensures issued[j + 1].start < issued[j].start + issued[j].duration
            <==> clock(j + 1) + Durations(issued[..j]) < clock(j) + PLANNING_DELAY
  {
    assert issued[..j + 1][..j] == issued[..j];
    assert clock(j) <= clock(j + 1);
  }

  /** They do overlap: after the first trajectory the planning delay is not added again. */
  lemma FirstTwoOverlap(issued: seq<Issued>, clock: nat -> nat, sqrt: SquareRoot)
    requires IsSquareRoot(sqrt) && |issued| >= 2 && clock(1) < clock(0) + PLANNING_DELAY
    requires ScheduledAt(issued, clock, sqrt, 0) && ScheduledAt(issued, clock, sqrt, 1)
    requires Moves(issued[0].path, sqrt)
    ensures issued[1].start < issued[0].start + issued[0].duration
  {
    assert issued[..1][..0] == [] && issued[..0] == [];
    assert issued[..1][0] == issued[0];
  }

  /** No two commanded samples of different vehicles move within 2 s of each other: the earlier
      vehicle's moving samples all come first. */
  lemma SamplesMoveApart(issued: seq<Issued>, poses: seq<Pose2D>, goals: seq<Pose2D>, plan: PathPlanner, clock: nat -> nat, m: Maths,
                         trajectories: map<nat, seq<TrajectoryPoint>>, ids: seq<nat>, j: nat, k: nat, a: nat, b: nat)
    requires m.Valid() && NonDecreasingClock(clock)
    requires Run(issued, poses, goals, plan, clock, m.sqrt) && j < k < |issued|
    requires issued[j].vehicle < |ids| && issued[k].vehicle < |ids|
    requires StoredAt(trajectories, ids[issued[j].vehicle], issued[j], m)
    requires StoredAt(trajectories, ids[issued[k].vehicle], issued[k], m)
    requires |issued[j].path| >= 3 && |issued[k].path| >= 3
    ensures var first, second := ids[issued[j].vehicle], ids[issued[k].vehicle];
            first in trajectories && second in trajectories &&
            (a < |trajectories[first]| && b < |trajectories[second]|
             && !Standing(trajectories[first][a]) && !Standing(trajectories[second][b]) ==>
             trajectories[first][a].t + 1_999_999_999 < trajectories[second][b].t)
  {
    assert ScheduledAt(issued, clock, m.sqrt, j) && ScheduledAt(issued, clock, m.sqrt, k);
    if Moves(issued[j].path, m.sqrt) && Moves(issued[k].path, m.sqrt) {
      OneMoverAtATime(issued, clock, m.sqrt, j, k);
      MovesWithin(trajectories, ids[issued[j].vehicle], issued[j], m, a);
      MovesWithin(trajectories, ids[issued[k].vehicle], issued[k], m, b);
    }
  }

  lemma MovesWithin(trajectories: map<nat, seq<TrajectoryPoint>>, id: nat, it: Issued, m: Maths, a: nat)
    requires m.Valid() && StoredAt(trajectories, id, it, m)
    requires Moves(it.path, m.sqrt)
    ensures id in trajectories
    ensures a < |trajectories[id]| && !Standing(trajectories[id][a]) ==>
              MoveStart(it) < trajectories[id][a].t as real < MoveEnd(it, m.sqrt)
  {
    var p := Plan(TotalDistance(it.path, m.sqrt), m.sqrt);
    if a < |trajectories[id]| {
      SampleIs(trajectories[id], it.path, p, it.start, m, a);
      SpeedLimit(trajectories[id], it.path, p, it.start, m, a);
      assert Nanos(SampleTime(a)) == (a * DT_NANOS) as real;
    }
  }
}
