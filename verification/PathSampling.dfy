/** A path as a polyline with arc lengths, and the nearest path point to a travelled distance. */
module PathSampling {
  import opened RealProducts
  import opened SpeedProfile

  datatype Pose2D = Pose2D(x: real, y: real, yaw: real)

  function StepLength(a: Pose2D, b: Pose2D, sqrt: SquareRoot): real {
    var dx, dy := b.x - a.x, b.y - a.y;
    sqrt(dx * dx + dy * dy)
  }

  /** Length of the path up to point `i`. */
  function ArcLength(path: seq<Pose2D>, i: nat, sqrt: SquareRoot): real
    requires i < |path|
  {
    if i == 0 then 0.0 else ArcLength(path, i - 1, sqrt) + StepLength(path[i - 1], path[i], sqrt)
  }

  function ArcLengths(path: seq<Pose2D>, sqrt: SquareRoot): (arc: seq<real>)
    ensures |arc| == |path|
  {
    seq(|path|, i requires 0 <= i < |path| => ArcLength(path, i, sqrt))
  }

  function TotalDistance(path: seq<Pose2D>, sqrt: SquareRoot): real
    requires path != []
  {
    ArcLength(path, |path| - 1, sqrt)
  }

  function Abs(x: real): real {
    if x < 0.0 then -x else x
  }

  /** First index below `n` whose arc length is nearest to `d`. */
  function Nearest(arc: seq<real>, d: real, n: nat): (best: nat)
    requires 1 <= n <= |arc|
    ensures best < n
    ensures forall i | 0 <= i < n :: Abs(arc[best] - d) <= Abs(arc[i] - d)
    ensures forall i | 0 <= i < best :: Abs(arc[best] - d) < Abs(arc[i] - d)
  {
    if n == 1 then 0
    else
      var best := Nearest(arc, d, n - 1);
      if Abs(arc[n - 1] - d) < Abs(arc[best] - d) then n - 1 else best
  }

  method FindNearest(arc: seq<real>, d: real) returns (pathIndex: nat)
    requires arc != []
    ensures pathIndex == Nearest(arc, d, |arc|)
  {
    pathIndex := 0;
    for i := 1 to |arc|
      invariant pathIndex == Nearest(arc, d, i)
    {
      if Abs(arc[i] - d) < Abs(arc[pathIndex] - d) {
        pathIndex := i;
      }
    }
  }

  ghost predicate NonDecreasing(arc: seq<real>) {
    forall i, j | 0 <= i <= j < |arc| :: arc[i] <= arc[j]
  }

  /** Travelling further never moves the nearest point backwards. */
  lemma NearestMonotone(arc: seq<real>, d: real, e: real)
    requires arc != [] && NonDecreasing(arc) && d <= e
    ensures Nearest(arc, d, |arc|) <= Nearest(arc, e, |arc|)
  {
    var i, j := Nearest(arc, d, |arc|), Nearest(arc, e, |arc|);
    assert forall k | 0 <= k < i :: Abs(arc[i] - d) < Abs(arc[k] - d);
    assert Abs(arc[j] - e) <= Abs(arc[i] - e);
  }

  lemma NearestAtEnds(arc: seq<real>, d: real)
    requires arc != [] && arc[0] == 0.0
    ensures d == 0.0 ==> Nearest(arc, d, |arc|) == 0
    ensures d == arc[|arc| - 1] ==> arc[Nearest(arc, d, |arc|)] == d
  {
    var i := Nearest(arc, d, |arc|);
    assert Abs(arc[i] - d) <= Abs(arc[0] - d) && Abs(arc[i] - d) <= Abs(arc[|arc| - 1] - d);
  }

  lemma StepNotNegative(a: Pose2D, b: Pose2D, sqrt: SquareRoot)
    requires IsSquareRoot(sqrt)
    ensures StepLength(a, b, sqrt) >= 0.0
    ensures StepLength(a, b, sqrt) == 0.0 ==> a.x == b.x && a.y == b.y
  {
    var dx, dy := b.x - a.x, b.y - a.y;
    var r := sqrt(dx * dx + dy * dy);
    SquareIsZero(dx);
    SquareIsZero(dy);
    assert r >= 0.0 && r * r == dx * dx + dy * dy;
    hide IsSquareRoot;
    NoLength(dx, dy, r);
  }

  lemma NoLength(dx: real, dy: real, r: real)
    requires r * r == dx * dx + dy * dy
    ensures r == 0.0 ==> dx == 0.0 && dy == 0.0
  {
    var rr, xx, yy := Times(r, r), Times(dx, dx), Times(dy, dy);
    assert rr == xx + yy;
    hide Times;
    SquareIsZero(dx);
    SquareIsZero(dy);
    SquareIsZero(r);
  }

  lemma {:induction false} ArcGrows(path: seq<Pose2D>, i: nat, j: nat, sqrt: SquareRoot)
    requires i <= j < |path| && IsSquareRoot(sqrt)
    ensures ArcLength(path, i, sqrt) <= ArcLength(path, j, sqrt)
  {
    if i < j {
      ArcGrows(path, i, j - 1, sqrt);
      StepNotNegative(path[j - 1], path[j], sqrt);
    }
  }

  lemma ArcNonDecreasing(path: seq<Pose2D>, sqrt: SquareRoot)
    requires IsSquareRoot(sqrt)
    ensures NonDecreasing(ArcLengths(path, sqrt))
  {
    forall i, j | 0 <= i <= j < |path|
      ensures ArcLengths(path, sqrt)[i] <= ArcLengths(path, sqrt)[j]
    {
      ArcGrows(path, i, j, sqrt);
    }
  }

  /** Points with the same arc length are at the same place. */
  lemma {:induction false} SamePlace(path: seq<Pose2D>, i: nat, j: nat, sqrt: SquareRoot)
    requires i <= j < |path| && IsSquareRoot(sqrt)
    requires ArcLength(path, i, sqrt) == ArcLength(path, j, sqrt)
    ensures path[i].x == path[j].x && path[i].y == path[j].y
  {
    if i < j {
      ArcGrows(path, i, j - 1, sqrt);
      StepNotNegative(path[j - 1], path[j], sqrt);
      SamePlace(path, i, j - 1, sqrt);
    }
  }

  method ComputeArcLengths(path: seq<Pose2D>, sqrt: SquareRoot) returns (arcLength: seq<real>)
    requires path != []
    ensures arcLength == ArcLengths(path, sqrt)
  {
    var lengths := new real[|path|](_ => 0.0);
    for i := 1 to |path|
      invariant forall k | 0 <= k < i :: lengths[k] == ArcLength(path, k, sqrt)
    {
      lengths[i] := lengths[i - 1] + StepLength(path[i - 1], path[i], sqrt);
    }
    arcLength := lengths[..];
  }
}
