/** Cubic Hermite interpolation between two trajectory points: position, velocity, acceleration. */
module Hermite {
  import opened RealProducts
  import opened TrajectoryCommand

  /** One coordinate of a segment: the positions at both ends, and the velocities times the duration. */
  datatype Segment = Segment(p0: real, v0: real, p1: real, v1: real)

  // The basis polynomials, and their first and second derivatives, as the source lists them.

  function Position(s: Segment, tau: real): real {
    var tau2 := tau * tau;
    var tau3 := tau * tau2;
    s.p0 * (2.0 * tau3 - 3.0 * tau2 + 1.0) + s.v0 * (tau3 - 2.0 * tau2 + tau)
    + s.p1 * (-2.0 * tau3 + 3.0 * tau2) + s.v1 * (tau3 - tau2)
  }

  function Slope(s: Segment, tau: real): real {
    var tau2 := tau * tau;
    s.p0 * (6.0 * tau2 - 6.0 * tau) + s.v0 * (3.0 * tau2 - 4.0 * tau + 1.0)
    + s.p1 * (-6.0 * tau2 + 6.0 * tau) + s.v1 * (3.0 * tau2 - 2.0 * tau)
  }

  function Bend(s: Segment, tau: real): real {
    s.p0 * (12.0 * tau - 6.0) + s.v0 * (6.0 * tau - 4.0) + s.p1 * (-12.0 * tau + 6.0) + s.v1 * (6.0 * tau - 2.0)
  }

  lemma SegmentEnds(s: Segment)
    ensures Position(s, 0.0) == s.p0 && Position(s, 1.0) == s.p1
    ensures Slope(s, 0.0) == s.v0 && Slope(s, 1.0) == s.v1
  {
  }

  // The same polynomials by their coefficients.

  function Square(s: Segment): real {
    3.0 * (s.p1 - s.p0) - 2.0 * s.v0 - s.v1
  }

  function Cube(s: Segment): real {
    2.0 * (s.p0 - s.p1) + s.v0 + s.v1
  }

  lemma ByCoefficients(s: Segment, u: real)
    ensures Position(s, u) == s.p0 + Times(s.v0, u) + Times(Square(s), Times(u, u)) + Times(Cube(s), Times(u, Times(u, u)))
    ensures Slope(s, u) == s.v0 + 2.0 * Times(Square(s), u) + 3.0 * Times(Cube(s), Times(u, u))
    ensures Bend(s, u) == 2.0 * Square(s) + 6.0 * Times(Cube(s), u)
  {
    hide Position, Slope, Bend, Times, Square, Cube;
    PositionByCoefficients(s, u);
    SlopeByCoefficients(s, u);
    BendByCoefficients(s, u);
  }

  lemma PositionByCoefficients(s: Segment, u: real)
    ensures Position(s, u) == s.p0 + Times(s.v0, u) + Times(Square(s), Times(u, u)) + Times(Cube(s), Times(u, Times(u, u)))
  {
  }

  lemma SlopeByCoefficients(s: Segment, u: real)
    ensures Slope(s, u) == s.v0 + 2.0 * Times(Square(s), u) + 3.0 * Times(Cube(s), Times(u, u))
  {
  }

  lemma BendByCoefficients(s: Segment, u: real)
    ensures Bend(s, u) == 2.0 * Square(s) + 6.0 * Times(Cube(s), u)
  {
  }

  lemma SumOf(a: real, u: real, k: real)
    ensures Times(a, u + k) == Times(a, u) + Times(a, k)
  {
  }

  lemma SquareOfSum(b: real, u: real, k: real)
    ensures Times(b, Times(u + k, u + k)) == Times(b, Times(u, u)) + 2.0 * Times(b, Times(u, k)) + Times(b, Times(k, k))
  {
  }

  lemma CubeOfSum(c: real, u: real, k: real)
    ensures Times(c, Times(u + k, Times(u + k, u + k)))
         == Times(c, Times(u, Times(u, u))) + 3.0 * Times(c, Times(Times(u, u), k)) + 3.0 * Times(c, Times(u, Times(k, k)))
            + Times(c, Times(k, Times(k, k)))
  {
  }

  lemma SlopeTimes(slope: real, a: real, b: real, c: real, u: real, k: real)
    requires slope == a + 2.0 * Times(b, u) + 3.0 * Times(c, Times(u, u))
    ensures Times(slope, k) == Times(a, k) + 2.0 * Times(b, Times(u, k)) + 3.0 * Times(c, Times(Times(u, u), k))
  {
  }

  lemma BendTimes(bend: real, b: real, c: real, u: real, k: real)
    requires bend == 2.0 * b + 6.0 * Times(c, u)
    ensures Times(bend, k) == 2.0 * Times(b, k) + 6.0 * Times(c, Times(u, k))
  {
  }

  /** Taylor's formula is exact: slope and bend are the first two derivatives of the position. */
  lemma Taylor(s: Segment, u: real, k: real)
    ensures Position(s, u + k)
         == Position(s, u) + Times(Slope(s, u), k) + Times(Bend(s, u), Times(k, k)) / 2.0 + Times(Cube(s), Times(k, Times(k, k)))
    ensures Slope(s, u + k) == Slope(s, u) + Times(Bend(s, u), k) + 3.0 * Times(Cube(s), Times(k, k))
    ensures Bend(s, u + k) == Bend(s, u) + 6.0 * Times(Cube(s), k)
  {
    hide *;
    ByCoefficients(s, u);
    ByCoefficients(s, u + k);
    var a, b, c := s.v0, Square(s), Cube(s);
    SumOf(a, u, k);
    SumOf(b, u, k);
    SumOf(c, u, k);
    SquareOfSum(b, u, k);
    SquareOfSum(c, u, k);
    CubeOfSum(c, u, k);
    SlopeTimes(Slope(s, u), a, b, c, u, k);
    BendTimes(Bend(s, u), b, c, u, k);
    BendTimesSquare(Bend(s, u), b, c, u, k);
  }

  lemma BendTimesSquare(bend: real, b: real, c: real, u: real, k: real)
    requires bend == 2.0 * b + 6.0 * Times(c, u)
    ensures Times(bend, Times(k, k)) == 2.0 * Times(b, Times(k, k)) + 6.0 * Times(c, Times(u, Times(k, k)))
  {
  }

  /** The interpolation is the only cubic through both ends with their velocities: any cubic with
      coefficients c0 to c3 (in time `d * u`) that agrees with the segment at its ends is reproduced. */
  lemma ReproducesCubics(s: Segment, c0: real, c1: real, c2: real, c3: real, d: real, u: real)
    requires s.p0 == c0 && s.v0 == c1 * d
    requires s.p1 == c0 + c1 * d + c2 * (d * d) + c3 * (d * (d * d))
    requires s.v1 == c1 * d + 2.0 * (c2 * (d * d)) + 3.0 * (c3 * (d * (d * d)))
    ensures var t := d * u; Position(s, u) == c0 + c1 * t + c2 * (t * t) + c3 * (t * (t * t))
  {
    var a, b, c := Times(c1, d), Times(c2, Times(d, d)), Times(c3, Times(d, Times(d, d)));
    assert s.v0 == a && s.p1 == c0 + a + b + c && s.v1 == a + 2.0 * b + 3.0 * c;
    hide Times, Position;
    assert Square(s) == b && Cube(s) == c;
    ByCoefficients(s, u);
    FirstPower(c1, d, u);
    SecondPower(c2, d, u);
    ThirdPower(c3, d, u);
  }

  lemma FirstPower(c: real, d: real, u: real)
    ensures c * (d * u) == Times(Times(c, d), u)
  {
  }

  lemma SecondPower(c: real, d: real, u: real)
    ensures c * ((d * u) * (d * u)) == Times(Times(c, Times(d, d)), Times(u, u))
  {
  }

  lemma ThirdPower(c: real, d: real, u: real)
    ensures c * ((d * u) * ((d * u) * (d * u))) == Times(Times(c, Times(d, Times(d, d))), Times(u, Times(u, u)))
  {
  }

  // In time.

  function Seconds(nanos: nat): real {
    nanos as real / NANOS
  }

  function SegmentX(a: TrajectoryPoint, b: TrajectoryPoint): Segment {
    var d := Seconds(b.t) - Seconds(a.t);
    Segment(a.px, a.vx * d, b.px, b.vx * d)
  }

  function SegmentY(a: TrajectoryPoint, b: TrajectoryPoint): Segment {
    var d := Seconds(b.t) - Seconds(a.t);
    Segment(a.py, a.vy * d, b.py, b.vy * d)
  }

  function Velocity(s: Segment, tau: real, d: real): real
    requires d > 0.0
  {
    Slope(s, tau) / d
  }

  function Acceleration(s: Segment, tau: real, d: real): real
    requires d > 0.0
  {
    Positive(d, d);
    Bend(s, tau) / Times(d, d)
  }

  datatype Interpolation = Interpolation(
    positionX: real, positionY: real, velocityX: real, velocityY: real, accelerationX: real, accelerationY: real)

  /** State `t` seconds into the clock, between two points of a trajectory. */
  function Interpolate(t: real, a: TrajectoryPoint, b: TrajectoryPoint): Interpolation
    requires a.t < b.t
  {
    var d := Seconds(b.t) - Seconds(a.t);
    Longer(a.t, b.t);
    var tau := (t - Seconds(a.t)) / d;
    var x, y := SegmentX(a, b), SegmentY(a, b);
    Interpolation(Position(x, tau), Position(y, tau), Velocity(x, tau, d), Velocity(y, tau, d), Acceleration(x, tau, d), Acceleration(y, tau, d))
  }

  lemma Longer(s: nat, t: nat)
    requires s < t
    ensures Seconds(s) < Seconds(t)
  {
  }

  /** At its two ends a segment has the points' positions and velocities. */
  lemma EndsMatch(a: TrajectoryPoint, b: TrajectoryPoint)
    requires a.t < b.t
    ensures var i := Interpolate(Seconds(a.t), a, b);
            i.positionX == a.px && i.positionY == a.py && i.velocityX == a.vx && i.velocityY == a.vy
    ensures var i := Interpolate(Seconds(b.t), a, b);
            i.positionX == b.px && i.positionY == b.py && i.velocityX == b.vx && i.velocityY == b.vy
  {
    hide Position, Slope, Bend, Seconds, Acceleration, Times;
    var d := Seconds(b.t) - Seconds(a.t);
    Longer(a.t, b.t);
    Quotients(d, a.vx, a.vy);
    Quotients(d, b.vx, b.vy);
    SegmentEnds(SegmentX(a, b));
    SegmentEnds(SegmentY(a, b));
  }

  lemma Quotients(d: real, v: real, w: real)
    requires d > 0.0
    ensures 0.0 / d == 0.0 && d / d == 1.0 && (v * d) / d == v && (w * d) / d == w
  {
  }

  /** Neighbouring segments meet with the same position and velocity. */
  lemma SegmentsMeet(a: TrajectoryPoint, b: TrajectoryPoint, c: TrajectoryPoint)
    requires a.t < b.t < c.t
    ensures var i, j := Interpolate(Seconds(b.t), a, b), Interpolate(Seconds(b.t), b, c);
            i.positionX == j.positionX && i.positionY == j.positionY && i.velocityX == j.velocityX && i.velocityY == j.velocityY
  {
    hide *;
    EndsMatch(a, b);
    EndsMatch(b, c);
  }

  /** Between two points of a uniform straight motion the interpolation is that motion. */
  lemma UniformReproduced(a: TrajectoryPoint, b: TrajectoryPoint, t: real, x: real, y: real)
    requires a.t < b.t && a.vx == b.vx && a.vy == b.vy
    requires a.px == x + a.vx * Seconds(a.t) && b.px == x + a.vx * Seconds(b.t)
    requires a.py == y + a.vy * Seconds(a.t) && b.py == y + a.vy * Seconds(b.t)
    ensures Interpolate(t, a, b) == Interpolation(x + a.vx * t, y + a.vy * t, a.vx, a.vy, 0.0, 0.0)
  {
    Longer(a.t, b.t);
    var ta, tb := Seconds(a.t), Seconds(b.t);
    hide Position, Slope, Bend, Seconds, Times, Square, Cube;
    var d := tb - ta;
    Positive(d, d);
    var u := (t - ta) / d;
    UniformSegment(SegmentX(a, b), a.vx, x, ta, tb, t, d, u, Times(d, d));
    UniformSegment(SegmentY(a, b), a.vy, y, ta, tb, t, d, u, Times(d, d));
  }

  lemma UniformSegment(s: Segment, v: real, x: real, ta: real, tb: real, t: real, d: real, u: real, dd: real)
    requires d == tb - ta > 0.0 && u == (t - ta) / d && dd > 0.0
    requires s.p0 == x + v * ta && s.p1 == x + v * tb && s.v0 == v * d && s.v1 == v * d
    ensures Position(s, u) == x + v * t && Slope(s, u) / d == v && Bend(s, u) / dd == 0.0
  {
    hide Position, Slope, Bend;
    assert s.p1 == s.p0 + v * d;
    assert Square(s) == 0.0 && Cube(s) == 0.0;
    hide Square, Cube;
    ByCoefficients(s, u);
    assert Times(0.0, u) == 0.0 && Times(0.0, Times(u, u)) == 0.0 && Times(0.0, Times(u, Times(u, u))) == 0.0;
    UniformPosition(v, x, ta, t, d, u);
    Unfold(v, d);
    hide Times;
    Over(s.v0, v, d);
  }

  lemma UniformPosition(v: real, x: real, ta: real, t: real, d: real, u: real)
    requires d > 0.0 && u == (t - ta) / d
    ensures x + v * ta + Times(v * d, u) == x + v * t
  {
    Quotient(t - ta, d, u);
    assert Times(v * d, u) == v * Times(u, d);
    assert v * (t - ta) == v * t - v * ta;
  }

  /** From position `p`, velocity `v` and acceleration `a` to `q`, `w` and `b` in `h` seconds at
      constant jerk. */
  ghost predicate Moves(p: real, v: real, a: real, q: real, w: real, b: real, jerk: real, h: real) {
    && q == p + v * h + a * (h * h) / 2.0 + jerk * (h * (h * h)) / 6.0
    && w == v + a * h + jerk * (h * h) / 2.0
    && b == a + jerk * h
  }

  /** Velocity and acceleration are the derivatives in time: with a constant jerk for each
      coordinate, Taylor's formula holds exactly for every step `h`, forwards and backwards. */
  lemma ExactDerivatives(a: TrajectoryPoint, b: TrajectoryPoint, t: real, h: real) returns (jerkX: real, jerkY: real)
    requires a.t < b.t
    ensures var i, j := Interpolate(t, a, b), Interpolate(t + h, a, b);
            && Moves(i.positionX, i.velocityX, i.accelerationX, j.positionX, j.velocityX, j.accelerationX, jerkX, h)
            && Moves(i.positionY, i.velocityY, i.accelerationY, j.positionY, j.velocityY, j.accelerationY, jerkY, h)
  {
    hide Position, Velocity, Acceleration, SegmentX, SegmentY, Seconds, Moves;
    Longer(a.t, b.t);
    var d := Seconds(b.t) - Seconds(a.t);
    var u := (t - Seconds(a.t)) / d;
    var k := h / d;
    SumOverD(t, h, Seconds(a.t), d, u, k);
    jerkX := TaylorInTime(SegmentX(a, b), u, k, d, h);
    jerkY := TaylorInTime(SegmentY(a, b), u, k, d, h);
  }

  lemma TaylorInTime(s: Segment, u: real, k: real, d: real, h: real) returns (jerk: real)
    requires d > 0.0 && k == h / d
    ensures Moves(Position(s, u), Velocity(s, u, d), Acceleration(s, u, d),
                  Position(s, u + k), Velocity(s, u + k, d), Acceleration(s, u + k, d), jerk, h)
  {
    hide Position, Slope, Bend, Moves, Cube, Times;
    Positive(d, d);
    Taylor(s, u, k);
    jerk := Stretch(Position(s, u), Slope(s, u), Bend(s, u), Cube(s),
                    Position(s, u + k), Slope(s, u + k), Bend(s, u + k), k, d, Times(d, d), h);
  }

  /** Taylor's formula in the segment's own time, stretched to seconds. */
  lemma Stretch(p: real, slope: real, bend: real, c: real, q: real, slope': real, bend': real, k: real, d: real, dd: real, h: real)
      returns (jerk: real)
    requires d > 0.0 && dd == Times(d, d) && dd > 0.0 && k == h / d
    requires q == p + Times(slope, k) + Times(bend, Times(k, k)) / 2.0 + Times(c, Times(k, Times(k, k)))
    requires slope' == slope + Times(bend, k) + 3.0 * Times(c, Times(k, k))
    requires bend' == bend + 6.0 * Times(c, k)
    ensures Moves(p, slope / d, bend / dd, q, slope' / d, bend' / dd, jerk, h)
  {
    hide *;
    var v, a := slope / d, bend / dd;
    var ddd := Times(d, dd);
    Positive(d, dd);
    jerk := 6.0 * c / ddd;
    Quotient(slope, d, v);
    Quotient(bend, dd, a);
    Quotient(6.0 * c, ddd, jerk);
    Quotient(h, d, k);
    VelocityTimes(v, k, d, h);
    AccelerationTimes(a, k, d, h);
    JerkTimes(jerk, c, k, d, h);
    Sum3(v, Times(a, h), Times(jerk, Times(h, h)), d);
    Over(slope', v + Times(a, h) + Times(jerk, Times(h, h)) / 2.0, d);
    Sum(a, Times(jerk, h), dd);
    Over(bend', a + Times(jerk, h), dd);
    Folded(p, v, a, q, slope' / d, bend' / dd, jerk, h);
  }

  lemma Folded(p: real, v: real, a: real, q: real, w: real, b: real, jerk: real, h: real)
    requires q == p + Times(v, h) + Times(a, Times(h, h)) / 2.0 + Times(jerk, Times(h, Times(h, h))) / 6.0
    requires w == v + Times(a, h) + Times(jerk, Times(h, h)) / 2.0
    requires b == a + Times(jerk, h)
    ensures Moves(p, v, a, q, w, b, jerk, h)
  {
  }

  lemma Sum3(x: real, y: real, z: real, d: real)
    ensures Times(x + y + z / 2.0, d) == Times(x, d) + Times(y, d) + Times(z, d) / 2.0
  {
  }

  lemma SumOverD(t: real, h: real, start: real, d: real, u: real, k: real)
    requires d > 0.0 && u == (t - start) / d && k == h / d
    ensures (t + h - start) / d == u + k
  {
    hide Times;
    Quotient(t - start, d, u);
    Quotient(h, d, k);
    Sum(u, k, d);
    Over(t + h - start, u + k, d);
  }

  lemma VelocityTimes(v: real, k: real, d: real, h: real)
    requires h == Times(k, d)
    ensures Times(Times(v, d), k) == Times(v, h)
  {
  }

  lemma AccelerationTimes(a: real, k: real, d: real, h: real)
    requires h == Times(k, d)
    ensures Times(Times(a, Times(d, d)), Times(k, k)) == Times(a, Times(h, h))
    ensures Times(Times(a, Times(d, d)), k) == Times(Times(a, h), d)
  {
  }

  lemma JerkTimes(jerk: real, c: real, k: real, d: real, h: real)
    requires h == Times(k, d) && 6.0 * c == Times(jerk, Times(d, Times(d, d)))
    ensures 6.0 * Times(c, Times(k, Times(k, k))) == Times(jerk, Times(h, Times(h, h)))
    ensures 6.0 * Times(c, Times(k, k)) == Times(Times(jerk, Times(h, h)), d)
    ensures 6.0 * Times(c, k) == Times(Times(jerk, h), Times(d, d))
  {
    hide Times;
    var j := 6.0 * c;
    JerkCube(jerk, k, d, h);
    SixTimes(c, Times(k, Times(k, k)));
    SixTimes(c, Times(k, k));
    SixTimes(c, k);
  }

  lemma SixTimes(c: real, x: real)
    ensures Times(6.0 * c, x) == 6.0 * Times(c, x)
  {
  }

  lemma JerkCube(jerk: real, k: real, d: real, h: real)
    requires h == Times(k, d)
    ensures Times(Times(jerk, Times(d, Times(d, d))), Times(k, Times(k, k))) == Times(jerk, Times(h, Times(h, h)))
    ensures Times(Times(jerk, Times(d, Times(d, d))), Times(k, k)) == Times(Times(jerk, Times(h, h)), d)
    ensures Times(Times(jerk, Times(d, Times(d, d))), k) == Times(Times(jerk, h), Times(d, d))
  {
  }
}
