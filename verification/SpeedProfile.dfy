/** The trapezoidal speed profile along a path: stand still, accelerate, cruise, decelerate, stand still. */
module SpeedProfile {
  import opened RealProducts

  const MAX_SPEED: real := 1.2
  const MAX_ACCELERATION: real := 2.0
  const MAX_DECELERATION: real := 0.4
  const STANDSTILL_TIME: real := 1.5

  type SquareRoot = real -> real

  ghost predicate IsSquareRoot(sqrt: SquareRoot) {
    forall x: real | x >= 0.0 :: sqrt(x) >= 0.0 && sqrt(x) * sqrt(x) == x
  }

  datatype Profile = Profile(speed: real, accelerationTime: real, cruiseTime: real, decelerationTime: real, distance: real) {
    function TotalTime(): real {
      STANDSTILL_TIME + accelerationTime + cruiseTime + decelerationTime + STANDSTILL_TIME
    }

    /** The distances of the three phases add up to the length of the path, and no more speed is
        reached than allowed. */
    ghost predicate Valid() {
      && 0.0 < speed <= MAX_SPEED
      && accelerationTime * MAX_ACCELERATION == speed && decelerationTime * MAX_DECELERATION == speed
      && cruiseTime >= 0.0 && (cruiseTime > 0.0 ==> speed == MAX_SPEED)
      && distance == 0.5 * speed * accelerationTime + speed * cruiseTime + 0.5 * speed * decelerationTime
    }
  }

  datatype Node = Node(distance: real, speed: real)

  function Min(a: real, b: real): real {
    if a <= b then a else b
  }

  /** The profile for a path of positive length, with the top speed lowered if there is no room to
      cruise. */
  function Plan(total: real, sqrt: SquareRoot): (p: Profile)
    requires total > 0.0 && IsSquareRoot(sqrt)
    ensures p.Valid() && p.distance == total
    ensures p.speed == MAX_SPEED || p.cruiseTime == 0.0
  {
    var accelerationDistance := 0.5 * MAX_SPEED * (MAX_SPEED / MAX_ACCELERATION);
    var decelerationDistance := 0.5 * MAX_SPEED * (MAX_SPEED / MAX_DECELERATION);
    var cruiseDistance := total - accelerationDistance - decelerationDistance;
    if cruiseDistance <= 0.0 then
      var speed := sqrt(2.0 * total / (1.0 / MAX_ACCELERATION + 1.0 / MAX_DECELERATION));
      LoweredSpeed(total, speed);
      Profile(speed, speed / MAX_ACCELERATION, 0.0 / speed, speed / MAX_DECELERATION, total)
    else
      Profile(MAX_SPEED, MAX_SPEED / MAX_ACCELERATION, cruiseDistance / MAX_SPEED, MAX_SPEED / MAX_DECELERATION, total)
  }

  lemma LoweredSpeed(total: real, speed: real)
    requires 0.0 < total <= 2.16 && speed >= 0.0
    requires speed * speed == 2.0 * total / (1.0 / MAX_ACCELERATION + 1.0 / MAX_DECELERATION)
    ensures 0.0 < speed <= MAX_SPEED && 0.0 / speed == 0.0
    ensures total == 0.5 * speed * (speed / MAX_ACCELERATION) + 0.5 * speed * (speed / MAX_DECELERATION)
  {
    assert 1.0 / MAX_ACCELERATION + 1.0 / MAX_DECELERATION == 3.0;
    assert speed * speed == 2.0 * total / 3.0 <= 1.44;
    assert speed > 1.2 ==> speed * speed > 1.2 * 1.2 by {
      if speed > 1.2 {
        assert (speed - 1.2) * (speed + 1.2) > 0.0;
      }
    }
    assert speed == 0.0 ==> speed * speed == 0.0;
    assert speed * (speed / MAX_ACCELERATION) == speed * speed / 2.0;
    assert speed * (speed / MAX_DECELERATION) == speed * speed * 2.5;
  }

  /** Distance and speed `t` seconds into the trajectory, phase by phase. */
  function NodeAt(p: Profile, t: real): Node {
    var t0 := t - STANDSTILL_TIME;
    var t1 := t0 - p.accelerationTime;
    var t2 := t1 - p.cruiseTime;
    var t3 := t2 - p.decelerationTime;
    var accelerating := if t0 > 0.0
      then var dt := Min(t0, p.accelerationTime); Node(0.5 * dt * dt * MAX_ACCELERATION, dt * MAX_ACCELERATION)
      else Node(0.0, 0.0);
    var cruising := if t1 > 0.0
      then Node(accelerating.distance + p.speed * Min(t1, p.cruiseTime), p.speed)
      else accelerating;
    var decelerating := if t2 > 0.0
      then var dt := Min(t2, p.decelerationTime);
           var speed := p.speed - dt * MAX_DECELERATION;
           Node(cruising.distance + 0.5 * dt * (speed + p.speed), speed)
      else cruising;
    if t3 > 0.0 then Node(p.distance, 0.0) else decelerating
  }

  // The same without cases on the phase: the time spent in each phase so far.

  function Clamp(x: real, top: real): (c: real)
    requires top >= 0.0
    ensures 0.0 <= c <= top
  {
    if x <= 0.0 then 0.0 else if x <= top then x else top
  }

  datatype Phases = Phases(up: real, cruise: real, down: real)

  function Spent(p: Profile, t: real): Phases
    requires p.Valid()
  {
    Phases(Clamp(t - STANDSTILL_TIME, p.accelerationTime),
           Clamp(t - STANDSTILL_TIME - p.accelerationTime, p.cruiseTime),
           Clamp(t - STANDSTILL_TIME - p.accelerationTime - p.cruiseTime, p.decelerationTime))
  }

  function Covered(v: real, s: Phases): real {
    Times(s.up, s.up) + Times(v, s.cruise) + Times(s.down, v) - 0.2 * Times(s.down, s.down)
  }

  function SpeedAfter(s: Phases): real {
    2.0 * s.up - 0.4 * s.down
  }

  lemma NodeFromPhases(p: Profile, t: real)
    requires p.Valid()
    ensures NodeAt(p, t) == Node(Covered(p.speed, Spent(p, t)), SpeedAfter(Spent(p, t)))
  {
    var s := Spent(p, t);
    var t3 := t - STANDSTILL_TIME - p.accelerationTime - p.cruiseTime - p.decelerationTime;
    LastPhase(s.down, p.speed);
    if t3 > 0.0 {
      assert s == Phases(p.accelerationTime, p.cruiseTime, p.decelerationTime);
      FullDistance(p);
    } else {
      PhasesRunning(p, t);
    }
  }

  lemma PhasesRunning(p: Profile, t: real)
    requires p.Valid() && t <= STANDSTILL_TIME + p.accelerationTime + p.cruiseTime + p.decelerationTime
    ensures NodeAt(p, t) == Node(Covered(p.speed, Spent(p, t)), SpeedAfter(Spent(p, t)))
  {
    hide Times;
    var t0 := t - STANDSTILL_TIME;
    var t1 := t0 - p.accelerationTime;
    var t2 := t1 - p.cruiseTime;
    assert Times(0.0, 0.0) == 0.0 && Times(p.speed, 0.0) == 0.0 && Times(0.0, p.speed) == 0.0 by { Zeros(p.speed); }
    FirstPhase(Min(t0, p.accelerationTime));
    Unfold(p.speed, Min(t1, p.cruiseTime));
    LastPhase(Min(t2, p.decelerationTime), p.speed);
  }

  lemma Zeros(v: real)
    ensures Times(0.0, 0.0) == 0.0 && Times(v, 0.0) == 0.0 && Times(0.0, v) == 0.0
  {
  }

  lemma FirstPhase(up: real)
    ensures 0.5 * up * up * MAX_ACCELERATION == Times(up, up)
  {
  }

  lemma LastPhase(down: real, v: real)
    ensures 0.5 * down * (v - down * MAX_DECELERATION + v) == Times(down, v) - 0.2 * Times(down, down)
  {
  }

  lemma FullDistance(p: Profile)
    requires p.Valid()
    ensures p.distance == Covered(p.speed, Phases(p.accelerationTime, p.cruiseTime, p.decelerationTime))
  {
    var a, b, v := p.accelerationTime, p.decelerationTime, p.speed;
    assert 0.5 * v * a == a * a by { assert v == 2.0 * a; }
    assert b * v - 0.2 * (b * b) == 0.5 * v * b by { assert v == 0.4 * b; assert b * v == 0.4 * (b * b); assert v * b == b * v; }
  }

  // What the profile guarantees.

  /** The distance never decreases, and never grows faster than the top speed. */
  lemma DistanceGrows(p: Profile, t: real, u: real)
    requires p.Valid() && t <= u
    ensures 0.0 <= NodeAt(p, u).distance - NodeAt(p, t).distance <= p.speed * (u - t)
  {
    hide *;
    NodeFromPhases(p, t);
    NodeFromPhases(p, u);
    PhaseOrder(p, t, u - t);
    PhaseGrowth(p.speed, Spent(p, t), Spent(p, u), u - t);
    Unfold(p.speed, u - t);
  }

  lemma PhaseGrowth(v: real, s: Phases, r: Phases, h: real)
    requires Ordered(v, s, r, h)
    ensures 0.0 <= Covered(v, r) - Covered(v, s) <= Times(v, h)
  {
    hide *;
    var a, c, b := r.up - s.up, r.cruise - s.cruise, r.down - s.down;
    var m, k := r.up + s.up, v - 0.2 * (r.down + s.down);
    Increments(v, s, r, h, a, c, b, m, k);
    FactorsBounded(v, s, r, h);
    Difference(v, s, r, a, m, c, b, k);
    GrowthBound(Covered(v, r) - Covered(v, s), v, a, c, b, m, k, h);
  }

  lemma FactorsBounded(v: real, s: Phases, r: Phases, h: real)
    requires Ordered(v, s, r, h)
    ensures 0.0 <= r.up + s.up <= v && 0.0 <= v - 0.2 * (r.down + s.down) <= v
  {
  }

  lemma GrowthBound(d: real, v: real, a: real, c: real, b: real, m: real, k: real, h: real)
    requires 0.0 <= m <= v && 0.0 <= k <= v && a >= 0.0 && c >= 0.0 && b >= 0.0 && a + c + b <= h
    requires d == Times(a, m) + Times(v, c) + Times(b, k)
    ensures 0.0 <= d <= Times(v, h)
  {
    hide Times;
    Between(a, m, v);
    Between(b, k, v);
    Between(c, v, v);
    Monotone(v, a + c + b, h);
    Sum(a + c, b, v);
    Sum(a, c, v);
    Commute(a + c + b, v);
    Commute(c, v);
  }

  lemma Difference(v: real, s: Phases, r: Phases, a: real, m: real, c: real, b: real, k: real)
    requires a == r.up - s.up && m == r.up + s.up && c == r.cruise - s.cruise
    requires b == r.down - s.down && k == v - 0.2 * (r.down + s.down)
    ensures Covered(v, r) - Covered(v, s) == Times(a, m) + Times(v, c) + Times(b, k)
  {
    assert a * m == r.up * r.up - s.up * s.up;
    assert b * k == r.down * v - s.down * v - 0.2 * (r.down * r.down - s.down * s.down);
  }

  /** Start and end, the speed limit, and when the vehicle moves at all. */
  lemma Boundaries(p: Profile, t: real)
    requires p.Valid()
    ensures 0.0 <= NodeAt(p, t).speed <= p.speed
    ensures t <= STANDSTILL_TIME ==> NodeAt(p, t) == Node(0.0, 0.0)
    ensures t >= p.TotalTime() - STANDSTILL_TIME ==> NodeAt(p, t) == Node(p.distance, 0.0)
    ensures STANDSTILL_TIME < t < p.TotalTime() - STANDSTILL_TIME ==> NodeAt(p, t).speed > 0.0
    ensures 0.0 <= NodeAt(p, t).distance <= p.distance
  {
    hide *;
    NodeFromPhases(p, t);
    SpeedFromPhases(p, t);
    DistanceAtEnds(p, t);
    DistanceBounds(p, t);
  }

  lemma DistanceBounds(p: Profile, t: real)
    requires p.Valid()
    ensures 0.0 <= NodeAt(p, t).distance <= p.distance
  {
    assert STANDSTILL_TIME >= 0.0;
    hide *;
    var end := p.TotalTime();
    DistanceAtEnds(p, 0.0);
    DistanceAtEnds(p, end);
    if t <= 0.0 { DistanceMonotone(p, t, 0.0); } else { DistanceMonotone(p, 0.0, t); }
    if t <= end { DistanceMonotone(p, t, end); } else { DistanceMonotone(p, end, t); }
    DistanceAtEnds(p, t);
  }

  lemma DistanceMonotone(p: Profile, t: real, u: real)
    requires p.Valid() && t <= u
    ensures NodeAt(p, t).distance <= NodeAt(p, u).distance
  {
    hide *;
    DistanceGrows(p, t, u);
  }

  lemma SpeedFromPhases(p: Profile, t: real)
    requires p.Valid()
    ensures 0.0 <= SpeedAfter(Spent(p, t)) <= p.speed
    ensures STANDSTILL_TIME < t < p.TotalTime() - STANDSTILL_TIME ==> SpeedAfter(Spent(p, t)) > 0.0
  {
  }

  lemma DistanceAtEnds(p: Profile, t: real)
    requires p.Valid()
    ensures t <= STANDSTILL_TIME ==> NodeAt(p, t) == Node(0.0, 0.0)
    ensures t >= p.TotalTime() - STANDSTILL_TIME ==> NodeAt(p, t) == Node(p.distance, 0.0)
  {
    if t == p.TotalTime() - STANDSTILL_TIME {
      NodeFromPhases(p, t);
      FullDistance(p);
      assert Spent(p, t) == Phases(p.accelerationTime, p.cruiseTime, p.decelerationTime);
    }
  }

  /** The node's speed is the derivative of its distance: going on at that speed for `h` seconds
      misses the distance by at most `h * h`. */
  lemma SpeedIsDerivative(p: Profile, t: real, h: real)
    requires p.Valid() && h >= 0.0
    ensures -(h * h) <= NodeAt(p, t + h).distance - NodeAt(p, t).distance - NodeAt(p, t).speed * h <= h * h
  {
    hide *;
    NodeFromPhases(p, t);
    NodeFromPhases(p, t + h);
    PhaseOrder(p, t, h);
    Taylor(p.speed, Spent(p, t), Spent(p, t + h), h);
    Unfold(h, h);
    Unfold(SpeedAfter(Spent(p, t)), h);
  }

  /** A later phase only starts once the earlier one is full, and time that passes in no phase
      passes at rest. */
  ghost predicate Ordered(v: real, s: Phases, r: Phases, h: real) {
    && 0.0 <= s.up <= r.up && 0.0 <= s.cruise <= r.cruise && 0.0 <= s.down <= r.down
    && (s.up == r.up || (s.down == 0.0 && s.cruise == 0.0))
    && (s.cruise < r.cruise ==> s.down == 0.0)
    && (s.cruise < r.cruise || s.down < r.down || s.down > 0.0 ==> 2.0 * r.up == v)
    && (r.up - s.up) + (r.cruise - s.cruise) + (r.down - s.down) <= h
    && ((r.up - s.up) + (r.cruise - s.cruise) + (r.down - s.down) < h ==> SpeedAfter(s) == 0.0 || SpeedAfter(r) == 0.0)
    && SpeedAfter(s) >= 0.0 && 2.0 * r.up <= v && 0.4 * r.down <= v
  }

  lemma PhaseOrder(p: Profile, t: real, h: real)
    requires p.Valid() && h >= 0.0
    ensures Ordered(p.speed, Spent(p, t), Spent(p, t + h), h)
  {
  }

  lemma Taylor(v: real, s: Phases, r: Phases, h: real)
    requires Ordered(v, s, r, h)
    ensures -Times(h, h) <= Covered(v, r) - Covered(v, s) - Times(SpeedAfter(s), h) <= Times(h, h)
  {
    var a, c, b := r.up - s.up, r.cruise - s.cruise, r.down - s.down;
    var m, k := r.up + s.up, v - 0.2 * (r.down + s.down);
    hide *;
    Increments(v, s, r, h, a, c, b, m, k);
    IncrementsInOrder(v, s, r, h, a, c, b);
    Difference(v, s, r, a, m, c, b, k);
    var d, speed := Covered(v, r) - Covered(v, s), SpeedAfter(s);
    TaylorBound(d, v, s.up, a, m, c, s.down, b, k, speed, h);
  }

  lemma Increments(v: real, s: Phases, r: Phases, h: real, a: real, c: real, b: real, m: real, k: real)
    requires Ordered(v, s, r, h)
    requires a == r.up - s.up && m == r.up + s.up && c == r.cruise - s.cruise
    requires b == r.down - s.down && k == v - 0.2 * (r.down + s.down)
    ensures a >= 0.0 && c >= 0.0 && b >= 0.0 && s.down >= 0.0 && a + c + b <= h
    ensures SpeedAfter(s) == 2.0 * s.up - 0.4 * s.down >= 0.0
    ensures m == a + s.up + s.up && k == v - 0.2 * (b + s.down + s.down)
  {
  }

  lemma IncrementsInOrder(v: real, s: Phases, r: Phases, h: real, a: real, c: real, b: real)
    requires Ordered(v, s, r, h)
    requires a == r.up - s.up && c == r.cruise - s.cruise && b == r.down - s.down
    ensures a > 0.0 || c > 0.0 ==> s.down == 0.0
    ensures c > 0.0 || b > 0.0 || s.down > 0.0 ==> 2.0 * (s.up + a) == v
    ensures a + c + b < h ==> SpeedAfter(s) == 0.0 || SpeedAfter(s) == 0.4 * b - 2.0 * a
  {
  }

  lemma TaylorBound(d: real, v: real, up: real, a: real, m: real, c: real, down: real, b: real, k: real, speed: real, h: real)
    requires a >= 0.0 && c >= 0.0 && b >= 0.0 && down >= 0.0 && a + c + b <= h && speed >= 0.0
    requires speed == 2.0 * up - 0.4 * down
    requires a > 0.0 || c > 0.0 ==> down == 0.0
    requires c > 0.0 || b > 0.0 || down > 0.0 ==> 2.0 * (up + a) == v
    requires a + c + b < h ==> speed == 0.0 || speed == 0.4 * b - 2.0 * a
    requires m == a + up + up && k == v - 0.2 * (b + down + down)
    requires d == Times(a, m) + Times(v, c) + Times(b, k)
    ensures -Times(h, h) <= d - Times(speed, h) <= Times(h, h)
  {
    hide *;
    var rest := h - (a + c + b);
    GainAccelerating(a, m, speed);
    GainCruising(a, c, v, speed);
    GainDecelerating(a, b, k, speed);
    RestAfter(speed, rest, a, b);
    Squares(a, c, b, rest, h);
    Distribute(speed, a, c, b, rest, h);
  }

  lemma Distribute(speed: real, a: real, c: real, b: real, rest: real, h: real)
    requires h == a + c + b + rest
    ensures Times(speed, h) == Times(speed, a) + Times(speed, c) + Times(speed, b) + Times(speed, rest)
  {
  }

  lemma GainAccelerating(a: real, m: real, speed: real)
    requires a >= 0.0 && (a > 0.0 ==> m == a + speed)
    ensures Times(a, m) == Times(speed, a) + Times(a, a)
  {
    if a > 0.0 {
      assert a * m == a * (a + speed);
    }
  }

  lemma GainCruising(a: real, c: real, v: real, speed: real)
    requires c >= 0.0 && (c > 0.0 ==> v == speed + 2.0 * a)
    ensures Times(v, c) == Times(speed, c) + 2.0 * Times(a, c)
  {
  }

  lemma GainDecelerating(a: real, b: real, k: real, speed: real)
    requires b >= 0.0 && (b > 0.0 ==> k == speed + 2.0 * a - 0.2 * b)
    ensures Times(b, k) == Times(speed, b) + 2.0 * Times(a, b) - 0.2 * Times(b, b)
  {
    if b > 0.0 {
      assert b * k == b * (speed + 2.0 * a - 0.2 * b);
    }
  }

  lemma RestAfter(speed: real, rest: real, a: real, b: real)
    requires speed >= 0.0 && rest >= 0.0 && a >= 0.0 && b >= 0.0
    requires rest > 0.0 ==> speed == 0.0 || speed == 0.4 * b - 2.0 * a
    ensures 0.0 <= Times(speed, rest) <= 0.4 * Times(b, rest)
  {
    hide Times;
    if rest > 0.0 {
      Between(rest, speed, 0.4 * b);
      Commute(rest, speed);
      FourTenths(rest, b);
    } else {
      Zeros(speed);
      Zeros(b);
    }
  }

  lemma FourTenths(rest: real, b: real)
    ensures Times(rest, 0.4 * b) == 0.4 * Times(b, rest)
  {
  }

  lemma Squares(a: real, c: real, b: real, rest: real, h: real)
    requires h == a + c + b + rest && a >= 0.0 && c >= 0.0 && b >= 0.0 && rest >= 0.0
    ensures var gain := Times(a, a) + 2.0 * Times(a, c) + 2.0 * Times(a, b) - 0.2 * Times(b, b);
            gain <= Times(h, h) && gain - 0.4 * Times(b, rest) >= -Times(h, h)
  {
    hide Times;
    SquareOfFour(a, c, b, rest);
    NotNegative(a, a); NotNegative(c, c); NotNegative(b, b); NotNegative(rest, rest);
    NotNegative(a, c); NotNegative(a, b); NotNegative(a, rest);
    NotNegative(c, b); NotNegative(c, rest); NotNegative(b, rest);
  }

  lemma SquareOfFour(a: real, c: real, b: real, e: real)
    ensures Times(a + c + b + e, a + c + b + e) == Times(a, a) + Times(c, c) + Times(b, b) + Times(e, e)
              + 2.0 * Times(a, c) + 2.0 * Times(a, b) + 2.0 * Times(a, e) + 2.0 * Times(c, b) + 2.0 * Times(c, e) + 2.0 * Times(b, e)
  {
  }
}
