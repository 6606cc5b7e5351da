/** The real-time timer: callbacks at the deadlines of a grid, and catching up after a late one. */
module TimerFD {
  import opened TimerGrid

  /** One wake-up: the time when the timer looks, the time after its callback, and whether a stop
      signal has come in by then. */
  datatype Round = Round(wake: nat, after: nat, stopSignal: bool)

  /** A callback for `deadline` in round number `round`, and the number of periods reported as missed after it. */
  datatype Firing = Firing(deadline: nat, round: nat, missed: nat)

  datatype Start = At(t: nat) | StopSignal

  ghost predicate Monotone(rounds: seq<Round>) {
    && (forall i | 0 <= i < |rounds| :: rounds[i].wake <= rounds[i].after)
    && forall i | 0 <= i < |rounds| - 1 :: rounds[i].after <= rounds[i + 1].wake
  }

  /** Index on the grid of the deadline after the first `i` firings: fired and missed ones. */
  ghost function Passed(firings: seq<Firing>, i: nat): nat
    requires i <= |firings|
  {
    if i == 0 then 0 else Passed(firings, i - 1) + 1 + firings[i - 1].missed
  }

  ghost predicate IdleBetween(rounds: seq<Round>, from: nat, to: nat, deadline: nat)
    requires to <= |rounds|
  {
    forall r | from <= r < to :: rounds[r].wake < deadline
  }

  ghost function NextRound(firings: seq<Firing>, i: nat): nat
    requires i <= |firings|
  {
    if i == 0 then 0 else firings[i - 1].round + 1
  }

  /** The i-th callback gets the next deadline on the grid, in the first round that is not before it;
      exactly the deadlines that are over when it returns are reported as missed. */
  ghost predicate FiresRight(firings: seq<Firing>, i: nat, first: nat, period: nat, rounds: seq<Round>)
    requires i < |firings|
  {
    var f, n := firings[i], Passed(firings, i);
    && f.round < |rounds|
    && f.deadline == GridPoint(first, period, n) <= rounds[f.round].wake
    && NextRound(firings, i) <= f.round && IdleBetween(rounds, NextRound(firings, i), f.round, f.deadline)
    && rounds[f.round].after < GridPoint(first, period, n + 1 + f.missed)
    && (f.missed > 0 ==> GridPoint(first, period, n + f.missed) <= rounds[f.round].after)
  }

  class Timer {
    const period: nat
    const offset: nat
    const hasStopCallback: bool
    var active: bool
    var cancelled: bool
    var startPoint: nat

    constructor (period: nat, offset: nat, hasStopCallback: bool)
      ensures this.period == period && this.offset == offset && this.hasStopCallback == hasStopCallback
      ensures !active && !cancelled
    {
      this.period, this.offset, this.hasStopCallback := period, offset, hasStopCallback;
      active, cancelled, startPoint := false, false, 0;
    }

    /** Runs the timer through `rounds`, or until a stop signal ends it. */
    method Start(start: Start, rounds: seq<Round>) returns (error: bool, firings: seq<Firing>, used: nat, deadline: nat)
      requires 0 < period && Monotone(rounds)
      modifies this`active, this`startPoint
      ensures error <==> old(active)
      ensures error || cancelled || start.StopSignal? ==> firings == [] && used == 0
      ensures !error && !cancelled && start.At? ==>
        var first := FirstDeadline(start.t, offset, period);
        && startPoint == start.t && used <= |rounds|
        && (forall i: nat | i < |firings| :: FiresRight(firings, i, first, period, rounds))
        && deadline == GridPoint(first, period, Passed(firings, |firings|))
        && NextRound(firings, |firings|) <= used && IdleBetween(rounds, NextRound(firings, |firings|), used, deadline)
        && (used < |rounds| ==> !active)
        && (active <==> hasStopCallback || forall i: nat | i < |firings| :: !Stops(firings[i], rounds))
    {
      hide FiresRight, FirstDeadline;
      error, firings, used, deadline := active, [], 0, 0;
      if error {
        return;
      }
      active := true;
      if cancelled || start.StopSignal? {
        return;
      }
      startPoint := start.t;
      ghost var first := FirstDeadline(start.t, offset, period);
      deadline := FirstDeadline(startPoint, offset, period);
      while active && used < |rounds|
        invariant used <= |rounds| && startPoint == start.t
        invariant forall i: nat | i < |firings| :: FiresRight(firings, i, first, period, rounds)
        invariant deadline == GridPoint(first, period, Passed(firings, |firings|))
        invariant NextRound(firings, |firings|) <= used
        invariant IdleBetween(rounds, NextRound(firings, |firings|), used, deadline)
        invariant active <==> hasStopCallback || forall i: nat | i < |firings| :: !Stops(firings[i], rounds)
        decreases |rounds| - used
      {
        var round := rounds[used];
        if round.wake >= deadline {
          var next, missed := CatchUp(deadline, period, round.after, first, Passed(firings, |firings|));
          Extend(firings, Firing(deadline, used, missed), first, period, rounds);
          firings := firings + [Firing(deadline, used, missed)];
          deadline := next;
          if round.stopSignal && !hasStopCallback {
            active := false;
          }
        }
        used := used + 1;
      }
    }
  }

  /** The deadline after `deadline`, moved on over all that are not after `now`. */
  method CatchUp(deadline: nat, period: nat, now: nat, ghost first: nat, ghost n: nat) returns (next: nat, missed: nat)
    requires period > 0 && deadline == GridPoint(first, period, n)
    ensures next == GridPoint(first, period, n + 1 + missed) > now
    ensures missed > 0 ==> GridPoint(first, period, n + missed) <= now
  {
    next, missed := deadline + period, 0;
    if now >= next {
      missed := (now - next) / period + 1;
      SkippedExactly(next, period, now);
      next := next + missed * period;
    }
    MissedOnGrid(first, period, n, missed);
  }

  ghost predicate Stops(f: Firing, rounds: seq<Round>) {
    f.round < |rounds| && rounds[f.round].stopSignal
  }

  lemma MissedOnGrid(first: nat, period: nat, n: nat, missed: nat)
    ensures GridPoint(first, period, n + 1 + missed) == GridPoint(first, period, n) + period + missed * period
    ensures missed > 0 ==> GridPoint(first, period, n + missed) == GridPoint(first, period, n) + period + (missed - 1) * period
  {
    GridSum(first, period, n + 1, missed);
    if missed > 0 {
      GridSum(first, period, n + 1, missed - 1);
    }
  }

  lemma {:induction false} PassedPrefix(firings: seq<Firing>, f: Firing, i: nat)
    requires i <= |firings|
    ensures Passed(firings + [f], i) == Passed(firings, i)
    ensures NextRound(firings + [f], i) == NextRound(firings, i)
  {
    if i > 0 {
      PassedPrefix(firings, f, i - 1);
    }
  }

  lemma Extend(firings: seq<Firing>, f: Firing, first: nat, period: nat, rounds: seq<Round>)
    requires forall i: nat | i < |firings| :: FiresRight(firings, i, first, period, rounds)
    requires f.round < |rounds| && f.deadline == GridPoint(first, period, Passed(firings, |firings|)) <= rounds[f.round].wake
    requires NextRound(firings, |firings|) <= f.round && IdleBetween(rounds, NextRound(firings, |firings|), f.round, f.deadline)
    requires rounds[f.round].after < GridPoint(first, period, Passed(firings, |firings|) + 1 + f.missed)
    requires f.missed > 0 ==> GridPoint(first, period, Passed(firings, |firings|) + f.missed) <= rounds[f.round].after
    ensures forall i: nat | i <= |firings| :: FiresRight(firings + [f], i, first, period, rounds)
    ensures Passed(firings + [f], |firings| + 1) == Passed(firings, |firings|) + 1 + f.missed
  {
    var longer := firings + [f];
    PassedPrefix(firings, f, |firings|);
    forall i: nat | i <= |firings|
      ensures FiresRight(longer, i, first, period, rounds)
    {
      PassedPrefix(firings, f, i);
      assert i < |firings| ==> FiresRight(firings, i, first, period, rounds) && longer[i] == firings[i];
    }
  }

  // What a run guarantees.

  lemma {:induction false} PassedIncreasing(firings: seq<Firing>, i: nat, j: nat)
    requires i < j <= |firings|
    ensures Passed(firings, i) + 1 + firings[i].missed <= Passed(firings, j)
  {
    if i < j - 1 {
      PassedIncreasing(firings, i, j - 1);
    }
  }

  /** Callbacks get strictly increasing times of the grid, none before its time. */
  lemma FiredInOrder(firings: seq<Firing>, first: nat, period: nat, offset: nat, rounds: seq<Round>, i: nat, j: nat)
    requires period > 0 && i < j < |firings| && OnGrid(first, offset, period)
    requires FiresRight(firings, i, first, period, rounds) && FiresRight(firings, j, first, period, rounds)
    ensures firings[i].deadline < firings[j].deadline
    ensures OnGrid(firings[j].deadline, offset, period) && firings[j].deadline <= rounds[firings[j].round].wake
  {
    PassedIncreasing(firings, i, j);
    GridIncreasing(first, period, Passed(firings, i), Passed(firings, j));
    GridStaysOnGrid(first, period, offset, Passed(firings, j));
  }

  lemma MissedIsOver(firings: seq<Firing>, i: nat, first: nat, period: nat, rounds: seq<Round>, n: nat)
    requires period > 0 && i < |firings| && FiresRight(firings, i, first, period, rounds)
    requires Passed(firings, i) <= n <= Passed(firings, i) + firings[i].missed
    ensures firings[i].round < |rounds|
    ensures n == Passed(firings, i) ==> firings[i].deadline == GridPoint(first, period, n)
    ensures n > Passed(firings, i) ==> GridPoint(first, period, n) <= rounds[firings[i].round].after
  {
    GridIncreasing(first, period, n, Passed(firings, i) + firings[i].missed);
  }

  /** Every deadline passed was either called back, once, or reported as missed after one callback
      and was then already over. */
  lemma {:induction false} FiredOrMissed(firings: seq<Firing>, first: nat, period: nat, rounds: seq<Round>, n: nat) returns (i: nat)
    requires period > 0 && forall k: nat | k < |firings| :: FiresRight(firings, k, first, period, rounds)
    requires n < Passed(firings, |firings|)
    ensures i < |firings| && firings[i].round < |rounds| && Passed(firings, i) <= n <= Passed(firings, i) + firings[i].missed
    ensures n == Passed(firings, i) ==> firings[i].deadline == GridPoint(first, period, n)
    ensures n > Passed(firings, i) ==> GridPoint(first, period, n) <= rounds[firings[i].round].after
    ensures forall k: nat | k < |firings| && k != i :: !(Passed(firings, k) <= n <= Passed(firings, k) + firings[k].missed)
  {
    hide FiresRight;
    i := |firings| - 1;
    while Passed(firings, i) > n
      invariant i < |firings| && n < Passed(firings, i + 1)
    {
      i := i - 1;
    }
    MissedIsOver(firings, i, first, period, rounds, n);
    forall k: nat | k < |firings| && k != i
      ensures !(Passed(firings, k) <= n <= Passed(firings, k) + firings[k].missed)
    {
      if k < i {
        PassedIncreasing(firings, k, i);
      } else {
        PassedIncreasing(firings, i, k);
      }
    }
  }

  /** The number of deadlines passed is the number of callbacks plus all misses reported. */
  lemma {:induction false} Accounted(firings: seq<Firing>, i: nat)
    requires i <= |firings|
    ensures Passed(firings, i) == i + TotalMissed(firings, i)
  {
    if i > 0 {
      Accounted(firings, i - 1);
    }
  }

  ghost function TotalMissed(firings: seq<Firing>, i: nat): nat
    requires i <= |firings|
  {
    if i == 0 then 0 else TotalMissed(firings, i - 1) + firings[i - 1].missed
  }
}
