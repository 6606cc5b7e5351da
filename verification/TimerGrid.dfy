/** Arithmetic of a periodic timer: the grid of deadlines and the first one after the start. */
module TimerGrid {
  import opened Bits
  import opened Remainders

  /** The n-th deadline from `first` on. */
  function GridPoint(first: nat, period: nat, n: nat): (t: nat)
  {
    if n == 0 then first else GridPoint(first, period, n - 1) + period
  }

  lemma {:induction false} GridIncreasing(first: nat, period: nat, m: nat, n: nat)
    requires period > 0 && m <= n
    ensures GridPoint(first, period, m) + (n - m) <= GridPoint(first, period, n)
  {
    if m < n {
      GridIncreasing(first, period, m, n - 1);
    }
  }

  lemma {:induction false} GridSum(first: nat, period: nat, n: nat, k: nat)
    ensures GridPoint(first, period, n + k) == GridPoint(first, period, n) + k * period
  {
    if k > 0 {
      GridSum(first, period, n, k - 1);
      assert (k - 1) * period + period == k * period;
    }
  }

  /** The catch-up step: how many deadlines from `deadline` on are not after `now`. */
  lemma SkippedExactly(deadline: nat, period: nat, now: nat)
    requires period > 0 && now >= deadline
    ensures var k := (now - deadline) / period + 1;
            deadline + (k - 1) * period <= now < deadline + k * period
  {
    var d := now - deadline;
    assert d == (d / period) * period + d % period;
    assert (d / period + 1) * period == (d / period) * period + period;
  }

  predicate OnGrid(t: int, offset: int, period: int)
    requires period > 0
  {
    (t - offset) % period == 0
  }

  lemma {:induction false} GridStaysOnGrid(first: nat, period: nat, offset: nat, n: nat)
    requires period > 0 && OnGrid(first, offset, period)
    ensures OnGrid(GridPoint(first, period, n), offset, period)
  {
    if n > 0 {
      GridStaysOnGrid(first, period, offset, n - 1);
      RemainderOf(1, period, 0);
      RemainderOfSum(GridPoint(first, period, n - 1) - offset, period, period);
    }
  }

  // The first deadline.

  /** As the source computes it, in unsigned 64-bit arithmetic. */
  function FirstDeadline(start: nat, offset: nat, period: nat): nat
    requires period > 0
  {
    var since := (start - offset) % U64;
    if since % period == 0 then start
    else (NextMultipleOf(since, period) + offset) % U64
  }

  function NextMultipleOf(since: nat, period: nat): nat
    requires period > 0
  {
    (since / period + 1) * period
  }

  ghost predicate LeastOnGrid(t: nat, start: nat, offset: nat, period: nat)
    requires period > 0
  {
    && start <= t && OnGrid(t, offset, period)
    && forall u: nat | start <= u < t :: !OnGrid(u, offset, period)
  }

  /** The first deadline in plain terms: the start, or the rest of the period later. */
  lemma FirstDeadlineValue(start: nat, offset: nat, period: nat)
    requires 0 < period && start + period < U64 && offset < U64
    ensures var since := if start >= offset then start - offset else start - offset + U64;
            FirstDeadline(start, offset, period) == if since % period == 0 then start else start + period - since % period
  {
    hide NextMultipleOf;
    var since := if start >= offset then start - offset else start - offset + U64;
    Since(start, offset);
    var r := since % period;
    NextAfter(since, period, r);
    Wrapped(start + period - r, start < offset);
  }

  lemma Since(start: nat, offset: nat)
    requires start < U64 && offset < U64
    ensures (start - offset) % U64 == if start >= offset then start - offset else start - offset + U64
  {
  }

  lemma NextAfter(since: nat, period: nat, r: nat)
    requires period > 0 && r == since % period
    ensures NextMultipleOf(since, period) == since + period - r && 0 <= r < period
  {
    var q := since / period;
    assert since == q * period + r;
    assert (q + 1) * period == q * period + period;
  }

  lemma Wrapped(t: nat, once: bool)
    requires t < U64
    ensures (if once then t + U64 else t) % U64 == t
  {
  }

  /** It is the least time from the start on that is on the grid, exactly if the start is not before
      the offset or the period divides 2^64. */
  lemma FirstDeadlineIff(start: nat, offset: nat, period: nat)
    requires 0 < period && start + period < U64 && offset < U64
    ensures LeastOnGrid(FirstDeadline(start, offset, period), start, offset, period)
            <==> start >= offset || U64 % period == 0
  {
    FirstDeadlineValue(start, offset, period);
    var since := if start >= offset then start - offset else start - offset + U64;
    var t := FirstDeadline(start, offset, period);
    NextMultiple(since, period);
    assert t - offset == since + (t - start) - (if start >= offset then 0 else U64);
    if start >= offset {
      Least(start, offset, period, t, 0);
    } else if U64 % period == 0 {
      Least(start, offset, period, t, U64);
    } else {
      OffByU64(since + (t - start), period);
    }
  }

  lemma NextMultiple(since: nat, period: nat)
    requires period > 0
    ensures since % period != 0 ==> (since + period - since % period) % period == 0
  {
    assert since == (since / period) * period + since % period;
    assert (since / period + 1) * period == (since / period) * period + period;
    RemainderOf(since / period + 1, period, 0);
  }

  lemma Least(start: nat, offset: nat, period: nat, t: nat, wrap: nat)
    requires period > 0 && wrap % period == 0 && start - offset + wrap >= 0
    requires var since := start - offset + wrap;
             t == if since % period == 0 then start else start + period - since % period
    ensures LeastOnGrid(t, start, offset, period)
  {
    var since := start - offset + wrap;
    NextMultiple(since, period);
    RemainderOfSum(t - offset, wrap, period);
    forall u: nat | start <= u < t
      ensures !OnGrid(u, offset, period)
    {
      RemainderOfSum(u - offset, wrap, period);
      var q, r := since / period, since % period;
      assert since == q * period + r;
      RemainderOf(q, period, r + (u - start));
    }
  }

  lemma OffByU64(x: int, period: nat)
    requires period > 0 && x % period == 0 && U64 % period != 0
    ensures (x - U64) % period != 0
  {
    if (x - U64) % period == 0 {
      var k, l := x / period, (x - U64) / period;
      assert x == k * period && x - U64 == l * period;
      assert (k - l) * period == U64;
      RemainderOf(k - l, period, 0);
      assert false;
    }
  }
}
