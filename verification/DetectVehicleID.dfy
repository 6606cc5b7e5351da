/** The camera side of the identification LED: edges in the tracked history, their distances, and
    the table lookup; and the round trip from the firmware's code to the decoded id. */
module DetectVehicleID {
  import opened LedCode

  /** A change between frame `position` and the one before it in time; rising refers to the
      reverse chronological order of the history. */
  datatype SignalEdge = SignalEdge(position: nat, isRising: bool)

  /** Number of frames the pipeline keeps. */
  const MAX_FRAMES: nat := 50

  ghost function Edges(history: seq<bool>, n: nat): seq<SignalEdge>
    requires n < |history|
  {
    if n == 0 then []
    else Edges(history, n - 1) + if history[n - 1] != history[n] then [SignalEdge(n - 1, history[n])] else []
  }

  function TotalFrames(edges: seq<SignalEdge>): int
    requires |edges| >= 3
  {
    edges[2].position - edges[0].position
  }

  function HighFrames(edges: seq<SignalEdge>): int
    requires |edges| >= 3
  {
    if edges[0].isRising then edges[1].position - edges[0].position else edges[2].position - edges[1].position
  }

  predicate Near(measured: int, expected: nat) {
    -1 <= measured - expected <= 1
  }

  predicate Matches(periods: seq<nat>, enabled: seq<nat>, edges: seq<SignalEdge>, k: nat)
    requires |periods| == |enabled| && |edges| >= 3 && k < |periods|
  {
    Near(HighFrames(edges), enabled[k]) && Near(TotalFrames(edges), periods[k])
  }

  /** The decoder's result: the first table entry from 1 on that is near both distances, or 0. */
  ghost predicate Decoded(periods: seq<nat>, enabled: seq<nat>, history: seq<bool>, id: nat)
    requires |periods| == |enabled| && history != []
  {
    var edges := Edges(history, |history| - 1);
    if |edges| < 3 then id == 0
    else
      && (id > 0 ==> id < |periods| && Matches(periods, enabled, edges, id)
                     && forall k: nat | 1 <= k < id :: !Matches(periods, enabled, edges, k))
      && (id == 0 ==> forall k: nat | 1 <= k < |periods| :: !Matches(periods, enabled, edges, k))
  }

  class Detector {
    const periodTicks: seq<nat>
    const enabledTicks: seq<nat>

    constructor (periodTicks: seq<nat>, enabledTicks: seq<nat>)
      requires |periodTicks| == |enabledTicks|
      ensures this.periodTicks == periodTicks && this.enabledTicks == enabledTicks
    {
      this.periodTicks := periodTicks;
      this.enabledTicks := enabledTicks;
    }

    /** The id of one tracked vehicle from its history, newest frame first; 0 if none is found. */
    method Identify(history: seq<bool>) returns (id: nat)
      requires |periodTicks| == |enabledTicks| && history != []
      ensures Decoded(periodTicks, enabledTicks, history, id)
    {
      var edges := FindEdges(history);
      if |edges| >= 3 {
        var totalFrames := edges[2].position - edges[0].position;
        var highFrames := if edges[0].isRising then edges[1].position - edges[0].position
                          else edges[2].position - edges[1].position;
        var k := 1;
        while k < |enabledTicks|
          invariant k >= 1
          invariant forall j: nat | 1 <= j < k && j < |enabledTicks| :: !Matches(periodTicks, enabledTicks, edges, j)
        {
          var deltaHigh, deltaTotal := highFrames - enabledTicks[k], totalFrames - periodTicks[k];
          if -1 <= deltaHigh && deltaHigh <= 1 && -1 <= deltaTotal && deltaTotal <= 1 {
            return k;
          }
          k := k + 1;
        }
      }
      return 0;
    }

    method FindEdges(history: seq<bool>) returns (edges: seq<SignalEdge>)
      requires history != []
      ensures edges == Edges(history, |history| - 1)
    {
      edges := [];
      for i := 0 to |history| - 1
        invariant edges == Edges(history, i)
      {
        if !history[i] && history[i + 1] {
          edges := edges + [SignalEdge(i, true)];
        } else if history[i] && !history[i + 1] {
          edges := edges + [SignalEdge(i, false)];
        }
      }
    }
  }

  // Which edges come first.

  lemma {:induction false} NoEdgeBetween(history: seq<bool>, a: nat, b: nat)
    requires a <= b < |history|
    requires forall i | a <= i < b :: history[i] == history[i + 1]
    ensures Edges(history, b) == Edges(history, a)
  {
    if a < b {
      NoEdgeBetween(history, a, b - 1);
    }
  }

  lemma {:induction false} EdgesGrow(history: seq<bool>, a: nat, b: nat)
    requires a <= b < |history|
    ensures Edges(history, a) <= Edges(history, b)
  {
    if a < b {
      EdgesGrow(history, a, b - 1);
    }
  }

  /** Value `first` up to `e0`, then alternating runs that end at `e1` and `e2`. */
  ghost predicate Alternates(history: seq<bool>, first: bool, e0: nat, e1: nat, e2: nat) {
    && e0 < e1 < e2 && e2 + 1 < |history|
    && forall i | 0 <= i <= e2 + 1 :: history[i] == if i <= e0 || e1 < i <= e2 then first else !first
  }

  /** The frames behind `a` up to `b` show one value, the next one the other. */
  ghost predicate Run(history: seq<bool>, a: nat, b: nat, value: bool) {
    a <= b && b + 1 < |history| && (forall i | a <= i <= b :: history[i] == value) && history[b + 1] == !value
  }

  /** A run adds exactly one edge. */
  lemma RunAddsEdge(history: seq<bool>, a: nat, b: nat, value: bool, before: seq<SignalEdge>)
    requires Run(history, a, b, value) && a < |history| && Edges(history, a) == before
    ensures b + 1 < |history|
    ensures Edges(history, b + 1) == before + [SignalEdge(b, !value)]
  {
    NoEdgeBetween(history, a, b);
  }

  lemma FirstEdges(history: seq<bool>, first: bool, e0: nat, e1: nat, e2: nat)
    requires Alternates(history, first, e0, e1, e2)
    ensures Edges(history, e2 + 1) == [SignalEdge(e0, !first), SignalEdge(e1, first), SignalEdge(e2, !first)]
    ensures Edges(history, e2 + 1) <= Edges(history, |history| - 1)
  {
    hide *;
    FirstRuns(history, first, e0, e1, e2);
    var s0, s1, s2 := SignalEdge(e0, !first), SignalEdge(e1, first), SignalEdge(e2, !first);
    NoEdgesYet(history);
    RunAddsEdge(history, 0, e0, first, []);
    RunAddsEdge(history, e0 + 1, e1, !first, [] + [s0]);
    RunAddsEdge(history, e1 + 1, e2, first, [] + [s0] + [s1]);
    assert [] + [s0] + [s1] + [s2] == [s0, s1, s2];
    EdgesGrow(history, e2 + 1, |history| - 1);
  }

  lemma FirstRuns(history: seq<bool>, first: bool, e0: nat, e1: nat, e2: nat)
    requires Alternates(history, first, e0, e1, e2)
    ensures e0 < e1 < e2 && e2 + 1 < |history|
    ensures Run(history, 0, e0, first) && Run(history, e0 + 1, e1, !first) && Run(history, e1 + 1, e2, first)
  {
  }

  lemma NoEdgesYet(history: seq<bool>)
    requires history != []
    ensures Edges(history, 0) == []
  {
  }

  // The round trip.

  /** Tick of frame `i` of a history whose newest frame shows tick `t`: one tick per frame, but
      from frame `d` on shifted by `s` ticks. With s == 1 a frame was dropped, with s == -1 one was
      recorded twice. */
  function TickAt(t: nat, d: nat, s: int, i: nat): int {
    if i < d then t - i else t - i - s
  }

  ghost predicate Shows(history: seq<bool>, id: nat, t: nat, d: nat, s: int)
    requires id < ID_COUNT
  {
    forall i: nat | i < |history| :: TickAt(t, d, s, i) >= 0 && history[i] == Lit(id, TickAt(t, d, s, i))
  }

  predicate LitAgo(id: nat, t: nat, j: nat)
    requires id < ID_COUNT && j <= t
  {
    Lit(id, t - j)
  }

  /** Going back from a tick with this phase: four runs of known lengths. */
  ghost predicate Runs(id: nat, phase: nat, first: bool, a0: nat, a1: nat, a2: nat, a3: nat)
    requires id < ID_COUNT
  {
    && first == (phase < Enabled(id)) && phase < Period(id)
    && a0 == (if first then phase else phase - Enabled(id))
    && a1 == a0 + (if first then Period(id) - Enabled(id) else Enabled(id))
    && a2 == a0 + Period(id) && a3 == a1 + Period(id)
  }

  lemma NominalRuns(id: nat, t: nat) returns (first: bool, a0: nat, a1: nat, a2: nat, a3: nat)
    requires 1 <= id < ID_COUNT
    ensures Runs(id, t % Period(id), first, a0, a1, a2, a3)
    ensures a0 < 14 && Period(id) <= 28 && 2 <= Enabled(id) <= Period(id) - 2
  {
    var phase := t % Period(id);
    ClosedForm(id);
    hide Period, Enabled;
    var p, e := Period(id), Enabled(id);
    assert 0 <= (id - 1) / 5 <= 4 && 0 <= (id - 1) % 5 <= 4;
    first := phase < e;
    a0 := if first then phase else phase - e;
    a1 := a0 + if first then p - e else e;
    a2, a3 := a0 + p, a1 + p;
  }

  lemma LitInRuns(id: nat, t: nat, j: nat, first: bool, a0: nat, a1: nat, a2: nat, a3: nat)
    requires 1 <= id < ID_COUNT && 2 <= Enabled(id) <= Period(id) - 2
    requires Runs(id, t % Period(id), first, a0, a1, a2, a3)
    requires j <= t && j <= a3
    ensures LitAgo(id, t, j) == if j <= a0 || a1 < j <= a2 then first else !first
  {
    hide Period, Enabled, Lit;
    LitBack(id, t, j);
  }

  /** One dropped or repeated frame moves each edge by at most one frame, and no run vanishes. */
  lemma DisturbedRuns(history: seq<bool>, id: nat, t: nat, d: nat, s: int) returns (first: bool, e0: nat, e1: nat, e2: nat)
    requires 1 <= id < ID_COUNT && |history| >= 44
    requires s == 0 || (1 <= d && (s == 1 || s == -1))
    requires Shows(history, id, t, d, s)
    ensures Alternates(history, first, e0, e1, e2)
    ensures Near(e2 - e0, Period(id))
    ensures if first then Near(e2 - e1, Enabled(id)) else Near(e1 - e0, Enabled(id))
  {
    var a0, a1, a2, a3;
    first, a0, a1, a2, a3 := NominalRuns(id, t);
    hide Period, Enabled, Lit;
    e0, e1, e2 := MovedEdge(a0, d, s), MovedEdge(a1, d, s), MovedEdge(a2, d, s);
    forall i: nat | i <= e2 + 1
      ensures history[i] == if i <= e0 || e1 < i <= e2 then first else !first
    {
      var j := t - TickAt(t, d, s, i);
      assert history[i] == Lit(id, t - j);
      LitInRuns(id, t, j, first, a0, a1, a2, a3);
      assert LitAgo(id, t, j) == Lit(id, t - j);
    }
  }

  function MovedEdge(a: nat, d: nat, s: int): (e: nat)
    requires s == 0 || (1 <= d && (s == 1 || s == -1))
    ensures a - 1 <= e <= a + 1
  {
    if s == 1 && d <= a then a - 1 else if s == -1 && d <= a + 1 then a + 1 else a
  }

  /** For every id 1..25, every phase, and at most one frame dropped or recorded twice, the decoder
      with the shared tables returns the id that the firmware blinks. */
  lemma RoundTrip(history: seq<bool>, id: nat, t: nat, d: nat, s: int, decoded: nat)
    requires 1 <= id < ID_COUNT && |history| >= 44
    requires s == 0 || (1 <= d && (s == 1 || s == -1))
    requires Shows(history, id, t, d, s)
    requires Decoded(IDENTIFICATION_LED_PERIOD_TICKS, IDENTIFICATION_LED_ENABLED_TICKS, history, decoded)
    ensures decoded == id
  {
    hide Shows, Lit;
    var first, e0, e1, e2 := DisturbedRuns(history, id, t, d, s);
    FirstEdges(history, first, e0, e1, e2);
    var edges := Edges(history, |history| - 1);
    assert edges[0] == SignalEdge(e0, !first) && edges[1] == SignalEdge(e1, first) && edges[2] == SignalEdge(e2, !first);
    assert Matches(IDENTIFICATION_LED_PERIOD_TICKS, IDENTIFICATION_LED_ENABLED_TICKS, edges, id);
    UniqueMatch(HighFrames(edges), TotalFrames(edges), id, decoded);
  }

  lemma UniqueMatch(high: int, total: int, id: nat, other: nat)
    requires 1 <= id < ID_COUNT && other < ID_COUNT
    requires Near(high, Enabled(id)) && Near(total, Period(id))
    requires other > 0 ==> Near(high, Enabled(other)) && Near(total, Period(other))
    ensures other == 0 || other == id
  {
    if other > 0 && other != id {
      EntriesApart(id, other);
    }
  }
}
