/** Progress of logical time: between two moments at which everything sent has been delivered, one
    check by the coordinator strictly lowers the number of callbacks still due before any horizon. */
module LogicalTimeProgress {
  import opened TimerTrigger
  import opened TimerSimulated
  import opened LogicalTime

  /** Number of callbacks due before `horizon`, the next one being at `deadline`. */
  ghost function DueBefore(deadline: nat, period: nat, horizon: nat): nat
    requires period > 0
    decreases horizon - deadline
  {
    if deadline >= horizon then 0 else 1 + DueBefore(deadline + period, period, horizon)
  }

  lemma DueMonotone(d: nat, d': nat, period: nat, horizon: nat)
    requires period > 0 && d <= d'
    ensures DueBefore(d', period, horizon) <= DueBefore(d, period, horizon)
    ensures d < horizon && d + period <= d' ==> DueBefore(d', period, horizon) < DueBefore(d, period, horizon)
    decreases horizon - d
  {
    if d < horizon && d' < horizon {
      DueMonotone(d + period, d' + period, period, horizon);
      if d + period <= d' {
        DueMonotone(d + period, d', period, horizon);
      }
    }
  }

  ghost function Some(ids: set<string>): (id: string)
    requires ids != {}
    ensures id in ids
  {
    var id :| id in ids; id
  }

  ghost predicate Periodic(parts: map<string, Participant>) {
    forall id | id in parts :: parts[id].period > 0
  }

  /** Callbacks due before `horizon`, summed over the participants `ids`. */
  ghost function TotalDue(parts: map<string, Participant>, ids: set<string>, horizon: nat): nat
    requires Periodic(parts) && ids <= parts.Keys
  {
    if ids == {} then 0 else
      var id := Some(ids);
      DueBefore(parts[id].deadline, parts[id].period, horizon) + TotalDue(parts, ids - {id}, horizon)
  }

  ghost predicate Later(p: Participant, p': Participant) {
    && p'.period == p.period && p'.offset == p.offset && p.deadline <= p'.deadline
  }

  lemma {:induction false} TotalDueMonotone(parts: map<string, Participant>, parts': map<string, Participant>, ids: set<string>, horizon: nat)
    requires Periodic(parts) && Periodic(parts') && ids <= parts.Keys && ids <= parts'.Keys
    requires forall id | id in ids :: Later(parts[id], parts'[id])
    ensures TotalDue(parts', ids, horizon) <= TotalDue(parts, ids, horizon)
    ensures (exists id :: id in ids && parts[id].deadline < horizon && parts[id].deadline + parts[id].period <= parts'[id].deadline)
            ==> TotalDue(parts', ids, horizon) < TotalDue(parts, ids, horizon)
  {
    if ids != {} {
      var id := Some(ids);
      DueMonotone(parts[id].deadline, parts'[id].deadline, parts[id].period, horizon);
      TotalDueMonotone(parts, parts', ids - {id}, horizon);
    }
  }

  lemma {:induction false} NoneDueIffHorizonReached(parts: map<string, Participant>, ids: set<string>, horizon: nat)
    requires Periodic(parts) && ids <= parts.Keys
    ensures TotalDue(parts, ids, horizon) == 0 <==> forall id | id in ids :: horizon <= parts[id].deadline
  {
    if ids != {} {
      NoneDueIffHorizonReached(parts, ids - {Some(ids)}, horizon);
    }
  }

  /** What any number of protocol steps never takes back. */
  ghost predicate Advances(s: System, s': System) {
    && s'.parts.Keys == s.parts.Keys
    && (forall id | id in s.parts :: Later(s.parts[id], s'.parts[id]))
    && (forall id | id in s.coord.storage :: id in s'.coord.storage && s.coord.storage[id].nextTimestep <= s'.coord.storage[id].nextTimestep)
    && s.coord.log <= s'.coord.log
    && (s.coord.started ==> s'.coord.started && s'.registered == s.registered)
    && (s'.coord.running ==> s.coord.running)
  }

  lemma DeliversAdvances(s: System, s': System, id: string, samples: seq<TriggerSample>)
    requires Inv(s) && Delivers(s, s', id, samples)
    ensures Advances(s, s')
  {
    assert ParticipantOk(s.parts[id], s.coord.log);
    HandleKeeps(s.parts[id], samples, s.coord.log);
  }

  lemma CollectsAdvances(s: System, s': System, samples: seq<ReadySample>)
    requires Collects(s, s', samples)
    ensures Advances(s, s')
  {
    HighestReportKept(s.coord, samples, "");
    forall id | id in s.coord.storage
      ensures id in s'.coord.storage && s.coord.storage[id].nextTimestep <= s'.coord.storage[id].nextTimestep
    {
      HighestReportKept(s.coord, samples, id);
    }
  }

  lemma NextAdvances(s: System, s': System)
    requires Inv(s) && Next(s, s')
    ensures Advances(s, s')
  {
    if id, samples :| Delivers(s, s', id, samples) {
      DeliversAdvances(s, s', id, samples);
    } else if samples :| Collects(s, s', samples) {
      CollectsAdvances(s, s', samples);
    } else if id :| Announces(s, s', id) {
    } else if Checks(s, s') {
    }
  }

  lemma AdvancesTransitive(a: System, b: System, c: System)
    requires Advances(a, b) && Advances(b, c)
    ensures Advances(a, c)
  {
  }

  lemma {:induction false} RunAdvances(run: seq<System>, i: nat, j: nat)
    requires Run(run) && i <= j < |run|
    ensures Advances(run[i], run[j])
    decreases j
  {
    if i < j {
      RunAdvances(run, i, j - 1);
      RunAdvancesOnce(run, j - 1);
      AdvancesTransitive(run[i], run[j - 1], run[j]);
    }
  }

  lemma RunAdvancesOnce(run: seq<System>, i: nat)
    requires Run(run) && i + 1 < |run|
    ensures Advances(run[i], run[i + 1])
  {
    InvRun(run, i);
    assert StepAt(run, i);
    NextAdvances(run[i], run[i + 1]);
  }

  lemma RunPeriodic(run: seq<System>, i: nat)
    requires Run(run) && i < |run|
    ensures Periodic(run[i].parts)
  {
    InvRun(run, i);
    assert forall id | id in run[i].parts :: ParticipantOk(run[i].parts[id], run[i].coord.log);
  }

  /** A running simulation, all of whose participants registered before its start, in which every
      ready signal has reached the coordinator and every trigger its participant. */
  ghost predicate Settled(s: System) {
    && s.coord.started && s.coord.running && s.parts != map[] && s.registered == s.parts.Keys
    && forall id | id in s.parts ::
         && id in s.coord.storage && s.coord.storage[id].nextTimestep == s.parts[id].deadline
         && s.parts[id].deadline !in s.coord.log
  }

  /** A round of fair delivery: any protocol steps, at least one of them a check by the coordinator,
      that lead from one settled state of the run to another. */
  ghost predicate Round(run: seq<System>, lo: nat, hi: nat) {
    && lo < hi < |run| && Settled(run[lo]) && Settled(run[hi])
    && exists i :: lo <= i < hi && Checks(run[i], run[i + 1])
  }

  /** A check while everybody is registered and nothing was stopped triggers the least timestep,
      which is some participant's report and lies beyond nobody's deadline. */
  lemma CheckTriggers(run: seq<System>, i: nat) returns (t: nat, id: string)
    requires Run(run) && i + 1 < |run| && Checks(run[i], run[i + 1]) && run[i].coord.running
    requires run[i].parts != map[] && run[i].parts.Keys <= run[i].registered
    ensures id in run[i].parts && id in run[i].coord.storage && run[i].coord.storage[id].nextTimestep == t
    ensures run[i + 1].coord.log == run[i].coord.log + [t]
    ensures forall p | p in run[i].parts :: t <= run[i].parts[p].deadline
  {
    var a, a' := run[i], run[i + 1];
    InvRun(run, i);
    SendsIffNobodyBehind(a.coord);
    t :| Sends(a.coord, t) && a'.coord == Triggered(a.coord, t);
    id :| id in a.coord.storage && a.coord.storage[id].nextTimestep == t;
    forall p | p in a.parts ensures t <= a.parts[p].deadline {
      assert a.coord.storage[p].nextTimestep in a.parts[p].sent;
      assert ParticipantOk(a.parts[p], a.coord.log);
    }
  }

  lemma LastLogged(log: seq<nat>, t: nat, log': seq<nat>)
    requires log + [t] <= log'
    ensures t in log'
  {
    assert (log + [t])[|log|] == t;
    assert log'[|log|] == t;
  }

  lemma RoundTriggersAt(run: seq<System>, lo: nat, i: nat, hi: nat, t: nat, id: string)
    requires Run(run) && lo <= i < hi < |run| && Settled(run[lo])
    requires id in run[i].parts && id in run[i].coord.storage && run[i].coord.storage[id].nextTimestep == t
    requires run[i + 1].coord.log == run[i].coord.log + [t]
    requires forall p | p in run[i].parts :: t <= run[i].parts[p].deadline
    ensures t in run[hi].coord.log
    ensures id in run[lo].parts && run[lo].parts[id].deadline <= t
    ensures forall p | p in run[lo].parts :: p in run[hi].parts && t <= run[hi].parts[p].deadline
  {
    RunAdvances(run, lo, i);
    RunAdvances(run, i, hi);
    RunAdvances(run, i + 1, hi);
    LastLogged(run[i].coord.log, t, run[hi].coord.log);
  }

  /** The trigger of a round: some participant was due no later, nobody stays before it. */
  lemma RoundTriggers(run: seq<System>, lo: nat, hi: nat) returns (t: nat, id: string)
    requires Run(run) && Round(run, lo, hi)
    ensures t in run[hi].coord.log
    ensures id in run[lo].parts && run[lo].parts[id].deadline <= t
    ensures forall p | p in run[lo].parts :: p in run[hi].parts && t <= run[hi].parts[p].deadline
  {
    var i: nat :| lo <= i < hi && Checks(run[i], run[i + 1]);
    RunAdvances(run, lo, i);
    RunAdvances(run, i, hi);
    t, id := CheckTriggers(run, i);
    RoundTriggersAt(run, lo, i, hi, t, id);
  }

  /** If anybody was due before the horizon, such a participant moves in the round. */
  lemma RoundMoves(run: seq<System>, lo: nat, hi: nat, horizon: nat, q: string) returns (id: string)
    requires Run(run) && Round(run, lo, hi)
    requires q in run[lo].parts && run[lo].parts[q].deadline < horizon
    ensures id in run[lo].parts && id in run[hi].parts
    ensures run[lo].parts[id].deadline < horizon
    ensures run[lo].parts[id].deadline < run[hi].parts[id].deadline
  {
    var t;
    t, id := RoundTriggers(run, lo, hi);
    assert run[hi].parts[id].deadline !in run[hi].coord.log;
    if run[lo].parts[id].deadline >= horizon {
      id := q;
    }
  }

  lemma GridGap(n: nat, n': nat, period: nat)
    requires n * period < n' * period
    ensures (n + 1) * period <= n' * period
  {
    assert n' <= n ==> n' * period <= n * period;
    assert n + 1 <= n' ==> (n + 1) * period <= n' * period;
  }

  lemma MovesWholePeriods(run: seq<System>, lo: nat, hi: nat, id: string)
    requires Run(run) && lo <= hi < |run|
    requires id in run[lo].parts && id in run[hi].parts && Later(run[lo].parts[id], run[hi].parts[id])
    requires run[lo].parts[id].deadline < run[hi].parts[id].deadline
    ensures run[lo].parts[id].deadline + run[lo].parts[id].period <= run[hi].parts[id].deadline
  {
    var p, p' := run[lo].parts[id], run[hi].parts[id];
    CallbacksExact(run, lo, id);
    CallbacksExact(run, hi, id);
    var n := |p.callbacks|;
    GridGap(n, |p'.callbacks|, p.period);
    assert (n + 1) * p.period == n * p.period + p.period;
  }

  /** Callbacks due before the horizon over all participants. */
  ghost function Due(s: System, horizon: nat): nat
    requires Periodic(s.parts)
  {
    TotalDue(s.parts, s.parts.Keys, horizon)
  }

  /** Every round lowers the number of callbacks due before the horizon, until none is left. */
  lemma RoundProgress(run: seq<System>, lo: nat, hi: nat, horizon: nat)
    requires Run(run) && Round(run, lo, hi)
    ensures Periodic(run[lo].parts) && Periodic(run[hi].parts)
    ensures Due(run[hi], horizon) < Due(run[lo], horizon) || Due(run[hi], horizon) == Due(run[lo], horizon) == 0
  {
    RunPeriodic(run, lo);
    RunPeriodic(run, hi);
    RunAdvances(run, lo, hi);
    var parts, parts' := run[lo].parts, run[hi].parts;
    TotalDueMonotone(parts, parts', parts.Keys, horizon);
    if Due(run[lo], horizon) > 0 {
      NoneDueIffHorizonReached(parts, parts.Keys, horizon);
      var q :| q in parts && parts[q].deadline < horizon;
      var id := RoundMoves(run, lo, hi, horizon, q);
      MovesWholePeriods(run, lo, hi, id);
    }
  }

  /** Settled moments of a run, each one round after the previous. */
  ghost predicate Rounds(run: seq<System>, moments: seq<nat>) {
    && (forall k | 0 <= k < |moments| :: moments[k] < |run|)
    && forall k | 0 <= k < |moments| - 1 :: Round(run, moments[k], moments[k + 1])
  }

  /** After as many rounds as callbacks were due, every participant has run all its callbacks
      before the horizon. */
  lemma {:induction false} HorizonReached(run: seq<System>, moments: seq<nat>, horizon: nat, id: string)
    requires Run(run) && moments != [] && Rounds(run, moments)
    requires Periodic(run[moments[0]].parts) && Due(run[moments[0]], horizon) < |moments|
    requires id in run[moments[0]].parts
    ensures var s := run[moments[|moments| - 1]];
            id in s.parts && HasRunAllBelow(s.parts[id], horizon)
  {
    var lo := moments[0];
    if |moments| == 1 {
      NoneDueIffHorizonReached(run[lo].parts, run[lo].parts.Keys, horizon);
      CallbacksExact(run, lo, id);
      RunAllBelowDeadline(run[lo].parts[id], horizon);
    } else {
      var hi := moments[1];
      assert Round(run, lo, hi);
      RunAdvances(run, lo, hi);
      RoundProgress(run, lo, hi, horizon);
      HorizonReached(run, moments[1..], horizon, id);
    }
  }
}
