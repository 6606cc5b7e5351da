/** The logical-time protocol: one coordinator and any number of participants exchanging ready
    signals and system triggers over a network that may lose, delay, reorder and repeat both. */
module LogicalTime {
  import opened TimerTrigger
  import opened TimerSimulated

  /** A ready signal or trigger that was ever sent may be delivered at any later time, any number
      of times: the network is what participants have `sent` and what the coordinator has logged.
      `registered` are the participants known to the coordinator when the simulation started. */
  datatype System = System(coord: Coordinator, parts: map<string, Participant>, registered: set<string>)

  ghost predicate WellConfigured(p: Participant) {
    && p.period > 0
    && forall k: nat :: DueTime(p, k) != TRIGGER_STOP_SYMBOL
  }

  ghost predicate Init(s: System) {
    && s.coord == Coordinator(true, false, true, 0, map[], [])
    && s.registered == {}
    && forall id | id in s.parts ::
         && WellConfigured(s.parts[id])
         && s.parts[id] == Begin(s.parts[id].period, s.parts[id].offset, s.parts[id].hasStopCallback)
  }

  ghost predicate Announces(s: System, s': System, id: string) {
    && id in s.parts && s.parts[id].active && s.parts[id].waiting
    && s' == s.(parts := s.parts[id := Announce(s.parts[id])])
  }

  ghost predicate Delivers(s: System, s': System, id: string, samples: seq<TriggerSample>) {
    && id in s.parts && s.parts[id].active
    && SamplesFrom(samples, s.coord.log)
    && s' == s.(parts := s.parts[id := Receive(s.parts[id], samples)])
  }

  ghost predicate ReadyFrom(samples: seq<ReadySample>, parts: map<string, Participant>) {
    forall r | r in samples && r.valid :: r.id in parts && r.nextStart in parts[r.id].sent
  }

  ghost predicate Collects(s: System, s': System, samples: seq<ReadySample>) {
    ReadyFrom(samples, s.parts) && s' == s.(coord := StoreAll(s.coord, samples))
  }

  ghost predicate Checks(s: System, s': System) {
    s.coord.started && Checked(s.coord, s'.coord) && s' == s.(coord := s'.coord)
  }

  ghost predicate Starts(s: System, s': System) {
    !s.coord.started && s' == s.(coord := s.coord.(started := true), registered := s.coord.storage.Keys)
  }

  ghost predicate Stops(s: System, s': System) {
    s' == s.(coord := Stopped(s.coord))
  }

  ghost predicate Next(s: System, s': System) {
    || (exists id :: Announces(s, s', id))
    || (exists id, samples :: Delivers(s, s', id, samples))
    || (exists samples :: Collects(s, s', samples))
    || Checks(s, s')
    || Starts(s, s')
    || Stops(s, s')
  }

  ghost predicate StepAt(run: seq<System>, i: nat)
    requires i + 1 < |run|
  {
    Next(run[i], run[i + 1])
  }

  ghost predicate Steps(run: seq<System>) {
    |run| > 0 && forall i: nat | i + 1 < |run| :: StepAt(run, i)
  }

  ghost predicate Run(run: seq<System>) {
    Steps(run) && Init(run[0])
  }

  ghost predicate TriggersOrdered(c: Coordinator) {
    && (forall t | t in c.log && t != TRIGGER_STOP_SYMBOL :: t <= c.now)
    && (forall i, j | 0 <= i < j < |c.log| && c.log[i] != TRIGGER_STOP_SYMBOL && c.log[j] != TRIGGER_STOP_SYMBOL ::
          c.log[i] <= c.log[j])
  }

  ghost predicate ParticipantOk(p: Participant, log: seq<nat>) {
    && WellConfigured(p) && OnGrid(p) && AnnouncesAtMostDeadline(p)
    && forall t | t in p.callbacks :: t in log
  }

  ghost predicate StoredReports(s: System) {
    forall id | id in s.coord.storage :: id in s.parts && s.coord.storage[id].nextTimestep in s.parts[id].sent
  }

  ghost predicate RegisteredInSync(s: System) {
    forall id | id in s.registered :: id in s.coord.storage && s.coord.now <= s.coord.storage[id].nextTimestep
  }

  /** The inductive invariant of every run. */
  ghost predicate Inv(s: System) {
    && s.coord.simulated && StatusExact(s.coord)
    && (!s.coord.started ==> s.coord.now == 0 && s.registered == {})
    && TriggersOrdered(s.coord)
    && (forall id | id in s.parts :: ParticipantOk(s.parts[id], s.coord.log))
    && StoredReports(s)
    && RegisteredInSync(s)
  }

  lemma InvDelivers(s: System, s': System, id: string, samples: seq<TriggerSample>)
    requires Inv(s) && Delivers(s, s', id, samples)
    ensures Inv(s')
  {
    HandleKeeps(s.parts[id], samples, s.coord.log);
    var p, p' := s.parts[id], s'.parts[id];
    forall t | t in p'.callbacks ensures t in s.coord.log {
      var k :| 0 <= k < |p'.callbacks| && p'.callbacks[k] == t;
      assert k < |p.callbacks| ==> p.callbacks[k] in p.callbacks;
    }
    assert forall k: nat :: DueTime(p', k) == DueTime(p, k);
  }

  lemma InvCollects(s: System, s': System, samples: seq<ReadySample>)
    requires Inv(s) && Collects(s, s', samples)
    ensures Inv(s')
  {
    StatusExactStored(s.coord, samples);
    HighestReportKept(s.coord, samples, "");
    forall id | id in s'.coord.storage
      ensures id in s.parts && s'.coord.storage[id].nextTimestep in s.parts[id].sent
      ensures id in s.coord.storage ==> s.coord.storage[id].nextTimestep <= s'.coord.storage[id].nextTimestep
    {
      HighestReportKept(s.coord, samples, id);
      var next := s'.coord.storage[id].nextTimestep;
      if Reports(samples, id, next) {
        assert ReadySample(true, id, next) in samples;
      }
    }
    forall id | id in s.registered ensures id in s'.coord.storage {
      HighestReportKept(s.coord, samples, id);
    }
  }

  lemma ParticipantsKeepLog(parts: map<string, Participant>, log: seq<nat>, log': seq<nat>)
    requires log <= log'
    requires forall id | id in parts :: ParticipantOk(parts[id], log)
    ensures forall id | id in parts :: ParticipantOk(parts[id], log')
  {
    forall id | id in parts ensures ParticipantOk(parts[id], log') {
      assert ParticipantOk(parts[id], log);
    }
  }

  lemma TriggeredOrdered(c: Coordinator, t: nat)
    requires TriggersOrdered(c) && Sends(c, t)
    ensures TriggersOrdered(Triggered(c, t))
  {
    forall i | 0 <= i < |c.log| && c.log[i] != TRIGGER_STOP_SYMBOL ensures c.log[i] <= t {
      assert c.log[i] in c.log;
    }
  }

  lemma InvChecks(s: System, s': System)
    requires Inv(s) && Checks(s, s')
    ensures Inv(s')
  {
    if s'.coord != s.coord {
      var t :| Sends(s.coord, t) && s'.coord == Triggered(s.coord, t);
      StatusExactChecked(s.coord, s'.coord);
      TriggeredOrdered(s.coord, t);
      ParticipantsKeepLog(s.parts, s.coord.log, s'.coord.log);
      assert forall id | id in s'.coord.storage :: s'.coord.storage[id].nextTimestep == s.coord.storage[id].nextTimestep;
    }
  }

  lemma InvAnnounces(s: System, s': System, id: string)
    requires Inv(s) && Announces(s, s', id)
    ensures Inv(s')
  {
    var p, p' := s.parts[id], s'.parts[id];
    assert forall k: nat :: DueTime(p', k) == DueTime(p, k);
  }

  lemma InvNext(s: System, s': System)
    requires Inv(s) && Next(s, s')
    ensures Inv(s')
  {
    if id :| Announces(s, s', id) {
      InvAnnounces(s, s', id);
    } else if id, samples :| Delivers(s, s', id, samples) {
      InvDelivers(s, s', id, samples);
    } else if samples :| Collects(s, s', samples) {
      InvCollects(s, s', samples);
    } else if Checks(s, s') {
      InvChecks(s, s');
    } else if Stops(s, s') {
    }
  }

  lemma {:induction false} InvRun(run: seq<System>, i: nat)
    requires Run(run) && i < |run|
    ensures Inv(run[i])
  {
    if i == 0 {
    } else {
      InvRun(run, i - 1);
      assert StepAt(run, i - 1);
      InvNext(run[i - 1], run[i]);
    }
  }

  /** Simulated time never goes back: of any two triggers sent in a run, other than stop signals,
      the later one is not smaller. */
  lemma TriggersNonDecreasing(run: seq<System>, i: nat, j: nat, k: nat)
    requires Run(run) && i < |run| && j <= k < |run[i].coord.log|
    requires run[i].coord.log[j] != TRIGGER_STOP_SYMBOL && run[i].coord.log[k] != TRIGGER_STOP_SYMBOL
    ensures run[i].coord.log[j] <= run[i].coord.log[k]
  {
    InvRun(run, i);
  }

  /** When time `t` is triggered, every participant the coordinator knows has already run all its
      callbacks with a time below `t`. */
  lemma TriggerWaitsForCallbacks(run: seq<System>, i: nat, t: nat, id: string)
    requires Run(run) && i + 1 < |run|
    requires t != TRIGGER_STOP_SYMBOL && run[i + 1].coord.log == run[i].coord.log + [t]
    requires id in run[i].coord.storage
    ensures id in run[i].parts && HasRunAllBelow(run[i].parts[id], t)
  {
    InvRun(run, i);
    var s, s' := run[i], run[i + 1];
    assert StepAt(run, i);
    LogGrowsByCheck(s, s', t);
    assert s.coord.storage[id].nextTimestep in s.parts[id].sent;
    assert ParticipantOk(s.parts[id], s.coord.log);
    RunAllBelowDeadline(s.parts[id], t);
  }

  lemma LogGrowsByCheck(s: System, s': System, t: nat)
    requires Next(s, s') && t != TRIGGER_STOP_SYMBOL && s'.coord.log == s.coord.log + [t]
    ensures IsMinimum(s.coord.storage, t)
  {
    assert s'.coord.log[|s.coord.log|] == t && s'.coord.log != s.coord.log;
    if samples :| Collects(s, s', samples) {
      HighestReportKept(s.coord, samples, "");
    } else if Checks(s, s') {
      var u :| Sends(s.coord, u) && s'.coord == Triggered(s.coord, u);
      assert s'.coord.log[|s.coord.log|] == u;
    }
  }

  /** Each participant's callback times are exactly offset, offset + period, ..., none skipped or
      repeated, whatever was lost, reordered or delivered twice. */
  lemma CallbacksExact(run: seq<System>, i: nat, id: string)
    requires Run(run) && i < |run| && id in run[i].parts
    ensures var p := run[i].parts[id];
            && p.callbacks == seq(|p.callbacks|, k requires 0 <= k => DueTime(p, k))
            && p.deadline == DueTime(p, |p.callbacks|)
  {
    InvRun(run, i);
    assert ParticipantOk(run[i].parts[id], run[i].coord.log);
  }

  /** Lockstep: once anybody has run a callback at time `t`, every participant registered at the
      start has run all its callbacks with a time below `t`. */
  lemma Lockstep(run: seq<System>, i: nat, id: string, t: nat, other: string)
    requires Run(run) && i < |run|
    requires id in run[i].parts && t in run[i].parts[id].callbacks
    requires other in run[i].registered
    ensures other in run[i].parts && HasRunAllBelow(run[i].parts[other], t)
  {
    InvRun(run, i);
    var s := run[i];
    assert ParticipantOk(s.parts[id], s.coord.log);
    assert t != TRIGGER_STOP_SYMBOL by {
      var k: nat :| k < |s.parts[id].callbacks| && s.parts[id].callbacks[k] == t;
      assert DueTime(s.parts[id], k) == t;
    }
    assert t <= s.coord.now <= s.coord.storage[other].nextTimestep;
    assert s.coord.storage[other].nextTimestep in s.parts[other].sent;
    assert ParticipantOk(s.parts[other], s.coord.log);
    RunAllBelowDeadline(s.parts[other], t);
  }

  /** While some stored timestep lies below the current time no trigger is sent. */
  lemma NoTriggerWhileBehind(s: System, s': System, id: string)
    requires Checks(s, s')
    requires id in s.coord.storage && s.coord.storage[id].nextTimestep < s.coord.now
    ensures s' == s
  {
    SendsIffNobodyBehind(s.coord);
  }
}
