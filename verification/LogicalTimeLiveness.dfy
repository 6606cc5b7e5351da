/** Logical time never gets stuck: from every settled moment with all participants alive there is a
    next round, and so a way to any horizon. */
module LogicalTimeLiveness {
  import opened TimerTrigger
  import opened TimerSimulated
  import opened LogicalTime
  import opened LogicalTimeProgress

  ghost function Last(run: seq<System>): System
    requires run != []
  {
    run[|run| - 1]
  }

  ghost predicate AllAlive(s: System) {
    forall id | id in s.parts :: s.parts[id].active
  }

  /** In the middle of a round: time `t` was triggered, and only the participants `todo`, which are
      due at `t`, have still to receive it. */
  ghost predicate Serving(s: System, t: nat, todo: set<string>) {
    && s.coord.started && s.coord.running && s.parts != map[] && s.registered == s.parts.Keys && AllAlive(s)
    && t in s.coord.log && t == s.coord.now && t != TRIGGER_STOP_SYMBOL
    && todo <= s.parts.Keys
    && (forall id | id in s.parts ::
          && id in s.coord.storage && s.coord.storage[id].nextTimestep == s.parts[id].deadline
          && (id in todo ==> s.parts[id].deadline == t)
          && (id !in todo ==> s.parts[id].deadline !in s.coord.log))
  }

  lemma ExtendRun(run: seq<System>, s: System)
    requires Run(run) && Next(Last(run), s)
    ensures Run(run + [s]) && Last(run + [s]) == s
  {
    var longer := run + [s];
    forall i: nat | i + 1 < |longer|
      ensures StepAt(longer, i)
    {
      if i + 1 < |run| {
        assert StepAt(run, i);
      }
    }
  }

  /** One participant runs its callback for `t` and announces its next deadline. */
  lemma FireOnTrigger(p: Participant, t: nat)
    requires p.deadline == t && p.active
    ensures Receive(p, [TriggerSample(true, t)]) == Fire(p).(waiting := false)
  {
    var samples := [TriggerSample(true, t)];
    assert samples[1..] == [];
    assert Handle(Fire(p), []) == (Fire(p), NONE);
  }

  lemma StoreOne(c: Coordinator, r: ReadySample)
    ensures StoreAll(c, [r]) == Store(c, r)
  {
    assert [r][..0] == [];
    assert StoreAll(c, []) == c;
  }

  ghost function Delivered(s: System, t: nat, id: string): System
    requires id in s.parts
  {
    s.(parts := s.parts[id := Receive(s.parts[id], [TriggerSample(true, t)])])
  }

  ghost function Collected(s: System, id: string): System
    requires id in s.parts
  {
    s.(coord := StoreAll(s.coord, [ReadySample(true, id, s.parts[id].deadline)]))
  }

  lemma DeliverOne(s: System, t: nat, todo: set<string>, id: string)
    requires Inv(s) && Serving(s, t, todo) && id in todo
    ensures Next(s, Delivered(s, t, id))
    ensures var p' := Delivered(s, t, id).parts[id];
            && p'.active && p'.deadline in p'.sent && p'.deadline > t
            && p'.deadline !in s.coord.log
  {
    var p := s.parts[id];
    assert ParticipantOk(p, s.coord.log);
    FireOnTrigger(p, t);
    var p' := Delivered(s, t, id).parts[id];
    assert p'.sent[|p'.sent| - 1] == p'.deadline;
    FireOnGrid(p);
    assert forall k: nat :: DueTime(p', k) == DueTime(p, k);
    NotStop(p');
    assert Delivers(s, Delivered(s, t, id), id, [TriggerSample(true, t)]);
  }

  lemma CollectStep(s: System, id: string)
    requires id in s.parts && s.parts[id].deadline in s.parts[id].sent
    ensures Next(s, Collected(s, id))
  {
    hide Delivers, Announces, Checks, Stops, Starts;
    assert Collects(s, Collected(s, id), [ReadySample(true, id, s.parts[id].deadline)]);
  }

  lemma CollectOne(s: System, t: nat, todo: set<string>, id: string)
    requires Inv(s) && Serving(s, t, todo) && id in todo
    ensures Next(Delivered(s, t, id), Collected(Delivered(s, t, id), id))
    ensures Serving(Collected(Delivered(s, t, id), id), t, todo - {id})
  {
    DeliverOne(s, t, todo, id);
    var s1 := Delivered(s, t, id);
    CollectStep(s1, id);
    var report := ReadySample(true, id, s1.parts[id].deadline);
    StoreOne(s1.coord, report);
    var s2 := Collected(s1, id);
    assert s2.coord == Store(s.coord, report);
    assert s2.parts == s.parts[id := s1.parts[id]] && s2.registered == s.registered;
    hide Inv, Next, Receive, Delivered, Collected, StoreAll;
    ServingWithout(s, s2, t, todo, id);
  }

  lemma ServingWithout(s: System, s2: System, t: nat, todo: set<string>, id: string)
    requires Serving(s, t, todo) && id in todo
    requires id in s2.parts && s2.parts == s.parts[id := s2.parts[id]] && s2.registered == s.registered
    requires s2.coord == Store(s.coord, ReadySample(true, id, s2.parts[id].deadline))
    requires s2.parts[id].active && s2.parts[id].deadline > t && s2.parts[id].deadline !in s.coord.log
    ensures Serving(s2, t, todo - {id})
  {
  }

  /** Serving one participant: the trigger is delivered to it and its answer collected. */
  lemma ServeOne(run: seq<System>, t: nat, todo: set<string>, id: string) returns (longer: seq<System>)
    requires Run(run) && Serving(Last(run), t, todo) && id in todo
    ensures Run(longer) && run <= longer && Serving(Last(longer), t, todo - {id})
  {
    var s := Last(run);
    var s1 := Delivered(s, t, id);
    var s2 := Collected(s1, id);
    InvRun(run, |run| - 1);
    hide *;
    DeliverOne(s, t, todo, id);
    CollectOne(s, t, todo, id);
    ExtendRun(run, s1);
    ExtendRun(run + [s1], s2);
    longer := run + [s1] + [s2];
  }

  lemma NotStop(p: Participant)
    requires WellConfigured(p) && OnGrid(p)
    ensures p.deadline != TRIGGER_STOP_SYMBOL
  {
    assert p.deadline == DueTime(p, |p.callbacks|);
  }

  lemma {:induction false} ServeAll(run: seq<System>, t: nat, todo: set<string>) returns (longer: seq<System>)
    requires Run(run) && Serving(Last(run), t, todo)
    ensures Run(longer) && run <= longer && Settled(Last(longer)) && AllAlive(Last(longer))
    decreases |todo|
  {
    if todo == {} {
      longer := run;
    } else {
      var id :| id in todo;
      longer := ServeOne(run, t, todo, id);
      longer := ServeAll(longer, t, todo - {id});
    }
  }

  /** The check that opens a round. */
  lemma OpenRound(run: seq<System>) returns (longer: seq<System>, t: nat, todo: set<string>)
    requires Run(run) && Settled(Last(run)) && AllAlive(Last(run))
    ensures Run(longer) && |longer| == |run| + 1 && run <= longer
    ensures Checks(Last(run), Last(longer)) && Serving(Last(longer), t, todo)
  {
    var s := Last(run);
    InvRun(run, |run| - 1);
    t := NextTrigger(s);
    todo := set id | id in s.parts && s.parts[id].deadline == t;
    TriggerServes(s, t, todo);
    var s' := s.(coord := Triggered(s.coord, t));
    assert Checks(s, s') by { assert s.coord.started; }
    hide Serving, Inv, Settled, Run, Checks;
    ExtendRun(run, s');
    longer := run + [s'];
  }

  lemma NextTrigger(s: System) returns (t: nat)
    requires Inv(s) && Settled(s)
    ensures Sends(s.coord, t)
  {
    forall id | id in s.coord.storage
      ensures s.coord.now <= s.coord.storage[id].nextTimestep
    {
      assert id in s.parts && id in s.registered;
    }
    SendsIffNobodyBehind(s.coord);
    t :| Sends(s.coord, t);
  }

  lemma TriggerServes(s: System, t: nat, todo: set<string>)
    requires Inv(s) && Settled(s) && AllAlive(s) && Sends(s.coord, t)
    requires todo == set id | id in s.parts && s.parts[id].deadline == t
    ensures Serving(s.(coord := Triggered(s.coord, t)), t, todo)
  {
    var id :| id in s.coord.storage && s.coord.storage[id].nextTimestep == t;
    assert ParticipantOk(s.parts[id], s.coord.log);
    NotStop(s.parts[id]);
    hide Inv, ParticipantOk, Sends;
  }

  /** From every settled moment with all participants alive the run can go on by one more round. */
  lemma RoundExists(run: seq<System>) returns (longer: seq<System>)
    requires Run(run) && Settled(Last(run)) && AllAlive(Last(run))
    ensures Run(longer) && run <= longer && AllAlive(Last(longer))
    ensures Round(longer, |run| - 1, |longer| - 1)
  {
    var begun, t, todo := OpenRound(run);
    longer := ServeAll(begun, t, todo);
    var lo := |run| - 1;
    assert longer[lo] == Last(run) && longer[lo + 1] == Last(begun);
    assert Checks(longer[lo], longer[lo + 1]);
  }

  /** Any horizon can be reached: some continuation of the run has every participant run all its
      callbacks before it. */
  lemma {:induction false} HorizonReachable(run: seq<System>, horizon: nat) returns (longer: seq<System>)
    requires Run(run) && Settled(Last(run)) && AllAlive(Last(run)) && Periodic(Last(run).parts)
    ensures Run(longer) && run <= longer && Settled(Last(longer))
    ensures forall id | id in Last(longer).parts :: HasRunAllBelow(Last(longer).parts[id], horizon)
    decreases Due(Last(run), horizon)
  {
    var s := Last(run);
    NoneDueIffHorizonReached(s.parts, s.parts.Keys, horizon);
    if Due(s, horizon) == 0 {
      longer := run;
      forall id | id in s.parts
        ensures HasRunAllBelow(s.parts[id], horizon)
      {
        CallbacksExact(run, |run| - 1, id);
        RunAllBelowDeadline(s.parts[id], horizon);
      }
    } else {
      longer := RoundExists(run);
      RoundProgress(longer, |run| - 1, |longer| - 1, horizon);
      assert longer[|run| - 1] == s;
      longer := HorizonReachable(longer, horizon);
    }
  }

  // From the very beginning.

  /** Before the start: exactly the participants `done` have announced their first deadline and are
      known to the coordinator. */
  ghost predicate Registering(s: System, done: set<string>) {
    && !s.coord.started && s.coord.running && s.coord.log == [] && s.registered == {}
    && done <= s.parts.Keys && s.coord.storage.Keys == done
    && (forall id | id in s.parts :: s.parts[id].active && s.parts[id].waiting)
    && (forall id | id in done :: s.coord.storage[id].nextTimestep == s.parts[id].deadline)
  }

  lemma RegisterOne(s: System, done: set<string>, id: string)
    requires Registering(s, done) && id in s.parts && id !in done
    ensures var s1 := s.(parts := s.parts[id := Announce(s.parts[id])]);
            && Next(s, s1) && Next(s1, Collected(s1, id)) && Registering(Collected(s1, id), done + {id})
            && Collected(s1, id).parts.Keys == s.parts.Keys
  {
    var p := s.parts[id];
    var s1 := s.(parts := s.parts[id := Announce(p)]);
    assert Announces(s, s1, id);
    assert Announce(p).sent[|p.sent|] == p.deadline;
    CollectStep(s1, id);
    StoreOne(s1.coord, ReadySample(true, id, p.deadline));
    hide Next, StoreAll;
  }

  lemma {:induction false} RegisterAll(run: seq<System>, done: set<string>) returns (longer: seq<System>)
    requires Run(run) && Registering(Last(run), done)
    ensures Run(longer) && run <= longer && Registering(Last(longer), Last(longer).parts.Keys)
    ensures Last(longer).parts.Keys == Last(run).parts.Keys
    decreases Last(run).parts.Keys - done
  {
    var s := Last(run);
    if id :| id in s.parts && id !in done {
      var s1 := s.(parts := s.parts[id := Announce(s.parts[id])]);
      RegisterOne(s, done, id);
      ExtendRun(run, s1);
      ExtendRun(run + [s1], Collected(s1, id));
      longer := RegisterAll(run + [s1] + [Collected(s1, id)], done + {id});
    } else {
      assert done == s.parts.Keys;
      longer := run;
    }
  }

  /** Any set of participants can get to a settled moment: all register, then the simulation starts. */
  lemma SettledReachable(s: System) returns (run: seq<System>)
    requires Init(s) && s.parts != map[]
    ensures Run(run) && run[0] == s && Last(run).parts.Keys == s.parts.Keys
    ensures Settled(Last(run)) && AllAlive(Last(run))
  {
    run := [s];
    assert Registering(s, {});
    run := RegisterAll(run, {});
    var r := Last(run);
    var s' := r.(coord := r.coord.(started := true), registered := r.coord.storage.Keys);
    ExtendRun(run, s');
    run := run + [s'];
  }

  /** From the beginning every horizon can be reached, with all callbacks before it run. */
  lemma AnyHorizonReachable(s: System, horizon: nat) returns (run: seq<System>)
    requires Init(s) && s.parts != map[]
    ensures Run(run) && run[0] == s && Last(run).parts.Keys == s.parts.Keys
    ensures forall id | id in s.parts :: HasRunAllBelow(Last(run).parts[id], horizon)
  {
    hide Settled, Init, AllAlive;
    var begun := SettledReachable(s);
    RunPeriodic(begun, |begun| - 1);
    run := HorizonReachable(begun, horizon);
    RunAdvances(run, |begun| - 1, |run| - 1);
    assert run[|begun| - 1] == Last(begun) && run[0] == begun[0];
  }
}
