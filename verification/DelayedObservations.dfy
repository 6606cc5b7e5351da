/** Whole runs of the localization without reset: when the delayed observations arrive in time, the
    filtered history depends only on which observations arrived, not on when or how often. */
module DelayedObservations {
  import opened Localization
  import opened Options

  /** The arguments of one update call; the period is the same in all calls of a run. */
  datatype Event<S, P> = Event(t: nat, sensors: S, observation: Observation<P>, age: nat)

  ghost function Recorded<S, P>(f: Filter<S, P>, events: seq<Event<S, P>>, period: nat): (h: seq<Entry<S, P>>)
    ensures |h| == LOCALIZATION_BUFFER_SIZE + |events|
  {
    if events == [] then seq(LOCALIZATION_BUFFER_SIZE, _ => Default(f))
    else
      var e := events[|events| - 1];
      Attach(Recorded(f, events[..|events| - 1], period) + [Entry(e.t, e.sensors, None)], e.observation, e.age, period)
  }

  /** Feeds all events to a fresh localization. */
  method RunUpdates<S, P>(f: Filter<S, P>, events: seq<Event<S, P>>, period: nat) returns (poses: seq<P>)
    requires StaysAtZero(f)
    ensures |poses| == |events|
    ensures forall k | 0 <= k < |events| ::
              poses[k] == PoseAt(f, Recorded(f, events[..k + 1], period), 0, LOCALIZATION_BUFFER_SIZE + k)
  {
    hide PoseAt, Attach, Target, FindSlot, Represents, StaysAtZero;
    var localization := new Localization(f);
    poses := [];
    for k := 0 to |events|
      invariant localization.Valid() && localization.filter == f && fresh(localization.stateBuffer)
      invariant localization.history == Recorded(f, events[..k], period) && localization.origin == 0
      invariant |poses| == k
      invariant forall j | 0 <= j < k ::
                  poses[j] == PoseAt(f, Recorded(f, events[..j + 1], period), 0, LOCALIZATION_BUFFER_SIZE + j)
    {
      var e := events[k];
      assert events[..k + 1][..k] == events[..k];
      var pose := localization.Update(e.t, period, e.sensors, e.observation, e.age);
      poses := poses + [pose];
    }
    assert events[..|events|] == events;
  }

  ghost function Times<S, P>(h: seq<Entry<S, P>>): (times: seq<nat>)
    ensures |times| == |h| && forall i | 0 <= i < |h| :: times[i] == h[i].t
  {
    seq(|h|, i requires 0 <= i < |h| => h[i].t)
  }

  /** Control steps are at least one period apart, the first one from the default time 0. */
  ghost predicate Spaced(times: seq<nat>, period: nat) {
    forall i, j | 0 <= i < j < |times| && LOCALIZATION_BUFFER_SIZE <= j :: times[i] + period <= times[j]
  }

  /** Step `n` is the newest one whose period covers the stamp. */
  ghost predicate SlotIs(times: seq<nat>, stamp: nat, period: nat, n: nat) {
    && n < |times| && times[n] <= stamp < times[n] + period
    && forall m | n < m < |times| :: !(times[m] <= stamp < times[m] + period)
  }

  lemma SlotStays(times: seq<nat>, t: nat, stamp: nat, period: nat, n: nat)
    requires Spaced(times + [t], period) && |times| >= LOCALIZATION_BUFFER_SIZE
    requires SlotIs(times, stamp, period, n)
    ensures SlotIs(times + [t], stamp, period, n)
  {
    var longer := times + [t];
    assert longer[n] + period <= longer[|times|];
  }

  ghost predicate Arrived<S, P>(events: seq<Event<S, P>>, o: Observation<P>) {
    exists k :: 0 <= k < |events| && events[k].age < MAX_OBSERVATION_AGE && events[k].observation == o
  }

  /** The observation of event `k`, if it is recent, finds its slot at ring index 1 or above. */
  ghost predicate InTime<S, P>(f: Filter<S, P>, events: seq<Event<S, P>>, period: nat, k: nat)
    requires k < |events|
  {
    var e := events[k];
    var h := Recorded(f, events[..k], period) + [Entry(e.t, e.sensors, None)];
    e.age < MAX_OBSERVATION_AGE ==> FindSlot(h, |h| - LOCALIZATION_BUFFER_SIZE + 1, |h|, e.observation.stamp, period).Some?
  }

  ghost predicate AllInTime<S, P>(f: Filter<S, P>, events: seq<Event<S, P>>, period: nat) {
    forall k: nat | k < |events| :: InTime(f, events, period, k)
  }

  /** Observations that belong to the same control step are the same observation. */
  ghost predicate OnePerSlot<S, P(!new)>(events: seq<Event<S, P>>, times: seq<nat>, period: nat) {
    forall o, o', n | Arrived(events, o) && Arrived(events, o') && SlotIs(times, o.stamp, period, n) && SlotIs(times, o'.stamp, period, n) ::
      o == o'
  }

  /** What the history records for each step: exactly the arrived observation that belongs to it. */
  ghost predicate RecordsArrived<S, P(!new)>(h: seq<Entry<S, P>>, events: seq<Event<S, P>>, period: nat) {
    forall n: nat, o | n < |h| ::
      h[n].observation == Some(o) <==> Arrived(events, o) && SlotIs(Times(h), o.stamp, period, n)
  }

  lemma ArrivedStep<S, P>(events: seq<Event<S, P>>, o: Observation<P>)
    requires events != []
    ensures var e := events[|events| - 1];
            Arrived(events, o) <==> Arrived(events[..|events| - 1], o) || (e.age < MAX_OBSERVATION_AGE && e.observation == o)
  {
    var init := events[..|events| - 1];
    if Arrived(init, o) {
      var k :| 0 <= k < |init| && init[k].age < MAX_OBSERVATION_AGE && init[k].observation == o;
      assert events[k] == init[k];
    }
    if Arrived(events, o) {
      var k :| 0 <= k < |events| && events[k].age < MAX_OBSERVATION_AGE && events[k].observation == o;
      assert k < |init| ==> init[k] == events[k];
    }
  }

  /** Every step keeps its time and sensors; only the observations are filled in later. */
  lemma {:induction false} InputsRecorded<S, P>(f: Filter<S, P>, events: seq<Event<S, P>>, period: nat, n: nat)
    requires n < LOCALIZATION_BUFFER_SIZE + |events|
    ensures var h := Recorded(f, events, period);
            if n < LOCALIZATION_BUFFER_SIZE then h[n].t == 0 && h[n].sensors == f.idle
            else var e := events[n - LOCALIZATION_BUFFER_SIZE]; h[n].t == e.t && h[n].sensors == e.sensors
  {
    if events != [] && n < LOCALIZATION_BUFFER_SIZE + |events| - 1 {
      InputsRecorded(f, events[..|events| - 1], period, n);
    }
  }

  ghost predicate AllHaveSlot<S, P(!new)>(times: seq<nat>, events: seq<Event<S, P>>, period: nat) {
    forall o | Arrived(events, o) :: exists n :: SlotIs(times, o.stamp, period, n)
  }

  /** The slots of everything that arrived stay the same when one more step is recorded. */
  lemma SlotsStay<S, P(!new)>(h: seq<Entry<S, P>>, e: Entry<S, P>, events: seq<Event<S, P>>, period: nat)
    requires |h| >= LOCALIZATION_BUFFER_SIZE && Spaced(Times(h + [e]), period)
    requires RecordsArrived(h, events, period)
    requires AllHaveSlot(Times(h), events, period)
    requires e.observation == None
    ensures RecordsArrived(h + [e], events, period)
    ensures AllHaveSlot(Times(h + [e]), events, period)
  {
    assert Times(h + [e]) == Times(h) + [e.t];
    forall o | Arrived(events, o)
      ensures exists n :: SlotIs(Times(h + [e]), o.stamp, period, n)
      ensures forall n: nat :: SlotIs(Times(h + [e]), o.stamp, period, n) <==> SlotIs(Times(h), o.stamp, period, n)
    {
      var m :| SlotIs(Times(h), o.stamp, period, m);
      SlotStays(Times(h), e.t, o.stamp, period, m);
    }
  }

  /** Attaching the newest arrival keeps the record exact. */
  lemma AttachRecords<S, P(!new)>(h: seq<Entry<S, P>>, events: seq<Event<S, P>>, period: nat)
    requires |h| >= LOCALIZATION_BUFFER_SIZE && events != []
    requires RecordsArrived(h, events[..|events| - 1], period) && OnePerSlot(events, Times(h), period)
    requires var e := events[|events| - 1];
             e.age < MAX_OBSERVATION_AGE ==>
               FindSlot(h, |h| - LOCALIZATION_BUFFER_SIZE + 1, |h|, e.observation.stamp, period).Some?
    ensures var e := events[|events| - 1];
            var h' := Attach(h, e.observation, e.age, period);
            && RecordsArrived(h', events, period) && Times(h') == Times(h)
            && (e.age < MAX_OBSERVATION_AGE ==> exists n :: SlotIs(Times(h), e.observation.stamp, period, n))
  {
    var e := events[|events| - 1];
    var h' := Attach(h, e.observation, e.age, period);
    assert Times(h') == Times(h);
    forall o ensures Arrived(events, o) <==> Arrived(events[..|events| - 1], o) || (e.age < MAX_OBSERVATION_AGE && e.observation == o) {
      ArrivedStep(events, o);
    }
    if e.age < MAX_OBSERVATION_AGE {
      var slot := FindSlot(h, |h| - LOCALIZATION_BUFFER_SIZE + 1, |h|, e.observation.stamp, period).value;
      assert SlotIs(Times(h), e.observation.stamp, period, slot);
      forall n: nat, o | n < |h'|
        ensures h'[n].observation == Some(o) <==> Arrived(events, o) && SlotIs(Times(h'), o.stamp, period, n)
      {
        assert h[n].observation == Some(o) <==> Arrived(events[..|events| - 1], o) && SlotIs(Times(h), o.stamp, period, n);
        if n == slot && h[n].observation.Some? {
          var first := h[n].observation.value;
          assert Arrived(events[..|events| - 1], first);
          assert first == e.observation;
        }
      }
    }
  }

  lemma InTimePrefix<S, P>(f: Filter<S, P>, events: seq<Event<S, P>>, period: nat)
    requires events != [] && AllInTime(f, events, period)
    ensures AllInTime(f, events[..|events| - 1], period)
  {
    var init := events[..|events| - 1];
    forall k: nat | k < |init| ensures InTime(f, init, period, k) {
      assert InTime(f, events, period, k);
      assert init[..k] == events[..k];
    }
  }

  lemma OnePerSlotPrefix<S, P(!new)>(events: seq<Event<S, P>>, times: seq<nat>, t: nat, period: nat)
    requires events != [] && |times| >= LOCALIZATION_BUFFER_SIZE && Spaced(times + [t], period)
    requires OnePerSlot(events, times + [t], period)
    ensures OnePerSlot(events[..|events| - 1], times, period)
  {
    var init := events[..|events| - 1];
    forall o, o', n | Arrived(init, o) && Arrived(init, o') && SlotIs(times, o.stamp, period, n) && SlotIs(times, o'.stamp, period, n)
      ensures o == o'
    {
      ArrivedStep(events, o);
      ArrivedStep(events, o');
      SlotStays(times, t, o.stamp, period, n);
      SlotStays(times, t, o'.stamp, period, n);
    }
  }

  /** The timely case: at the end of a run the history has attached to every control step exactly
      the observation that arrived for it. */
  lemma {:induction false} HistoryHoldsArrivals<S, P(!new)>(f: Filter<S, P>, events: seq<Event<S, P>>, period: nat)
    requires Spaced(Times(Recorded(f, events, period)), period)
    requires AllInTime(f, events, period)
    requires OnePerSlot(events, Times(Recorded(f, events, period)), period)
    ensures RecordsArrived(Recorded(f, events, period), events, period)
    ensures AllHaveSlot(Times(Recorded(f, events, period)), events, period)
  {
    if events != [] {
      var init, e := events[..|events| - 1], events[|events| - 1];
      var h := Recorded(f, init, period);
      var entry := Entry(e.t, e.sensors, None);
      assert Times(Recorded(f, events, period)) == Times(h + [entry]) == Times(h) + [e.t];
      SpacedPrefix(Times(h), e.t, period);
      InTimePrefix(f, events, period);
      OnePerSlotPrefix(events, Times(h), e.t, period);
      HistoryHoldsArrivals(f, init, period);
      SlotsStay(h, entry, init, period);
      assert InTime(f, events, period, |events| - 1);
      AttachRecords(h + [entry], events, period);
      forall o | Arrived(events, o) ensures exists n :: SlotIs(Times(h + [entry]), o.stamp, period, n) {
        ArrivedStep(events, o);
      }
    }
  }

  lemma SpacedPrefix(times: seq<nat>, t: nat, period: nat)
    requires Spaced(times + [t], period)
    ensures Spaced(times, period)
  {
    forall i, j | 0 <= i < j < |times| && LOCALIZATION_BUFFER_SIZE <= j ensures times[i] + period <= times[j] {
      assert (times + [t])[i] + period <= (times + [t])[j];
    }
  }

  /** Two runs over the same control steps in which the same observations arrive, each in time, end
      with the same history and hence with the same pose, whatever the delays and repetitions. */
  lemma DeliveryOrderIrrelevant<S, P(!new)>(f: Filter<S, P>, events: seq<Event<S, P>>, events': seq<Event<S, P>>, period: nat)
    requires |events| == |events'|
    requires forall k | 0 <= k < |events| :: events[k].t == events'[k].t && events[k].sensors == events'[k].sensors
    requires forall o :: Arrived(events, o) <==> Arrived(events', o)
    requires Spaced(Times(Recorded(f, events, period)), period)
    requires OnePerSlot(events, Times(Recorded(f, events, period)), period)
    requires AllInTime(f, events, period) && AllInTime(f, events', period)
    ensures Recorded(f, events, period) == Recorded(f, events', period)
  {
    var h, h' := Recorded(f, events, period), Recorded(f, events', period);
    forall n | 0 <= n < |h| ensures h[n].t == h'[n].t && h[n].sensors == h'[n].sensors {
      InputsRecorded(f, events, period, n);
      InputsRecorded(f, events', period, n);
    }
    assert Times(h) == Times(h');
    HistoryHoldsArrivals(f, events, period);
    HistoryHoldsArrivals(f, events', period);
    forall n | 0 <= n < |h| ensures h[n] == h'[n] {
      SameRecord(h, h', events, events', period, n);
    }
  }

  lemma SameRecord<S, P(!new)>(h: seq<Entry<S, P>>, h': seq<Entry<S, P>>, events: seq<Event<S, P>>, events': seq<Event<S, P>>, period: nat, n: nat)
    requires RecordsArrived(h, events, period) && RecordsArrived(h', events', period)
    requires forall o :: Arrived(events, o) <==> Arrived(events', o)
    requires Times(h) == Times(h') && n < |h| == |h'|
    ensures h[n].observation == h'[n].observation
  {
    if h[n].observation.Some? {
      var o := h[n].observation.value;
      assert h'[n].observation == Some(o) <==> Arrived(events', o) && SlotIs(Times(h'), o.stamp, period, n);
    } else if h'[n].observation.Some? {
      var o := h'[n].observation.value;
      assert h[n].observation == Some(o) <==> Arrived(events, o) && SlotIs(Times(h), o.stamp, period, n);
    }
  }

  /** The restriction to one observation per control step is needed: of two recent observations
      that belong to the same empty slot the first one wins, so their order is irrelevant exactly
      when they are the same. */
  lemma FirstObservationWins<S, P>(h: seq<Entry<S, P>>, o: Observation<P>, o': Observation<P>, age: nat, age': nat, period: nat, n: nat)
    requires |h| >= LOCALIZATION_BUFFER_SIZE
    requires Target(h, o, age, period) == Some(n) && Target(h, o', age', period) == Some(n)
    ensures Attach(Attach(h, o, age, period), o', age', period)[n].observation == Some(o)
    ensures Attach(Attach(h, o, age, period), o', age', period) == Attach(Attach(h, o', age', period), o, age, period) <==> o == o'
  {
    SlotUnaffected(h, o, age, o', age', period, n);
    SlotUnaffected(h, o', age', o, age, period, n);
  }

  lemma SlotUnaffected<S, P>(h: seq<Entry<S, P>>, o: Observation<P>, age: nat, o': Observation<P>, age': nat, period: nat, n: nat)
    requires |h| >= LOCALIZATION_BUFFER_SIZE
    requires Target(h, o, age, period) == Some(n) && Target(h, o', age', period) == Some(n)
    ensures Attach(Attach(h, o, age, period), o', age', period) == Attach(h, o, age, period)
  {
    var h' := Attach(h, o, age, period);
    var lo := |h| - LOCALIZATION_BUFFER_SIZE + 1;
    assert forall m | 0 <= m < |h| :: Covers(h'[m], o'.stamp, period) == Covers(h[m], o'.stamp, period);
    assert FindSlot(h', lo, |h'|, o'.stamp, period) == Some(n);
  }
}
