/** Dead reckoning with delayed position observations: a ring buffer of the last 512 filter states,
    patched and replayed from the slot a late observation belongs to. */
module Localization {
  import opened Options

  const LOCALIZATION_BUFFER_SIZE: nat := 512
  const MAX_OBSERVATION_AGE: nat := 10_000_000_000

  /** A position observation and its creation time. */
  datatype Observation<P> = Observation(stamp: nat, pose: P)

  /** The inputs recorded for one control step: time, local sensors, attached observation. */
  datatype Entry<S, P> = Entry(t: nat, sensors: S, observation: Option<Observation<P>>)

  /** One slot of the buffer: the recorded inputs and the best estimate of the pose. */
  datatype State<S, P> = State(entry: Entry<S, P>, pose: P)

  /** The filter step from the previous sensors and pose to the current pose, the zero pose, and
      the sensor values of a slot that was never written. */
  datatype Filter<!S, !P> = Filter(step: (S, P, S, Option<Observation<P>>) -> P, zero: P, idle: S)

  /** Standing still at the zero pose without an observation stays there. */
  ghost predicate StaysAtZero<S, P>(f: Filter<S, P>) {
    f.step(f.idle, f.zero, f.idle, None) == f.zero
  }

  function FilterUpdateStep<S, P>(f: Filter<S, P>, previous: State<S, P>, current: Entry<S, P>): P {
    f.step(previous.entry.sensors, previous.pose, current.sensors, current.observation)
  }

  function Default<S, P>(f: Filter<S, P>): Entry<S, P> {
    Entry(0, f.idle, None)
  }

  /** The pose of step `n` of a whole history, filtered step by step from the zero pose that holds
      up to and including step `origin`. */
  ghost function PoseAt<S, P>(f: Filter<S, P>, h: seq<Entry<S, P>>, origin: nat, n: nat): P
    requires n < |h|
  {
    if n <= origin then f.zero
    else FilterUpdateStep(f, State(h[n - 1], PoseAt(f, h, origin, n - 1)), h[n])
  }

  /** What a pose in the history means: behind the origin each is one filter step from the previous
      sensors and pose, the step's own sensors, and the observation attached to it. */
  lemma PoseStep<S, P>(f: Filter<S, P>, h: seq<Entry<S, P>>, origin: nat, n: nat)
    requires n < |h|
    ensures n <= origin ==> PoseAt(f, h, origin, n) == f.zero
    ensures n > origin ==>
      PoseAt(f, h, origin, n) == f.step(h[n - 1].sensors, PoseAt(f, h, origin, n - 1), h[n].sensors, h[n].observation)
  {
  }

  predicate Covers<S, P>(e: Entry<S, P>, stamp: nat, period: nat) {
    e.t <= stamp < e.t + period
  }

  /** The newest step in lo..hi whose period covers the stamp. */
  function FindSlot<S, P>(h: seq<Entry<S, P>>, lo: nat, hi: nat, stamp: nat, period: nat): (slot: Option<nat>)
    requires hi <= |h|
    ensures slot.Some? ==> lo <= slot.value < hi && Covers(h[slot.value], stamp, period)
    ensures slot.Some? ==> forall m | slot.value < m < hi :: !Covers(h[m], stamp, period)
    ensures slot.None? ==> forall m | lo <= m < hi :: !Covers(h[m], stamp, period)
  {
    if hi <= lo then None
    else if Covers(h[hi - 1], stamp, period) then Some(hi - 1)
    else FindSlot(h, lo, hi - 1, stamp, period)
  }

  /** The step of the whole history that a late observation is attached to, if it is still at ring
      index 1 or above and has no observation yet. */
  function Target<S, P>(h: seq<Entry<S, P>>, o: Observation<P>, age: nat, period: nat): Option<nat>
    requires |h| >= LOCALIZATION_BUFFER_SIZE
  {
    if age >= MAX_OBSERVATION_AGE then None
    else
      var slot := FindSlot(h, |h| - LOCALIZATION_BUFFER_SIZE + 1, |h|, o.stamp, period);
      if slot.Some? && h[slot.value].observation.None? then slot else None
  }

  function Attach<S, P>(h: seq<Entry<S, P>>, o: Observation<P>, age: nat, period: nat): (h': seq<Entry<S, P>>)
    requires |h| >= LOCALIZATION_BUFFER_SIZE
    ensures |h'| == |h|
  {
    var slot := Target(h, o, age, period);
    if slot.Some? then h[slot.value := h[slot.value].(observation := Some(o))] else h
  }

  /** The zero pose is never filtered again unless a late observation is attached at or before it. */
  function MovedOrigin(origin: nat, slot: Option<nat>): nat {
    if slot.Some? && 0 < slot.value <= origin then slot.value - 1 else origin
  }

  ghost predicate EntriesMatch<S, P>(buffer: seq<State<S, P>>, h: seq<Entry<S, P>>) {
    && |buffer| == LOCALIZATION_BUFFER_SIZE <= |h|
    && forall i | 0 <= i < LOCALIZATION_BUFFER_SIZE :: buffer[i].entry == h[|h| - LOCALIZATION_BUFFER_SIZE + i]
  }

  ghost predicate PosesMatch<S, P>(f: Filter<S, P>, buffer: seq<State<S, P>>, h: seq<Entry<S, P>>, origin: nat, below: nat)
    requires EntriesMatch(buffer, h)
  {
    forall i | 0 <= i < LOCALIZATION_BUFFER_SIZE && i < below ::
      buffer[i].pose == PoseAt(f, h, origin, |h| - LOCALIZATION_BUFFER_SIZE + i)
  }

  /** The buffer holds the end of the history together with the poses of a full replay. */
  ghost predicate Represents<S, P>(f: Filter<S, P>, buffer: seq<State<S, P>>, h: seq<Entry<S, P>>, origin: nat) {
    && EntriesMatch(buffer, h) && origin < |h|
    && PosesMatch(f, buffer, h, origin, LOCALIZATION_BUFFER_SIZE)
  }

  lemma {:induction false} PoseStable<S, P>(f: Filter<S, P>, h: seq<Entry<S, P>>, h': seq<Entry<S, P>>, origin: nat, n: nat)
    requires n < |h| && n < |h'| && h[..n + 1] == h'[..n + 1]
    ensures PoseAt(f, h, origin, n) == PoseAt(f, h', origin, n)
  {
    if n > origin {
      assert h[n] == h[..n + 1][n] == h'[n] && h[n - 1] == h[..n + 1][n - 1] == h'[n - 1];
      assert h[..n] == h[..n + 1][..n] == h'[..n];
      PoseStable(f, h, h', origin, n - 1);
    }
  }

  /** Patching the state at ring index `k` leaves the poses before it as they were. */
  lemma PatchKeepsEarlier<S, P>(f: Filter<S, P>, buffer: seq<State<S, P>>, h: seq<Entry<S, P>>, origin: nat, k: nat, e: Entry<S, P>)
    requires Represents(f, buffer, h, origin) && 0 < k < LOCALIZATION_BUFFER_SIZE
    ensures var n := |h| - LOCALIZATION_BUFFER_SIZE + k;
            var patched := buffer[k := buffer[k].(entry := e)];
            EntriesMatch(patched, h[n := e]) && PosesMatch(f, patched, h[n := e], MovedOrigin(origin, Some(n)), k)
  {
    var base := |h| - LOCALIZATION_BUFFER_SIZE;
    var h' := h[base + k := e];
    forall n | base <= n < base + k
      ensures PoseAt(f, h', MovedOrigin(origin, Some(base + k)), n) == PoseAt(f, h, origin, n)
    {
      assert h'[..n + 1] == h[..n + 1];
      PoseStable(f, h, h', origin, n);
    }
  }

  lemma AppendRepresents<S, P>(f: Filter<S, P>, buffer: seq<State<S, P>>, h: seq<Entry<S, P>>, origin: nat, e: Entry<S, P>)
    requires Represents(f, buffer, h, origin)
    ensures var pose := FilterUpdateStep(f, buffer[LOCALIZATION_BUFFER_SIZE - 1], e);
            Represents(f, buffer[1..] + [State(e, pose)], h + [e], origin)
  {
    forall n | 0 <= n < |h| ensures PoseAt(f, h + [e], origin, n) == PoseAt(f, h, origin, n) {
      assert (h + [e])[..n + 1] == h[..n + 1];
      PoseStable(f, h, h + [e], origin, n);
    }
  }

  class Localization<S, P> {
    const filter: Filter<S, P>
    const stateBuffer: array<State<S, P>>
    var stateBufferIndex: nat
    /** Everything recorded since construction, preceded by the 512 default states. */
    ghost var history: seq<Entry<S, P>>
    /** The newest step whose pose is the zero pose of construction or of the last reset. */
    ghost var origin: nat

    ghost predicate Ring()
      reads this`stateBufferIndex
    {
      stateBuffer.Length == LOCALIZATION_BUFFER_SIZE && stateBufferIndex < LOCALIZATION_BUFFER_SIZE
    }

    /** The buffer from the oldest to the newest state. */
    ghost function Buffer(): (b: seq<State<S, P>>)
      requires Ring()
      reads this`stateBufferIndex, stateBuffer
      ensures |b| == LOCALIZATION_BUFFER_SIZE
    {
      stateBuffer[stateBufferIndex..] + stateBuffer[..stateBufferIndex]
    }

    ghost predicate Valid()
      reads this, stateBuffer
    {
      Ring() && Represents(filter, Buffer(), history, origin)
    }

    constructor (filter: Filter<S, P>)
      requires StaysAtZero(filter)
      ensures Valid() && this.filter == filter && fresh(stateBuffer)
      ensures history == seq(LOCALIZATION_BUFFER_SIZE, _ => Default(filter)) && origin == 0
    {
      this.filter := filter;
      stateBuffer := new State[LOCALIZATION_BUFFER_SIZE](_ => State(Default(filter), filter.zero));
      stateBufferIndex := 0;
      history := seq(LOCALIZATION_BUFFER_SIZE, _ => Default(filter));
      origin := 0;
      new;
      RestsAtZero(filter, history);
    }

    method GetState(i: nat) returns (state: State<S, P>)
      requires Ring() && i < LOCALIZATION_BUFFER_SIZE
      ensures state == Buffer()[i]
    {
      state := stateBuffer[(i + stateBufferIndex) % LOCALIZATION_BUFFER_SIZE];
    }

    method SetState(i: nat, state: State<S, P>)
      requires Ring() && i < LOCALIZATION_BUFFER_SIZE
      modifies stateBuffer
      ensures Ring() && Buffer() == old(Buffer())[i := state]
    {
      stateBuffer[(i + stateBufferIndex) % LOCALIZATION_BUFFER_SIZE] := state;
    }

    method WriteNextState(state: State<S, P>)
      requires Ring()
      modifies this`stateBufferIndex, stateBuffer
      ensures Ring() && Buffer() == old(Buffer())[1..] + [state]
    {
      stateBuffer[stateBufferIndex] := state;
      stateBufferIndex := (stateBufferIndex + 1) % LOCALIZATION_BUFFER_SIZE;
    }

    /** One control step. The returned pose is the one a replay of the whole history would give. */
    method Update(tNow: nat, period: nat, sensors: S, observation: Observation<P>, observationAge: nat) returns (pose: P)
      requires Valid()
      modifies this`stateBufferIndex, this`history, this`origin, stateBuffer
      ensures Valid()
      ensures var h := old(history) + [Entry(tNow, sensors, None)];
              && history == Attach(h, observation, observationAge, period)
              && origin == MovedOrigin(old(origin), Target(h, observation, observationAge, period))
      ensures pose == PoseAt(filter, history, origin, |history| - 1)
      ensures pose == Buffer()[LOCALIZATION_BUFFER_SIZE - 1].pose
      ensures var previous := old(Buffer())[LOCALIZATION_BUFFER_SIZE - 1];
              && (observationAge < MAX_OBSERVATION_AGE && tNow <= observation.stamp < tNow + period ==>
                    pose == filter.step(previous.entry.sensors, previous.pose, sensors, Some(observation)))
              && (observationAge >= MAX_OBSERVATION_AGE ==>
                    pose == filter.step(previous.entry.sensors, previous.pose, sensors, None))
    {
      ghost var h := history + [Entry(tNow, sensors, None)];
      UpdateStep(filter, history, origin, h[|history|], observation, observationAge, period);
      Record(Entry(tNow, sensors, None));
      Observe(period, observation, observationAge);
      var last := GetState(LOCALIZATION_BUFFER_SIZE - 1);
      pose := last.pose;
    }

    /** Checks for a new observation and reprocesses if necessary. */
    method Observe(period: nat, observation: Observation<P>, observationAge: nat)
      requires Valid()
      modifies this`history, this`origin, stateBuffer
      ensures Valid()
      ensures history == Attach(old(history), observation, observationAge, period)
      ensures origin == MovedOrigin(old(origin), Target(old(history), observation, observationAge, period))
    {
      if observationAge < MAX_OBSERVATION_AGE {
        var start := FindInBuffer(observation.stamp, period);
        if start > 0 {
          var state := GetState(start);
          if !state.entry.observation.Some? {
            AttachObservation(start, observation);
          }
        }
      }
    }

    /** Saves the new sensor data and filters the current step. */
    method Record(entry: Entry<S, P>)
      requires Valid()
      modifies this`stateBufferIndex, this`history, stateBuffer
      ensures Valid() && history == old(history) + [entry]
    {
      ghost var before := Buffer();
      WriteNextState(State(entry, filter.zero));
      var previous := GetState(LOCALIZATION_BUFFER_SIZE - 2);
      assert previous == before[LOCALIZATION_BUFFER_SIZE - 1];
      var pose := FilterUpdateStep(filter, previous, entry);
      SetState(LOCALIZATION_BUFFER_SIZE - 1, State(entry, pose));
      assert Buffer() == before[1..] + [State(entry, pose)];
      AppendRepresents(filter, before, history, origin, entry);
      history := history + [entry];
    }

    /** Searches backwards for the state the stamp belongs to; 0 if there is none. */
    method FindInBuffer(stamp: nat, period: nat) returns (start: nat)
      requires Valid()
      ensures start < LOCALIZATION_BUFFER_SIZE
      ensures var base := |history| - LOCALIZATION_BUFFER_SIZE;
              FindSlot(history, base + 1, |history|, stamp, period) == if start > 0 then Some(base + start) else None
    {
      ghost var base := |history| - LOCALIZATION_BUFFER_SIZE;
      start := LOCALIZATION_BUFFER_SIZE - 1;
      while start > 0
        invariant start < LOCALIZATION_BUFFER_SIZE
        invariant FindSlot(history, base + 1, |history|, stamp, period) == FindSlot(history, base + 1, base + start + 1, stamp, period)
      {
        var state := GetState(start);
        if state.entry.t <= stamp && stamp < state.entry.t + period {
          return;
        }
        start := start - 1;
      }
    }

    /** Attaches an observation to the state at ring index `start` and reprocesses from there. */
    method AttachObservation(start: nat, observation: Observation<P>)
      requires Valid() && 0 < start < LOCALIZATION_BUFFER_SIZE
      modifies this`history, this`origin, stateBuffer
      ensures Valid()
      ensures var n := |old(history)| - LOCALIZATION_BUFFER_SIZE + start;
              && history == old(history)[n := old(history)[n].(observation := Some(observation))]
              && origin == MovedOrigin(old(origin), Some(n))
    {
      ghost var n := |history| - LOCALIZATION_BUFFER_SIZE + start;
      ghost var patched := history[n].(observation := Some(observation));
      PatchKeepsEarlier(filter, Buffer(), history, origin, start, patched);
      var state := GetState(start);
      SetState(start, state.(entry := state.entry.(observation := Some(observation))));
      history, origin := history[n := patched], MovedOrigin(origin, Some(n));
      Reprocess(start);
    }

    /** Recomputes the poses from the patched state on. */
    method Reprocess(start: nat)
      requires Ring() && 0 < start < LOCALIZATION_BUFFER_SIZE
      requires EntriesMatch(Buffer(), history) && PosesMatch(filter, Buffer(), history, origin, start)
      requires origin < |history| - LOCALIZATION_BUFFER_SIZE + start
      modifies stateBuffer
      ensures Valid()
    {
      for i := start to LOCALIZATION_BUFFER_SIZE
        invariant Ring() && EntriesMatch(Buffer(), history) && PosesMatch(filter, Buffer(), history, origin, i)
      {
        var previous := GetState(i - 1);
        var current := GetState(i);
        SetState(i, current.(pose := FilterUpdateStep(filter, previous, current.entry)));
      }
    }

    /** Puts every stored pose back to zero; the recorded inputs stay. */
    method Reset()
      requires Valid()
      modifies this`origin, stateBuffer
      ensures Valid() && origin == |history| - 1
    {
      ghost var before := stateBuffer[..];
      for i := 0 to LOCALIZATION_BUFFER_SIZE
        invariant Ring()
        invariant forall j | 0 <= j < LOCALIZATION_BUFFER_SIZE ::
                    stateBuffer[j] == if j < i then before[j].(pose := filter.zero) else before[j]
      {
        stateBuffer[i] := stateBuffer[i].(pose := filter.zero);
      }
      origin := |history| - 1;
      assert forall i | 0 <= i < LOCALIZATION_BUFFER_SIZE ::
          Buffer()[i] == old(Buffer())[i].(pose := filter.zero);
    }
  }

  /** The newest pose when nothing is attached, and when the observation belongs to the newest step. */
  lemma UpdateStep<S, P>(f: Filter<S, P>, h: seq<Entry<S, P>>, origin: nat, e: Entry<S, P>, o: Observation<P>, age: nat, period: nat)
    requires LOCALIZATION_BUFFER_SIZE <= |h| && origin < |h| && e.observation == None
    ensures var n, last := |h|, h[|h| - 1];
            var h' := Attach(h + [e], o, age, period);
            var origin' := MovedOrigin(origin, Target(h + [e], o, age, period));
            && (age < MAX_OBSERVATION_AGE && Covers(e, o.stamp, period) ==>
                  PoseAt(f, h', origin', n) == f.step(last.sensors, PoseAt(f, h, origin, n - 1), e.sensors, Some(o)))
            && (age >= MAX_OBSERVATION_AGE ==>
                  PoseAt(f, h', origin', n) == f.step(last.sensors, PoseAt(f, h, origin, n - 1), e.sensors, None))
  {
    var n := |h|;
    var h' := Attach(h + [e], o, age, period);
    if age >= MAX_OBSERVATION_AGE || Covers(e, o.stamp, period) {
      assert Target(h + [e], o, age, period) == if age >= MAX_OBSERVATION_AGE then None else Some(n);
      assert h'[..n] == h;
      PoseStep(f, h', origin, n);
      PoseStable(f, h, h', origin, n - 1);
    }
  }

  lemma {:induction false} RestsAtZeroUpTo<S, P>(f: Filter<S, P>, h: seq<Entry<S, P>>, n: nat)
    requires StaysAtZero(f) && n < |h| && forall e | e in h :: e == Default(f)
    ensures PoseAt(f, h, 0, n) == f.zero
  {
    if n > 0 {
      RestsAtZeroUpTo(f, h, n - 1);
      assert h[n] in h && h[n - 1] in h;
    }
  }

  lemma RestsAtZero<S, P>(f: Filter<S, P>, h: seq<Entry<S, P>>)
    requires StaysAtZero(f) && forall e | e in h :: e == Default(f)
    ensures forall n | 0 <= n < |h| :: PoseAt(f, h, 0, n) == f.zero
  {
    forall n | 0 <= n < |h| ensures PoseAt(f, h, 0, n) == f.zero {
      RestsAtZeroUpTo(f, h, n);
    }
  }
}
