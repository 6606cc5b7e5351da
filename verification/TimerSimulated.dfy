/** A participant in logical time: it runs its callback exactly when its deadline is triggered and
    then announces the next one. */
module TimerSimulated {
  import opened TimerTrigger

  datatype Answer = STOP | DEADLINE | ANY | NONE

  /** One sample of the system trigger reader; invalid samples carry no data. */
  datatype TriggerSample = TriggerSample(valid: bool, nextStart: nat)

  /** A participant's settings and state: `callbacks` lists the times its callback was given and
      `sent` the timesteps it has announced. `waiting` holds in the initial loop of `start`. */
  datatype Participant = Participant(period: nat, offset: nat, hasStopCallback: bool,
                                     active: bool, waiting: bool, deadline: nat, currentTime: nat,
                                     callbacks: seq<nat>, sent: seq<nat>)

  function Begin(period: nat, offset: nat, hasStopCallback: bool): Participant {
    Participant(period, offset, hasStopCallback, true, true, offset, offset, [], [])
  }

  function Announce(p: Participant): Participant {
    p.(sent := p.sent + [p.deadline])
  }

  /** The deadline was triggered: run the callback, move on by one period, announce it. */
  function Fire(p: Participant): Participant {
    Announce(p.(currentTime := p.deadline, callbacks := p.callbacks + [p.deadline], deadline := p.deadline + p.period))
  }

  /** A stop signal runs the user's stop callback if there is one, else it ends the timer. */
  function ReceiveStop(p: Participant): Participant {
    if p.hasStopCallback then p else p.(active := false)
  }

  function Join(first: Answer, later: Answer): Answer {
    if later == STOP then STOP
    else if first == DEADLINE || later == DEADLINE then DEADLINE
    else if first == ANY || later == ANY then ANY
    else NONE
  }

  /** One call of `handle_system_trigger`: samples behind a stop signal are dropped. */
  function Handle(p: Participant, samples: seq<TriggerSample>): (Participant, Answer)
    decreases |samples|
  {
    if samples == [] then (p, NONE)
    else if !samples[0].valid then Handle(p, samples[1..])
    else if samples[0].nextStart == p.deadline then
      var r := Handle(Fire(p), samples[1..]);
      (r.0, Join(DEADLINE, r.1))
    else if samples[0].nextStart == TRIGGER_STOP_SYMBOL then (ReceiveStop(p), STOP)
    else
      var r := Handle(p, samples[1..]);
      (r.0, Join(ANY, r.1))
  }

  /** A call while the participant runs; the first answer ends the initial loop. */
  function Receive(p: Participant, samples: seq<TriggerSample>): Participant {
    var r := Handle(p, samples);
    r.0.(waiting := p.waiting && r.1 == NONE)
  }

  /** The whole run of `start` on the batches that the reader delivers, one after the other. */
  function RunOn(p: Participant, batches: seq<seq<TriggerSample>>): Participant
    decreases |batches|
  {
    if batches == [] || !p.active then p
    else RunOn(Receive(if p.waiting then Announce(p) else p, batches[0]), batches[1..])
  }

  class Timer {
    const period: nat
    const offset: nat
    const hasStopCallback: bool
    var currentTime: nat
    var active: bool
    var callbacks: seq<nat>
    var sent: seq<nat>

    function State(deadline: nat, waiting: bool): Participant
      reads this
    {
      Participant(period, offset, hasStopCallback, active, waiting, deadline, currentTime, callbacks, sent)
    }

    constructor (period: nat, offset: nat, hasStopCallback: bool)
      ensures this.period == period && this.offset == offset && this.hasStopCallback == hasStopCallback
      ensures !active && currentTime == 0 && callbacks == [] && sent == []
    {
      this.period, this.offset, this.hasStopCallback := period, offset, hasStopCallback;
      currentTime, active, callbacks, sent := 0, false, [], [];
    }

    method HandleSystemTrigger(deadline: nat, samples: seq<TriggerSample>, ghost waiting: bool)
      returns (answer: Answer, deadline': nat)
      modifies this
      ensures (State(deadline', waiting), answer) == Handle(old(State(deadline, waiting)), samples)
      ensures active == (old(active) && (hasStopCallback || answer != STOP))
      ensures answer == NONE <==> forall k | 0 <= k < |samples| :: !samples[k].valid
    {
      AnswerTells(State(deadline, waiting), samples);
      deadline' := deadline;
      var gotValid, gotNewDeadline := false, false;
      ghost var result := Handle(State(deadline, waiting), samples);
      for k := 0 to |samples|
        invariant var r := Handle(State(deadline', waiting), samples[k..]);
                  result == (r.0, if gotNewDeadline then Join(DEADLINE, r.1) else if gotValid then Join(ANY, r.1) else r.1)
        invariant gotNewDeadline ==> gotValid
      {
        var sample := samples[k];
        if sample.valid {
          gotValid := true;
          if sample.nextStart == deadline' {
            currentTime := deadline';
            callbacks := callbacks + [deadline'];
            deadline' := deadline' + period;
            gotNewDeadline := true;
            sent := sent + [deadline'];
          } else if sample.nextStart == TRIGGER_STOP_SYMBOL {
            if !hasStopCallback {
              active := false;
            }
            return STOP, deadline';
          }
        }
      }
      answer := if gotNewDeadline then DEADLINE else if gotValid then ANY else NONE;
    }

    /** `start` until the timer ends or the environment delivers no further batch. A timer that is
        already active refuses to start. */
    method Start(batches: seq<seq<TriggerSample>>) returns (started: bool, deadline: nat, waiting: bool)
      modifies this
      ensures started <==> !old(active)
      ensures started ==> State(deadline, waiting)
                          == RunOn(Begin(period, offset, hasStopCallback).(callbacks := old(callbacks), sent := old(sent)), batches)
      ensures !started ==> unchanged(this)
    {
      deadline, waiting := offset, true;
      if active {
        return false, deadline, waiting;
      }
      active := true;
      currentTime := deadline;
      var k := 0;
      var systemTrigger := NONE;
      ghost var result := RunOn(State(deadline, waiting), batches);
      while systemTrigger == NONE && active && k < |batches|
        invariant k <= |batches|
        invariant waiting <==> systemTrigger == NONE
        invariant result == RunOn(State(deadline, waiting), batches[k..])
      {
        ghost var before := State(deadline, waiting);
        sent := sent + [deadline];
        assert State(deadline, true) == Announce(before);
        systemTrigger, deadline := HandleSystemTrigger(deadline, batches[k], true);
        waiting := systemTrigger == NONE;
        assert batches[k..][1..] == batches[k + 1..];
        assert State(deadline, waiting) == Receive(Announce(before), batches[k]);
        k := k + 1;
      }
      while active && k < |batches|
        invariant k <= |batches|
        invariant active && k < |batches| ==> !waiting
        invariant result == RunOn(State(deadline, waiting), batches[k..])
      {
        ghost var before := State(deadline, waiting);
        systemTrigger, deadline := HandleSystemTrigger(deadline, batches[k], false);
        assert batches[k..][1..] == batches[k + 1..];
        assert State(deadline, waiting) == Receive(before, batches[k]);
        k := k + 1;
      }
      started := true;
    }
  }

  /** The time of the `k`-th callback that a participant is due. */
  function DueTime(p: Participant, k: nat): nat {
    p.offset + k * p.period
  }

  /** Callbacks happened at exactly offset, offset + period, ... and the deadline is the next. */
  ghost predicate OnGrid(p: Participant) {
    && (forall k: nat | k < |p.callbacks| :: p.callbacks[k] == DueTime(p, k))
    && p.deadline == DueTime(p, |p.callbacks|)
  }

  /** Nothing beyond the current deadline was announced. */
  ghost predicate AnnouncesAtMostDeadline(p: Participant) {
    forall t | t in p.sent :: t <= p.deadline
  }

  ghost predicate SamplesFrom(samples: seq<TriggerSample>, log: seq<nat>) {
    forall s | s in samples :: s.valid ==> s.nextStart in log
  }

  /** What one call keeps and how far it moves, whatever samples are delivered. */
  ghost predicate Follows(p: Participant, p': Participant, log: seq<nat>) {
    && p'.period == p.period && p'.offset == p.offset && p'.hasStopCallback == p.hasStopCallback
    && p.deadline <= p'.deadline
    && p.callbacks <= p'.callbacks && p.sent <= p'.sent
    && (forall k | |p.callbacks| <= k < |p'.callbacks| :: p'.callbacks[k] in log)
    && (p'.callbacks == p.callbacks ==> p'.deadline == p.deadline && p'.sent == p.sent && p'.currentTime == p.currentTime)
    && (p'.callbacks != p.callbacks ==> p'.deadline in p'.sent && p'.currentTime == p'.callbacks[|p'.callbacks| - 1])
  }

  lemma FireOnGrid(p: Participant)
    requires OnGrid(p)
    ensures OnGrid(Fire(p))
  {
    var n := |p.callbacks|;
    assert DueTime(p, n) + p.period == DueTime(p, n + 1) by {
      assert (n + 1) * p.period == n * p.period + p.period;
    }
  }

  lemma {:induction false} HandleKeeps(p: Participant, samples: seq<TriggerSample>, log: seq<nat>)
    requires OnGrid(p) && AnnouncesAtMostDeadline(p) && SamplesFrom(samples, log)
    ensures var p' := Handle(p, samples).0;
            OnGrid(p') && AnnouncesAtMostDeadline(p') && Follows(p, p', log)
    decreases |samples|
  {
    if samples != [] {
      var rest := samples[1..];
      assert forall s | s in rest :: s in samples;
      if samples[0].valid && samples[0].nextStart == p.deadline {
        FireOnGrid(p);
        HandleKeeps(Fire(p), rest, log);
        assert samples[0] in samples;
      } else {
        HandleKeeps(p, rest, log);
      }
    }
  }

  // What the samples of one call bring about, and what a stop signal does.

  ghost predicate IsStop(s: TriggerSample) {
    s.valid && s.nextStart == TRIGGER_STOP_SYMBOL
  }

  /** The answer tells whether the timer goes on: a stop ends it unless the user has a callback for
      it. Nothing is answered exactly if no sample is valid. */
  lemma {:induction false} AnswerTells(p: Participant, samples: seq<TriggerSample>)
    ensures var (p', answer) := Handle(p, samples);
            && p'.active == (p.active && (p.hasStopCallback || answer != STOP))
            && (answer == NONE <==> forall k | 0 <= k < |samples| :: !samples[k].valid)
            && (answer == DEADLINE ==> p'.callbacks != p.callbacks)
            && (answer == ANY || answer == NONE ==> p' == p)
            && p.callbacks <= p'.callbacks
    decreases |samples|
  {
    if samples != [] {
      var rest := samples[1..];
      assert forall k | 0 < k < |samples| :: samples[k] == rest[k - 1];
      assert forall k | 0 <= k < |rest| :: rest[k] == samples[k + 1];
      AnswerTells(if samples[0].valid && samples[0].nextStart == p.deadline then Fire(p) else p, rest);
    }
  }

  /** Without a stop signal the timer goes on. */
  lemma {:induction false} NoStopGoesOn(p: Participant, samples: seq<TriggerSample>)
    requires forall s | s in samples :: !IsStop(s)
    ensures var (p', answer) := Handle(p, samples); p'.active == p.active && answer != STOP
    decreases |samples|
  {
    if samples != [] {
      assert forall s | s in samples[1..] :: s in samples;
      assert samples[0] in samples;
      NoStopGoesOn(if samples[0].valid && samples[0].nextStart == p.deadline then Fire(p) else p, samples[1..]);
    }
  }

  /** The first stop signal ends the call: the samples before it count, those behind it are dropped,
      and the timer is over exactly if it has no stop callback. */
  lemma {:induction false} StopEndsCall(p: Participant, samples: seq<TriggerSample>, k: nat)
    requires k < |samples| && IsStop(samples[k])
    requires forall j | 0 <= j < k :: !IsStop(samples[j])
    requires Handle(p, samples[..k]).0.deadline != TRIGGER_STOP_SYMBOL
    ensures var before := Handle(p, samples[..k]).0;
            Handle(p, samples) == (before.(active := p.active && p.hasStopCallback), STOP)
    decreases k
  {
    if k > 0 {
      assert samples[..k][0] == samples[0] && samples[..k][1..] == samples[1..][..k - 1];
      StopEndsCall(if samples[0].valid && samples[0].nextStart == p.deadline then Fire(p) else p, samples[1..], k - 1);
    } else {
      assert samples[..0] == [];
    }
  }

  /** A stop signal that finds nothing to do before it: only whether the timer is active changes. */
  lemma StopChangesNothingElse(p: Participant, samples: seq<TriggerSample>, k: nat)
    requires k < |samples| && IsStop(samples[k]) && p.deadline != TRIGGER_STOP_SYMBOL
    requires forall j | 0 <= j < k && samples[j].valid :: samples[j].nextStart != p.deadline && !IsStop(samples[j])
    ensures Handle(p, samples) == (p.(active := p.active && p.hasStopCallback), STOP)
  {
    NothingDue(p, samples[..k]);
    StopEndsCall(p, samples, k);
  }

  lemma {:induction false} NothingDue(p: Participant, samples: seq<TriggerSample>)
    requires forall j | 0 <= j < |samples| && samples[j].valid :: samples[j].nextStart != p.deadline && !IsStop(samples[j])
    ensures Handle(p, samples).0 == p
    decreases |samples|
  {
    if samples != [] {
      NothingDue(p, samples[1..]);
    }
  }

  /** After a stop that ended it, a timer takes no notice of any further batch. */
  lemma StopEndsRun(p: Participant, batch: seq<TriggerSample>, k: nat, later: seq<seq<TriggerSample>>)
    requires p.active && !p.hasStopCallback && p.deadline != TRIGGER_STOP_SYMBOL
    requires k < |batch| && IsStop(batch[k])
    requires forall j | 0 <= j < k && batch[j].valid :: batch[j].nextStart != p.deadline && !IsStop(batch[j])
    ensures var end := RunOn(p, [batch] + later);
            !end.active && end.callbacks == p.callbacks && end.deadline == p.deadline
  {
    var q := if p.waiting then Announce(p) else p;
    StopChangesNothingElse(q, batch, k);
    assert ([batch] + later)[0] == batch && ([batch] + later)[1..] == later;
  }

  /** A delivered trigger for the current deadline is always answered by a callback. */
  lemma {:induction false} HandleFires(p: Participant, samples: seq<TriggerSample>)
    requires p.period > 0
    requires TriggerSample(true, p.deadline) in samples
    requires p.deadline != TRIGGER_STOP_SYMBOL
    requires forall s | s in samples && s.valid :: s.nextStart != TRIGGER_STOP_SYMBOL
    ensures Handle(p, samples).0.deadline > p.deadline
  {
    if samples[0].valid && samples[0].nextStart == p.deadline {
      DeadlineGrows(Fire(p), samples[1..]);
    } else {
      assert TriggerSample(true, p.deadline) in samples[1..];
      assert forall s | s in samples[1..] :: s in samples;
      assert samples[0] in samples;
      HandleFires(p, samples[1..]);
    }
  }

  lemma {:induction false} DeadlineGrows(p: Participant, samples: seq<TriggerSample>)
    ensures p.deadline <= Handle(p, samples).0.deadline
    decreases |samples|
  {
    if samples != [] {
      if samples[0].valid && samples[0].nextStart == p.deadline {
        DeadlineGrows(Fire(p), samples[1..]);
      } else {
        DeadlineGrows(p, samples[1..]);
      }
    }
  }

  ghost predicate HasRunAllBelow(p: Participant, t: nat) {
    forall k: nat | DueTime(p, k) < t :: k < |p.callbacks|
  }

  lemma RunAllBelowDeadline(p: Participant, t: nat)
    requires OnGrid(p) && t <= p.deadline
    ensures HasRunAllBelow(p, t)
  {
    forall k: nat | DueTime(p, k) < t ensures k < |p.callbacks| {
      assert |p.callbacks| <= k ==> |p.callbacks| * p.period <= k * p.period;
    }
  }
}
