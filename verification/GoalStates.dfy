/** Goal states on their way through the middleware: the callback that receives them and the check
    for the high-level controllers (HLCs) run in different threads. Every step below is atomic. */
module GoalStates {
  /** A goal state; what it says does not matter here. */
  datatype Sample = Sample(vehicleId: nat, content: seq<int>)

  /** What a ready message's source id says behind its first four characters, if that is a number. */
  datatype Ready = Ready(number: int) | NoNumber

  /** The number is kept in 8 bits. */
  function Id(number: int): (id: nat)
    ensures id < 256 && (0 <= number < 256 ==> id == number)
  {
    number % 256
  }

  datatype Checker =
    | Returned(result: bool)
    | Compared(offline: set<nat>)   // the ids that had not reported when the check began
    | FlagRaised                    // all_hlc_online is set, the mutex not yet taken

  datatype System = System(
    expected: set<nat>,             // vehicle ids of the HLCs to wait for
    reports: seq<Ready>,            // ready messages not yet taken
    online: set<nat>,
    allOnline: bool,
    checker: Checker,
    locked: bool,                   // the receiver holds the mutex
    batch: seq<Sample>,             // received samples the callback has still to handle
    buffer: seq<Sample>,
    written: seq<Sample>,           // on the way to the HLCs, in this order
    // history
    reported: set<nat>,
    early: seq<Sample>,             // handled before the flag was set,
    between: seq<Sample>,           // between the flag and the flush,
    late: seq<Sample>               // and after the flush
  )

  datatype Step =
    | Report(ready: Ready)
    | Arrive(samples: seq<Sample>) | Lock | PassOn | Unlock
    | Call | TakeReports | RaiseFlag | Flush

  function Numbers(reports: seq<Ready>): set<nat> {
    if reports == [] then {}
    else Numbers(reports[..|reports| - 1]) +
         if reports[|reports| - 1].Ready? then {Id(reports[|reports| - 1].number)} else {}
  }

  ghost predicate Enabled(s: System, step: Step) {
    match step
    case Report(_) => true
    case Arrive(samples) => !s.locked && s.batch == []
    case Lock => !s.locked && s.batch != []
    case PassOn => s.locked && s.batch != []
    case Unlock => s.locked && s.batch == []
    case Call => s.checker.Returned?
    case TakeReports => s.checker.Compared? && s.checker.offline != {}
    case RaiseFlag => s.checker == Compared({})
    case Flush => s.checker.FlagRaised? && !s.locked
  }

  ghost predicate Flushed(s: System) {
    s.allOnline && !s.checker.FlagRaised?
  }

  ghost function After(s: System, step: Step): System
    requires Enabled(s, step)
  {
    match step
    case Report(r) =>
      s.(reports := s.reports + [r], reported := s.reported + if r.Ready? then {Id(r.number)} else {})
    case Arrive(samples) => s.(batch := samples)
    case Lock => s.(locked := true)
    case Unlock => s.(locked := false)
    case PassOn =>
      var sample, rest := s.batch[0], s.batch[1..];
      if !s.allOnline then s.(batch := rest, buffer := s.buffer + [sample], early := s.early + [sample])
      else if Flushed(s) then s.(batch := rest, written := s.written + [sample], late := s.late + [sample])
      else s.(batch := rest, written := s.written + [sample], between := s.between + [sample])
    case Call => s.(checker := if s.allOnline then Returned(true) else Compared(s.expected - s.online))
    case TakeReports => s.(online := s.online + Numbers(s.reports), reports := [], checker := Returned(false))
    case RaiseFlag => s.(allOnline := true, checker := FlagRaised)
    case Flush => s.(written := s.written + s.buffer, buffer := [], checker := Returned(false))
  }

  ghost predicate Init(s: System) {
    && s.reports == [] && s.online == {} && !s.allOnline && s.checker == Returned(false)
    && !s.locked && s.batch == [] && s.buffer == [] && s.written == []
    && s.reported == {} && s.early == [] && s.between == [] && s.late == []
  }

  /** Until the flush the buffer is what came early; from then on it is empty and everything has
      been written: what came between flag and flush first, then the buffer, then the rest. */
  ghost predicate Inv(s: System) {
    && s.reported == s.online + Numbers(s.reports)
    && (s.checker.FlagRaised? ==> s.allOnline)
    && (s.checker.Compared? ==> !s.allOnline && s.checker.offline == s.expected - s.online)
    && (s.allOnline ==> s.expected <= s.online)
    && (!s.allOnline ==> s.between == [] && s.late == [] && s.written == [] && s.buffer == s.early)
    && (s.allOnline && !Flushed(s) ==> s.late == [] && s.written == s.between && s.buffer == s.early)
    && (Flushed(s) ==> s.buffer == [] && s.written == s.between + s.early + s.late)
  }

  lemma InvStep(s: System, step: Step)
    requires Inv(s) && Enabled(s, step)
    ensures Inv(After(s, step))
  {
    if step.Report? {
      assert (s.reports + [step.ready])[..|s.reports|] == s.reports;
    }
    if step.RaiseFlag? {
      assert s.expected <= (s.expected - s.online) + s.online;
    }
    if step.PassOn? && Flushed(s) {
      assert s.between + s.early + (s.late + [s.batch[0]]) == s.between + s.early + s.late + [s.batch[0]];
    }
  }

  // Whole runs.

  ghost predicate Steps(s: System, steps: seq<Step>, t: System)
    decreases |steps|
  {
    || (steps == [] && s == t)
    || (steps != [] && Enabled(s, steps[0]) && Steps(After(s, steps[0]), steps[1..], t))
  }

  /** The samples handled so far. */
  function Handled(s: System): seq<Sample> {
    s.early + s.between + s.late
  }

  /** The samples that the steps deliver to the callback. */
  function Delivered(steps: seq<Step>): seq<Sample> {
    if steps == [] then []
    else (if steps[0].Arrive? then steps[0].samples else []) + Delivered(steps[1..])
  }

  lemma StartHolds(s: System)
    requires Init(s)
    ensures Inv(s) && Handled(s) + s.batch == []
  {
  }

  lemma {:induction false} RunKeeps(s: System, steps: seq<Step>, t: System)
    requires Inv(s) && Steps(s, steps, t)
    ensures Inv(t) && t.expected == s.expected
    ensures Handled(t) + t.batch == Handled(s) + s.batch + Delivered(steps)
    ensures s.allOnline ==> t.allOnline
    ensures Flushed(s) ==> Flushed(t)
    decreases |steps|
  {
    hide Inv, Handled, Flushed, After, Enabled;
    if steps != [] {
      var s1 := After(s, steps[0]);
      InvStep(s, steps[0]);
      HandledStep(s, steps[0]);
      RunKeeps(s1, steps[1..], t);
      var arrived := if steps[0].Arrive? then steps[0].samples else [];
      assert Delivered(steps) == arrived + Delivered(steps[1..]);
      Regroup(Handled(s) + s.batch, arrived, Delivered(steps[1..]));
    }
  }

  lemma Regroup(a: seq<Sample>, b: seq<Sample>, c: seq<Sample>)
    ensures (a + b) + c == a + (b + c)
  {
  }

  lemma HandledStep(s: System, step: Step)
    requires Inv(s) && Enabled(s, step)
    ensures After(s, step).expected == s.expected
    ensures s.allOnline ==> After(s, step).allOnline
    ensures Flushed(s) ==> Flushed(After(s, step))
    ensures var arrived := if step.Arrive? then step.samples else [];
            Handled(After(s, step)) + After(s, step).batch == Handled(s) + s.batch + arrived
  {
    if step.PassOn? {
      assert s.batch == [s.batch[0]] + s.batch[1..];
    }
  }

  /** Every sample is handled in the order received, and is in exactly one of three places: still to
      be handled, buffered, or written, where it stays. */
  lemma ExactlyOnce(s: System, steps: seq<Step>, t: System)
    requires Init(s) && Steps(s, steps, t)
    ensures Handled(t) + t.batch == Delivered(steps)
    ensures multiset(Delivered(steps)) == multiset(t.buffer) + multiset(t.written) + multiset(t.batch)
    ensures Flushed(t) ==> t.buffer == [] && t.written == t.between + t.early + t.late
    ensures t.allOnline ==> t.expected <= t.reported
  {
    StartHolds(s);
    hide Steps, Delivered, Init;
    RunKeeps(s, steps, t);
    assert Handled(t) + t.batch == Delivered(steps);
    InThreePlaces(t);
  }

  lemma InThreePlaces(t: System)
    requires Inv(t)
    ensures multiset(Handled(t) + t.batch) == multiset(t.buffer) + multiset(t.written) + multiset(t.batch)
  {
    assert multiset(Handled(t)) == multiset(t.early) + multiset(t.between) + multiset(t.late);
    if Flushed(t) {
      assert multiset(t.between + t.early + t.late) == multiset(t.between) + multiset(t.early) + multiset(t.late);
    }
  }

  /** Once written, a sample stays written, and a flushed buffer stays empty. */
  lemma {:induction false} WrittenStays(s: System, steps: seq<Step>, t: System)
    requires Inv(s) && Steps(s, steps, t)
    ensures s.written <= t.written
    ensures Flushed(s) ==> t.buffer == []
    decreases |steps|
  {
    if steps != [] {
      InvStep(s, steps[0]);
      WrittenStays(After(s, steps[0]), steps[1..], t);
    }
  }

  /** Once every assigned id has reported, three more calls of the check end the waiting. */
  lemma FlagComes(s: System)
    requires Inv(s) && s.checker.Returned? && !s.allOnline && s.expected <= s.reported
    ensures var s1 := After(s, Call);
            || Enabled(s1, RaiseFlag)
            || (&& Enabled(s1, TakeReports)
                && var s2 := After(s1, TakeReports);
                   Enabled(s2, Call) && Enabled(After(s2, Call), RaiseFlag))
  {
    if s.expected - s.online == {} {
    } else {
      var s2 := After(After(s, Call), TakeReports);
      assert s2.expected - s2.online == {};
    }
  }

  /** The check tells that all have reported exactly from the flush on, and stays with it. */
  lemma OnlineOnceFlushed(s: System, steps: seq<Step>, t: System)
    requires Init(s) && Steps(s, steps, t)
    ensures t.checker == Returned(true) ==> Flushed(t) && t.expected <= t.reported
    ensures Flushed(t) && Enabled(t, Call) ==> After(t, Call).checker == Returned(true)
    ensures !t.allOnline && Enabled(t, Call) ==> After(t, Call).checker.Compared?
  {
    OnlineIsFlushed(s, steps, t);
    ExactlyOnce(s, steps, t);
  }

  lemma {:induction false} OnlineIsFlushed(s: System, steps: seq<Step>, t: System)
    requires Steps(s, steps, t) && (s.checker == Returned(true) ==> Flushed(s))
    ensures t.checker == Returned(true) ==> Flushed(t)
    decreases |steps|
  {
    if steps != [] {
      OnlineIsFlushed(After(s, steps[0]), steps[1..], t);
    }
  }

  // The shared object.

  /** The middleware's fields; each method is one atomic step of one of the two threads. */
  class Communication {
    const expected: set<nat>
    var reports: seq<Ready>
    var online: set<nat>
    var allOnline: bool
    var checker: Checker
    var locked: bool
    var batch: seq<Sample>
    var buffer: seq<Sample>
    var written: seq<Sample>
    ghost var reported: set<nat>
    ghost var early: seq<Sample>
    ghost var between: seq<Sample>
    ghost var late: seq<Sample>

    ghost function View(): System
      reads this
    {
      System(expected, reports, online, allOnline, checker, locked, batch, buffer, written, reported, early, between, late)
    }

    constructor (ids: set<nat>)
      ensures Init(View()) && expected == ids
    {
      expected := ids;
      reports, online, allOnline, checker := [], {}, false, Returned(false);
      locked, batch, buffer, written := false, [], [], [];
      reported, early, between, late := {}, [], [], [];
    }

    /** The callback's work on one sample, under the mutex. */
    method PassOne()
      requires Enabled(View(), PassOn)
      modifies this
      ensures View() == After(old(View()), PassOn)
    {
      var sample := batch[0];
      if allOnline {
        written := written + [sample];
        if checker.FlagRaised? {
          between := between + [sample];
        } else {
          late := late + [sample];
        }
      } else {
        buffer := buffer + [sample];
        early := early + [sample];
      }
      batch := batch[1..];
    }

    /** Start of the check: is there anything to do, and for which ids. */
    method BeginCheck()
      requires Enabled(View(), Call)
      modifies this
      ensures View() == After(old(View()), Call)
    {
      if allOnline {
        checker := Returned(true);
      } else {
        checker := Compared(expected - online);
      }
    }

    method TakeReadyMessages()
      requires Enabled(View(), TakeReports)
      modifies this`online, this`reports, this`checker
      ensures View() == After(old(View()), TakeReports)
    {
      var i := 0;
      while i < |reports|
        invariant i <= |reports|
        invariant reports == old(reports) && online == old(online) + Numbers(reports[..i])
      {
        assert reports[..i + 1][..i] == reports[..i];
        if reports[i].Ready? {
          online := online + {Id(reports[i].number)};
        }
        i := i + 1;
      }
      assert reports[..i] == reports;
      reports := [];
      checker := Returned(false);
    }

    method SetFlag()
      requires Enabled(View(), RaiseFlag)
      modifies this
      ensures View() == After(old(View()), RaiseFlag)
    {
      allOnline := true;
      checker := FlagRaised;
    }

    /** The rest of the check, under the mutex: everything buffered is written, then the buffer cleared. */
    method FlushBuffer()
      requires Enabled(View(), Flush)
      modifies this`written, this`buffer, this`checker
      ensures View() == After(old(View()), Flush)
    {
      var i := 0;
      while i < |buffer|
        invariant i <= |buffer|
        invariant buffer == old(buffer) && written == old(written) + buffer[..i]
      {
        written := written + [buffer[i]];
        i := i + 1;
      }
      assert buffer[..i] == buffer;
      buffer := [];
      checker := Returned(false);
    }
  }
}
