/** In which order the goal states reach the high-level controllers. */
module GoalStatesOrder {
  import opened GoalStates

  /** A sample is passed on between flag and flush while others are still buffered. */
  ghost predicate Overtakes(s: System, step: Step) {
    step.PassOn? && s.checker.FlagRaised? && s.buffer != []
  }

  ghost predicate SomeOvertakes(s: System, steps: seq<Step>)
    decreases |steps|
  {
    steps != [] && Enabled(s, steps[0]) && (Overtakes(s, steps[0]) || SomeOvertakes(After(s, steps[0]), steps[1..]))
  }

  ghost predicate Overtaken(s: System) {
    s.between != [] && s.early != []
  }

  lemma OvertakenStep(s: System, step: Step)
    requires Inv(s) && Enabled(s, step)
    ensures Overtaken(After(s, step)) <==> Overtaken(s) || Overtakes(s, step)
  {
  }

  lemma {:induction false} OvertakenIff(s: System, steps: seq<Step>, t: System)
    requires Inv(s) && Steps(s, steps, t)
    ensures Overtaken(t) <==> Overtaken(s) || SomeOvertakes(s, steps)
    decreases |steps|
  {
    hide Inv, After, Enabled, Overtaken, Overtakes;
    if steps != [] {
      InvStep(s, steps[0]);
      OvertakenStep(s, steps[0]);
      OvertakenIff(After(s, steps[0]), steps[1..], t);
    }
  }

  ghost predicate AllDifferent(samples: seq<Sample>) {
    forall i, j | 0 <= i < j < |samples| :: samples[i] != samples[j]
  }

  /** Samples are written in the order received if and only if none is passed on while the flag is
      raised and the buffer not empty; equal samples aside, which can trade places unnoticed. */
  lemma OrderKeptIff(s: System, steps: seq<Step>, t: System)
    requires Init(s) && Steps(s, steps, t)
    ensures !SomeOvertakes(s, steps) ==> t.written <= Handled(t)
    ensures AllDifferent(Delivered(steps)) ==> (t.written <= Handled(t) <==> !SomeOvertakes(s, steps))
    ensures Flushed(t) ==> |t.written| == |Handled(t)|
  {
    StartHolds(s);
    RunKeeps(s, steps, t);
    OvertakenIff(s, steps, t);
    assert !Overtaken(s);
    ExactlyOnce(s, steps, t);
    hide Steps, Init, SomeOvertakes, Delivered;
    assert forall k | 0 <= k < |Handled(t)| :: Handled(t)[k] == Delivered(steps)[k];
    if Overtaken(t) {
      FirstWritten(t);
    } else {
      InOrder(t);
    }
  }

  lemma FirstWritten(t: System)
    requires Inv(t) && Overtaken(t)
    ensures t.written != [] && t.written[0] == t.between[0]
    ensures |t.early| < |Handled(t)| && Handled(t)[0] == t.early[0] && Handled(t)[|t.early|] == t.between[0]
  {
  }

  lemma InOrder(t: System)
    requires Inv(t) && !Overtaken(t)
    ensures t.written <= Handled(t)
  {
    assert t.between == [] || t.early == [];
  }

  /** With equal samples: after the flush the order is kept exactly if those handled between flag and
      flush commute with the buffered ones. */
  lemma OrderKeptIffCommutes(s: System, steps: seq<Step>, t: System)
    requires Init(s) && Steps(s, steps, t) && Flushed(t)
    ensures t.written == Handled(t) <==> t.between + t.early == t.early + t.between
    ensures t.between == [] || t.early == [] ==> t.written == Handled(t)
  {
    StartHolds(s);
    RunKeeps(s, steps, t);
    hide Steps, Init;
    SameTail(t.between + t.early, t.early + t.between, t.late);
    assert t.between == [] || t.early == [] ==> t.between + t.early == t.early + t.between;
  }

  lemma SameTail(a: seq<Sample>, b: seq<Sample>, tail: seq<Sample>)
    requires |a| == |b|
    ensures a + tail == b + tail <==> a == b
  {
    assert (a + tail)[..|a|] == a && (b + tail)[..|b|] == b;
  }

  lemma {:induction false} Append(s: System, p: seq<Step>, u: System, q: seq<Step>, t: System)
    requires Steps(s, p, u) && Steps(u, q, t)
    ensures Steps(s, p + q, t)
    decreases |p|
  {
    if p == [] {
      assert p + q == q;
    } else {
      assert (p + q)[1..] == p[1..] + q;
      Append(After(s, p[0]), p[1..], u, q, t);
    }
  }

  /** One more step at the end of a run. */
  lemma Extend(s: System, p: seq<Step>, u: System, step: Step) returns (longer: seq<Step>)
    requires Steps(s, p, u) && Enabled(u, step)
    ensures Steps(s, longer, After(u, step))
  {
    assert [step][1..] == [];
    Append(s, p, u, [step], After(u, step));
    longer := p + [step];
  }

  /** Each id of `ids` reports. */
  lemma {:induction false} AllReport(start: System, p: seq<Step>, s: System, ids: set<nat>) returns (steps: seq<Step>, t: System)
    requires Steps(start, p, s) && forall id | id in ids :: id < 256
    ensures Steps(start, steps, t)
    ensures t == s.(reports := t.reports, reported := s.reported + ids)
    decreases ids
  {
    steps, t := p, s;
    if ids != {} {
      var id :| id in ids;
      var step := Report(Ready(id));
      steps := Extend(start, p, s, step);
      steps, t := AllReport(start, steps, After(s, step), ids - {id});
      assert s.reported + {id} + (ids - {id}) == s.reported + ids;
    }
  }

  /** Everybody assigned has reported and been taken note of, and no sample has come yet. */
  lemma AllOnlineNoSample(s: System) returns (steps: seq<Step>, t: System)
    requires Init(s) && forall id | id in s.expected :: id < 256
    ensures Steps(s, steps, t) && Inv(t) && t.checker.Returned? && t.expected <= t.online && t.expected == s.expected
    ensures !t.allOnline && !t.locked && t.batch == [] && t.early == [] && t.between == [] && t.late == []
  {
    StartHolds(s);
    var p, u := AllReport(s, [], s, s.expected);
    RunKeeps(s, p, u);
    steps, t := p, u;
    if u.expected != {} {
      assert u.expected - u.online == u.expected;
      steps := Extend(s, steps, t, Call);
      InvStep(t, Call);
      t := After(t, Call);
      steps := Extend(s, steps, t, TakeReports);
      InvStep(t, TakeReports);
      t := After(t, TakeReports);
    }
  }

  /** It is not always kept, whichever ids are assigned: the flag is set while the callback is between
      two samples of a batch. */
  lemma OrderCanBreak(x: Sample, y: Sample, s: System) returns (steps: seq<Step>, t: System)
    requires x != y && Init(s) && forall id | id in s.expected :: id < 256
    ensures Steps(s, steps, t) && Flushed(t)
    ensures Handled(t) == [x, y] && t.written == [y, x]
  {
    hide Steps;
    var r;
    steps, r := AllOnlineNoSample(s);
    steps := Extend(s, steps, r, Arrive([x, y]));
    var s1 := After(r, Arrive([x, y]));
    steps := Extend(s, steps, s1, Lock);
    var s2 := After(s1, Lock);
    steps := Extend(s, steps, s2, PassOn);
    var s3 := After(s2, PassOn);
    steps := Extend(s, steps, s3, Call);
    var s4 := After(s3, Call);
    assert s4.checker == Compared({});
    steps := Extend(s, steps, s4, RaiseFlag);
    var s5 := After(s4, RaiseFlag);
    steps := Extend(s, steps, s5, PassOn);
    var s6 := After(s5, PassOn);
    steps := Extend(s, steps, s6, Unlock);
    var s7 := After(s6, Unlock);
    steps := Extend(s, steps, s7, Flush);
    t := After(s7, Flush);
  }
}
