/** Commands sent to a child process and answers matched by id: callers, the two message queues and
    the child's thread pool, in any interleaving. */
module ProgramExecutor {

  const LAST_ID: nat := 100_001
  const THREAD_POOL_SIZE: nat := 6

  /** What a caller asks for. */
  datatype Request = Execute(timeout: int) | GetOutput

  /** The caller waits for the exit state only if it set a timeout, and for output always. */
  predicate CallerWaits(r: Request) {
    match r
    case Execute(timeout) => timeout > 0
    case GetOutput => true
  }

  datatype RequestType = NO_ANSWER | SEND_OUTPUT

  /** A command in a queue or in a worker's hands; `call` tells which call it comes from and is
      not part of the message. */
  datatype CommandMsg = CommandMsg(mtype: nat, timeout: int, requestType: RequestType, call: nat)

  datatype AnswerMsg = AnswerMsg(mtype: nat, call: nat)

  /** The id that the k-th call gets. */
  function Id(k: nat): (id: nat)
    ensures 1 <= id <= LAST_ID
  {
    k % LAST_ID + 1
  }

  function Message(k: nat, r: Request): CommandMsg {
    match r
    case Execute(timeout) => CommandMsg(Id(k), timeout, NO_ANSWER, k)
    case GetOutput => CommandMsg(Id(k), -1, SEND_OUTPUT, k)
  }

  /** The child's own test, on the message. */
  predicate Answers(m: CommandMsg) {
    m.requestType == SEND_OUTPUT || m.timeout > 0
  }

  datatype Phase = Called | Waiting | Refused | Released | Answered(source: nat)

  datatype Caller = Caller(request: Request, phase: Phase)

  datatype System = System(
    current: nat,                    // the next id to hand out
    callers: seq<Caller>,            // the k-th call of execute_command or get_command_output
    requests: seq<CommandMsg>,       // queue from the LCC to its child
    jobs: seq<CommandMsg>,           // the child's job queue
    working: seq<CommandMsg>,        // commands that worker threads execute, at most six
    answers: seq<AnswerMsg>,         // queue back to the LCC
    // history
    finished: seq<nat>,              // calls whose command has been executed
    answered: seq<nat>               // calls for which an answer has been sent
  )

  datatype Step =
    | Call(request: Request) | TooLong(k: nat) | Send(k: nat)
    | Receive | Take | Finish(w: nat)
    | Collect(k: nat, i: nat)

  /** The answer that a caller gets: the first in the queue with its id. */
  ghost predicate FirstFor(answers: seq<AnswerMsg>, i: nat, id: nat) {
    i < |answers| && answers[i].mtype == id && forall j | 0 <= j < i :: answers[j].mtype != id
  }

  ghost predicate Enabled(s: System, step: Step) {
    match step
    case Call(_) => true
    case TooLong(k) => k < |s.callers| && s.callers[k].phase == Called
    case Send(k) => k < |s.callers| && s.callers[k].phase == Called
    case Receive => s.requests != []
    case Take => s.jobs != [] && |s.working| < THREAD_POOL_SIZE
    case Finish(w) => w < |s.working|
    case Collect(k, i) => k < |s.callers| && s.callers[k].phase == Waiting && FirstFor(s.answers, i, Id(k))
  }

  function Without<T>(q: seq<T>, i: nat): seq<T>
    requires i < |q|
  {
    q[..i] + q[i + 1..]
  }

  /** The id after `id`. */
  function Next(id: nat): nat {
    if id > 100_000 then 1 else id + 1
  }

  ghost function After(s: System, step: Step): System
    requires Enabled(s, step)
  {
    match step
    case Call(r) => s.(current := Next(s.current), callers := s.callers + [Caller(r, Called)])
    case TooLong(k) => s.(callers := s.callers[k := s.callers[k].(phase := Refused)])
    case Send(k) =>
      var c := s.callers[k];
      s.(requests := s.requests + [Message(k, c.request)],
         callers := s.callers[k := c.(phase := if CallerWaits(c.request) then Waiting else Released)])
    case Receive => s.(jobs := s.jobs + [s.requests[0]], requests := s.requests[1..])
    case Take => s.(working := s.working + [s.jobs[0]], jobs := s.jobs[1..])
    case Finish(w) =>
      var m := s.working[w];
      var t := s.(working := Without(s.working, w), finished := s.finished + [m.call]);
      if Answers(m) then t.(answers := t.answers + [AnswerMsg(m.mtype, m.call)], answered := t.answered + [m.call]) else t
    case Collect(k, i) =>
      s.(callers := s.callers[k := s.callers[k].(phase := Answered(s.answers[i].call))], answers := Without(s.answers, i))
  }

  ghost predicate Init(s: System) {
    s.current == 1 && s.callers == [] && s.requests == [] && s.jobs == [] && s.working == [] && s.answers == []
    && s.finished == [] && s.answered == []
  }

  // Where a call's command and answer are.

  function Calls(q: seq<CommandMsg>): multiset<nat> {
    if q == [] then multiset{} else multiset{q[0].call} + Calls(q[1..])
  }

  function AnswerCalls(q: seq<AnswerMsg>): multiset<nat> {
    if q == [] then multiset{} else multiset{q[0].call} + AnswerCalls(q[1..])
  }

  /** Calls whose command is still on its way to being executed. */
  function OnTheWay(s: System): multiset<nat> {
    Calls(s.requests) + Calls(s.jobs) + Calls(s.working)
  }

  lemma {:induction false} CallsConcat(p: seq<CommandMsg>, q: seq<CommandMsg>)
    ensures Calls(p + q) == Calls(p) + Calls(q)
  {
    if p == [] {
      assert p + q == q;
    } else {
      assert (p + q)[1..] == p[1..] + q;
      CallsConcat(p[1..], q);
    }
  }

  lemma CallsOne(m: CommandMsg)
    ensures Calls([m]) == multiset{m.call}
  {
    assert [m][1..] == [];
  }

  lemma CallsWithout(q: seq<CommandMsg>, i: nat)
    requires i < |q|
    ensures Calls(q) == Calls(Without(q, i)) + multiset{q[i].call}
    ensures forall m | m in Without(q, i) :: m in q
  {
    hide Calls;
    var head, tail := q[..i], q[i + 1..];
    assert q == head + ([q[i]] + tail);
    CallsConcat(head, [q[i]] + tail);
    CallsConcat([q[i]], tail);
    CallsOne(q[i]);
    CallsConcat(head, tail);
  }

  lemma CallsPlus(q: seq<CommandMsg>, m: CommandMsg)
    ensures Calls(q + [m]) == Calls(q) + multiset{m.call}
  {
    CallsConcat(q, [m]);
    CallsOne(m);
  }

  lemma {:induction false} AnswerCallsConcat(p: seq<AnswerMsg>, q: seq<AnswerMsg>)
    ensures AnswerCalls(p + q) == AnswerCalls(p) + AnswerCalls(q)
  {
    if p == [] {
      assert p + q == q;
    } else {
      assert (p + q)[1..] == p[1..] + q;
      AnswerCallsConcat(p[1..], q);
    }
  }

  lemma AnswerCallsPlus(q: seq<AnswerMsg>, a: AnswerMsg)
    ensures AnswerCalls(q + [a]) == AnswerCalls(q) + multiset{a.call}
  {
    AnswerCallsConcat(q, [a]);
    assert [a][1..] == [];
  }

  lemma AnswerCallsWithout(q: seq<AnswerMsg>, i: nat)
    requires i < |q|
    ensures AnswerCalls(q) == AnswerCalls(Without(q, i)) + multiset{q[i].call}
    ensures forall a | a in Without(q, i) :: a in q
  {
    assert q == q[..i] + ([q[i]] + q[i + 1..]);
    AnswerCallsConcat(q[..i], [q[i]] + q[i + 1..]);
    AnswerCallsPlus([], q[i]);
    AnswerCallsConcat([q[i]], q[i + 1..]);
    AnswerCallsConcat(q[..i], q[i + 1..]);
    assert [] + [q[i]] == [q[i]];
  }

  // What every run keeps, whatever ids are in use.

  ghost predicate Genuine(m: CommandMsg, callers: seq<Caller>) {
    m.call < |callers| && m == Message(m.call, callers[m.call].request)
  }

  ghost predicate AllGenuine(s: System) {
    && (forall m | m in s.requests :: Genuine(m, s.callers))
    && (forall m | m in s.jobs :: Genuine(m, s.callers))
    && (forall m | m in s.working :: Genuine(m, s.callers))
    && (forall a | a in s.answers :: a.mtype == Id(a.call))
  }

  predicate Sent(c: Caller) {
    c.phase != Called && c.phase != Refused
  }

  /** Call `k`'s command, if sent, is on its way or finished, once; it is answered, once, exactly if
      it is finished and its caller waits. */
  ghost predicate OnceEach(s: System, k: nat) {
    && OnTheWay(s)[k] + multiset(s.finished)[k] == (if k < |s.callers| && Sent(s.callers[k]) then 1 else 0)
    && multiset(s.answered)[k] == (if k < |s.callers| && CallerWaits(s.callers[k].request) then multiset(s.finished)[k] else 0)
    && (k < |s.callers| && Sent(s.callers[k]) ==>
          (s.callers[k].phase == Released <==> !CallerWaits(s.callers[k].request)))
  }

  ghost predicate Inv(s: System) {
    && s.current == Id(|s.callers|) && |s.working| <= THREAD_POOL_SIZE
    && AllGenuine(s)
    && forall k: nat :: OnceEach(s, k)
  }

  lemma NextId(k: nat)
    ensures Next(Id(k)) == Id(k + 1)
  {
  }

  lemma InvStep(s: System, step: Step)
    requires Inv(s) && Enabled(s, step)
    ensures Inv(After(s, step))
  {
    hide After, Enabled, OnceEach, Id;
    var t := After(s, step);
    GenuineStep(s, step);
    WorkersStep(s, step);
    forall k: nat
      ensures OnceEach(t, k)
    {
      assert OnceEach(s, k);
      OnceEachStep(s, step, k);
    }
  }

  lemma WorkersStep(s: System, step: Step)
    requires |s.working| <= THREAD_POOL_SIZE && Enabled(s, step) && s.current == Id(|s.callers|)
    ensures |After(s, step).working| <= THREAD_POOL_SIZE
    ensures After(s, step).current == Id(|After(s, step).callers|)
  {
    NextId(|s.callers|);
    hide Id, Next, Answers;
  }

  lemma GenuineStep(s: System, step: Step)
    requires AllGenuine(s) && Enabled(s, step)
    ensures AllGenuine(After(s, step))
  {
    hide Id, Answers, CallerWaits, Message;
    var t := After(s, step);
    assert forall m | Genuine(m, s.callers) :: Genuine(m, t.callers);
    match step
    case Finish(w) =>
      CallsWithout(s.working, w);
      assert s.working[w] in s.working;
      SameType(s.working[w], s.callers);
    case Collect(k, i) => AnswerCallsWithout(s.answers, i);
    case Send(k) => assert Genuine(Message(k, s.callers[k].request), t.callers) by { TypeIsId(k, s.callers[k].request); }
    case _ =>
  }

  lemma TypeIsId(k: nat, r: Request)
    ensures Message(k, r).mtype == Id(k) && Message(k, r).call == k
  {
  }

  lemma SameType(m: CommandMsg, callers: seq<Caller>)
    requires Genuine(m, callers)
    ensures m.mtype == Id(m.call)
  {
  }

  function SentNow(step: Step, k: nat): nat {
    if step == Send(k) then 1 else 0
  }

  ghost function FinishedNow(s: System, step: Step, k: nat): nat
    requires Enabled(s, step)
  {
    if step.Finish? && s.working[step.w].call == k then 1 else 0
  }

  /** A step sends one command, finishes one, or moves them on. */
  lemma OnTheWayStep(s: System, step: Step, k: nat)
    requires Enabled(s, step)
    ensures OnTheWay(After(s, step))[k] + FinishedNow(s, step, k) == OnTheWay(s)[k] + SentNow(step, k)
  {
    hide Id, Answers, CallerWaits, Message, Calls, Without, OnTheWay;
    var t := After(s, step);
    match step
    case Send(c) =>
      CallsPlus(s.requests, Message(c, s.callers[c].request));
      TypeIsId(c, s.callers[c].request);
      Queues(s, t, k);
    case Receive =>
      CallsPlus(s.jobs, s.requests[0]);
      CallsHead(s.requests);
      Queues(s, t, k);
    case Take =>
      CallsPlus(s.working, s.jobs[0]);
      CallsHead(s.jobs);
      Queues(s, t, k);
    case Finish(w) =>
      CallsWithout(s.working, w);
      Queues(s, t, k);
    case _ =>
      Queues(s, t, k);
  }

  lemma Queues(s: System, t: System, k: nat)
    ensures OnTheWay(s)[k] == Calls(s.requests)[k] + Calls(s.jobs)[k] + Calls(s.working)[k]
    ensures OnTheWay(t)[k] == Calls(t.requests)[k] + Calls(t.jobs)[k] + Calls(t.working)[k]
  {
  }

  lemma CallsHead(q: seq<CommandMsg>)
    requires q != []
    ensures Calls(q) == Calls(q[1..]) + multiset{q[0].call}
  {
  }

  /** The histories grow by what is finished, and answered, now. */
  lemma HistoryStep(s: System, step: Step, k: nat)
    requires AllGenuine(s) && Enabled(s, step)
    ensures multiset(After(s, step).finished)[k] == multiset(s.finished)[k] + FinishedNow(s, step, k)
    ensures FinishedNow(s, step, k) == 1 ==> k < |s.callers|
    ensures multiset(After(s, step).answered)[k] == multiset(s.answered)[k]
              + if k < |s.callers| && CallerWaits(s.callers[k].request) then FinishedNow(s, step, k) else 0
  {
    hide Id, Answers, CallerWaits, Message;
    if step.Finish? {
      var m := s.working[step.w];
      assert m in s.working && Genuine(m, s.callers);
      AnswersIffWaits(m.call, s.callers[m.call].request);
    }
  }

  lemma CallersStep(s: System, step: Step, k: nat)
    requires Enabled(s, step)
    ensures var t := After(s, step);
            && |s.callers| <= |t.callers| <= |s.callers| + 1
            && (k < |s.callers| ==> t.callers[k].request == s.callers[k].request)
            && (k < |s.callers| ==> Sent(t.callers[k]) == (Sent(s.callers[k]) || step == Send(k)))
            && (k < |s.callers| && Sent(s.callers[k]) ==> (t.callers[k].phase == Released <==> s.callers[k].phase == Released))
            && (step == Send(k) ==> k < |s.callers| && !Sent(s.callers[k])
                                    && t.callers[k].phase == if CallerWaits(s.callers[k].request) then Waiting else Released)
            && (|s.callers| <= k < |t.callers| ==> t.callers[k].phase == Called)
  {
    hide Id, Answers, CallerWaits, Message, Without;
  }

  lemma OnceEachStep(s: System, step: Step, k: nat)
    requires AllGenuine(s) && Enabled(s, step) && OnceEach(s, k)
    ensures OnceEach(After(s, step), k)
  {
    hide After, Enabled, OnTheWay, AllGenuine, FinishedNow, CallerWaits, Id;
    OnTheWayStep(s, step, k);
    HistoryStep(s, step, k);
    CallersStep(s, step, k);
  }

  /** The child's test agrees with the caller's. */
  lemma AnswersIffWaits(k: nat, r: Request)
    ensures Answers(Message(k, r)) <==> CallerWaits(r)
  {
  }

  // Matching answers to callers.

  /** A caller that will wait, or waits, for an answer. */
  predicate Outstanding(c: Caller) {
    CallerWaits(c.request) && (c.phase == Called || c.phase == Waiting)
  }

  /** No two outstanding calls share an id. */
  ghost predicate DistinctIds(s: System) {
    forall j: nat, k: nat | j < k < |s.callers| && Outstanding(s.callers[j]) && Outstanding(s.callers[k]) :: Id(j) != Id(k)
  }

  /** An answer sent is in the queue until its own caller has it. */
  ghost predicate Matched(s: System, k: nat) {
    && AnswerCalls(s.answers)[k] + (if k < |s.callers| && s.callers[k].phase.Answered? then 1 else 0) == multiset(s.answered)[k]
    && (k < |s.callers| && s.callers[k].phase.Answered? ==> s.callers[k].phase.source == k)
  }

  lemma {:induction false} InAnswers(answers: seq<AnswerMsg>, i: nat)
    requires i < |answers|
    ensures AnswerCalls(answers)[answers[i].call] >= 1
  {
    AnswerCallsWithout(answers, i);
  }

  /** With distinct ids, the answer a caller collects is its own. */
  lemma CollectsOwn(s: System, k: nat, i: nat)
    requires Inv(s) && DistinctIds(s) && Enabled(s, Collect(k, i)) && AllMatched(s)
    ensures s.answers[i].call == k
  {
    var c := s.answers[i].call;
    AnswerInQueue(s, i);
    assert OnceEach(s, k);
    hide Inv, AllMatched, Id, OnTheWay;
    assert Id(c) == Id(k);
  }

  /** The owner of an answer in the queue is waiting for it. */
  lemma AnswerInQueue(s: System, i: nat)
    requires Inv(s) && AllMatched(s) && i < |s.answers|
    ensures var a := s.answers[i];
            a.mtype == Id(a.call) && a.call < |s.callers| && s.callers[a.call].phase == Waiting && CallerWaits(s.callers[a.call].request)
  {
    hide Id, OnTheWay, CallerWaits, Genuine;
    var c := s.answers[i].call;
    assert s.answers[i] in s.answers;
    InAnswers(s.answers, i);
    assert OnceEach(s, c) && Matched(s, c);
  }

  /** Every answer so far went to its own caller. */
  ghost predicate AllMatched(s: System) {
    forall k: nat :: Matched(s, k)
  }

  ghost predicate CollectsItsOwn(s: System, step: Step) {
    step.Collect? && step.i < |s.answers| ==> s.answers[step.i].call == step.k
  }

  lemma MatchedStep(s: System, step: Step, k: nat)
    requires AllGenuine(s) && Enabled(s, step) && Matched(s, k) && CollectsItsOwn(s, step)
    ensures Matched(After(s, step), k)
  {
    hide After, Enabled, CallerWaits, AllGenuine, Id, FinishedNow;
    HistoryStep(s, step, k);
    AnswersStep(s, step, k);
    PhaseStep(s, step, k);
  }

  lemma AllMatchedStep(s: System, step: Step)
    requires Inv(s) && Enabled(s, step) && AllMatched(s) && CollectsItsOwn(s, step)
    ensures AllMatched(After(s, step))
  {
    hide After, Enabled, Matched, OnceEach, AllGenuine, Id;
    forall k: nat
      ensures Matched(After(s, step), k)
    {
      MatchedStep(s, step, k);
    }
  }

  predicate HasAnswer(callers: seq<Caller>, k: nat) {
    k < |callers| && callers[k].phase.Answered?
  }

  /** Only collecting gives a caller an answer, which it has not had before. */
  lemma PhaseStep(s: System, step: Step, k: nat)
    requires Enabled(s, step)
    ensures |s.callers| <= |After(s, step).callers|
    ensures HasAnswer(After(s, step).callers, k) <==> HasAnswer(s.callers, k) || (step.Collect? && step.k == k)
    ensures HasAnswer(s.callers, k) ==> After(s, step).callers[k] == s.callers[k]
    ensures step.Collect? ==> step.i < |s.answers| && step.k < |s.callers| && !HasAnswer(s.callers, step.k)
                              && After(s, step).callers[step.k].phase == Answered(s.answers[step.i].call)
    ensures k < |s.callers| ==> After(s, step).callers[k].request == s.callers[k].request
  {
    hide Id, Answers, CallerWaits, Message, Without;
  }

  /** An answer is added for what is finished now, if its caller waits, and one is taken by a collecting caller. */
  lemma AnswersStep(s: System, step: Step, k: nat)
    requires AllGenuine(s) && Enabled(s, step)
    ensures AnswerCalls(After(s, step).answers)[k] + (if step.Collect? && s.answers[step.i].call == k then 1 else 0)
            == AnswerCalls(s.answers)[k] + if k < |s.callers| && CallerWaits(s.callers[k].request) then FinishedNow(s, step, k) else 0
  {
    hide Id, Answers, CallerWaits, Message, AnswerCalls, Without;
    match step
    case Finish(w) =>
      var m := s.working[w];
      assert m in s.working && Genuine(m, s.callers);
      AnswersIffWaits(m.call, s.callers[m.call].request);
      AnswerCallsPlus(s.answers, AnswerMsg(m.mtype, m.call));
    case Collect(c, i) => AnswerCallsWithout(s.answers, i);
    case _ =>
  }

  ghost predicate Steps(s: System, steps: seq<Step>, t: System)
    decreases |steps|
  {
    || (steps == [] && s == t)
    || (steps != [] && Enabled(s, steps[0]) && Steps(After(s, steps[0]), steps[1..], t))
  }

  ghost predicate AlwaysDistinct(s: System, steps: seq<Step>)
    decreases |steps|
  {
    DistinctIds(s) && (steps != [] && Enabled(s, steps[0]) ==> AlwaysDistinct(After(s, steps[0]), steps[1..]))
  }

  lemma {:induction false} RunKeeps(s: System, steps: seq<Step>, t: System)
    requires Inv(s) && Steps(s, steps, t)
    ensures Inv(t)
    ensures AllMatched(s) && AlwaysDistinct(s, steps) ==> AllMatched(t)
    decreases |steps|
  {
    hide Inv, AllMatched, After, Enabled, DistinctIds;
    if steps != [] {
      InvStep(s, steps[0]);
      if AllMatched(s) && DistinctIds(s) {
        DistinctCollectsOwn(s, steps[0]);
        AllMatchedStep(s, steps[0]);
      }
      RunKeeps(After(s, steps[0]), steps[1..], t);
    }
  }

  lemma DistinctCollectsOwn(s: System, step: Step)
    requires Inv(s) && Enabled(s, step) && DistinctIds(s) && AllMatched(s)
    ensures CollectsItsOwn(s, step)
  {
    if step.Collect? {
      CollectsOwn(s, step.k, step.i);
    }
  }

  lemma StartHolds(s: System)
    requires Init(s)
    ensures Inv(s) && AllMatched(s) && DistinctIds(s)
  {
  }

  // When ids are distinct.

  /** The guard of a call: the id that comes next belongs to no outstanding call. */
  ghost predicate NextIdFree(s: System) {
    forall j: nat | j < |s.callers| && Outstanding(s.callers[j]) :: Id(j) != s.current
  }

  ghost predicate Guarded(s: System, step: Step) {
    step.Call? && CallerWaits(step.request) ==> NextIdFree(s)
  }

  /** Every call of the run whose caller waits is made while the next id is free. */
  ghost predicate GuardedRun(s: System, steps: seq<Step>)
    decreases |steps|
  {
    steps == [] || !Enabled(s, steps[0]) || (Guarded(s, steps[0]) && GuardedRun(After(s, steps[0]), steps[1..]))
  }

  /** Only a call of a waiting caller can make two outstanding calls share an id, and it does exactly
      if its guard fails. */
  lemma DistinctStep(s: System, step: Step)
    requires Enabled(s, step) && DistinctIds(s) && s.current == Id(|s.callers|)
    ensures DistinctIds(After(s, step)) <==> Guarded(s, step)
  {
    hide Id;
    if step.Call? {
    } else {
    }
  }

  /** Ids stay distinct through a whole run exactly if every call of a waiting caller is guarded. */
  lemma {:induction false} AlwaysDistinctIff(s: System, steps: seq<Step>, t: System)
    requires Inv(s) && DistinctIds(s) && Steps(s, steps, t)
    ensures AlwaysDistinct(s, steps) <==> GuardedRun(s, steps)
    decreases |steps|
  {
    hide DistinctIds, Guarded, OnceEach, AllGenuine, Id;
    if steps != [] {
      InvStep(s, steps[0]);
      DistinctStep(s, steps[0]);
      var s1 := After(s, steps[0]);
      hide Inv, After, Enabled;
      if DistinctIds(s1) {
        AlwaysDistinctIff(s1, steps[1..], t);
      } else {
      }
    }
  }

  /** In every interleaving in which each call of a waiting caller is made while the next id is free,
      whoever waits gets the answer of its own command, at most once, and nobody else is answered. */
  lemma EachItsOwnAnswer(s: System, steps: seq<Step>, t: System, k: nat)
    requires Init(s) && Steps(s, steps, t) && GuardedRun(s, steps) && k < |t.callers|
    ensures t.callers[k].phase.Answered? ==> t.callers[k].phase.source == k && CallerWaits(t.callers[k].request)
    ensures multiset(t.answered)[k] == if CallerWaits(t.callers[k].request) then multiset(t.finished)[k] else 0
    ensures multiset(t.finished)[k] <= 1
    ensures forall j: nat | j < |t.callers| && t.callers[j].phase == Answered(k) :: j == k
  {
    hide Init, Steps, AlwaysDistinct, DistinctIds, GuardedRun, Id, CallerWaits;
    StartHolds(s);
    AlwaysDistinctIff(s, steps, t);
    RunKeeps(s, steps, t);
    assert OnceEach(t, k) && Matched(t, k);
    forall j: nat | j < |t.callers| && t.callers[j].phase == Answered(k)
      ensures j == k
    {
      assert Matched(t, j);
    }
  }

  /** Two calls share an id exactly if a multiple of 100001 calls lies between them. */
  lemma SameIdIff(j: nat, k: nat)
    requires j <= k
    ensures Id(j) == Id(k) <==> (k - j) % LAST_ID == 0
  {
  }

  /** No call is still outstanding when the 100001st call after it is made. */
  ghost predicate Prompt(s: System, step: Step) {
    step.Call? ==> forall k: nat | k < |s.callers| && Outstanding(s.callers[k]) :: |s.callers| < k + LAST_ID
  }

  ghost predicate PromptRun(s: System, steps: seq<Step>)
    decreases |steps|
  {
    steps == [] || !Enabled(s, steps[0]) || (Prompt(s, steps[0]) && PromptRun(After(s, steps[0]), steps[1..]))
  }

  /** Callers that are answered within 100000 further calls keep every call guarded. */
  lemma {:induction false} RecentAreDistinct(s: System, steps: seq<Step>, t: System)
    requires Inv(s) && Steps(s, steps, t) && PromptRun(s, steps)
    ensures GuardedRun(s, steps)
    decreases |steps|
  {
    hide OnceEach, AllGenuine, Id;
    if steps != [] {
      InvStep(s, steps[0]);
      if steps[0].Call? {
        RecentAreFree(s);
      }
      RecentAreDistinct(After(s, steps[0]), steps[1..], t);
    }
  }

  lemma RecentAreFree(s: System)
    requires s.current == Id(|s.callers|)
    requires forall k: nat | k < |s.callers| && Outstanding(s.callers[k]) :: |s.callers| < k + LAST_ID
    ensures NextIdFree(s)
  {
    forall j: nat | j < |s.callers| && Outstanding(s.callers[j])
      ensures Id(j) != s.current
    {
      SameIdIff(j, |s.callers|);
    }
  }

  /** So with callers answered in time everybody gets its own answer. */
  lemma PromptGetOwnAnswers(s: System, steps: seq<Step>, t: System, k: nat)
    requires Init(s) && Steps(s, steps, t) && PromptRun(s, steps) && k < |t.callers|
    ensures t.callers[k].phase.Answered? ==> t.callers[k].phase.source == k
    ensures forall j: nat | j < |t.callers| && t.callers[j].phase == Answered(k) :: j == k
  {
    hide Init, Steps, GuardedRun, PromptRun, Inv;
    StartHolds(s);
    RecentAreDistinct(s, steps, t);
    EachItsOwnAnswer(s, steps, t, k);
  }

  // When they are not: somebody can get a wrong answer.

  /** Caller `m` has got the answer of another call. */
  ghost predicate WronglyAnswered(s: System, m: nat) {
    m < |s.callers| && s.callers[m].phase.Answered? && s.callers[m].phase.source != m
  }

  ghost predicate SomeWrong(s: System) {
    exists m: nat :: WronglyAnswered(s, m)
  }

  /** Runs in which nobody calls any more. */
  ghost predicate NoCalls(steps: seq<Step>) {
    forall i | 0 <= i < |steps| :: !steps[i].Call?
  }

  lemma Prepend(s: System, step: Step, steps: seq<Step>, t: System) returns (longer: seq<Step>)
    requires Enabled(s, step) && Steps(After(s, step), steps, t)
    ensures Steps(s, longer, t) && longer == [step] + steps
    ensures !step.Call? && NoCalls(steps) ==> NoCalls(longer)
  {
    longer := [step] + steps;
    assert longer[1..] == steps;
  }

  lemma {:induction false} Append(s: System, p: seq<Step>, u: System, q: seq<Step>, t: System)
    requires Steps(s, p, u) && Steps(u, q, t)
    ensures Steps(s, p + q, t)
    decreases |p|
  {
    if p == [] {
      assert p + q == q;
    } else {
      assert (p + q)[1..] == p[1..] + q;
      Append(After(s, p[0]), p[1..], u, q, t);
    }
  }

  lemma NoStep(t: System) returns (steps: seq<Step>)
    ensures Steps(t, steps, t) && NoCalls(steps)
  {
    steps := [];
  }

  ghost predicate Clash(s: System, j: nat, k: nat) {
    && j < |s.callers| && k < |s.callers| && j != k && Id(j) == Id(k)
    && s.callers[j].phase == Waiting && s.callers[k].phase == Waiting
  }

  /** The first answer with an id in the queue. */
  lemma FirstWith(answers: seq<AnswerMsg>, id: nat, n: nat) returns (i: nat)
    requires n < |answers| && answers[n].mtype == id
    ensures FirstFor(answers, i, id)
  {
    i := 0;
    while answers[i].mtype != id
      invariant i <= n && forall j | 0 <= j < i :: answers[j].mtype != id
      decreases n - i
    {
      i := i + 1;
    }
  }

  /** Two calls wait for one id, and an answer with this id is in the queue: one of them is not its
      owner and can take it. */
  lemma WrongOneCollects(s: System, j: nat, k: nat, n: nat) returns (steps: seq<Step>, t: System)
    requires Clash(s, j, k) && n < |s.answers| && s.answers[n].mtype == Id(j)
    ensures Steps(s, steps, t) && NoCalls(steps) && SomeWrong(t)
  {
    hide Id;
    var i := FirstWith(s.answers, Id(j), n);
    var m := if s.answers[i].call == j then k else j;
    var step := Collect(m, i);
    t := After(s, step);
    assert WronglyAnswered(t, m);
    hide *;
    steps := NoStep(t);
    steps := Prepend(s, step, steps, t);
  }

  /** Commands that are still to be executed, weighted by the steps it takes. */
  function Work(s: System): nat {
    3 * |s.requests| + 2 * |s.jobs| + |s.working|
  }

  /** A step of the child that brings some command closer to its end. */
  lemma ChildStep(s: System, j: nat) returns (step: Step)
    requires OnTheWay(s)[j] >= 1
    ensures Enabled(s, step) && Work(After(s, step)) < Work(s) && !step.Call? && !step.Collect?
    ensures After(s, step).callers == s.callers
  {
    step := if s.working != [] then Finish(0) else if s.jobs != [] then Take else Receive;
  }

  /** As long as no answer with its id has come, the command of a waiting caller is on its way. */
  lemma WaitingOnTheWay(s: System, j: nat)
    requires Inv(s) && AllMatched(s) && j < |s.callers| && s.callers[j].phase == Waiting
    requires forall a | a in s.answers :: a.mtype != Id(j)
    ensures OnTheWay(s)[j] >= 1
  {
    assert OnceEach(s, j) && Matched(s, j);
    hide Id, OnTheWay, CallerWaits;
    assert forall a | a in s.answers :: a.call != j by {
      assert AllGenuine(s);
    }
    NoAnswerOf(s.answers, j);
  }

  lemma {:induction false} NoAnswerOf(answers: seq<AnswerMsg>, j: nat)
    requires forall a | a in answers :: a.call != j
    ensures AnswerCalls(answers)[j] == 0
  {
    if answers != [] {
      assert forall a | a in answers[1..] :: a in answers;
      NoAnswerOf(answers[1..], j);
    }
  }

  /** From a state with two calls waiting for one id the child alone brings about a wrong answer. */
  lemma {:induction false} ClashGoesWrong(s: System, j: nat, k: nat) returns (steps: seq<Step>, t: System)
    requires Inv(s) && AllMatched(s) && Clash(s, j, k)
    ensures Steps(s, steps, t) && NoCalls(steps) && SomeWrong(t)
    decreases Work(s)
  {
    if n: nat :| n < |s.answers| && s.answers[n].mtype == Id(j) {
      steps, t := WrongOneCollects(s, j, k, n);
    } else {
      WaitingOnTheWay(s, j);
      var step := ChildStep(s, j);
      var s1 := After(s, step);
      InvStep(s, step);
      AllMatchedStep(s, step);
      assert Clash(s1, j, k);
      hide Inv, AllMatched, After, Enabled;
      steps, t := ClashGoesWrong(s1, j, k);
      steps := Prepend(s, step, steps, t);
    }
  }

  /** A waiting caller that has not sent its command yet can send it. */
  lemma SendIfCalled(s: System, j: nat) returns (steps: seq<Step>, t: System)
    requires Inv(s) && AllMatched(s) && j < |s.callers| && Outstanding(s.callers[j])
    ensures Steps(s, steps, t) && NoCalls(steps) && Inv(t) && AllMatched(t)
    ensures |t.callers| == |s.callers| && t.callers[j].phase == Waiting
    ensures forall k: nat | k < |s.callers| && k != j :: t.callers[k] == s.callers[k]
  {
    t := s;
    steps := NoStep(t);
    if s.callers[j].phase == Called {
      t := After(s, Send(j));
      steps := NoStep(t);
      InvStep(s, Send(j));
      AllMatchedStep(s, Send(j));
      steps := Prepend(s, Send(j), steps, t);
    }
  }

  /** Two outstanding calls of one id are enough for a wrong answer without any further call. */
  lemma SharedIdGoesWrong(s: System) returns (steps: seq<Step>, t: System)
    requires Inv(s) && AllMatched(s) && !DistinctIds(s)
    ensures Steps(s, steps, t) && NoCalls(steps) && SomeWrong(t)
  {
    var j: nat, k: nat :| j < k < |s.callers| && Outstanding(s.callers[j]) && Outstanding(s.callers[k]) && Id(j) == Id(k);
    hide Inv, AllMatched, Steps, DistinctIds, Id, SomeWrong;
    var p, u := SendIfCalled(s, j);
    var q, v := SendIfCalled(u, k);
    assert Clash(v, j, k);
    var r;
    r, t := ClashGoesWrong(v, j, k);
    Append(u, q, v, r, t);
    Append(s, p, u, q + r, t);
    steps := p + (q + r);
  }

  // Reachable states.

  /** An answer once given is never taken back. */
  lemma {:induction false} AnswerStays(s: System, steps: seq<Step>, t: System, m: nat)
    requires Steps(s, steps, t) && HasAnswer(s.callers, m)
    ensures HasAnswer(t.callers, m) && t.callers[m] == s.callers[m]
    decreases |steps|
  {
    if steps != [] {
      PhaseStep(s, steps[0], m);
      AnswerStays(After(s, steps[0]), steps[1..], t, m);
    }
  }

  /** If nobody was answered wrongly in the end, every answer went to its own caller. */
  lemma {:induction false} NoneWrongAllMatched(s: System, steps: seq<Step>, t: System)
    requires Inv(s) && AllMatched(s) && Steps(s, steps, t) && !SomeWrong(t)
    ensures Inv(t) && AllMatched(t)
    decreases |steps|
  {
    hide Inv, AllMatched, After, Enabled;
    if steps != [] {
      var step, s1 := steps[0], After(s, steps[0]);
      InvStep(s, step);
      if step.Collect? {
        PhaseStep(s, step, step.k);
        AnswerStays(s1, steps[1..], t, step.k);
        assert !WronglyAnswered(t, step.k);
      }
      AllMatchedStep(s, step);
      NoneWrongAllMatched(s1, steps[1..], t);
    }
  }

  /** Without further calls, distinct ids stay so. */
  lemma {:induction false} NoCallsGuarded(s: System, steps: seq<Step>)
    requires NoCalls(steps)
    ensures GuardedRun(s, steps)
    decreases |steps|
  {
    if steps != [] && Enabled(s, steps[0]) {
      NoCallsGuarded(After(s, steps[0]), steps[1..]);
    }
  }

  /** Whatever happens to the calls made so far, nobody gets a wrong answer. */
  ghost predicate Safe(s: System) {
    forall steps, t | Steps(s, steps, t) && NoCalls(steps) :: !SomeWrong(t)
  }

  /** In every reachable state that is free of wrong answers: the calls made so far can only get their
      own answers exactly if no two outstanding ones share an id. */
  lemma SafeIffDistinct(start: System, run: seq<Step>, s: System)
    requires Init(start) && Steps(start, run, s) && !SomeWrong(s)
    ensures Safe(s) <==> DistinctIds(s)
  {
    hide Init, Steps, Inv, AllMatched, DistinctIds, GuardedRun, AlwaysDistinct, NoCalls, SomeWrong;
    StartHolds(start);
    NoneWrongAllMatched(start, run, s);
    if DistinctIds(s) {
      forall steps, t | Steps(s, steps, t) && NoCalls(steps)
        ensures !SomeWrong(t)
      {
        NoCallsGuarded(s, steps);
        AlwaysDistinctIff(s, steps, t);
        RunKeeps(s, steps, t);
        MatchedNotWrong(t);
      }
    } else {
      var steps, t := SharedIdGoesWrong(s);
    }
  }

  lemma MatchedNotWrong(t: System)
    requires AllMatched(t)
    ensures !SomeWrong(t)
  {
    forall m: nat
      ensures !WronglyAnswered(t, m)
    {
      assert Matched(t, m);
    }
  }

  /** The guard is exact: from a reachable state with distinct ids and no wrong answers, a call of a
      waiting caller is safe exactly if the next id is free. */
  lemma GuardExact(start: System, run: seq<Step>, s: System, r: Request)
    requires Init(start) && Steps(start, run, s) && !SomeWrong(s) && DistinctIds(s) && CallerWaits(r)
    ensures Safe(After(s, Call(r))) <==> NextIdFree(s)
  {
    hide Init, Steps, Inv, AllMatched, DistinctIds, SomeWrong, Safe, NextIdFree, NoCalls;
    var t := After(s, Call(r));
    StartHolds(start);
    NoneWrongAllMatched(start, run, s);
    CurrentIsNext(s);
    DistinctStep(s, Call(r));
    var last := NoStep(t);
    last := Prepend(s, Call(r), last, t);
    Append(start, run, s, last, t);
    CallAnswersNobody(s, r);
    SafeIffDistinct(start, run + last, t);
  }

  lemma CurrentIsNext(s: System)
    requires Inv(s)
    ensures s.current == Id(|s.callers|)
  {
  }

  lemma CallAnswersNobody(s: System, r: Request)
    requires !SomeWrong(s)
    ensures !SomeWrong(After(s, Call(r)))
  {
    forall m: nat
      ensures !WronglyAnswered(After(s, Call(r)), m)
    {
      assert !WronglyAnswered(s, m);
    }
  }

  // Few outstanding calls are not enough.

  function RefusedCalls(n: nat): (calls: seq<Caller>)
    ensures |calls| == n && forall i | 0 <= i < n :: calls[i] == Caller(Execute(0), Refused)
  {
    seq(n, _ => Caller(Execute(0), Refused))
  }

  /** `n` calls whose command is too long, on the way to `t`. */
  lemma {:induction false} ManyRefused(s: System, n: nat, rest: seq<Step>, t: System) returns (steps: seq<Step>)
    requires s.current == Id(|s.callers|)
    requires Steps(s.(current := Id(|s.callers| + n), callers := s.callers + RefusedCalls(n)), rest, t)
    ensures Steps(s, steps, t)
    decreases n
  {
    if n == 0 {
      assert s.callers + RefusedCalls(0) == s.callers;
      steps := rest;
    } else {
      var k := |s.callers|;
      var called := After(s, Call(Execute(0)));
      var refused := After(called, TooLong(k));
      NextId(k);
      assert refused.callers == s.callers + [Caller(Execute(0), Refused)];
      assert refused.callers + RefusedCalls(n - 1) == s.callers + RefusedCalls(n);
      steps := ManyRefused(refused, n - 1, rest, t);
      steps := Prepend(called, TooLong(k), steps, t);
      steps := Prepend(s, Call(Execute(0)), steps, t);
    }
  }

  /** One call that is still waiting when the 100001st call after it is made shares its id, though
      these two are the only ones outstanding. */
  lemma TwoOutstandingClash(s: System) returns (steps: seq<Step>, t: System)
    requires Init(s)
    ensures Steps(s, steps, t) && !DistinctIds(t) && !SomeWrong(t)
    ensures forall k: nat | k < |t.callers| && Outstanding(t.callers[k]) :: k == 0 || k == |t.callers| - 1
  {
    hide Steps;
    var s1 := After(s, Call(GetOutput));
    var s2 := After(s1, Send(0));
    var s3 := s2.(current := Id(LAST_ID), callers := s2.callers + RefusedCalls(LAST_ID - 1));
    t := After(s3, Call(GetOutput));
    steps := NoStep(t);
    steps := Prepend(s3, Call(GetOutput), steps, t);
    steps := ManyRefused(s2, LAST_ID - 1, steps, t);
    steps := Prepend(s1, Send(0), steps, t);
    steps := Prepend(s, Call(GetOutput), steps, t);
    assert Id(0) == Id(LAST_ID);
    assert Outstanding(t.callers[0]) && Outstanding(t.callers[LAST_ID]);
  }

  /** And then one of the two gets the answer of the other: a whole run from the start. */
  lemma WrongAnswer(s: System) returns (steps: seq<Step>, t: System, m: nat)
    requires Init(s)
    ensures Steps(s, steps, t) && m < |t.callers| && t.callers[m].phase.Answered? && t.callers[m].phase.source != m
  {
    hide Steps, Inv, AllMatched, DistinctIds;
    var p, u := TwoOutstandingClash(s);
    StartHolds(s);
    NoneWrongAllMatched(s, p, u);
    var q;
    q, t := SharedIdGoesWrong(u);
    Append(s, p, u, q, t);
    steps := p + q;
    m :| WronglyAnswered(t, m);
  }

  // Order.

  /** The command that a step puts into the queue of requests, at its end. */
  function SentBy(s: System, s': System): seq<CommandMsg> {
    if |s.requests| < |s'.requests| then [s'.requests[|s'.requests| - 1]] else []
  }

  /** The command that a step hands to a worker. */
  function StartedBy(s: System, s': System): seq<CommandMsg> {
    if |s.working| < |s'.working| then [s'.working[|s'.working| - 1]] else []
  }

  ghost function AllSent(s: System, steps: seq<Step>): seq<CommandMsg>
    decreases |steps|
  {
    if steps == [] || !Enabled(s, steps[0]) then []
    else SentBy(s, After(s, steps[0])) + AllSent(After(s, steps[0]), steps[1..])
  }

  ghost function AllStarted(s: System, steps: seq<Step>): seq<CommandMsg>
    decreases |steps|
  {
    if steps == [] || !Enabled(s, steps[0]) then []
    else StartedBy(s, After(s, steps[0])) + AllStarted(After(s, steps[0]), steps[1..])
  }

  lemma OrderStep(s: System, step: Step)
    requires Enabled(s, step)
    ensures var s' := After(s, step);
            StartedBy(s, s') + (s'.jobs + s'.requests) == s.jobs + s.requests + SentBy(s, s')
  {
    match step
    case Receive => assert s.requests == [s.requests[0]] + s.requests[1..];
    case Take => assert s.jobs == [s.jobs[0]] + s.jobs[1..];
    case _ =>
  }

  /** Workers start the commands in the order in which they were sent, none left out and none twice. */
  lemma {:induction false} StartedInOrder(s: System, steps: seq<Step>, t: System)
    requires Steps(s, steps, t)
    ensures AllStarted(s, steps) + (t.jobs + t.requests) == s.jobs + s.requests + AllSent(s, steps)
    decreases |steps|
  {
    hide After, Enabled, SentBy, StartedBy;
    if steps != [] {
      var s' := After(s, steps[0]);
      OrderStep(s, steps[0]);
      StartedInOrder(s', steps[1..], t);
      Rejoin(StartedBy(s, s'), AllStarted(s', steps[1..]), t.jobs + t.requests, s'.jobs + s'.requests, AllSent(s', steps[1..]));
    }
  }

  lemma Rejoin(a: seq<CommandMsg>, b: seq<CommandMsg>, c: seq<CommandMsg>, d: seq<CommandMsg>, e: seq<CommandMsg>)
    requires b + c == d + e
    ensures (a + b) + c == (a + d) + e
  {
    assert (a + b) + c == a + (b + c);
    assert (a + d) + e == a + (d + e);
  }

  // The shared objects.

  /** Fields of the executor on both sides of the queues; each method is one atomic step. */
  class Executor {
    var currentCommandId: nat
    var requestQueue: seq<CommandMsg>
    var jobQueue: seq<CommandMsg>
    var working: seq<CommandMsg>
    var responseQueue: seq<AnswerMsg>
    ghost var callers: seq<Caller>
    ghost var finished: seq<nat>
    ghost var answered: seq<nat>

    ghost function View(): System
      reads this
    {
      System(currentCommandId, callers, requestQueue, jobQueue, working, responseQueue, finished, answered)
    }

    constructor ()
      ensures Init(View())
    {
      currentCommandId, requestQueue, jobQueue, working, responseQueue := 1, [], [], [], [];
      callers, finished, answered := [], [], [];
    }

    method GetUniqueCommandId(ghost request: Request) returns (id: nat)
      requires Inv(View())
      modifies this
      ensures View() == After(old(View()), Call(request)) && id == Id(|old(callers)|)
    {
      id := currentCommandId;
      if currentCommandId > 100_000 {
        currentCommandId := 1;
      } else {
        currentCommandId := currentCommandId + 1;
      }
      callers := callers + [Caller(request, Called)];
    }

    /** Puts a command on its way; tells whether the caller has to wait for an answer. */
    method SendCommand(k: nat, id: nat, request: Request) returns (wait: bool)
      requires Enabled(View(), Send(k)) && callers[k].request == request && id == Id(k)
      modifies this
      ensures View() == After(old(View()), Send(k)) && (wait <==> callers[k].phase == Waiting)
      ensures wait <==> request == GetOutput || request.timeout > 0
      ensures |requestQueue| == |old(requestQueue)| + 1 && requestQueue[|old(requestQueue)|].mtype == id
    {
      match request {
        case Execute(timeout) =>
          requestQueue := requestQueue + [CommandMsg(id, timeout, NO_ANSWER, k)];
          wait := timeout > 0;
        case GetOutput =>
          requestQueue := requestQueue + [CommandMsg(id, -1, SEND_OUTPUT, k)];
          wait := true;
      }
      callers := callers[k := callers[k].(phase := if wait then Waiting else Released)];
    }

    method AddJob()
      requires Enabled(View(), Receive)
      modifies this
      ensures View() == After(old(View()), Receive)
    {
      jobQueue := jobQueue + [requestQueue[0]];
      requestQueue := requestQueue[1..];
    }

    method PickJob()
      requires Enabled(View(), Take)
      modifies this
      ensures View() == After(old(View()), Take)
    {
      working := working + [jobQueue[0]];
      jobQueue := jobQueue[1..];
    }

    /** A worker is done with its command; it answers if the message asks for it. */
    method ProcessSingleChildCommand(w: nat)
      requires Enabled(View(), Finish(w))
      modifies this
      ensures View() == After(old(View()), Finish(w))
    {
      var msg := working[w];
      finished := finished + [msg.call];
      if msg.requestType == SEND_OUTPUT {
        responseQueue := responseQueue + [AnswerMsg(msg.mtype, msg.call)];
        answered := answered + [msg.call];
      } else if msg.timeout > 0 {
        responseQueue := responseQueue + [AnswerMsg(msg.mtype, msg.call)];
        answered := answered + [msg.call];
      }
      working := Without(working, w);
    }

    /** The first answer with the caller's id, if there is one yet. */
    method ReceiveAnswer(k: nat, id: nat) returns (found: bool, i: nat)
      requires k < |callers| && callers[k].phase == Waiting && id == Id(k)
      modifies this
      ensures found <==> exists j :: 0 <= j < |old(responseQueue)| && old(responseQueue)[j].mtype == id
      ensures found ==> old(Enabled(View(), Collect(k, i))) && View() == After(old(View()), Collect(k, i))
      ensures !found ==> View() == old(View())
    {
      found, i := FindAnswer(responseQueue, id);
      if found {
        callers := callers[k := callers[k].(phase := Answered(responseQueue[i].call))];
        responseQueue := Without(responseQueue, i);
      }
    }
  }

  method FindAnswer(answers: seq<AnswerMsg>, id: nat) returns (found: bool, i: nat)
    ensures found <==> exists j :: 0 <= j < |answers| && answers[j].mtype == id
    ensures found ==> FirstFor(answers, i, id)
  {
    i := 0;
    while i < |answers|
      invariant i <= |answers|
      invariant forall j | 0 <= j < i :: answers[j].mtype != id
    {
      if answers[i].mtype == id {
        return true, i;
      }
      i := i + 1;
    }
    found := false;
  }
}
