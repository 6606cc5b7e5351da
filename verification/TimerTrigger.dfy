/** The coordinator of logical time: it keeps the highest ready signal of every participant and
    triggers the smallest of them. */
module TimerTrigger {

  /** The system trigger value that means "stop". */
  const TRIGGER_STOP_SYMBOL: nat := 0xffff_ffff_ffff_ffff

  datatype Status = WORKING | OUT_OF_SYNC | WAITING | REALTIME

  datatype TimerData = TimerData(nextTimestep: nat, status: Status)

  type Storage = map<string, TimerData>

  /** One sample of the ready status reader; invalid samples carry no data. */
  datatype ReadySample = ReadySample(valid: bool, id: string, nextStart: nat)

  /** The coordinator's fields and the system triggers it has written so far. */
  datatype Coordinator = Coordinator(simulated: bool, started: bool, running: bool, now: nat, storage: Storage, log: seq<nat>)

  function StatusAt(simulated: bool, next: nat, now: nat): Status {
    if !simulated then REALTIME
    else if next == now then WORKING
    else if next < now then OUT_OF_SYNC
    else WAITING
  }

  /** Effect of one ready sample: outdated reports are ignored. */
  function Store(c: Coordinator, s: ReadySample): Coordinator {
    if s.valid && (s.id in c.storage ==> c.storage[s.id].nextTimestep <= s.nextStart) then
      c.(storage := c.storage[s.id := TimerData(s.nextStart, StatusAt(c.simulated, s.nextStart, c.now))])
    else c
  }

  function StoreAll(c: Coordinator, samples: seq<ReadySample>): Coordinator {
    if samples == [] then c else Store(StoreAll(c, samples[..|samples| - 1]), samples[|samples| - 1])
  }

  ghost predicate IsMinimum(storage: Storage, t: nat) {
    && (exists id :: id in storage && storage[id].nextTimestep == t)
    && (forall id | id in storage :: t <= storage[id].nextTimestep)
  }

  ghost predicate Sends(c: Coordinator, t: nat) {
    c.simulated && c.running && IsMinimum(c.storage, t) && c.now <= t
  }

  function MarkWorking(storage: Storage, now: nat): Storage {
    map id | id in storage ::
      if storage[id].nextTimestep == now then storage[id].(status := WORKING) else storage[id]
  }

  function Triggered(c: Coordinator, t: nat): Coordinator {
    c.(now := t, storage := MarkWorking(c.storage, t), log := c.log + [t])
  }

  /** The step of `check_signals_and_send_next_signal` as a relation. */
  ghost predicate Checked(c: Coordinator, c': Coordinator) {
    || (exists t :: Sends(c, t) && c' == Triggered(c, t))
    || ((forall t :: !Sends(c, t)) && c' == c)
  }

  /** In simulated mode each status is exactly the comparison of its timestep with the time. */
  ghost predicate StatusExact(c: Coordinator) {
    forall id | id in c.storage ::
      var d := c.storage[id];
      if c.simulated then
        && (d.status == WORKING <==> d.nextTimestep == c.now)
        && (d.status == OUT_OF_SYNC <==> d.nextTimestep < c.now)
        && (d.status == WAITING <==> d.nextTimestep > c.now)
      else d.status == REALTIME
  }

  class Trigger {
    const useSimulatedTime: bool
    var simulationStarted: bool
    var timerRunning: bool
    var currentSimulatedTime: nat
    var readyStatusStorage: Storage
    var systemTriggers: seq<nat>

    function State(): Coordinator
      reads this
    {
      Coordinator(useSimulatedTime, simulationStarted, timerRunning, currentSimulatedTime, readyStatusStorage, systemTriggers)
    }

    constructor (simulatedTime: bool)
      ensures State() == Coordinator(simulatedTime, false, true, 0, map[], [])
    {
      useSimulatedTime := simulatedTime;
      simulationStarted := false;
      timerRunning := true;
      currentSimulatedTime := 0;
      readyStatusStorage := map[];
      systemTriggers := [];
    }

    method ObtainNewReadySignals(samples: seq<ReadySample>) returns (anyMessageReceived: bool)
      modifies this
      ensures State() == StoreAll(old(State()), samples)
      ensures anyMessageReceived <==> exists k :: 0 <= k < |samples| && samples[k].valid
    {
      anyMessageReceived := false;
      for k := 0 to |samples|
        invariant State() == StoreAll(old(State()), samples[..k])
        invariant anyMessageReceived <==> exists j :: 0 <= j < k && samples[j].valid
      {
        var sample := samples[k];
        if sample.valid {
          anyMessageReceived := true;
          var storageStartRequest := 0;
          if sample.id in readyStatusStorage {
            storageStartRequest := readyStatusStorage[sample.id].nextTimestep;
          }
          if sample.nextStart >= storageStartRequest {
            var status;
            if sample.nextStart == currentSimulatedTime && useSimulatedTime {
              status := WORKING;
            } else if sample.nextStart < currentSimulatedTime && useSimulatedTime {
              status := OUT_OF_SYNC;
            } else if sample.nextStart > currentSimulatedTime && useSimulatedTime {
              status := WAITING;
            } else {
              status := REALTIME;
            }
            readyStatusStorage := readyStatusStorage[sample.id := TimerData(sample.nextStart, status)];
          }
        }
        assert samples[..k + 1][..k] == samples[..k];
      }
      assert samples[..|samples|] == samples;
    }

    method CheckSignalsAndSendNextSignal() returns (sent: bool)
      modifies this
      ensures Checked(old(State()), State())
      ensures sent <==> exists t :: Sends(old(State()), t)
    {
      if useSimulatedTime && timerRunning {
        var nextSimulatedTime := 0;
        var hasData := false;
        var rest := readyStatusStorage.Keys;
        while rest != {}
          invariant rest <= readyStatusStorage.Keys
          invariant hasData <==> rest != readyStatusStorage.Keys
          invariant hasData ==> exists id :: id in readyStatusStorage && readyStatusStorage[id].nextTimestep == nextSimulatedTime
          invariant forall id | id in readyStatusStorage && id !in rest :: nextSimulatedTime <= readyStatusStorage[id].nextTimestep
        {
          var id :| id in rest;
          if !hasData || nextSimulatedTime > readyStatusStorage[id].nextTimestep {
            nextSimulatedTime := readyStatusStorage[id].nextTimestep;
            hasData := true;
          }
          rest := rest - {id};
        }
        if !hasData {
          return false;
        }
        MinimumUnique(readyStatusStorage, nextSimulatedTime);
        if nextSimulatedTime < currentSimulatedTime {
          return false;
        }
        assert Sends(old(State()), nextSimulatedTime);
        currentSimulatedTime := nextSimulatedTime;
        MarkParticipants();
        systemTriggers := systemTriggers + [currentSimulatedTime];
        return true;
      }
      return false;
    }

    /** Sets every participant to "working" that waited for the current time. */
    method MarkParticipants()
      modifies this`readyStatusStorage
      ensures readyStatusStorage == MarkWorking(old(readyStatusStorage), currentSimulatedTime)
    {
      ghost var before := readyStatusStorage;
      var rest := readyStatusStorage.Keys;
      while rest != {}
        invariant readyStatusStorage.Keys == before.Keys && rest <= before.Keys
        invariant forall id | id in before ::
                    readyStatusStorage[id] == if id in rest then before[id] else MarkWorking(before, currentSimulatedTime)[id]
      {
        var id :| id in rest;
        if readyStatusStorage[id].nextTimestep == currentSimulatedTime {
          readyStatusStorage := readyStatusStorage[id := readyStatusStorage[id].(status := WORKING)];
        }
        rest := rest - {id};
      }
    }

    /** Starting a real-time run triggers one second ahead and ends the coordinator's work. */
    method SendStartSignal(wallClock: nat)
      modifies this
      ensures State() == if useSimulatedTime then old(State()).(started := true)
                         else old(State()).(running := false, log := old(State()).log + [wallClock + 1_000_000_000])
    {
      if useSimulatedTime {
        simulationStarted := true;
      } else {
        systemTriggers := systemTriggers + [wallClock + 1_000_000_000];
        timerRunning := false;
      }
    }

    method SendStopSignal()
      modifies this
      ensures State() == Stopped(old(State())) && !State().running
      ensures systemTriggers == old(systemTriggers) + [TRIGGER_STOP_SYMBOL]
    {
      systemTriggers := systemTriggers + [TRIGGER_STOP_SYMBOL];
      timerRunning := false;
    }
  }

  function Stopped(c: Coordinator): Coordinator {
    c.(running := false, log := c.log + [TRIGGER_STOP_SYMBOL])
  }

  lemma MinimumUnique(storage: Storage, t: nat)
    requires IsMinimum(storage, t)
    ensures forall u | IsMinimum(storage, u) :: u == t
  {
  }

  /** A trigger is sent exactly when simulated time runs, somebody has reported, and no stored
      timestep is below the current time. */
  lemma SendsIffNobodyBehind(c: Coordinator)
    ensures (exists t :: Sends(c, t)) <==>
            c.simulated && c.running && c.storage != map[] && forall id | id in c.storage :: c.now <= c.storage[id].nextTimestep
  {
    if c.storage != map[] {
      var t := LeastTimestep(c.storage, c.storage.Keys);
      MinimumUnique(c.storage, t);
      assert Sends(c, t) <==> c.simulated && c.running && c.now <= t;
    }
  }

  lemma LeastTimestep(storage: Storage, ids: set<string>) returns (t: nat)
    requires ids != {} && ids <= storage.Keys
    ensures exists id :: id in ids && storage[id].nextTimestep == t
    ensures forall id | id in ids :: t <= storage[id].nextTimestep
  {
    var id :| id in ids;
    t := storage[id].nextTimestep;
    if ids != {id} {
      var u := LeastTimestep(storage, ids - {id});
      t := if u < t then u else t;
    }
  }

  ghost predicate Reports(samples: seq<ReadySample>, id: string, t: nat) {
    exists k :: 0 <= k < |samples| && samples[k] == ReadySample(true, id, t)
  }

  /** After any batch, in any order and with any repetition, the stored timestep of a participant
      is the highest of its previous one and its valid reports. */
  lemma {:induction false} HighestReportKept(c: Coordinator, samples: seq<ReadySample>, id: string)
    ensures var c' := StoreAll(c, samples);
            && c' == c.(storage := c'.storage)
            && (id in c'.storage <==> id in c.storage || exists t: nat :: Reports(samples, id, t))
            && (id in c'.storage ==>
                  var next := c'.storage[id].nextTimestep;
                  && (Reports(samples, id, next) || (id in c.storage && c.storage[id].nextTimestep == next))
                  && (id in c.storage ==> c.storage[id].nextTimestep <= next)
                  && (forall t: nat | Reports(samples, id, t) :: t <= next))
  {
    if samples != [] {
      var init, last := samples[..|samples| - 1], samples[|samples| - 1];
      HighestReportKept(c, init, id);
      assert forall t: nat :: Reports(samples, id, t) <==> Reports(init, id, t) || last == ReadySample(true, id, t);
      if last.valid && last.id == id {
        assert Reports(samples, id, last.nextStart);
      }
    }
  }

  lemma {:induction false} StatusExactStored(c: Coordinator, samples: seq<ReadySample>)
    requires StatusExact(c)
    ensures StatusExact(StoreAll(c, samples))
  {
    if samples != [] {
      var init := samples[..|samples| - 1];
      StatusExactStored(c, init);
      HighestReportKept(c, init, "");
    }
  }

  lemma StatusExactChecked(c: Coordinator, c': Coordinator)
    requires StatusExact(c) && Checked(c, c')
    ensures StatusExact(c')
  {
  }
}
