/** The sliding window of camera frames that feeds the identification, and the whole way from the
    blinking LED of a vehicle to the id that the pipeline reports for it. */
module IpsPipeline {
  import opened Bits
  import opened LedCode
  import opened DetectVehicleID

  const MAX_GAP_NANOS: nat := 25_000_000

  /** What one camera frame says about one vehicle: its time stamp, and whether the center LED was seen. */
  datatype Frame = Frame(stamp: nat, centerPresent: bool)

  /** Unsigned 64-bit difference, as the source computes it. */
  function Since(current: nat, previous: nat): (dt: nat)
    requires current < U64 && previous < U64
    ensures dt == if previous <= current then current - previous else U64 - (previous - current)
  {
    (current - previous) % U64
  }

  ghost predicate InRange(frames: seq<Frame>) {
    forall i | 0 <= i < |frames| :: frames[i].stamp < U64
  }

  /** Frame `i` follows its predecessor (time 0 before the first frame) closely enough. */
  ghost predicate Continues(frames: seq<Frame>, i: nat)
    requires i < |frames| && InRange(frames)
  {
    Since(frames[i].stamp, if i == 0 then 0 else frames[i - 1].stamp) <= MAX_GAP_NANOS
  }

  /** The LED sightings of the frames from `from` on, the oldest first. */
  function Lights(frames: seq<Frame>, from: nat): (lights: seq<bool>)
    requires from <= |frames|
    ensures |lights| == |frames| - from
  {
    seq(|frames| - from, i requires 0 <= i < |frames| - from => frames[from + i].centerPresent)
  }

  function Reversed(s: seq<bool>): (r: seq<bool>)
    ensures |r| == |s| && forall i | 0 <= i < |r| :: r[i] == s[|s| - 1 - i]
  {
    seq(|s|, i requires 0 <= i < |s| => s[|s| - 1 - i])
  }

  /** No gap from frame `start` to the newest, and `start` is the first frame or follows a gap. */
  ghost predicate TrackedSince(frames: seq<Frame>, start: nat)
    requires InRange(frames)
  {
    && start < |frames|
    && (start == 0 || !Continues(frames, start))
    && forall i | start < i < |frames| :: Continues(frames, i)
  }

  ghost predicate IsWindow(frames: seq<Frame>, timeseries: seq<bool>)
    requires InRange(frames)
  {
    forall start | TrackedSince(frames, start) :: timeseries == Lights(frames, WindowStart(frames, start))
  }

  class Pipeline {
    var timeseries: seq<bool>   // of one vehicle, the oldest frame first
    var previousStamp: nat
    const detector: Detector
    ghost var frames: seq<Frame>

    /** The window holds exactly the last 50 frames since the last gap. */
    ghost predicate Valid()
      reads this
    {
      && InRange(frames)
      && previousStamp == (if frames == [] then 0 else frames[|frames| - 1].stamp)
      && detector.periodTicks == IDENTIFICATION_LED_PERIOD_TICKS
      && detector.enabledTicks == IDENTIFICATION_LED_ENABLED_TICKS
      && (timeseries == [] <==> frames == [])
      && IsWindow(frames, timeseries)
    }

    constructor ()
      ensures Valid() && frames == []
    {
      detector := new Detector([1, 4, 7, 10, 13, 16, 7, 10, 13, 16, 19, 10, 13, 16, 19, 22, 13, 16, 19, 22, 25, 16, 19, 22, 25, 28],
                               [0, 2, 2, 2, 2, 2, 5, 5, 5, 5, 5, 8, 8, 8, 8, 8, 11, 11, 11, 11, 11, 14, 14, 14, 14, 14]);
      timeseries, previousStamp := [], 0;
      frames := [];
    }

    /** Takes one frame; returns the id found for the vehicle, 0 if none. */
    method Apply(frame: Frame) returns (id: nat)
      requires Valid() && frame.stamp < U64
      modifies this
      ensures Valid() && frames == old(frames) + [frame]
      ensures Decoded(IDENTIFICATION_LED_PERIOD_TICKS, IDENTIFICATION_LED_ENABLED_TICKS, Reversed(timeseries), id)
    {
      var dt := Since(frame.stamp, previousStamp);
      if dt > MAX_GAP_NANOS {
        timeseries := [];
      }
      previousStamp := frame.stamp;
      timeseries := timeseries + [frame.centerPresent];
      if |timeseries| > 50 {
        timeseries := timeseries[1..];
      }
      frames := frames + [frame];
      PushKeepsWindow(old(frames), frame, old(timeseries), timeseries);
      id := detector.Identify(Reversed(timeseries));
    }
  }

  function WindowStart(frames: seq<Frame>, start: nat): (from: nat)
    requires start < |frames|
    ensures start <= from < |frames| && |frames| - from <= MAX_FRAMES
    ensures from > start ==> |frames| - from == MAX_FRAMES
  {
    if |frames| - start > MAX_FRAMES then |frames| - MAX_FRAMES else start
  }

  /** Clearing at a gap, pushing, and dropping the 51st frame keeps the window. */
  lemma PushKeepsWindow(before: seq<Frame>, frame: Frame, was: seq<bool>, now: seq<bool>)
    requires InRange(before) && frame.stamp < U64 && IsWindow(before, was)
    requires (was == []) == (before == [])
    requires var kept := if Continues(before + [frame], |before|) then was else [];
             var pushed := kept + [frame.centerPresent];
             now == if |pushed| > 50 then pushed[1..] else pushed
    ensures IsWindow(before + [frame], now)
  {
    hide Since;
    forall start: nat | TrackedSince(before + [frame], start)
      ensures now == Lights(before + [frame], WindowStart(before + [frame], start))
    {
      TrackedBefore(before, frame, start);
      var from := WindowStart(before + [frame], start);
      if start < |before| {
        var earlier := WindowStart(before, start);
        LightsGrow(before, frame, earlier);
        assert from == earlier || from == earlier + 1;
      } else {
        LightsGrow(before, frame, start);
      }
    }
  }

  lemma LightsGrow(before: seq<Frame>, frame: Frame, from: nat)
    requires from <= |before|
    ensures Lights(before + [frame], from) == Lights(before, from) + [frame.centerPresent]
  {
  }

  lemma TrackedBefore(before: seq<Frame>, frame: Frame, start: nat)
    requires InRange(before) && frame.stamp < U64
    requires TrackedSince(before + [frame], start)
    ensures start == |before| || TrackedSince(before, start)
    ensures start == |before| > 0 ==> !Continues(before + [frame], start)
    ensures start < |before| ==> Continues(before + [frame], |before|)
  {
    var frames := before + [frame];
    assert forall i: nat | i < |before| :: Continues(frames, i) == Continues(before, i);
  }

  /** Since which frame the vehicle is tracked; there always is one. */
  lemma {:induction false} SomeStart(frames: seq<Frame>) returns (start: nat)
    requires InRange(frames) && frames != []
    ensures TrackedSince(frames, start)
  {
    start := |frames| - 1;
    while start > 0 && Continues(frames, start)
      invariant start < |frames|
      invariant forall i | start < i < |frames| :: Continues(frames, i)
    {
      start := start - 1;
    }
  }

  /** Frame `i` shows the LED of `id`, `|frames| - 1 - i` frames back, at the tick given by TickAt. */
  ghost predicate Blinks(frames: seq<Frame>, from: nat, id: nat, t: nat, d: nat, s: int)
    requires id < ID_COUNT
  {
    && from <= |frames|
    && forall back: nat | back < |frames| - from ::
         TickAt(t, d, s, back) >= 0 && frames[|frames| - 1 - back].centerPresent == Lit(id, TickAt(t, d, s, back))
  }

  /** What the newest frame completes: the frames from `from` on show id 1..25, one frame per tick
      without a gap in the stamps and with at most one frame dropped or recorded twice; they are
      44 or more, and all that the window can hold. */
  ghost predicate BlinkedInWindow(frames: seq<Frame>, from: nat, id: nat, t: nat, d: nat, s: int) {
    && InRange(frames) && frames != []
    && 1 <= id < ID_COUNT && (s == 0 || (1 <= d && (s == 1 || s == -1)))
    && Blinks(frames, from, id, t, d, s)
    && from + 44 <= |frames|
    && (forall i | from < i < |frames| :: Continues(frames, i))
    && (from + 50 <= |frames| || from == 0 || !Continues(frames, from))
  }

  /** From the LED to the report: whatever the decoder finds in the window after frames that show a
      blinking vehicle is the vehicle's id. */
  lemma ReportsBlinkedId(frames: seq<Frame>, timeseries: seq<bool>, from: nat, id: nat, t: nat, d: nat, s: int, reported: nat)
    requires BlinkedInWindow(frames, from, id, t, d, s)
    requires IsWindow(frames, timeseries) && timeseries != []
    requires Decoded(IDENTIFICATION_LED_PERIOD_TICKS, IDENTIFICATION_LED_ENABLED_TICKS, Reversed(timeseries), reported)
    ensures reported == id
  {
    hide Decoded;
    var start := SomeStart(frames);
    RoundTrip(Reversed(timeseries), id, t, d, s, reported);
  }

  /** The pipeline, knowing the frames only, reports every vehicle that blinks under its own id. */
  method ReportBlinkingVehicle(pipeline: Pipeline, frame: Frame,
                               ghost from: nat, ghost id: nat, ghost t: nat, ghost d: nat, ghost s: int) returns (reported: nat)
    requires pipeline.Valid() && frame.stamp < U64
    requires BlinkedInWindow(pipeline.frames + [frame], from, id, t, d, s)
    modifies pipeline
    ensures pipeline.Valid() && pipeline.frames == old(pipeline.frames) + [frame]
    ensures reported == id
  {
    reported := pipeline.Apply(frame);
    ReportsBlinkedId(pipeline.frames, pipeline.timeseries, from, id, t, d, s, reported);
  }

}
