# CPM Lab: verified models of its hardest components

A Dafny 4.11 project that models parts of the software of the CPM Lab, a laboratory of networked
model-scale vehicles, and proves what those parts promise. `dafny verify dfyconfig.toml` checks everything.

Code that changes fields or arrays step by step is modelled by classes and methods, each proved
against a specification function or relation; protocols are step systems over all interleavings;
formulas over floating-point numbers are modelled over the reals, and nanosecond times are exact integers.

- **LED conflict resolution** (`ConflictGraph`, `DetectVehicles`). Vehicle candidates that share LED
  points are the edges of a graph, kept as a matrix whose columns are zeroed while leaves are peeled
  off. At every moment the accepted candidates extend to a largest conflict-free set by any largest
  one of the unresolved rest; they are one themselves exactly if no warning is logged.
- **Logical time** (`TimerTrigger`, `TimerSimulated`, `LogicalTime`, `LogicalTimeProgress`,
  `LogicalTimeLiveness`). A coordinator and any number of participants over a network that loses,
  reorders and repeats messages: triggers never go back, participants run in lockstep, no callback is
  skipped or repeated, every round makes progress, and there always is a next round.
- **Localization with delayed observations** (`Localization`, `DelayedObservations`). A ring buffer of
  512 states that is patched and partly replayed gives the pose of a full replay of the history, so
  that the order of delivery does not matter.
- **CRC and SPI link** (`Bits`, `Crc`, `CrcExample`, `CrcDetection`, `SpiPackets`, `Spi`). The table-driven CRC is
  bit-serial division; it is affine and detects odd errors and bursts of 16 bits. On it, master and
  slave agree after at most three attempts, over a channel that changes any byte in either direction.
- **Identification LED** (`LedCode`, `DetectVehicleID`, `IpsPipeline`). What the firmware blinks is
  what the camera pipeline reports, from every phase, also with one frame lost or doubled.
- **Trajectories** (`RealProducts`, `SpeedProfile`, `PathSampling`, `TrajectoryCommand`, `GoToPlanner`).
  A trapezoidal speed profile is sampled onto a polyline and sent in slices; the go-to planner issues
  such trajectories one after another so that only one vehicle moves at a time.
- **TWI (I2C) master** (`TwiProtocol`, `Twi`). Interrupt handler and blocking calls, with a hardware
  that follows the last reply and any device.
- **Real-time timer** (`Remainders`, `TimerGrid`, `TimerFD`), **goal states in the middleware**
  (`GoalStates`, `GoalStatesOrder`), **commands to the child process** (`ProgramExecutor`), **reference for the model
  predictive controller** (`Hermite`, `MpcReference`).

Some promises turned out to hold under a condition only. The condition is proved to be exact, or a
concrete case shows that it is needed:

- the first deadline of the real-time timer is the least one on the grid if and only if the start is
  not before the offset or the period divides 2^64 (`FirstDeadlineIff`);
- a TWI read stays within its length if and only if the length is not 0 (`ReadSafeIffNonzero`); with
  length 0 it can run over the buffer (`ZeroLengthOverflows`);
- a sealed SPI packet passes the receiver's check if and only if its CRC field was 0 before
  (`SealedValidIffFieldZero`); the sender does not clear it, its caller has to;
- of two observations for one control step the first one wins, so their order is irrelevant if and
  only if they are equal (`FirstObservationWins`);
- goal states reach the HLCs exactly once, but in the order received if and only if none is passed on
  between flag and flush while others are buffered (`OrderKeptIff`, `OrderCanBreak`);
- few outstanding commands are not enough for distinct command ids (`TwoOutstandingClash`, `WrongAnswer`).
  Answers go to their own callers if every call of a waiting caller is made while the next id belongs
  to no outstanding call (`EachItsOwnAnswer`); a call without that guard makes a wrong answer possible
  (`GuardExact`, `SafeIffDistinct`);
- whole go-to trajectories can overlap, by up to the planning delay, under an exact condition on the
  planning times; their moving parts never do (`NeighboursOverlapIff`, `OverlapAtMost`, `OneMoverAtATime`).

Where comments and code differ, the model follows the code: the comment at
`mid_level_controller/src/MpcController.cxx:414` states the two range checks the wrong way round, and
the ready messages of `middleware/src/Communication.hpp:388-396` count for whatever number follows
their first four characters, whether or not those are "hlc_".

## Model

| member | source | states |
|---|---|---|
| ConflictGraph.Exchange | indoor_positioning_system/src/DetectVehicles.cpp:203-221 | exchange argument for the leaf rule: a candidate with at most one conflict belongs to some largest conflict-free set |
| ConflictGraph.MaximumIffAllResolved | indoor_positioning_system/src/DetectVehicles.cpp:174-239 | after any peeling, the accepted set is a largest conflict-free set if and only if nothing is unresolved |
| ConflictGraph.AlphaSplits | indoor_positioning_system/src/DetectVehicles.cpp:174-225 | at every point of the peeling the size of a largest conflict-free set is the number accepted plus that of the unresolved part |
| DetectVehicles.ArraysHaveCommonElement | indoor_positioning_system/src/DetectVehicles.cpp:270-290 | true if and only if the candidates share an LED point; a missing ID LED is none |
| DetectVehicles.DetermineConflicts | indoor_positioning_system/src/DetectVehicles.cpp:245-268 | the matrix has exactly the edges of the conflict graph |
| DetectVehicles.RowConflicts | indoor_positioning_system/src/DetectVehicles.cpp:186-194 | the columns set in a row, all of them, in ascending order |
| DetectVehicles.TakeLeaf | indoor_positioning_system/src/DetectVehicles.cpp:210-221 | zeroing two columns leaves in the unresolved rows exactly the graph on the unresolved candidates, which become fewer |
| DetectVehicles.Visit | indoor_positioning_system/src/DetectVehicles.cpp:179-223 | one visit keeps the peeling invariant and either resolves a candidate or leaves it stuck |
| DetectVehicles.TryLeaf | indoor_positioning_system/src/DetectVehicles.cpp:204-222 | a candidate with one conflict is accepted if and only if the other one has more, else both are an isolated pair and stuck |
| DetectVehicles.TakeIsolated | indoor_positioning_system/src/DetectVehicles.cpp:195-202 | accepting a candidate without conflicts keeps the peeling invariant although its column is not zeroed |
| DetectVehicles.Pass | indoor_positioning_system/src/DetectVehicles.cpp:176-225 | a pass without progress proves every unresolved candidate stuck; with progress the unresolved ones become fewer |
| DetectVehicles.ResolveConflicts | indoor_positioning_system/src/DetectVehicles.cpp:158-242 | the returned vehicles are candidates and pairwise share no LED point; there are as many as in a largest conflict-free choice if and only if no warning is due; each unresolved candidate has two unresolved conflicts or is half of an isolated pair |
| DetectVehicles.PointsAssignedOnce | indoor_positioning_system/src/DetectVehicles.cpp:195-221 | no two returned vehicles share an LED point, and every rejected candidate shares one with a returned vehicle |
| DetectVehicles.LargestIffNoWarning | indoor_positioning_system/src/DetectVehicles.cpp:227-241 | the result is a largest conflict-free choice if and only if no warning is due; otherwise it misses exactly what the unresolved part allows |
| TimerTrigger.Trigger.ObtainNewReadySignals | lab_control_center/src/TimerTrigger.cpp:87-149 | the new state is that of storing the samples one by one; tells whether any was valid |
| TimerTrigger.HighestReportKept | lab_control_center/src/TimerTrigger.cpp:101-134 | whatever the order and repetition, the stored timestep is the highest of the previous one and all valid reports |
| TimerTrigger.StatusExactStored | lab_control_center/src/TimerTrigger.cpp:109-133 | each status stays exactly the comparison of its timestep with simulated time; a report below the time is out of sync, one above it waits |
| TimerTrigger.StatusExactChecked | lab_control_center/src/TimerTrigger.cpp:198-208 | and still is after a trigger |
| TimerTrigger.Trigger.CheckSignalsAndSendNextSignal | lab_control_center/src/TimerTrigger.cpp:167-220 | the step triggers the minimum of all stored timesteps if it is not below the current time, and else changes nothing |
| TimerTrigger.SendsIffNobodyBehind | lab_control_center/src/TimerTrigger.cpp:167-217 | a trigger is sent if and only if simulated time runs, somebody has reported and nobody is behind |
| TimerTrigger.Trigger.SendStartSignal | lab_control_center/src/TimerTrigger.cpp:151-165 | simulated runs are only marked as started; real-time runs get a trigger one second ahead |
| TimerTrigger.Trigger.SendStopSignal | lab_control_center/src/TimerTrigger.cpp:222-237 | the stop symbol is sent and no further trigger can follow |
| TimerSimulated.Timer.HandleSystemTrigger | cpm_lib/src/TimerSimulated.cpp:39-87 | one call answers its samples in order: a callback on exact match, samples behind a stop are dropped; after a stop the timer is active if and only if it was and has a stop callback, and without one nothing ends it |
| TimerSimulated.Timer.Start | cpm_lib/src/TimerSimulated.cpp:89-134 | the whole run: ready signal until the first answer, then one call per batch; an active timer refuses |
| TimerSimulated.HandleKeeps | cpm_lib/src/TimerSimulated.cpp:43-76 | after any samples the callbacks are offset, offset + period, ... and nothing beyond the next deadline was announced |
| TimerSimulated.HandleFires | cpm_lib/src/TimerSimulated.cpp:47-61 | a delivered trigger for the current deadline moves the deadline on |
| TimerSimulated.AnswerTells | cpm_lib/src/TimerSimulated.cpp:39-87 | the timer is active behind a call exactly if it was, and no stop was answered or it has a stop callback; nothing is answered exactly if no sample is valid; unless a deadline or a stop is answered nothing has changed |
| TimerSimulated.NoStopGoesOn | cpm_lib/src/TimerSimulated.cpp:61-73 | without a stop signal among the samples the timer goes on |
| TimerSimulated.StopEndsCall | cpm_lib/src/TimerSimulated.cpp:61-73 | the first stop signal ends the call: samples before it count, those behind are dropped, and the timer is over exactly if it has no stop callback |
| TimerSimulated.StopChangesNothingElse | cpm_lib/src/TimerSimulated.cpp:61-73 | if nothing was due before it, only whether the timer is active changes |
| TimerSimulated.StopEndsRun | cpm_lib/src/TimerSimulated.cpp:126-133 | a timer that a stop has ended takes no notice of any further batch |
| LogicalTime.InvRun | lab_control_center/src/TimerTrigger.cpp:87-220 | the invariant of coordinator, participants and network holds in every state of every run |
| LogicalTime.TriggersNonDecreasing | lab_control_center/src/TimerTrigger.cpp:190-213 | of any two triggers of a run, stop signals apart, the later one is not smaller |
| LogicalTime.TriggerWaitsForCallbacks | lab_control_center/src/TimerTrigger.cpp:169-213 | when t is triggered every participant known to the coordinator has run all its callbacks below t |
| LogicalTime.CallbacksExact | cpm_lib/src/TimerSimulated.cpp:43-61 | each participant's callback times are exactly offset, offset + period, ..., under any loss, reordering and repetition |
| LogicalTime.Lockstep | cpm_lib/src/TimerSimulated.cpp:111-133 | once anybody has run a callback at t, everyone registered at the start has run all its callbacks below t |
| LogicalTime.NoTriggerWhileBehind | lab_control_center/src/TimerTrigger.cpp:190-196 | while a stored timestep is below the current time a check changes nothing |
| LogicalTimeProgress.RoundProgress | lab_control_center/src/TimerTrigger.cpp:167-220 | every round of fair delivery strictly lowers the number of callbacks due before a horizon, until there are none |
| LogicalTimeProgress.HorizonReached | cpm_lib/src/TimerSimulated.cpp:111-133 | after as many rounds as callbacks were due, every participant has run all of them |
| LogicalTimeLiveness.RoundExists | cpm_lib/src/TimerSimulated.cpp:116-133 | no deadlock: from every settled moment of a run with all participants alive another round is possible |
| LogicalTimeLiveness.HorizonReachable | lab_control_center/src/TimerTrigger.cpp:167-220 | any horizon can be reached from there |
| LogicalTimeLiveness.SettledReachable | cpm_lib/src/TimerSimulated.cpp:114-124 | from the beginning any set of participants can register, and the start then settles |
| LogicalTimeLiveness.AnyHorizonReachable | lab_control_center/src/TimerTrigger.cpp:87-220 | so from the beginning there is a run in which everybody runs all its callbacks before any horizon |
| Localization.Localization.GetState | mid_level_controller/src/Localization.hpp:49-53 | logical index 0 is the oldest state |
| Localization.Localization.WriteNextState | mid_level_controller/src/Localization.hpp:59-63 | overwrites the oldest state and makes the new one the newest |
| Localization.Localization.FindInBuffer | mid_level_controller/src/Localization.cxx:88-106 | the newest state at ring index 1 or above whose period covers the stamp, if it has no observation yet |
| Localization.Localization.Reprocess | mid_level_controller/src/Localization.cxx:108-115 | replaying from the patched state on makes every stored pose that of a full replay |
| Localization.Localization.Update | mid_level_controller/src/Localization.cxx:62-121 | the pose returned is that of filtering the whole history with all observations attached so far; a reset start moves down at most to below the patched step; an observation in time for the newest step enters its filter step, one of 10 s or more enters none |
| Localization.PoseStep | mid_level_controller/src/Localization.cxx:40-53 | each pose behind the replay start is one filter step from the previous sensors and pose, its own sensors and the observation attached to it |
| Localization.UpdateStep | mid_level_controller/src/Localization.cxx:71-113 | the newest pose takes in the observation that belongs to the newest step, and none if it is 10 s old |
| Localization.Localization.Reset | mid_level_controller/src/Localization.cxx:123-128 | all stored poses are zero and replay starts at the newest step |
| DelayedObservations.RunUpdates | mid_level_controller/src/Localization.cxx:62-121 | over a whole run without reset every returned pose is that of a full replay |
| DelayedObservations.HistoryHoldsArrivals | mid_level_controller/src/Localization.cxx:82-106 | if all observations arrive in time, at the end each control step has attached exactly the observation that belongs to it |
| DelayedObservations.DeliveryOrderIrrelevant | mid_level_controller/src/Localization.cxx:62-121 | two runs over the same steps in which the same observations arrive in time end with the same history, whatever the order and repetition |
| DelayedObservations.FirstObservationWins | mid_level_controller/src/Localization.cxx:96-104 | of two observations for one step the first is kept; their order is irrelevant if and only if they are equal |
| Crc.ReflectBits | low_level_controller/vehicle_atmega2560_firmware/crc.c:84-108 | reverses the lowest bits |
| Crc.Divide | low_level_controller/vehicle_atmega2560_firmware/crc.c:138-161 | a table entry is the remainder of its index followed by zeros |
| Crc.CrcInit | low_level_controller/vehicle_atmega2560_firmware/crc.c:127-169 | every table entry is that remainder |
| Crc.TableStep | low_level_controller/vehicle_atmega2560_firmware/crc.c:194-198 | one table lookup does what feeding eight bits to the division does |
| Crc.CrcFast | low_level_controller/vehicle_atmega2560_firmware/crc.c:183-205 | for every message the table-driven CRC is the one of bit-serial division with the same reflection, start and final values |
| Crc.ReflectedBit | low_level_controller/vehicle_atmega2560_firmware/crc.c:84-108 | reflection moves bit i to bit n - 1 - i |
| Crc.CrcReflectsRemainder | low_level_controller/vehicle_atmega2560_firmware/crc.c:203-205 | without the final value, bit i of the CRC is bit 15 - i of the remainder of the division |
| CrcExample.CrcOfOne | low_level_controller/vehicle_atmega2560_firmware/crc.c:183-205 | the CRC of the one byte 1 is 0x0EC2, worked out bit by bit |
| CrcDetection.CrcAffine | low_level_controller/vehicle_atmega2560_firmware/crc.c:183-205 | crc(a) ^ crc(b) ^ crc(c) = crc(a ^ b ^ c) for messages of one length |
| CrcDetection.DivideStepParity | low_level_controller/vehicle_atmega2560_firmware/crc.c:153-160 | a division step keeps the parity of the bits |
| Crc.DivideStepInjective | low_level_controller/vehicle_atmega2560_firmware/crc.c:153-160 | a division step maps different remainders to different ones |
| CrcDetection.OddErrorsDetected | low_level_controller/vehicle_atmega2560_firmware/crc.c:183-205 | messages of one length that differ in an odd number of bits have different CRCs |
| CrcDetection.BurstDetected | low_level_controller/vehicle_atmega2560_firmware/crc.c:183-205 | so have messages that differ only within 16 consecutive bits, at any alignment |
| CrcDetection.AdjacentBytesDetected | low_level_controller/vehicle_atmega2560_firmware/crc.c:183-205 | and those that differ only within two adjacent bytes |
| SpiPackets.SealedValidIffFieldZero | mid_level_controller/src/spi.c:77 | a sealed packet passes the receiver's check if and only if its CRC field was zero before |
| SpiPackets.Reply | low_level_controller/vehicle_atmega2560_firmware/spi.c:91-105 | a reply differs from the data only in its CRC field and in the fault bit of the status flags |
| SpiPackets.ReplyValid | low_level_controller/vehicle_atmega2560_firmware/spi.c:91-93 | both prepared replies pass the check |
| SpiPackets.DetectableDetected | mid_level_controller/src/spi.c:20-24 | an odd number of wrong bits, or wrong bits in two adjacent bytes inside or outside the CRC field, make a valid packet fail |
| Spi.Slave.BeginExchange | low_level_controller/vehicle_atmega2560_firmware/spi.c:85-121 | both replies are prepared and the one with the fault bit is sent first; both hold the data, all status flags but the fault bit included |
| Spi.Slave.TransferComplete | low_level_controller/vehicle_atmega2560_firmware/spi.c:66-70 | the byte is stored and the next reply byte loaded |
| Spi.Slave.Poll | low_level_controller/vehicle_atmega2560_firmware/spi.c:138-164 | a complete frame with a valid CRC is accepted, any other ignored, and the next exchange prepared |
| Spi.Attempt | mid_level_controller/src/spi.c:90-94 | 27 byte transfers: each side gets what the other sent, as the channel changed it |
| Spi.CheckCrcMiso | mid_level_controller/src/spi.c:20-24 | the check of a reply |
| Spi.TryOnce | mid_level_controller/src/spi.c:84-106 | one attempt: success if and only if the reply passes the check with the fault bit clear |
| Spi.TryThrice | mid_level_controller/src/spi.c:82-107 | at most three attempts, up to the first success |
| Spi.SpiTransfer | mid_level_controller/src/spi.c:68-111 | seals the packet and tries; reports the attempts made, the last reply and success as the attempts one by one determine them |
| Spi.SpiAgreement | mid_level_controller/src/spi.c:68-111 | unless the channel turns a packet into another valid one, the master reports success if and only if the command got through intact in one attempt and the reply in a later one; then the slave holds the command and the master the data with the fault bit clear; all other status flags are the slave's |
| Spi.QuietChannel | low_level_controller/vehicle_atmega2560_firmware/spi.c:115-163 | a channel without errors meets the conditions of the agreement, and a transfer over it takes exactly two attempts, because the reply to the first was prepared before the command arrived |
| Spi.CommandZeroOrValid | low_level_controller/vehicle_atmega2560_firmware/spi.c:140-157 | whatever the channel does, the slave's command is the last packet that arrived with a valid CRC in the attempts made, or all zeros if none did |
| Spi.DetectableRevealed | mid_level_controller/src/spi.c:20-24 | detectable errors are among those the agreement allows |
| LedCode.Led.SetState | low_level_controller/vehicle_atmega2560_firmware/led.c:43-50 | only a nonzero id of 8 bits replaces the id |
| LedCode.Led.Toggle | low_level_controller/vehicle_atmega2560_firmware/led.c:80-96 | in normal mode the LED is on for the first ticks of each period |
| LedCode.EntriesApart | low_level_controller/vehicle_atmega2560_firmware/led.c:23-35 | any two ids differ by at least 3 ticks in on-time or period |
| DetectVehicleID.Detector.FindEdges | indoor_positioning_system/src/DetectVehicleID.cpp:140-160 | exactly the changes between neighbouring frames, newest first |
| DetectVehicleID.Detector.Identify | indoor_positioning_system/src/DetectVehicleID.cpp:162-189 | the first id whose table entry is within 1 of both measured distances, or none |
| DetectVehicleID.DisturbedRuns | indoor_positioning_system/src/DetectVehicleID.cpp:140-174 | one frame lost or doubled moves each measured distance by at most one |
| DetectVehicleID.RoundTrip | indoor_positioning_system/src/DetectVehicleID.cpp:162-189 | for every id 1 to 25, every phase, 44 frames or more and at most one frame lost or doubled, the decoder returns the id blinked |
| IpsPipeline.PushKeepsWindow | indoor_positioning_system/src/IpsPipeline.cpp:40-61 | clearing at a gap, pushing and dropping the oldest keeps exactly the last 50 frames since the last gap |
| IpsPipeline.Pipeline.Apply | indoor_positioning_system/src/IpsPipeline.cpp:34-63 | one frame: the window holds the last 50 frames since the last gap, and the id is decoded from it with the same tables |
| IpsPipeline.ReportsBlinkedId | indoor_positioning_system/src/IpsPipeline.cpp:40-63 | the window after 44 frames or more that show an id blinking without a gap decodes to that id |
| IpsPipeline.ReportBlinkingVehicle | indoor_positioning_system/src/IpsPipeline.cpp:23-63 | the pipeline, which sees the frames only, reports such a vehicle under its id |
| SpeedProfile.Plan | lab_control_center/src/TrajectoryCommand.cpp:74-101 | for positive length the phases add up to the length at a top speed of at most 1.2, with or without cruising |
| SpeedProfile.NodeFromPhases | lab_control_center/src/TrajectoryCommand.cpp:108-148 | the phase-by-phase computation equals one formula in the times spent in each phase |
| SpeedProfile.DistanceGrows | lab_control_center/src/TrajectoryCommand.cpp:110-148 | the distance never decreases and never grows faster than the top speed |
| SpeedProfile.Boundaries | lab_control_center/src/TrajectoryCommand.cpp:110-148 | distance from 0 to the length, speed within [0, top speed], positive exactly between the two standstills |
| SpeedProfile.SpeedIsDerivative | lab_control_center/src/TrajectoryCommand.cpp:116-142 | the speed is the derivative of the distance, with an error of at most the square of the step |
| PathSampling.ComputeArcLengths | lab_control_center/src/TrajectoryCommand.cpp:64-71 | the arc length of every path point |
| PathSampling.FindNearest | lab_control_center/src/TrajectoryCommand.cpp:151-159 | the first path point nearest to the distance |
| PathSampling.NearestMonotone | lab_control_center/src/TrajectoryCommand.cpp:151-159 | travelling further never moves the nearest point backwards |
| PathSampling.SamePlace | lab_control_center/src/TrajectoryCommand.cpp:66-71 | points with the same arc length are at the same place |
| TrajectoryCommand.Sender.SetPath | lab_control_center/src/TrajectoryCommand.cpp:54-173 | a path of three points or more replaces the trajectory of its vehicle, and no other, by the samples of its profile; a shorter one changes nothing |
| TrajectoryCommand.Sender.SetPathSoon | lab_control_center/src/TrajectoryCommand.cpp:45-52 | without a delay given, the samples start 0.5 s from now |
| TrajectoryCommand.SampleAll | lab_control_center/src/TrajectoryCommand.cpp:105-168 | one sample every 0.1 s as long as the profile lasts |
| TrajectoryCommand.FromStartToEnd | lab_control_center/src/TrajectoryCommand.cpp:105-168 | every trajectory starts at the path's start and ends at its end, at rest, and visits the points in order |
| TrajectoryCommand.SpeedLimit | lab_control_center/src/TrajectoryCommand.cpp:110-165 | no sample is faster than 1.2 m/s, and those that move lie strictly between the standstills |
| TrajectoryCommand.AlongHeading | lab_control_center/src/TrajectoryCommand.cpp:151-165 | every sample is at its path point and moves along that point's heading with the speed of the profile, and not across it |
| TrajectoryCommand.StraightAhead | lab_control_center/src/TrajectoryCommand.cpp:161-165 | on a path with heading 0 nothing moves sideways, and what moves does so forward |
| TrajectoryCommand.Sender.Stop | lab_control_center/src/TrajectoryCommand.cpp:177-181 | forgets the trajectory of one vehicle |
| TrajectoryCommand.FindActive | lab_control_center/src/TrajectoryCommand.cpp:213-227 | the last point that is not after the time of validity |
| TrajectoryCommand.CommandFor | lab_control_center/src/TrajectoryCommand.cpp:196-245 | a command is made if and only if the trajectory has begun and lasts another second; it brackets the time of validity and covers the second after it in at most 20 points |
| TrajectoryCommand.Sender.SendTrajectory | lab_control_center/src/TrajectoryCommand.cpp:193-247 | such a command for every vehicle that is due and for no other |
| GoToPlanner.FirstMoveable | lab_control_center/src/GoToPlanner.cpp:106-142 | the first vehicle not at its goal that has a valid path |
| GoToPlanner.GoToPoses | lab_control_center/src/GoToPlanner.cpp:97-173 | greedy planning ends; each trajectory follows the plan for the first movable vehicle at its time; in the end no vehicle left has a valid path, or the next one's is empty; all trajectories are stored |
| GoToPlanner.PlannedOnce | lab_control_center/src/GoToPlanner.cpp:108-162 | each vehicle is planned at most once |
| GoToPlanner.PlannedFromEnds | lab_control_center/src/GoToPlanner.cpp:112-165 | each path is planned with every vehicle sent before at the end of its path, and all others where they were |
| GoToPlanner.OneMoverAtATime | lab_control_center/src/GoToPlanner.cpp:156-161 | with a clock that does not go back, moving intervals are disjoint, with 2 s between them |
| GoToPlanner.SamplesMoveApart | lab_control_center/src/GoToPlanner.cpp:97-173 | no commanded samples of different vehicles move within 2 s of each other |
| GoToPlanner.OverlapAtMost | lab_control_center/src/GoToPlanner.cpp:101-161 | whole trajectories overlap by less than the planning delay |
| GoToPlanner.NeighboursOverlapIff | lab_control_center/src/GoToPlanner.cpp:101-161 | whole trajectories of neighbours overlap if and only if the second is planned sooner after the first than the planning delay exceeds the durations before |
| GoToPlanner.FirstTwoOverlap | lab_control_center/src/GoToPlanner.cpp:101-161 | the first two do overlap when planned quickly |
| Twi.Driver.Isr | low_level_controller/vehicle_atmega2560_firmware/twi.c:421-495 | the effect of every bus event in master mode |
| TwiProtocol.Slarw | low_level_controller/vehicle_atmega2560_firmware/twi.c:189-190 | the address byte calls the device with the low seven bits of the address, for reading or writing |
| TwiProtocol.ReadKeeps | low_level_controller/vehicle_atmega2560_firmware/twi.c:466-495 | any event the hardware can raise adds the device's next byte to a read, or ends it with the bytes so far; all bytes exactly after a NACK |
| TwiProtocol.NackExactlyForLast | low_level_controller/vehicle_atmega2560_firmware/twi.c:466-477 | a NACK is requested exactly for the last byte |
| TwiProtocol.ReadSafeIffNonzero | low_level_controller/vehicle_atmega2560_firmware/twi.c:179-181 | in every run the index stays within the length if and only if the length is not 0 |
| TwiProtocol.ZeroLengthRunsOver | low_level_controller/vehicle_atmega2560_firmware/twi.c:179-181 | with length 0 a run stores a byte that was not asked for |
| TwiProtocol.ZeroLengthOverflows | low_level_controller/vehicle_atmega2560_firmware/twi.c:466-469 | and goes on: in a run of 33 acknowledged bytes the last one arrives when the buffer is full |
| TwiProtocol.ReadingNothingKeeps | low_level_controller/vehicle_atmega2560_firmware/twi.c:466-495 | a read of length 0 never ends but by a failure, or by the byte that does not fit |
| TwiProtocol.WriteKeeps | low_level_controller/vehicle_atmega2560_firmware/twi.c:432-464 | any event hands the next byte to the device, or ends the write: without an error exactly if the device took all bytes |
| Twi.Driver.ReadFrom | low_level_controller/vehicle_atmega2560_firmware/twi.c:161-224 | returns the device's bytes in order, all of them exactly after a NACK, within length + 2 interrupts, and leaves no repeated start pending after a stop; with length 0 it returns nothing and ends with a failure or by overrunning the buffer; all bytes come from the addressed device, and without a failure the transfer ends with a stop if asked for, else with the next start held |
| Twi.Driver.WriteTo | low_level_controller/vehicle_atmega2560_firmware/twi.c:241-305 | code 0 if and only if the device took all bytes, the other codes name the refusal; the bytes went to the addressed device, and without a failure the transfer ends with a stop if asked for, else with the next start held |
| Twi.ReadRegister | low_level_controller/vehicle_atmega2560_firmware/imu.c:161-168 | a register write without stop and a read with stop succeed exactly if the write ends acknowledged and the read with the NACK for the last byte, so always when no event is a failure; then the bytes are all the device gives for that register; the driver is left ready with no start pending; register and bytes are those of the addressed device |
| TimerGrid.FirstDeadlineIff | cpm_lib/src/TimerFD.cpp:172-177 | the first deadline is the least time from the start on that is on the grid, if and only if the start is not before the offset or the period divides 2^64 |
| TimerFD.CatchUp | cpm_lib/src/TimerFD.cpp:186-201 | moves the deadline past the present and counts exactly the deadlines that are over |
| TimerFD.Timer.Start | cpm_lib/src/TimerFD.cpp:137-218 | each callback gets the next deadline of the grid in the first round that is not before it; misses reported are exactly the deadlines over |
| TimerFD.FiredInOrder | cpm_lib/src/TimerFD.cpp:183-201 | callbacks get strictly increasing times on the grid, none early |
| TimerFD.FiredOrMissed | cpm_lib/src/TimerFD.cpp:183-201 | every deadline passed was called back once or reported as missed once, and then was over |
| TimerFD.Accounted | cpm_lib/src/TimerFD.cpp:191-201 | deadlines passed are callbacks plus reported misses |
| GoalStates.Communication.PassOne | middleware/src/Communication.hpp:324-338 | one sample under the mutex: written if the flag is set, else buffered |
| GoalStates.Communication.BeginCheck | middleware/src/Communication.hpp:344-376 | done if the flag is set, else the ids still offline |
| GoalStates.Communication.TakeReadyMessages | middleware/src/Communication.hpp:386-405 | every message with a number puts that number, in 8 bits, online |
| GoalStates.Communication.FlushBuffer | middleware/src/Communication.hpp:415-419 | everything buffered is written in order and the buffer emptied |
| GoalStates.InvStep | middleware/src/Communication.hpp:324-421 | the invariant of buffer, written samples, flag and reports is kept by every step of either thread |
| GoalStates.ExactlyOnce | middleware/src/Communication.hpp:324-421 | over all interleavings each sample received is still to be handled, buffered or written, once; after the flush none is buffered; the flag is set only once every assigned id has reported |
| GoalStates.OnlineOnceFlushed | middleware/src/Communication.hpp:344-421 | the check tells that all are online only after the flush and when all assigned ids have reported, and every call after the flush does |
| GoalStates.WrittenStays | middleware/src/Communication.hpp:324-421 | what is written stays written, and a flushed buffer stays empty |
| GoalStatesOrder.OrderKeptIff | middleware/src/Communication.hpp:324-421 | different samples are written in the order received if and only if none is passed on while the flag is raised and the buffer not empty |
| GoalStatesOrder.OrderKeptIffCommutes | middleware/src/Communication.hpp:409-419 | with equal samples among them: if and only if those between flag and flush commute with the buffered ones |
| GoalStatesOrder.OrderCanBreak | middleware/src/Communication.hpp:344-421 | for every set of assigned ids a run in which two samples are swapped |
| GoalStates.FlagComes | middleware/src/Communication.hpp:370-409 | once all assigned ids have reported, the waiting ends within three calls of the check |
| ProgramExecutor.Executor.GetUniqueCommandId | lab_control_center/src/ProgramExecutor.cpp:162-180 | ids run from 1 to 100001 and start again |
| ProgramExecutor.Executor.SendCommand | lab_control_center/src/ProgramExecutor.cpp:279-335 | the command is queued, and the caller waits if it set a timeout or wants output |
| ProgramExecutor.Executor.AddJob | lab_control_center/src/ProgramExecutor.cpp:182-193 | the oldest request becomes the newest job |
| ProgramExecutor.Executor.PickJob | lab_control_center/src/ProgramExecutor.cpp:195-220 | a worker takes the oldest job |
| ProgramExecutor.Executor.ProcessSingleChildCommand | lab_control_center/src/ProgramExecutor.cpp:241-277 | an answer is sent if the message asks for output or has a timeout |
| ProgramExecutor.Executor.ReceiveAnswer | lab_control_center/src/ProgramExecutor.cpp:577-589 | takes the first answer with the id, if there is one |
| ProgramExecutor.AnswersIffWaits | lab_control_center/src/ProgramExecutor.cpp:241-335 | the child's test for an answer agrees with the caller's decision to wait |
| ProgramExecutor.InvStep | lab_control_center/src/ProgramExecutor.cpp:162-346 | over all interleavings each command sent is on its way or executed, once; it is answered, once, if and only if its caller waits |
| ProgramExecutor.StartedInOrder | lab_control_center/src/ProgramExecutor.cpp:182-220 | over all interleavings the workers start the commands in the order in which they were sent, none left out and none twice |
| ProgramExecutor.EachItsOwnAnswer | lab_control_center/src/ProgramExecutor.cpp:162-346 | if each call of a waiting caller is made while the next id belongs to no outstanding call, whoever waits gets the answer of its own command, at most once, and nobody else is answered |
| ProgramExecutor.AlwaysDistinctIff | lab_control_center/src/ProgramExecutor.cpp:162-180 | no two outstanding calls share an id throughout a run if and only if every call of a waiting caller meets that guard |
| ProgramExecutor.PromptGetOwnAnswers | lab_control_center/src/ProgramExecutor.cpp:162-346 | so everybody gets its own answer in every run in which no call is still outstanding when the 100001st call after it is made |
| ProgramExecutor.SafeIffDistinct | lab_control_center/src/ProgramExecutor.cpp:162-346 | in every reachable state without a wrong answer, the calls made so far can only get their own answers if and only if no two outstanding ones share an id |
| ProgramExecutor.GuardExact | lab_control_center/src/ProgramExecutor.cpp:162-346 | the guard is exact: a call of a waiting caller keeps a safe reachable state safe if and only if the next id is free |
| ProgramExecutor.ClashGoesWrong | lab_control_center/src/ProgramExecutor.cpp:195-277 | from a state in which two calls wait for one id, the child's steps alone lead to a wrong answer |
| ProgramExecutor.SameIdIff | lab_control_center/src/ProgramExecutor.cpp:162-180 | two calls share an id if and only if a multiple of 100001 calls lies between them |
| ProgramExecutor.RecentAreDistinct | lab_control_center/src/ProgramExecutor.cpp:162-180 | a run in which no call is outstanding when the 100001st call after it is made meets the guard at every call |
| ProgramExecutor.WrongAnswer | lab_control_center/src/ProgramExecutor.cpp:162-346 | a whole run from the start in which a caller gets the answer of another call, with two calls outstanding |
| ProgramExecutor.TwoOutstandingClash | lab_control_center/src/ProgramExecutor.cpp:162-180 | a run in which the only two outstanding calls share an id |
| Hermite.EndsMatch | mid_level_controller/src/TrajectoryInterpolation.cxx:12-56 | at its ends a segment has the points' positions and velocities |
| Hermite.SegmentsMeet | mid_level_controller/src/TrajectoryInterpolation.cxx:12-56 | neighbouring segments meet with equal position and velocity |
| Hermite.ExactDerivatives | mid_level_controller/src/TrajectoryInterpolation.cxx:12-56 | velocity and acceleration are the exact derivatives in time: Taylor's formula holds with a constant jerk |
| Hermite.ReproducesCubics | mid_level_controller/src/TrajectoryInterpolation.cxx:29-49 | any cubic motion that agrees at both ends is reproduced |
| Hermite.UniformReproduced | mid_level_controller/src/TrajectoryInterpolation.cxx:12-56 | between two points of a uniform straight motion the interpolation is that motion, with acceleration 0 |
| MpcReference.LookupSound | mid_level_controller/src/MpcController.cxx:374-428 | once both range checks pass, all three assertions hold at all six sample times, for points in any order, with a segment of positive length |
| MpcReference.ChecksExact | mid_level_controller/src/MpcController.cxx:376-398 | for sorted points the checks pass if and only if every sample time has a segment |
| MpcReference.FindEnd | mid_level_controller/src/MpcController.cxx:415-423 | the first point from the second on that is not before the sample time |
| MpcReference.InterpolateReferenceTrajectory | mid_level_controller/src/MpcController.cxx:351-469 | succeeds if and only if both checks pass and all six interpolations are drivable; then the outputs are their positions |
| MpcReference.UniformMotionReferences | mid_level_controller/src/MpcController.cxx:366-469 | for a uniform straight motion the six references are its positions 110, 160, ..., 360 ms from now |
| MpcReference.TurningDrivableIff | mid_level_controller/src/MpcController.cxx:432-462 | a motion of speed v that turns at rate w has curvature w / v, and is drivable exactly if its acceleration is at most 20 in either component and, above 0.1 m/s, the curvature at most 50 |
| MpcReference.SentCommandUsable | mid_level_controller/src/MpcController.cxx:362-398 | a command as the lab control center sends it passes both checks from 190 ms to 940 ms after it was made |

## Left out

- DDS readers, writers and quality of service, wait sets, mutexes as such, logging, sleeps and thread
  creation: messages are values, and interleavings are sequences of atomic steps.
- Overflow of simulated time, deadlines and time stamps in 64 bits, except in the first deadline of the
  real-time timer and in the frame distance of the pipeline, where it is modelled.
- Floating-point rounding: speeds, distances and interpolations are real numbers; sine, cosine and square
  root enter through their defining equations only.
- Geometric candidate search and angle tests in `DetectVehicles`, proximity tracking in `DetectVehicleID`,
  undistortion and pose calculation: the decoder gets one history per vehicle.
- The formulas of the localization filter step: it is any function of the previous state and the current
  inputs that keeps the zero pose of an idle vehicle.
- Slave-mode TWI, the test and safe modes of the LEDs, the watchdog, leaving an SPI exchange early when
  the master releases the line or in safe mode.
- The vehicle's other controllers, the MPC optimization, vehicle dynamics, parameter handling, aggregators
  with a time to live, user interface, deployment, the shell commands themselves.
- Stop and destructor races of the timers; what user callbacks do.
- The ready signal that the middleware sends while no experiment runs, and the time stamps the coordinator
  keeps for display.
- Failing message queue operations and the `EXIT` command of the program executor.
- TimerFD.Timer.Start: reports the number of periods missed as a natural number, not truncated to an `int`.
- Twi.Driver.ReadFrom: ends at the byte that the source would store behind its buffer, which only length 0 leads to; what is overwritten there is not modelled.
- LedCode.Led.Toggle: requires an id below 26; the source takes any 8-bit id and reads behind its tables for the others.
- GoToPlanner.GoToPoses: ends at a valid path without points, of which the source takes the last one unchecked; the duration of a path that is all in one place can be any number.
- TrajectoryCommand.Sender.SetPath: a path of length 0 reports an undefined duration, because the source converts a NaN to an integer; the check for a missing timer is not modelled.
- MpcReference.InterpolateReferenceTrajectory: what the output vectors hold after a failure is not stated.
- Twi.ReadRegister: `ok` is one of the checks of the callers in `imu.c`; their conversions of the bytes are not modelled.
- LogicalTimeProgress.RoundProgress: progress is stated between settled moments, at which everything sent has been delivered; LogicalTimeLiveness.RoundExists shows that there always is a next one.
- DetectVehicleID.RoundTrip: at most one frame dropped or doubled within the window; two such faults exceed the decoder's tolerance and are not described.
