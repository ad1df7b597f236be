# Verification of the board support software

This project models the hard parts of the software that ships with the boards and proves what they are for. It is
written for Dafny 4.11; `dafny verify dfyconfig.toml` checks all of it.

| file | models |
|---|---|
| `SccManager.dfy`, `Deskew.dfy`, `DmCentre.dfy`, `WriteCentre.dfy` | per-bit deskew, centring and data-mask centring of the DDR3 calibration sequencer |
| `DqsEnable.dfy`, `DqsWindow.dfy` | the DQS enable search and the VFIFO pointer, and what the search makes of a repeatable memory |
| `RwManager.dfy` | the micro-programs of the read/write manager, the delays and the power-up waits |
| `ReadTest.dfy` | the read test and its bit mask |
| `Calibrate.dfy`, `CalibrationLog.dfy`, `CalibrationRuns.dfy` | the whole calibration run and what it publishes, what its log tells about the VFIFO stage, and what whole runs guarantee |
| `TclDebug.dfy` | the debug command handshake with the host |
| `I2c.dfy`, `D5m.dfy` | the I2C master driver and 16-bit camera registers on top of it |
| `Caches.dfy`, `Interrupts.dfy`, `WallClock.dfy` | cache flushes, interrupt dispatch and the time of day of the HAL |
| `Modular.dfy` | division with remainder |

## How it is modelled

Hardware is state with an arbitrary but fixed behaviour. A memory test is answered by a function of the test number and
of all settings, so it may be noisy; repeatability is assumed only where a lemma says so (`Deskew.OffsetOnly`,
`DmCentre.Repeatable`, `DqsWindow.OneInterval`, `CalibrationLog.SearchDecides`). The slave on the I2C bus answers by a
function of everything that has gone over the bus. The debug handshake is a state machine whose steps are single
accesses of one party to the shared words, so all interleavings are covered. Delay maxima, widths, rank, group and
shadow register counts are parameters; 312 ps and 25 ps taps are the configured constants. Bit masks are sets of bit
numbers. C truncation, wrap-around at 32 bits and the 8 and 16 bit counters are written out where they matter.

The DQS enable search keeps, beside its log of events, the sets of settings at which a read test failed or worked;
`Phy.Valid` ties both sets to the log and the log to the memory, and each step says what it found in terms of them. The
calibration run keeps a log of every question put to the hardware with its answer. It is tied to
`Calibrate.Calibration`, a function of the answers. What that function must come to is stated without it: `Phased`,
`Allows` and `InSweep` say which questions the VFIFO stage may ask in which order, `Backs` and `Fails` which events a
stage that passed or failed has left, and `PassedRun` and `FailedRun` that the log of a whole run is made of them.

## Where the code does not do what one would expect

Each of these is proved, and the code is modelled as it is.

- A pin that fails every left-sweep test but passes the first right-sweep test is reported as having no window.
  `Deskew.NoEdgeIffMissed` gives the exact condition, `Deskew.MarginalPinCanBeMissed` an instance.
- The upper clamp reads delay register number i instead of the register of the pin. A pin that wants more than the
  last tap ends at the maximum less what that register holds. `Deskew.CentringNearest` gives the exact condition under
  which a pin is not put as near to its middle as it could be, `Deskew.UpperClampFallsShort` an instance. It needs more
  than one read group in a write group, since the registers of the first group hold 0 at that time; range and margins
  hold regardless.
- The write side leaves DQS where the sweep stopped when a pin has no window (`Deskew.CentreGroup`); the read side
  restores it. `Deskew.DqsRestoredIff` says when it is back nevertheless, `Deskew.DeadMemoryMovesDqs` is an instance.
- `set_failing_group_stage` is given a pin number for a missing pin, and a group number otherwise, so that on the write
  side pin 3 of group 0 and group 3 are recorded alike. `CalibrationRuns.PinReportedAsGroup` says when the number is that of
  the group.
- The recorded end of the DQS enable window is one phase tap short iff the first working phase is 1
  (`DqsEnable.EndExactIff`). In terms of a memory with one passing interval `DqsWindow.OneIntervalIsFound` gives the
  exact condition, `DqsWindow.BeginAtPhase0IsShort` an instance. When the phase after the first working one fails, the
  begin is taken for fuzzy and moved past a short interval (`DqsWindow.AccurateIff`).
- The VFIFO stage does not sweep the DQS input delays for each output phase: a phase starts where the last attempt of
  the one before left DQS (`CalibrationLog.SweepRestartsIff`). `CalibrationLog.VfifoTriesIff` gives the exact condition for a
  memory to pass, `CalibrationLog.WorkingPhaseIsMissed` a memory that works and fails.
- A calibration that passes may still carry the stage of a retry that failed, so a pass does not mean that the error
  stage is empty. `CalibrationRuns.PassRecordsNothingIff` gives the exact condition, `CalibrationRuns.PassMayRecordFailure` an
  instance; a failure always leaves one (`Calibrate.FailureIsReported`).
- The flush loops never end for a region that reaches into the last line of the address space
  (`Caches.LoopNeverEnds`); `Caches.LoopEnds` is the exact condition. A region that ends exactly at the top of the
  address space is not flushed: `Caches.RegionFlushedIff` and `Caches.IndexesFlushedIff` give the exact conditions.
- Registering an interrupt number from 2^31 up passes the range test and writes before the table
  (`Interrupts.Controller.Register`).
- An array transfer of size 0 leaves the I2C bus held (`WriteArray` and `ReadArray` say when it is released).
- A delay for almost 2^32 memory clocks overflows when it is rounded up and is over after two clocks
  (`RwManager.DelayCoversIff`).
- The clock goes back for every tick rate below 1000000 that does not divide it (`WallClock.ToldGoesBack`).
- Handshake: the two codes of the protocol itself cannot be used as commands. A command with code 1000 never runs and
  one with code 1 loses its answer (`TclDebug.CommandRunsIff`, `TclDebug.AnswerStandsIff`, with the runs
  `TclDebug.WaitCodeIsLost` and `TclDebug.AckCodeLosesAnswer`). Exchanging the two writes of mark-ready would lose a
  command (`TclDebug.SwappedWritesLoseACommand`).

## Model

| member | source | states |
|---|---|---|
| `SccManager.Scc.ApplyGroupDq` | LCD/hw/quartus/hps_isw_handoff/soc_system_hps_0/sequencer.c:1737-1760 | exactly the pins of the group get the delay; every other register keeps its value |
| `SccManager.Scc.TestPins` | LCD/hw/quartus/hps_isw_handoff/soc_system_hps_0/sequencer.c:3750-3837 | a pin is in the result iff the memory answers this test, at the delays now programmed, with a pass |
| `SccManager.Scc.TestMask` | LCD/hw/quartus/hps_isw_handoff/soc_system_hps_0/sequencer.c:6417-6490 | the masked test passes iff the memory passes it at the DQ, DQS and DM delays now programmed |
| `Deskew.LeftStepKeepsScan` | LCD/hw/quartus/hps_isw_handoff/soc_system_hps_0/sequencer.c:7287-7297 | one recorded test keeps the meaning of both edges: left is the last pass seen, right the negated first pass, with the sentinel while nothing passed |
| `Deskew.RecordLeft` | LCD/hw/quartus/hps_isw_handoff/soc_system_hps_0/sequencer.c:7288-7302 | every pin takes the left-sweep step, none is skipped or mixed up |
| `Deskew.Judge` | LCD/hw/quartus/hps_isw_handoff/soc_system_hps_0/sequencer.c:7279-7286 | the sticky bits hold exactly the pins seen so far, and a test ends the sweep iff no pin passes it and every pin was seen earlier |
| `Deskew.LeftStop` | LCD/hw/quartus/hps_isw_handoff/soc_system_hps_0/sequencer.c:7279-7287 | stopping early loses nothing: the test that ends the sweep would not have changed an edge |
| `Deskew.LeftSweep` | LCD/hw/quartus/hps_isw_handoff/soc_system_hps_0/sequencer.c:7272-7303 | after the sweep both edges of every pin have their meaning over all tests run; the number of tests is exact: up to the first that ends the sweep, or all taps |
| `Deskew.LeftEdgeIffPassed` | LCD/hw/quartus/hps_isw_handoff/soc_system_hps_0/sequencer.c:7272-7303 | a pin has a left edge iff it passes some test of the whole left range, although the sweep may stop early; it lacks the right one iff it passes the first |
| `Deskew.ResetEdges` | LCD/hw/quartus/hps_isw_handoff/soc_system_hps_0/sequencer.c:7305-7329 | right edges without a left edge go back to the sentinel, and the rebuilt mask holds bit i exactly when pin i counts as seen (the read side wants both edges) |
| `Deskew.RightStepKeepsScan` | LCD/hw/quartus/hps_isw_handoff/soc_system_hps_0/sequencer.c:7363-7382 | one recorded test of the right sweep keeps the meaning of both edges, including the forced -1 of a marginal pin and the left edge found while waiting for a first pass |
| `Deskew.RecordRight` | LCD/hw/quartus/hps_isw_handoff/soc_system_hps_0/sequencer.c:7362-7387 | every pin takes the right-sweep step |
| `Deskew.MarkMarginal` | LCD/hw/quartus/hps_isw_handoff/soc_system_hps_0/sequencer.c:7351-7359 | when the write side stops at offset 0, exactly the pins with a left and no right edge get the right edge -1 |
| `Deskew.RightStop` | LCD/hw/quartus/hps_isw_handoff/soc_system_hps_0/sequencer.c:7346-7361 | stopping the right sweep early changes no edge that the step function would not have changed the same way |
| `Deskew.RightSweep` | LCD/hw/quartus/hps_isw_handoff/soc_system_hps_0/sequencer.c:7331-7388 | after the sweep both edges have their meaning over all tests run, whatever the memory answers; the number of tests is exact and DQS stands at the last tap tested |
| `Deskew.NoEdgeIffMissed` | LCD/hw/quartus/hps_isw_handoff/soc_system_hps_0/sequencer.c:7402-7411 | for any memory, noisy or not: a pin ends without an edge iff it passed no test of the left sweep and, in the right sweep, either none or already the first |
| `Deskew.MarginalPinCanBeMissed` | LCD/hw/quartus/hps_isw_handoff/soc_system_hps_0/sequencer.c:7372-7380 | counterexample: a pin that fails every left test and passes the first right test is reported missing although it works |
| `Deskew.MissedIffPassesNowhere` | LCD/hw/quartus/hps_isw_handoff/soc_system_hps_0/sequencer.c:7402-7411 | when answers depend on the offset alone, a pin is reported missing iff it passes nowhere in the swept range |
| `Deskew.EdgesExact` | LCD/hw/quartus/hps_isw_handoff/soc_system_hps_0/sequencer.c:7263-7388 | a pin that passes exactly on a..b of the swept offsets ends with left edge -a and right edge b |
| `Deskew.AllEdgesExact` | LCD/hw/quartus/hps_isw_handoff/soc_system_hps_0/sequencer.c:5130-5260 | the same for all pins of a group at once, on the read and on the write side |
| `Deskew.FindLeastMid` | LCD/hw/quartus/hps_isw_handoff/soc_system_hps_0/sequencer.c:7413-7422 | the least left-minus-right over all pins, and a pin that has it |
| `Deskew.Balanced` | LCD/hw/quartus/hps_isw_handoff/soc_system_hps_0/sequencer.c:5355 | the two truncating divisions by 2 together cost an unclamped pin at most one tap of balance, and which one is told exactly; a clamped DQS costs nothing |
| `Deskew.CentrePin` | LCD/hw/quartus/hps_isw_handoff/soc_system_hps_0/sequencer.c:5353-5379 | one register changes, stays in range, equals the wanted shift unless that is out of range, and both margins become the least room so far |
| `Deskew.ProgramPins` | LCD/hw/quartus/hps_isw_handoff/soc_system_hps_0/sequencer.c:5353-5380 | all registers of the group and no others are programmed, and the margins are the least room to the left and right over all pins |
| `Deskew.CentrePins` | LCD/hw/quartus/hps_isw_handoff/soc_system_hps_0/sequencer.c:5300-5416 | delays, DQS and margins are those of a centring: DQS and delays stay in range, every pin gets its shift or, out of range, exactly what the clamps give; margins are exact minima; that DQS and pins end where they are best is `DqsIsNearest`, `CentringBalanced` and `CentringNearest` |
| `Deskew.SweepGroup` | LCD/hw/quartus/hps_isw_handoff/soc_system_hps_0/sequencer.c:5130-5260 | both sweeps with the reset in between; DQS stands exactly where the right sweep ended, told from the answers to both sweeps; the pins of the group are back at 0, all others untouched |
| `Deskew.FirstMissingIsFirstMissed` | LCD/hw/quartus/hps_isw_handoff/soc_system_hps_0/sequencer.c:5274-5298 | the pin reported is the first that was missed |
| `Deskew.FindEdges` | LCD/hw/quartus/hps_isw_handoff/soc_system_hps_0/sequencer.c:5130-5298 | edges of all pins, the first missed pin or none, DQS exactly where the right sweep ended, and registers zeroed inside the group only |
| `Deskew.CentreGroup` | LCD/hw/quartus/hps_isw_handoff/soc_system_hps_0/sequencer.c:5087-5443 | success iff no pin was missed; on failure the first missed pin is reported, delays are 0, the read side puts DQS back and the write side leaves it at exactly the tap where the right sweep ended; on success the group is centred; registers outside the group are untouched |
| `Deskew.DqsRestoredIff` | LCD/hw/quartus/hps_isw_handoff/soc_system_hps_0/sequencer.c:7402-7411 | after a missed pin the write side leaves DQS where it was iff that is the last tap; it ends at the last tap when a missed pin passes no right test |
| `Deskew.DeadMemoryMovesDqs` | LCD/hw/quartus/hps_isw_handoff/soc_system_hps_0/sequencer.c:7402-7411 | counterexample: with a memory that never answers correctly the write side moves DQS to its last tap, wherever it was |
| `Deskew.MarginsExact` | LCD/hw/quartus/hps_isw_handoff/soc_system_hps_0/sequencer.c:5373-5378 | both margins are nonnegative iff every pin ends inside its window |
| `Deskew.CentringSound` | LCD/hw/quartus/hps_isw_handoff/soc_system_hps_0/sequencer.c:5128-5443 | whenever both margins are nonnegative, every pin passes every later test at the programmed delays, for every memory with one window a pin |
| `Deskew.CentringBalanced` | LCD/hw/quartus/hps_isw_handoff/soc_system_hps_0/sequencer.c:5353-5379 | every pin whose shift is in range sits in its middle, also when DQS was clamped; the tap that cannot be shared goes to a side that is told exactly |
| `Deskew.LeastPinBalanced` | LCD/hw/quartus/hps_isw_handoff/soc_system_hps_0/sequencer.c:5300-5355 | the pin that defines the middle gets no delay and is balanced, less one tap exactly when its difference is odd, whenever DQS is not clamped on the read side |
| `Deskew.DqsIsNearest` | LCD/hw/quartus/hps_isw_handoff/soc_system_hps_0/sequencer.c:5317-5334 | on the read side no other DQS delay in range puts the pin that defines the least middle as near to its middle, clamped or not, and none to its left as near; the write side leaves DQS where it was |
| `Deskew.CentringNearest` | LCD/hw/quartus/hps_isw_handoff/soc_system_hps_0/sequencer.c:5355-5365 | a pin ends as near to its middle as any value of its register allows iff its shift does not exceed the last tap or register i holds 0 |
| `Deskew.UpperClampFallsShort` | LCD/hw/quartus/hps_isw_handoff/soc_system_hps_0/sequencer.c:5359-5360 | counterexample: a second group of two pins where the upper clamp gives 28 although 31 is in range and nearer |
| `DmCentre.DownPass` | LCD/hw/quartus/hps_isw_handoff/soc_system_hps_0/sequencer.c:7661-7675 | a pass extends the current run, and the best run stays the longest, leftmost on ties |
| `DmCentre.UpPass` | LCD/hw/quartus/hps_isw_handoff/soc_system_hps_0/sequencer.c:7703-7717 | the same in the DQS sweep, for runs stitched across position 0 |
| `DmCentre.UpFail` | LCD/hw/quartus/hps_isw_handoff/soc_system_hps_0/sequencer.c:7718-7722 | a failing position ends every run that reaches it |
| `DmCentre.EarlyExit` | LCD/hw/quartus/hps_isw_handoff/soc_system_hps_0/sequencer.c:7724-7727 | leaving when the rest is shorter than the best run loses no longer run and no tie further left |
| `DmCentre.SweepDm` | LCD/hw/quartus/hps_isw_handoff/soc_system_hps_0/sequencer.c:7656-7683 | the best run over all DM delays, and the run that still reaches position 0 |
| `DmCentre.SweepDqs` | LCD/hw/quartus/hps_isw_handoff/soc_system_hps_0/sequencer.c:7695-7730 | the best run over both sweeps, although the second may stop early |
| `DmCentre.CentreDm` | LCD/hw/quartus/hps_isw_handoff/soc_system_hps_0/sequencer.c:7645-7763 | window, DQS restored, and DM in the middle of its window: the rooms to the left and right differ by at most one tap, the odd one to the left, and DM is 0 when the middle lies beyond 0 or there is no window; the margin is nonnegative iff a window exists and the position chosen lies inside it, which is iff the window starts at or left of 0 |
| `DmCentre.InMiddleIsNearest` | LCD/hw/quartus/hps_isw_handoff/soc_system_hps_0/sequencer.c:7745-7758 | no other DM delay leaves a larger least room on both sides |
| `DmCentre.RunsArePassingRuns` | LCD/hw/quartus/hps_isw_handoff/soc_system_hps_0/sequencer.c:7656-7730 | for a repeatable memory the runs of the two sweeps are the runs of passing positions |
| `DmCentre.WindowOptimal` | LCD/hw/quartus/hps_isw_handoff/soc_system_hps_0/sequencer.c:7645-7730 | for a repeatable memory the window is the longest run of passing positions in the whole range, leftmost on ties, and there is none iff every position fails |
| `DmCentre.CentredDmPasses` | LCD/hw/quartus/hps_isw_handoff/soc_system_hps_0/sequencer.c:7745-7763 | a position inside the window makes masked writes pass in every later test |
| `WriteCentre.CalibrateWritesCentre` | LCD/hw/quartus/hps_isw_handoff/soc_system_hps_0/sequencer.c:7224-7943 | missing pin with DQS left where the sweep ended, or centred pins followed by the best data-mask window with those pins; the sweeps are made one after the other in one sequence of tests |
| `WriteCentre.PassedIff` | LCD/hw/quartus/hps_isw_handoff/soc_system_hps_0/sequencer.c:7943 | once the pins have edges the group passes iff every pin ends inside its window and DM inside a window of the masked test |
| `WriteCentre.PassedGroupWorks` | LCD/hw/quartus/hps_isw_handoff/soc_system_hps_0/sequencer.c:7943 | a group that passes write calibration really works afterwards: all pins and the masked write, at every later test |
| `DqsEnable.Phy.IncrVfifo` | LCD/hw/quartus/hps_isw_handoff/soc_system_hps_0/sequencer.c:3874-3911 | hardware pointer and software count advance together, modulo the VFIFO size |
| `DqsEnable.Phy.DecrVfifo` | LCD/hw/quartus/hps_isw_handoff/soc_system_hps_0/sequencer.c:3922-3929 | VFIFO_SIZE-1 increments undo one increment of the hardware pointer, and the software count stays in step |
| `DqsEnable.Phy.ReadTest` | LCD/hw/quartus/hps_isw_handoff/soc_system_hps_0/sequencer.c:3839-3857 | tests stop at the first failure; it passes iff all tries pass, each as the memory answers |
| `DqsEnable.ShownMore` | LCD/hw/quartus/hps_isw_handoff/soc_system_hps_0/sequencer.c:3839-3857 | what is recorded as failed or working stays backed by the log of tests |
| `DqsEnable.DtapsPerPtap` | LCD/hw/quartus/hps_isw_handoff/soc_system_hps_0/sequencer.c:4082-4088 | the most delay taps that stay below one phase tap, which is 12 |
| `DqsEnable.PushToFailingRead` | LCD/hw/quartus/hps_isw_handoff/soc_system_hps_0/sequencer.c:4121-4141 | stops at the second failing position; gives up only when all positions but at most one work |
| `DqsEnable.SweepPhases` | LCD/hw/quartus/hps_isw_handoff/soc_system_hps_0/sequencer.c:4154-4171 | the first working phase from 1 up, every phase before it failed |
| `DqsEnable.FindWorkingPhase` | LCD/hw/quartus/hps_isw_handoff/soc_system_hps_0/sequencer.c:4146-4192 | the first working setting in the order delay tap, VFIFO position, phase, with its position; or every setting was tried and failed |
| `DqsEnable.BackOffBegin` | LCD/hw/quartus/hps_isw_handoff/soc_system_hps_0/sequencer.c:4199-4318 | the first delay tap of the previous phase that works, if any, moves the begin; the pointer is restored, one phase further when the first working phase was 1 |
| `DqsEnable.SweepToEdge` | LCD/hw/quartus/hps_isw_handoff/soc_system_hps_0/sequencer.c:4334-4360 | every phase passed over works except a failing first test, which moves the begin; a later failing phase ends it |
| `DqsEnable.EdgeRow` | LCD/hw/quartus/hps_isw_handoff/soc_system_hps_0/sequencer.c:4334-4360 | one more row keeps the claim that only working phases were passed over since the start |
| `DqsEnable.ForwardRound` | LCD/hw/quartus/hps_isw_handoff/soc_system_hps_0/sequencer.c:4333-4371 | one VFIFO position of the forward sweep: its working phases are passed over, the failing phase ends it, otherwise the next position follows |
| `DqsEnable.FindFailingPhase` | LCD/hw/quartus/hps_isw_handoff/soc_system_hps_0/sequencer.c:4320-4377 | the first failing phase after the first working one, its position tracked through wraps of the VFIFO; or a whole turn and more works |
| `DqsEnable.BackOffEnd` | LCD/hw/quartus/hps_isw_handoff/soc_system_hps_0/sequencer.c:4379-4398 | back at the last working phase, skipping phase 0, with position and recorded end reduced alike and without underflow |
| `DqsEnable.FindFailingDelay` | LCD/hw/quartus/hps_isw_handoff/soc_system_hps_0/sequencer.c:4427-4441 | the first failing delay tap, all before it working, and the end of the last working one |
| `DqsEnable.TrackDtaps` | LCD/hw/quartus/hps_isw_handoff/soc_system_hps_0/sequencer.c:4474-4535 | taps to the next edge when a passing and a failing read were found, the static value otherwise; never more than the delay chain |
| `DqsEnable.ReduceMid` | LCD/hw/quartus/hps_isw_handoff/soc_system_hps_0/sequencer.c:4552-4559 | the middle of the window less whole VFIFO turns, in 1..turn |
| `DqsEnable.SettleCentre` | LCD/hw/quartus/hps_isw_handoff/soc_system_hps_0/sequencer.c:4560-4580 | phase and delay reproduce the middle with less than one delay tap of error, or phase 1 and delay 0 when phase 0 would be needed; all in range, no underflow |
| `DqsEnable.PushToPassingRead` | LCD/hw/quartus/hps_isw_handoff/soc_system_hps_0/sequencer.c:4582-4598 | the first VFIFO position that reads, all before it failed; or all positions failed |
| `DqsEnable.EndExactIff` | LCD/hw/quartus/hps_isw_handoff/soc_system_hps_0/sequencer.c:4210-4398 | the recorded end is the true position of the last working tap iff the first working phase was not 1 (or delay taps were needed); otherwise it is one phase tap short |
| `DqsEnable.WalkPhases` | LCD/hw/quartus/hps_isw_handoff/soc_system_hps_0/sequencer.c:4198-4405 | begin and end in phase taps are those of the path that the tests show |
| `DqsEnable.FindWindow` | LCD/hw/quartus/hps_isw_handoff/soc_system_hps_0/sequencer.c:4145-4469 | the window as an exact function of what was met, or the reason there is none: nothing works, it never ends, it is empty |
| `DqsEnable.CentreEnable` | LCD/hw/quartus/hps_isw_handoff/soc_system_hps_0/sequencer.c:4473-4598 | taps for tracking measured one phase back from the end of the window; the middle of the window programmed; VFIFO pushed to the first position that reads, all before it having failed |
| `DqsEnable.FindCentre` | LCD/hw/quartus/hps_isw_handoff/soc_system_hps_0/sequencer.c:4145-4598 | a window that is found is always centred; failing at the centre means that every VFIFO position failed there |
| `DqsEnable.FindDqsEnPhase` | LCD/hw/quartus/hps_isw_handoff/soc_system_hps_0/sequencer.c:4043-4616 | for any answers the search ends, writes only phases 1..max and delays 0..max, keeps pointer and count in step and dtaps_per_ptap in range; the window is searched from the second VFIFO position that failed at phase 1; the verdict is explained by the tests made, and on success the last test passed at the settings left behind |
| `DqsWindow.BeginInPhases` | LCD/hw/quartus/hps_isw_handoff/soc_system_hps_0/sequencer.c:4199-4234 | for a memory with one passing interval: when the first working phase is not 1 and the next one works, the begin is that of the interval to within one delay tap |
| `DqsWindow.SweepStays` | LCD/hw/quartus/hps_isw_handoff/soc_system_hps_0/sequencer.c:4333-4371 | everything the forward sweep passes over lies in that interval, through all wraps of the VFIFO |
| `DqsWindow.EndInPhases` | LCD/hw/quartus/hps_isw_handoff/soc_system_hps_0/sequencer.c:4379-4441 | the recorded end is within one delay tap of the end of the interval, or exactly one phase tap short of that when the first working phase is 1 |
| `DqsWindow.AccurateIff` | LCD/hw/quartus/hps_isw_handoff/soc_system_hps_0/sequencer.c:4145-4469 | the recorded window is the interval to within one delay tap at either end iff delay taps were needed from the start, or the first working phase is not 1 and the one after it works |
| `DqsWindow.FirstPhaseIsOneIff` | LCD/hw/quartus/hps_isw_handoff/soc_system_hps_0/sequencer.c:4145-4184 | the first working phase is 1 iff the interval begins after the last phase of a VFIFO step and not after phase 1 of the next |
| `DqsWindow.CentreReads` | LCD/hw/quartus/hps_isw_handoff/soc_system_hps_0/sequencer.c:4549-4598 | at the centre of a window of two phase taps inside the interval some VFIFO position reads, whatever position it is tried from |
| `DqsWindow.StepOneEnds` | LCD/hw/quartus/hps_isw_handoff/soc_system_hps_0/sequencer.c:4121-4141 | step 1 finds its two failing positions whenever more than two VFIFO steps fail |
| `DqsWindow.OneIntervalIsFound` | LCD/hw/quartus/hps_isw_handoff/soc_system_hps_0/sequencer.c:4043-4616 | for every memory that passes on one interval of at least six phase taps and fails on more than two VFIFO steps the search succeeds; its window is accurate iff the interval does not begin around phase 0, else the end is one phase tap short |
| `DqsWindow.BeginAtPhase0IsShort` | LCD/hw/quartus/hps_isw_handoff/soc_system_hps_0/sequencer.c:4212-4217 | counterexample: an interval that begins at phase 0 makes every search meet phase 1 first and record an end one phase tap short of the last working tap |
| `RwManager.StepsAdd` | LCD/hw/quartus/hps_isw_handoff/soc_system_hps_0/sequencer.c:2019-2044 | running m + n cycles is running m and then n |
| `RwManager.JumpStep` | LCD/hw/quartus/hps_isw_handoff/soc_system_hps_0/sequencer.c:2019-2044 | a jump on a counter tests before it decrements and reloads the counter when it falls through |
| `RwManager.CountedLoop` | LCD/hw/quartus/hps_isw_handoff/soc_system_hps_0/sequencer.c:2019-2044 | a loop of any body from counter n leaves after n + 1 passes with the counter reloaded, so loops nest |
| `RwManager.ResetProgramsInRom` | LCD/hw/quartus/hps_isw_handoff/soc_system_hps_0/sequencer_auto_inst_init.c:146-155 | both reset programs in the instruction table are a command, three jumps and a return |
| `RwManager.IdleProgramsInRom` | LCD/hw/quartus/hps_isw_handoff/soc_system_hps_0/sequencer_auto_inst_init.c:157-159 | the idle loops in the table are two jumps and a return |
| `RwManager.ResetProgramTime` | LCD/hw/quartus/hps_isw_handoff/soc_system_hps_0/sequencer.c:2364-2367 | the reset program stops after exactly (c2+1)((c1+1)(2(c0+1)+1)+1)+1 cycles, for all counters, and leaves the counters reloaded |
| `RwManager.IdleLoop1Time` | LCD/hw/quartus/hps_isw_handoff/soc_system_hps_0/sequencer.c:2046-2060 | the single idle loop takes its counter plus 2 cycles |
| `RwManager.IdleLoop2Time` | LCD/hw/quartus/hps_isw_handoff/soc_system_hps_0/sequencer.c:2046-2060 | the nested idle loops take (c1+1)(c0+2)+1 cycles |
| `RwManager.RwMgr.RunSingleGroup` | LCD/hw/quartus/hps_isw_handoff/soc_system_hps_0/sequencer.c:2064 | running a program costs exactly its run time, is recorded, and leaves program, jump targets and reload values as they were |
| `RwManager.DelayLongEnough` | LCD/hw/quartus/hps_isw_handoff/soc_system_hps_0/sequencer.c:2028-2044 | no delay is shorter than the AFI clocks asked for |
| `RwManager.DelayForMemClocks` | LCD/hw/quartus/hps_isw_handoff/soc_system_hps_0/sequencer.c:2019-2088 | for every request the counters and the repeat count chosen, in their 8 and 16 bit widths, give the stated run time |
| `RwManager.DelayNotMuchLonger` | LCD/hw/quartus/hps_isw_handoff/soc_system_hps_0/sequencer.c:2028-2044 | a delay exceeds the AFI clocks asked for by at most 512 up to 65536 of them, and by one in 255 and a pass above |
| `RwManager.RoundedUp` | LCD/hw/quartus/hps_isw_handoff/soc_system_hps_0/sequencer.c:2026 | the AFI clocks are the fewest that cover the memory clocks, unless rounding up overflows 32 bits |
| `RwManager.DelayCoversIff` | LCD/hw/quartus/hps_isw_handoff/soc_system_hps_0/sequencer.c:2026 | the delay covers the memory clocks asked for iff rounding up fits 32 bits or two AFI clocks are enough |
| `RwManager.PowerUpWaits` | LCD/hw/quartus/hps_isw_handoff/soc_system_hps_0/sequencer.c:2362-2403 | RESET is low for at least 200 us, then high for at least 500 us, then 250 clocks, at the configured AFI clock (section 3.3.1 of JESD79-3); the cycles of each wait are exact, and the programs run are those of RESET low, RESET high and idling, in this order |
| `ReadTest.TestRank` | LCD/hw/quartus/hps_isw_handoff/soc_system_hps_0/sequencer.c:3799-3818 | bit b of the field of a rank is set iff bit b % w of the error word of virtual group b / w is clear |
| `ReadTest.OneMoreRank` | LCD/hw/quartus/hps_isw_handoff/soc_system_hps_0/sequencer.c:3766-3819 | a further rank counts only when it is not skipped |
| `ReadTest.CalibrateReadTest` | LCD/hw/quartus/hps_isw_handoff/soc_system_hps_0/sequencer.c:3750-3837 | a bit is set iff its pin passes on every rank not skipped; the test passes iff all pins do, or iff one does, as asked |
| `Calibrate.Calibrator.SetFailingGroupStage` | LCD/hw/quartus/hps_isw_handoff/soc_system_hps_0/sequencer.c:591-611 | the recorded triple is that of the first failure reported in the run |
| `Calibrate.Calibrator.AddFom` | LCD/hw/quartus/hps_isw_handoff/soc_system_hps_0/sequencer.c:5419-5424 | exactly one of the two sums grows by the given amount, in 32 bits |
| `CalibrationRuns.FomOfOne` | LCD/hw/quartus/hps_isw_handoff/soc_system_hps_0/sequencer.c:5419-5424 | a centring after the writes adds the sum of its margins divided by the read groups of a write group, towards zero, to the input figure; a write adds its sum to the output figure; nothing else adds anything |
| `Calibrate.Calibrator.VfifoCenter` | LCD/hw/quartus/hps_isw_handoff/soc_system_hps_0/sequencer.c:5274-5443 | success iff both margins are nonnegative; a missing pin is reported by pin number where a group is expected; DQS is put back or moved to the centre; after the writes the margins go into the input figure of merit |
| `Calibrate.CentresIff` | LCD/hw/quartus/hps_isw_handoff/soc_system_hps_0/sequencer.c:5443 | a centring whose pins have edges succeeds iff every pin ends inside its window |
| `Calibrate.Calibrator.VfifoCenterAll` | LCD/hw/quartus/hps_isw_handoff/soc_system_hps_0/sequencer.c:5923-5952 | every shadow register that is not skipped is centred, each from the same DQS delay, all have to succeed, and each failure is reported |
| `Calibrate.Calibrator.TryReadDelays` | LCD/hw/quartus/hps_isw_handoff/soc_system_hps_0/sequencer.c:5849-5998 | the attempts made, their log and reports, and where DQS is left are those of trying the delays from where DQS stands to the last, until search and centring succeed |
| `Calibrate.Calibrator.TryReadPhases` | LCD/hw/quartus/hps_isw_handoff/soc_system_hps_0/sequencer.c:5800-6000 | the same for the output phases in order; that a failing guaranteed read ends them, and that no phase is skipped, is told from the log by `SearchIsAllowed` and `RefusalEndsDelay` |
| `Calibrate.Calibrator.CalibrateVfifo` | LCD/hw/quartus/hps_isw_handoff/soc_system_hps_0/sequencer.c:5748-6009 | success, log of questions, reports and stages passed are those of trying all delays and phases in order; what the log must then hold is told by the lemmas of CalibrationLog below |
| `CalibrationLog.VfifoPassesIff` | LCD/hw/quartus/hps_isw_handoff/soc_system_hps_0/sequencer.c:5800-5998 | the stage passes iff one of its searches works together with all the centrings that follow it; that is then the last attempt, with one centring for each shadow register in use, and no earlier one works |
| `CalibrationLog.VfifoStaysInGroup` | LCD/hw/quartus/hps_isw_handoff/soc_system_hps_0/sequencer.c:5786-5998 | every question of the stage is about its own group, at one of the output delays there are |
| `CalibrationLog.SearchIsAllowed` | LCD/hw/quartus/hps_isw_handoff/soc_system_hps_0/sequencer.c:5834-5838 | with guaranteed reads every search is preceded, at its own delay and phase and with no other guaranteed read in between, by one that passed |
| `CalibrationLog.RefusalEndsDelay` | LCD/hw/quartus/hps_isw_handoff/soc_system_hps_0/sequencer.c:5834-5838 | after a guaranteed read that fails nothing more is asked at its output delay; a stage that fails has asked about every delay and phase, or was refused at an earlier phase of that delay |
| `CalibrationLog.NothingGuaranteed` | LCD/hw/quartus/hps_isw_handoff/soc_system_hps_0/sequencer.c:5834-5838 | when no guaranteed read passes the stage fails without a single search, after one read for each output delay, and reports the substage of guaranteed reads |
| `CalibrationLog.SearchIsInSweep` | LCD/hw/quartus/hps_isw_handoff/soc_system_hps_0/sequencer.c:5848-5870 | the searches of a phase are made tap by tap from where the phase found DQS; at one and the same tap when no shadow register is in use, since then nothing loads the delay |
| `CalibrationLog.CentringStartsFromSweep` | LCD/hw/quartus/hps_isw_handoff/soc_system_hps_0/sequencer.c:5923-5952 | every centring of the stage starts from the DQS delay at which the first search of its phase was made |
| `CalibrationLog.VfifoFailureNamed` | LCD/hw/quartus/hps_isw_handoff/soc_system_hps_0/sequencer.c:5994-5998 | a stage that fails reports its group last, with the substage of the last question that was not a guaranteed read, or that of guaranteed reads when there was none |
| `Calibrate.Calibrator.CalibrateWrites` | LCD/hw/quartus/hps_isw_handoff/soc_system_hps_0/sequencer.c:8133-8155 | one write is asked of this group and shadow register: success iff all three margins are nonnegative, and then the stage is passed; otherwise a missing pin is reported by pin number and then the group; the margins of the pins go into the output figure of merit |
| `Calibrate.Calibrator.CalibrateVfifoEnd` | LCD/hw/quartus/hps_isw_handoff/soc_system_hps_0/sequencer.c:6091-6138 | success iff read centring succeeds for every shadow register in use; each result goes into the input figure of merit |
| `Calibrate.StagesReport` | LCD/hw/quartus/hps_isw_handoff/soc_system_hps_0/sequencer.c:8145-8151 | every report of a stage carries that stage, and a write or read-after-write stage that fails reports its own group last |
| `Calibrate.Calibrator.CalibrateLfifo` | LCD/hw/quartus/hps_isw_handoff/soc_system_hps_0/sequencer.c:6145-6222 | success iff the first latency passes; then the latency less 1 is the smallest one reached through an unbroken run of passing latencies, also at the exit at 0 |
| `Calibrate.Calibrator.GroupWrites` | LCD/hw/quartus/hps_isw_handoff/soc_system_hps_0/sequencer.c:9273-9300 | all shadow registers in order; a failure ends them unless all groups are swept, and then fails the group at the end |
| `Calibrate.Calibrator.CalibrateGroup` | LCD/hw/quartus/hps_isw_handoff/soc_system_hps_0/sequencer.c:9239-9330 | VFIFO, writes and read-after-write of a group in this order, stopping at the first that fails |
| `Calibrate.Calibrator.CalibrateGroups` | LCD/hw/quartus/hps_isw_handoff/soc_system_hps_0/sequencer.c:9208-9392 | all groups that are not skipped, in order; the first failure ends the run unless all groups are swept |
| `Calibrate.Calibrator.MemCalibrate` | LCD/hw/quartus/hps_isw_handoff/soc_system_hps_0/sequencer.c:9149-9437 | outcome, log, reports and stages passed are those of the run on these answers; both figures of merit are those of the log, in 32 bits; the latency found is the smallest reachable one |
| `CalibrationRuns.PassedRun` | LCD/hw/quartus/hps_isw_handoff/soc_system_hps_0/sequencer.c:9208-9437 | a run returns 1 iff it passed as many stages as the plan holds; then these are the stages of the plan in order, and the log is made of the events that back them, stage by stage: a search of that read group that works, a passing write of that group and shadow register, a successful centring of that read group for each shadow register in use; reports are exactly the pins without a window that the log shows, and every result is good |
| `CalibrationRuns.FailedRun` | LCD/hw/quartus/hps_isw_handoff/soc_system_hps_0/sequencer.c:9208-9437 | a run that returns 0, when groups are not swept, passed the stages of the plan up to the first that failed, whose events end the log; it reported the pins without a window that the log shows, and that stage last with its group and substage |
| `CalibrationRuns.PassedWasAsked` | LCD/hw/quartus/hps_isw_handoff/soc_system_hps_0/sequencer.c:9208-9437 | every stage passed has events of its own in the log, after those of all earlier stages, answered by the hardware |
| `CalibrationRuns.PassedGroupWasAsked` | LCD/hw/quartus/hps_isw_handoff/soc_system_hps_0/sequencer.c:9239-9330 | for each stage passed: a search of that read group succeeded with all its centrings, or that group was written with success for that shadow register, or that read group was centred with success after the writes for every shadow register in use, or the first read latency works |
| `CalibrationRuns.PlanHolds` | LCD/hw/quartus/hps_isw_handoff/soc_system_hps_0/sequencer.c:9208-9330 | the plan holds exactly the stages of groups that run and of shadow registers not skipped, by group, then reads, writes and reads after the writes, each in ascending order |
| `CalibrationRuns.VfifoIsAsked` | LCD/hw/quartus/hps_isw_handoff/soc_system_hps_0/sequencer.c:5786-5862 | a VFIFO stage begins with a question about its group at the first output delay and phase and the reserve DQS delay |
| `CalibrationRuns.SweptGroupIsAsked` | LCD/hw/quartus/hps_isw_handoff/soc_system_hps_0/sequencer.c:9217-9330 | when all groups are swept every group that runs is begun, whatever became of those before it |
| `CalibrationRuns.SweptRegIsWritten` | LCD/hw/quartus/hps_isw_handoff/soc_system_hps_0/sequencer.c:9273-9300 | when all groups are swept a group that is written is written for every shadow register not skipped, whatever became of those before it |
| `Calibrate.FailureIsReported` | LCD/hw/quartus/hps_isw_handoff/soc_system_hps_0/sequencer.c:9208-9437 | a run that returns 0 has reported a failure |
| `Calibrate.Calibrator.RunMemCalibrate` | LCD/hw/quartus/hps_isw_handoff/soc_system_hps_0/sequencer.c:9440-9660 | status is success iff calibration passed; then the word holds both sums of margins of the run, halved and capped at 0xff; otherwise it is the first failure reported |
| `CalibrationRuns.FomBounds` | LCD/hw/quartus/hps_isw_handoff/soc_system_hps_0/sequencer.c:5419-5424 | each good result adds between nothing and twice the largest margin to one of the sums |
| `CalibrationRuns.FomNeverWraps` | LCD/hw/quartus/hps_isw_handoff/soc_system_hps_0/sequencer.c:9594-9614 | in a run that passes no sum is negative or wraps, provided the largest one that the sizes allow fits 32 bits |
| `Calibrate.GroupsRunEnds` | LCD/hw/quartus/hps_isw_handoff/soc_system_hps_0/sequencer.c:9217-9330 | once a group has failed and not all are swept, nothing later is asked or reported |
| `CalibrationRuns.GoodVfifo` | LCD/hw/quartus/hps_isw_handoff/soc_system_hps_0/sequencer.c:5748-6009 | a group that answers well is taken at the first attempt, with nothing reported |
| `CalibrationRuns.PerfectMemoryCalibrates` | LCD/hw/quartus/hps_isw_handoff/soc_system_hps_0/sequencer.c:9149-9437 | a memory that always answers well calibrates with nothing reported, for all sizes and settings that try anything at all |
| `CalibrationRuns.PassRecordsNothingIff` | LCD/hw/quartus/hps_isw_handoff/soc_system_hps_0/sequencer.c:591-611 | a run that passes leaves the record empty iff none of the centrings it asked for found a pin without a window; such a centring belongs to a VFIFO stage |
| `CalibrationRuns.WindowsNeverRecord` | LCD/hw/quartus/hps_isw_handoff/soc_system_hps_0/sequencer.c:591-611 | with a memory in which every pin always has a window a pass records nothing, whatever else fails and is retried |
| `CalibrationRuns.PassMayRecordFailure` | LCD/hw/quartus/hps_isw_handoff/soc_system_hps_0/sequencer.c:591-611 | counterexample: a run that passes although its first attempt has recorded a failure |
| `CalibrationLog.FailingPhaseLeaves` | LCD/hw/quartus/hps_isw_handoff/soc_system_hps_0/sequencer.c:5849-5862 | a phase that fails leaves the DQS input delay where its attempt at the last tap does, told from the last answer |
| `CalibrationLog.SweepRestartsIff` | LCD/hw/quartus/hps_isw_handoff/soc_system_hps_0/sequencer.c:5849-5862 | the next phase sweeps from the same delay iff the last answer was a pin without a window, or a centring that left DQS there; after a failing search iff that delay is the last |
| `CalibrationLog.LastTapIsTriedAlone` | LCD/hw/quartus/hps_isw_handoff/soc_system_hps_0/sequencer.c:5849-5850 | from the last tap a phase tries that one delay only |
| `CalibrationLog.VfifoTriesIff` | LCD/hw/quartus/hps_isw_handoff/soc_system_hps_0/sequencer.c:5786-5998 | when the search depends on the setting alone and all else succeeds, the stage passes iff the memory works at some tap of the very first phase or at the last tap of any phase |
| `CalibrationLog.WorkingPhaseIsMissed` | LCD/hw/quartus/hps_isw_handoff/soc_system_hps_0/sequencer.c:5849-5862 | counterexample: a memory that works in phase 1 at the reserve delay, and fails |
| `CalibrationRuns.PinReportedAsGroup` | LCD/hw/quartus/hps_isw_handoff/soc_system_hps_0/sequencer.c:5290-5295 | group and pin can be told from the number recorded for a missing pin, but it is that of the group only for the first pin of group 0 or with one pin a group; with as many pins as groups it is no group from group 1 on |
| `Calibrate.FomUnpacks` | LCD/hw/quartus/hps_isw_handoff/soc_system_hps_0/sequencer.c:9613-9614 | both figures of merit can be read back from the published word |
| `Calibrate.PackReportUnique` | LCD/hw/quartus/hps_isw_handoff/soc_system_hps_0/sequencer.c:9624-9626 | stage, substage and group can be read back from the published word, from its first and second byte and the rest |
| `Calibrate.ReportUnpacks` | LCD/hw/quartus/hps_isw_handoff/soc_system_hps_0/sequencer.c:9624-9626 | two failures have the same published word only if their triples are the same |
| `TclDebug.InitEstablishesInv` | LCD/hw/quartus/hps_isw_handoff/soc_system_hps_0/tclrpt.c:645-653 | the handshake invariant holds before the loop is entered |
| `TclDebug.NiosKeepsInv` | LCD/hw/quartus/hps_isw_handoff/soc_system_hps_0/tclrpt.c:658-1017 | every access of the sequencer keeps it |
| `TclDebug.HostKeepsInv` | LCD/hw/quartus/hps_isw_handoff/soc_system_hps_0/tclrpt.c:613-636 | every access of a host that waits for ready and acknowledges each answer once keeps it |
| `TclDebug.RunKeepsInv` | LCD/hw/quartus/hps_isw_handoff/soc_system_hps_0/tclrpt.c:645-1021 | it holds at every point of every interleaving |
| `TclDebug.EveryRunIsAtomic` | LCD/hw/quartus/hps_isw_handoff/soc_system_hps_0/tclrpt.c:645-1021 | commands are executed in the order issued, each once, with the arguments issued, at most the last one pending; answers received are those of a server that executes commands atomically |
| `TclDebug.HistoryTells` | LCD/hw/quartus/hps_isw_handoff/soc_system_hps_0/tclrpt.c:683-776 | what an atomic server leaves behind after any history of commands: a group or rank is skipped iff it exists and was named since all were last marked as valid, flags once set stay, the setting made last counts, and each run command calibrates once |
| `TclDebug.RefusalTold` | LCD/hw/quartus/hps_isw_handoff/soc_system_hps_0/tclrpt.c:683-1015 | a command is refused iff its code is unknown or it names a group or rank that does not exist, whatever came before it |
| `TclDebug.RunLeavesOnce` | LCD/hw/quartus/hps_isw_handoff/soc_system_hps_0/tclrpt.c:650-679 | along every interleaving the sequencer leaves the loop exactly when the last command it has run is the update of parameters |
| `TclDebug.NothingRunsAfterUpdate` | LCD/hw/quartus/hps_isw_handoff/soc_system_hps_0/tclrpt.c:650-679 | once the update of parameters has run, no command ever runs again |
| `TclDebug.PendingCommandSurvives` | LCD/hw/quartus/hps_isw_handoff/soc_system_hps_0/tclrpt.c:613-622 | a command that has not run is overwritten by nobody, neither code nor arguments |
| `TclDebug.AnswerStaysUntilAcknowledged` | LCD/hw/quartus/hps_isw_handoff/soc_system_hps_0/tclrpt.c:624-636 | an answer stands in the status word until the host has acknowledged it |
| `TclDebug.PendingCommandIsAnswered` | LCD/hw/quartus/hps_isw_handoff/soc_system_hps_0/tclrpt.c:658-1017 | a pending command is answered within four accesses of the sequencer, and the host cannot interfere |
| `TclDebug.SwappedWritesLoseACommand` | LCD/hw/quartus/hps_isw_handoff/soc_system_hps_0/tclrpt.c:613-622 | with the two writes of mark-ready exchanged, a run exists that loses a command: the order in the code is needed |
| `TclDebug.CommandRunsIff` | LCD/hw/quartus/hps_isw_handoff/soc_system_hps_0/tclrpt.c:682-1017 | a delivered command is ever run iff its code is not 1000, the code of waiting, and the host can do nothing about it |
| `TclDebug.AnswerStandsIff` | LCD/hw/quartus/hps_isw_handoff/soc_system_hps_0/tclrpt.c:670-681 | the sequencer leaves an unread answer standing iff the code of the command is not 1, the code of acknowledging |
| `TclDebug.WaitCodeIsLost` | LCD/hw/quartus/hps_isw_handoff/soc_system_hps_0/tclrpt.c:682-694 | counterexample: a run that issues code 1000, which never runs however long it goes on |
| `TclDebug.AckCodeLosesAnswer` | LCD/hw/quartus/hps_isw_handoff/soc_system_hps_0/tclrpt.c:670-681 | counterexample: a run that issues code 1, whose answer is gone before the host has read it |
| `I2c.I2cDev.WaitEndOfTransfer` | LCD/sw/nios2/application/i2c/i2c.c:37-39 | returns only when no transfer is in progress |
| `I2c.I2cDev.SetDataControl` | LCD/sw/nios2/application/i2c/i2c.c:47-52 | one byte on the bus after the START and before the STOP asked for, and no register written during a transfer |
| `I2c.I2cDev.GetDataSetControl` | LCD/sw/nios2/application/i2c/i2c.c:60-65 | one byte received and acknowledged as asked, returned unchanged |
| `I2c.I2cDev.WriteArray` | LCD/sw/nios2/application/i2c/i2c.c:211-248 | for any acknowledgements and any size: the exact bus trace, success iff the slave takes every byte, the error for no device iff it refuses its address, the other one iff it refuses a later byte; the bus is released iff size > 0 or an error is returned; never disturbed |
| `I2c.I2cDev.ReadArray` | LCD/sw/nios2/application/i2c/i2c.c:260-299 | the exact bus trace with a repeated START; the error for no device iff the slave refuses its address in either direction, the other one iff it refuses the index; all bytes acknowledged but the last; the buffer holds what the slave sent and is untouched on failure; released iff size > 0 or an error is returned |
| `I2c.I2cDev.Write` | LCD/sw/nios2/application/i2c/i2c.c:127-156 | the single-byte write is the array write of one byte, always released; the error is that of what the slave refuses |
| `I2c.I2cDev.Read` | LCD/sw/nios2/application/i2c/i2c.c:167-199 | the single-byte read is the array read of one byte, with the error of what the slave refuses; the value is untouched on failure |
| `I2c.CompleteIffTaken` | LCD/sw/nios2/application/i2c/i2c.c:211-248 | all bytes of a frame are sent and acknowledged iff the slave takes each of them after those before it |
| `I2c.OutcomeReports` | LCD/sw/nios2/application/i2c/i2c.c:216-244 | what a write returns, in terms of the slave alone: no device iff the first byte is refused, bad acknowledge iff a later one is |
| `I2c.ReadOutcomeReports` | LCD/sw/nios2/application/i2c/i2c.c:264-286 | what a read returns: no device iff the device address is refused for writing or, after the repeated START, for reading; bad acknowledge iff the index is |
| `I2c.SentIsPrefixCutAtNack` | LCD/sw/nios2/application/i2c/i2c.c:230-245 | the bytes sent are a prefix of the frame, cut right after the first one not acknowledged; complete iff all were acknowledged |
| `I2c.SentAt` | LCD/sw/nios2/application/i2c/i2c.c:230-245 | byte i goes out after everything before it, and the next one follows iff it is acknowledged |
| `I2c.SendAppend` | LCD/sw/nios2/application/i2c/i2c.c:211-248 | a frame is its head and, if all of that was acknowledged, its tail |
| `I2c.WriteFrame` | LCD/sw/nios2/application/i2c/i2c.c:211-248 | what is on the bus and what is reported for address, index and payload together |
| `I2c.ReceivedAt` | LCD/sw/nios2/application/i2c/i2c.c:288-296 | byte i is what the slave sends after everything before it, and only the last is not acknowledged |
| `D5m.TrdbD5mWrite` | LCD/sw/nios2/application/demo_i2c.c:12-22 | true iff address, register and both bytes, high byte first, were acknowledged |
| `D5m.TrdbD5mRead` | LCD/sw/nios2/application/demo_i2c.c:24-35 | on success the two bytes received joined high byte first; on failure the data is untouched |
| `D5m.ByteOrder` | LCD/sw/nios2/application/demo_i2c.c:13-32 | the first byte is the value divided by 256 and the second the remainder, in both directions; 23 goes out as 0 and 23 |
| `D5m.JoinSplit` | LCD/sw/nios2/application/demo_i2c.c:13-32 | splitting a 16-bit value and joining it gives it back |
| `D5m.WriteStores` | LCD/sw/nios2/application/demo_i2c.c:12-22 | after a complete write a storing slave holds the two bytes in that register, and every other register is as before |
| `D5m.SelectKeepsRegisters` | LCD/sw/nios2/application/demo_i2c.c:24-27 | selecting a register for reading moves no data |
| `D5m.WriteThenRead` | LCD/sw/nios2/application/demo_i2c.c:37-48 | write then read of a register, both succeeding, returns the value written: all values, registers, slave states and acknowledgements |
| `Caches.LoopNeverEnds` | fpga_rtc/software/fpga_rtc_bsp/HAL/src/alt_dcache_flush.c:53-56 | when the region ends in the last line of the address space the loop visits only addresses below its end, for ever |
| `Caches.LoopStep` | fpga_rtc/software/fpga_rtc_bsp/HAL/src/alt_dcache_flush.c:53-56 | in every other case no step wraps and each advances by one line |
| `Caches.DataCache.FlushDa` | fpga_rtc/software/fpga_rtc_bsp/HAL/src/alt_dcache_flush.c:55 | the line of the address is dropped and no other; what the CPU reads anywhere is unchanged |
| `Caches.DataCache.Flush` | fpga_rtc/software/fpga_rtc_bsp/HAL/src/alt_dcache_flush.c:46-70 | exactly these lines are dropped: the whole lines from the start to the first address not below the end, and for an unaligned start the one there; the CPU reads the same everywhere; memory holds all of a region below the top |
| `Caches.StopIsFirst` | fpga_rtc/software/fpga_rtc_bsp/HAL/src/alt_dcache_flush.c:53-56 | the loop stops at the first address in whole lines from the start that is not below the end |
| `Caches.RegionFlushedIff` | fpga_rtc/software/fpga_rtc_bsp/HAL/src/alt_dcache_flush.c:46-70 | for any alignment and length every byte of the region is flushed iff the region ends below the top of the address space, or lies in the last line and does not begin where that line does |
| `Caches.Covered` | fpga_rtc/software/fpga_rtc_bsp/HAL/src/alt_dcache_flush.c:53-67 | the lines visited, and the extra one of an unaligned start, cover every byte of the region |
| `Caches.SameIndex` | fpga_rtc/software/fpga_rtc_bsp/HAL/src/alt_icache_flush.c:49-56 | every byte of a region of any length shares its cache index with one within a cache size of the start |
| `Caches.InstrCache.Flush` | fpga_rtc/software/fpga_rtc_bsp/HAL/src/alt_icache_flush.c:42-84 | exactly the indices of the lines visited become invalid; for any length, even above the cache size, none of a region below the top stays valid; the pipeline is flushed |
| `Caches.IndexesFlushedIff` | fpga_rtc/software/fpga_rtc_bsp/HAL/src/alt_icache_flush.c:42-84 | every index of a region up to the top is dropped iff the capped region ends below the top, or the start is unaligned and there is one index only |
| `Interrupts.Controller.Register` | fpga_rtc/software/fpga_rtc_bsp/HAL/src/alt_iic_isr_register.c:75-101 | handler and mask change for that interrupt only, a null handler disables it, a number past the table changes nothing, and one from 2^31 up writes before the table; enabled interrupts keep having handlers |
| `Interrupts.Controller.DispatchLowest` | fpga_rtc/software/fpga_rtc_bsp/HAL/src/alt_irq_handler.c:132-155 | the bit scan ends and the handler called, with its context, is that of the lowest pending interrupt |
| `Interrupts.Controller.Handle` | fpga_rtc/software/fpga_rtc_bsp/HAL/src/alt_irq_handler.c:128-159 | the handlers and contexts called are those of dispatching lowest first while others arrive, none of them null; it returns only with nothing pending |
| `Interrupts.CalledAt` | fpga_rtc/software/fpga_rtc_bsp/HAL/src/alt_irq_handler.c:132-155 | call number k goes to the handler in the table of the k-th interrupt dispatched, with its context |
| `Interrupts.LowestIsLeast` | fpga_rtc/software/fpga_rtc_bsp/HAL/src/alt_irq_handler.c:132-155 | the scan finds the least pending number |
| `Interrupts.DispatchedAscending` | fpga_rtc/software/fpga_rtc_bsp/HAL/src/alt_irq_handler.c:128-159 | when nothing arrives, each pending interrupt is dispatched exactly once, in ascending order |
| `Interrupts.DispatchedEnabled` | fpga_rtc/software/fpga_rtc_bsp/HAL/src/alt_irq_handler.c:128-159 | only enabled interrupts are dispatched, the lowest pending one first |
| `WallClock.GetTimeOfDay` | fpga_rtc/software/fpga_rtc_bsp/HAL/src/alt_gettod.c:89-112 | both loops end for any reset time; the result is the normalised time, 0 when a negative time had to borrow; nothing changes when the clock does not run |
| `WallClock.ToldExactIff` | fpga_rtc/software/fpga_rtc_bsp/HAL/src/alt_gettod.c:91-93 | the time told is reset time plus ticks iff the seconds and the microseconds wrap together |
| `WallClock.ToldExact` | fpga_rtc/software/fpga_rtc_bsp/HAL/src/alt_gettod.c:91-93 | when the tick rate divides 1000000 every tick counts fully |
| `WallClock.ToldMonotone` | fpga_rtc/software/fpga_rtc_bsp/HAL/src/alt_gettod.c:91-112 | time never goes back when the rate divides 1000000 or exceeds it |
| `WallClock.ToldGoesBack` | fpga_rtc/software/fpga_rtc_bsp/HAL/src/alt_gettod.c:91-93 | for every other rate it goes back within two seconds after reset |

## Left out

- Disabled configurations of the sequencer: QDRII, RLDRAM, LPDDR, LRDIMM, simulation mode, older algorithms, shadow register selection and write levelling, none of which are used on this device.
- Moving the DQS enable together with DQS during read centring: the switch for it is 0 in this configuration.
- Margin reports, debug reports, the working counter of the DQS enable search that only feeds a report, and printing.
- Skipping calibration: the settings that skip mode writes are not modelled beyond the read latency; `Calibrate` says only that it passes.
- Skipping delay loops for simulation: the counters are always loaded as computed.
- `delay_for_n_ns`, memory commands, mode registers, refresh and recovery sequences: they do not decide an outcome modelled here.
- 32-bit overflow of the position sums of the DQS enable search: the largest sum is a few hundred thousand for the configured sizes; the sums are unbounded integers here.
- Calibrate.Calibrator.MemCalibrate: what each stage finds out is an answer of the environment; the stages themselves are modelled in the other modules and not called from it.
- CalibrationRuns.FomNeverWraps: the bound on the margins is a parameter, which `Deskew` shows to be the register range plus one; the largest sum fits 32 bits for the configured sizes by far.
- Calibrate.Centre events do not say which shadow register is centred: the answer may depend on the number of questions asked before, which tells it.
- CalibrationRuns.FailedRun: runs that sweep all groups; for them `SweptGroupIsAsked` and `SweptRegIsWritten` say that the sweep goes on.
- Words that combine fields with a bitwise or are sums, since the fields do not overlap.
- TclDebug: one access of the host writes all argument words, and one access of the sequencer runs a command with its effects; reading the status twice in one test of the loop is one access. The host is modelled from the comments in the code, since no host script is part of this model. Commands that only read or write single delay settings answer as illegal; user requests polled in the loop are not modelled.
- TclDebug and RwManager.State are values with step functions, not classes: the two parties of the handshake step in any order, which methods of an object could not express.
- I2c.I2cDev: `i2c_init`, `i2c_configure` and physical timing. A transfer takes effect when the control register is written and only its duration is left to the polls.
- D5m.WriteThenRead: when a transfer fails the value read says nothing, as in the code.
- Interrupts.Controller.Register: what a write before the table destroys is not modelled; the outcome only says that it happens, and where.
- Interrupts.Controller.Handle: entry with nothing pending is excluded, because the scan for a bit then has no end; handlers clear their own interrupt and do not register or unregister handlers.
- Interrupts.Controller: disabling interrupts around the table update is not modelled, since no step of the dispatcher falls between two writes of a registration.
- Caches.IndexesFlushedIff: regions that run past the top of the address space; `InstrCache.Flush` gives the exact indices for them too.
- Caches: one line per index, no speculation; the flush of an address drops its line whether or not the tag matches in the instruction cache, as the instruction does.
- WallClock.GetTimeOfDay: widths of `time_t` and `suseconds_t` and the time zone.
- File descriptors, alarms, profiling, busy sleep, system call stubs, the LCD and RTC applications and the camera pattern generator.
