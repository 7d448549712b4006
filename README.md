# Racetrack lap timer: the two sensor state machines

A toy racetrack has a light sensor under the start/finish line. A
microcontroller streams brightness readings over a serial link. Two programs
turn those readings into timings, and this project models both in Dafny:

* **Lap counter** (`racetrack-counter-ui.py`). The `read_sensor` loop polls the
  link. A reading at or below `shadow_threshold`, while the light was last
  classified bright, counts one crossing. The first crossing starts the timer.
  The race ends when `number_laps + 1` crossings have been counted, and the
  result is the time since the first crossing. A reading at or above the
  threshold classifies the light as bright again. When no new line is
  waiting, the loop re-processes the last reading. A line that does not parse
  is skipped. The threshold is the midpoint of a bright and a dim level,
  computed once when the object is built. Calibration measures both levels as
  the mean of the readings in a window.
* **Start/stop timer** (`main.py`). This script keeps four module-level
  variables. A shadowed reading (`<= 700`) starts the timer when it is idle
  and armed. A later shadow stops it, but only if a lit reading (`>= 800`) has
  been seen since the start. After a stop, the timer can start again only
  once a lit reading has re-armed it. Readings between 700 and 800 do nothing.

Module layout:

* `wrappers.dfy` (`Wrappers`) holds `Option`, used for Python's `None`-or-value variables.
* `calibration.dfy` (`Calibration`) holds the threshold midpoint, the parsed-readings filter and the mean, with its bounds.
* `lap_counter.dfy` (`LapCounter`) holds one iteration of `read_sensor` as `Step` over the loop's state (`Counter`), the loop as `Run`, its invariant `Inv`, and the lemmas.
* `racetrack_ui.dfy` (`RacetrackUI`) holds the class `Racetrack` with the fields the source keeps: `bright_level`, `dim_level`, `shadow_threshold`, `number_laps` and `running`. It has the constructor's set-up, `MeasureLight` and `Calibrate`, `StartMeasurement` (the end of the countdown) and `ReadSensor`. `ReadSensor` is the polling loop written imperatively over the source's locals, and it is proved equal to `Run`.
* `start_stop_timer.dfy` (`StartStopTimer`) holds the timer script's transition as `Step` (built from `OnShadow` and `OnLit`), the loop as `Run`, the lemmas, and the class `TimerScript`. `TimerScript.Listen` is the script's `while True` loop, and it is proved equal to `Run`.

Inputs stand in for the hardware:

* A lap-counter poll is a `Tick`. It holds what the link yielded (`NoLine` when nothing was waiting, or `Line(parsed)`, where `parsed` is `None` for a line that did not parse) plus the clock reading `now`. This `now` replaces `time.time()`.
* A timer-script reading is a `Reading`. It holds the parsed line (or `None`) and its clock reading.
* A loop over finite input ends when the input runs out. This stands for the external `stop()` call or the script's keyboard interrupt.

The code has no debounce interval and no separate Idle/Running/Finished phase;
it keeps the flags `timer_running`, `start_time` and `running`. The finish test
is `lap_count >= number_laps + 1` (line 168). Lines that do not parse reach the
loop and are skipped there.

The model reproduces two behaviours of the code and proves them:

* A reading exactly equal to the threshold both counts and re-arms. Because the loop re-processes a stale reading, such a reading counts a lap on every poll with no new data. `OneThresholdReadingFinishesRace` shows that, with the default levels 600 and 250 (threshold 425), one reading of 425 followed by ten quiet polls finishes a ten-lap race.
* `calibrate` overwrites the two levels but never recomputes `shadow_threshold`. Calibration therefore has no effect on lap detection (`Racetrack.Calibrate`).

## Model

| member | source | states |
|---|---|---|
| Calibration.Midpoint | racetrack-counter-ui.py:22 | The threshold is equidistant from the dim and bright levels, and it lies strictly between them when bright exceeds dim. |
| Calibration.Parsed | racetrack-counter-ui.py:96-103 | A reading is kept exactly when some line parsed to it, there are no more readings than lines, and a single line yields its value when it parsed and nothing when it did not. |
| Calibration.ParsedAppend | racetrack-counter-ui.py:96-103 | Filtering a window split in two gives the first part's readings followed by the second's, so, with the single-line case, the kept readings are the parsed lines in arrival order with their repetitions. |
| Calibration.Average | racetrack-counter-ui.py:105 | The mean is 0 when no reading parsed, and otherwise the mean times the count is the sum of the readings. |
| Calibration.AverageBetween | racetrack-counter-ui.py:105 | The mean of a nonempty list of readings lies between its smallest and its largest reading. |
| RacetrackUI.Racetrack.constructor | racetrack-counter-ui.py:20-23 | Default levels are 600 and 250, the threshold is their midpoint 425, and a race is 10 laps. |
| RacetrackUI.Racetrack.MeasureLight | racetrack-counter-ui.py:89-106 | The loop collects the lines that parse. The result is 0 when none did, and otherwise their mean, which lies between their minimum and maximum. |
| RacetrackUI.Racetrack.Calibrate | racetrack-counter-ui.py:65-81 | Both levels become the means of their measuring windows, and the shadow threshold is left unchanged. |
| RacetrackUI.Racetrack.StartMeasurement | racetrack-counter-ui.py:135-138 | The countdown's end sets `running` and enters the polling loop, which ends in the state `Run` gives from a running start. |
| RacetrackUI.Racetrack.ReadSensor | racetrack-counter-ui.py:140-176 | The polling loop over the locals ends in exactly the state `Run` gives from the initial state, with `running` updated accordingly and the loop invariant holding. |
| LapCounter.Cross | racetrack-counter-ui.py:163-173 | An accepted crossing adds one lap and classifies the light dim. It sets the start time only when the timer was not running. The loop keeps running, and the timer too, only while the count is below `number_laps + 1`. Reaching it records the time since the start. |
| LapCounter.Step | racetrack-counter-ui.py:152-176 | An iteration adds exactly one lap when it sees a reading at or below the threshold after a bright classification, and no lap otherwise (the stale reading included). An unparsable line changes nothing. The stored reading becomes the new line only when one parsed. Without a crossing, the start time and `running` are unchanged. |
| LapCounter.Run | racetrack-counter-ui.py:152 | A loop entered with `running` false does nothing. A stopped loop never resumes, and the lap count never decreases. |
| LapCounter.StartInv | racetrack-counter-ui.py:143-150 | The state on entry to the loop satisfies the loop invariant. |
| LapCounter.StepPreservesInv | racetrack-counter-ui.py:160-176 | One iteration of the running loop keeps the invariant: bounded count, flags consistent with the count, and light classification consistent with the last reading. |
| LapCounter.RunPreservesInv | racetrack-counter-ui.py:152-176 | The whole loop keeps the invariant. |
| LapCounter.RunLapCountBounded | racetrack-counter-ui.py:167-170 | The lap count never decreases and never exceeds `number_laps + 1`. |
| LapCounter.DimStaysUncounted | racetrack-counter-ui.py:173-176 | Once the light is dim, readings strictly below the threshold count nothing and keep it dim. |
| LapCounter.StrictlyDimCountsAtMostOnce | racetrack-counter-ui.py:163-176 | A run of readings strictly below the threshold counts at most one lap. |
| LapCounter.ThresholdReadingCountsAndRearms | racetrack-counter-ui.py:163-176 | A reading equal to the threshold after a bright classification counts a lap and leaves the light classified bright. |
| LapCounter.StaleReprocessingIsNoOp | racetrack-counter-ui.py:153-176 | Re-processing the stale reading when nothing arrived leaves the state unchanged, unless that reading equals the threshold. |
| LapCounter.StaleThresholdReadingCountsEveryPoll | racetrack-counter-ui.py:153-176 | A stale reading equal to the threshold counts one lap on every quiet poll, and it finishes the race when the count reaches `number_laps + 1`. |
| LapCounter.OneThresholdReadingFinishesRace | racetrack-counter-ui.py:20-176 | With the default configuration, one reading of 425 and ten quiet polls finish the race with 11 crossings. |
| LapCounter.QuietBeforeFirstReading | racetrack-counter-ui.py:148-160 | Before any line has parsed, quiet polls and unparsable lines change nothing. |
| LapCounter.StepStartsTimer | racetrack-counter-ui.py:164-167 | The start time goes from unset to set exactly at the first crossing. It is then that poll's time, and the count is 1. |
| LapCounter.RunKeepsStartTime | racetrack-counter-ui.py:164-166 | Once set, the start time never changes for the rest of the loop. |
| LapCounter.StepFinishes | racetrack-counter-ui.py:168-172 | The loop stops exactly at the crossing that makes `number_laps + 1`. The result is that poll's time minus the start time. |
| LapCounter.RunStopsOnlyAtFinish | racetrack-counter-ui.py:152-172 | A loop entered running that stops has counted exactly `number_laps + 1` crossings and has a result. |
| LapCounter.RunElapsedNonNegative | racetrack-counter-ui.py:166-169 | When poll times never go backwards, the reported time is non-negative. |
| LapCounter.ThreeLapRace | racetrack-counter-ui.py:152-176 | With threshold 450 and 3 laps, four dim readings separated by lit ones finish the race with 4 crossings and a result of 3.0. |
| StartStopTimer.InitialInv | main.py:12-15 | The initial variables satisfy the invariant. |
| StartStopTimer.StepPreservesInv | main.py:31-50 | One reading keeps the invariant (ready-to-stop implies started; started implies armed and no stale result). |
| StartStopTimer.OnShadow | main.py:31-42 | A shadow never leaves the timer ready to stop and never arms a restart. A start gives `Timer(now, None, false, true)`, and a stop gives `Timer(None, now - start, false, false)`. Otherwise nothing changes. |
| StartStopTimer.OnLit | main.py:44-50 | A lit reading leaves the start time and the result alone. It makes a running timer ready to stop and re-arms an idle one. |
| StartStopTimer.Step | main.py:25-50 | An unparsable line changes nothing. Only a shadow changes the start time or the result, and only a shadow or a lit reading changes a flag. |
| StartStopTimer.Run | main.py:22-50 | The whole loop keeps the invariant, so `ready_to_stop` always implies a start time. |
| StartStopTimer.StepTakesOneBranch | main.py:25-50 | A reading takes the shadow branch, the lit branch or neither, never both. Readings that are unparsable or between 700 and 800 change nothing. |
| StartStopTimer.RunInertReadings | main.py:25-44 | Any number of unparsable or mid-band readings leave every variable unchanged. |
| StartStopTimer.StepStarts | main.py:31-34 | From idle, the timer starts exactly on a shadow while armed and not ready to stop. Starting records the time and clears the result. |
| StartStopTimer.StepStops | main.py:37-42 | A running timer stops exactly on a shadow once ready to stop. Stopping records the elapsed time and clears the start time and both flags. |
| StartStopTimer.StepArmsOnlyWhenLit | main.py:44-50 | Only a lit reading while running sets ready-to-stop, and only a lit reading while idle re-arms the start. |
| StartStopTimer.RunNoRestartWithoutLit | main.py:31-50 | After a stop, no new start happens until a lit reading arrives. |
| StartStopTimer.RunNoStopWithoutLit | main.py:37-47 | A started timer does not stop until a lit reading has been seen since the start. |
| StartStopTimer.RunElapsedNonNegative | main.py:33-38 | When clock readings never go backwards, the recorded elapsed time is non-negative. |
| StartStopTimer.TimerScript.constructor | main.py:12-15 | The module-level variables start unset, unset, false and true. |
| StartStopTimer.TimerScript.Listen | main.py:21-54 | The reading loop ends in exactly the state `Run` gives, and it keeps the invariant. |

## Left out

- Serial I/O is replaced by input sequences: opening the port, `reset_input_buffer`, `in_waiting`, `readline().decode`, and the `time.sleep` waits. `MeasureLight` receives the lines of its two-second window.
- Wall-clock time is replaced by a timestamp supplied with each poll. Within one iteration, the two `time.time()` calls of lines 166 and 169 read the same timestamp.
- Floating point is replaced by exact reals. `float("nan")` and `float("inf")` parse in Python, but reals cannot represent them. A NaN reading would neither count nor re-arm; the model does not represent it.
- The whole tkinter UI is out, as presentation only: windows, countdown, `update_ui`, the result screen and `return_to_main`. So is the `print` output of both programs. The attributes reset in `return_to_main` are never read.
- The daemon thread and the `root.after` hand-off are out. The model is single-threaded, and the external `stop()` is modelled as the end of the input.
- The upload to Google Sheets is out because it is a network call. The `mm:ss:hh` formatting is out because it depends on float `%` rounding. `upload-to-gsheets.py` and `test.py` are not part of this model.
- `running` is initialised to false by the constructor. The source has no such attribute until the countdown sets it (line 136), which `StartMeasurement` models.
- `number_laps` is a natural number here, while the source fixes it at the constant 10. Negative lap totals are therefore not modelled.
