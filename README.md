# Time-lapse capture schedule, start gate and capture loop

A model of the logic of `timelapse/timelapse.py`, the Raspberry Pi
time-lapse script. The script takes a capture time in hours, the length
of the movie to be made from the pictures and its frame rate. It derives
the interval between two pictures. It optionally waits until a start time
assembled from six command-line arguments. Then it captures a picture,
sleeps for one interval, and repeats until the capture time has elapsed.

The model has one module per piece:

- `Schedule` (`schedule.dfy`): the calculator at lines 48-51. It gives
  `captureTimeSec`, `movieFrames`, `interval` and `totalPics`, or one of
  its two ZeroDivisionErrors.
- `DateTimes` (`datetimes.dfy`): naive timestamps, with the field-by-field
  order that `now < startTime` uses, and the ranges outside which
  `datetime.datetime(...)` raises ValueError (or OverflowError for a value
  beyond a C int).
- `StartTime` (`start_time.dfy`): the start-time assembly at lines 115-142.
- `StartGate` (`start_gate.dfy`): the polling loop at lines 57-62, as a
  method over a finite sequence of clock readings.
- `CaptureLoop` (`capture_loop.dfy`): the loop at lines 80-89, as a method
  over the clock reading taken after each sleep. The camera is reduced to a
  count of captures.
- `Session` (`session.dfy`): `main` as a trace of its effects (create the
  directory, open the camera, take pictures, close the camera). It takes
  the start time as `BuildStartTime` assembled it. A start time that
  `datetime.datetime(...)` rejects at line 141 ends the script before `main`
  is called: before either ZeroDivisionError and before any effect. It also
  holds the lemmas that relate the capture loop to `totalPics`.
- `Wrappers` (`wrappers.dfy`): the `Option` type.

Modelling choices:

- The script is Python 2 code (`print` statements). Python's floats are
  modelled as exact reals, so the float-range errors are not modelled: NaN,
  infinity and overflow at line 48, and the conversion of a huge
  `movieFrames` to float at line 50 (see `Schedule.ComputePlan` under "Left
  out"). Python's `int(x)` is
  `TruncToInt`, which truncates toward zero, not `.Floor`.
- The clock and the elapsed-time observations are finite input sequences.
  When they run out first, the model reports that the script is still
  waiting (`StillWaiting`) or still capturing (`StillCapturing`).
- The script rejects only a zero movie length or frame rate, not negative
  ones, and it does not check that the capture time is positive. The model
  follows the code, so negative values go through the calculator. When
  exactly one of `captureTimeSec` and `movieFrames` is negative, the interval
  is negative. The camera is then opened and takes one picture. The first
  `time.sleep(interval)` (line 82) raises IOError, and leaving the `with`
  block closes the camera. The handler at line 90 catches only
  KeyboardInterrupt, so the process ends with that error: the `SleepFailed`
  outcome. When both are negative, the interval is positive and the run
  proceeds as usual.
- Under exact arithmetic, `totalPics` always equals `movieFrames`. This holds
  even when `captureTimeSec` was truncated, because the interval is computed
  from the truncated value. A `totalPics` that differs from `movieFrames`
  can only come from float rounding, which the model leaves out.

## Model

| member | source | states |
|---|---|---|
| Schedule.TruncToInt | timelapse/timelapse.py:48 | `int()` of a float keeps its sign and drops less than one unit, toward zero |
| Schedule.ComputePlan | timelapse/timelapse.py:48-51 | Raises ZeroDivisionError exactly when `movieFrames` is 0 or `captureTimeSec` truncates to 0, and names the failure that fires first. Otherwise `captureTimeSec` is the truncated hours × 3600, `movieFrames` is duration × fps, `interval × movieFrames == captureTimeSec` exactly, and `totalPics == movieFrames` |
| Schedule.Redivide | timelapse/timelapse.py:50-51 | Re-dividing the capture seconds by the interval gives back the frame count, and the interval is non-zero |
| Schedule.DefaultPlan | timelapse/timelapse.py:20-51 | Defaults of 1 hour, 60 s and 30 fps give 3600 s, 1800 frames, a 2.0 s interval and 1800 pictures |
| Schedule.SubSecondCaptureFails | timelapse/timelapse.py:48-51 | Every capture time under one second, of either sign, truncates to 0. With a non-zero frame count it fails at the re-division (line 51), not at line 50 |
| Schedule.NegativeIntervalWhenSignsDiffer | timelapse/timelapse.py:48-50 | The interval is negative exactly when one of `captureTimeSec` and `movieFrames` is negative; nothing rejects it |
| Schedule.NegativeDurationExample | timelapse/timelapse.py:48-51 | One hour for a -60 s movie at 30 fps gives a -2.0 s interval and -1800 pictures, not an error |
| Schedule.FractionalSecondDropped | timelapse/timelapse.py:48-51 | 1.0005 hours becomes 3601 s; the picture count is still 1800 |
| Schedule.ZeroFramesFailsFirst | timelapse/timelapse.py:49-50 | A zero duration or frame rate fails at line 50, whatever the capture time |
| DateTimes.BeforeIsStrictTotalOrder | timelapse/timelapse.py:60 | The timestamp comparison used by the gate is irreflexive, transitive and total |
| DateTimes.NotBeforeTransitive | timelapse/timelapse.py:60 | "Not before" (at or after) is transitive |
| StartTime.BuildStartTime | timelapse/timelapse.py:115-142 | No start time exactly when none of the six arguments is truthy. A start time that is produced satisfies `datetime`'s ranges; a rejected one does not |
| StartTime.StartTimeFields | timelapse/timelapse.py:118-142 | Year, month, day and hour take the argument when truthy and the current value otherwise. Minute and second take the argument or 0. The microsecond is 0 |
| StartTime.InvalidExactlyWhenOutOfRange | timelapse/timelapse.py:141-142 | With some argument given, `datetime(...)` raises exactly when the assembled fields are out of range: ValueError, or OverflowError for a value beyond a C int |
| StartTime.FullySpecifiedIgnoresNow | timelapse/timelapse.py:118-142 | With all six arguments given, the current time does not affect the result |
| StartTime.MinuteAndSecondNeverFromNow | timelapse/timelapse.py:123-140 | The current minute, second and microsecond never affect the result |
| StartTime.DateOnlyStartIsNotAfterNow | timelapse/timelapse.py:118-142 | Giving only today's date yields the start of the current hour, which is not after now |
| StartTime.HourOnlyExample | timelapse/timelapse.py:118-142 | `--hour 9 --second 0` at 14:45:10.123456 on 2014-03-22 gives 09:00:00 that day |
| StartTime.ZeroIsAbsent | timelapse/timelapse.py:117-140 | An explicit 0 argument behaves exactly like a missing one |
| StartGate.FirstNotBefore | timelapse/timelapse.py:58-62 | Every reading before the returned index is before the start time; the reading at the index, if any, is not |
| StartGate.WaitForStart | timelapse/timelapse.py:57-62 | The loop leaves exactly at the first reading not before the start time, after that many polls. If the first reading is already there, it polls zero times. If no reading gets there, it is still waiting at the last one |
| StartGate.LaterStartOpensNoEarlier | timelapse/timelapse.py:60-62 | A later start time never opens the gate at an earlier reading |
| StartGate.StaysOpen | timelapse/timelapse.py:60-62 | On a clock that never goes back, every reading from the opening one on is at or after the start time |
| CaptureLoop.Elapsed | timelapse/timelapse.py:83-84 | One elapsed time per reading. Readings that never go back give elapsed times that never go back |
| CaptureLoop.StaysPastCaptureTime | timelapse/timelapse.py:83-86 | On a clock that never goes back, every elapsed time from the stopping iteration on is at or above `captureTimeSec` |
| CaptureLoop.StopIndex | timelapse/timelapse.py:83-86 | Every elapsed time before the returned index is below `captureTimeSec`; the one at the index, if any, is at or above it |
| CaptureLoop.PercentBelowHundred | timelapse/timelapse.py:85-88 | Progress for a non-negative elapsed time below a positive capture time lies in [0, 100) |
| CaptureLoop.Capture | timelapse/timelapse.py:80-89 | The loop breaks on the first reading whose elapsed time reaches `captureTimeSec`, one capture per iteration. A percentage is reported only for elapsed times below the capture time, each equal to elapsed / captureTimeSec × 100 and in [0, 100) when elapsed is non-negative |
| Session.RunSession | timelapse/timelapse.py:48-146 | A start time rejected by `datetime(...)` ends the run before the plan and with no effect. Both division failures leave no effect: no directory and no camera. The directory is created only when missing. The camera is not opened while the start time lies ahead. A negative interval is not rejected beforehand: the camera opens, takes one picture, and closes when the first sleep raises. Otherwise the camera is opened once, takes one picture per loop iteration and is closed once on completion |
| Session.AtMostTotalPics | timelapse/timelapse.py:48-86 | If each iteration lasts at least one interval, the loop stops before the `totalPics`-th reading |
| Session.ExactlyTotalPicsWithoutDrift | timelapse/timelapse.py:48-86 | If each iteration lasts exactly one interval, the loop takes exactly `totalPics` pictures |

## Left out

- `timelapse/snapshot.py`: ten fixed captures and an unchecked `convert` shell call, with no logic of its own.
- Camera configuration (lines 70-79): resolution, rotation, preview, the 2-second warm-up and the file names that `capture_continuous` numbers. These live in the camera library. The quality test at line 74 compares the built-in `format` to `'jpeg'`, so it is never true and quality is never applied.
- Schedule.ComputePlan: exact reals have no NaN, infinity or overflow, so three float-range errors have no outcome in the model. `--captureTime nan` raises ValueError at `int(...)` on line 48. `inf`, or a value whose product with 3600 overflows, raises OverflowError there. At line 50, a `movieFrames` too large for a float (about 2^1024 in magnitude, e.g. `-dur` and `-fps` of 10^160 each) raises OverflowError when it is converted for the division; the model returns a plan for such input. All three happen before any effect.
- Real clocks and sleeps: readings are inputs, and sleeping only shows in the readings. The one sleep failure, a negative interval, is modelled as the `SleepFailed` outcome.
- Float rounding: a float `int(captureTimeSec / interval)` can fall one short of `movieFrames`, which the exact-real model cannot show.
- `KeyboardInterrupt` handling (lines 63-66, 90-92): asynchronous cancellation is not sequential logic.
- `os.path.isdir` / `os.mkdir` are reduced to the `dirExists` input and the `MakeDir` event. `argparse` parsing, the `isinstance` assertion (lines 45-46) and all printing are left out.
