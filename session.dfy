/**
 * One run of `main`, as the ordered trace of its effects on the outside
 * world: creating the output directory, opening the camera, taking each
 * picture and closing the camera again.
 *
 * `start` is what the command-line entry point assembled
 * (`StartTime.BuildStartTime`), so a rejected start time is part of the run.
 * The clock readings of the start gate, the session start `startT` and the
 * readings of the capture loop are inputs; whether the output directory
 * already exists is an input too.
 */
module Session {
  import opened DateTimes
  import opened Schedule
  import opened StartTime
  import opened StartGate
  import opened CaptureLoop

  datatype Event = MakeDir | OpenCamera | TakePicture | CloseCamera

  datatype Outcome =
    | StartRejected                     // `datetime.datetime(...)` raised before `main` ran
    | PlanFailed(error: ScheduleError)  // ZeroDivisionError while computing the plan
    | StillWaiting                      // the start time was not reached within the readings
    | SleepFailed                       // `time.sleep` of a negative interval raises after the first picture
    | StillCapturing                    // the capture time was not reached within the readings
    | Completed                         // "Capture complete!"

  function Pictures(n: nat): (s: seq<Event>)
    ensures |s| == n && forall k :: 0 <= k < n ==> s[k] == TakePicture
  {
    if n == 0 then [] else Pictures(n - 1) + [TakePicture]
  }

  /** `os.mkdir` runs only when the directory is missing. */
  function DirEvents(dirExists: bool): seq<Event>
  {
    if dirExists then [] else [MakeDir]
  }

  method RunSession(
    captureTime: real, movieDuration: int, framerate: int,
    start: Start, dirExists: bool,
    clock: seq<DateTime>, startT: real, times: seq<real>)
    returns (outcome: Outcome, events: seq<Event>)
    requires start.StartAt? ==> |clock| > 0
    // A start time that `datetime.datetime(...)` rejected ends the script
    // before `main`: before the plan and before any effect.
    ensures outcome.StartRejected? <==> start.InvalidStart?
    ensures outcome.StartRejected? ==> events == []
    // Both division failures happen before any effect.
    ensures var r := ComputePlan(captureTime, movieDuration, framerate);
      (outcome.PlanFailed? <==> !start.InvalidStart? && r.Failed?) &&
      (outcome.PlanFailed? ==> outcome.error == r.error && events == [])
    // The camera is not opened while the start time lies ahead.
    ensures outcome.StillWaiting? <==>
      ComputePlan(captureTime, movieDuration, framerate).Ok? && start.StartAt? &&
      FirstNotBefore(start.at, clock) == |clock|
    ensures outcome.StillWaiting? ==> events == DirEvents(dirExists)
    // A negative interval is not rejected before the camera opens: the first
    // sleep raises, and leaving the `with` block closes the camera.
    ensures outcome.SleepFailed? <==>
      var r := ComputePlan(captureTime, movieDuration, framerate);
      !start.InvalidStart? && r.Ok? && r.plan.interval < 0.0 &&
      (start.StartAt? ==> FirstNotBefore(start.at, clock) < |clock|)
    ensures outcome.SleepFailed? ==>
      events == DirEvents(dirExists) + [OpenCamera, TakePicture, CloseCamera]
    // Capture: one picture per loop iteration, the camera closed once on completion.
    ensures outcome.StillCapturing? || outcome.Completed? ==>
      var plan := ComputePlan(captureTime, movieDuration, framerate).plan;
      var stop := StopIndex(plan.captureTimeSec, Elapsed(startT, times));
      && (outcome.Completed? <==> stop < |times|)
      && events == DirEvents(dirExists) + [OpenCamera] +
           (if outcome.Completed? then Pictures(stop + 1) + [CloseCamera] else Pictures(|times|))
  {
    if start.InvalidStart? {
      return StartRejected, [];
    }
    var r := ComputePlan(captureTime, movieDuration, framerate);
    if r.Failed? {
      return PlanFailed(r.error), [];
    }
    var plan := r.plan;
    events := DirEvents(dirExists);
    if start.StartAt? {
      var reached, _ := WaitForStart(start.at, clock);
      if !reached {
        return StillWaiting, events;
      }
    }
    events := events + [OpenCamera];
    if plan.interval < 0.0 {
      return SleepFailed, events + [TakePicture, CloseCamera];
    }
    var captures, _, complete := Capture(plan.captureTimeSec, startT, times);
    events := events + Pictures(captures);
    if complete {
      events := events + [CloseCamera];
      outcome := Completed;
    } else {
      outcome := StillCapturing;
    }
  }

  /**
   * Each iteration sleeps `interval` seconds, so after k + 1 iterations at
   * least (k + 1) * interval seconds have elapsed: the loop then stops
   * within `totalPics` pictures.
   */
  lemma AtMostTotalPics(
    captureTime: real, movieDuration: int, framerate: int, plan: Plan,
    startT: real, times: seq<real>)
    requires ComputePlan(captureTime, movieDuration, framerate) == Ok(plan)
    requires 0 < plan.captureTimeSec && 0 < plan.movieFrames
    requires plan.movieFrames <= |times|
    requires forall k :: 0 <= k < |times| ==> (k + 1) as real * plan.interval <= times[k] - startT
    ensures StopIndex(plan.captureTimeSec, Elapsed(startT, times)) < plan.totalPics
  {
    StopsByFrames(plan.captureTimeSec, plan.movieFrames, plan.interval, Elapsed(startT, times));
  }

  /**
   * With no time lost outside the sleeps, the k-th reading is exactly
   * (k + 1) * interval after the start, and the loop takes exactly
   * `totalPics` pictures.
   */
  lemma ExactlyTotalPicsWithoutDrift(
    captureTime: real, movieDuration: int, framerate: int, plan: Plan,
    startT: real, times: seq<real>)
    requires ComputePlan(captureTime, movieDuration, framerate) == Ok(plan)
    requires 0 < plan.captureTimeSec && 0 < plan.movieFrames
    requires plan.movieFrames <= |times|
    requires forall k :: 0 <= k < |times| ==> times[k] - startT == (k + 1) as real * plan.interval
    ensures StopIndex(plan.captureTimeSec, Elapsed(startT, times)) + 1 == plan.totalPics
  {
    StopsAtFrames(plan.captureTimeSec, plan.movieFrames, plan.interval, Elapsed(startT, times));
  }

  lemma StopsByFrames(captureTimeSec: int, frames: int, interval: real, e: seq<real>)
    requires interval * frames as real == captureTimeSec as real
    requires 0 < frames <= |e|
    requires forall k :: 0 <= k < |e| ==> (k + 1) as real * interval <= e[k]
    ensures StopIndex(captureTimeSec, e) < frames
  {
    assert captureTimeSec as real <= e[frames - 1];
  }

  lemma StopsAtFrames(captureTimeSec: int, frames: int, interval: real, e: seq<real>)
    requires interval * frames as real == captureTimeSec as real
    requires 0 < captureTimeSec && 0 < frames <= |e|
    requires forall k :: 0 <= k < |e| ==> e[k] == (k + 1) as real * interval
    ensures StopIndex(captureTimeSec, e) == frames - 1
  {
    StopsByFrames(captureTimeSec, frames, interval, e);
    BelowUntilLastFrame(captureTimeSec, frames, interval, e);
    var i := StopIndex(captureTimeSec, e);
    assert captureTimeSec as real <= e[i];
  }

  lemma BelowUntilLastFrame(captureTimeSec: int, frames: int, interval: real, e: seq<real>)
    requires interval * frames as real == captureTimeSec as real
    requires 0 < captureTimeSec && 0 < frames <= |e|
    requires forall k :: 0 <= k < |e| ==> e[k] == (k + 1) as real * interval
    ensures forall k :: 0 <= k < frames - 1 ==> e[k] < captureTimeSec as real
  {
    PositiveFactor(interval, frames as real, captureTimeSec as real);
    forall k | 0 <= k < frames - 1
      ensures e[k] < captureTimeSec as real
    {
      ScaleStrictly((k + 1) as real, frames as real, interval);
    }
  }

  lemma PositiveFactor(q: real, m: real, c: real)
    requires q * m == c && 0.0 < m && 0.0 < c
    ensures 0.0 < q
  {
  }

  lemma ScaleStrictly(a: real, b: real, q: real)
    requires a < b && 0.0 < q
    ensures a * q < b * q
  {
  }

}
