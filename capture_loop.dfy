/**
 * The capture loop of `main`: take a picture, sleep `interval` seconds,
 * read the clock, and stop on the first iteration whose elapsed time since
 * the session start reaches `captureTimeSec`; otherwise report progress as a
 * percentage.
 *
 * The camera is a counter of captures. `times` holds the clock reading of
 * each iteration, taken after its sleep; when it runs out before the
 * threshold is reached, the model reports that the loop is still running.
 */
module CaptureLoop {

  /** The clock readings never go back. */
  ghost predicate NonDecreasingTimes(times: seq<real>)
  {
    forall i, j :: 0 <= i < j < |times| ==> times[i] <= times[j]
  }

  /**
   * `elapsedTime = timeNow - startT` for every reading: readings that never
   * go back give elapsed times that never go back.
   */
  function Elapsed(startT: real, times: seq<real>): (e: seq<real>)
    ensures |e| == |times|
    ensures forall k :: 0 <= k < |times| ==> e[k] + startT == times[k]
    ensures NonDecreasingTimes(times) ==> NonDecreasingTimes(e)
  {
    seq(|times|, k requires 0 <= k < |times| => times[k] - startT)
  }

  /** Index of the first elapsed time at or past `captureTimeSec`, or |elapsed|. */
  function StopIndex(captureTimeSec: int, elapsed: seq<real>): (i: nat)
    ensures i <= |elapsed|
    ensures forall k :: 0 <= k < i ==> elapsed[k] < captureTimeSec as real
    ensures i < |elapsed| ==> elapsed[i] >= captureTimeSec as real
  {
    if elapsed == [] || elapsed[0] >= captureTimeSec as real then 0
    else 1 + StopIndex(captureTimeSec, elapsed[1..])
  }

  /**
   * On a clock that never goes back, once the elapsed time reaches
   * `captureTimeSec` it stays there: the first such iteration is the only
   * stopping point the loop needs to test.
   */
  lemma StaysPastCaptureTime(captureTimeSec: int, startT: real, times: seq<real>, j: nat)
    requires NonDecreasingTimes(times)
    requires StopIndex(captureTimeSec, Elapsed(startT, times)) <= j < |times|
    ensures Elapsed(startT, times)[j] >= captureTimeSec as real
  {
  }

  /** `(elapsedTime / captureTimeSec) * 100`. */
  function Percent(elapsed: real, captureTimeSec: int): real
    requires captureTimeSec != 0
  {
    (elapsed / captureTimeSec as real) * 100.0
  }

  /** While the capture time is not reached, progress is in [0, 100). */
  lemma PercentBelowHundred(elapsed: real, captureTimeSec: int)
    requires 0 < captureTimeSec
    requires 0.0 <= elapsed < captureTimeSec as real
    ensures 0.0 <= Percent(elapsed, captureTimeSec) < 100.0
  {
  }

  /**
   * Runs the loop over the given readings. `captures` is the number of
   * pictures taken, `reports` the progress percentages printed, `complete`
   * whether the loop broke out.
   */
  method Capture(captureTimeSec: int, startT: real, times: seq<real>)
    returns (captures: nat, reports: seq<real>, complete: bool)
    requires captureTimeSec != 0
    ensures var stop := StopIndex(captureTimeSec, Elapsed(startT, times));
      && (complete <==> stop < |times|)
      && captures == (if complete then stop + 1 else |times|)
      && |reports| == stop
    ensures forall k :: 0 <= k < |reports| ==>
      times[k] - startT < captureTimeSec as real &&
      reports[k] == Percent(times[k] - startT, captureTimeSec)
    ensures 0 < captureTimeSec ==> forall k :: 0 <= k < |reports| && startT <= times[k] ==>
      0.0 <= reports[k] < 100.0
  {
    ghost var elapsedAll := Elapsed(startT, times);
    captures, reports, complete := 0, [], false;
    while captures < |times|
      invariant captures <= |times|
      invariant captures <= StopIndex(captureTimeSec, elapsedAll)
      invariant |reports| == captures
      invariant forall k :: 0 <= k < captures ==>
        times[k] - startT < captureTimeSec as real &&
        reports[k] == Percent(times[k] - startT, captureTimeSec)
      invariant 0 < captureTimeSec ==> forall k :: 0 <= k < captures && startT <= times[k] ==>
        0.0 <= reports[k] < 100.0
    {
      captures := captures + 1;           // the camera yields the next file
      var timeNow := times[captures - 1]; // after `time.sleep(interval)`
      var elapsedTime := timeNow - startT;
      if elapsedTime >= captureTimeSec as real {
        complete := true;
        return;
      }
      var percent := Percent(elapsedTime, captureTimeSec);
      if 0 < captureTimeSec && 0.0 <= elapsedTime {
        PercentBelowHundred(elapsedTime, captureTimeSec);
      }
      reports := reports + [percent];
    }
  }

}
