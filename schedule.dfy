/**
 * The schedule calculator at the top of `main`: from the capture time in
 * hours, the movie length in seconds and its frame rate, the interval
 * between two pictures and the number of pictures to expect.
 *
 * Python's floats are modelled as exact reals, and `int(x)` as truncation
 * toward zero.
 */
module Schedule {

  /** The two ZeroDivisionErrors the calculation can raise. */
  datatype ScheduleError =
    | ZeroMovieFrames   // `float(captureTimeSec) / movieFrames` with movieFrames == 0
    | ZeroInterval      // `captureTimeSec / interval` with interval == 0.0

  datatype Plan = Plan(captureTimeSec: int, movieFrames: int, interval: real, totalPics: int)

  datatype PlanResult = Ok(plan: Plan) | Failed(error: ScheduleError)

  /** Python's `int(x)` on a float: drop the fraction, toward zero. */
  function TruncToInt(x: real): (n: int)
    ensures 0.0 <= x ==> 0 <= n && n as real <= x < n as real + 1.0
    ensures x < 0.0 ==> n <= 0 && n as real - 1.0 < x <= n as real
  {
    if x >= 0.0 then x.Floor else -((-x).Floor)
  }

  lemma TruncOfWhole(n: int)
    ensures TruncToInt(n as real) == n
  {
  }

  /** Dividing c by c / f gives back f, when neither is zero. */
  lemma Redivide(c: real, f: real)
    requires c != 0.0 && f != 0.0
    ensures c / f != 0.0
    ensures c / (c / f) == f
  {
  }

  /** Lines 48-51 of the script, with their two failures. */
  function ComputePlan(captureTime: real, movieDuration: int, framerate: int): (r: PlanResult)
    ensures r.Failed? <==>
      movieDuration * framerate == 0 || TruncToInt(captureTime * 3600.0) == 0
    ensures r.Failed? ==> (r.error == ZeroMovieFrames <==> movieDuration * framerate == 0)
    ensures r.Ok? ==>
      && r.plan.captureTimeSec == TruncToInt(captureTime * 3600.0)
      && r.plan.movieFrames == movieDuration * framerate
      && r.plan.interval * r.plan.movieFrames as real == r.plan.captureTimeSec as real
      && r.plan.totalPics == r.plan.movieFrames
  {
    var captureTimeSec := TruncToInt(captureTime * 60.0 * 60.0);
    var movieFrames := movieDuration * framerate;
    if movieFrames == 0 then Failed(ZeroMovieFrames)
    else
      var interval := captureTimeSec as real / movieFrames as real;
      if interval == 0.0 then Failed(ZeroInterval)
      else
        Redivide(captureTimeSec as real, movieFrames as real);
        TruncOfWhole(movieFrames);
        Ok(Plan(captureTimeSec, movieFrames, interval, TruncToInt(captureTimeSec as real / interval)))
  }

  /** The documented default: one hour, a 60-second movie at 30 frames per second. */
  lemma DefaultPlan()
    ensures ComputePlan(1.0, 60, 30) == Ok(Plan(3600, 1800, 2.0, 1800))
  {
  }

  /**
   * A capture time under one second either way truncates to 0, so with a
   * non-zero frame count it fails at the re-division, not at line 50.
   */
  lemma SubSecondCaptureFails(captureTime: real, movieDuration: int, framerate: int)
    requires -1.0 < captureTime * 3600.0 < 1.0
    requires movieDuration * framerate != 0
    ensures ComputePlan(captureTime, movieDuration, framerate) == Failed(ZeroInterval)
  {
  }

  /**
   * The interval is negative exactly when one of `captureTimeSec` and
   * `movieFrames` is negative: the script does not reject negative inputs.
   */
  lemma NegativeIntervalWhenSignsDiffer(captureTime: real, movieDuration: int, framerate: int)
    requires ComputePlan(captureTime, movieDuration, framerate).Ok?
    ensures var p := ComputePlan(captureTime, movieDuration, framerate).plan;
      p.interval < 0.0 <==> (p.captureTimeSec < 0 <==> 0 < p.movieFrames)
  {
    var p := ComputePlan(captureTime, movieDuration, framerate).plan;
    QuotientSign(p.interval, p.movieFrames as real, p.captureTimeSec as real);
  }

  /** The sign of q in q * m == c, for non-zero m and c. */
  lemma QuotientSign(q: real, m: real, c: real)
    requires q * m == c && m != 0.0 && c != 0.0
    ensures q < 0.0 <==> (c < 0.0 <==> 0.0 < m)
  {
  }

  /** A one-hour capture for a movie of -60 seconds at 30 fps: interval -2.0. */
  lemma NegativeDurationExample()
    ensures ComputePlan(1.0, -60, 30) == Ok(Plan(3600, -1800, -2.0, -1800))
  {
  }

  /** A fractional second is dropped: 1.0005 hours is 3601 seconds, still 1800 pictures. */
  lemma FractionalSecondDropped()
    ensures ComputePlan(1.0005, 60, 30).Ok?
    ensures ComputePlan(1.0005, 60, 30).plan.captureTimeSec == 3601
    ensures ComputePlan(1.0005, 60, 30).plan.totalPics == 1800
  {
  }

  /** A zero movie length or frame rate fails first, whatever the capture time. */
  lemma ZeroFramesFailsFirst(captureTime: real, movieDuration: int, framerate: int)
    requires movieDuration == 0 || framerate == 0
    ensures ComputePlan(captureTime, movieDuration, framerate) == Failed(ZeroMovieFrames)
  {
  }

}
