/**
 * The delayed-start gate of `main`: read the clock once, then keep reading
 * it while `now < startTime`.
 *
 * The clock is a finite sequence of readings: `clock[0]` is the reading
 * taken before the loop, `clock[k]` the one taken by its k-th iteration.
 * When the readings run out before the start time is reached, the model
 * reports that the script is still waiting.
 */
module StartGate {
  import opened DateTimes

  /** Index of the first reading that is not before `start`, or |clock|. */
  function FirstNotBefore(start: DateTime, clock: seq<DateTime>): (i: nat)
    ensures i <= |clock|
    ensures forall k :: 0 <= k < i ==> Before(clock[k], start)
    ensures i < |clock| ==> !Before(clock[i], start)
  {
    if clock == [] || !Before(clock[0], start) then 0
    else 1 + FirstNotBefore(start, clock[1..])
  }

  /** The readings never go back in time. */
  ghost predicate NonDecreasing(clock: seq<DateTime>)
  {
    forall i, j :: 0 <= i < j < |clock| ==> !Before(clock[j], clock[i])
  }

  /**
   * Polls the clock until it is no longer before `start`. `polls` is the
   * number of loop iterations; `reached` is false when the readings ran out
   * first.
   */
  method WaitForStart(start: DateTime, clock: seq<DateTime>) returns (reached: bool, polls: nat)
    requires |clock| > 0
    ensures reached <==> FirstNotBefore(start, clock) < |clock|
    ensures reached ==> polls == FirstNotBefore(start, clock) && !Before(clock[polls], start)
    ensures reached ==> forall k :: 0 <= k < polls ==> Before(clock[k], start)
    ensures !reached ==> polls == |clock| - 1
    ensures !Before(clock[0], start) ==> reached && polls == 0
  {
    var now := clock[0];
    polls := 0;
    while Before(now, start)
      invariant polls < |clock| && now == clock[polls]
      invariant forall k :: 0 <= k < polls ==> Before(clock[k], start)
      decreases |clock| - polls
    {
      if polls + 1 == |clock| {
        return false, polls;
      }
      polls := polls + 1;
      now := clock[polls];
    }
    reached := true;
  }

  /** A later start time never opens the gate earlier. */
  lemma LaterStartOpensNoEarlier(s1: DateTime, s2: DateTime, clock: seq<DateTime>)
    requires !Before(s2, s1)
    ensures FirstNotBefore(s1, clock) <= FirstNotBefore(s2, clock)
  {
    var i2 := FirstNotBefore(s2, clock);
    if i2 < |clock| {
      NotBeforeTransitive(clock[i2], s2, s1);
    }
  }

  /** On a clock that never goes back, once the start time is reached it stays reached. */
  lemma StaysOpen(start: DateTime, clock: seq<DateTime>, j: nat)
    requires NonDecreasing(clock)
    requires FirstNotBefore(start, clock) <= j < |clock|
    ensures !Before(clock[j], start)
  {
    var i := FirstNotBefore(start, clock);
    if i < j {
      NotBeforeTransitive(clock[j], clock[i], start);
    }
  }

}
