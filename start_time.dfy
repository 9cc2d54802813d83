/**
 * The start time the command-line entry point assembles from the six
 * optional `--year ... --second` arguments and the current time.
 *
 * An argument counts only when it is truthy: a missing argument (None) and
 * an explicit 0 are both absent. Year, month, day and hour fall back to the
 * current time; minute and second fall back to 0, never to the current
 * minute or second. The microsecond is always 0.
 */
module StartTime {
  import opened Wrappers
  import opened DateTimes

  datatype StartArgs = StartArgs(
    year: Option<int>, month: Option<int>, day: Option<int>,
    hour: Option<int>, minute: Option<int>, second: Option<int>)

  /** What the assembly yields. */
  datatype Start =
    | NoStart                      // no time argument given: start immediately
    | StartAt(at: DateTime)        // a valid start time
    | InvalidStart(rejected: DateTime)  // `datetime.datetime(...)` raises (see `Valid`)

  /** Python truthiness of an `int or None` argument. */
  predicate Given(a: Option<int>)
  {
    a.Some? && a.value != 0
  }

  /** `any((args.year, ..., args.second))`. */
  predicate AnyGiven(args: StartArgs)
  {
    Given(args.year) || Given(args.month) || Given(args.day) ||
    Given(args.hour) || Given(args.minute) || Given(args.second)
  }

  function Override(a: Option<int>, fallback: int): int
  {
    if Given(a) then a.value else fallback
  }

  /** The fields handed to `datetime.datetime(...)`. */
  function Requested(args: StartArgs, now: DateTime): DateTime
  {
    DateTime(
      Override(args.year, now.year),
      Override(args.month, now.month),
      Override(args.day, now.day),
      Override(args.hour, now.hour),
      Override(args.minute, 0),
      Override(args.second, 0),
      0)
  }

  function BuildStartTime(args: StartArgs, now: DateTime): (r: Start)
    ensures r.NoStart? <==> !AnyGiven(args)
    ensures r.StartAt? ==> Valid(r.at)
    ensures r.InvalidStart? ==> !Valid(r.rejected)
  {
    if !AnyGiven(args) then NoStart
    else
      var d := Requested(args, now);
      if Valid(d) then StartAt(d) else InvalidStart(d)
  }

  /** The field each argument gives, or its fallback. */
  lemma StartTimeFields(args: StartArgs, now: DateTime)
    requires BuildStartTime(args, now).StartAt?
    ensures var d := BuildStartTime(args, now).at;
      && d.year == (if Given(args.year) then args.year.value else now.year)
      && d.month == (if Given(args.month) then args.month.value else now.month)
      && d.day == (if Given(args.day) then args.day.value else now.day)
      && d.hour == (if Given(args.hour) then args.hour.value else now.hour)
      && d.minute == (if Given(args.minute) then args.minute.value else 0)
      && d.second == (if Given(args.second) then args.second.value else 0)
      && d.microsecond == 0
  {
  }

  /** Validity is decided on the assembled fields alone. */
  lemma InvalidExactlyWhenOutOfRange(args: StartArgs, now: DateTime)
    requires AnyGiven(args)
    ensures BuildStartTime(args, now).InvalidStart? <==> !Valid(Requested(args, now))
  {
  }

  /** With all six arguments given, the current time plays no part. */
  lemma FullySpecifiedIgnoresNow(args: StartArgs, now1: DateTime, now2: DateTime)
    requires Given(args.year) && Given(args.month) && Given(args.day)
    requires Given(args.hour) && Given(args.minute) && Given(args.second)
    ensures BuildStartTime(args, now1) == BuildStartTime(args, now2)
  {
  }

  /**
   * Only the date fields (and the hour) are read from the current time: two
   * current times that differ only below the hour give the same start time.
   */
  lemma MinuteAndSecondNeverFromNow(args: StartArgs, now1: DateTime, now2: DateTime)
    requires now1.year == now2.year && now1.month == now2.month
    requires now1.day == now2.day && now1.hour == now2.hour
    ensures BuildStartTime(args, now1) == BuildStartTime(args, now2)
  {
  }

  /**
   * Giving only today's date, with or without a zero hour, yields the start
   * of the current hour, which is never after now: the gate opens at once.
   */
  lemma DateOnlyStartIsNotAfterNow(args: StartArgs, now: DateTime)
    requires Valid(now)
    requires !Given(args.hour) && !Given(args.minute) && !Given(args.second)
    requires !Given(args.year) || args.year.value == now.year
    requires !Given(args.month) || args.month.value == now.month
    requires !Given(args.day) || args.day.value == now.day
    requires AnyGiven(args)
    ensures BuildStartTime(args, now) ==
      StartAt(DateTime(now.year, now.month, now.day, now.hour, 0, 0, 0))
    ensures !Before(now, BuildStartTime(args, now).at)
  {
    var d := DateTime(now.year, now.month, now.day, now.hour, 0, 0, 0);
    assert Requested(args, now) == d;
    NotLexLessWhenPointwiseAtLeast(Fields(now), Fields(d));
  }

  /** `--hour 9 --second 0` at 14:45:10 on 2014-03-22: 09:00:00 that day, minute and second zeroed. */
  lemma HourOnlyExample()
    ensures BuildStartTime(
      StartArgs(None, None, None, Some(9), None, Some(0)),
      DateTime(2014, 3, 22, 14, 45, 10, 123456))
      == StartAt(DateTime(2014, 3, 22, 9, 0, 0, 0))
  {
  }

  /** An explicit 0 is the same as leaving the argument out. */
  lemma ZeroIsAbsent(args: StartArgs, now: DateTime)
    ensures BuildStartTime(args.(year := Some(0)), now) == BuildStartTime(args.(year := None), now)
    ensures BuildStartTime(args.(month := Some(0)), now) == BuildStartTime(args.(month := None), now)
    ensures BuildStartTime(args.(day := Some(0)), now) == BuildStartTime(args.(day := None), now)
    ensures BuildStartTime(args.(hour := Some(0)), now) == BuildStartTime(args.(hour := None), now)
    ensures BuildStartTime(args.(minute := Some(0)), now) == BuildStartTime(args.(minute := None), now)
    ensures BuildStartTime(args.(second := Some(0)), now) == BuildStartTime(args.(second := None), now)
  {
  }

}
