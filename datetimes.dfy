/**
 * Naive wall-clock timestamps as the timelapse script uses them: the value
 * returned by `datetime.datetime.now()` and the start time built from the
 * command line. Two timestamps compare field by field, most significant
 * first, which is how `now < startTime` is decided.
 */
module DateTimes {

  datatype DateTime = DateTime(
    year: int, month: int, day: int,
    hour: int, minute: int, second: int,
    microsecond: int)

  /** The fields of a timestamp, most significant first. */
  function Fields(d: DateTime): seq<int>
  {
    [d.year, d.month, d.day, d.hour, d.minute, d.second, d.microsecond]
  }

  /** Strict lexicographic order on sequences of equal length. */
  predicate LexLess(a: seq<int>, b: seq<int>)
    requires |a| == |b|
  {
    |a| > 0 && (a[0] < b[0] || (a[0] == b[0] && LexLess(a[1..], b[1..])))
  }

  /** `a < b` on timestamps. */
  predicate Before(a: DateTime, b: DateTime)
  {
    LexLess(Fields(a), Fields(b))
  }

  lemma {:induction false} LexLessIrreflexive(a: seq<int>)
    ensures !LexLess(a, a)
  {
    if |a| > 0 {
      LexLessIrreflexive(a[1..]);
    }
  }

  lemma {:induction false} LexLessTransitive(a: seq<int>, b: seq<int>, c: seq<int>)
    requires |a| == |b| == |c|
    requires LexLess(a, b) && LexLess(b, c)
    ensures LexLess(a, c)
  {
    if a[0] == b[0] == c[0] {
      LexLessTransitive(a[1..], b[1..], c[1..]);
    }
  }

  lemma {:induction false} LexLessTotal(a: seq<int>, b: seq<int>)
    requires |a| == |b|
    ensures a == b || LexLess(a, b) || LexLess(b, a)
  {
    if |a| > 0 && a[0] == b[0] {
      LexLessTotal(a[1..], b[1..]);
      if a[1..] == b[1..] {
        assert a == [a[0]] + a[1..] && b == [b[0]] + b[1..];
      }
    }
  }

  /** A sequence that is nowhere smaller than another is not below it. */
  lemma {:induction false} NotLexLessWhenPointwiseAtLeast(a: seq<int>, b: seq<int>)
    requires |a| == |b|
    requires forall i :: 0 <= i < |a| ==> b[i] <= a[i]
    ensures !LexLess(a, b)
  {
    if |a| > 0 {
      NotLexLessWhenPointwiseAtLeast(a[1..], b[1..]);
    }
  }

  /** `Before` is a strict total order, so `!Before(a, b)` reads `b <= a`. */
  lemma BeforeIsStrictTotalOrder(a: DateTime, b: DateTime, c: DateTime)
    ensures !Before(a, a)
    ensures Before(a, b) && Before(b, c) ==> Before(a, c)
    ensures a == b || Before(a, b) || Before(b, a)
  {
    LexLessIrreflexive(Fields(a));
    if Before(a, b) && Before(b, c) {
      LexLessTransitive(Fields(a), Fields(b), Fields(c));
    }
    LexLessTotal(Fields(a), Fields(b));
  }

  /** `b <= a` and `c <= b` give `c <= a`. */
  lemma NotBeforeTransitive(a: DateTime, b: DateTime, c: DateTime)
    requires !Before(a, b) && !Before(b, c)
    ensures !Before(a, c)
  {
    BeforeIsStrictTotalOrder(a, b, c);
    BeforeIsStrictTotalOrder(b, a, c);
    BeforeIsStrictTotalOrder(c, b, a);
    BeforeIsStrictTotalOrder(a, c, b);
  }

  predicate IsLeapYear(y: int)
  {
    y % 4 == 0 && (y % 100 != 0 || y % 400 == 0)
  }

  function DaysInMonth(year: int, month: int): int
    requires 1 <= month <= 12
  {
    if month == 2 then (if IsLeapYear(year) then 29 else 28)
    else if month == 4 || month == 6 || month == 9 || month == 11 then 30
    else 31
  }

  /**
   * The ranges `datetime.datetime(...)` accepts; outside them the
   * constructor raises ValueError, or OverflowError for a value beyond a
   * C int.
   */
  predicate Valid(d: DateTime)
  {
    && 1 <= d.year <= 9999
    && 1 <= d.month <= 12
    && 1 <= d.day <= DaysInMonth(d.year, d.month)
    && 0 <= d.hour < 24
    && 0 <= d.minute < 60
    && 0 <= d.second < 60
    && 0 <= d.microsecond < 1000000
  }

}
