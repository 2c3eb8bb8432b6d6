/**
 * Proleptic Gregorian calendar dates in the range of Python's `datetime`
 * (years 1 to 9999), the day before a date (`date - timedelta(days=1)`),
 * the day after it, and the `%Y%m%d` format used for day buckets.
 */
module Dates {
  import opened Wrappers
  import opened Decimal

  datatype Date = Date(year: int, month: int, day: int)

  const MinYear: int := 1
  const MaxYear: int := 9999

  predicate IsLeapYear(y: int) {
    y % 4 == 0 && (y % 100 != 0 || y % 400 == 0)
  }

  function DaysInMonth(y: int, m: int): (n: int)
    requires 1 <= m <= 12
    ensures 28 <= n <= 31
    ensures n == 29 <==> m == 2 && IsLeapYear(y)
  {
    if m == 2 then (if IsLeapYear(y) then 29 else 28)
    else if m == 4 || m == 6 || m == 9 || m == 11 then 30
    else 31
  }

  /** A date `datetime` can represent. */
  predicate Valid(d: Date) {
    && MinYear <= d.year <= MaxYear
    && 1 <= d.month <= 12
    && 1 <= d.day <= DaysInMonth(d.year, d.month)
  }

  /** Chronological order: `a` is a strictly earlier day than `b`. */
  predicate Before(a: Date, b: Date) {
    || a.year < b.year
    || (a.year == b.year && a.month < b.month)
    || (a.year == b.year && a.month == b.month && a.day < b.day)
  }

  const First: Date := Date(MinYear, 1, 1)
  const Last: Date := Date(MaxYear, 12, 31)

  /**
   * The calendar day before `d`, crossing month and year boundaries;
   * `None` for the first representable day, where Python raises
   * `OverflowError`.
   */
  function Predecessor(d: Date): (r: Option<Date>)
    requires Valid(d)
    ensures r.None? <==> d == First
    ensures r.Some? ==> Valid(r.value) && Before(r.value, d)
  {
    if d.day > 1 then Some(Date(d.year, d.month, d.day - 1))
    else if d.month > 1 then Some(Date(d.year, d.month - 1, DaysInMonth(d.year, d.month - 1)))
    else if d.year > MinYear then Some(Date(d.year - 1, 12, 31))
    else None
  }

  /** The calendar day after `d`; `None` after the last representable day. */
  function Successor(d: Date): (r: Option<Date>)
    requires Valid(d)
    ensures r.None? <==> d == Last
    ensures r.Some? ==> Valid(r.value) && Before(d, r.value)
  {
    if d.day < DaysInMonth(d.year, d.month) then Some(Date(d.year, d.month, d.day + 1))
    else if d.month < 12 then Some(Date(d.year, d.month + 1, 1))
    else if d.year < MaxYear then Some(Date(d.year + 1, 1, 1))
    else None
  }

  /** No valid date lies strictly between the predecessor of `d` and `d`. */
  lemma PredecessorIsImmediate(d: Date, e: Date)
    requires Valid(d) && Valid(e) && Before(e, d)
    ensures Predecessor(d).Some?
    ensures e == Predecessor(d).value || Before(e, Predecessor(d).value)
  {
  }

  lemma SuccessorOfPredecessor(d: Date)
    requires Valid(d) && d != First
    ensures Successor(Predecessor(d).value) == Some(d)
  {
  }

  lemma PredecessorOfSuccessor(d: Date)
    requires Valid(d) && d != Last
    ensures Predecessor(Successor(d).value) == Some(d)
  {
  }

  /** `strftime("%Y%m%d")`: four-digit year, two-digit month and day. */
  function Format(d: Date): (s: string)
    requires Valid(d)
    ensures |s| == 8 && AllDigits(s)
  {
    Padded(d.year, 4) + Padded(d.month, 2) + Padded(d.day, 2)
  }

  /** Reads a `YYYYMMDD` day token back; `None` when it is not one. */
  function Parse(s: string): (r: Option<Date>)
    ensures r.Some? ==> Valid(r.value)
  {
    if |s| == 8 && AllDigits(s) then
      var d := Date(ParseDigits(s[..4]), ParseDigits(s[4..6]), ParseDigits(s[6..]));
      if Valid(d) then Some(d) else None
    else None
  }

  lemma FormatRoundTrip(d: Date)
    requires Valid(d)
    ensures Parse(Format(d)) == Some(d)
  {
    var s := Format(d);
    assert s[..4] == Padded(d.year, 4);
    assert s[4..6] == Padded(d.month, 2);
    assert s[6..] == Padded(d.day, 2);
    PaddedRoundTrip(d.year, 4);
    PaddedRoundTrip(d.month, 2);
    PaddedRoundTrip(d.day, 2);
  }

  /** Distinct days get distinct bucket names. */
  lemma FormatInjective(d: Date, e: Date)
    requires Valid(d) && Valid(e) && Format(d) == Format(e)
    ensures d == e
  {
    FormatRoundTrip(d);
    FormatRoundTrip(e);
  }
}
