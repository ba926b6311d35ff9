/** Values shared by every part of the clinic model: optional and fallible
    results, the encoding of dates and times as integers, the strict
    interval-overlap test, and the decimal rendering of identifiers. */
module Common {

  datatype Option<+T> = None | Some(value: T)

  datatype Result<+T, +E> = Success(value: T) | Failure(error: E)

  /* ---------------------------------------------------------------------
     Time. An instant (a LocalDateTime) is a whole number of minutes since
     midnight of day 0; a date (a LocalDate) is a day number; a time of day
     (a LocalTime) is a number of minutes since midnight, 0 <= t < 1440.
     --------------------------------------------------------------------- */

  const MinutesPerDay := 1440

  predicate IsTimeOfDay(t: int) {
    0 <= t < MinutesPerDay
  }

  /** The instant `minute` minutes after the start of `date` (LocalDateTime.of). */
  function At(date: int, minute: int): int {
    date * MinutesPerDay + minute
  }

  /** The date an instant falls on (LocalDateTime.toLocalDate); Dafny's
      division rounds towards minus infinity for a positive divisor, as the
      calendar does for instants before day 0. */
  function DateOf(t: int): int {
    t / MinutesPerDay
  }

  /** The time of day of an instant (LocalDateTime.toLocalTime). */
  function TimeOf(t: int): int {
    t % MinutesPerDay
  }

  lemma AtRoundTrip(date: int, minute: int)
    requires IsTimeOfDay(minute)
    ensures DateOf(At(date, minute)) == date && TimeOf(At(date, minute)) == minute
  {
  }

  /** Day of the week of a date, 1 = Monday ... 7 = Sunday (java.time.DayOfWeek);
      day 0 (1970-01-01) is a Thursday. */
  function DayOfWeek(date: int): (d: int)
    ensures 1 <= d <= 7
    ensures date == 0 ==> d == 4
  {
    (date + 3) % 7 + 1
  }

  /** Consecutive dates have consecutive weekdays, and the week repeats every seven days. */
  lemma DayOfWeekCycle(date: int)
    ensures DayOfWeek(date + 7) == DayOfWeek(date)
    ensures DayOfWeek(date + 1) == if DayOfWeek(date) == 7 then 1 else DayOfWeek(date) + 1
  {
  }

  /* ---------------------------------------------------------------------
     Intervals
     --------------------------------------------------------------------- */

  /** Two half-open intervals [s1, e1) and [s2, e2) overlap: each starts
      strictly before the other ends, so intervals that only touch do not. */
  predicate Overlapping(s1: int, e1: int, s2: int, e2: int) {
    s1 < e2 && e1 > s2
  }

  lemma OverlappingSymmetric(s1: int, e1: int, s2: int, e2: int)
    ensures Overlapping(s1, e1, s2, e2) <==> Overlapping(s2, e2, s1, e1)
  {
  }

  lemma AdjacentNotOverlapping(s1: int, m: int, e2: int)
    ensures !Overlapping(s1, m, m, e2) && !Overlapping(m, e2, s1, m)
  {
  }

  /* ---------------------------------------------------------------------
     Decimal rendering (Integer.toString), used for actor tags such as
     "PATIENT:42".
     --------------------------------------------------------------------- */

  predicate IsDigit(c: char) {
    '0' <= c <= '9'
  }

  function DigitChar(d: int): (c: char)
    requires 0 <= d < 10
    ensures IsDigit(c) && c as int - '0' as int == d
  {
    (d + '0' as int) as char
  }

  function NatToString(n: nat): (s: string)
    ensures |s| >= 1 && forall i :: 0 <= i < |s| ==> IsDigit(s[i])
    ensures |s| > 1 ==> s[0] != '0'
  {
    if n < 10 then [DigitChar(n)] else NatToString(n / 10) + [DigitChar(n % 10)]
  }

  function DigitValue(c: char): nat
    requires IsDigit(c)
  {
    c as int - '0' as int
  }

  /** Reads back a string of digits. */
  function ParseNat(s: string): nat
    requires forall i :: 0 <= i < |s| ==> IsDigit(s[i])
  {
    if s == [] then 0
    else ParseNat(s[..|s| - 1]) * 10 + DigitValue(s[|s| - 1])
  }

  lemma {:induction false} ParseNatToString(n: nat)
    ensures ParseNat(NatToString(n)) == n
  {
    var s := NatToString(n);
    if n >= 10 {
      ParseNatToString(n / 10);
      assert s[..|s| - 1] == NatToString(n / 10);
    }
  }

  function IntToString(i: int): (s: string)
    ensures |s| >= 1
    ensures s[0] == '-' <==> i < 0
  {
    if i < 0 then "-" + NatToString(-i) else NatToString(i)
  }

  /** Distinct natural numbers have distinct renderings. */
  lemma NatToStringInjective(m: nat, n: nat)
    requires NatToString(m) == NatToString(n)
    ensures m == n
  {
    ParseNatToString(m);
    ParseNatToString(n);
  }

  /** Distinct numbers have distinct renderings. */
  lemma IntToStringInjective(i: int, j: int)
    requires IntToString(i) == IntToString(j)
    ensures i == j
  {
    if i < 0 && j < 0 {
      var a, b := NatToString(-i), NatToString(-j);
      assert a == ("-" + a)[1..] == ("-" + b)[1..] == b;
      NatToStringInjective(-i, -j);
    } else if i >= 0 && j >= 0 {
      NatToStringInjective(i, j);
    }
  }
}
