/**
 * `java.time.LocalDateTime` as the entities use it: a date of the proleptic Gregorian
 * calendar with a time of day, the `isBefore`/`isAfter` comparisons, `plusDays`,
 * `plusHours`, `plusMonths`, `plusYears`, and `ChronoUnit.DAYS.between`. The current
 * instant (`LocalDateTime.now()`) is always passed in as a parameter.
 */
module Time {
  import Lex
  import opened Common

  /** The fields of a `LocalDateTime`. */
  datatype DateTimeFields = DateTime(year: int, month: int, day: int, hour: int, minute: int, second: int, nano: int)

  predicate IsLeapYear(y: int)
  {
    y % 4 == 0 && (y % 100 != 0 || y % 400 == 0)
  }

  function DaysInMonth(y: int, m: int): int
  {
    if m == 2 then (if IsLeapYear(y) then 29 else 28)
    else if m == 4 || m == 6 || m == 9 || m == 11 then 30
    else 31
  }

  /** The field ranges `LocalDateTime` enforces. */
  predicate Valid(t: DateTimeFields)
  {
    && 1 <= t.month <= 12 && 1 <= t.day <= DaysInMonth(t.year, t.month)
    && 0 <= t.hour < 24 && 0 <= t.minute < 60 && 0 <= t.second < 60 && 0 <= t.nano < 1_000_000_000
  }

  /** A `LocalDateTime`: only valid field combinations exist. */
  type DateTime = t: DateTimeFields | Valid(t) witness DateTime(2000, 1, 1, 0, 0, 0, 0)

  function DateKey(t: DateTime): seq<int>
  {
    [t.year, t.month, t.day]
  }

  function TimeKey(t: DateTime): seq<int>
  {
    [t.hour, t.minute, t.second, t.nano]
  }

  /** Instants compare field by field, from the year down to the nanosecond. */
  function Key(t: DateTime): (k: seq<int>)
    ensures |k| == 7 && k == DateKey(t) + TimeKey(t)
  {
    [t.year, t.month, t.day, t.hour, t.minute, t.second, t.nano]
  }

  /** `a.isBefore(b)`. */
  predicate Before(a: DateTime, b: DateTime)
  {
    Lex.Less(Key(a), Key(b))
  }

  /** `a.isAfter(b)`. */
  predicate After(a: DateTime, b: DateTime)
  {
    Before(b, a)
  }

  /** Distinct keys mean distinct instants, so exactly one of before, equal, after holds. */
  lemma Trichotomy(a: DateTime, b: DateTime)
    ensures Before(a, b) || a == b || After(a, b)
    ensures !(Before(a, b) && After(a, b)) && !Before(a, a)
  {
    Lex.LeqTotal(Key(a), Key(b));
    Lex.LessIsStrict(Key(a), Key(b));
    Lex.LessIsStrict(Key(a), Key(a));
    if Lex.Leq(Key(a), Key(b)) && Lex.Leq(Key(b), Key(a)) {
      Lex.LeqAntisymmetric(Key(a), Key(b));
    }
    if Key(a) == Key(b) {
      assert a.year == Key(a)[0] == Key(b)[0] == b.year;
      assert a.month == Key(a)[1] == Key(b)[1] == b.month;
      assert a.day == Key(a)[2] == Key(b)[2] == b.day;
      assert a.hour == Key(a)[3] == Key(b)[3] == b.hour;
      assert a.minute == Key(a)[4] == Key(b)[4] == b.minute;
      assert a.second == Key(a)[5] == Key(b)[5] == b.second;
      assert a.nano == Key(a)[6] == Key(b)[6] == b.nano;
    }
  }

  lemma BeforeTransitive(a: DateTime, b: DateTime, c: DateTime)
    requires Before(a, b) && Before(b, c)
    ensures Before(a, c)
  {
    Lex.LessTransitive(Key(a), Key(b), Key(c));
  }

  /** A nullable instant as a sort key, `NULL` first (the ascending order of MySQL and H2). */
  function NullsFirstKey(t: Option<DateTime>): (k: seq<int>)
    ensures |k| == 8
  {
    if t.None? then [0, 0, 0, 0, 0, 0, 0, 0] else [1] + Key(t.value)
  }

  /** A nullable instant as a sort key for `ASC NULLS LAST`. */
  function NullsLastKey(t: Option<DateTime>): (k: seq<int>)
    ensures |k| == 8
  {
    if t.None? then [1, 0, 0, 0, 0, 0, 0, 0] else [0] + Key(t.value)
  }

  /** Keys that share their first position compare as the rest of them do. */
  lemma LeqSameHead(h: int, a: seq<int>, b: seq<int>)
    ensures Lex.Leq([h] + a, [h] + b) <==> Lex.Leq(a, b)
  {
    assert ([h] + a)[1..] == a && ([h] + b)[1..] == b;
  }

  /** In `ASC NULLS LAST` order a NULL is followed only by NULLs, and set instants ascend. */
  lemma NullsLastOrder(a: Option<DateTime>, b: Option<DateTime>)
    requires Lex.Leq(NullsLastKey(a), NullsLastKey(b))
    ensures a.None? ==> b.None?
    ensures a.Some? && b.Some? ==> !Before(b.value, a.value)
  {
    if a.Some? && b.Some? {
      LeqSameHead(0, Key(a.value), Key(b.value));
    }
  }

  /** In `ASC` order (NULL first) a NULL is preceded only by NULLs, and set instants ascend. */
  lemma NullsFirstOrder(a: Option<DateTime>, b: Option<DateTime>)
    requires Lex.Leq(NullsFirstKey(a), NullsFirstKey(b))
    ensures b.None? ==> a.None?
    ensures a.Some? && b.Some? ==> !Before(b.value, a.value)
  {
    if a.Some? && b.Some? {
      LeqSameHead(1, Key(a.value), Key(b.value));
    }
  }

  // ---------------------------------------------------------------------------------------------
  // Arithmetic

  /** `t.plusMonths(n)`: the day is clamped to the length of the resulting month. */
  function PlusMonths(t: DateTime, n: nat): DateTime
  {
    var months := t.year * 12 + (t.month - 1) + n;
    var y := months / 12;
    var m := months % 12 + 1;
    t.(year := y, month := m, day := if t.day <= DaysInMonth(y, m) then t.day else DaysInMonth(y, m))
  }

  /** `t.plusYears(n)`: 29 February becomes 28 February in a common year. */
  function PlusYears(t: DateTime, n: nat): DateTime
  {
    var y := t.year + n;
    t.(year := y, day := if t.day <= DaysInMonth(y, t.month) then t.day else DaysInMonth(y, t.month))
  }

  /** The same time of day on the following date. */
  function NextDay(t: DateTime): DateTime
  {
    if t.day < DaysInMonth(t.year, t.month) then t.(day := t.day + 1)
    else if t.month < 12 then t.(month := t.month + 1, day := 1)
    else t.(year := t.year + 1, month := 1, day := 1)
  }

  /** `t.plusDays(n)`. */
  function PlusDays(t: DateTime, n: nat): DateTime
    decreases n
  {
    if n == 0 then t else PlusDays(NextDay(t), n - 1)
  }

  /** `t.plusHours(h)`: whole days carry into the date. */
  function PlusHours(t: DateTime, h: nat): DateTime
  {
    var hours := t.hour + h;
    PlusDays(t.(hour := hours % 24), hours / 24)
  }

  /** Adding a whole number of months, at least one, gives a valid and later instant. */
  lemma {:induction false} PlusMonthsLater(t: DateTime, n: nat)
    requires n >= 1
    ensures After(PlusMonths(t, n), t)
  {
    var months := t.year * 12 + (t.month - 1) + n;
    var y, m := months / 12, months % 12 + 1;
    assert (t.year * 12 + (t.month - 1)) / 12 == t.year;
    assert y > t.year || (y == t.year && m > t.month);
    var u := PlusMonths(t, n);
    assert DaysInMonth(y, m) >= 28;
    assert Lex.Less(Key(t), Key(u)) by {
      if y > t.year {
        assert Key(t)[0] < Key(u)[0];
      } else {
        assert Key(t)[0] == Key(u)[0] && Key(t)[1..][0] < Key(u)[1..][0];
      }
    }
  }

  /** Adding at least one year gives a valid and later instant. */
  lemma PlusYearsLater(t: DateTime, n: nat)
    requires n >= 1
    ensures After(PlusYears(t, n), t)
  {
    var u := PlusYears(t, n);
    assert DaysInMonth(u.year, u.month) >= 28;
    assert Key(t)[0] < Key(u)[0];
  }

  /** plusYears(1) and plusMonths(12) agree. */
  lemma PlusYearIsTwelveMonths(t: DateTime)
    ensures PlusYears(t, 1) == PlusMonths(t, 12)
  {
    var months := t.year * 12 + (t.month - 1) + 12;
    assert months == (t.year + 1) * 12 + (t.month - 1);
    assert months / 12 == t.year + 1 && months % 12 == t.month - 1;
  }

  lemma NextDayLater(t: DateTime)
    ensures After(NextDay(t), t) && TimeKey(NextDay(t)) == TimeKey(t)
  {
    var u := NextDay(t);
    var dt, du := DateKey(t), DateKey(u);
    assert Lex.Less(dt, du) by {
      if t.day < DaysInMonth(t.year, t.month) {
        assert dt[..2] == du[..2];
        Lex.LessAtFirstDifference(dt, du, 2);
      } else if t.month < 12 {
        assert dt[..1] == du[..1];
        Lex.LessAtFirstDifference(dt, du, 1);
      } else {
        Lex.LessAtFirstDifference(dt, du, 0);
      }
    }
    LaterByDate(t, u);
  }

  /** An instant on a later date is later, whatever the times of day. */
  lemma LaterByDate(a: DateTime, b: DateTime)
    requires Lex.Less(DateKey(a), DateKey(b))
    ensures Before(a, b)
  {
    Lex.LeqConcat(DateKey(b), TimeKey(b), DateKey(a), TimeKey(a));
    Lex.LessIsStrict(DateKey(a), DateKey(b));
  }

  /** Adding days keeps the time of day and, for at least one day, gives a later instant. */
  lemma {:induction false} PlusDaysLater(t: DateTime, n: nat)
    ensures TimeKey(PlusDays(t, n)) == TimeKey(t)
    ensures n >= 1 ==> After(PlusDays(t, n), t)
    decreases n
  {
    if n > 0 {
      NextDayLater(t);
      PlusDaysLater(NextDay(t), n - 1);
      if n > 1 {
        BeforeTransitive(t, NextDay(t), PlusDays(t, n));
      }
    }
  }

  /** `plusHours(24)` is `plusDays(1)`. */
  lemma DayInHours(t: DateTime)
    ensures PlusHours(t, 24) == PlusDays(t, 1)
  {
    assert (t.hour + 24) % 24 == t.hour && (t.hour + 24) / 24 == 1;
  }

  // ---------------------------------------------------------------------------------------------
  // ChronoUnit.DAYS.between

  /** The number of leap years in the interval [0, y) of the proleptic calendar (negative below 0). */
  function LeapYearsBefore(y: int): int
  {
    (y + 3) / 4 - (y + 99) / 100 + (y + 399) / 400
  }

  function DaysBeforeMonth(y: int, m: int): int
  {
    (if m <= 1 then 0 else if m == 2 then 31 else if m == 3 then 59 else if m == 4 then 90
     else if m == 5 then 120 else if m == 6 then 151 else if m == 7 then 181 else if m == 8 then 212
     else if m == 9 then 243 else if m == 10 then 273 else if m == 11 then 304 else 334)
    + (if m > 2 && IsLeapYear(y) then 1 else 0)
  }

  /** Consecutive dates have consecutive numbers (`LocalDate.toEpochDay` up to a constant). */
  function DayNumber(t: DateTime): int
  {
    365 * t.year + LeapYearsBefore(t.year) + DaysBeforeMonth(t.year, t.month) + t.day - 1
  }

  /**
   * `ChronoUnit.DAYS.between(start, end)`: the whole days from start to end, negative when end
   * is earlier; a partial day at either end does not count.
   */
  function DaysBetween(start: DateTime, end: DateTime): int
  {
    var adjust :=
      if Lex.Less(DateKey(start), DateKey(end)) && Lex.Less(TimeKey(end), TimeKey(start)) then -1
      else if Lex.Less(DateKey(end), DateKey(start)) && Lex.Less(TimeKey(start), TimeKey(end)) then 1
      else 0;
    DayNumber(end) + adjust - DayNumber(start)
  }

  /** The days between two instants change sign when the instants are swapped. */
  lemma DaysBetweenAntisymmetric(a: DateTime, b: DateTime)
    ensures DaysBetween(a, b) == -DaysBetween(b, a)
  {
    Lex.LessIsStrict(DateKey(a), DateKey(b));
    Lex.LessIsStrict(TimeKey(a), TimeKey(b));
  }

  lemma DaysBetweenSelf(a: DateTime)
    ensures DaysBetween(a, a) == 0
  {
    Lex.LessIsStrict(DateKey(a), DateKey(a));
  }

  lemma LeapYearStep(y: int)
    ensures LeapYearsBefore(y + 1) - LeapYearsBefore(y) == if IsLeapYear(y) then 1 else 0
  {
    assert (y + 4) / 4 - (y + 3) / 4 == if y % 4 == 0 then 1 else 0;
    assert (y + 100) / 100 - (y + 99) / 100 == if y % 100 == 0 then 1 else 0;
    assert (y + 400) / 400 - (y + 399) / 400 == if y % 400 == 0 then 1 else 0;
  }

  lemma NextDayNumber(t: DateTime)
    ensures DayNumber(NextDay(t)) == DayNumber(t) + 1
  {
    if t.day == DaysInMonth(t.year, t.month) && t.month == 12 {
      LeapYearStep(t.year);
    }
  }

  /** Adding n days to an instant puts exactly n days between them. */
  lemma {:induction false} DaysBetweenPlusDays(t: DateTime, n: nat)
    ensures DaysBetween(t, PlusDays(t, n)) == n
  {
    PlusDayNumber(t, n);
    PlusDaysLater(t, n);
    Lex.LessIsStrict(TimeKey(t), TimeKey(t));
  }

  lemma {:induction false} PlusDayNumber(t: DateTime, n: nat)
    ensures DayNumber(PlusDays(t, n)) == DayNumber(t) + n
    decreases n
  {
    if n > 0 {
      NextDayNumber(t);
      NextDayLater(t);
      PlusDayNumber(NextDay(t), n - 1);
    }
  }
}
