/** The civil date of a day count since 1 January 1970. */
module Calendar {

  datatype Date = Date(year: nat, month: nat, day: nat)

  predicate IsLeap(y: nat) { (y % 4 == 0 && y % 100 != 0) || y % 400 == 0 }

  function MonthDays(y: nat, m: nat): nat
    requires 1 <= m <= 12
  {
    [31, if IsLeap(y) then 29 else 28, 31, 30, 31, 30, 31, 31, 30, 31, 30, 31][m - 1]
  }

  predicate Valid(d: Date) {
    d.year >= 1970 && 1 <= d.month <= 12 && 1 <= d.day <= MonthDays(d.year, d.month)
  }

  /** Leap years before `y`, in closed form. */
  function LeapsBefore(y: nat): int
    requires y >= 1
  {
    (y - 1) / 4 - (y - 1) / 100 + (y - 1) / 400
  }

  function DaysBeforeYear(y: nat): int
    requires y >= 1970
  {
    365 * (y - 1970) + LeapsBefore(y) - LeapsBefore(1970)
  }

  function DaysBeforeMonth(y: nat, m: nat): int
    requires 1 <= m <= 13
  {
    [0, 31, 59, 90, 120, 151, 181, 212, 243, 273, 304, 334, 365][m - 1] + (if m > 2 && IsLeap(y) then 1 else 0)
  }

  /** Days from 1 January 1970 to a date, in closed form. */
  function DayNumber(d: Date): int
    requires Valid(d)
  {
    DaysBeforeYear(d.year) + DaysBeforeMonth(d.year, d.month) + d.day - 1
  }

  lemma LeapCounts(y: nat)
    requires y >= 1
    ensures LeapsBefore(y + 1) == LeapsBefore(y) + (if IsLeap(y) then 1 else 0)
  {
    Quotient(y, 4);
    Quotient(y, 100);
    Quotient(y, 400);
    LeapRule(y);
  }

  lemma LeapRule(y: nat)
    ensures y % 400 == 0 ==> y % 100 == 0
    ensures y % 100 == 0 ==> y % 4 == 0
  {
    if y % 400 == 0 { assert y == 100 * (4 * (y / 400)); }
    if y % 100 == 0 { assert y == 4 * (25 * (y / 100)); }
  }

  lemma YearLength(y: nat)
    requires y >= 1970
    ensures DaysBeforeYear(y + 1) == DaysBeforeYear(y) + DaysBeforeMonth(y, 13)
    ensures DaysBeforeMonth(y, 13) == if IsLeap(y) then 366 else 365
  {
    LeapCounts(y);
  }

  lemma Quotient(y: nat, n: nat)
    requires y >= 1 && (n == 4 || n == 100 || n == 400)
    ensures y / n == (y - 1) / n + (if y % n == 0 then 1 else 0)
  {
  }

  lemma MonthLength(y: nat, m: nat)
    requires 1 <= m <= 12
    ensures DaysBeforeMonth(y, m + 1) == DaysBeforeMonth(y, m) + MonthDays(y, m)
  {
  }

  /** The nested loops yield the one valid date whose day number is the input. */
  method EpochDaysToYmd(days: nat) returns (d: Date)
    ensures Valid(d) && DayNumber(d) == days
  {
    var y: nat := 1970;
    var remaining: nat := days;
    while remaining >= if IsLeap(y) then 366 else 365
      invariant y >= 1970 && DaysBeforeYear(y) + remaining == days
      decreases remaining
    {
      YearLength(y);
      remaining := remaining - if IsLeap(y) then 366 else 365;
      y := y + 1;
    }
    YearLength(y);
    var m: nat := 1;
    while m <= 12 && remaining >= MonthDays(y, m)
      invariant 1 <= m <= 13
      invariant DaysBeforeYear(y) + DaysBeforeMonth(y, m) + remaining == days
      invariant DaysBeforeMonth(y, m) + remaining < DaysBeforeMonth(y, 13)
      decreases 13 - m
    {
      MonthLength(y, m);
      remaining := remaining - MonthDays(y, m);
      m := m + 1;
    }
    d := Date(y, m, remaining + 1);
  }

  predicate Before(a: Date, b: Date) {
    a.year < b.year || (a.year == b.year && (a.month < b.month || (a.month == b.month && a.day < b.day)))
  }

  lemma {:induction false} YearsApart(y: nat, z: nat)
    requires 1970 <= y < z
    ensures DaysBeforeYear(y) + DaysBeforeMonth(y, 13) <= DaysBeforeYear(z)
    decreases z
  {
    if y + 1 < z { YearsApart(y, z - 1); YearLength(z - 1); }
    YearLength(y);
  }

  lemma {:induction false} MonthsApart(y: nat, m: nat, n: nat)
    requires 1 <= m < n <= 13
    ensures DaysBeforeMonth(y, m) + MonthDays(y, m) <= DaysBeforeMonth(y, n)
    decreases n
  {
  }

  lemma EarlierIsSmaller(a: Date, b: Date)
    requires Valid(a) && Valid(b) && Before(a, b)
    ensures DayNumber(a) < DayNumber(b)
  {
    if a.year < b.year {
      YearsApart(a.year, b.year);
      MonthsApart(a.year, a.month, 13);
    } else if a.month < b.month {
      MonthsApart(a.year, a.month, b.month);
    }
  }

  /** Day numbers order dates: one date for each count, later counts giving later dates. */
  lemma DayNumberOrders(a: Date, b: Date)
    requires Valid(a) && Valid(b)
    ensures DayNumber(a) < DayNumber(b) <==> Before(a, b)
    ensures DayNumber(a) == DayNumber(b) <==> a == b
  {
    if Before(a, b) { EarlierIsSmaller(a, b); }
    else if Before(b, a) { EarlierIsSmaller(b, a); }
  }
}
