/** Sortable release names and the rollback that depends on their order
    (cli/src/application/installation.rs). */
module ReleaseNames {
  import opened Wrappers

  // ------------------------------------------------------------------ calendar

  /** A broken-down UTC instant, to the millisecond. */
  datatype Civil = Civil(year: nat, month: nat, day: nat, hour: nat, minute: nat, second: nat, milli: nat)

  predicate LeapYear(year: nat) {
    year % 4 == 0 && (year % 100 != 0 || year % 400 == 0)
  }

  function DaysInMonth(year: nat, month: nat): nat {
    if month == 2 then (if LeapYear(year) then 29 else 28)
    else if month == 4 || month == 6 || month == 9 || month == 11 then 30
    else 31
  }

  predicate ValidCivil(c: Civil) {
    && 1970 <= c.year && 1 <= c.month <= 12 && 1 <= c.day <= DaysInMonth(c.year, c.month)
    && c.hour < 24 && c.minute < 60 && c.second < 60 && c.milli < 1000
  }

  /** "Seconds Since the Epoch", section 4.16 of POSIX.1-2017 Base Definitions,
      in days: the terms of that formula that depend on the year. */
  function DaysBeforeYear(year: nat): nat
    requires 1970 <= year
  {
    365 * (year - 1970) + (year - 1969) / 4 - (year - 1901) / 100 + (year - 1601) / 400
  }

  function DaysBeforeMonth(year: nat, month: nat): nat {
    if month <= 1 then 0 else DaysBeforeMonth(year, month - 1) + DaysInMonth(year, month - 1)
  }

  function DayNumber(c: Civil): nat
    requires ValidCivil(c)
  {
    DaysBeforeYear(c.year) + DaysBeforeMonth(c.year, c.month) + (c.day - 1)
  }

  function Millis(c: Civil): nat
    requires ValidCivil(c)
  {
    DayNumber(c) * 86_400_000 + TimeOfDay(c)
  }

  function TimeOfDay(c: Civil): nat {
    c.hour * 3_600_000 + c.minute * 60_000 + c.second * 1_000 + c.milli
  }

  lemma FourthYears(year: nat)
    requires 1970 <= year
    ensures (year - 1968) / 4 == (year - 1969) / 4 + (if year % 4 == 0 then 1 else 0)
  {
  }

  lemma Centuries(year: nat)
    requires 1970 <= year
    ensures (year - 1900) / 100 == (year - 1901) / 100 + (if year % 100 == 0 then 1 else 0)
  {
  }

  lemma FourthCenturies(year: nat)
    requires 1970 <= year
    ensures (year - 1600) / 400 == (year - 1601) / 400 + (if year % 400 == 0 then 1 else 0)
  {
  }

  lemma Fours(k: nat)
    ensures (4 * k) % 4 == 0
  {
  }

  lemma Hundreds(k: nat)
    ensures (100 * k) % 100 == 0
  {
  }

  lemma CenturiesAreFourthYears(year: nat)
    requires year % 100 == 0
    ensures year % 4 == 0
  {
    Fours(25 * (year / 100));
  }

  lemma FourthCenturiesAreCenturies(year: nat)
    requires year % 400 == 0
    ensures year % 100 == 0
  {
    Hundreds(4 * (year / 400));
  }

  lemma YearLength(year: nat)
    requires 1970 <= year
    ensures DaysBeforeYear(year + 1) == DaysBeforeYear(year) + (if LeapYear(year) then 366 else 365)
    ensures DaysBeforeMonth(year, 13) == if LeapYear(year) then 366 else 365
  {
    FourthYears(year);
    Centuries(year);
    FourthCenturies(year);
    if year % 400 == 0 {
      FourthCenturiesAreCenturies(year);
    }
    if year % 100 == 0 {
      CenturiesAreFourthYears(year);
    }
    MonthsAddUp(year);
  }

  lemma MonthsAddUp(year: nat)
    ensures DaysBeforeMonth(year, 13) == if LeapYear(year) then 366 else 365
  {
    var february := if LeapYear(year) then 29 else 28;
    assert DaysBeforeMonth(year, 2) == 31;
    assert DaysBeforeMonth(year, 3) == 31 + february;
    assert DaysBeforeMonth(year, 5) == 92 + february;
    assert DaysBeforeMonth(year, 7) == 153 + february;
    assert DaysBeforeMonth(year, 9) == 215 + february;
    assert DaysBeforeMonth(year, 11) == 276 + february;
  }

  /** The largest year whose first day is not after `day`. */
  function YearOf(day: nat, from: nat): (year: nat)
    requires 1970 <= from && DaysBeforeYear(from) <= day
    ensures from <= year && DaysBeforeYear(year) <= day < DaysBeforeYear(year + 1)
    decreases day - DaysBeforeYear(from)
  {
    YearLength(from);
    if day < DaysBeforeYear(from + 1) then from else YearOf(day, from + 1)
  }

  function MonthOf(year: nat, dayOfYear: nat, from: nat): (month: nat)
    requires 1 <= from <= 12
    requires DaysBeforeMonth(year, from) <= dayOfYear < DaysBeforeMonth(year, 13)
    ensures from <= month <= 12
    ensures DaysBeforeMonth(year, month) <= dayOfYear < DaysBeforeMonth(year, month + 1)
    decreases 12 - from
  {
    if from == 12 || dayOfYear < DaysBeforeMonth(year, from + 1) then from
    else MonthOf(year, dayOfYear, from + 1)
  }

  lemma SplitTime(time: nat)
    requires time < 86_400_000
    ensures time == time / 3_600_000 * 3_600_000 + time / 60_000 % 60 * 60_000
                    + time / 1_000 % 60 * 1_000 + time % 1_000
    ensures time / 3_600_000 < 24
  {
    var seconds := time / 1_000;
    var minutes := seconds / 60;
    assert time / 60_000 == minutes && time / 3_600_000 == minutes / 60;
  }

  /** `gmtime_r` by its contract: the one valid instant with this many
      milliseconds since the Epoch. */
  function Gmtime(millis: nat): (c: Civil)
    ensures ValidCivil(c) && Millis(c) == millis
  {
    var day, time := millis / 86_400_000, millis % 86_400_000;
    SplitTime(time);
    var year := YearOf(day, 1970);
    YearLength(year);
    var dayOfYear := day - DaysBeforeYear(year);
    var month := MonthOf(year, dayOfYear, 1);
    Civil(year, month, dayOfYear - DaysBeforeMonth(year, month) + 1,
          time / 3_600_000, time / 60_000 % 60, time / 1_000 % 60, time % 1_000)
  }

  lemma {:induction false} YearsGrow(early: nat, late: nat)
    requires 1970 <= early < late
    ensures DaysBeforeYear(early + 1) <= DaysBeforeYear(late)
  {
    if early + 1 < late {
      YearsGrow(early, late - 1);
      YearLength(late - 1);
    }
  }

  lemma {:induction false} MonthsGrow(year: nat, early: nat, late: nat)
    requires 1 <= early < late
    ensures DaysBeforeMonth(year, early + 1) <= DaysBeforeMonth(year, late)
  {
    if early + 1 < late {
      MonthsGrow(year, early, late - 1);
    }
  }

  function Fields(c: Civil): seq<nat> {
    [c.year, c.month, c.day, c.hour, c.minute, c.second, c.milli]
  }

  /** Dictionary order of two field lists of one length. */
  predicate FieldsLess(a: seq<nat>, b: seq<nat>)
    requires |a| == |b|
  {
    a != [] && (a[0] < b[0] || (a[0] == b[0] && FieldsLess(a[1..], b[1..])))
  }

  predicate Earlier(c: Civil, d: Civil) {
    FieldsLess(Fields(c), Fields(d))
  }

  predicate DateEarlier(c: Civil, d: Civil) {
    c.year < d.year || (c.year == d.year && (c.month < d.month || (c.month == d.month && c.day < d.day)))
  }

  predicate TimeEarlier(c: Civil, d: Civil) {
    c.hour < d.hour || (c.hour == d.hour && (c.minute < d.minute || (c.minute == d.minute &&
      (c.second < d.second || (c.second == d.second && c.milli < d.milli)))))
  }

  predicate SameDate(c: Civil, d: Civil) {
    c.year == d.year && c.month == d.month && c.day == d.day
  }

  lemma EarlierByFields(c: Civil, d: Civil)
    ensures Earlier(c, d) <==> DateEarlier(c, d) || (SameDate(c, d) && TimeEarlier(c, d))
  {
    var a, b := Fields(c), Fields(d);
    assert a[1..][1..][1..] == [c.hour, c.minute, c.second, c.milli];
    assert b[1..][1..][1..] == [d.hour, d.minute, d.second, d.milli];
    ClockFields(c, d);
    assert FieldsLess(a[1..], b[1..]) <==>
      c.month < d.month || (c.month == d.month && FieldsLess(a[1..][1..], b[1..][1..]));
  }

  lemma ClockFields(c: Civil, d: Civil)
    ensures FieldsLess([c.hour, c.minute, c.second, c.milli], [d.hour, d.minute, d.second, d.milli])
      <==> TimeEarlier(c, d)
  {
    var a, b := [c.hour, c.minute, c.second, c.milli], [d.hour, d.minute, d.second, d.milli];
    assert a[1..][1..] == [c.second, c.milli] && b[1..][1..] == [d.second, d.milli];
    assert FieldsLess(a[1..], b[1..]) <==>
      c.minute < d.minute || (c.minute == d.minute && FieldsLess([c.second, c.milli], [d.second, d.milli]));
    assert [c.second, c.milli][1..] == [c.milli] && [d.second, d.milli][1..] == [d.milli];
    assert FieldsLess([c.milli], [d.milli]) <==> c.milli < d.milli;
  }

  lemma EarlierDateIsAnEarlierDay(c: Civil, d: Civil)
    requires ValidCivil(c) && ValidCivil(d) && DateEarlier(c, d)
    ensures DayNumber(c) < DayNumber(d)
  {
    if c.year < d.year {
      YearsGrow(c.year, d.year);
      YearLength(c.year);
      if c.month < 12 {
        MonthsGrow(c.year, c.month, 13);
      }
    } else if c.month < d.month {
      MonthsGrow(c.year, c.month, d.month);
    }
  }

  /** Field order is time order, in both directions. */
  lemma EarlierIsFewerMillis(c: Civil, d: Civil)
    requires ValidCivil(c) && ValidCivil(d)
    ensures Earlier(c, d) <==> Millis(c) < Millis(d)
    ensures c == d <==> Millis(c) == Millis(d)
  {
    EarlierByFields(c, d);
    if DateEarlier(c, d) {
      EarlierDateIsAnEarlierDay(c, d);
    } else if DateEarlier(d, c) {
      EarlierDateIsAnEarlierDay(d, c);
    } else {
      assert DayNumber(c) == DayNumber(d);
    }
  }

  /** The months' lengths against the Gregorian calendar in closed form. */
  lemma {:induction false} MonthsAreGregorian(year: nat, month: nat)
    requires 1 <= month <= 12
    ensures DaysBeforeMonth(year, month) ==
      (367 * month - 362) / 12 - (if month <= 2 then 0 else if LeapYear(year) then 1 else 2)
  {
    if month > 1 {
      MonthsAreGregorian(year, month - 1);
    }
  }

  /** The fixed day of a Gregorian date, in closed form; the Epoch is day 719163. */
  function FixedDay(year: nat, month: nat, day: nat): int {
    365 * (year - 1) + (year - 1) / 4 - (year - 1) / 100 + (year - 1) / 400
      + (367 * month - 362) / 12 - (if month <= 2 then 0 else if LeapYear(year) then 1 else 2) + day
  }

  /** Counting by years and months gives the day of the closed form. */
  lemma DaysAreGregorian(c: Civil)
    requires ValidCivil(c)
    ensures DayNumber(c) == FixedDay(c.year, c.month, c.day) - 719_163
  {
    MonthsAreGregorian(c.year, c.month);
    assert (c.year - 1) / 4 == (c.year - 1969) / 4 + 492;
    assert (c.year - 1) / 100 == (c.year - 1901) / 100 + 19;
    assert (c.year - 1) / 400 == (c.year - 1601) / 400 + 4;
  }

  /** The conversion inverts the count of milliseconds. */
  lemma GmtimeInverts(c: Civil)
    requires ValidCivil(c)
    ensures Gmtime(Millis(c)) == c
  {
    EarlierIsFewerMillis(Gmtime(Millis(c)), c);
  }

  // ---------------------------------------------------------------- formatting

  /** Byte order of two ASCII strings. */
  predicate Less(a: string, b: string) {
    b != "" && (a == "" || a[0] < b[0] || (a[0] == b[0] && Less(a[1..], b[1..])))
  }

  predicate IsDigit(c: char) {
    '0' <= c <= '9'
  }

  function Digit(n: nat): (c: char)
    requires n < 10
    ensures IsDigit(c)
  {
    '0' + n as char
  }

  function Decimal(n: nat): (text: string)
    ensures text != ""
  {
    if n < 10 then [Digit(n)] else Decimal(n / 10) + [Digit(n % 10)]
  }

  /** Decimal text, zero-padded to at least `width` characters. */
  function Padded(n: nat, width: nat): string {
    if width <= 1 then Decimal(n) else Padded(n / 10, width - 1) + [Digit(n % 10)]
  }

  function Power10(width: nat): nat {
    if width == 0 then 1 else 10 * Power10(width - 1)
  }

  lemma {:induction false} PaddedWidth(n: nat, width: nat)
    requires 1 <= width
    ensures n < Power10(width) ==> |Padded(n, width)| == width && forall c | c in Padded(n, width) :: IsDigit(c)
    ensures Power10(width) <= n ==> |Padded(n, width)| > width
  {
    if width == 1 {
      assert Power10(1) == 10;
    } else {
      PaddedWidth(n / 10, width - 1);
    }
  }

  lemma {:induction false} LessByPrefix(a: string, x: string, b: string, y: string)
    requires |a| == |b|
    ensures Less(a + x, b + y) <==> Less(a, b) || (a == b && Less(x, y))
  {
    if a == "" {
      assert a + x == x && b + y == y;
    } else {
      assert (a + x)[1..] == a[1..] + x && (b + y)[1..] == b[1..] + y;
      LessByPrefix(a[1..], x, b[1..], y);
      assert a == b <==> a[0] == b[0] && a[1..] == b[1..] by {
        assert a == [a[0]] + a[1..] && b == [b[0]] + b[1..];
      }
    }
  }

  lemma {:induction false} PaddedOrder(n: nat, m: nat, width: nat)
    requires 1 <= width && n < Power10(width) && m < Power10(width)
    ensures Less(Padded(n, width), Padded(m, width)) <==> n < m
    ensures Padded(n, width) == Padded(m, width) <==> n == m
  {
    if width == 1 {
      assert Power10(1) == 10;
      assert Less([Digit(n)], [Digit(m)]) <==> n < m;
    } else {
      PaddedOrder(n / 10, m / 10, width - 1);
      PaddedWidth(n / 10, width - 1);
      PaddedWidth(m / 10, width - 1);
      LessByPrefix(Padded(n / 10, width - 1), [Digit(n % 10)], Padded(m / 10, width - 1), [Digit(m % 10)]);
      assert Less([Digit(n % 10)], [Digit(m % 10)]) <==> n % 10 < m % 10;
      var p, q := Padded(n, width), Padded(m, width);
      assert p[..width - 1] == Padded(n / 10, width - 1) && q[..width - 1] == Padded(m / 10, width - 1);
      assert p == q ==> p[width - 1] == q[width - 1];
    }
  }

  datatype Column = Column(width: nat, suffix: string)

  /** `{:04}{:02}{:02}T{:02}{:02}{:02}.{:03}Z` */
  const FORMAT: seq<Column> := [
    Column(4, ""), Column(2, ""), Column(2, "T"),
    Column(2, ""), Column(2, ""), Column(2, "."), Column(3, "Z")]

  function Written(columns: seq<Column>, values: seq<nat>): string
    requires |columns| == |values|
  {
    if columns == [] then ""
    else Padded(values[0], columns[0].width) + columns[0].suffix + Written(columns[1..], values[1..])
  }

  ghost predicate Fits(columns: seq<Column>, values: seq<nat>) {
    && |columns| == |values|
    && forall i | 0 <= i < |columns| :: 1 <= columns[i].width && values[i] < Power10(columns[i].width)
  }

  lemma PrefixedOrder(p: string, q: string, suffix: string, x: string, y: string)
    requires |p| == |q|
    ensures Less(p + suffix + x, q + suffix + y) <==> Less(p, q) || (p == q && Less(x, y))
  {
    assert p + suffix + x == p + (suffix + x) && q + suffix + y == q + (suffix + y);
    LessByPrefix(p, suffix + x, q, suffix + y);
    LessByPrefix(suffix, x, suffix, y);
    LessIsStrict(suffix);
  }

  lemma PrefixedEquality(p: string, q: string, suffix: string, x: string, y: string)
    requires |p| == |q|
    ensures p + suffix + x == q + suffix + y <==> p == q && x == y
  {
    SamePrefix(p + suffix, x, q + suffix, y);
    SamePrefix(p, suffix, q, suffix);
  }

  /** One column and what follows it. */
  lemma ColumnFirst(width: nat, suffix: string, n: nat, x: string, m: nat, y: string)
    requires 1 <= width && n < Power10(width) && m < Power10(width)
    ensures |Padded(n, width)| == |Padded(m, width)|
    ensures Less(Padded(n, width) + suffix + x, Padded(m, width) + suffix + y) <==> n < m || (n == m && Less(x, y))
    ensures Padded(n, width) + suffix + x == Padded(m, width) + suffix + y <==> n == m && x == y
  {
    PaddedOrder(n, m, width);
    PaddedWidth(n, width);
    PaddedWidth(m, width);
    PrefixedOrder(Padded(n, width), Padded(m, width), suffix, x, y);
    PrefixedEquality(Padded(n, width), Padded(m, width), suffix, x, y);
  }

  /** Fixed-width columns sort as their values do. */
  lemma {:induction false} ColumnsSortAsValues(columns: seq<Column>, a: seq<nat>, b: seq<nat>)
    requires Fits(columns, a) && Fits(columns, b)
    ensures Less(Written(columns, a), Written(columns, b)) <==> FieldsLess(a, b)
    ensures Written(columns, a) == Written(columns, b) <==> a == b
    ensures |Written(columns, a)| == |Written(columns, b)|
    decreases |columns|
  {
    if columns == [] {
    } else {
      ColumnsSortAsValues(columns[1..], a[1..], b[1..]);
      ColumnFirst(columns[0].width, columns[0].suffix,
                  a[0], Written(columns[1..], a[1..]), b[0], Written(columns[1..], b[1..]));
      assert a == [a[0]] + a[1..] && b == [b[0]] + b[1..];
    }
  }

  lemma SamePrefix(a: string, x: string, b: string, y: string)
    requires |a| == |b|
    ensures a + x == b + y <==> a == b && x == y
  {
    if a + x == b + y {
      assert a == (a + x)[..|a|] == (b + y)[..|b|] == b;
      assert x == (a + x)[|a|..] == (b + y)[|b|..] == y;
    }
  }

  lemma {:induction false} LessIsStrict(a: string)
    ensures !Less(a, a)
  {
    if a != "" {
      LessIsStrict(a[1..]);
    }
  }

  function Timestamp(c: Civil): string {
    Written(FORMAT, Fields(c))
  }

  const TIME_T_MAX: nat := 0x7FFF_FFFF_FFFF_FFFF

  datatype ClockError = BeforeEpoch | OutOfRange | NotConverted

  /** `sortable_utc_timestamp`; `converted`: the conversion to civil time yields one. */
  function SortableUtcTimestamp(millis: int, converted: bool): (r: Result<string, ClockError>)
    ensures r.Ok? <==> 0 <= millis && millis / 1_000 <= TIME_T_MAX && converted
    ensures r == Err(BeforeEpoch) <==> millis < 0
    ensures r == Err(OutOfRange) <==> millis / 1_000 > TIME_T_MAX
  {
    if millis < 0 then Err(BeforeEpoch)
    else if millis / 1_000 > TIME_T_MAX then Err(OutOfRange)
    else if !converted then Err(NotConverted)
    else Ok(Timestamp(Gmtime(millis)))
  }

  lemma Powers()
    ensures Power10(2) == 100 && Power10(3) == 1_000 && Power10(4) == 10_000
  {
    assert Power10(1) == 10;
  }

  lemma TimestampFits(c: Civil)
    requires ValidCivil(c) && c.year <= 9999
    ensures Fits(FORMAT, Fields(c))
  {
    Powers();
  }

  /** Byte order of timestamps is time order to the millisecond through year 9999. */
  lemma TimestampsSortByTime(early: nat, late: nat)
    requires Gmtime(early).year <= 9999 && Gmtime(late).year <= 9999
    ensures Less(Timestamp(Gmtime(early)), Timestamp(Gmtime(late))) <==> early < late
    ensures Timestamp(Gmtime(early)) == Timestamp(Gmtime(late)) <==> early == late
    ensures |Timestamp(Gmtime(early))| == |Timestamp(Gmtime(late))|
  {
    var c, d := Gmtime(early), Gmtime(late);
    TimestampFits(c);
    TimestampFits(d);
    ColumnsSortAsValues(FORMAT, Fields(c), Fields(d));
    EarlierIsFewerMillis(c, d);
    assert Fields(c) == Fields(d) <==> c == d by {
      if Fields(c) == Fields(d) {
        assert Fields(c)[0] == Fields(d)[0] && Fields(c)[1] == Fields(d)[1] && Fields(c)[2] == Fields(d)[2]
          && Fields(c)[3] == Fields(d)[3] && Fields(c)[4] == Fields(d)[4] && Fields(c)[5] == Fields(d)[5]
          && Fields(c)[6] == Fields(d)[6];
      }
    }
  }

  /** So do the timestamps of any two clock readings that yield one. */
  lemma SortableTimestampsSort(early: int, late: int)
    requires SortableUtcTimestamp(early, true).Ok? && SortableUtcTimestamp(late, true).Ok?
    requires Gmtime(early).year <= 9999 && Gmtime(late).year <= 9999
    ensures var (a, b) := (SortableUtcTimestamp(early, true).value, SortableUtcTimestamp(late, true).value);
            |a| == |b| && (Less(a, b) <==> early < late) && (a == b <==> early == late)
  {
    TimestampsSortByTime(early, late);
  }

  // --------------------------------------------------------------- the names

  predicate IsHexDigit(c: char) {
    IsDigit(c) || 'a' <= c <= 'f' || 'A' <= c <= 'F'
  }

  predicate ValidReleaseName(name: string) {
    && |name| == 29
    && name[8] == 'T' && name[15] == '.' && name[19] == 'Z' && name[20] == '-'
    && (forall i | 0 <= i < 8 :: IsDigit(name[i]))
    && (forall i | 9 <= i < 15 :: IsDigit(name[i]))
    && (forall i | 16 <= i < 19 :: IsDigit(name[i]))
    && (forall i | 21 <= i < 29 :: IsHexDigit(name[i]))
  }

  /** The first eight hexadecimal digits of the archive's digest. */
  predicate IsDigestPrefix(digest: string) {
    |digest| == 8 && forall i | 0 <= i < 8 :: IsHexDigit(digest[i])
  }

  function ReleaseName(millis: nat, digest: string): string {
    Timestamp(Gmtime(millis)) + "-" + digest
  }

  lemma FirstColumn(columns: seq<Column>, values: seq<nat>)
    requires |columns| == |values| && columns != []
    ensures Written(columns, values)
         == Padded(values[0], columns[0].width) + (columns[0].suffix + Written(columns[1..], values[1..]))
  {
    var p, t, r := Padded(values[0], columns[0].width), columns[0].suffix, Written(columns[1..], values[1..]);
    assert p + t + r == p + (t + r);
  }

  const CLOCK: seq<Column> := [Column(2, ""), Column(2, ""), Column(2, "."), Column(3, "Z")]

  function ClockText(c: Civil): string {
    Padded(c.hour, 2) + (Padded(c.minute, 2) + (Padded(c.second, 2) + ("." + (Padded(c.milli, 3) + "Z"))))
  }

  lemma ClockSpelled(c: Civil)
    ensures Written(CLOCK, [c.hour, c.minute, c.second, c.milli]) == ClockText(c)
  {
    var f, v := CLOCK, [c.hour, c.minute, c.second, c.milli];
    FirstColumn(f, v);
    FirstColumn(f[1..], v[1..]);
    FirstColumn(f[1..][1..], v[1..][1..]);
    FirstColumn(f[1..][1..][1..], v[1..][1..][1..]);
    assert Written(f[1..][1..][1..][1..], v[1..][1..][1..][1..]) == "";
    assert "Z" + "" == "Z";
  }

  lemma TimestampSpelled(c: Civil)
    ensures Timestamp(c) == Padded(c.year, 4) + (Padded(c.month, 2) + (Padded(c.day, 2) + ("T" + ClockText(c))))
  {
    var f, v := FORMAT, Fields(c);
    FirstColumn(f, v);
    FirstColumn(f[1..], v[1..]);
    FirstColumn(f[1..][1..], v[1..][1..]);
    assert f[1..][1..][1..] == CLOCK && v[1..][1..][1..] == [c.hour, c.minute, c.second, c.milli];
    ClockSpelled(c);
  }

  predicate AllDigits(text: string) {
    forall i | 0 <= i < |text| :: IsDigit(text[i])
  }

  lemma NameShape(date: string, clock: string, milli: string, digest: string)
    requires |date| >= 8 && |clock| == 6 && |milli| == 3 && IsDigestPrefix(digest)
    requires |date| == 8 ==> AllDigits(date)
    requires AllDigits(clock) && AllDigits(milli)
    ensures ValidReleaseName(date + "T" + clock + "." + milli + "Z" + "-" + digest) <==> |date| == 8
  {
  }

  ghost predicate Spelled(name: string, date: string, clock: string, milli: string, digest: string) {
    && |date| == 8 && |clock| == 6 && |milli| == 3 && AllDigits(date) && AllDigits(clock) && AllDigits(milli)
    && IsDigestPrefix(digest) && name == date + "T" + clock + "." + milli + "Z" + "-" + digest
  }

  /** A release name is a date, a time, milliseconds and a digest, and nothing else. */
  lemma ReleaseNamesAreSpelled(name: string)
    ensures ValidReleaseName(name) <==> exists date, clock, milli, digest :: Spelled(name, date, clock, milli, digest)
  {
    if ValidReleaseName(name) {
      var date, clock, milli, digest := name[..8], name[9..15], name[16..19], name[21..];
      assert name == date + "T" + clock + "." + milli + "Z" + "-" + digest;
      assert Spelled(name, date, clock, milli, digest);
    }
    if date, clock, milli, digest :| Spelled(name, date, clock, milli, digest) {
      NameShape(date, clock, milli, digest);
    }
  }

  lemma FieldWidths(c: Civil)
    requires ValidCivil(c)
    ensures var date := Padded(c.year, 4) + Padded(c.month, 2) + Padded(c.day, 2);
            |date| >= 8 && (|date| == 8 <==> c.year <= 9999) && (|date| == 8 ==> AllDigits(date))
    ensures var clock := Padded(c.hour, 2) + Padded(c.minute, 2) + Padded(c.second, 2);
            |clock| == 6 && AllDigits(clock)
    ensures |Padded(c.milli, 3)| == 3 && AllDigits(Padded(c.milli, 3))
  {
    Powers();
    PaddedWidth(c.year, 4);
    PaddedWidth(c.month, 2);
    PaddedWidth(c.day, 2);
    PaddedWidth(c.hour, 2);
    PaddedWidth(c.minute, 2);
    PaddedWidth(c.second, 2);
    PaddedWidth(c.milli, 3);
  }

  /** Every produced name is a release name exactly through year 9999. */
  lemma ProducedNamesAreValidThroughYear9999(millis: nat, digest: string)
    requires IsDigestPrefix(digest)
    ensures ValidReleaseName(ReleaseName(millis, digest)) <==> Gmtime(millis).year <= 9999
  {
    var c := Gmtime(millis);
    var date := Padded(c.year, 4) + Padded(c.month, 2) + Padded(c.day, 2);
    var clock := Padded(c.hour, 2) + Padded(c.minute, 2) + Padded(c.second, 2);
    FieldWidths(c);
    NameShape(date, clock, Padded(c.milli, 3), digest);
    NameSpelled(c, digest);
  }

  lemma LeftToRight(a: string, b: string, c: string, rest: string)
    ensures a + (b + (c + rest)) == a + b + c + rest
  {
    assert a + (b + (c + rest)) == a + b + (c + rest);
  }

  lemma NameSpelled(c: Civil, digest: string)
    ensures Timestamp(c) + "-" + digest
         == (Padded(c.year, 4) + Padded(c.month, 2) + Padded(c.day, 2)) + "T"
            + (Padded(c.hour, 2) + Padded(c.minute, 2) + Padded(c.second, 2)) + "." + Padded(c.milli, 3) + "Z"
            + "-" + digest
  {
    TimestampSpelled(c);
    LeftToRight(Padded(c.year, 4), Padded(c.month, 2), Padded(c.day, 2), "T" + ClockText(c));
    LeftToRight(Padded(c.hour, 2), Padded(c.minute, 2), Padded(c.second, 2), "." + (Padded(c.milli, 3) + "Z"));
    Joined(Padded(c.year, 4) + Padded(c.month, 2) + Padded(c.day, 2),
           Padded(c.hour, 2) + Padded(c.minute, 2) + Padded(c.second, 2), Padded(c.milli, 3));
  }

  lemma Joined(date: string, clock: string, milli: string)
    ensures date + ("T" + (clock + ("." + (milli + "Z")))) == date + "T" + clock + "." + milli + "Z"
  {
    LeftToRight(date, "T", clock, "." + (milli + "Z"));
    LeftToRight(date + "T" + clock, ".", milli, "Z");
  }

  /** A release installed earlier sorts earlier, whatever the digests are. */
  lemma NamesSortByTime(early: nat, digest: string, late: nat, other: string)
    requires Gmtime(early).year <= 9999 && Gmtime(late).year <= 9999
    ensures early < late ==> Less(ReleaseName(early, digest), ReleaseName(late, other))
    ensures Less(ReleaseName(early, digest), ReleaseName(late, other)) ==> early <= late
  {
    TimestampsSortByTime(early, late);
    var t, u := Timestamp(Gmtime(early)), Timestamp(Gmtime(late));
    assert t + "-" + digest == t + ("-" + digest) && u + "-" + other == u + ("-" + other);
    LessByPrefix(t, "-" + digest, u, "-" + other);
  }

  // ------------------------------------------------------------ rollback choice

  datatype RollbackError = InvalidName | NoSuchRelease | ActiveUnnamed | ActiveNotIndexed | NoOlderRelease

  lemma {:induction false} LessIsTotal(a: string, b: string)
    ensures Less(a, b) || a == b || Less(b, a)
  {
    if a != "" && b != "" {
      LessIsTotal(a[1..], b[1..]);
      assert a == [a[0]] + a[1..] && b == [b[0]] + b[1..];
    }
  }

  lemma {:induction false} LessIsTransitive(a: string, b: string, c: string)
    requires Less(a, b) && Less(b, c)
    ensures Less(a, c)
  {
    if a != "" && a[0] == b[0] && b[0] == c[0] {
      LessIsTransitive(a[1..], b[1..], c[1..]);
    }
  }

  ghost predicate Ascending(names: seq<string>) {
    forall i, j | 0 <= i < j < |names| :: Less(names[i], names[j])
  }

  /** The valid names of a listing, in byte order and once each. */
  function ReleaseIndex(listing: seq<string>): (names: seq<string>)
    ensures Ascending(names)
    ensures forall name :: name in names <==> name in listing && ValidReleaseName(name)
  {
    if listing == [] then []
    else
      var rest := ReleaseIndex(listing[1..]);
      if ValidReleaseName(listing[0]) then Inserted(listing[0], rest) else rest
  }

  function Inserted(name: string, names: seq<string>): (all: seq<string>)
    requires Ascending(names)
    ensures Ascending(all)
    ensures forall n :: n in all <==> n == name || n in names
  {
    if names == [] then [name]
    else if names[0] == name then names
    else if Less(name, names[0]) then
      assert forall k | 0 <= k < |names| :: Less(name, names[k]) by {
        forall k | 0 <= k < |names| ensures Less(name, names[k]) {
          if k > 0 { LessIsTransitive(name, names[0], names[k]); }
        }
      }
      [name] + names
    else
      LessIsTotal(name, names[0]);
      assert forall n | n in names[1..] :: Less(names[0], n);
      [names[0]] + Inserted(name, names[1..])
  }

  /** `select_rollback_release`; `listing` is the directories of the releases
      root and `activeName` the active link's file name when it has one. Without
      a request the choice is the latest release before the active one. */
  method SelectRollbackRelease(requested: Option<string>, activeName: Option<string>, listing: seq<string>)
    returns (selected: Result<string, RollbackError>)
    ensures requested.Some? ==>
      match selected
      case Ok(name) => name == requested.value && name in listing && ValidReleaseName(name)
      case Err(InvalidName) => !ValidReleaseName(requested.value)
      case Err(NoSuchRelease) => ValidReleaseName(requested.value) && requested.value !in listing
      case Err(_) => false
    ensures requested.None? && activeName.None? ==> selected == Err(ActiveUnnamed)
    ensures requested.None? && activeName.Some? ==>
      var active := activeName.value;
      match selected
      case Ok(name) =>
        && active in listing && ValidReleaseName(active)
        && name in listing && ValidReleaseName(name) && Less(name, active)
        && forall other | other in listing && ValidReleaseName(other) && Less(other, active) ::
             other == name || Less(other, name)
      case Err(ActiveNotIndexed) => active !in listing || !ValidReleaseName(active)
      case Err(NoOlderRelease) =>
        && active in listing && ValidReleaseName(active)
        && forall other | other in listing && ValidReleaseName(other) :: !Less(other, active)
      case Err(_) => false
  {
    var names := ReleaseIndex(listing);
    if requested.Some? {
      if !ValidReleaseName(requested.value) {
        return Err(InvalidName);
      }
      if requested.value !in names {
        return Err(NoSuchRelease);
      }
      return Ok(requested.value);
    }
    if activeName.None? {
      return Err(ActiveUnnamed);
    }
    var active := activeName.value;
    var index := 0;
    while index < |names| && names[index] != active
      invariant index <= |names| && active !in names[..index]
    {
      index := index + 1;
    }
    if index == |names| {
      return Err(ActiveNotIndexed);
    }
    BeforeAnIndex(names, index);
    if index == 0 {
      return Err(NoOlderRelease);
    }
    selected := Ok(names[index - 1]);
  }

  lemma BeforeAnIndex(names: seq<string>, index: nat)
    requires Ascending(names) && index < |names|
    ensures forall k | 0 <= k < |names| :: Less(names[k], names[index]) <==> k < index
    ensures forall k | 0 <= k < index :: k == index - 1 || Less(names[k], names[index - 1])
  {
    forall k | 0 <= k < |names| ensures Less(names[k], names[index]) <==> k < index {
      if k >= index && Less(names[k], names[index]) {
        if k > index {
          LessIsTransitive(names[index], names[k], names[index]);
        }
        LessIsStrict(names[index]);
      }
    }
  }

  /** In installation times: nothing was installed strictly between the chosen
      release and the active one. */
  lemma RollbackTargetIsTheLatestBefore(chosen: nat, d: string, active: nat, e: string, other: nat, f: string)
    requires Gmtime(chosen).year <= 9999 && Gmtime(active).year <= 9999 && Gmtime(other).year <= 9999
    requires Less(ReleaseName(chosen, d), ReleaseName(active, e))
    requires Less(ReleaseName(other, f), ReleaseName(active, e)) ==>
      ReleaseName(other, f) == ReleaseName(chosen, d) || Less(ReleaseName(other, f), ReleaseName(chosen, d))
    requires other < active
    ensures other <= chosen <= active
  {
    NamesSortByTime(other, f, active, e);
    NamesSortByTime(chosen, d, active, e);
    NamesSortByTime(other, f, chosen, d);
    NamesSortByTime(chosen, d, other, f);
    LessIsStrict(ReleaseName(chosen, d));
  }

  datatype Installed = Installed(millis: nat, digest: string)

  ghost predicate Named(installs: seq<Installed>) {
    forall i | 0 <= i < |installs| :: Gmtime(installs[i].millis).year <= 9999 && IsDigestPrefix(installs[i].digest)
  }

  function Name(installed: Installed): string {
    ReleaseName(installed.millis, installed.digest)
  }

  /** The default rollback over releases installed at known times: the choice is
      one of them, no later than the active one, and nothing was installed
      strictly between; it is refused only when nothing was installed earlier. */
  method RollBackInTime(installs: seq<Installed>, active: nat) returns (selected: Result<string, RollbackError>)
    requires Named(installs) && active < |installs|
    ensures selected.Ok? ==> exists k | 0 <= k < |installs| ::
      selected.value == Name(installs[k]) && IsLatestBefore(installs, k, active)
    ensures selected.Err? ==> selected.error.NoOlderRelease?
    ensures selected.Err? ==> forall i | 0 <= i < |installs| :: installs[active].millis <= installs[i].millis
  {
    NamesAreValid(installs);
    assert Name(installs[active]) == Names(installs)[active];
    selected := SelectRollbackRelease(None, Some(Name(installs[active])), Names(installs));
    if selected.Ok? {
      var k := SelectedIsLatest(installs, selected.value, active);
    } else {
      NothingIsEarlier(installs, active);
    }
  }

  function Names(installs: seq<Installed>): (names: seq<string>)
    ensures |names| == |installs|
    ensures forall i | 0 <= i < |installs| :: names[i] == Name(installs[i])
  {
    seq(|installs|, i requires 0 <= i < |installs| => Name(installs[i]))
  }

  lemma NamesAreValid(installs: seq<Installed>)
    requires Named(installs)
    ensures forall name | name in Names(installs) :: ValidReleaseName(name)
  {
    forall name | name in Names(installs)
      ensures ValidReleaseName(name)
    {
      var i :| 0 <= i < |installs| && Names(installs)[i] == name;
      ProducedNamesAreValidThroughYear9999(installs[i].millis, installs[i].digest);
    }
  }

  lemma NothingIsEarlier(installs: seq<Installed>, active: nat)
    requires Named(installs) && active < |installs|
    requires forall name | name in Names(installs) :: !Less(name, Name(installs[active]))
    ensures forall i | 0 <= i < |installs| :: installs[active].millis <= installs[i].millis
  {
    forall i | 0 <= i < |installs|
      ensures installs[active].millis <= installs[i].millis
    {
      assert Names(installs)[i] in Names(installs);
      NamesSortByTime(installs[i].millis, installs[i].digest, installs[active].millis, installs[active].digest);
    }
  }

  ghost predicate IsLatestBefore(installs: seq<Installed>, k: nat, active: nat)
    requires k < |installs| && active < |installs|
  {
    && installs[k].millis <= installs[active].millis
    && forall i | 0 <= i < |installs| ::
         installs[i].millis < installs[active].millis ==> installs[i].millis <= installs[k].millis
  }

  lemma SelectedIsLatest(installs: seq<Installed>, name: string, active: nat) returns (k: nat)
    requires Named(installs) && active < |installs|
    requires name in Names(installs) && Less(name, Name(installs[active]))
    requires forall other | other in Names(installs) && Less(other, Name(installs[active])) ::
      other == name || Less(other, name)
    ensures k < |installs| && name == Name(installs[k]) && IsLatestBefore(installs, k, active)
  {
    k :| 0 <= k < |installs| && Names(installs)[k] == name;
    var a, c := installs[active], installs[k];
    NamesSortByTime(c.millis, c.digest, a.millis, a.digest);
    forall i | 0 <= i < |installs| && installs[i].millis < a.millis
      ensures installs[i].millis <= c.millis
    {
      assert Names(installs)[i] in Names(installs);
      RollbackTargetIsTheLatestBefore(c.millis, c.digest, a.millis, a.digest, installs[i].millis, installs[i].digest);
    }
  }
}
