/** Canonical RFC 3339 text of a timestamp: a closed-form day count to civil date
    conversion, and why its text order is time order. */
module Timestamps {
  import opened Text

  // ----- the conversion -----

  datatype Civil = Civil(year: int, month: int, day: int)

  datatype Clock = Clock(hour: int, minute: int, second: int)

  /** Days from 1 March of year 0 of an era to 1 March of year `y` of it. */
  function EraDays(y: int): int {
    365 * y + y / 4 - y / 100
  }

  function YearOfEra(doe: int): int {
    (doe - doe / 1460 + doe / 36524 - doe / 146096) / 365
  }

  /** The civil date of day `doy` of a year `y` that starts in March. */
  function FromMarch(y: int, doy: int): Civil {
    var mp := (5 * doy + 2) / 153;
    var day := doy - (153 * mp + 2) / 5 + 1;
    var month := if mp < 10 then mp + 3 else mp - 9;
    Civil(y + (if month <= 2 then 1 else 0), month, day)
  }

  function ClockOf(tod: nat): Clock {
    Clock(tod / 3600, tod % 3600 / 60, tod % 60)
  }

  // ----- the calendar, stated on its own -----

  predicate Leap(year: int) {
    year % 4 == 0 && (year % 100 != 0 || year % 400 == 0)
  }

  function DaysInMonth(year: int, month: int): int
    requires 1 <= month <= 12
  {
    if month == 2 then (if Leap(year) then 29 else 28)
    else if month in [4, 6, 9, 11] then 30
    else 31
  }

  ghost predicate ValidCivil(c: Civil) {
    1 <= c.month <= 12 && 1 <= c.day <= DaysInMonth(c.year, c.month)
  }

  /** Days before a month in its year, counted month by month. */
  function DaysBeforeMonth(year: int, month: int): int
    requires 1 <= month <= 12
    decreases month
  {
    if month == 1 then 0 else DaysBeforeMonth(year, month - 1) + DaysInMonth(year, month - 1)
  }

  /** Days before a year since 1970, counted year by year. */
  function DaysBeforeYear(year: int): int
    requires year >= 1970
  {
    if year == 1970 then 0 else DaysBeforeYear(year - 1) + (if Leap(year - 1) then 366 else 365)
  }

  function DayNumber(c: Civil): int
    requires c.year >= 1970 && 1 <= c.month <= 12
  {
    DaysBeforeYear(c.year) + DaysBeforeMonth(c.year, c.month) + c.day - 1
  }

  // ----- the conversion inverts the calendar -----

  /** Leap days in the years 1..y, in closed form. */
  function LeapDays(y: int): int {
    y / 4 - y / 100 + y / 400
  }

  lemma LeapStep(y: int)
    requires y > 0
    ensures LeapDays(y) - LeapDays(y - 1) == if Leap(y) then 1 else 0
  {
    assert y / 4 - (y - 1) / 4 == if y % 4 == 0 then 1 else 0;
    assert y / 100 - (y - 1) / 100 == if y % 100 == 0 then 1 else 0;
    assert y / 400 - (y - 1) / 400 == if y % 400 == 0 then 1 else 0;
    assert y % 400 == 0 ==> y % 100 == 0;
    assert y % 100 == 0 ==> y % 4 == 0;
  }

  lemma {:induction false} DaysBeforeYearClosed(year: int)
    requires year >= 1970
    ensures DaysBeforeYear(year) == 365 * (year - 1) + LeapDays(year - 1) - 719162
  {
    if year > 1970 {
      DaysBeforeYearClosed(year - 1);
      LeapStep(year - 1);
    }
  }

  /** The division formula is right on a day given by century, cycle, year and day. */
  lemma {:induction false} YearOfEraAt(c: int, q: int, r: int, d: int)
    requires 0 <= c < 4 && 0 <= q < 25 && 0 <= r < 4 && 0 <= d <= 365
    requires d == 365 ==> r == 3 && (q == 24 ==> c == 3)
    ensures var y := 100 * c + 4 * q + r;
            EraDays(y) == 36524 * c + 1461 * q + 365 * r && YearOfEra(EraDays(y) + d) == y
  {
    var y := 100 * c + 4 * q + r;
    assert y / 4 == 25 * c + q && y / 100 == c;
    var doe := 36524 * c + 1461 * q + 365 * r + d;
    var spill := 24 * c + q + 365 * r + d;
    assert doe == 1460 * (25 * c + q) + spill;
    var e := if spill >= 1460 then 1 else 0;
    assert doe / 1460 == 25 * c + q + e;
    var last := if q == 24 && r == 3 && d == 365 then 1 else 0;
    assert doe / 36524 == c + last;
    assert doe / 146096 == last;
    assert doe - doe / 1460 + doe / 36524 - doe / 146096 == 365 * y + (d - e);
  }

  /** Every day of an era falls in the year the formula gives. */
  lemma {:induction false} YearOfEraBounds(doe: int)
    requires 0 <= doe < 146097
    ensures var y := YearOfEra(doe);
            0 <= y < 400 && EraDays(y) <= doe <= EraDays(y) + 365
            && (doe == EraDays(y) + 365 ==> y % 4 == 3 && (y % 100 == 99 ==> y == 399))
  {
    var c := if doe == 146096 then 3 else doe / 36524;
    var inCentury := doe - 36524 * c;
    assert 0 <= inCentury <= 36524 && (inCentury == 36524 ==> c == 3);
    var q := if inCentury == 36524 then 24 else inCentury / 1461;
    var inCycle := inCentury - 1461 * q;
    assert 0 <= q < 25 && 0 <= inCycle <= 1460;
    var r := if inCycle == 1460 then 3 else inCycle / 365;
    var d := inCycle - 365 * r;
    assert 0 <= r < 4 && 0 <= d <= 365;
    YearOfEraAt(c, q, r, d);
  }

  /** Days before a month, in closed form for March-based years. */
  lemma {:induction false} DaysBeforeMonthClosed(year: int, month: int)
    requires 1 <= month <= 12
    ensures DaysBeforeMonth(year, month)
         == if month <= 2 then 31 * (month - 1)
            else 59 + (if Leap(year) then 1 else 0) + (153 * (month - 3) + 2) / 5
  {
    if month > 1 {
      DaysBeforeMonthClosed(year, month - 1);
    }
    if month > 2 {
      assert (153 * (month - 3) + 2) / 5 == [0, 31, 61, 92, 122, 153, 184, 214, 245, 275][month - 3];
    }
  }

  lemma MonthOfYear(doy: int)
    requires 0 <= doy <= 365
    ensures var mp := (5 * doy + 2) / 153;
            var day := doy - (153 * mp + 2) / 5 + 1;
            0 <= mp < 12 && 1 <= day <= 31
            && (mp in [1, 3, 6, 8] ==> day <= 30)
            && (mp == 11 ==> day <= 29 && (day == 29 <==> doy == 365))
  {}

  lemma EraSplit(era: int, yoe: int)
    requires era >= 0 && 0 <= yoe < 400
    ensures LeapDays(400 * era + yoe) == 97 * era + yoe / 4 - yoe / 100
  {
    var y := 400 * era + yoe;
    assert y / 4 == 100 * era + yoe / 4;
    assert y / 100 == 4 * era + yoe / 100;
    assert y / 400 == era;
  }

  lemma LeapAtEraEnd(era: int, yoe: int)
    requires era >= 0 && 0 <= yoe < 400 && yoe % 4 == 3 && (yoe % 100 == 99 ==> yoe == 399)
    ensures Leap(400 * era + yoe + 1)
  {
    ErasLeaveRemainders(era, yoe + 1);
  }

  /** Whole eras change no remainder the leap rule looks at. */
  lemma ErasLeaveRemainders(era: int, year: int)
    ensures (400 * era + year) % 4 == year % 4 && (400 * era + year) % 100 == year % 100
    ensures (400 * era + year) % 400 == year % 400
  {
    RemainderOfFour(100 * era, year);
    RemainderOfHundred(4 * era, year);
    RemainderOfEra(era, year);
  }

  lemma RemainderOfFour(n: int, year: int)
    ensures (4 * n + year) % 4 == year % 4
  {}

  lemma RemainderOfHundred(n: int, year: int)
    ensures (100 * n + year) % 100 == year % 100
  {}

  lemma RemainderOfEra(n: int, year: int)
    ensures (400 * n + year) % 400 == year % 400
  {}

  /** A day given by era and day of era, in March-based years. */
  lemma MarchYear(era: int, doe: int)
    requires era >= 0 && 0 <= doe < 146097 && era * 146097 + doe >= 719468
    ensures var yoe := YearOfEra(doe);
            var y := 400 * era + yoe;
            var doy := doe - EraDays(yoe);
            0 <= doy <= 365 && era * 146097 + doe == 365 * y + LeapDays(y) + doy
            && y >= 1969 && (y == 1969 ==> doy >= 306) && (doy == 365 ==> Leap(y + 1))
  {
    YearOfEraBounds(doe);
    var yoe := YearOfEra(doe);
    EraSplit(era, yoe);
    if doe == EraDays(yoe) + 365 {
      LeapAtEraEnd(era, yoe);
    }
    assert yoe < 369 ==> EraDays(yoe) <= 365 * 368 + 368 / 4 - 3;
  }

  lemma {:induction false} MonthIsCorrect(y: int, doy: int)
    requires y >= 1969 && 0 <= doy <= 365 && (y == 1969 ==> doy >= 306) && (doy == 365 ==> Leap(y + 1))
    ensures var c := FromMarch(y, doy);
            c.year >= 1970 && ValidCivil(c) && DayNumber(c) == 365 * y + LeapDays(y) + doy - 719468
  {
    MonthOfYear(doy);
    var c := FromMarch(y, doy);
    assert doy >= 306 ==> (5 * doy + 2) / 153 >= 10;
    DaysBeforeYearClosed(c.year);
    DaysBeforeMonthClosed(c.year, c.month);
    LeapStep(c.year);
  }

  /** The date of day `doe` of an era. */
  function CivilOfEra(era: int, doe: int): Civil {
    var yoe := YearOfEra(doe);
    FromMarch(yoe + era * 400, doe - EraDays(yoe))
  }

  lemma EraIsCorrect(days: nat, era: int, doe: int)
    requires era >= 0 && 0 <= doe < 146097 && era * 146097 + doe == days + 719468
    ensures var c := CivilOfEra(era, doe); c.year >= 1970 && ValidCivil(c) && DayNumber(c) == days
  {
    var yoe := YearOfEra(doe);
    var y, doy := yoe + era * 400, doe - EraDays(yoe);
    assert CivilOfEra(era, doe) == FromMarch(y, doy);
    MarchYear(era, doe);
    MarchDay(days, y, doy);
  }

  lemma MarchDay(days: nat, y: int, doy: int)
    requires y >= 1969 && 0 <= doy <= 365 && (y == 1969 ==> doy >= 306) && (doy == 365 ==> Leap(y + 1))
    requires 365 * y + LeapDays(y) + doy == days + 719468
    ensures var c := FromMarch(y, doy); c.year >= 1970 && ValidCivil(c) && DayNumber(c) == days
  {
    MonthIsCorrect(y, doy);
  }

  /** Days since 1970-01-01 to a civil date, by eras of 400 March-based years: always a
      valid date, whose day number is the given count. */
  function CivilFromDays(days: nat): (c: Civil)
    ensures c.year >= 1970 && ValidCivil(c)
    ensures DayNumber(c) == days
  {
    var z := days + 719468;
    var era := z / 146097;
    var doe := z - era * 146097;
    EraIsCorrect(days, era, doe);
    CivilOfEra(era, doe)
  }

  // ----- text -----

  function Zeros(n: nat): string {
    if n == 0 then [] else ['0'] + Zeros(n - 1)
  }

  /** `{n:0width}`. */
  function Pad(width: nat, n: nat): string {
    var digits := Decimal(n);
    if |digits| >= width then digits else Zeros(width - |digits|) + digits
  }

  function ShowClock(t: Clock): string
    requires t.hour >= 0 && t.minute >= 0 && t.second >= 0
  {
    Pad(2, t.hour) + (":" + (Pad(2, t.minute) + (":" + (Pad(2, t.second) + "Z"))))
  }

  function Show(c: Civil, t: Clock): string
    requires c.year >= 0 && c.month >= 0 && c.day >= 0 && t.hour >= 0 && t.minute >= 0 && t.second >= 0
  {
    Pad(4, c.year) + ("-" + (Pad(2, c.month) + ("-" + (Pad(2, c.day) + ("T" + ShowClock(t))))))
  }

  function Clamp(seconds: int): nat {
    if seconds < 0 then 0 else seconds
  }

  /** `format_timestamp`: negative seconds are clamped to the epoch. */
  function FormatTimestamp(seconds: int): string {
    var secs := Clamp(seconds);
    Show(CivilFromDays(secs / 86400), ClockOf(secs % 86400))
  }

  /** The last second of the year 9999, the end of the protobuf timestamp range. */
  const LAST_SECOND := 253402300799

  // ----- text order is time order -----

  predicate CivilLess(a: Civil, b: Civil) {
    a.year < b.year || (a.year == b.year && (a.month < b.month || (a.month == b.month && a.day < b.day)))
  }

  lemma {:induction false} MonthsMonotone(year: int, m: int, n: int)
    requires 1 <= m < n <= 12
    ensures DaysBeforeMonth(year, m) + DaysInMonth(year, m) <= DaysBeforeMonth(year, n)
    decreases n
  {
    if n > m + 1 {
      MonthsMonotone(year, m, n - 1);
    }
  }

  lemma {:induction false} YearsMonotone(y: int, z: int)
    requires 1970 <= y < z
    ensures DaysBeforeYear(y) + (if Leap(y) then 366 else 365) <= DaysBeforeYear(z)
    decreases z
  {
    if z > y + 1 {
      YearsMonotone(y, z - 1);
    }
  }

  /** An earlier civil date has a smaller day number. */
  lemma DayNumberMonotone(a: Civil, b: Civil)
    requires a.year >= 1970 && b.year >= 1970 && ValidCivil(a) && ValidCivil(b) && CivilLess(a, b)
    ensures DayNumber(a) < DayNumber(b)
  {
    DaysBeforeMonthClosed(a.year, a.month);
    DaysBeforeMonthClosed(b.year, b.month);
    if a.year < b.year {
      YearsMonotone(a.year, b.year);
      if a.month < 12 {
        MonthsMonotone(a.year, a.month, 12);
      }
      DaysBeforeMonthClosed(a.year, 12);
    } else if a.month < b.month {
      MonthsMonotone(a.year, a.month, b.month);
    }
  }

  /** The calendar conversion and its inverse undo each other both ways. */
  lemma CivilRoundTrip(c: Civil)
    requires c.year >= 1970 && ValidCivil(c)
    ensures DayNumber(c) >= 0 && CivilFromDays(DayNumber(c)) == c
  {
    DaysBeforeYearClosed(c.year);
    DaysBeforeMonthClosed(c.year, c.month);
    assert DayNumber(c) >= 0;
    var d := CivilFromDays(DayNumber(c));
    if CivilLess(c, d) {
      DayNumberMonotone(c, d);
    } else if CivilLess(d, c) {
      DayNumberMonotone(d, c);
    }
  }

  lemma {:induction false} LessConcat(a: string, b: string, x: string, y: string)
    requires |a| == |b|
    ensures Less(a + x, b + y) <==> Less(a, b) || (a == b && Less(x, y))
  {
    if a == [] {
      assert a + x == x && b + y == y;
    } else {
      LessConcat(a[1..], b[1..], x, y);
      assert (a + x)[1..] == a[1..] + x && (b + y)[1..] == b[1..] + y;
      assert a == [a[0]] + a[1..] && b == [b[0]] + b[1..];
    }
  }

  lemma PadTwo(n: nat)
    requires n < 100
    ensures Pad(2, n) == [Digit(n / 10), Digit(n % 10)]
  {
    assert Zeros(1) == ['0'] && Digit(0) == '0';
    if n >= 10 {
      assert Decimal(n) == Decimal(n / 10) + [Digit(n % 10)] && Decimal(n / 10) == [Digit(n / 10)];
    }
  }

  lemma {:induction false} PadFour(n: nat)
    requires n < 10000
    ensures Pad(4, n) == Pad(2, n / 100) + Pad(2, n % 100)
  {
    PadTwo(n / 100);
    PadTwo(n % 100);
    assert Zeros(1) == ['0'] && Zeros(2) == ['0', '0'] && Zeros(3) == ['0', '0', '0'];
    if n >= 10 {
      assert Decimal(n) == Decimal(n / 10) + [Digit(n % 10)];
      if n >= 100 {
        assert Decimal(n / 10) == Decimal(n / 100) + [Digit(n / 10 % 10)];
        assert n / 10 / 10 == n / 100 && n % 100 / 10 == n / 10 % 10;
      }
    }
  }

  lemma LessOne(a: char, b: char)
    ensures Less([a], [b]) <==> a < b
  {
    assert [a][1..] == [] && [b][1..] == [];
  }

  lemma LessTwo(a: char, x: char, b: char, y: char)
    ensures Less([a, x], [b, y]) <==> a < b || (a == b && x < y)
    ensures [a, x] == [b, y] <==> a == b && x == y
  {
    assert [a, x][1..] == [x] && [b, y][1..] == [y];
    LessOne(x, y);
    assert [a, x][0] == a && [b, y][0] == b && [a, x][1] == x && [b, y][1] == y;
  }

  lemma PadTwoLess(m: nat, n: nat)
    requires m < 100 && n < 100
    ensures |Pad(2, m)| == |Pad(2, n)|
    ensures Less(Pad(2, m), Pad(2, n)) <==> m < n
    ensures Pad(2, m) == Pad(2, n) <==> m == n
  {
    PadTwo(m);
    PadTwo(n);
    LessTwo(Digit(m / 10), Digit(m % 10), Digit(n / 10), Digit(n % 10));
  }

  lemma PadFourLess(m: nat, n: nat)
    requires m < 10000 && n < 10000
    ensures |Pad(4, m)| == |Pad(4, n)|
    ensures Less(Pad(4, m), Pad(4, n)) <==> m < n
    ensures Pad(4, m) == Pad(4, n) <==> m == n
  {
    PadFour(m);
    PadFour(n);
    PadTwoLess(m / 100, n / 100);
    PadTwoLess(m % 100, n % 100);
    var a, b := Pad(2, m / 100), Pad(2, n / 100);
    LessConcat(a, b, Pad(2, m % 100), Pad(2, n % 100));
    assert (a + Pad(2, m % 100))[..|a|] == a && (b + Pad(2, n % 100))[..|b|] == b;
    assert (a + Pad(2, m % 100))[|a|..] == Pad(2, m % 100) && (b + Pad(2, n % 100))[|b|..] == Pad(2, n % 100);
  }

  /** One fixed-width field followed by a separator. */
  lemma FieldLess(width: nat, m: nat, n: nat, separator: string, x: string, y: string)
    requires (width == 2 && m < 100 && n < 100) || (width == 4 && m < 10000 && n < 10000)
    ensures Less(Pad(width, m) + (separator + x), Pad(width, n) + (separator + y))
            <==> m < n || (m == n && Less(x, y))
  {
    if width == 2 { PadTwoLess(m, n); } else { PadFourLess(m, n); }
    LessConcat(Pad(width, m), Pad(width, n), separator + x, separator + y);
    LessConcat(separator, separator, x, y);
    LessTotal(separator, separator);
  }

  ghost predicate Shown(c: Civil, t: Clock) {
    0 <= c.year < 10000 && 0 <= c.month < 100 && 0 <= c.day < 100
    && 0 <= t.hour < 100 && 0 <= t.minute < 100 && 0 <= t.second < 100
  }

  predicate ClockLess(a: Clock, b: Clock) {
    a.hour < b.hour || (a.hour == b.hour && (a.minute < b.minute || (a.minute == b.minute && a.second < b.second)))
  }

  lemma ClockTextOrder(s: Clock, t: Clock)
    requires 0 <= s.hour < 100 && 0 <= s.minute < 100 && 0 <= s.second < 100
    requires 0 <= t.hour < 100 && 0 <= t.minute < 100 && 0 <= t.second < 100
    ensures Less(ShowClock(s), ShowClock(t)) <==> ClockLess(s, t)
  {
    FieldLess(2, s.hour, t.hour, ":", Pad(2, s.minute) + (":" + (Pad(2, s.second) + "Z")),
              Pad(2, t.minute) + (":" + (Pad(2, t.second) + "Z")));
    FieldLess(2, s.minute, t.minute, ":", Pad(2, s.second) + "Z", Pad(2, t.second) + "Z");
    FieldLess(2, s.second, t.second, "Z", "", "");
    assert "Z" + "" == "Z";
  }

  lemma TextOrder(a: Civil, s: Clock, b: Civil, t: Clock)
    requires Shown(a, s) && Shown(b, t)
    ensures Less(Show(a, s), Show(b, t)) <==> CivilLess(a, b) || (a == b && ClockLess(s, t))
  {
    ClockTextOrder(s, t);
    FieldLess(4, a.year, b.year, "-", Pad(2, a.month) + ("-" + (Pad(2, a.day) + ("T" + ShowClock(s)))),
              Pad(2, b.month) + ("-" + (Pad(2, b.day) + ("T" + ShowClock(t)))));
    FieldLess(2, a.month, b.month, "-", Pad(2, a.day) + ("T" + ShowClock(s)), Pad(2, b.day) + ("T" + ShowClock(t)));
    FieldLess(2, a.day, b.day, "T", ShowClock(s), ShowClock(t));
  }

  lemma ClockOrder(m: nat, n: nat)
    requires m < 86400 && n < 86400
    ensures ClockLess(ClockOf(m), ClockOf(n)) <==> m < n
  {
    ClockSeconds(m);
    ClockSeconds(n);
  }

  lemma ClockSeconds(m: nat)
    requires m < 86400
    ensures var t := ClockOf(m);
            0 <= t.hour < 24 && 0 <= t.minute < 60 && 0 <= t.second < 60
            && t.hour * 3600 + t.minute * 60 + t.second == m
  {
    var h := m / 3600;
    assert m % 3600 == m - 3600 * h;
    assert m % 60 == m % 3600 % 60 by {
      assert m == 60 * (60 * h) + m % 3600;
    }
  }

  /** The printed fields are a valid civil date and time of day, and counting their days
      and seconds back gives the (clamped) input. */
  lemma FormatFieldsAreCorrect(seconds: int)
    ensures var secs := Clamp(seconds);
            var c, t := CivilFromDays(secs / 86400), ClockOf(secs % 86400);
            FormatTimestamp(seconds) == Show(c, t)
            && ValidCivil(c) && 0 <= t.hour < 24 && 0 <= t.minute < 60 && 0 <= t.second < 60
            && DayNumber(c) * 86400 + t.hour * 3600 + t.minute * 60 + t.second == secs
  {
    ClockSeconds(Clamp(seconds) % 86400);
  }

  lemma LastDay()
    ensures DayNumber(Civil(9999, 12, 31)) == LAST_SECOND / 86400
    ensures ValidCivil(Civil(9999, 12, 31))
  {
    DaysBeforeYearClosed(9999);
    DaysBeforeMonthClosed(9999, 12);
    assert LeapDays(9998) == 2424;
  }

  lemma FourDigitYears(days: nat)
    requires days <= LAST_SECOND / 86400
    ensures CivilFromDays(days).year < 10000
  {
    LastDay();
    if CivilFromDays(days).year >= 10000 {
      DayNumberMonotone(Civil(9999, 12, 31), CivilFromDays(days));
    }
  }

  /** Up to the end of the year 9999 the text order of two timestamps is the numeric order
      of their seconds. */
  lemma FormatKeepsOrder(a: int, b: int)
    requires a <= LAST_SECOND && b <= LAST_SECOND
    ensures Less(FormatTimestamp(a), FormatTimestamp(b)) <==> Clamp(a) < Clamp(b)
  {
    var m, n := Clamp(a), Clamp(b);
    var c, d := CivilFromDays(m / 86400), CivilFromDays(n / 86400);
    FourDigitYears(m / 86400);
    FourDigitYears(n / 86400);
    ClockSeconds(m % 86400);
    ClockSeconds(n % 86400);
    TextOrder(c, ClockOf(m % 86400), d, ClockOf(n % 86400));
    ClockOrder(m % 86400, n % 86400);
    if CivilLess(c, d) {
      DayNumberMonotone(c, d);
    } else if CivilLess(d, c) {
      DayNumberMonotone(d, c);
    }
  }

  lemma FirstDayAfter()
    ensures DayNumber(Civil(10000, 1, 1)) == LAST_SECOND / 86400 + 1
  {
    DaysBeforeYearClosed(10000);
    DaysBeforeMonthClosed(10000, 1);
    assert LeapDays(9999) == 2424;
  }

  lemma FiveDigits()
    ensures Pad(4, 10000) != [] && Pad(4, 10000)[0] == '1'
    ensures Pad(4, 9999) != [] && Pad(4, 9999)[0] == '9'
  {
    assert Decimal(10000) == Decimal(1000) + [Digit(0)];
    assert Decimal(1000) == Decimal(100) + [Digit(0)];
    assert Decimal(100) == Decimal(10) + [Digit(0)];
    PadFour(9999);
    PadTwo(99);
  }

  lemma StartsWithYear(seconds: nat, days: nat, c: Civil)
    requires days == seconds / 86400 && CivilFromDays(days) == c && Pad(4, c.year) != []
    ensures FormatTimestamp(seconds) != [] && FormatTimestamp(seconds)[0] == Pad(4, c.year)[0]
  {
    ClockSeconds(seconds % 86400);
  }

  lemma BreaksBetween(s: nat, last: Civil, first: Civil)
    requires last.year >= 1970 && ValidCivil(last) && DayNumber(last) == s / 86400
    requires first.year >= 1970 && ValidCivil(first) && DayNumber(first) == (s + 1) / 86400
    requires last.year == 9999 && first.year == 10000
    ensures !Less(FormatTimestamp(s), FormatTimestamp(s + 1))
  {
    FiveDigits();
    CivilRoundTrip(last);
    CivilRoundTrip(first);
    StartsWithYear(s, DayNumber(last), last);
    StartsWithYear(s + 1, DayNumber(first), first);
  }

  /** One second later the year needs five digits and the text order breaks. */
  lemma FormatBreaksAfterTheYear9999(s: int)
    requires s == LAST_SECOND
    ensures !Less(FormatTimestamp(s), FormatTimestamp(s + 1))
  {
    LastDay();
    FirstDayAfter();
    BreaksBetween(s, Civil(9999, 12, 31), Civil(10000, 1, 1));
  }

  /** Text order is time order on an initial range exactly when the range ends by the last
      second of the year 9999. */
  lemma OrderedExactlyUpToTheYear9999(bound: int)
    requires bound >= 0
    ensures (forall a, b :: 0 <= a < b <= bound ==> Less(FormatTimestamp(a), FormatTimestamp(b)))
            <==> bound <= LAST_SECOND
  {
    if bound <= LAST_SECOND {
      forall a, b | 0 <= a < b <= bound ensures Less(FormatTimestamp(a), FormatTimestamp(b)) {
        FormatKeepsOrder(a, b);
      }
    } else {
      var last := LAST_SECOND;
      FormatBreaksAfterTheYear9999(last);
      assert 0 <= last < last + 1 <= bound;
    }
  }
}
