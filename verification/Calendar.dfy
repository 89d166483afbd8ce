/** Day numbers and civil dates: two day counts and the inverse of one of them. */
module Calendar {
  import opened Results

  datatype Date = Date(year: int, month: int, day: int)

  const I32_MIN: int := -0x8000_0000
  const I32_MAX: int := 0x7FFF_FFFF

  // ----- the Gregorian calendar, by its rules -----

  predicate Leap(y: int) {
    y % 4 == 0 && (y % 100 != 0 || y % 400 == 0)
  }

  function MonthLength(y: int, m: int): int {
    if m in {4, 6, 9, 11} then 30 else if m == 2 then (if Leap(y) then 29 else 28) else 31
  }

  predicate ValidDate(d: Date) {
    1 <= d.month <= 12 && 1 <= d.day <= MonthLength(d.year, d.month)
  }

  function NextDay(d: Date): Date {
    if d.day < MonthLength(d.year, d.month) then d.(day := d.day + 1)
    else if d.month < 12 then Date(d.year, d.month + 1, 1)
    else Date(d.year + 1, 1, 1)
  }

  predicate Earlier(a: Date, b: Date) {
    a.year < b.year || (a.year == b.year && (a.month < b.month || (a.month == b.month && a.day < b.day)))
  }

  // ----- the source's functions -----

  /** Rust's division of signed integers by a positive one. */
  function TruncDiv(a: int, b: int): int
    requires b > 0
  {
    if a >= 0 then a / b else -((-a) / b)
  }

  function AsI32(y: int): int {
    (y - I32_MIN) % 0x1_0000_0000 + I32_MIN
  }

  /** Year within 400 years, from a day number within them. */
  function YearOfEra(doe: int): int {
    (doe - doe / 1460 + doe / 36524 - doe / 146096) / 365
  }

  function MonthFrom(doy: int): int {
    var mp := (5 * doy + 2) / 153;
    if mp < 10 then mp + 3 else mp - 9
  }

  function DayFrom(doy: int): int {
    doy - (153 * ((5 * doy + 2) / 153) + 2) / 5 + 1
  }

  /** The date of a day within a year that starts in March. */
  function DateFrom(y: int, doy: int): Date {
    Date(if MonthFrom(doy) <= 2 then y + 1 else y, MonthFrom(doy), DayFrom(doy))
  }

  /** The date of a day within an era of 400 years, its year cut to 32 bits. */
  function DateInEra(era: int, doe: int): Date {
    var yoe := YearOfEra(doe);
    var doy := doe - (365 * yoe + yoe / 4 - yoe / 100);
    var d := DateFrom(yoe + era * 400, doy);
    d.(year := AsI32(d.year))
  }

  function CivilFromDays(days: int): Date {
    var z := days + 719468;
    var era := TruncDiv(if z >= 0 then z else z - 146096, 146097);
    DateInEra(era, z - era * 146097)
  }

  function DaysFromCivil(y: int, m: int, d: int): int {
    var y' := if m <= 2 then y - 1 else y;
    var era := TruncDiv(if y' >= 0 then y' else y' - 399, 400);
    var yoe := y' - era * 400;
    var mp := if m > 2 then m - 3 else m + 9;
    var doy := (153 * mp + 2) / 5 + d - 1;
    var doe := yoe * 365 + yoe / 4 - yoe / 100 + doy;
    era * 146097 + doe - 719468
  }

  function CivilToUnix(year: int, month: int, day: int, hour: int, min: int, sec: int): Option<int> {
    if !(1 <= month <= 12) || day == 0 || day > 31 then None
    else
      var y := if month <= 2 then year - 1 else year;
      var era := TruncDiv(if y >= 0 then y else y - 399, 400);
      var yoe := y - era * 400;
      var mp := if month > 2 then month - 3 else month + 9;
      var doy := (153 * mp + 2) / 5 + day - 1;
      var doe := yoe * 365 + yoe / 4 - yoe / 100 + doy;
      var days := era * 146097 + doe - 719468;
      Some(days * 86400 + hour * 3600 + min * 60 + sec)
  }

  // ----- years that start in March -----

  lemma EraIsFloor(y: int)
    ensures TruncDiv(if y >= 0 then y else y - 399, 400) == y / 400
    ensures TruncDiv(if y >= 0 then y else y - 146096, 146097) == y / 146097
  {
  }

  /** The year a date falls in when years start in March. */
  function MarchYear(d: Date): int {
    if d.month <= 2 then d.year - 1 else d.year
  }

  function MarchMonth(m: int): int {
    if m > 2 then m - 3 else m + 9
  }

  /** Days from 1 March of year 0 to 1 March of a year. */
  function YearStart(y: int): int {
    365 * y + y / 4 - y / 100 + y / 400
  }

  function DayOfYear(m: int, d: int): int {
    (153 * MarchMonth(m) + 2) / 5 + d - 1
  }

  lemma YearStartByEra(era: int, yoe: int)
    requires 0 <= yoe < 400
    ensures YearStart(400 * era + yoe) == 146097 * era + yoe * 365 + yoe / 4 - yoe / 100
  {
    var y := 400 * era + yoe;
    assert y / 4 == 100 * era + yoe / 4;
    assert y / 100 == 4 * era + yoe / 100;
    assert y / 400 == era;
  }

  /** The day count without eras. */
  lemma DaysClosed(d: Date)
    ensures DaysFromCivil(d.year, d.month, d.day) == YearStart(MarchYear(d)) + DayOfYear(d.month, d.day) - 719468
  {
    var y := MarchYear(d);
    EraIsFloor(y);
    YearStartByEra(y / 400, y % 400);
  }

  lemma YearStep(y: int)
    ensures YearStart(y + 1) == YearStart(y) + if Leap(y + 1) then 366 else 365
  {
    Quarter(y);
    Century(y);
    FourCenturies(y);
  }

  lemma FourCenturies(y: int)
    ensures (y + 1) / 400 == y / 400 + if (y + 1) % 400 == 0 then 1 else 0
    ensures (y + 1) % 400 == 0 ==> (y + 1) % 100 == 0
  {
  }

  lemma Quarter(y: int)
    ensures (y + 1) / 4 == y / 4 + if (y + 1) % 4 == 0 then 1 else 0
  {
  }

  lemma Century(y: int)
    ensures (y + 1) / 100 == y / 100 + if (y + 1) % 100 == 0 then 1 else 0
    ensures (y + 1) % 100 == 0 ==> (y + 1) % 4 == 0
  {
  }

  lemma YearsGrow(y: int, later: int)
    requires y < later
    ensures YearStart(y + 1) <= YearStart(later)
  {
  }

  /** A date lies inside its year that starts in March. */
  lemma InsideYear(d: Date)
    requires ValidDate(d)
    ensures 0 <= DayOfYear(d.month, d.day)
    ensures YearStart(MarchYear(d)) + DayOfYear(d.month, d.day) < YearStart(MarchYear(d) + 1)
  {
    YearStep(MarchYear(d));
  }

  /** days_from_civil is strictly increasing in date order. */
  lemma DaysIncrease(a: Date, b: Date)
    requires ValidDate(a) && ValidDate(b) && Earlier(a, b)
    ensures DaysFromCivil(a.year, a.month, a.day) < DaysFromCivil(b.year, b.month, b.day)
  {
    hide *;
    DaysClosed(a);
    DaysClosed(b);
    InsideYear(a);
    InsideYear(b);
    MarchOrder(a, b);
    if MarchYear(a) < MarchYear(b) {
      YearsGrow(MarchYear(a), MarchYear(b));
    }
  }

  lemma MarchOrder(a: Date, b: Date)
    requires ValidDate(a) && ValidDate(b) && Earlier(a, b)
    ensures MarchYear(a) < MarchYear(b)
            || (MarchYear(a) == MarchYear(b) && DayOfYear(a.month, a.day) < DayOfYear(b.month, b.day))
  {
    if a.year == b.year && a.month < b.month && MarchYear(a) == MarchYear(b) {
      MonthsGrow(a.month, b.month, MonthLength(a.year, a.month));
    }
  }

  lemma MonthsGrow(m: int, later: int, length: int)
    requires 1 <= m < later <= 12 && (m <= 2 <==> later <= 2)
    requires length == (if m in {4, 6, 9, 11} then 30 else 31) || (m == 2 && length <= 29)
    ensures DayOfYear(m, length) < DayOfYear(later, 1)
  {
  }

  /** It counts the days of the Gregorian calendar one by one, from 1 January 1970. */
  lemma CountsDays(d: Date)
    requires ValidDate(d)
    ensures ValidDate(NextDay(d))
    ensures var n := NextDay(d); DaysFromCivil(n.year, n.month, n.day) == DaysFromCivil(d.year, d.month, d.day) + 1
    ensures DaysFromCivil(1970, 1, 1) == 0
  {
    DaysClosed(d);
    DaysClosed(NextDay(d));
    YearStep(MarchYear(d));
    hide DaysFromCivil, YearStart;
    DaysClosed(Date(1970, 1, 1));
    EpochYear();
  }

  lemma EpochYear()
    ensures YearStart(1969) == 719468 - 306
  {
  }

  // ----- the inverse -----

  /** Day number within 400 years, from centuries, four-year groups, years and days. */
  lemma YearOfEraIs(c: int, q: int, r: int, doy: int)
    requires 0 <= c <= 3 && 0 <= q <= 24 && 0 <= r <= 3 && 0 <= doy <= 365
    requires doy == 365 ==> r == 3 && (q < 24 || c == 3)
    ensures YearOfEra(36524 * c + 1461 * q + 365 * r + doy) == 100 * c + 4 * q + r
  {
    var doe := 36524 * c + 1461 * q + 365 * r + doy;
    var last := if doe == 146096 then 1 else 0;
    assert doe / 146096 == last;
    assert doe / 36524 == c + last;
    var carry := if 24 * c + q + 365 * r + doy >= 1460 then 1 else 0;
    assert doe == 1460 * (25 * c + q) + 24 * c + q + 365 * r + doy;
    assert doe / 1460 == 25 * c + q + carry;
    assert 0 <= doy - carry < 365;
  }

  lemma SplitEra(doe: int) returns (c: int, q: int, r: int, doy: int)
    requires 0 <= doe < 146097
    ensures 0 <= c <= 3 && 0 <= q <= 24 && 0 <= r <= 3 && 0 <= doy <= 365
    ensures doy == 365 ==> r == 3 && (q < 24 || c == 3)
    ensures doe == 36524 * c + 1461 * q + 365 * r + doy
  {
    c := if doe == 146096 then 3 else doe / 36524;
    var rest := doe - 36524 * c;
    q := rest / 1461;
    var left := rest - 1461 * q;
    r := if left == 1460 then 3 else left / 365;
    doy := left - 365 * r;
  }

  /** Month and day from the day of the year, and back. */
  lemma MonthOfDay(doy: int)
    requires 0 <= doy <= 365
    ensures var mp := (5 * doy + 2) / 153; var d := doy - (153 * mp + 2) / 5 + 1;
            var m := if mp < 10 then mp + 3 else mp - 9;
            && 0 <= mp <= 11 && 1 <= m <= 12 && MarchMonth(m) == mp && (m <= 2 <==> mp >= 10)
            && 1 <= d <= (if m in {4, 6, 9, 11} then 30 else if m == 2 then 29 else 31)
            && (m == 2 && d == 29 <==> doy == 365)
            && DayOfYear(m, d) == doy
  {
  }

  lemma DateInEraIs(era: int, c: int, q: int, r: int, doy: int)
    requires 0 <= c <= 3 && 0 <= q <= 24 && 0 <= r <= 3 && 0 <= doy <= 365
    requires doy == 365 ==> r == 3 && (q < 24 || c == 3)
    ensures var d := DateFrom(400 * era + 100 * c + 4 * q + r, doy);
            DateInEra(era, 36524 * c + 1461 * q + 365 * r + doy) == Date(AsI32(d.year), d.month, d.day)
  {
    YearOfEraIs(c, q, r, doy);
    YoeParts(c, q, r);
    hide AsI32, YearOfEra, DateFrom;
  }

  lemma EraOf(days: int)
    ensures CivilFromDays(days) == DateInEra((days + 719468) / 146097, (days + 719468) % 146097)
  {
    EraIsFloor(days + 719468);
    hide DateInEra, TruncDiv;
  }

  lemma DateFromBack(y: int, doy: int)
    requires 0 <= doy <= 365 && (doy == 365 ==> Leap(y + 1))
    ensures var d := DateFrom(y, doy);
            ValidDate(d) && DaysFromCivil(d.year, d.month, d.day) == YearStart(y) + doy - 719468
  {
    MonthOfDay(doy);
    DaysClosed(DateFrom(y, doy));
    hide DaysFromCivil, YearStart;
  }

  /** civil_from_days before its year is cut to 32 bits. */
  lemma CivilParts(days: int) returns (d: Date)
    ensures ValidDate(d) && DaysFromCivil(d.year, d.month, d.day) == days
    ensures CivilFromDays(days) == Date(AsI32(d.year), d.month, d.day)
  {
    hide *;
    var z := days + 719468;
    var era, doe := z / 146097, z % 146097;
    var c, q, r, doy := SplitEra(doe);
    var y := 400 * era + 100 * c + 4 * q + r;
    LeapDay(era, c, q, r, doy);
    EraOf(days);
    DateInEraIs(era, c, q, r, doy);
    YoeParts(c, q, r);
    YearStartByEra(era, 100 * c + 4 * q + r);
    DateFromBack(y, doy);
    d := DateFrom(y, doy);
  }

  lemma YoeParts(c: int, q: int, r: int)
    requires 0 <= c <= 3 && 0 <= q <= 24 && 0 <= r <= 3
    ensures var yoe := 100 * c + 4 * q + r; 0 <= yoe < 400 && yoe / 4 == 25 * c + q && yoe / 100 == c
  {
  }

  /** Only a leap year has a day 365. */
  lemma LeapDay(era: int, c: int, q: int, r: int, doy: int)
    requires 0 <= c <= 3 && 0 <= q <= 24 && 0 <= r <= 3
    requires doy == 365 ==> r == 3 && (q < 24 || c == 3)
    ensures doy == 365 ==> Leap(400 * era + 100 * c + 4 * q + r + 1)
  {
    if doy == 365 {
      if q < 24 {
        LeapQuarter(4 * era + c, q + 1);
      } else {
        LeapEra(era + 1);
      }
    }
  }

  lemma LeapQuarter(century: int, quarter: int)
    requires 0 < quarter < 25
    ensures Leap(100 * century + 4 * quarter)
  {
    var y := 100 * century + 4 * quarter;
    assert y % 100 == 4 * quarter;
    assert y == 4 * (25 * century + quarter);
  }

  lemma LeapEra(era: int)
    ensures Leap(400 * era)
  {
  }

  lemma SameI32(y: int)
    ensures I32_MIN <= y <= I32_MAX ==> AsI32(y) == y
  {
  }

  /** Day number to date and back, wherever the year fits 32 bits. */
  lemma DaysToDateAndBack(days: int, d: Date)
    requires ValidDate(d) && DaysFromCivil(d.year, d.month, d.day) == days && I32_MIN <= d.year <= I32_MAX
    ensures CivilFromDays(days) == d
  {
    var e := CivilParts(days);
    hide DaysFromCivil, CivilFromDays;
    if Earlier(d, e) {
      DaysIncrease(d, e);
    } else if Earlier(e, d) {
      DaysIncrease(e, d);
    }
    SameI32(d.year);
  }

  lemma FirstAndLast()
    ensures ValidDate(Date(I32_MIN, 1, 1)) && ValidDate(Date(I32_MAX, 12, 31))
  {
  }

  /** The two functions are inverse to each other, and civil_from_days yields valid dates only. */
  lemma MutualInverses(days: int, d: Date)
    requires ValidDate(d) && I32_MIN <= d.year <= I32_MAX
    ensures CivilFromDays(DaysFromCivil(d.year, d.month, d.day)) == d
    ensures DaysFromCivil(I32_MIN, 1, 1) <= days <= DaysFromCivil(I32_MAX, 12, 31) ==>
              var e := CivilFromDays(days);
              ValidDate(e) && I32_MIN <= e.year <= I32_MAX && DaysFromCivil(e.year, e.month, e.day) == days
  {
    hide DaysFromCivil, CivilFromDays, AsI32, MonthLength;
    DaysToDateAndBack(DaysFromCivil(d.year, d.month, d.day), d);
    FirstAndLast();
    var first, last := Date(I32_MIN, 1, 1), Date(I32_MAX, 12, 31);
    if DaysFromCivil(first.year, 1, 1) <= days <= DaysFromCivil(last.year, 12, 31) {
      var e := CivilParts(days);
      if Earlier(e, first) { DaysIncrease(e, first); }
      if Earlier(last, e) { DaysIncrease(last, e); }
      SameI32(e.year);
    }
  }

  /** The certificate reader's count agrees with days_from_civil on every date it accepts, and its 32-bit steps fit. */
  lemma CivilToUnixAgrees(year: int, month: int, day: int)
    requires I32_MIN + 400 <= year <= I32_MAX && 0 <= month < 0x1_0000_0000 && 0 <= day < 0x1_0000_0000
    ensures CivilToUnix(year, month, day, 0, 0, 0)
         == if 1 <= month <= 12 && 1 <= day <= 31 then Some(86400 * DaysFromCivil(year, month, day)) else None
    ensures var y := if month <= 2 then year - 1 else year;
            var era := TruncDiv(if y >= 0 then y else y - 399, 400);
            && I32_MIN <= y - 399 && I32_MIN <= era * 400 <= I32_MAX && 0 <= y - era * 400 < 400
            && (1 <= month <= 12 && 1 <= day <= 31 ==> 0 <= DayOfYear(month, day) < 400)
  {
    EraIsFloor(if month <= 2 then year - 1 else year);
  }
}
