/** Calendar dates and the weekday resolver `getDayFromDate`. Dates are computed in the
    proleptic Gregorian calendar from integer year/month/day instead of through the
    JavaScript `Date` object; a day number counts days since 0000-01-01, a Saturday. */
module Calendar {
  import opened Js

  /** The enum of teaching days: Monday to Friday. */
  datatype DayOfWeek = Senin | Selasa | Rabu | Kamis | Jumat

  function DayName(d: DayOfWeek): string {
    match d
    case Senin => "Senin"
    case Selasa => "Selasa"
    case Rabu => "Rabu"
    case Kamis => "Kamis"
    case Jumat => "Jumat"
  }

  /** The enum's members in declaration order. */
  const Workdays: seq<DayOfWeek> := [Senin, Selasa, Rabu, Kamis, Jumat]

  /** Names of the seven weekdays indexed by getDay(): 0 is Sunday. */
  const WeekdayNames: seq<string> := ["Minggu", "Senin", "Selasa", "Rabu", "Kamis", "Jumat", "Sabtu"]

  /** `Object.values(DayOfWeek).includes(name)`, returning the member it found. */
  function DayFromName(name: string): (r: Option<DayOfWeek>)
    ensures r.Some? ==> DayName(r.value) == name
    ensures r.None? ==> forall d: DayOfWeek :: DayName(d) != name
  {
    if name == "Senin" then Some(Senin)
    else if name == "Selasa" then Some(Selasa)
    else if name == "Rabu" then Some(Rabu)
    else if name == "Kamis" then Some(Kamis)
    else if name == "Jumat" then Some(Jumat)
    else None
  }

  // ---------------------------------------------------------------- dates

  datatype Date = Date(year: int, month: int, day: int)

  predicate IsLeapYear(y: int) {
    y % 4 == 0 && (y % 100 != 0 || y % 400 == 0)
  }

  /** 1 in a leap year, 0 otherwise. */
  function LeapDay(y: int): (n: int)
    ensures 0 <= n <= 1
  {
    if IsLeapYear(y) then 1 else 0
  }

  function YearLength(y: int): int {
    365 + LeapDay(y)
  }

  function DaysInMonth(y: int, m: int): (n: int)
    requires 1 <= m <= 12
    ensures 28 <= n <= 31
  {
    if m == 2 then 28 + LeapDay(y)
    else if m == 4 || m == 6 || m == 9 || m == 11 then 30
    else 31
  }

  predicate ValidDate(d: Date) {
    1 <= d.month <= 12 && 1 <= d.day <= DaysInMonth(d.year, d.month)
  }

  /** Days from 0000-01-01 to the first of January of year `y`. */
  function DaysBeforeYear(y: int): int {
    365 * y + (y + 3) / 4 - (y + 99) / 100 + (y + 399) / 400
  }

  lemma YearStep(y: int)
    ensures DaysBeforeYear(y + 1) == DaysBeforeYear(y) + YearLength(y)
  {
    var q4, q100, q400 := (y + 4) / 4 - (y + 3) / 4, (y + 100) / 100 - (y + 99) / 100, (y + 400) / 400 - (y + 399) / 400;
    Quot4(y);
    Quot100(y);
    Quot400(y);
    Multiples(y);
    assert DaysBeforeYear(y + 1) == DaysBeforeYear(y) + 365 + q4 - q100 + q400;
  }

  /** Multiples of 400 are multiples of 100, which are multiples of 4. */
  lemma Multiples(y: int)
    ensures y % 400 == 0 ==> y % 100 == 0
    ensures y % 100 == 0 ==> y % 4 == 0
  {
    if y % 400 == 0 {
      MultipleOf400(y, y / 400);
    }
    if y % 100 == 0 {
      MultipleOf100(y, y / 100);
    }
  }

  lemma MultipleOf400(y: int, q: int)
    requires y == 400 * q
    ensures y % 100 == 0
  {
    assert y == 100 * (4 * q);
  }

  lemma MultipleOf100(y: int, q: int)
    requires y == 100 * q
    ensures y % 4 == 0
  {
    assert y == 4 * (25 * q);
  }

  /** How many multiples of 4, 100 and 400 are passed going from `y` to `y + 1`. */
  lemma Quot4(y: int)
    ensures (y + 4) / 4 - (y + 3) / 4 == if y % 4 == 0 then 1 else 0
  {
  }

  lemma Quot100(y: int)
    ensures (y + 100) / 100 - (y + 99) / 100 == if y % 100 == 0 then 1 else 0
  {
  }

  lemma Quot400(y: int)
    ensures (y + 400) / 400 - (y + 399) / 400 == if y % 400 == 0 then 1 else 0
  {
  }

  /** Days from the first of January to the first of month `m`. */
  function DaysBeforeMonth(y: int, m: int): (n: int)
    requires 1 <= m <= 13
    ensures 0 <= n
    ensures m <= 12 ==> n + DaysInMonth(y, m) <= YearLength(y)
    ensures m == 13 ==> n == YearLength(y)
  {
    var common := if m == 1 then 0 else if m == 2 then 31 else if m == 3 then 59 else if m == 4 then 90
                  else if m == 5 then 120 else if m == 6 then 151 else if m == 7 then 181 else if m == 8 then 212
                  else if m == 9 then 243 else if m == 10 then 273 else if m == 11 then 304 else if m == 12 then 334
                  else 365;
    common + (if m > 2 then LeapDay(y) else 0)
  }

  /** Each month starts where the month before it ends. */
  lemma DaysBeforeMonthStep(y: int, m: int)
    requires 1 < m <= 13
    ensures DaysBeforeMonth(y, m) == DaysBeforeMonth(y, m - 1) + DaysInMonth(y, m - 1)
  {
  }

  lemma {:induction false} DaysBeforeMonthMonotone(y: int, m: int, m': int)
    requires 1 <= m < m' <= 12
    ensures DaysBeforeMonth(y, m) + DaysInMonth(y, m) <= DaysBeforeMonth(y, m')
    decreases m' - m
  {
    DaysBeforeMonthStep(y, m + 1);
    if m + 1 < m' {
      DaysBeforeMonthMonotone(y, m + 1, m');
    }
  }

  /** The number of days from 0000-01-01 to `d`. */
  function DayNumber(d: Date): int
    requires ValidDate(d)
  {
    DaysBeforeYear(d.year) + DaysBeforeMonth(d.year, d.month) + d.day - 1
  }

  /** Where a date falls inside its own year. */
  lemma DayOfYearBounds(d: Date)
    requires ValidDate(d)
    ensures DaysBeforeYear(d.year) <= DayNumber(d) < DaysBeforeYear(d.year) + YearLength(d.year)
  {
    YearStep(d.year);
  }

  lemma {:induction false} DaysBeforeYearMonotone(y: int, y': int)
    requires y < y'
    ensures DaysBeforeYear(y) + YearLength(y) <= DaysBeforeYear(y')
    decreases y' - y
  {
    YearStep(y);
    if y + 1 < y' {
      DaysBeforeYearMonotone(y + 1, y');
    }
  }

  /** Day numbers follow the order of (year, month, day). */
  lemma DayNumberOrder(a: Date, b: Date)
    requires ValidDate(a) && ValidDate(b)
    ensures DayNumber(a) < DayNumber(b) <==>
      a.year < b.year || (a.year == b.year && (a.month < b.month || (a.month == b.month && a.day < b.day)))
    ensures DayNumber(a) == DayNumber(b) <==> a == b
  {
    DayOfYearBounds(a);
    DayOfYearBounds(b);
    if a.year < b.year {
      DaysBeforeYearMonotone(a.year, b.year);
    } else if b.year < a.year {
      DaysBeforeYearMonotone(b.year, a.year);
    } else if a.month < b.month {
      DaysBeforeMonthMonotone(a.year, a.month, b.month);
    } else if b.month < a.month {
      DaysBeforeMonthMonotone(a.year, b.month, a.month);
    }
  }

  /** getDay(): 0 for Sunday up to 6 for Saturday. */
  function WeekdayIndex(d: Date): (w: int)
    requires ValidDate(d)
    ensures 0 <= w < 7
  {
    (DayNumber(d) + 6) % 7
  }

  // ---------------------------------------------------------------- moving by days

  function NextDay(d: Date): (r: Date)
    requires ValidDate(d)
    ensures ValidDate(r) && DayNumber(r) == DayNumber(d) + 1
  {
    if d.day < DaysInMonth(d.year, d.month) then
      WithinMonth(Date(d.year, d.month, d.day + 1), d);
      Date(d.year, d.month, d.day + 1)
    else if d.month < 12 then
      MonthBoundary(d, Date(d.year, d.month + 1, 1));
      Date(d.year, d.month + 1, 1)
    else
      YearBoundary(d, Date(d.year + 1, 1, 1));
      Date(d.year + 1, 1, 1)
  }

  function PrevDay(d: Date): (r: Date)
    requires ValidDate(d)
    ensures ValidDate(r) && DayNumber(r) == DayNumber(d) - 1
  {
    if d.day > 1 then
      WithinMonth(d, Date(d.year, d.month, d.day - 1));
      Date(d.year, d.month, d.day - 1)
    else if d.month > 1 then
      MonthBoundary(Date(d.year, d.month - 1, DaysInMonth(d.year, d.month - 1)), d);
      Date(d.year, d.month - 1, DaysInMonth(d.year, d.month - 1))
    else
      YearBoundary(Date(d.year - 1, 12, 31), d);
      Date(d.year - 1, 12, 31)
  }

  /** `b` is the day after `a` in the same month. */
  lemma WithinMonth(b: Date, a: Date)
    requires ValidDate(a) || ValidDate(b)
    requires 1 <= b.month <= 12 && 1 <= a.day && b.day <= DaysInMonth(b.year, b.month)
    requires b.year == a.year && b.month == a.month && b.day == a.day + 1
    ensures ValidDate(a) && ValidDate(b) && DayNumber(b) == DayNumber(a) + 1
  {
    assert ValidDate(a);
    assert ValidDate(b);
  }

  /** The first of a month is the day after the last of the month before. */
  lemma MonthBoundary(a: Date, b: Date)
    requires 1 <= a.month < 12 && a.day == DaysInMonth(a.year, a.month)
    requires b == Date(a.year, a.month + 1, 1)
    ensures ValidDate(a) && ValidDate(b) && DayNumber(b) == DayNumber(a) + 1
  {
    assert ValidDate(a);
    assert ValidDate(b);
    DaysBeforeMonthStep(a.year, a.month + 1);
  }

  /** The first of January is the day after the last of December. */
  lemma YearBoundary(a: Date, b: Date)
    requires a.month == 12 && a.day == 31 && b == Date(a.year + 1, 1, 1)
    ensures ValidDate(a) && ValidDate(b) && DayNumber(b) == DayNumber(a) + 1
  {
    assert ValidDate(a);
    assert ValidDate(b);
    DaysBeforeMonthStep(a.year, 13);
    YearStep(a.year);
  }

  /** The date `k` days after `d` (before it when `k` is negative). */
  function AddDays(d: Date, k: int): (r: Date)
    requires ValidDate(d)
    ensures ValidDate(r) && DayNumber(r) == DayNumber(d) + k
    decreases if k < 0 then -k else k
  {
    if k == 0 then d
    else if k > 0 then AddDays(NextDay(d), k - 1)
    else AddDays(PrevDay(d), k + 1)
  }

  /** Moving a week lands on the same weekday. */
  lemma WeekLater(d: Date)
    requires ValidDate(d)
    ensures WeekdayIndex(AddDays(d, 7)) == WeekdayIndex(d)
  {
    var x := DayNumber(d) + 6;
    assert DayNumber(AddDays(d, 7)) + 6 == x + 7;
    ModWeek(x);
  }

  lemma ModWeek(x: int)
    ensures (x + 7) % 7 == x % 7
  {
  }

  /** `date.setDate(n)`: day `n` of the date's month, rolling over into neighbouring
      months when `n` is out of range. */
  function SetDate(d: Date, n: int): (r: Date)
    requires ValidDate(d)
    ensures ValidDate(r) && DayNumber(r) == DayNumber(d) - d.day + n
  {
    AddDays(Date(d.year, d.month, 1), n - 1)
  }

  // ---------------------------------------------------------------- ISO text

  /** A `YYYY-MM-DD` text with a day that exists; anything else is an Invalid Date here. */
  function ParseIsoDate(s: string): (r: Option<Date>)
    ensures r.Some? ==> ValidDate(r.value) && 0 <= r.value.year <= 9999
  {
    if |s| == 10 && s[4] == '-' && s[7] == '-'
       && AllDigits(s[..4]) && AllDigits(s[5..7]) && AllDigits(s[8..])
    then
      DigitsValueBound(s[..4]);
      var d := Date(DigitsValue(s[..4]), DigitsValue(s[5..7]), DigitsValue(s[8..]));
      if ValidDate(d) then Some(d) else None
    else None
  }

  /** The date part of toISOString(): four-digit years, or a sign and six digits outside
      0..9999. */
  function FormatIsoDate(d: Date): string
    requires ValidDate(d)
  {
    var y := if 0 <= d.year <= 9999 then Pad(d.year, 4)
             else (if d.year < 0 then "-" else "+") + Pad(if d.year < 0 then -d.year else d.year, 6);
    y + "-" + Pad(d.month, 2) + "-" + Pad(d.day, 2)
  }

  /** Reading back a zero-padded field gives its value, and padding the value of a digit
      field gives the field back. */
  lemma PadDigits(t: string)
    requires |t| >= 1 && AllDigits(t)
    ensures DigitsValue(t) < Pow10(|t|) && Pad(DigitsValue(t), |t|) == t
  {
    DigitsValueBound(t);
    var v := DigitsValue(t);
    PadLength(v, |t|);
    ZeroPaddedValue(v, |t|);
    DigitsValueInjective(Pad(v, |t|), t);
  }

  lemma Pow10Values()
    ensures Pow10(2) == 100 && Pow10(4) == 10000
  {
  }

  /** Printing a date of years 0..9999 and parsing it back gives the date. */
  lemma {:induction false} ParseFormat(d: Date)
    requires ValidDate(d) && 0 <= d.year <= 9999
    ensures ParseIsoDate(FormatIsoDate(d)) == Some(d)
  {
    Pow10Values();
    var y, m, dd := Pad(d.year, 4), Pad(d.month, 2), Pad(d.day, 2);
    PadLength(d.year, 4);
    PadLength(d.month, 2);
    PadLength(d.day, 2);
    ZeroPaddedValue(d.year, 4);
    ZeroPaddedValue(d.month, 2);
    ZeroPaddedValue(d.day, 2);
    var s := FormatIsoDate(d);
    assert s == y + "-" + m + "-" + dd;
    assert |s| == 10 && s[4] == '-' && s[7] == '-';
    assert s[..4] == y && s[5..7] == m && s[8..] == dd;
    assert AllDigits(s[..4]) && AllDigits(s[5..7]) && AllDigits(s[8..]);
    assert Date(DigitsValue(s[..4]), DigitsValue(s[5..7]), DigitsValue(s[8..])) == d;
  }

  /** Every text that parses is the printed form of the date it parses to. */
  lemma {:induction false} FormatParse(s: string)
    requires ParseIsoDate(s).Some?
    ensures FormatIsoDate(ParseIsoDate(s).value) == s
  {
    var d := ParseIsoDate(s).value;
    PadDigits(s[..4]);
    PadDigits(s[5..7]);
    PadDigits(s[8..]);
    assert s == s[..4] + "-" + s[5..7] + "-" + s[8..];
  }

  /** Comparing two texts made of three fields of equal widths separated by '-'. */
  lemma {:induction false} FieldsOrder(ya: string, ma: string, da: string, yb: string, mb: string, db: string)
    requires |ya| == |yb| && |ma| == |mb|
    ensures LexLess(ya + "-" + ma + "-" + da, yb + "-" + mb + "-" + db) <==>
      LexLess(ya, yb) || (ya == yb && (LexLess(ma, mb) || (ma == mb && LexLess(da, db))))
  {
    LexLessIrreflexive("-");
    LexLessConcat(ya, "-", yb, "-");
    LexLessConcat(ma, "-", mb, "-");
    LexLessConcat(ma + "-", da, mb + "-", db);
    LexLessConcat(ya + "-", ma + "-" + da, yb + "-", mb + "-" + db);
    assert ya + "-" + ma + "-" + da == (ya + "-") + ((ma + "-") + da);
    assert yb + "-" + mb + "-" + db == (yb + "-") + ((mb + "-") + db);
    if ya + "-" == yb + "-" {
      assert ya == (ya + "-")[..|ya|] && yb == (yb + "-")[..|yb|];
    }
    if ma + "-" == mb + "-" {
      assert ma == (ma + "-")[..|ma|] && mb == (mb + "-")[..|mb|];
    }
  }

  /** On zero-padded fields of one width, string order and equality are those of the values. */
  lemma PadOrder(x: nat, y: nat, width: nat)
    requires width >= 1 && x < Pow10(width) && y < Pow10(width)
    ensures LexLess(Pad(x, width), Pad(y, width)) <==> x < y
    ensures Pad(x, width) == Pad(y, width) <==> x == y
  {
    PadLength(x, width);
    PadLength(y, width);
    ZeroPaddedValue(x, width);
    ZeroPaddedValue(y, width);
    LexLessDigits(Pad(x, width), Pad(y, width));
  }

  /** On printed dates of years 0..9999, string order is date order. */
  lemma IsoOrder(a: Date, b: Date)
    requires ValidDate(a) && ValidDate(b) && 0 <= a.year <= 9999 && 0 <= b.year <= 9999
    ensures LexLess(FormatIsoDate(a), FormatIsoDate(b)) <==> DayNumber(a) < DayNumber(b)
  {
    Pow10Values();
    DayNumberOrder(a, b);
    PadOrder(a.year, b.year, 4);
    PadOrder(a.month, b.month, 2);
    PadOrder(a.day, b.day, 2);
    PadLength(a.year, 4);
    PadLength(b.year, 4);
    PadLength(a.month, 2);
    PadLength(b.month, 2);
    FieldsOrder(Pad(a.year, 4), Pad(a.month, 2), Pad(a.day, 2), Pad(b.year, 4), Pad(b.month, 2), Pad(b.day, 2));
  }

  // ---------------------------------------------------------------- getDayFromDate

  /** The weekday of a valid date, looked up by name in the teaching-day enum. */
  function DayOfDate(d: Date): (r: Option<DayOfWeek>)
    requires ValidDate(d)
    ensures r == if 1 <= WeekdayIndex(d) <= 5 then Some(Workdays[WeekdayIndex(d) - 1]) else None
  {
    DayFromName(WeekdayNames[WeekdayIndex(d)])
  }

  /** getDayFromDate: the teaching day a date string falls on, or None when the text is not a
      date or the date is a Saturday or a Sunday. */
  function DayFromDate(s: string): (r: Option<DayOfWeek>)
    ensures ParseIsoDate(s).None? ==> r.None?
    ensures ParseIsoDate(s).Some? ==>
      var w := WeekdayIndex(ParseIsoDate(s).value);
      r == if 1 <= w <= 5 then Some(Workdays[w - 1]) else None
  {
    match ParseIsoDate(s)
    case None => None
    case Some(d) => DayOfDate(d)
  }

  /** Dates a week apart resolve to the same teaching day. */
  lemma DayFromDateWeekly(d: Date)
    requires ValidDate(d)
    ensures DayOfDate(AddDays(d, 7)) == DayOfDate(d)
  {
    WeekLater(d);
  }

  /** Saturdays and Sundays are not teaching days. */
  lemma DayFromDateWeekend(s: string)
    requires ParseIsoDate(s).Some?
    requires WeekdayIndex(ParseIsoDate(s).value) in {0, 6}
    ensures DayFromDate(s).None?
  {
  }

  lemma ParseExample()
    ensures ParseIsoDate("2024-03-05") == Some(Date(2024, 3, 5))
  {
    var s := "2024-03-05";
    assert s[..4] == "2024" && s[5..7] == "03" && s[8..] == "05";
    DigitsExample();
    assert |s| == 10 && s[4] == '-' && s[7] == '-';
    assert ValidDate(Date(2024, 3, 5));
  }

  lemma DigitsExample()
    ensures AllDigits("2024") && AllDigits("03") && AllDigits("05")
    ensures DigitsValue("2024") == 2024 && DigitsValue("03") == 3 && DigitsValue("05") == 5
  {
    assert "2024"[..3] == "202" && "202"[..2] == "20" && "20"[..1] == "2" && "2"[..0] == "";
    assert DigitsValue("2024") == 2024;
    assert "03"[..1] == "0" && "05"[..1] == "0" && "0"[..0] == "";
  }

  lemma WeekdayExample()
    ensures WeekdayIndex(Date(2024, 3, 5)) == 2
  {
    assert DaysBeforeYear(2024) == 739251;
    assert DaysBeforeMonth(2024, 3) == 60;
    assert DayNumber(Date(2024, 3, 5)) == 739315;
  }

  /** 5 March 2024 is a Tuesday. */
  lemma DayFromDateExample()
    ensures DayFromDate("2024-03-05") == Some(Selasa)
  {
    ParseExample();
    WeekdayExample();
  }
}
