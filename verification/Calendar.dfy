/** Dates: the year and month loops of the clock, and the closed form of the date formatter. */
module Calendar {
  import opened Arithmetic

  const SECONDS_PER_DAY: nat := 86400
  const WORD: nat := 0x1_0000_0000

  predicate Leap(year: nat) {
    (year % 4 == 0 && year % 100 != 0) || year % 400 == 0
  }

  function YearDays(year: nat): nat { if Leap(year) then 366 else 365 }

  /** Days from the start of 1970 to the start of `year`, one year after another. */
  function DaysBeforeYear(year: nat): nat
    requires year >= 1970
  {
    if year == 1970 then 0 else DaysBeforeYear(year - 1) + YearDays(year - 1)
  }

  /** The length of a month counted from 1. */
  function MonthDays(year: nat, month: nat): nat
    requires 1 <= month <= 12
  {
    if month == 2 then (if Leap(year) then 29 else 28)
    else if month == 4 || month == 6 || month == 9 || month == 11 then 30
    else 31
  }

  function DaysBefore(year: nat, month: nat): nat
    requires 1 <= month <= 13
  {
    if month == 1 then 0 else DaysBefore(year, month - 1) + MonthDays(year, month - 1)
  }

  datatype Date = Date(year: nat, month: nat, day: nat)
  {
    predicate Valid() {
      1970 <= year && 1 <= month <= 12 && 1 <= day <= MonthDays(year, month)
    }

    /** Days since the first of January 1970. */
    function Number(): nat
      requires Valid()
    {
      DaysBeforeYear(year) + DaysBefore(year, month) + day - 1
    }
  }

  // ------------------------------------------------------------------ the closed form

  /** The year of a 400-year era that its day `doe` falls in; years start on the first of March. */
  function YearInEra(doe: nat): nat {
    (doe - doe / 1460 + doe / 36524 - doe / 146096) / 365
  }

  /** The first day of a year of an era. */
  function EraDays(yoe: nat): nat { 365 * yoe + yoe / 4 - yoe / 100 }

  /** The date of a day of the year that starts in March `y`. */
  function MarchDate(y: nat, doy: nat): Date {
    var mp := (5 * doy + 2) / 153;
    var d := doy - (153 * mp + 2) / 5 + 1;
    var m := if mp < 10 then mp + 3 else mp - 9;
    Date(y + (if m <= 2 then 1 else 0), m, d)
  }

  /** The date of a day since 1970 by the closed form. */
  function ClosedForm(days: nat): Date {
    var z := days + 719468;
    var era := z / 146097;
    var doe := z - era * 146097;
    var yoe := YearInEra(doe);
    EraDaysBelow(doe);
    MarchDate(yoe + era * 400, doe - EraDays(yoe))
  }

  /** The closed form never subtracts too much. */
  lemma EraDaysBelow(doe: nat)
    requires doe < 146097
    ensures EraDays(YearInEra(doe)) <= doe
  {
    hide YearInEra, EraDays;
    var c, q, y, doy := EraParts(doe);
    YearOfEra(c, q, y, doy);
    PartsOfYear(c, q, y);
    SplitEra(100 * c + 4 * q + y);
  }

  /** The century, the leap cycle, the year and the day of a day of an era. */
  lemma EraParts(doe: nat) returns (c: nat, q: nat, y: nat, doy: nat)
    requires doe < 146097
    ensures c <= 3 && q <= 24 && y <= 3 && doy <= 365 && doe == 36524 * c + 1461 * q + 365 * y + doy
    ensures doy == 365 ==> y == 3 && (q < 24 || c == 3)
  {
    var r, s;
    c, r := Cut(doe, 36524, 3);
    q, s := Cut(r, 1461, 24);
    y, doy := Cut(s, 365, 3);
  }

  /** As many times `k` as go into `x`, but at most `most`. */
  lemma {:induction false} Cut(x: nat, k: nat, most: nat) returns (q: nat, r: nat)
    requires k > 0
    ensures q <= most && x == k * q + r && (q < most ==> r < k)
    decreases most
  {
    if most == 0 || x < k {
      q, r := 0, x;
    } else {
      q, r := Cut(x - k, k, most - 1);
      assert k * (q + 1) == k * q + k;
      q := q + 1;
    }
  }

  lemma PartsOfYear(c: nat, q: nat, y: nat)
    requires c <= 3 && q <= 24 && y <= 3
    ensures var yoe := 100 * c + 4 * q + y;
      yoe < 400 && yoe / 100 == c && yoe % 100 / 4 == q && yoe % 4 == y
  {
    DivMod(100 * c + 4 * q + y, 100, c, 4 * q + y);
    DivMod(4 * q + y, 4, q, y);
    DivMod(100 * c + 4 * q + y, 4, 25 * c + q, y);
  }

  /** Days from the first of March of year 0 to the first of March of `year`. */
  function ToMarch(year: nat): nat {
    365 * year + year / 4 - year / 100 + year / 400
  }

  lemma CountLeaps(year: nat)
    requires year > 0
    ensures ToMarch(year) == ToMarch(year - 1) + YearDays(year)
  {
    DivStep(year, 4);
    DivStep(year, 100);
    DivStep(year, 400);
    LeapHundreds(year);
  }

  lemma LeapHundreds(year: nat)
    ensures year % 400 == 0 ==> year % 100 == 0
    ensures year % 100 == 0 ==> year % 4 == 0
  {
    if year % 400 == 0 { assert year == 100 * (4 * (year / 400)); }
    if year % 100 == 0 { assert year == 4 * (25 * (year / 100)); }
  }

  lemma DivStep(y: nat, k: nat)
    requires y > 0 && k > 1
    ensures y / k == (y - 1) / k + if y % k == 0 then 1 else 0
  {
    var q, r := y / k, y % k;
    assert y == q * k + r;
    if r == 0 {
      assert y - 1 == (q - 1) * k + (k - 1);
      DivMod(y - 1, k, q - 1, k - 1);
    } else {
      DivMod(y - 1, k, q, r - 1);
    }
  }

  /** The year loop and the leap-year count agree. */
  lemma {:induction false} YearsToMarch(year: nat)
    requires year >= 1970
    ensures DaysBeforeYear(year) + 31 + (if Leap(year) then 29 else 28) + 719468 == ToMarch(year)
  {
    if year > 1970 {
      YearsToMarch(year - 1);
      CountLeaps(year);
    }
  }

  /** The days before a month of the year that starts in March. */
  function MarchMonth(mp: nat): nat { (153 * mp + 2) / 5 }

  lemma MonthsFromMarch(year: nat, month: nat)
    requires 1 <= month <= 12
    ensures month > 2 ==> DaysBefore(year, month) == MarchMonth(month - 3) + 31 + (if Leap(year) then 29 else 28)
    ensures month <= 2 ==> DaysBefore(year, month) + 306 == MarchMonth(month + 9)
  {
    var feb := if Leap(year) then 29 else 28;
    assert DaysBefore(year, 2) == 31;
    assert DaysBefore(year, 3) == 31 + feb;
    assert DaysBefore(year, 5) == 31 + feb + 61;
    assert DaysBefore(year, 7) == 31 + feb + 122;
    assert DaysBefore(year, 9) == 31 + feb + 184;
    assert DaysBefore(year, 11) == 31 + feb + 245;
  }

  /** The month of a day of the year that starts in March is recovered from the day. */
  lemma MarchMonthBack(mp: nat, d: nat)
    requires mp <= 11 && d < MarchMonth(mp + 1) - MarchMonth(mp)
    ensures (5 * (MarchMonth(mp) + d) + 2) / 153 == mp
  {
  }

  /** The year of an era is recovered from a day of the era. */
  lemma YearOfEra(c: nat, q: nat, y: nat, doy: nat)
    requires c <= 3 && q <= 24 && y <= 3 && doy <= 365
    requires doy == 365 ==> y == 3 && (q < 24 || c == 3)
    ensures var doe := 36524 * c + 1461 * q + 365 * y + doy;
      doe < 146097 && YearInEra(doe) == 100 * c + 4 * q + y
  {
    var doe := 36524 * c + 1461 * q + 365 * y + doy;
    var e := if 24 * c + q + 365 * y + doy >= 1460 then 1 else 0;
    DivMod(doe, 1460, 25 * c + q + e, 24 * c + q + 365 * y + doy - 1460 * e);
    if doe == 146096 {
      assert doe / 36524 == 4;
    } else {
      DivMod(doe, 36524, c, 1461 * q + 365 * y + doy);
      assert doe / 146096 == 0;
    }
    DivMod(365 * (100 * c + 4 * q + y) + doy - e, 365, 100 * c + 4 * q + y, doy - e);
  }

  lemma SplitEra(yoe: nat)
    requires yoe < 400
    ensures var c, q, y := yoe / 100, yoe % 100 / 4, yoe % 4;
      c <= 3 && q <= 24 && yoe == 100 * c + 4 * q + y && EraDays(yoe) == 36524 * c + 1461 * q + 365 * y
  {
    var r := yoe % 100;
    assert yoe == 100 * (yoe / 100) + r && r == 4 * (r / 4) + r % 4;
    DivMod(yoe, 4, 25 * (yoe / 100) + r / 4, r % 4);
  }

  lemma EraOfYear(year: nat)
    ensures ToMarch(year) == 146097 * (year / 400) + EraDays(year % 400)
  {
    var e, r := year / 400, year % 400;
    assert year == 400 * e + r;
    DivMod(year, 4, 100 * e + r / 4, r % 4);
    DivMod(year, 100, 4 * e + r / 100, r % 100);
  }

  /** The last day of a March year is there only when the February at its end has 29 days. */
  lemma LastOfMarchYear(year: nat, yoe: nat)
    requires yoe == year % 400 && Leap(year + 1)
    ensures yoe % 4 == 3 && (yoe % 100 / 4 < 24 || yoe / 100 == 3)
  {
    var e := year / 400;
    assert year == 400 * e + yoe;
    LeapHundreds(year + 1);
    DivMod(year, 4, 100 * e + yoe / 4, yoe % 4);
    DivMod(year, 100, 4 * e + yoe / 100, yoe % 100);
    DivStep(year + 1, 4);
    DivStep(year + 1, 100);
    DivStep(year + 1, 400);
  }

  /** A day of an era is split into its year and the day of that year. */
  lemma EraSplits(yy: nat, doy: nat)
    requires doy <= 365 && (doy == 365 ==> Leap(yy + 1))
    ensures EraDays(yy % 400) + doy < 146097 && YearInEra(EraDays(yy % 400) + doy) == yy % 400
  {
    var yoe := yy % 400;
    SplitEra(yoe);
    if doy == 365 { LastOfMarchYear(yy, yoe); }
    YearOfEra(yoe / 100, yoe % 100 / 4, yoe % 4, doy);
  }

  lemma ClosedFormOf(days: nat, yy: nat, doy: nat)
    requires doy <= 365 && (doy == 365 ==> Leap(yy + 1))
    requires days + 719468 == ToMarch(yy) + doy
    ensures ClosedForm(days) == MarchDate(yy, doy)
  {
    hide Leap, ToMarch, EraDays, YearInEra, MarchDate;
    EraOfYear(yy);
    EraSplits(yy, doy);
    DivMod(days + 719468, 146097, yy / 400, EraDays(yy % 400) + doy);
  }

  lemma MarchDateOf(yy: nat, mp: nat, d: nat)
    requires mp <= 11 && d < MarchMonth(mp + 1) - MarchMonth(mp)
    ensures MarchDate(yy, MarchMonth(mp) + d)
         == Date(yy + (if mp >= 10 then 1 else 0), if mp < 10 then mp + 3 else mp - 9, d + 1)
  {
    MarchMonthBack(mp, d);
  }

  /** The closed form gives back every date from its day number. */
  lemma ClosedFormExact(date: Date)
    requires date.Valid()
    ensures ClosedForm(date.Number()) == date
  {
    hide Date.Number, MarchMonth, MarchDate, ToMarch, Leap, ClosedForm;
    var y, m, d := date.year, date.month, date.day - 1;
    var yy := if m > 2 then y else y - 1;
    var mp := if m > 2 then m - 3 else m + 9;
    InMarchYear(date);
    ClosedFormOf(date.Number(), yy, MarchMonth(mp) + d);
    MarchDateOf(yy, mp, d);
  }

  /** A date by the year that starts in March. */
  lemma InMarchYear(date: Date)
    requires date.Valid()
    ensures var yy := if date.month > 2 then date.year else date.year - 1;
      var mp := if date.month > 2 then date.month - 3 else date.month + 9;
      var doy := MarchMonth(mp) + date.day - 1;
      && date.day - 1 < MarchMonth(mp + 1) - MarchMonth(mp) && 0 <= doy <= 365 && (doy == 365 ==> Leap(yy + 1))
      && date.Number() + 719468 == ToMarch(yy) + doy
  {
    MonthsFromMarch(date.year, date.month);
    YearsToMarch(date.year);
    CountLeaps(date.year);
  }

  /** So a day has only one date. */
  lemma DateUnique(a: Date, b: Date)
    requires a.Valid() && b.Valid() && a.Number() == b.Number()
    ensures a == b
  {
    ClosedFormExact(a);
    ClosedFormExact(b);
  }

  // ------------------------------------------------------------------ the clock

  datatype Time = Time(date: Date, hour: nat, min: nat, sec: nat, wday: nat, yday: nat)
  {
    predicate Valid() {
      && date.Valid() && hour < 24 && min < 60 && sec < 60
      && wday == (date.Number() + 4) % 7 && yday == DaysBefore(date.year, date.month) + date.day - 1
    }

    function Seconds(): nat
      requires Valid()
    {
      date.Number() * SECONDS_PER_DAY + hour * 3600 + min * 60 + sec
    }
  }

  /** The first of January 1970 was a Thursday, and the day after a day is the next day of the week. */
  lemma Weekdays(a: Time, b: Time)
    requires a.Valid() && b.Valid()
    ensures a.date == Date(1970, 1, 1) ==> a.wday == 4
    ensures b.date.Number() == a.date.Number() + 1 ==> b.wday == (if a.wday == 6 then 0 else a.wday + 1)
  {
  }

  method DaysBeforeMonth(year: nat, month0: nat) returns (days: nat)
    ensures days == DaysBefore(year, if month0 < 1 then 1 else if month0 > 12 then 12 else month0)
  {
    var month := month0;
    if month < 1 { month := 1; }
    if month > 12 { month := 12; }
    days := 0;
    for m := 1 to month
      invariant days == DaysBefore(year, m)
    {
      days := days + (if m == 2 then 28 else if m == 4 || m == 6 || m == 9 || m == 11 then 30 else 31);
      if m == 2 && Leap(year) { days := days + 1; }
    }
  }

  /** The day that a year, a month and a day mean when they are out of range: years before 1970 count as
      1970, months as the nearest one and day 0 as day 1, and days past the month's last one go on into the
      months behind it. */
  function DayOrNearest(year: nat, month: nat, day: nat): (n: nat)
    ensures Date(year, month, day).Valid() ==> n == Date(year, month, day).Number()
  {
    var first := Date(if year < 1970 then 1970 else year, if month < 1 then 1 else if month > 12 then 12 else month, 1);
    first.Number() + (if day < 1 then 0 else day - 1)
  }

  /** What is out of range counts as what is nearest, and every day past the last one of a month as one day more. */
  lemma NearestDay(year: nat, month: nat, day: nat)
    ensures year < 1970 ==> DayOrNearest(year, month, day) == DayOrNearest(1970, month, day)
    ensures month < 1 ==> DayOrNearest(year, month, day) == DayOrNearest(year, 1, day)
    ensures month > 12 ==> DayOrNearest(year, month, day) == DayOrNearest(year, 12, day)
    ensures day < 1 ==> DayOrNearest(year, month, day) == DayOrNearest(year, month, 1)
    ensures day > 1 ==> DayOrNearest(year, month, day) == DayOrNearest(year, month, day - 1) + 1
  {
    hide Date.Number;
  }

  /** Seconds since 1970 of a date and time, as a 32-bit word. */
  method ToUnix(year0: nat, month: nat, day0: nat, hour: nat, min: nat, sec: nat) returns (t: nat)
    ensures t == (DayOrNearest(year0, month, day0) * SECONDS_PER_DAY + hour * 3600 + min * 60 + sec) % WORD
    ensures var date := Date(year0, month, day0);
      date.Valid() ==> t == (date.Number() * SECONDS_PER_DAY + hour * 3600 + min * 60 + sec) % WORD
  {
    var year, day := year0, day0;
    if year < 1970 { year := 1970; }
    if day < 1 { day := 1; }
    var days := 0;
    for y := 1970 to year
      invariant days == DaysBeforeYear(y)
    {
      days := days + if Leap(y) then 366 else 365;
    }
    var before := DaysBeforeMonth(year, month);
    days := days + before + day - 1;
    t := (days * SECONDS_PER_DAY + hour * 3600 + min * 60 + sec) % WORD;
  }

  lemma MonthInYear(year: nat, month: nat)
    requires 1 <= month <= 13
    ensures DaysBefore(year, 13) == YearDays(year)
    ensures month <= 12 ==> DaysBefore(year, month) + MonthDays(year, month) == DaysBefore(year, month + 1)
  {
    var feb := if Leap(year) then 29 else 28;
    assert DaysBefore(year, 2) == 31;
    assert DaysBefore(year, 3) == 31 + feb;
    assert DaysBefore(year, 5) == 31 + feb + 61;
    assert DaysBefore(year, 7) == 31 + feb + 122;
    assert DaysBefore(year, 9) == 31 + feb + 184;
    assert DaysBefore(year, 11) == 31 + feb + 245;
  }

  /** Splits seconds since 1970 (negative ones count as zero) into a date and a time of day. */
  method GmTime(timer: int) returns (tm: Time)
    ensures tm.Valid() && tm.Seconds() == if timer < 0 then 0 else timer
  {
    var t: nat := if timer < 0 then 0 else timer;
    var days: nat, rem: nat := t / SECONDS_PER_DAY, t % SECONDS_PER_DAY;
    ghost var number := days;
    var hour: nat := rem / 3600;
    var min, sec := rem % 3600 / 60, rem % 3600 % 60;
    var wday := (days + 4) % 7;
    var year: nat := 1970;
    while days >= YearDays(year)
      invariant year >= 1970 && DaysBeforeYear(year) + days == number
      decreases days
    {
      days := days - YearDays(year);
      year := year + 1;
    }
    var yday := days;
    var month: nat := 0;
    while month < 12
      invariant month < 12 && DaysBefore(year, month + 1) + days == yday < YearDays(year)
    {
      var dim := MonthDays(year, month + 1);
      if days < dim { break; }
      MonthInYear(year, month + 1);
      days := days - dim;
      month := month + 1;
    }
    tm := Time(Date(year, month + 1, days + 1), hour, min, sec, wday, yday);
  }

  /** The clock's date of any second is the formatter's. */
  method ClockAgrees(t: nat) returns (tm: Time)
    ensures tm.Valid() && tm.Seconds() == t
    ensures tm.date == ClosedForm(t / SECONDS_PER_DAY)
  {
    tm := GmTime(t);
    DayOf(tm);
    hide *;
    ClosedFormExact(tm.date);
  }

  lemma DayOf(tm: Time)
    requires tm.Valid()
    ensures tm.date.Valid() && tm.Seconds() / SECONDS_PER_DAY == tm.date.Number()
  {
    hide Date.Number;
    DivMod(tm.Seconds(), SECONDS_PER_DAY, tm.date.Number(), tm.hour * 3600 + tm.min * 60 + tm.sec);
  }

  lemma SameSeconds(a: Time, b: Time)
    requires a.Valid() && b.Valid() && a.Seconds() == b.Seconds()
    ensures a == b
  {
    DateUnique(a.date, b.date);
  }

  method ThereAndBack(t: nat) returns (back: nat)
    requires t < WORD
    ensures back == t
  {
    var tm := GmTime(t);
    back := ToUnix(tm.date.year, tm.date.month, tm.date.day, tm.hour, tm.min, tm.sec);
  }

  method BackAndThere(tm: Time) returns (again: Time)
    requires tm.Valid() && tm.Seconds() < WORD
    ensures again == tm
  {
    var t := ToUnix(tm.date.year, tm.date.month, tm.date.day, tm.hour, tm.min, tm.sec);
    again := GmTime(t);
    SameSeconds(again, tm);
  }
}
