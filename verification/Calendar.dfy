/**
 Calendar arithmetic and the text of timestamps.
 */
module Calendar {
  import opened Common
  import opened Bytes

  /** `struct tm`: years from 1900, months from 0. */
  datatype Tm = Tm(year: int, mon: int, mday: int, hour: int, min: int, sec: int)

  const INT_MAX := 0x7FFF_FFFF

  /** Days before each month of a year that is not a leap year. */
  const MON_DAYS: seq<nat> := [0, 31, 59, 90, 120, 151, 181, 212, 243, 273, 304, 334, 365]

  /** The days `time_to_epoch` counts. */
  function EpochDays(year: int, mon: int, mday: int): int
    requires 0 <= mon <= 12
  {
    var tyears := if year != 0 then year - 70 else 0;
    var tdays := MON_DAYS[mon] + (if mday != 0 then mday - 1 else 0) + tyears * 365 + TruncDiv(tyears + 2, 4);
    if year != 0 && year % 4 == 0 && mon < 2 then tdays - 1 else tdays
  }

  function TimeToEpoch(tm: Tm, utcdiff: int): int
    requires 0 <= tm.mon <= 12
  {
    EpochDays(tm.year, tm.mon, tm.mday) * 86400 + (tm.hour + utcdiff) * 3600 + tm.min * 60 + tm.sec
  }

  predicate IsInt(n: int) { -INT_MAX - 1 <= n <= INT_MAX }

  /** No intermediate value of the sum leaves the range of `int`. */
  predicate NoOverflow(tm: Tm)
    requires 0 <= tm.mon <= 12
  {
    var days := EpochDays(tm.year, tm.mon, tm.mday);
    && IsInt(days * 86400) && IsInt(tm.hour * 3600) && IsInt(tm.min * 60)
    && IsInt(days * 86400 + tm.hour * 3600) && IsInt(days * 86400 + tm.hour * 3600 + tm.min * 60)
    && IsInt(TimeToEpoch(tm, 0))
  }

  /** `time_to_epoch` where it is defined: within the table of months and without overflow. */
  function Epoch(tm: Tm): Option<int> {
    if 0 <= tm.mon <= 12 && NoOverflow(tm) then Some(TimeToEpoch(tm, 0)) else None
  }

  // ---------------------------------------------------------------- the Gregorian calendar

  /** A date of the Gregorian calendar, months from 0. */
  datatype Date = Date(year: int, mon: nat, mday: nat)

  predicate Leap(y: int) { y % 4 == 0 && (y % 100 != 0 || y % 400 == 0) }

  function MonthLength(y: int, mon: nat): nat {
    if mon == 1 then (if Leap(y) then 29 else 28)
    else if mon in {3, 5, 8, 10} then 30
    else 31
  }

  predicate IsDate(d: Date) { d.mon < 12 && 1 <= d.mday <= MonthLength(d.year, d.mon) }

  function NextDay(d: Date): Date {
    if d.mday < MonthLength(d.year, d.mon) then d.(mday := d.mday + 1)
    else if d.mon < 11 then Date(d.year, d.mon + 1, 1)
    else Date(d.year + 1, 0, 1)
  }

  const EPOCH := Date(1970, 0, 1)

  /** The date `n` days after 1 January 1970, counted day by day. */
  function DateOf(n: nat): (d: Date)
    ensures IsDate(d) && d.year >= 1970
  {
    if n == 0 then EPOCH else NextDay(DateOf(n - 1))
  }

  function YearLength(y: int): nat { if Leap(y) then 366 else 365 }

  function DaysBeforeYear(y: int): int
    decreases if y >= 1970 then y - 1970 else 1970 - y
  {
    if y == 1970 then 0
    else if y > 1970 then DaysBeforeYear(y - 1) + YearLength(y - 1)
    else DaysBeforeYear(y + 1) - YearLength(y)
  }

  /** The number of a date, 1 January 1970 being 0. */
  function DayNumber(d: Date): int
    requires IsDate(d)
  {
    DaysBeforeYear(d.year) + DaysBeforeMonth(d.year, d.mon) + d.mday - 1
  }

  function DaysBeforeMonth(y: int, mon: nat): nat {
    if mon == 0 then 0 else DaysBeforeMonth(y, mon - 1) + MonthLength(y, mon - 1)
  }

  lemma YearEnds(y: int)
    ensures DaysBeforeMonth(y, 11) == YearLength(y) - 31
  {
    MonthStarts(y, 11);
  }

  lemma {:induction false} MonthStarts(y: int, mon: nat)
    requires mon < 12
    ensures DaysBeforeMonth(y, mon) == MON_DAYS[mon] + (if mon >= 2 && Leap(y) then 1 else 0)
  {
    if mon > 0 { MonthStarts(y, mon - 1); }
  }

  lemma {:induction false} YearStep(y: int)
    ensures DaysBeforeYear(y + 1) == DaysBeforeYear(y) + YearLength(y)
  {
  }

  /** Days are numbered one by one. */
  lemma NextDayNumber(d: Date)
    requires IsDate(d)
    ensures IsDate(NextDay(d)) && DayNumber(NextDay(d)) == DayNumber(d) + 1
  {
    hide DaysBeforeYear, Leap;
    if d.mday == MonthLength(d.year, d.mon) && d.mon == 11 {
      YearEnds(d.year);
      YearStep(d.year);
    }
  }

  lemma {:induction false} NumberOfDate(n: nat)
    ensures DayNumber(DateOf(n)) == n
  {
    if n > 0 {
      NumberOfDate(n - 1);
      NextDayNumber(DateOf(n - 1));
    }
  }

  // ---------------------------------------------------------------- the day count

  /** Every fourth year is a leap year from 1901 to 2099, so a linear formula counts the days; later it counts too
      many. */
  lemma {:induction false} LinearYears(y: int)
    requires 1901 <= y
    ensures y <= 2100 ==> DaysBeforeYear(y) == (y - 1970) * 365 + (y - 1969) / 4
    ensures y > 2100 ==> DaysBeforeYear(y) < (y - 1970) * 365 + (y - 1969) / 4
    decreases if y >= 1970 then y - 1970 else 1970 - y
  {
    hide DaysBeforeYear, Leap;
    if y > 1970 {
      LinearYears(y - 1);
      CenturyIsNoLeap(y - 1);
      YearStep(y - 1);
      Quarters(y - 1);
    } else if y < 1970 {
      LinearYears(y + 1);
      CenturyIsNoLeap(y);
      YearStep(y);
      Quarters(y);
    } else {
      NoYears();
    }
  }

  lemma Quarters(y: int)
    ensures (y - 1968) / 4 == (y - 1969) / 4 + (if y % 4 == 0 then 1 else 0)
  {}

  lemma NoYears()
    ensures DaysBeforeYear(1970) == 0
  {}

  lemma CenturyIsNoLeap(y: int)
    requires 1901 <= y
    ensures y < 2100 ==> (Leap(y) <==> y % 4 == 0)
    ensures Leap(y) ==> y % 4 == 0
    ensures y == 2100 ==> !Leap(y)
  {
  }

  predicate NotAfter(d: Date, e: Date) {
    d.year < e.year || (d.year == e.year && (d.mon < e.mon || (d.mon == e.mon && d.mday <= e.mday)))
  }

  const LAST_DAY := Date(2100, 1, 28)

  /** From 1901 on the day count is that of the calendar exactly until 28 February 2100, and before 1968 only in leap
      years. */
  lemma DayCountExactWhen(d: Date)
    requires IsDate(d) && d.year >= 1901
    ensures EpochDays(d.year - 1900, d.mon, d.mday) == DayNumber(d)
            <==> NotAfter(d, LAST_DAY) && (d.year >= 1968 || d.year % 4 == 0)
  {
    LinearYears(d.year);
    MonthStarts(d.year, d.mon);
    CenturyIsNoLeap(d.year);
    LeapStep(d.year);
  }

  lemma DayCountNeverLow(d: Date)
    requires IsDate(d) && d.year >= 1968
    ensures EpochDays(d.year - 1900, d.mon, d.mday) >= DayNumber(d)
  {
    LinearYears(d.year);
    MonthStarts(d.year, d.mon);
    CenturyIsNoLeap(d.year);
    LeapStep(d.year);
  }

  /** How the formula's leap days compare with those before the year begins. */
  lemma LeapStep(y: int)
    requires 1901 <= y
    ensures y % 4 == 0 ==> TruncDiv(y - 1968, 4) == (y - 1969) / 4 + 1
    ensures y % 4 != 0 ==> TruncDiv(y - 1968, 4) == (y - 1969) / 4 + (if y < 1968 then 1 else 0)
  {
  }

  /** The day-by-day count: day `n` after the epoch gets the number `n` exactly until 28 February 2100. */
  lemma DayByDayExactWhen(n: nat)
    ensures var d := DateOf(n); EpochDays(d.year - 1900, d.mon, d.mday) == n <==> n <= 47540
  {
    var d := DateOf(n);
    NumberOfDate(n);
    DayCountExactWhen(d);
    LastDayNumber();
    NumbersOrdered(d, LAST_DAY);
  }

  lemma LastDayNumber()
    ensures IsDate(LAST_DAY) && DayNumber(LAST_DAY) == 47540
  {
    LinearYears(2100);
    MonthStarts(2100, 1);
  }

  lemma {:induction false} YearsApart(x: int, y: int)
    requires x < y
    ensures DaysBeforeYear(x) + YearLength(x) <= DaysBeforeYear(y)
    decreases y - x
  {
    YearStep(y - 1);
    if x < y - 1 { YearsApart(x, y - 1); }
  }

  lemma {:induction false} MonthsApart(y: int, m: nat, n: nat)
    requires m < n < 12
    ensures DaysBeforeMonth(y, m) + MonthLength(y, m) <= DaysBeforeMonth(y, n)
  {
    if m < n - 1 { MonthsApart(y, m, n - 1); }
  }

  lemma DayInYear(d: Date)
    requires IsDate(d)
    ensures 0 <= DayNumber(d) - DaysBeforeYear(d.year) < YearLength(d.year)
  {
    YearEnds(d.year);
    if d.mon < 11 { MonthsApart(d.year, d.mon, 11); }
  }

  lemma NumbersOrdered(d: Date, e: Date)
    requires IsDate(d) && IsDate(e)
    ensures NotAfter(d, e) <==> DayNumber(d) <= DayNumber(e)
  {
    DayInYear(d);
    DayInYear(e);
    if d.year < e.year { YearsApart(d.year, e.year); }
    else if e.year < d.year { YearsApart(e.year, d.year); }
    else if d.mon < e.mon { MonthsApart(d.year, d.mon, e.mon); }
    else if e.mon < d.mon { MonthsApart(d.year, e.mon, d.mon); }
  }

  /** Every date from the epoch on is reached by counting. */
  lemma DateOfNumber(d: Date)
    requires IsDate(d) && d.year >= 1970
    ensures DayNumber(d) >= 0 && DateOf(DayNumber(d)) == d
  {
    MonthStarts(1970, 0);
    NumbersOrdered(EPOCH, d);
    NumberOfDate(DayNumber(d));
    var e := DateOf(DayNumber(d));
    NumbersOrdered(d, e);
    NumbersOrdered(e, d);
  }

  // ---------------------------------------------------------------- instants

  /** The broken-out fields of an instant, as `gmtime` gives them, for seconds since the epoch. */
  function BrokenOut(secs: nat): Tm {
    var d, s := DateOf(secs / 86400), secs % 86400;
    Tm(d.year - 1900, d.mon, d.mday, s / 3600, s % 3600 / 60, s % 60)
  }

  /** `time_to_epoch` undoes `gmtime` exactly until the end of 28 February 2100. */
  lemma EpochUndoesBrokenOut(secs: nat)
    ensures TimeToEpoch(BrokenOut(secs), 0) == secs <==> secs < 47541 * 86400
  {
    hide EpochDays, DateOf;
    DayByDayExactWhen(secs / 86400);
    ClockTime(secs % 86400);
    Midnights(secs);
  }

  lemma ClockTime(s: nat)
    ensures s / 3600 * 3600 + s % 3600 / 60 * 60 + s % 60 == s
  {
    var h, r := s / 3600, s % 3600;
    var m, q := r / 60, r % 60;
    assert s == 60 * (60 * h + m) + q;
    SecondOf(60 * h + m, q);
  }

  lemma SecondOf(k: nat, q: nat)
    requires q < 60
    ensures (60 * k + q) % 60 == q
  {}

  lemma Midnights(secs: nat)
    ensures secs / 86400 * 86400 + secs % 86400 == secs && (secs / 86400 <= 47540 <==> secs < 47541 * 86400)
  {}

  /** The sum stays within `int` exactly until 2038-01-19 03:14:07. */
  lemma NoOverflowExactWhen(secs: nat)
    ensures NoOverflow(BrokenOut(secs)) <==> secs <= INT_MAX
    ensures secs <= INT_MAX ==> Epoch(BrokenOut(secs)) == Some(secs)
  {
    hide EpochDays, DateOf;
    DayByDayExactWhen(secs / 86400);
    EpochUndoesBrokenOut(secs);
    DayCountNeverLow(DateOf(secs / 86400));
    NumberOfDate(secs / 86400);
  }

  lemma LastInstant()
    ensures BrokenOut(INT_MAX) == Tm(138, 0, 19, 3, 14, 7)
  {
    hide DateOf, DayNumber;
    var d := Date(2038, 0, 19);
    LastDayOfInt();
    DateOfNumber(d);
    assert INT_MAX / 86400 == 24855 && INT_MAX % 86400 == 11647;
  }

  lemma LastDayOfInt()
    ensures DayNumber(Date(2038, 0, 19)) == 24855
  {
    hide DaysBeforeYear, DaysBeforeMonth, Leap;
    LinearYears(2038);
    MonthStarts(2038, 0);
  }

  // ---------------------------------------------------------------- digits

  /** The last `width` decimal digits of `data`. */
  function Digits(data: nat, width: nat): (s: Bytes)
    ensures |s| == width
  {
    if width == 0 then [] else Digits(data / 10, width - 1) + [ZERO + data % 10]
  }

  /** A buffer with `text` written at `at`. */
  function Written(buffer: Bytes, at: nat, text: Bytes): (r: Bytes)
    requires at + |text| <= |buffer|
    ensures |r| == |buffer|
  {
    buffer[..at] + text + buffer[at + |text|..]
  }

  lemma WrittenOn(buffer: Bytes, at: nat, s: Bytes, t: Bytes)
    requires at + |s| + |t| <= |buffer|
    ensures Written(Written(buffer, at, s), at + |s|, t) == Written(buffer, at, s + t)
  {
  }

  /** `format0` */
  method Format0(data: nat, to: array<byte>, at: nat, width: nat)
    requires at + width <= to.Length
    modifies to
    ensures to[..] == Written(old(to[..]), at, Digits(data, width))
  {
    var rest: nat, i: nat := data, width;
    while i > 0
      invariant i <= width
      invariant to[..at] == old(to[..at]) && to[at + width..] == old(to[at + width..])
      invariant Digits(data, width) == Digits(rest, i) + to[at + i..at + width]
    {
      ghost var done := to[at + i..at + width];
      i := i - 1;
      to[at + i] := ZERO + rest % 10;
      assert to[at + i..at + width] == [ZERO + rest % 10] + done;
      rest := rest / 10;
    }
    assert to[..] == to[..at] + to[at..at + width] + to[at + width..];
  }

  /** What `parse_decimal` makes of the text, starting from the value there is. */
  function Parsed(s: Bytes, from: int): int {
    if s == [] then from else Parsed(s[..|s| - 1], from) * 10 + DigitValue(s[|s| - 1])
  }

  /** `parse_decimal`: ten times is two shifts and an addition. */
  method ParseDecimal(text: Bytes, at: nat, len: nat, from: int) returns (to: int)
    requires at + len <= |text|
    ensures to == Parsed(text[at..at + len], from)
  {
    to := from;
    var i := 0;
    while i < len
      invariant i <= len && to == Parsed(text[at..at + i], from)
    {
      to := to * 8 + to * 2 + DigitValue(text[at + i]);
      assert text[at..at + i + 1][..i] == text[at..at + i];
      i := i + 1;
    }
  }

  /** Parsing undoes formatting on numbers that fit the width. */
  lemma {:induction false} ParseUndoesFormat(data: nat, width: nat)
    requires data < Pow10(width)
    ensures Parsed(Digits(data, width), 0) == data
  {
    if width > 0 {
      ParseUndoesFormat(data / 10, width - 1);
      assert Digits(data, width)[..width - 1] == Digits(data / 10, width - 1);
    }
  }

  // ---------------------------------------------------------------- timestamps

  datatype Indicator = TimeOnly | TimeWithMs | ShortDateOnly | DateOnly | SecOnly | WithMs

  const DASH: byte := 45
  const COLON: byte := 58
  const DOT: byte := 46

  const MILLION := 1_000_000
  const BILLION := 1_000_000_000

  /** The fields that a formatted instant has: none is negative. */
  predicate Printable(tm: Tm) {
    tm.year >= -1900 && tm.mon >= 0 && tm.mday >= 0 && tm.hour >= 0 && tm.min >= 0 && tm.sec >= 0
  }

  function DateText(tm: Tm): (s: Bytes)
    requires Printable(tm)
    ensures |s| == 8
  {
    Digits(tm.year + 1900, 4) + Digits(tm.mon + 1, 2) + Digits(tm.mday, 2)
  }

  function TimeText(tm: Tm): (s: Bytes)
    requires Printable(tm)
    ensures |s| == 8
  {
    Digits(tm.hour, 2) + [COLON] + Digits(tm.min, 2) + [COLON] + Digits(tm.sec, 2)
  }

  /** The text of a timestamp. */
  function Text(tm: Tm, msecs: nat, ind: Indicator): Bytes
    requires Printable(tm)
  {
    match ind
    case TimeOnly => TimeText(tm)
    case TimeWithMs => TimeText(tm) + [DOT] + Digits(msecs, 3)
    case ShortDateOnly => DateText(tm)[..6]
    case DateOnly => DateText(tm)
    case SecOnly => DateText(tm) + [DASH] + TimeText(tm)
    case WithMs => DateText(tm) + [DASH] + TimeText(tm) + [DOT] + Digits(msecs, 3)
  }

  method PutByte(to: array<byte>, at: nat, b: byte)
    requires at < to.Length
    modifies to
    ensures to[..] == Written(old(to[..]), at, [b])
  {
    to[at] := b;
  }

  method PutDate(tm: Tm, to: array<byte>, short: bool)
    requires Printable(tm) && to.Length >= if short then 6 else 8
    modifies to
    ensures to[..] == Written(old(to[..]), 0, if short then DateText(tm)[..6] else DateText(tm))
  {
    hide Digits, Written;
    ghost var was := to[..];
    Format0(tm.year + 1900, to, 0, 4);
    Format0(tm.mon + 1, to, 4, 2);
    WrittenOn(was, 0, Digits(tm.year + 1900, 4), Digits(tm.mon + 1, 2));
    if !short {
      Format0(tm.mday, to, 6, 2);
      WrittenOn(was, 0, Digits(tm.year + 1900, 4) + Digits(tm.mon + 1, 2), Digits(tm.mday, 2));
    } else {
      assert DateText(tm)[..6] == Digits(tm.year + 1900, 4) + Digits(tm.mon + 1, 2);
    }
  }

  method PutTime(tm: Tm, to: array<byte>, at: nat)
    requires Printable(tm) && at + 8 <= to.Length
    modifies to
    ensures to[..] == Written(old(to[..]), at, TimeText(tm))
  {
    hide Digits, Written;
    ghost var was := to[..];
    var h := Digits(tm.hour, 2);
    var m := Digits(tm.min, 2);
    Format0(tm.hour, to, at, 2);
    PutByte(to, at + 2, COLON);
    WrittenOn(was, at, h, [COLON]);
    Format0(tm.min, to, at + 3, 2);
    WrittenOn(was, at, h + [COLON], m);
    PutByte(to, at + 5, COLON);
    WrittenOn(was, at, h + [COLON] + m, [COLON]);
    Format0(tm.sec, to, at + 6, 2);
    WrittenOn(was, at, h + [COLON] + m + [COLON], Digits(tm.sec, 2));
  }

  /** `date_time_format`: writes the text into the buffer, changes nothing behind it, and returns its length. */
  method DateTimeFormat(tm: Tm, msecs: nat, to: array<byte>, ind: Indicator) returns (len: nat)
    requires Printable(tm) && to.Length >= |Text(tm, msecs, ind)|
    modifies to
    ensures len == |Text(tm, msecs, ind)| && to[..] == Written(old(to[..]), 0, Text(tm, msecs, ind))
  {
    hide Digits, Written;
    ghost var was := to[..];
    ghost var text: Bytes := [];
    len := 0;
    if !ind.TimeOnly? && !ind.TimeWithMs? {
      PutDate(tm, to, ind.ShortDateOnly?);
      if ind.ShortDateOnly? {
        return 6;
      }
      if ind.DateOnly? {
        return 8;
      }
      PutByte(to, 8, DASH);
      WrittenOn(was, 0, DateText(tm), [DASH]);
      text := DateText(tm) + [DASH];
      len := 9;
    } else {
      WrittenNone(was);
    }
    PutTime(tm, to, len);
    WrittenOn(was, 0, text, TimeText(tm));
    text := text + TimeText(tm);
    len := len + 8;
    if ind.TimeWithMs? || ind.WithMs? {
      PutByte(to, len, DOT);
      WrittenOn(was, 0, text, [DOT]);
      Format0(msecs, to, len + 1, 3);
      WrittenOn(was, 0, text + [DOT], Digits(msecs, 3));
      len := len + 4;
    }
    assert [] + TimeText(tm) == TimeText(tm);
  }

  lemma WrittenNone(buffer: Bytes)
    ensures Written(buffer, 0, []) == buffer
  {
  }

  lemma DateParses(tm: Tm, rest: Bytes)
    requires Printable(tm) && tm.year + 1900 < 10000 && tm.mon < 12 && tm.mday < 100
    ensures var text := DateText(tm) + rest;
            && Parsed(text[..4], 0) == tm.year + 1900 && Parsed(text[4..6], 0) == tm.mon + 1 && Parsed(text[6..8], 0) == tm.mday
  {
    hide Digits, Parsed;
    var text := DateText(tm) + rest;
    assert text[..4] == Digits(tm.year + 1900, 4) && text[4..6] == Digits(tm.mon + 1, 2);
    assert text[6..8] == Digits(tm.mday, 2);
    ParseUndoesFormat(tm.year + 1900, 4);
    ParseUndoesFormat(tm.mon + 1, 2);
    ParseUndoesFormat(tm.mday, 2);
  }

  lemma TimeParses(tm: Tm, rest: Bytes)
    requires Printable(tm) && tm.hour < 100 && tm.min < 100 && tm.sec < 100
    ensures var text := TimeText(tm) + rest;
            && Parsed(text[..2], 0) == tm.hour && Parsed(text[3..5], 0) == tm.min && Parsed(text[6..8], 0) == tm.sec
  {
    hide Digits, Parsed;
    var text := TimeText(tm) + rest;
    assert text[..2] == Digits(tm.hour, 2) && text[3..5] == Digits(tm.min, 2) && text[6..8] == Digits(tm.sec, 2);
    ParseUndoesFormat(tm.hour, 2);
    ParseUndoesFormat(tm.min, 2);
    ParseUndoesFormat(tm.sec, 2);
  }

  // ---------------------------------------------------------------- parsing

  /** No text at all, or "now", stands for the current time. */
  predicate MeansNow(text: Bytes, len: nat) { len == 0 || (len == 3 && |text| >= 3 && text[..3] == [110, 111, 119]) }

  /** The bytes the parsers read; they look at fixed places whatever the length. */
  predicate Readable(text: Bytes, len: nat, least: nat, withMs: nat) {
    MeansNow(text, len) || |text| >= if len == withMs then withMs else least
  }

  function DateFields(text: Bytes): Tm
    requires |text| >= 8
  {
    Tm(Parsed(text[..4], 0) - 1900, Parsed(text[4..6], 0) - 1, Parsed(text[6..8], 0), 0, 0, 0)
  }

  function WithTime(tm: Tm, text: Bytes): Tm
    requires |text| >= 8
  {
    tm.(hour := Parsed(text[..2], 0), min := Parsed(text[3..5], 0), sec := Parsed(text[6..8], 0))
  }

  function Ticks(tm: Tm, millisecond: int): Option<int> {
    match Epoch(tm) case None => None case Some(s) => Some(millisecond * MILLION + s * BILLION)
  }

  /** What `date_time_parse` returns; `None` where the arithmetic of `time_to_epoch` is undefined. */
  function DateTimeTicks(text: Bytes, len: nat, now: int): Option<int>
    requires Readable(text, len, 17, 21)
  {
    if MeansNow(text, len) then Some(now)
    else if len == 21 then Ticks(WithTime(DateFields(text), text[9..]), Parsed(text[18..21], 0))
    else if len == 17 then Ticks(WithTime(DateFields(text), text[9..]), 0)
    else Some(0)
  }

  function TimeTicks(text: Bytes, len: nat, now: int, timeonly: bool): Option<int>
    requires Readable(text, len, 8, 12)
  {
    if MeansNow(text, len) then Some(now)
    else if len != 12 && len != 8 then Some(0)
    else
      var tm := WithTime(Tm(0, 0, 0, 0, 0, 0), text);
      var ms := if len == 12 then Parsed(text[9..12], 0) else 0;
      if timeonly then Some(ms * MILLION + (tm.hour * 3600 + tm.min * 60 + tm.sec) * BILLION) else Ticks(tm, ms)
  }

  function DateTicks(text: Bytes, len: nat, now: int): Option<int>
    requires Readable(text, len, 6, 8)
  {
    if MeansNow(text, len) then Some(now)
    else
      var mday := if len == 8 then Parsed(text[6..8], 0) else 1;
      Ticks(Tm(Parsed(text[..4], 0) - 1900, Parsed(text[4..6], 0) - 1, mday, 0, 0, 0), 0)
  }

  /** `time_to_epoch`, where it is defined. For the broken-out fields of an instant it gives back the seconds exactly
      until 2038-01-19 03:14:07, and is undefined later. */
  method TimeToEpochInt(tm: Tm) returns (secs: Option<int>)
    ensures secs == Epoch(tm)
    ensures forall n: nat :: tm == BrokenOut(n) ==> secs == if n <= INT_MAX then Some(n) else None
  {
    forall n: nat | tm == BrokenOut(n) ensures Epoch(tm) == if n <= INT_MAX then Some(n) else None { EpochOfInstant(n); }
    hide BrokenOut;
    if tm.mon < 0 || tm.mon > 12 || !NoOverflow(tm) {
      return None;
    }
    var tyears := if tm.year != 0 then tm.year - 70 else 0;
    var tdays := MON_DAYS[tm.mon] + (if tm.mday != 0 then tm.mday - 1 else 0) + tyears * 365 + TruncDiv(tyears + 2, 4);
    if tm.year != 0 && tm.year % 4 == 0 && tm.mon < 2 {
      tdays := tdays - 1;
    }
    return Some(tdays * 86400 + tm.hour * 3600 + tm.min * 60 + tm.sec);
  }

  /** `date_time_parse` */
  method DateTimeParse(text: Bytes, len: nat, now: int) returns (ticks: Option<int>)
    requires Readable(text, len, 17, 21)
    ensures ticks == DateTimeTicks(text, len, now)
    ensures len == 0 || (len == 3 && |text| >= 3 && text[..3] == [110, 111, 119]) ==> ticks == Some(now)
    ensures len > 3 && len != 17 && len != 21 ==> ticks == Some(0)
  {
    hide Parsed, Epoch;
    if MeansNow(text, len) {
      return Some(now);
    }
    var tm := Tm(0, 0, 0, 0, 0, 0);
    var millisecond := 0;
    var n := ParseDecimal(text, 0, 4, 0);
    tm := tm.(year := n - 1900);
    n := ParseDecimal(text, 4, 2, 0);
    tm := tm.(mon := n - 1);
    n := ParseDecimal(text, 6, 2, 0);
    tm := tm.(mday := n);
    n := ParseDecimal(text, 9, 2, 0);
    tm := tm.(hour := n);
    n := ParseDecimal(text, 12, 2, 0);
    tm := tm.(min := n);
    n := ParseDecimal(text, 15, 2, 0);
    tm := tm.(sec := n);
    assert text[9..][..2] == text[9..11] && text[9..][3..5] == text[12..14] && text[9..][6..8] == text[15..17];
    if len == 21 {
      millisecond := ParseDecimal(text, 18, 3, 0);
    }
    if len == 21 || len == 17 {
      var secs := TimeToEpochInt(tm);
      if secs == None {
        return None;
      }
      return Some(millisecond * MILLION + secs.value * BILLION);
    }
    return Some(0);
  }

  /** `time_parse` */
  method TimeParse(text: Bytes, len: nat, now: int, timeonly: bool) returns (ticks: Option<int>)
    requires Readable(text, len, 8, 12)
    ensures ticks == TimeTicks(text, len, now, timeonly)
    ensures len == 0 || (len == 3 && |text| >= 3 && text[..3] == [110, 111, 119]) ==> ticks == Some(now)
    ensures len > 3 && len != 8 && len != 12 ==> ticks == Some(0)
  {
    hide Parsed, Epoch;
    if MeansNow(text, len) {
      return Some(now);
    }
    var tm := Tm(0, 0, 0, 0, 0, 0);
    var millisecond := 0;
    var n := ParseDecimal(text, 0, 2, 0);
    tm := tm.(hour := n);
    n := ParseDecimal(text, 3, 2, 0);
    tm := tm.(min := n);
    n := ParseDecimal(text, 6, 2, 0);
    tm := tm.(sec := n);
    if len == 12 {
      millisecond := ParseDecimal(text, 9, 3, 0);
    } else if len != 8 {
      return Some(0);
    }
    if timeonly {
      return Some(millisecond * MILLION + (tm.hour * 3600 + tm.min * 60 + tm.sec) * BILLION);
    }
    var secs := TimeToEpochInt(tm);
    if secs == None {
      return None;
    }
    return Some(millisecond * MILLION + secs.value * BILLION);
  }

  /** `date_parse` */
  method DateParse(text: Bytes, len: nat, now: int) returns (ticks: Option<int>)
    requires Readable(text, len, 6, 8)
    ensures ticks == DateTicks(text, len, now)
    ensures len == 0 || (len == 3 && |text| >= 3 && text[..3] == [110, 111, 119]) ==> ticks == Some(now)
  {
    hide Parsed, Epoch;
    if MeansNow(text, len) {
      return Some(now);
    }
    var tm := Tm(0, 0, 0, 0, 0, 0);
    var n := ParseDecimal(text, 0, 4, 0);
    tm := tm.(year := n - 1900);
    n := ParseDecimal(text, 4, 2, 0);
    tm := tm.(mon := n - 1);
    if len == 8 {
      n := ParseDecimal(text, 6, 2, 0);
      tm := tm.(mday := n);
    } else {
      tm := tm.(mday := 1);
    }
    var secs := TimeToEpochInt(tm);
    if secs == None {
      return None;
    }
    return Some(secs.value * BILLION);
  }

  /** Formatting an instant and parsing the text gives it back to the millisecond, or to the second, exactly until
      2038-01-19 03:14:07. Years have four digits. */
  lemma TimestampRoundTrip(ticks: nat, now: int)
    requires BrokenOut(ticks / BILLION).year + 1900 < 10000
    ensures var tm, ms := BrokenOut(ticks / BILLION), ticks % BILLION / MILLION;
            && (DateTimeTicks(Text(tm, ms, WithMs), 21, now) == Some(ticks - ticks % MILLION) <==> ticks / BILLION <= INT_MAX)
            && (DateTimeTicks(Text(tm, ms, SecOnly), 17, now) == Some(ticks - ticks % BILLION) <==> ticks / BILLION <= INT_MAX)
  {
    hide Text, DateTimeTicks, BrokenOut;
    SplitTicks(ticks);
    SecondsRoundTrip(ticks / BILLION, ticks % BILLION / MILLION, now);
  }

  lemma SplitTicks(ticks: nat)
    ensures ticks % BILLION / MILLION < 1000
    ensures ticks % BILLION / MILLION * MILLION + ticks / BILLION * BILLION == ticks - ticks % MILLION
    ensures ticks / BILLION * BILLION == ticks - ticks % BILLION
  {
    var q, r := ticks / BILLION, ticks % BILLION;
    var ms, z := r / MILLION, r % MILLION;
    assert ticks == (1000 * q + ms) * MILLION + z;
    Remainder(1000 * q + ms, z);
  }

  lemma Remainder(k: nat, z: nat)
    requires z < MILLION
    ensures (k * MILLION + z) % MILLION == z
  {}

  lemma SecondsRoundTrip(secs: nat, ms: nat, now: int)
    requires BrokenOut(secs).year + 1900 < 10000 && ms < 1000
    ensures var tm := BrokenOut(secs);
            && DateTimeTicks(Text(tm, ms, WithMs), 21, now)
               == (if secs <= INT_MAX then Some(ms * MILLION + secs * BILLION) else None)
            && DateTimeTicks(Text(tm, ms, SecOnly), 17, now) == (if secs <= INT_MAX then Some(secs * BILLION) else None)
  {
    hide DateText, TimeText, Parsed, Digits, Epoch, BrokenOut;
    var tm := BrokenOut(secs);
    BrokenOutBounds(secs);
    EpochOfInstant(secs);
    var d, t, m := DateText(tm), TimeText(tm), Digits(ms, 3);
    FieldsParse(tm, []);
    FieldsParse(tm, [DOT] + m);
    var text := Text(tm, ms, WithMs);
    assert text == d + [DASH] + t + ([DOT] + m) && Text(tm, ms, SecOnly) == d + [DASH] + t + [];
    assert text[18..21] == m;
    ParseUndoesFormat(ms, 3);
  }

  lemma EpochOfInstant(secs: nat)
    ensures Epoch(BrokenOut(secs)) == if secs <= INT_MAX then Some(secs) else None
  {
    NoOverflowExactWhen(secs);
  }

  lemma BrokenOutBounds(secs: nat)
    ensures var tm := BrokenOut(secs);
            Printable(tm) && tm.mon < 12 && tm.mday < 32 && tm.hour < 24 && tm.min < 60 && tm.sec < 60
  {
  }

  lemma FieldsParse(tm: Tm, rest: Bytes)
    requires Printable(tm) && tm.year + 1900 < 10000 && tm.mon < 12 && tm.mday < 100 && tm.hour < 100 && tm.min < 100
    requires tm.sec < 100
    ensures var text := DateText(tm) + [DASH] + TimeText(tm) + rest; WithTime(DateFields(text), text[9..]) == tm
  {
    hide DateText, TimeText, Parsed;
    var text := DateText(tm) + [DASH] + TimeText(tm) + rest;
    assert text == DateText(tm) + ([DASH] + TimeText(tm) + rest);
    DateParses(tm, [DASH] + TimeText(tm) + rest);
    assert text[9..] == TimeText(tm) + rest;
    TimeParses(tm, rest);
  }

  /** A time of day comes back whether or not the parser goes through the calendar. */
  lemma TimeRoundTrip(tm: Tm, ms: nat, now: int, timeonly: bool)
    requires Printable(tm) && tm.hour < 24 && tm.min < 60 && tm.sec <= 60 && ms < 1000
    ensures var secs := tm.hour * 3600 + tm.min * 60 + tm.sec;
            && TimeTicks(Text(tm, ms, TimeWithMs), 12, now, timeonly) == Some(ms * MILLION + secs * BILLION)
            && TimeTicks(Text(tm, ms, TimeOnly), 8, now, timeonly) == Some(secs * BILLION)
  {
    hide TimeText, Parsed, Digits;
    TimeParses(tm, []);
    TimeParses(tm, [DOT] + Digits(ms, 3));
    var text := Text(tm, ms, TimeWithMs);
    assert text == TimeText(tm) + ([DOT] + Digits(ms, 3)) && TimeText(tm) == TimeText(tm) + [];
    assert text[9..12] == Digits(ms, 3);
    ParseUndoesFormat(ms, 3);
  }

  /** A date comes back as its midnight, a month as the midnight of its first day. */
  lemma DateRoundTrip(day: nat, ms: nat, now: int)
    requires DateOf(day).year < 10000
    ensures var tm := BrokenOut(day * 86400);
            var ticks := if day * 86400 <= INT_MAX then Some(day * 86400 * BILLION) else None;
            && DateTicks(Text(tm, ms, DateOnly), 8, now) == ticks
            && (tm.mday == 1 ==> DateTicks(Text(tm, ms, ShortDateOnly), 6, now) == ticks)
  {
    hide DateText, Parsed, Digits, Epoch, DateOf;
    var tm := BrokenOut(day * 86400);
    BrokenOutBounds(day * 86400);
    EpochOfInstant(day * 86400);
    DateParses(tm, []);
    var text := DateText(tm);
    assert text + [] == text;
    assert text[..6][..4] == text[..4] && text[..6][4..6] == text[4..6];
  }

  /** The lengths of the six texts, and the separators in them: `YYYYMMDD-HH:MM:SS.mmm` and its parts. */
  lemma TextShape(tm: Tm, ms: nat)
    requires Printable(tm)
    ensures |Text(tm, ms, TimeOnly)| == 8 && |Text(tm, ms, TimeWithMs)| == 12
    ensures |Text(tm, ms, ShortDateOnly)| == 6 && |Text(tm, ms, DateOnly)| == 8
    ensures |Text(tm, ms, SecOnly)| == 17 && |Text(tm, ms, WithMs)| == 21
    ensures var text := Text(tm, ms, WithMs);
            && text[8] == 45 && text[11] == 58 && text[14] == 58 && text[17] == 46
            && Text(tm, ms, DateOnly) == text[..8] && Text(tm, ms, ShortDateOnly) == text[..6]
            && Text(tm, ms, SecOnly) == text[..17] && Text(tm, ms, TimeOnly) == text[9..17]
            && Text(tm, ms, TimeWithMs) == text[9..]
  {
    hide Digits;
    var text := Text(tm, ms, WithMs);
    assert text == DateText(tm) + ([DASH] + (TimeText(tm) + ([DOT] + Digits(ms, 3))));
    assert TimeText(tm)[2] == COLON && TimeText(tm)[5] == COLON;
  }

  /** No text and "now" can be given to every parser and stand for the current time. */
  lemma NowIsNow(now: int, timeonly: bool)
    ensures var text: Bytes := [110, 111, 119];
            && Readable(text, 3, 17, 21) && DateTimeTicks(text, 3, now) == Some(now)
            && Readable(text, 3, 8, 12) && TimeTicks(text, 3, now, timeonly) == Some(now)
            && Readable(text, 3, 6, 8) && DateTicks(text, 3, now) == Some(now)
    ensures Readable([], 0, 17, 21) && DateTimeTicks([], 0, now) == Some(now)
    ensures Readable([], 0, 8, 12) && TimeTicks([], 0, now, timeonly) == Some(now)
    ensures Readable([], 0, 6, 8) && DateTicks([], 0, now) == Some(now)
  {}

  /** Nothing else looks at the clock. */
  lemma OnlyNowIsNow(text: Bytes, len: nat, now: int, later: int, timeonly: bool)
    requires len != 0 && !(len == 3 && [110, 111, 119] <= text)
    ensures Readable(text, len, 17, 21) ==> DateTimeTicks(text, len, now) == DateTimeTicks(text, len, later)
    ensures Readable(text, len, 8, 12) ==> TimeTicks(text, len, now, timeonly) == TimeTicks(text, len, later, timeonly)
    ensures Readable(text, len, 6, 8) ==> DateTicks(text, len, now) == DateTicks(text, len, later)
  {
    if |text| >= 3 && text[..3] == [110, 111, 119] { assert [110, 111, 119] <= text; }
    hide Parsed, Epoch;
  }
}
