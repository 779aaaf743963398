// Dates, times of day and timestamps: day numbers, and the text in which records hold them.

module Calendar {
  import opened Bytes
  import opened Digits

  /** A date of the Gregorian calendar, extended to all years. */
  datatype Date = Date(year: int, month: nat, day: nat)

  const UNIX_EPOCH_DAYS: int := 719468

  predicate IsLeap(y: int) {
    y % 4 == 0 && (y % 100 != 0 || y % 400 == 0)
  }

  function MonthLength(y: int, m: nat): (n: nat)
    requires 1 <= m <= 12
  {
    if m == 2 then (if IsLeap(y) then 29 else 28)
    else if m == 4 || m == 6 || m == 9 || m == 11 then 30 else 31
  }

  predicate ValidDate(d: Date) {
    1 <= d.month <= 12 && 1 <= d.day <= MonthLength(d.year, d.month)
  }

  /** The day after, as the calendar says it. */
  function NextDay(d: Date): Date
    requires ValidDate(d)
  {
    if d.day < MonthLength(d.year, d.month) then Date(d.year, d.month, d.day + 1)
    else if d.month < 12 then Date(d.year, d.month + 1, 1)
    else Date(d.year + 1, 1, 1)
  }

  // Years here start in March, so that a leap day comes last; an era is 400 years.

  function YearOfEra(doe: nat): int {
    (doe - doe / 1460 + doe / 36524 - doe / 146096) / 365
  }

  function YearStart(yoe: int): int {
    365 * yoe + yoe / 4 - yoe / 100
  }

  function MonthStart(mp: int): int {
    (153 * mp + 2) / 5
  }

  /** Day `doy` of the year that starts in March of `year`. */
  function OfMarchYear(year: int, doy: nat): Date
    requires doy <= 365
  {
    MonthInRange(doy);
    var mp := (5 * doy + 2) / 153;
    var d := doy - MonthStart(mp) + 1;
    var m := if mp < 10 then mp + 3 else mp - 9;
    Date(if m <= 2 then year + 1 else year, m, d)
  }

  function DaysToCivil(days: int): Date {
    var z := days + UNIX_EPOCH_DAYS;
    var era := z / 146097;
    var doe := z - era * 146097;
    var yoe := YearOfEra(doe);
    YearOfEraInRange(doe);
    OfMarchYear(yoe + era * 400, doe - YearStart(yoe))
  }

  function CivilToDays(y: int, m: nat, d: nat): int {
    var y' := if m <= 2 then y - 1 else y;
    var era := y' / 400;
    var yoe := y' - era * 400;
    var doy := MonthStart(if m > 2 then m - 3 else m + 9) + d - 1;
    var doe := YearStart(yoe) + doy;
    era * 146097 + doe - UNIX_EPOCH_DAYS
  }

  /** A day as century, four-year cycle and day of the cycle: what the year formula divides it into. */
  lemma YearFromCycles(c: nat, q: nat, s: nat)
    requires c < 4 && q < 25 && s <= 1460 && 1461 * q + s < 36524
    ensures YearOfEra(36524 * c + 1461 * q + s) == 100 * c + 4 * q + YearOfCycle(s)
      || 36524 * c + 1461 * q + s == 146096
  {
    var doe := 36524 * c + 1461 * q + s;
    if doe < 146096 {
      var e := (24 * c + q + s) / 1460;
      assert doe / 1460 == 25 * c + q + e;
      assert doe / 36524 == c;
      assert doe - doe / 1460 + doe / 36524 - doe / 146096 == 365 * (100 * c + 4 * q) + (s - e);
      assert (s - e) / 365 == YearOfCycle(s);
    }
  }

  function YearOfCycle(s: nat): nat {
    if s < 365 then 0 else if s < 730 then 1 else if s < 1095 then 2 else 3
  }

  lemma StartFromCycles(c: nat, q: nat, k: nat)
    requires c < 4 && q < 25 && k < 4
    ensures YearStart(100 * c + 4 * q + k) == 36524 * c + 1461 * q + 365 * k
    ensures YearStart(100 * c + 4 * q + k + 1) ==
      36524 * c + 1461 * q + 365 * (k + 1) + (if k == 3 && q < 24 then 1 else 0)
  {
  }

  lemma Cycles(doe: nat) returns (c: nat, q: nat, s: nat)
    requires doe < 146096
    ensures c < 4 && q < 25 && s <= 1460 && 1461 * q + s < 36524 && doe == 36524 * c + 1461 * q + s
  {
    c := doe / 36524;
    var r := doe - 36524 * c;
    q, s := r / 1461, r % 1461;
  }

  lemma YearOfEraInRange(doe: nat)
    requires doe < 146097
    ensures var yoe := YearOfEra(doe); 0 <= yoe < 400 && YearStart(yoe) <= doe < YearEnd(yoe)
  {
    if doe < 146096 {
      hide YearOfEra;
      hide YearStart;
      var c, q, s := Cycles(doe);
      YearFromCycles(c, q, s);
      StartFromCycles(c, q, YearOfCycle(s));
    }
  }

  function YearEnd(yoe: int): int {
    YearStart(yoe + 1) + (if yoe == 399 then 1 else 0)
  }

  lemma MonthInRange(doy: nat)
    requires doy <= 365
    ensures var mp := (5 * doy + 2) / 153; 0 <= mp <= 11 && MonthStart(mp) <= doy < MonthStart(mp + 1)
  {
  }

  // A day number is an era, a year in it and a day in the year, in one way only.

  function DayNumber(era: int, yoe: int, doy: int): int {
    era * 146097 + YearStart(yoe) + doy - UNIX_EPOCH_DAYS
  }

  predicate InYear(yoe: int, doy: int) {
    0 <= yoe < 400 && 0 <= doy < YearEnd(yoe) - YearStart(yoe)
  }

  lemma LeapInEra(era: int, y: int)
    ensures IsLeap(400 * era + y) <==> IsLeap(y)
  {
    assert 400 * era + y == 100 * (4 * era) + y == 4 * (100 * era) + y;
    Mod4(100 * era, y);
    Mod100(4 * era, y);
    Mod400(era, y);
  }

  lemma Mod4(k: int, y: int)
    ensures (4 * k + y) % 4 == y % 4
  {
  }

  lemma Mod100(k: int, y: int)
    ensures (100 * k + y) % 100 == y % 100
  {
  }

  lemma Mod400(k: int, y: int)
    ensures (400 * k + y) % 400 == y % 400
  {
  }

  function MarchYearLength(year: int): int {
    if IsLeap(year + 1) then 366 else 365
  }

  lemma YearLength(era: int, yoe: int)
    requires 0 <= yoe < 400
    ensures YearEnd(yoe) - YearStart(yoe) == MarchYearLength(400 * era + yoe)
    ensures YearStart(0) == 0 && YearEnd(399) == 146097
  {
    YearLengthInEra(yoe);
    LeapInEra(era, yoe + 1);
    hide YearStart;
    hide YearEnd;
    hide IsLeap;
  }

  lemma YearLengthInEra(yoe: int)
    requires 0 <= yoe < 400
    ensures YearEnd(yoe) - YearStart(yoe) == MarchYearLength(yoe)
    ensures YearStart(0) == 0 && YearEnd(399) == 146097
  {
    var q, k := yoe / 4, yoe % 4;
    assert yoe / 100 == q / 25;
    assert (yoe + 1) / 4 == if k == 3 then q + 1 else q;
    assert (yoe + 1) / 100 == if k == 3 && q % 25 == 24 then q / 25 + 1 else q / 25;
  }

  lemma EraOf(era: int, doe: int)
    requires 0 <= doe < 146097
    ensures (era * 146097 + doe) / 146097 == era
  {
  }

  lemma YearOfDay(yoe: int, doy: int)
    requires InYear(yoe, doy)
    ensures var doe := YearStart(yoe) + doy; 0 <= doe < 146097 && YearOfEra(doe) == yoe
  {
    hide YearOfEra;
    hide YearStart;
    hide YearEnd;
    YearLength(0, yoe);
    var doe := YearStart(yoe) + doy;
    if yoe < 399 {
      YearsGrow(yoe, 399);
      YearLength(0, 399);
    }
    if yoe > 0 {
      YearsGrow(0, yoe);
      YearLength(0, 0);
    }
    YearOfEraInRange(doe);
    var y := YearOfEra(doe);
    if y < yoe {
      YearsGrow(y, yoe);
    } else if yoe < y {
      YearsGrow(yoe, y);
    }
  }

  lemma YearsGrow(a: int, b: int)
    requires 0 <= a < b < 400
    ensures YearEnd(a) <= YearStart(b)
    decreases b
  {
    if a + 1 < b {
      YearsGrow(a, b - 1);
    }
  }

  lemma DateOfDayNumber(era: int, yoe: int, doy: int)
    requires InYear(yoe, doy)
    ensures doy <= 365 && DaysToCivil(DayNumber(era, yoe, doy)) == OfMarchYear(400 * era + yoe, doy)
  {
    hide YearOfEra;
    hide YearStart;
    hide YearEnd;
    hide OfMarchYear;
    hide IsLeap;
    YearLength(era, yoe);
    YearOfDay(yoe, doy);
    EraOf(era, YearStart(yoe) + doy);
    assert DayNumber(era, yoe, doy) + UNIX_EPOCH_DAYS == era * 146097 + (YearStart(yoe) + doy);
  }

  lemma SplitDay(days: int) returns (era: int, yoe: int, doy: int)
    ensures InYear(yoe, doy) && days == DayNumber(era, yoe, doy)
  {
    var z := days + UNIX_EPOCH_DAYS;
    era := z / 146097;
    var doe := z - era * 146097;
    YearOfEraInRange(doe);
    yoe := YearOfEra(doe);
    doy := doe - YearStart(yoe);
  }

  lemma MarchYearValid(year: int, doy: nat)
    requires doy < MarchYearLength(year)
    ensures ValidDate(OfMarchYear(year, doy))
  {
  }

  lemma MarchYearNext(year: int, doy: nat)
    requires doy < MarchYearLength(year)
    ensures ValidDate(OfMarchYear(year, doy))
    ensures NextDay(OfMarchYear(year, doy)) ==
      if doy + 1 < MarchYearLength(year) then OfMarchYear(year, doy + 1) else OfMarchYear(year + 1, 0)
  {
    MarchYearValid(year, doy);
  }

  lemma EpochIs1970()
    ensures DaysToCivil(0) == Date(1970, 1, 1)
  {
    assert YearStart(369) == 134774 && YearEnd(369) == 135139;
    DateOfDayNumber(4, 369, 306);
    hide DaysToCivil;
  }

  /** Day numbers count the days of the Gregorian calendar from 1 January 1970, in both directions. */
  lemma DaysFollowTheCalendar(days: int)
    ensures DaysToCivil(0) == Date(1970, 1, 1)
    ensures ValidDate(DaysToCivil(days))
    ensures DaysToCivil(days + 1) == NextDay(DaysToCivil(days))
  {
    hide *;
    EpochIs1970();
    var era, yoe, doy := SplitDay(days);
    var era', yoe', doy' := NextDayNumber(era, yoe, doy);
    YearLength(era, yoe);
    DateOfDayNumber(era, yoe, doy);
    DateOfDayNumber(era', yoe', doy');
    InYearBounds(era, yoe, doy);
    MarchYearNext(400 * era + yoe, doy);
  }

  lemma InYearBounds(era: int, yoe: int, doy: int)
    requires InYear(yoe, doy)
    ensures 0 <= doy < MarchYearLength(400 * era + yoe)
  {
    YearLength(era, yoe);
    hide YearStart;
    hide YearEnd;
    hide IsLeap;
  }

  lemma NextDayNumber(era: int, yoe: int, doy: int) returns (era': int, yoe': int, doy': int)
    requires InYear(yoe, doy)
    ensures InYear(yoe', doy') && DayNumber(era', yoe', doy') == DayNumber(era, yoe, doy) + 1
    ensures var year, year' := 400 * era + yoe, 400 * era' + yoe';
      if doy + 1 < MarchYearLength(year) then year' == year && doy' == doy + 1 else year' == year + 1 && doy' == 0
  {
    hide YearStart;
    hide YearEnd;
    hide MarchYearLength;
    YearLength(era, yoe);
    if doy + 1 < MarchYearLength(400 * era + yoe) {
      era', yoe', doy' := era, yoe, doy + 1;
    } else {
      era', yoe', doy' := if yoe == 399 then era + 1 else era, if yoe == 399 then 0 else yoe + 1, 0;
      YearBegins(yoe, yoe');
    }
  }

  lemma YearBegins(yoe: int, next: int)
    requires 0 <= yoe < 400 && next == if yoe == 399 then 0 else yoe + 1
    ensures InYear(next, 0) && YearEnd(yoe) == if yoe == 399 then 146097 else YearStart(next)
    ensures YearStart(0) == 0
  {
    YearLength(0, yoe);
    YearLength(0, next);
  }

  /** The day of the March year that a date of it stands for. */
  lemma MonthOfMarchYear(year: int, doy: nat)
    requires doy <= 365
    ensures var d := OfMarchYear(year, doy); MarchYearOf(d) == year && MarchDayOf(d) == doy
  {
    MonthInRange(doy);
  }

  lemma CivilOfMarchYear(era: int, yoe: int, doy: int)
    requires InYear(yoe, doy)
    ensures doy <= 365
    ensures var d := OfMarchYear(400 * era + yoe, doy); CivilToDays(d.year, d.month, d.day) == DayNumber(era, yoe, doy)
  {
    YearLength(era, yoe);
    hide YearStart;
    hide YearEnd;
    hide IsLeap;
    hide OfMarchYear;
    hide MarchYearOf;
    hide MarchDayOf;
    hide CivilToDays;
    MonthOfMarchYear(400 * era + yoe, doy);
    CivilIsDayNumber(OfMarchYear(400 * era + yoe, doy));
    assert (400 * era + yoe) / 400 == era && (400 * era + yoe) % 400 == yoe;
  }

  lemma DaysRoundTrip(days: int)
    ensures var d := DaysToCivil(days); CivilToDays(d.year, d.month, d.day) == days
  {
    var era, yoe, doy := SplitDay(days);
    DateOfDayNumber(era, yoe, doy);
    CivilOfMarchYear(era, yoe, doy);
  }

  /** Every valid date is the date of exactly one day number, the one `CivilToDays` computes. */
  lemma CivilRoundTrip(d: Date)
    requires ValidDate(d)
    ensures DaysToCivil(CivilToDays(d.year, d.month, d.day)) == d
  {
    hide YearStart;
    hide YearEnd;
    hide IsLeap;
    hide DaysToCivil;
    hide CivilToDays;
    hide DayNumber;
    hide OfMarchYear;
    hide ValidDate;
    var year, doy := MarchYearOf(d), MarchDayOf(d);
    var era, yoe := year / 400, year % 400;
    DayOfMarchYear(d);
    YearLength(era, yoe);
    CivilIsDayNumber(d);
    DateOfDayNumber(era, yoe, doy);
  }

  function MarchYearOf(d: Date): int {
    if d.month <= 2 then d.year - 1 else d.year
  }

  function MarchDayOf(d: Date): int {
    MonthStart(if d.month > 2 then d.month - 3 else d.month + 9) + d.day - 1
  }

  lemma CivilIsDayNumber(d: Date)
    ensures CivilToDays(d.year, d.month, d.day) == DayNumber(MarchYearOf(d) / 400, MarchYearOf(d) % 400, MarchDayOf(d))
  {
    hide YearStart;
    hide MonthStart;
  }

  lemma DayOfMarchYear(d: Date)
    requires ValidDate(d)
    ensures 0 <= MarchDayOf(d) < MarchYearLength(MarchYearOf(d)) && OfMarchYear(MarchYearOf(d), MarchDayOf(d)) == d
  {
  }

  // Day numbers are 32-bit in the code, and the addition that starts the conversion can wrap.

  function Wrap32(x: int): (r: int)
    ensures -TWO_31 <= r < TWO_31
  {
    (x + TWO_31) % TWO_32 - TWO_31
  }

  predicate IsI32(x: int) {
    -TWO_31 <= x < TWO_31
  }

  function DaysToCivil32(days: int): Date {
    DaysToCivil(Wrap32(days + UNIX_EPOCH_DAYS) - UNIX_EPOCH_DAYS)
  }

  /** The 32-bit conversion is right exactly up to the last day before the addition wraps. */
  lemma WrapsAtTheEnd(days: int)
    requires IsI32(days)
    ensures DaysToCivil32(days) == DaysToCivil(days) <==> days + UNIX_EPOCH_DAYS < TWO_31
  {
    var wrapped := Wrap32(days + UNIX_EPOCH_DAYS) - UNIX_EPOCH_DAYS;
    DaysRoundTrip(days);
    DaysRoundTrip(wrapped);
    hide DaysToCivil;
    hide CivilToDays;
  }

  // Text

  const DASH: byte := 45
  const SPACE: byte := 32
  const COLON: byte := 58

  /** A signed number with at least `w` characters, sign included. */
  function SignedPadded(n: int, w: nat): (s: Bytes)
    requires w >= 1
    ensures |s| >= w
  {
    if n < 0 then [ASCII_MINUS] + Padded(-n, w - 1) else Padded(n, w)
  }

  function DateText(d: Date): (s: Bytes)
    ensures |s| >= 10
  {
    SignedPadded(d.year, 4) + [DASH] + Padded(d.month, 2) + [DASH] + Padded(d.day, 2)
  }

  /** `secs` of any sign; quotient and remainder are truncated. */
  function TimeText(secs: int): (s: Bytes)
    ensures |s| >= 8
  {
    var sign, n := if secs < 0 then -1 else 1, if secs < 0 then -secs else secs;
    SignedPadded(sign * (n / 3600), 2) + [COLON] + SignedPadded(sign * (n % 3600 / 60), 2) + [COLON]
      + SignedPadded(sign * (n % 60), 2)
  }

  function DaysToDateStr(days: int): (s: Bytes)
    ensures |s| >= 10
  {
    DateText(DaysToCivil32(days))
  }

  function UsToDatetimeStr(us: int): (s: Bytes)
    ensures |s| >= 19
  {
    var secs := us / 1_000_000;
    DateText(DaysToCivil32(Wrap32(secs / 86400))) + [SPACE] + TimeText(secs % 86400)
  }

  function TruncatedSeconds(ns: int): int {
    if ns < 0 then -(-ns / 1_000_000_000) else ns / 1_000_000_000
  }

  function NsToTimeStr(ns: int): (s: Bytes)
    ensures |s| >= 8
  {
    TimeText(TruncatedSeconds(ns))
  }

  /** The number that the `w` digits at `pos` spell. */
  function ParseDigits(b: Bytes, pos: nat, w: nat): (r: Option<nat>)
    requires pos + w <= |b|
    ensures r.Some? ==> r.value < Pow10(w)
  {
    var s := b[pos..pos + w];
    if AllDigits(s) then ValueBelow(s); Some(Value(s)) else None
  }

  lemma {:induction false} ValueBelow(s: Bytes)
    requires AllDigits(s)
    ensures Value(s) < Pow10(|s|)
  {
    if s != [] {
      ValueBelow(s[..|s| - 1]);
    }
  }

  function ParseDate(b: Bytes): Option<int> {
    if |b| < 10 then None
    else
      var y, m, d := ParseDigits(b, 0, 4), ParseDigits(b, 5, 2), ParseDigits(b, 8, 2);
      if y == None || m == None || d == None then None else Some(CivilToDays(y.value, m.value, d.value))
  }

  /** Seconds of the time of day that starts at `pos`. */
  function ParseClock(b: Bytes, pos: nat): Option<nat>
    requires pos + 8 <= |b|
  {
    var h, m, s := ParseDigits(b, pos, 2), ParseDigits(b, pos + 3, 2), ParseDigits(b, pos + 6, 2);
    if h == None || m == None || s == None then None else Some(h.value * 3600 + m.value * 60 + s.value)
  }

  function ParseTime(b: Bytes): Option<int> {
    if |b| < 8 then None
    else
      var c := ParseClock(b, 0);
      if c == None then None else Some(c.value * 1_000_000_000)
  }

  function ParseDatetime(b: Bytes): Option<int> {
    if |b| < 19 then None
    else
      var days, clock := ParseDate(b), ParseClock(b, 11);
      if days == None || clock == None then None else Some(days.value * 86_400_000_000 + clock.value * 1_000_000)
  }

  /** Digits written with the right width parse back. */
  lemma PaddedParses(front: Bytes, n: nat, w: nat, rest: Bytes)
    requires w >= 1 && n < Pow10(w)
    ensures |Padded(n, w)| == w
    ensures ParseDigits(front + Padded(n, w) + rest, |front|, w) == Some(n)
  {
    PaddedIsLastDigits(n, w);
    LastDigitsValue(n, w);
    MiddleSlice(front, Padded(n, w), rest);
  }

  /** A field that starts with a minus sign does not parse. */
  lemma NotDigits(b: Bytes, pos: nat, w: nat, k: nat)
    requires k < w && pos + w <= |b| && !IsDigit(b[pos + k])
    ensures ParseDigits(b, pos, w) == None
  {
    assert b[pos..pos + w][k] == b[pos + k];
  }

  lemma DateTextParses(d: Date, rest: Bytes)
    requires ValidDate(d) && 0 <= d.year <= 9999
    ensures |DateText(d)| == 10
    ensures ParseDate(DateText(d) + rest) == Some(CivilToDays(d.year, d.month, d.day))
  {
    hide Padded;
    hide ParseDigits;
    hide CivilToDays;
    hide Value;
    var y, m, dd := Padded(d.year, 4), Padded(d.month, 2), Padded(d.day, 2);
    var text := DateText(d) + rest;
    assert Pow10(2) == 100 && Pow10(4) == 10000;
    assert text == [] + y + ([DASH] + m + [DASH] + dd + rest);
    PaddedParses([], d.year, 4, [DASH] + m + [DASH] + dd + rest);
    assert text == (y + [DASH]) + m + ([DASH] + dd + rest);
    PaddedParses(y + [DASH], d.month, 2, [DASH] + dd + rest);
    assert text == (y + [DASH] + m + [DASH]) + dd + rest;
    PaddedParses(y + [DASH] + m + [DASH], d.day, 2, rest);
  }

  lemma ClockTextParses(front: Bytes, secs: int, rest: Bytes)
    requires 0 <= secs < 360000
    ensures |TimeText(secs)| == 8
    ensures ParseClock(front + TimeText(secs) + rest, |front|) == Some(secs)
  {
    hide Padded;
    hide ParseDigits;
    hide Value;
    var h, m, s := secs / 3600, secs % 3600 / 60, secs % 60;
    var ht, mt, st := Padded(h, 2), Padded(m, 2), Padded(s, 2);
    var text := front + TimeText(secs) + rest;
    assert Pow10(2) == 100;
    assert TimeText(secs) == ht + [COLON] + mt + [COLON] + st;
    assert text == front + ht + ([COLON] + mt + [COLON] + st + rest);
    PaddedParses(front, h, 2, [COLON] + mt + [COLON] + st + rest);
    assert text == (front + ht + [COLON]) + mt + ([COLON] + st + rest);
    PaddedParses(front + ht + [COLON], m, 2, [COLON] + st + rest);
    assert text == (front + ht + [COLON] + mt + [COLON]) + st + rest;
    PaddedParses(front + ht + [COLON] + mt + [COLON], s, 2, rest);
    SecondsAdd(secs);
  }

  lemma SecondsAdd(secs: nat)
    ensures secs / 3600 * 3600 + secs % 3600 / 60 * 60 + secs % 60 == secs
  {
  }

  /** A clock outside 0..99 hours does not parse back. */
  lemma ClockTextRefused(secs: int, rest: Bytes)
    requires secs < 0 || secs >= 360000
    ensures ParseClock(TimeText(secs) + rest, 0) != Some(secs)
  {
    hide ParseDigits;
    hide Padded;
    hide Value;
    var text := TimeText(secs) + rest;
    if secs >= 360000 {
      var h := Padded(secs / 3600, 2);
      PaddedLength(secs / 3600, 2, 2);
      PaddedLength(secs / 3600, 2, 4);
      assert Pow10(2) == 100 && Pow10(4) == 10000;
      if |h| <= 4 {
        assert text[|h|] == COLON;
        NotDigits(text, 3, 2, |h| - 3);
      }
    } else {
      NegativeClock(-secs, rest);
    }
  }

  lemma PaddedLength(n: nat, w: nat, m: nat)
    requires 1 <= w <= m
    ensures |Padded(n, w)| <= m <==> n < Pow10(m)
  {
    DecimalLength(n, m);
  }

  lemma MinusSomewhere(h: Bytes, m: Bytes, s: Bytes, rest: Bytes)
    requires |h| >= 2 && |m| >= 2 && |s| >= 2
    requires h[0] == ASCII_MINUS || (|h| == 2 && (m[0] == ASCII_MINUS || (|m| == 2 && s[0] == ASCII_MINUS)))
    ensures ParseClock(h + [COLON] + m + [COLON] + s + rest, 0) == None
  {
    hide ParseDigits;
    var text := h + [COLON] + m + [COLON] + s + rest;
    if h[0] == ASCII_MINUS {
      NotDigits(text, 0, 2, 0);
    } else if m[0] == ASCII_MINUS {
      assert text == h + [COLON] + (m + [COLON] + s + rest);
      NotDigits(text, 3, 2, 0);
    } else {
      assert text == h + [COLON] + m + [COLON] + (s + rest);
      NotDigits(text, 6, 2, 0);
    }
  }

  lemma NegativeClock(n: int, rest: Bytes)
    requires n > 0
    ensures ParseClock(TimeText(-n) + rest, 0) == None
  {
    hide ParseClock;
    hide Padded;
    assert Pow10(2) == 100;
    PaddedLength(0, 2, 2);
    MinusSomewhere(SignedPadded(-(n / 3600), 2), SignedPadded(-(n % 3600 / 60), 2), SignedPadded(-(n % 60), 2), rest);
  }

  /** Below this day number lie all dates that four digits of year and two of month and day can spell. */
  const BEYOND_FOUR_DIGITS: int := 4_000_000

  lemma CivilBound(y: int, m: nat, d: nat)
    requires m < 100 && d < 100
    ensures y <= 9999 ==> CivilToDays(y, m, d) < BEYOND_FOUR_DIGITS
    ensures y >= 1_000_000 && 1 <= m && 1 <= d ==> CivilToDays(y, m, d) > BEYOND_FOUR_DIGITS
  {
    var y' := if m <= 2 then y - 1 else y;
    YearStartBound(y' - y' / 400 * 400);
    hide YearStart;
  }

  lemma YearStartBound(yoe: int)
    requires 0 <= yoe < 400
    ensures 0 <= YearStart(yoe) < 146097
  {
  }

  /** A date outside the years 0..9999 does not parse back. */
  lemma DateTextRefused(d: Date, rest: Bytes)
    requires ValidDate(d) && (d.year < 0 || d.year > 9999)
    ensures ParseDate(DateText(d) + rest) != Some(CivilToDays(d.year, d.month, d.day))
    ensures d.year < 1_000_000 ==> ParseDate(DateText(d) + rest) == None
  {
    hide ParseDigits;
    hide Padded;
    hide Value;
    hide CivilToDays;
    var text := DateText(d) + rest;
    assert Pow10(2) == 100 && Pow10(4) == 10000 && Pow10(6) == 1_000_000;
    if d.year < 0 {
      assert text[0] == ASCII_MINUS;
      NotDigits(text, 0, 4, 0);
    } else {
      var y := Padded(d.year, 4);
      PaddedLength(d.year, 4, 4);
      PaddedLength(d.year, 4, 6);
      if |y| <= 6 {
        assert text[|y|] == DASH;
        NotDigits(text, 5, 2, |y| - 5);
      } else {
        CivilBound(d.year, d.month, d.day);
        var parsed := ParseDate(text);
        if parsed.Some? {
          CivilBound(ParseDigits(text, 0, 4).value, ParseDigits(text, 5, 2).value, ParseDigits(text, 8, 2).value);
        }
      }
    }
  }

  lemma YearRange(days: int)
    ensures var z, year := days + UNIX_EPOCH_DAYS, DaysToCivil(days).year;
      (z >= 0 ==> year >= 0) && (z < -146097 ==> year < 0) && (z >= 4_000_000 ==> year > 9999)
        && (z < 300_000_000 ==> year < 1_000_000)
  {
    var era, yoe, doy := SplitDay(days);
    DateOfDayNumber(era, yoe, doy);
    YearLength(era, yoe);
    var z := days + UNIX_EPOCH_DAYS;
    assert z / 146097 == era by {
      YearOfDay(yoe, doy);
      EraOf(era, YearStart(yoe) + doy);
    }
    hide YearStart;
    hide YearEnd;
    hide IsLeap;
    hide DaysToCivil;
  }

  lemma DateTextOf(days: int, rest: Bytes)
    ensures var d := DaysToCivil(days);
      (ParseDate(DateText(d) + rest) == Some(days) <==> 0 <= d.year <= 9999)
      && (d.year < 0 || 9999 < d.year < 1_000_000 ==> ParseDate(DateText(d) + rest) == None)
      && (0 <= d.year <= 9999 ==> |DateText(d)| == 10)
  {
    hide *;
    DaysFollowTheCalendar(days);
    DaysRoundTrip(days);
    var d := DaysToCivil(days);
    if 0 <= d.year <= 9999 {
      DateTextParses(d, rest);
    } else {
      DateTextRefused(d, rest);
    }
  }

  /** A date string gives its day number back exactly for the years 0..9999. */
  lemma DateRoundTrip(days: int, rest: Bytes)
    requires IsI32(days)
    ensures ParseDate(DaysToDateStr(days) + rest) == Some(days) <==> 0 <= DaysToCivil(days).year <= 9999
  {
    hide DaysToCivil;
    hide ParseDate;
    hide DateText;
    YearRange(days);
    if days + UNIX_EPOCH_DAYS < TWO_31 {
      DateTextOf(days, rest);
    } else {
      YearRange(days - TWO_32);
      DateTextOf(days - TWO_32, rest);
    }
  }

  /** A timestamp string gives back the timestamp floored to the second, exactly for the years 0..9999. */
  lemma DatetimeRoundTrip(us: int, rest: Bytes)
    requires -0x8000_0000_0000_0000 <= us < 0x8000_0000_0000_0000
    ensures ParseDatetime(UsToDatetimeStr(us) + rest) == Some(us - us % 1_000_000)
      <==> 0 <= DaysToCivil(us / 86_400_000_000).year <= 9999
  {
    hide DaysToCivil;
    hide ParseDate;
    hide ParseClock;
    hide DateText;
    hide TimeText;
    var secs := us / 1_000_000;
    var days, clock := secs / 86400, secs % 86400;
    assert us / 86_400_000_000 == days;
    var d := DaysToCivil(days);
    assert DaysToCivil32(Wrap32(days)) == d;
    var back := [SPACE] + TimeText(clock) + rest;
    var text := UsToDatetimeStr(us) + rest;
    assert text == DateText(d) + back;
    DateTextOf(days, back);
    YearRange(days);
    if 0 <= d.year <= 9999 {
      assert text == (DateText(d) + [SPACE]) + TimeText(clock) + rest;
      ClockTextParses(DateText(d) + [SPACE], clock, rest);
    }
  }

  /** A time string gives back the whole seconds exactly for 0..99 hours, so for every time of day. */
  lemma TimeRoundTrip(ns: int, rest: Bytes)
    ensures ParseTime(NsToTimeStr(ns) + rest) == Some(TruncatedSeconds(ns) * 1_000_000_000)
      <==> 0 <= TruncatedSeconds(ns) < 360000
    ensures 0 <= ns ==> TruncatedSeconds(ns) * 1_000_000_000 == ns - ns % 1_000_000_000
  {
    hide ParseClock;
    hide TimeText;
    var secs := TruncatedSeconds(ns);
    var text := TimeText(secs) + rest;
    if 0 <= secs < 360000 {
      ClockTextParses([], secs, rest);
      assert [] + TimeText(secs) + rest == text;
    } else {
      ClockTextRefused(secs, rest);
    }
  }
}
