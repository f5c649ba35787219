/** Civil dates as the on-board GNSS reader counts them, against the Gregorian calendar and
    against the "Seconds Since the Epoch" of IEEE Std 1003.1-2017. */
module Calendar {
  import opened Wrappers

  const MASK32 := 0x1_0000_0000

  // ---- The program's arithmetic ------------------------------------------------------------

  /** Division as C does it on signed operands: toward zero. */
  function Quotient(a: int, b: int): int
    requires b > 0
  {
    if a >= 0 then a / b else -(-a / b)
  }

  function U32(x: int): (r: nat)
    ensures r < MASK32
  {
    x % MASK32
  }

  function DayOfYear32(m: nat, d: nat): nat {
    var shifted := U32(m + if m > 2 then U32(-3) else 9);
    U32(U32(U32(U32(153 * shifted) + 2) / 5 + d) - 1)
  }

  function DayOfEra32(yoe: nat, doy: nat): nat {
    U32(U32(U32(yoe * 365) + yoe / 4 - yoe / 100) + doy)
  }

  /** Days from 1970-01-01; every unsigned operation keeps its 32 bits. */
  function DaysFromCivil(year: int, m: nat, d: nat): int {
    var y := if m <= 2 then year - 1 else year;
    var era := Quotient(if y >= 0 then y else y - 399, 400);
    era * 146097 + DayOfEra32(U32(y - era * 400), DayOfYear32(m, d)) - 719468
  }

  // ---- The calendar ------------------------------------------------------------------------

  datatype Date = Date(year: int, month: nat, day: nat)

  predicate Leap(y: int) {
    y % 4 == 0 && (y % 100 != 0 || y % 400 == 0)
  }

  function DaysIn(y: int, m: nat): nat {
    if m == 2 then (if Leap(y) then 29 else 28)
    else if m == 4 || m == 6 || m == 9 || m == 11 then 30
    else 31
  }

  predicate OnCalendar(t: Date) {
    1 <= t.month <= 12 && 1 <= t.day <= DaysIn(t.year, t.month)
  }

  function Tomorrow(t: Date): (r: Date)
    requires OnCalendar(t)
    ensures OnCalendar(r) && Earlier(t, r)
  {
    if t.day < DaysIn(t.year, t.month) then t.(day := t.day + 1)
    else if t.month < 12 then Date(t.year, t.month + 1, 1)
    else Date(t.year + 1, 1, 1)
  }

  predicate Earlier(s: Date, t: Date) {
    s.year < t.year || (s.year == t.year && (s.month < t.month || (s.month == t.month && s.day < t.day)))
  }

  function Days(t: Date): int {
    DaysFromCivil(t.year, t.month, t.day)
  }

  // ---- The 32-bit arithmetic ---------------------------------------------------------------

  lemma EraIsFloor(y: int)
    ensures Quotient(if y >= 0 then y else y - 399, 400) == y / 400
  {
  }

  function DayOfMarchYear(m: nat, d: nat): int {
    (153 * (m + if m > 2 then -3 else 9) + 2) / 5 + d - 1
  }

  function DayOfEra(yoe: nat): int {
    yoe * 365 + yoe / 4 - yoe / 100
  }

  /** The count with no wrap-around anywhere. */
  function Unwrapped(year: int, m: nat, d: nat): int {
    var y := if m <= 2 then year - 1 else year;
    y / 400 * 146097 + DayOfEra(y % 400) + DayOfMarchYear(m, d) - 719468
  }

  lemma Fits(x: nat)
    requires x < MASK32
    ensures U32(x) == x
  {
  }

  lemma MonthWraps(m: nat)
    requires m <= 255
    ensures U32(m + if m > 2 then U32(-3) else 9) == m + if m > 2 then -3 else 9
  {
  }

  lemma DayWraps(m: nat, d: nat)
    requires m <= 255 && d <= 255
    ensures -1 <= DayOfMarchYear(m, d) < 10000
    ensures DayOfMarchYear(m, d) == -1 <==> m == 3 && d == 0
    ensures DayOfYear32(m, d) == if m == 3 && d == 0 then MASK32 - 1 else DayOfMarchYear(m, d)
  {
    MonthWraps(m);
    var x := 153 * (m + if m > 2 then -3 else 9);
    Fits(x);
    Fits(x + 2);
    Fits((x + 2) / 5 + d);
  }

  lemma EraWraps(yoe: nat, doy: nat)
    requires yoe < 400 && (doy < 10000 || doy == MASK32 - 1)
    ensures 0 <= DayOfEra(yoe) <= 146096
    ensures DayOfEra32(yoe, doy) == DayOfEra(yoe) + if doy < 10000 then doy
                                                    else if yoe == 0 then MASK32 - 1 else -1
  {
    Fits(yoe * 365);
    Fits(DayOfEra(yoe));
  }

  lemma YearWraps(y: int)
    ensures U32(y - y / 400 * 400) == y % 400
  {
    Fits(y % 400);
    assert y - y / 400 * 400 == y % 400;
  }

  lemma CountByEra(year: int, m: nat, d: nat, y: int)
    requires y == if m <= 2 then year - 1 else year
    ensures DaysFromCivil(year, m, d) == y / 400 * 146097 + DayOfEra32(y % 400, DayOfYear32(m, d)) - 719468
  {
    EraIsFloor(y);
    YearWraps(y);
  }

  lemma DaysWrap(yoe: nat, doy: nat, day: int)
    requires yoe < 400 && -1 <= day < 10000 && doy == if day == -1 then MASK32 - 1 else day
    ensures DayOfEra32(yoe, doy) == DayOfEra(yoe) + day + if day == -1 && yoe == 0 then MASK32 else 0
  {
    EraWraps(yoe, doy);
  }

  /** The "-3U" always wraps and always wraps back; the one input a byte-wide month and day can
      hold on which the 32 bits show is "day 0 of March" in a year divisible by 400. */
  lemma WrapShowsOnlyOnMarchZero(year: int, m: nat, d: nat)
    requires m <= 255 && d <= 255
    ensures DaysFromCivil(year, m, d) ==
            Unwrapped(year, m, d) + if m == 3 && d == 0 && year % 400 == 0 then MASK32 else 0
  {
    var y := if m <= 2 then year - 1 else year;
    CountByEra(year, m, d, y);
    DayWraps(m, d);
    DaysWrap(y % 400, DayOfYear32(m, d), DayOfMarchYear(m, d));
  }

  // ---- The count is the calendar's ---------------------------------------------------------

  /** A common formula gives the month lengths from March to January. */
  lemma MonthLength(m: nat)
    requires 1 <= m <= 12 && m != 2
    ensures var n := if m == 12 then 1 else m + 1;
            DayOfMarchYear(n, 1) - DayOfMarchYear(m, 1) == DaysIn(0, m)
  {
    assert m == 1 || m == 3 || m == 4 || m == 5 || m == 6 || m == 7 || m == 8 || m == 9 || m == 10 ||
           m == 11 || m == 12;
  }

  /** Days since the start of year 1 of the years before y, counted from the leap-year rule. */
  function YearStart(y: int): int {
    365 * (y - 1) + (y - 1) / 4 - (y - 1) / 100 + (y - 1) / 400
  }

  function YearDay(y: int, m: nat): nat
    requires 1 <= m <= 12
  {
    if m == 1 then 0 else YearDay(y, m - 1) + DaysIn(y, m - 1)
  }

  lemma YearDayTable(y: int, m: nat)
    requires 1 <= m <= 12
    ensures YearDay(y, m) == if m <= 2 then 31 * (m - 1)
                             else DayOfMarchYear(m, 1) + if Leap(y) then 60 else 59
  {
    if m > 1 {
      YearDayTable(y, m - 1);
      if m > 3 { MonthLength(m - 1); }
    }
  }

  /** The era arithmetic is the leap-year count. */
  lemma MarchYears(y: int)
    ensures y / 400 * 146097 + DayOfEra(y % 400) == YearStart(y + 1)
  {
    Eras(y / 400, y % 400);
  }

  /** What the year, the month and the day contribute, January first. */
  lemma DaysByYearDay(t: Date)
    requires OnCalendar(t)
    ensures Days(t) == YearStart(t.year) + YearDay(t.year, t.month) + t.day - 1 - 719162
  {
    WrapShowsOnlyOnMarchZero(t.year, t.month, t.day);
    MonthOffset(t.month, t.day);
    YearDayTable(t.year, t.month);
    MarchYears(if t.month <= 2 then t.year - 1 else t.year);
    YearLength(t.year);
  }

  lemma MonthOffset(m: nat, d: nat)
    requires 1 <= m <= 12
    ensures DayOfMarchYear(m, d) == DayOfMarchYear(m, 1) + d - 1
    ensures DayOfMarchYear(1, 1) == 306 && DayOfMarchYear(2, 1) == 337
  {
  }

  lemma Eras(e: int, a: nat)
    requires a < 400
    ensures (400 * e + a) / 400 == e
    ensures (400 * e + a) / 100 == 4 * e + a / 100
    ensures (400 * e + a) / 4 == 100 * e + a / 4
  {
  }

  lemma LeapDays(y: int)
    ensures y / 4 - (y - 1) / 4 == if y % 4 == 0 then 1 else 0
    ensures y / 100 - (y - 1) / 100 == if y % 100 == 0 then 1 else 0
    ensures y / 400 - (y - 1) / 400 == if y % 400 == 0 then 1 else 0
    ensures y % 400 == 0 ==> y % 100 == 0
    ensures y % 100 == 0 ==> y % 4 == 0
  {
  }

  lemma YearLength(y: int)
    ensures YearStart(y + 1) == YearStart(y) + if Leap(y) then 366 else 365
  {
    LeapDays(y);
  }

  lemma EpochIsZero()
    ensures Days(Date(1970, 1, 1)) == 0
  {
    DaysByYearDay(Date(1970, 1, 1));
  }

  /** Every date is followed by the date one day later, in every year, before year 0 as after. */
  lemma SuccessorIsNextDay(t: Date)
    requires OnCalendar(t)
    ensures Days(Tomorrow(t)) == Days(t) + 1
  {
    DaysByYearDay(t);
    DaysByYearDay(Tomorrow(t));
    if t.day == DaysIn(t.year, t.month) && t.month == 12 {
      YearDayTable(t.year, 12);
      YearLength(t.year);
    }
  }

  lemma {:induction false} YearStartGrows(y: int, z: int)
    requires y < z
    ensures YearStart(y) + 365 + (if Leap(y) then 1 else 0) <= YearStart(z)
    decreases z - y
  {
    YearLength(z - 1);
    if y + 1 < z { YearStartGrows(y, z - 1); }
  }

  lemma YearDayBounds(y: int, m: nat, n: nat)
    requires 1 <= m <= n <= 12
    ensures m < n ==> YearDay(y, m) + DaysIn(y, m) <= YearDay(y, n)
    ensures YearDay(y, n) + DaysIn(y, n) <= 365 + if Leap(y) then 1 else 0
  {
    YearDayTable(y, m);
    YearDayTable(y, n);
    if m < n { YearDayBounds(y, m, n - 1); }
  }

  /** The count orders dates as the calendar does, so it gives no two dates the same number. */
  lemma CountFollowsCalendar(s: Date, t: Date)
    requires OnCalendar(s) && OnCalendar(t)
    ensures Days(s) < Days(t) <==> Earlier(s, t)
    ensures Days(s) == Days(t) <==> s == t
  {
    if Earlier(s, t) { EarlierCountsLess(s, t); }
    if Earlier(t, s) { EarlierCountsLess(t, s); }
  }

  lemma EarlierCountsLess(s: Date, t: Date)
    requires OnCalendar(s) && OnCalendar(t) && Earlier(s, t)
    ensures Days(s) < Days(t)
  {
    DaysByYearDay(s);
    DaysByYearDay(t);
    if s.year < t.year {
      YearStartGrows(s.year, t.year);
      YearDayBounds(s.year, s.month, s.month);
    } else {
      YearDayBounds(s.year, s.month, t.month);
    }
  }

  /** And it leaves no number out: the n-th day after the epoch has number n. */
  function DayAfterEpoch(n: nat): (t: Date)
    ensures OnCalendar(t) && Days(t) == n
  {
    if n == 0 then
      EpochIsZero();
      Date(1970, 1, 1)
    else
      var t := DayAfterEpoch(n - 1);
      SuccessorIsNextDay(t);
      Tomorrow(t)
  }

  // ---- The time stamp of a fix -------------------------------------------------------------

  datatype FixType = NoFix | Fix2d | Fix3d | DeadReckoning | TimeOnly | RtkFloat | RtkFixed

  /** The fix type as the receiver reports it, with one case for every value it does not define. */
  datatype NavFix = NavNone | NavDeadReckoning | Nav2d | Nav3d | NavCombined | NavTimeOnly | NavOther

  /** The fields of a navigation solution that the time stamp and the fix type are made from. */
  datatype Solution = Solution(
    gnssFixOk: bool, carrierFixed: bool, carrierFloating: bool, navFix: NavFix,
    validBits: nat, date: Date, hour: nat, minute: nat, second: nat)

  function FixTypeFrom(p: Solution): FixType {
    if !p.gnssFixOk then NoFix
    else if p.carrierFixed then RtkFixed
    else if p.carrierFloating then RtkFloat
    else
      match p.navFix
      case Nav2d => Fix2d
      case Nav3d => Fix3d
      case NavCombined => DeadReckoning
      case NavDeadReckoning => DeadReckoning
      case NavTimeOnly => TimeOnly
      case NavNone => NoFix
      case NavOther => NoFix
  }

  /** Which solutions get which type: a carrier solution outranks what the receiver reports, and
      neither counts without the flag that says the fix is good. */
  lemma FixTypesExactly(p: Solution)
    ensures FixTypeFrom(p) == RtkFixed <==> p.gnssFixOk && p.carrierFixed
    ensures FixTypeFrom(p) == RtkFloat <==> p.gnssFixOk && !p.carrierFixed && p.carrierFloating
    ensures p.gnssFixOk && !p.carrierFixed && !p.carrierFloating ==>
              (FixTypeFrom(p) == Fix2d <==> p.navFix == Nav2d) && (FixTypeFrom(p) == Fix3d <==> p.navFix == Nav3d) &&
              (FixTypeFrom(p) == DeadReckoning <==> p.navFix == NavDeadReckoning || p.navFix == NavCombined) &&
              (FixTypeFrom(p) == TimeOnly <==> p.navFix == NavTimeOnly)
    ensures FixTypeFrom(p) != NoFix <==>
            p.gnssFixOk && (p.carrierFixed || p.carrierFloating || (p.navFix != NavNone && p.navFix != NavOther))
  {
  }

  function TimeUnixUs(p: Solution): Option<nat> {
    if p.validBits % 4 == 3 && FixTypeFrom(p) != NoFix then
      var days := Days(p.date);
      if days >= 0 then Some((days * 86400 + p.hour * 3600 + p.minute * 60 + p.second) * 1000000)
      else None
    else None
  }

  /** IEEE Std 1003.1-2017, Base Definitions, section 4.16, with tm_year counted from 1900 and
      tm_yday from 0. */
  function SecondsSinceTheEpoch(tm_year: int, tm_yday: int, tm_hour: int, tm_min: int, tm_sec: int): int {
    tm_sec + tm_min * 60 + tm_hour * 3600 + tm_yday * 86400 + (tm_year - 70) * 31536000 +
    (tm_year - 69) / 4 * 86400 - (tm_year - 1) / 100 * 86400 + (tm_year + 299) / 400 * 86400
  }

  lemma PosixYear(y: int)
    ensures YearStart(y) - 719162 ==
            (y - 1970) * 365 + (y - 1969) / 4 - (y - 1901) / 100 + (y - 1601) / 400
  {
    assert (y - 1) / 4 == (y - 1969) / 4 + 492;
    assert (y - 1) / 100 == (y - 1901) / 100 + 19;
    assert (y - 1) / 400 == (y - 1601) / 400 + 4;
  }

  /** A fix carries a time exactly when its date and time are valid, it is a fix at all, and its
      year is 1970 or later; and the time is then the one POSIX gives that date. */
  lemma TimeStampIsPosix(p: Solution)
    requires OnCalendar(p.date)
    ensures TimeUnixUs(p).Some? <==>
            p.validBits % 4 == 3 && p.date.year >= 1970 &&
            p.gnssFixOk && (p.carrierFixed || p.carrierFloating || (p.navFix != NavNone && p.navFix != NavOther))
    ensures TimeUnixUs(p).Some? ==>
            TimeUnixUs(p).value == 1000000 * SecondsSinceTheEpoch(
              p.date.year - 1900, YearDay(p.date.year, p.date.month) + p.date.day - 1,
              p.hour, p.minute, p.second)
  {
    FixTypesExactly(p);
    DaysArePosix(p.date);
  }

  lemma DaysArePosix(t: Date)
    requires OnCalendar(t)
    ensures Days(t) >= 0 <==> t.year >= 1970
    ensures Days(t) * 86400 ==
            SecondsSinceTheEpoch(t.year - 1900, YearDay(t.year, t.month) + t.day - 1, 0, 0, 0)
  {
    NotBeforeEpoch(t);
    DaysByYearDay(t);
    PosixYear(t.year);
    DaySeconds(t.year - 1900, YearDay(t.year, t.month) + t.day - 1);
  }

  lemma NotBeforeEpoch(t: Date)
    requires OnCalendar(t)
    ensures Days(t) >= 0 <==> t.year >= 1970
  {
    EpochIsZero();
    CountFollowsCalendar(t, Date(1970, 1, 1));
  }

  lemma DaySeconds(y: int, yday: int)
    ensures SecondsSinceTheEpoch(y, yday, 0, 0, 0) ==
            (yday + (y - 70) * 365 + (y - 69) / 4 - (y - 1) / 100 + (y + 299) / 400) * 86400
  {
  }
}
