/**
 Days since 1970-01-01 to a civil date, as used for every RFC 3339 timestamp of the API.

 The reference is the calendar itself: month lengths, the Gregorian leap rule and
 "the day after".  The era/year-of-era arithmetic is proved to walk that calendar.
 */
module Calendar {

  datatype Date = Date(y: int, m: int, d: int)

  // ---- the Gregorian calendar ----

  predicate IsLeap(y: int)
  {
    y % 4 == 0 && (y % 100 != 0 || y % 400 == 0)
  }

  function DaysInMonth(y: int, m: int): (r: int)
    requires 1 <= m <= 12
  {
    if m == 2 then (if IsLeap(y) then 29 else 28)
    else if m in {4, 6, 9, 11} then 30
    else 31
  }

  predicate Valid(x: Date)
  {
    1 <= x.m <= 12 && 1 <= x.d <= DaysInMonth(x.y, x.m)
  }

  function NextDay(x: Date): (r: Date)
    requires Valid(x)
    ensures Valid(r)
  {
    if x.d < DaysInMonth(x.y, x.m) then Date(x.y, x.m, x.d + 1)
    else if x.m < 12 then Date(x.y, x.m + 1, 1)
    else Date(x.y + 1, 1, 1)
  }

  /** `n` days after the Unix epoch, by walking the calendar one day at a time. */
  ghost function DaysAfterEpoch(n: nat): (r: Date)
    ensures Valid(r)
  {
    if n == 0 then Date(1970, 1, 1) else NextDay(DaysAfterEpoch(n - 1))
  }

  predicate Before(a: Date, b: Date)
  {
    a.y < b.y || (a.y == b.y && (a.m < b.m || (a.m == b.m && a.d < b.d)))
  }

  // ---- the conversion ----

  const DAYS_PER_ERA := 146097

  function YearOfEra(doe: nat): (yoe: int)
  {
    (doe - doe / 1460 + doe / 36524 - doe / 146096) / 365
  }

  function DaysToYmd(days: nat): (r: Date)
  {
    var z := days + 719468;
    var era := z / DAYS_PER_ERA;
    var doe := z - era * DAYS_PER_ERA;
    var yoe := YearOfEra(doe);
    var y := yoe + era * 400;
    var doy := doe - (365 * yoe + yoe / 4 - yoe / 100);
    FromMarchYear(y, doy)
  }

  /** The tail of the conversion: a March-based year and the day within it. */
  function FromMarchYear(y: int, doy: int): (r: Date)
  {
    var mp := (5 * doy + 2) / 153;
    var d := doy - (153 * mp + 2) / 5 + 1;
    var m := if mp < 10 then mp + 3 else mp - 9;
    Date(if m <= 2 then y + 1 else y, m, d)
  }

  // ---- March-based years ----

  /** Days of the March-based year that starts in civil year `y`. */
  function MarchYearLength(y: int): int
  {
    if IsLeap(y + 1) then 366 else 365
  }

  function YearStart(yoe: int): int
  {
    365 * yoe + yoe / 4 - yoe / 100
  }

  /** Year and day-of-year are recovered from a day of the era; `c`, `q`, `r` are the
      century, four-year cycle and year within the cycle. */
  lemma YearOfEraFromParts(c: int, q: int, r: int, doy: int)
    requires 0 <= c < 4 && 0 <= q < 25 && 0 <= r < 4
    requires 0 <= doy < MarchYearLength(100 * c + 4 * q + r)
    ensures
      var doe := 36524 * c + 1461 * q + 365 * r + doy;
      0 <= doe < DAYS_PER_ERA && YearOfEra(doe) == 100 * c + 4 * q + r
  {
    var doe := 36524 * c + 1461 * q + 365 * r + doy;
    var x := 24 * c + q + 365 * r + doy;
    assert doe == 1460 * (25 * c + q) + x;
    var e := if x >= 1460 then 1 else 0;
    assert doe / 1460 == 25 * c + q + e;
    assert 0 <= doy - e < 365 by { LeapDay(c, q, r, doy); }
    if doe == 146096 {
    } else {
      assert doe / 36524 == c by { CenturyBound(c, q, r, doy); }
      assert doe / 146096 == 0;
      assert doe - doe / 1460 + doe / 36524 - doe / 146096
             == 365 * (100 * c + 4 * q + r) + (doy - e);
    }
  }

  /** Day 365 exists exactly in the leap positions of the cycle. */
  lemma LeapDay(c: int, q: int, r: int, doy: int)
    requires 0 <= c < 4 && 0 <= q < 25 && 0 <= r < 4
    requires 0 <= doy < MarchYearLength(100 * c + 4 * q + r)
    ensures doy == 365 ==> r == 3 && (q < 24 || c == 3)
    ensures var e := if 24 * c + q + 365 * r + doy >= 1460 then 1 else 0; 0 <= doy - e < 365
  {
    var y := 100 * c + 4 * q + r;
    if doy == 365 {
      assert IsLeap(y + 1);
      assert (y + 1) % 4 == (r + 1) % 4;
      assert r == 3;
      assert y + 1 == 100 * c + 4 * (q + 1);
      if q == 24 {
        assert y + 1 == 100 * (c + 1);
        assert (y + 1) % 100 == 0;
        assert c == 3;
      }
    }
  }

  lemma CenturyBound(c: int, q: int, r: int, doy: int)
    requires 0 <= c < 4 && 0 <= q < 25 && 0 <= r < 4
    requires 0 <= doy < MarchYearLength(100 * c + 4 * q + r)
    requires 36524 * c + 1461 * q + 365 * r + doy != 146096
    ensures 0 <= 1461 * q + 365 * r + doy < 36524
  {
    LeapDay(c, q, r, doy);
  }

  lemma YearStartFromParts(c: int, q: int, r: int)
    requires 0 <= c < 4 && 0 <= q < 25 && 0 <= r < 4
    ensures YearStart(100 * c + 4 * q + r) == 36524 * c + 1461 * q + 365 * r
  {
    var y := 100 * c + 4 * q + r;
    assert y / 4 == 25 * c + q;
    assert y / 100 == c;
  }

  /** The inverse direction: any year of the era and day within it comes back. */
  lemma YearOfEraInverts(yoe: int, doy: int)
    requires 0 <= yoe < 400
    requires 0 <= doy < MarchYearLength(yoe)
    ensures 0 <= YearStart(yoe) + doy < DAYS_PER_ERA
    ensures YearOfEra(YearStart(yoe) + doy) == yoe
  {
    var c, q, r := yoe / 100, yoe % 100 / 4, yoe % 4;
    assert yoe == 100 * c + 4 * q + r;
    YearOfEraFromParts(c, q, r, doy);
    YearStartFromParts(c, q, r);
  }

  lemma YearLengthIsGap(yoe: int)
    requires 0 <= yoe < 400
    ensures YearStart(yoe) + MarchYearLength(yoe) == if yoe == 399 then DAYS_PER_ERA else YearStart(yoe + 1)
  {
    var c, q, r := yoe / 100, yoe % 100 / 4, yoe % 4;
    assert yoe == 100 * c + 4 * q + r;
    YearStartFromParts(c, q, r);
    if r < 3 {
      YearStartFromParts(c, q, r + 1);
    } else if q < 24 {
      YearStartFromParts(c, q + 1, 0);
    } else if c < 3 {
      YearStartFromParts(c + 1, 0, 0);
    }
  }

  lemma LeapPeriod(y: int, era: int)
    ensures IsLeap(y + 400 * era) == IsLeap(y)
  {
    Remainder(y, 100 * era, 4);
    Remainder(y, 4 * era, 100);
    Remainder(y, era, 400);
  }

  lemma Remainder(y: int, q: int, n: int)
    requires n in {4, 100, 400}
    ensures (y + n * q) % n == y % n
  {
    assert y + n * q == n * (y / n + q) + y % n;
  }

  // ---- months of the March-based year ----

  /** Days before month `mp` of the March-based year. */
  function MonthStart(mp: int): int
  {
    (153 * mp + 2) / 5
  }

  function MonthDate(y: int, mp: int, d: int): Date
  {
    Date(if mp >= 10 then y + 1 else y, if mp < 10 then mp + 3 else mp - 9, d)
  }

  /** The month of a day is found by the cumulative month lengths. */
  lemma MonthOfDay(y: int, doy: int) returns (mp: int)
    requires 0 <= doy < MarchYearLength(y)
    ensures 0 <= mp <= 11 && MonthStart(mp) <= doy < MonthStart(mp + 1)
    ensures FromMarchYear(y, doy) == MonthDate(y, mp, doy - MonthStart(mp) + 1)
  {
    hide IsLeap;
    mp := (5 * doy + 2) / 153;
  }

  /** Month lengths are those of the calendar; February takes what the year leaves. */
  lemma MonthLength(y: int, mp: int)
    requires 0 <= mp <= 11
    ensures
      var x := MonthDate(y, mp, 1);
      DaysInMonth(x.y, x.m) == (if mp < 11 then MonthStart(mp + 1) else MarchYearLength(y)) - MonthStart(mp)
  {
  }

  /** The tail yields a valid date, and successive days of one March-based year are
      successive calendar days. */
  lemma MarchYearWalk(y: int, doy: int)
    requires 0 <= doy < MarchYearLength(y)
    ensures Valid(FromMarchYear(y, doy))
    ensures doy + 1 < MarchYearLength(y) ==>
              FromMarchYear(y, doy + 1) == NextDay(FromMarchYear(y, doy))
    ensures doy + 1 == MarchYearLength(y) ==>
              FromMarchYear(y + 1, 0) == NextDay(FromMarchYear(y, doy))
  {
    hide FromMarchYear, IsLeap, DaysInMonth, MonthStart;
    var mp := MonthOfDay(y, doy);
    MonthLength(y, mp);
    if doy + 1 < MarchYearLength(y) {
      var next := MonthOfDay(y, doy + 1);
      NextMonth(y, doy, mp, next);
    } else {
      FirstOfMarch(y + 1);
      LastMonth(y, doy, mp);
    }
  }

  lemma NextMonth(y: int, doy: int, mp: int, next: int)
    requires 0 <= mp <= 11 && 0 <= next <= 11
    requires MonthStart(mp) <= doy < MonthStart(mp + 1) && MonthStart(next) <= doy + 1 < MonthStart(next + 1)
    ensures next == mp || (next == mp + 1 && MonthStart(next) == doy + 1)
  {
  }

  lemma LastMonth(y: int, doy: int, mp: int)
    requires 0 <= mp <= 11 && MonthStart(mp) <= doy < MonthStart(mp + 1) && doy + 1 == MarchYearLength(y)
    ensures mp == 11
  {
    hide IsLeap;
  }

  lemma FirstOfMarch(y: int)
    ensures FromMarchYear(y, 0) == Date(y, 3, 1)
  {
  }

  /** Every day of every era is some day of some year of that era. */
  lemma Decompose(doe: int) returns (yoe: int, doy: int)
    requires 0 <= doe < DAYS_PER_ERA
    ensures 0 <= yoe < 400 && 0 <= doy < MarchYearLength(yoe)
    ensures doe == YearStart(yoe) + doy
  {
    yoe := 0;
    while doe >= YearStart(yoe) + MarchYearLength(yoe)
      invariant 0 <= yoe < 400
      invariant YearStart(yoe) <= doe
      decreases 400 - yoe
    {
      YearLengthIsGap(yoe);
      yoe := yoe + 1;
    }
    doy := doe - YearStart(yoe);
  }

  lemma FromEra(era: nat, yoe: int, doy: int, days: nat)
    requires 0 <= yoe < 400 && 0 <= doy < MarchYearLength(yoe)
    requires days + 719468 == era * DAYS_PER_ERA + YearStart(yoe) + doy
    ensures DaysToYmd(days) == FromMarchYear(yoe + era * 400, doy)
    ensures MarchYearLength(yoe + era * 400) == MarchYearLength(yoe)
  {
    YearOfEraInverts(yoe, doy);
    LeapPeriod(yoe + 1, era);
    var doe := YearStart(yoe) + doy;
    assert (days + 719468) / DAYS_PER_ERA == era;
  }

  /** One day further: within the year, into the next year, or into the next era. */
  lemma NextParts(era: nat, yoe: int, doy: int) returns (era': nat, yoe': int, doy': int)
    requires 0 <= yoe < 400 && 0 <= doy < MarchYearLength(yoe)
    requires MarchYearLength(yoe + era * 400) == MarchYearLength(yoe)
    ensures 0 <= yoe' < 400 && 0 <= doy' < MarchYearLength(yoe')
    ensures era' * DAYS_PER_ERA + YearStart(yoe') + doy' == era * DAYS_PER_ERA + YearStart(yoe) + doy + 1
    ensures Valid(FromMarchYear(yoe + era * 400, doy))
    ensures FromMarchYear(yoe' + era' * 400, doy') == NextDay(FromMarchYear(yoe + era * 400, doy))
  {
    hide FromMarchYear, NextDay, Valid, IsLeap;
    MarchYearWalk(yoe + era * 400, doy);
    YearLengthIsGap(yoe);
    if doy + 1 < MarchYearLength(yoe) {
      era', yoe', doy' := era, yoe, doy + 1;
    } else if yoe < 399 {
      era', yoe', doy' := era, yoe + 1, 0;
    } else {
      era', yoe', doy' := era + 1, 0, 0;
    }
  }

  lemma Parts(days: nat) returns (era: nat, yoe: int, doy: int)
    ensures 0 <= yoe < 400 && 0 <= doy < MarchYearLength(yoe)
    ensures days + 719468 == era * DAYS_PER_ERA + YearStart(yoe) + doy
  {
    era := (days + 719468) / DAYS_PER_ERA;
    yoe, doy := Decompose((days + 719468) % DAYS_PER_ERA);
  }

  /** Every day count gives a valid Gregorian date, and the next day count gives the
      next day of the calendar, across month ends, leap days and century years. */
  lemma SuccessorDay(days: nat)
    ensures Valid(DaysToYmd(days))
    ensures DaysToYmd(days + 1) == NextDay(DaysToYmd(days))
  {
    var era, yoe, doy := Parts(days);
    FromEra(era, yoe, doy, days);
    var era', yoe', doy' := NextParts(era, yoe, doy);
    FromEra(era', yoe', doy', days + 1);
  }

  // ---- what follows from walking the calendar, for any conversion that does ----

  ghost predicate StepsAt(convert: nat -> Date, n: nat)
  {
    Valid(convert(n)) && convert(n + 1) == NextDay(convert(n))
  }

  ghost predicate Walks(convert: nat -> Date)
  {
    convert(0) == Date(1970, 1, 1) && forall n: nat :: StepsAt(convert, n)
  }

  lemma EpochDay()
    ensures DaysToYmd(0) == Date(1970, 1, 1)
  {
    FromEra(4, 369, 306, 0);
  }

  lemma StepsAtEveryDay(n: nat)
    ensures StepsAt(DaysToYmd, n)
  {
    SuccessorDay(n);
  }

  lemma DaysToYmdWalks()
    ensures Walks(DaysToYmd)
  {
    EpochDay();
    forall n: nat {
      StepsAtEveryDay(n);
    }
  }

  lemma {:induction false} WalkIsUnique(convert: nat -> Date, n: nat)
    requires Walks(convert)
    ensures convert(n) == DaysAfterEpoch(n)
  {
    if n > 0 {
      WalkIsUnique(convert, n - 1);
      assert StepsAt(convert, n - 1);
    }
  }

  lemma {:induction false} WalkIsMonotone(convert: nat -> Date, a: nat, b: nat)
    requires Walks(convert)
    requires a < b
    ensures Before(convert(a), convert(b))
  {
    assert StepsAt(convert, b - 1);
    if a < b - 1 {
      WalkIsMonotone(convert, a, b - 1);
    }
  }

  ghost function PreviousDay(x: Date): (r: Date)
    requires Valid(x)
    ensures Valid(r) && NextDay(r) == x && Before(r, x)
  {
    if x.d > 1 then Date(x.y, x.m, x.d - 1)
    else if x.m > 1 then Date(x.y, x.m - 1, DaysInMonth(x.y, x.m - 1))
    else Date(x.y - 1, 12, 31)
  }

  lemma {:induction false} WalkReachesEveryDate(convert: nat -> Date, x: Date) returns (n: nat)
    requires Walks(convert)
    requires Valid(x) && !Before(x, Date(1970, 1, 1))
    ensures convert(n) == x
    decreases x.y, x.m, x.d
  {
    if x == Date(1970, 1, 1) {
      n := 0;
    } else {
      var before := WalkReachesEveryDate(convert, PreviousDay(x));
      n := before + 1;
      assert StepsAt(convert, before);
    }
  }

  // ---- the two statements about the conversion itself ----

  /** The conversion is the calendar walk from 1970-01-01, for every day count. */
  lemma DaysToYmdWalksTheCalendar(n: nat)
    ensures DaysToYmd(n) == DaysAfterEpoch(n)
  {
    DaysToYmdWalks();
    WalkIsUnique(DaysToYmd, n);
  }

  /** Each valid date on or after the epoch is the image of exactly one day count. */
  lemma EveryDateIsReachedOnce(x: Date) returns (n: nat)
    requires Valid(x) && !Before(x, Date(1970, 1, 1))
    ensures DaysToYmd(n) == x
    ensures forall k: nat :: k != n ==> DaysToYmd(k) != x
  {
    DaysToYmdWalks();
    n := WalkReachesEveryDate(DaysToYmd, x);
    forall k: nat | k != n
      ensures DaysToYmd(k) != x
    {
      if k < n {
        WalkIsMonotone(DaysToYmd, k, n);
      } else {
        WalkIsMonotone(DaysToYmd, n, k);
      }
    }
  }
}
