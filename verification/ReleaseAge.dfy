/** Calendar months between two instants, and the age label of a release. */
module ReleaseAge {
  import opened Division
  import opened Options

  // ----- The UTC calendar -----

  const DAY_MS := 86_400_000
  const MAX_TIME := 100_000_000 * DAY_MS

  predicate Leap(year: int) {
    year % 4 == 0 && (year % 100 != 0 || year % 400 == 0)
  }

  function MonthLength(leap: bool, month: nat): nat
    requires month < 12
  {
    if month == 1 then (if leap then 29 else 28)
    else if month in {3, 5, 8, 10} then 30 else 31
  }

  /** Months are numbered continuously, January of year zero being zero. */
  function Length(index: int): (days: nat)
    ensures 28 <= days <= 31
  {
    MonthLength(Leap(index / 12), index % 12)
  }

  /** Days from the epoch to the first day of a month. */
  function First(index: int): int
    decreases if index < 0 then -index else index
  {
    if index == 0 then -719_528
    else if index > 0 then First(index - 1) + Length(index - 1)
    else First(index + 1) - Length(index)
  }

  datatype Moment = Moment(year: int, month: nat, day: nat, ms: nat) {
    function Index(): int { 12 * year + month }

    predicate Valid() {
      month < 12 && 1 <= day <= Length(Index()) && ms < DAY_MS
    }

    function Time(): int { (First(Index()) + day - 1) * DAY_MS + ms }

    /** Inside the range a Date can hold. */
    predicate Dated() { Valid() && -MAX_TIME <= Time() <= MAX_TIME }
  }

  // ----- The closed form -----

  /** Days from the epoch to the first of January. */
  function YearStart(year: int): int {
    365 * (year - 1970) + (year - 1969) / 4 - (year - 1901) / 100 + (year - 1601) / 400
  }

  function MonthStart(leap: bool, month: nat): nat
    requires month < 12
  {
    [0, 31, 59, 90, 120, 151, 181, 212, 243, 273, 304, 334][month] + if leap && month >= 2 then 1 else 0
  }

  function Closed(index: int): int {
    YearStart(index / 12) + MonthStart(Leap(index / 12), index % 12)
  }

  lemma Carry(n: int, d: nat)
    requires d > 0
    ensures (n + 1) / d == n / d + if (n + 1) % d == 0 then 1 else 0
  {
    var q, r := n / d, n % d;
    assert n == d * q + r;
    if r == d - 1 {
      assert n + 1 == d * (q + 1) + 0;
      Quotient(n + 1, d, q + 1, 0);
    } else {
      Quotient(n + 1, d, q, r + 1);
    }
  }

  lemma YearLength(year: int)
    ensures YearStart(year + 1) == YearStart(year) + (if Leap(year) then 366 else 365)
  {
    hide Leap;
    Carry(year - 1969, 4);
    Carry(year - 1901, 100);
    Carry(year - 1601, 400);
    LeapShifted(year);
  }

  lemma LeapShifted(year: int)
    ensures (year - 1968) % 4 == 0 <== (year - 1900) % 100 == 0
    ensures (year - 1900) % 100 == 0 <== (year - 1600) % 400 == 0
    ensures Leap(year) <==> (year - 1968) % 4 == 0 && ((year - 1900) % 100 != 0 || (year - 1600) % 400 == 0)
  {
    Shifted(year, 4, 492);
    Shifted(year, 100, 19);
    Shifted(year, 400, 4);
    if year % 400 == 0 { Quotient(year, 100, 4 * (year / 400), 0); }
    if year % 100 == 0 { Quotient(year, 4, 25 * (year / 100), 0); }
  }

  lemma Shifted(n: int, d: nat, k: int)
    requires d > 0
    ensures (n - d * k) % d == n % d
  {
    assert n - d * k == d * (n / d - k) + n % d;
    Quotient(n - d * k, d, n / d - k, n % d);
  }

  lemma NextClosed(index: int)
    ensures Closed(index + 1) == Closed(index) + Length(index)
  {
    hide YearStart, Leap;
    var year, month := index / 12, index % 12;
    if month == 11 {
      assert (index + 1) / 12 == year + 1 && (index + 1) % 12 == 0;
      YearLength(year);
    } else {
      assert (index + 1) / 12 == year && (index + 1) % 12 == month + 1;
    }
  }

  /** Counting month by month agrees with the formula for days from years and months. */
  lemma {:induction false} FirstIsClosed(index: int)
    ensures First(index) == Closed(index)
    decreases if index < 0 then -index else index
  {
    hide Length, Closed;
    if index == 0 {
      Epoch();
    } else if index > 0 {
      FirstIsClosed(index - 1);
      NextClosed(index - 1);
    } else {
      FirstIsClosed(index + 1);
      NextClosed(index);
    }
  }

  lemma Epoch()
    ensures Closed(0) == -719_528
  {
  }

  // ----- Order of instants -----

  lemma NextFirst(index: int)
    ensures First(index + 1) == First(index) + Length(index)
  {
  }

  lemma {:induction false} MonthsInOrder(index: int, later: int)
    requires index < later
    ensures First(later) >= First(index) + Length(index)
    decreases later - index
  {
    hide First, Length;
    NextFirst(later - 1);
    if index + 1 < later {
      MonthsInOrder(index, later - 1);
    }
  }

  /** Instants compare by month, then by day and time of day. */
  lemma TimeOrder(a: Moment, b: Moment)
    requires a.Valid() && b.Valid()
    ensures a.Index() < b.Index() ==> a.Time() < b.Time()
    ensures a.Index() == b.Index() ==> (a.Time() < b.Time() <==> a.day < b.day || (a.day == b.day && a.ms < b.ms))
  {
    hide First, Length;
    if a.Index() < b.Index() {
      MonthsInOrder(a.Index(), b.Index());
    }
  }

  function Min(a: nat, b: nat): nat { if a < b then a else b }

  /** The same day and time of day, `months` calendar months away, clamped to the end of the month. */
  function AddMonths(t: Moment, months: int): (r: Moment)
    requires t.Valid()
    ensures r.Valid() && r.Index() == t.Index() + months && r.ms == t.ms
    ensures r.day == t.day || r.day == Length(r.Index()) < t.day
  {
    var index := t.Index() + months;
    Moment(index / 12, index % 12, Min(t.day, Length(index)), t.ms)
  }

  /** Exactly `months` calendar months have gone by. */
  ghost predicate Elapsed(from: Moment, to: Moment, months: int)
    requires from.Valid() && to.Valid()
  {
    AddMonths(from, months).Time() <= to.Time() < AddMonths(from, months + 1).Time()
  }

  /** An elapsed count is the largest number of months that can be added without passing `to`. */
  lemma ElapsedIsLargest(from: Moment, to: Moment, months: int, other: int)
    requires from.Valid() && to.Valid() && Elapsed(from, to, months)
    ensures AddMonths(from, other).Time() <= to.Time() <==> other <= months
  {
    hide First, Length, Moment.Time;
    if other < months {
      TimeOrder(AddMonths(from, other), AddMonths(from, months));
    } else if other > months + 1 {
      TimeOrder(AddMonths(from, months + 1), AddMonths(from, other));
    }
  }

  // ----- The source's computation -----

  /** Date.UTC: years 0 to 99 mean 1900 to 1999, a month past the year carries, out of range is no time. */
  function Utc(year: int, month: nat, day: nat, ms: nat): Option<int> {
    var time := (First(12 * UtcYear(year) + month) + day - 1) * DAY_MS + ms;
    if -MAX_TIME <= time <= MAX_TIME then Some(time) else None
  }

  function UtcYear(year: int): int {
    if 0 <= year <= 99 then 1900 + year else year
  }

  /** The date of day zero of the following month; no number when that day is out of range. */
  function LastDay(year: int, month: nat): Option<nat>
    requires month < 12
  {
    if Utc(year, month + 1, 0, 0).None? then None else Some(Length(12 * UtcYear(year) + month))
  }

  /** Day zero of the following month is the last day of the month. */
  lemma DayZeroIsLast(year: int, month: nat)
    requires month < 12 && Utc(year, month + 1, 0, 0).Some?
    ensures var last := Moment(UtcYear(year), month, LastDay(year, month).value, 0);
            last.Dated() && Utc(year, month + 1, 0, 0) == Some(last.Time())
  {
    hide First, Length;
    NextFirst(12 * UtcYear(year) + month);
  }

  /** The instant compared with `to`; a minimum with no number is no number. */
  function Anniversary(from: Moment, year: int, month: nat): Option<int>
    requires month < 12
  {
    match LastDay(year, month)
    case None => None
    case Some(last) => Utc(year, month, Min(from.day, last), from.ms)
  }

  /** `to` lies before the clamped day and time of `from` in its own month. */
  predicate BeforeDay(from: Moment, to: Moment) {
    var day := Min(from.day, Length(to.Index()));
    to.day < day || (to.day == day && to.ms < from.ms)
  }

  /** September 275760, in which the largest Date lies. */
  const LAST_MONTH := 12 * 275_760 + 8

  /** The years Date.UTC moves, and the one month whose end no Date can hold. */
  predicate Reliable(from: Moment, to: Moment) {
    if 0 <= to.year <= 99 then BeforeDay(from, to)
    else if to.Index() == LAST_MONTH then !BeforeDay(from, to)
    else true
  }

  /** Before the one month correction the count is right exactly when `to` reached the day in its month. */
  lemma WholeMonths(from: Moment, to: Moment)
    requires from.Valid() && to.Valid()
    ensures var months := to.Index() - from.Index();
            Elapsed(from, to, if BeforeDay(from, to) then months - 1 else months)
  {
    hide First, Length, Moment.Time;
    var months := to.Index() - from.Index();
    TimeOrder(to, AddMonths(from, months));
    TimeOrder(AddMonths(from, months), to);
    TimeOrder(AddMonths(from, months - 1), to);
    TimeOrder(to, AddMonths(from, months + 1));
  }

  lemma ElapsedIsUnique(from: Moment, to: Moment, months: int, other: int)
    requires from.Valid() && to.Valid() && Elapsed(from, to, months) && Elapsed(from, to, other)
    ensures months == other
  {
    hide First, Length, Moment.Time;
    ElapsedIsLargest(from, to, months, other);
    ElapsedIsLargest(from, to, other, months);
  }

  lemma LargestDate()
    ensures First(LAST_MONTH) <= 99_999_988
  {
    hide First;
    FirstIsClosed(LAST_MONTH);
    assert LAST_MONTH / 12 == 275_760 && LAST_MONTH % 12 == 8;
  }

  lemma PastLargestDate()
    ensures First(LAST_MONTH + 1) > 100_000_001
  {
    hide First;
    FirstIsClosed(LAST_MONTH + 1);
    assert (LAST_MONTH + 1) / 12 == 275_760 && (LAST_MONTH + 1) % 12 == 9;
  }

  lemma TurnOfCentury()
    ensures 0 < First(24_000) < 20_000
  {
    hide Leap, First;
    FirstIsClosed(24_000);
    assert MonthStart(Leap(2000), 0) == 0 && YearStart(2000) == 10_957;
  }

  lemma FirstGrows(index: int, later: int)
    requires index <= later
    ensures First(index) <= First(later)
  {
    hide First, Length;
    if index < later {
      MonthsInOrder(index, later);
    }
  }

  /** No month ends on the last midnight a Date can hold. */
  lemma NoMonthEndsLast(index: int)
    ensures First(index) != 100_000_001
  {
    hide First, Length;
    LargestDate();
    PastLargestDate();
    if index <= LAST_MONTH {
      FirstGrows(index, LAST_MONTH);
    } else {
      FirstGrows(LAST_MONTH + 1, index);
    }
  }

  /** Only the last month of all dates has no last day that a Date can hold. */
  lemma LastDayMissing(to: Moment)
    requires to.Dated() && !(0 <= to.year <= 99)
    ensures LastDay(to.year, to.month).None? <==> to.Index() == LAST_MONTH
  {
    hide First, Length;
    NextFirst(to.Index());
    LargestDate();
    PastLargestDate();
    if to.Index() < LAST_MONTH {
      FirstGrows(to.Index() + 1, LAST_MONTH);
    } else if to.Index() > LAST_MONTH {
      FirstGrows(LAST_MONTH + 1, to.Index());
    }
  }

  /** Where the moved or real anniversary lies when the month of `to` has a last day. */
  lemma AnniversaryInRange(from: Moment, to: Moment)
    requires from.Dated() && to.Dated() && from.Time() <= to.Time()
    requires !(0 <= to.year <= 99) && LastDay(to.year, to.month).Some?
    ensures Anniversary(from, to.year, to.month) == Some(AddMonths(from, to.Index() - from.Index()).Time())
  {
    hide First, Length;
    var moved := AddMonths(from, to.Index() - from.Index());
    NextFirst(to.Index());
    NoMonthEndsLast(to.Index() + 1);
    TimeOrder(to, from);
    TimeOrder(from, moved);
    assert moved.Time() >= from.Time();
  }

  /** Years moved to the last century put the anniversary after `to`; otherwise it is the real one. */
  lemma AnniversaryPlace(from: Moment, to: Moment)
    requires from.Dated() && to.Dated() && from.Time() <= to.Time()
    ensures var late := Anniversary(from, to.year, to.month);
            var passed := late.Some? && late.value > to.Time();
            passed <==> 0 <= to.year <= 99 || (to.Index() != LAST_MONTH && BeforeDay(from, to))
  {
    hide First, Length, Moment.Time;
    if 0 <= to.year <= 99 {
      MovedAfter(from, to);
      return;
    }
    LastDayMissing(to);
    if to.Index() != LAST_MONTH {
      AnniversaryInRange(from, to);
      TimeOrder(to, AddMonths(from, to.Index() - from.Index()));
    }
  }

  lemma MovedAfter(from: Moment, to: Moment)
    requires from.Dated() && to.Dated() && 0 <= to.year <= 99
    ensures Anniversary(from, to.year, to.month).Some?
    ensures Anniversary(from, to.year, to.month).value > to.Time()
  {
    hide First, Length;
    var index := 12 * (1900 + to.year) + to.month;
    var moved := Moment(1900 + to.year, to.month, Min(from.day, Length(index)), from.ms);
    TimeOrder(to, moved);
    TurnOfCentury();
    FirstGrows(index + 1, 24_000);
    NextFirst(index);
  }

  /** The whole months between the two calendar months, less one where the code corrects. */
  ghost function Counted(from: Moment, to: Moment): int {
    var whole := to.Index() - from.Index();
    if 0 <= to.year <= 99 || (to.Index() != LAST_MONTH && BeforeDay(from, to)) then whole - 1 else whole
  }

  /** The count is right exactly when `Reliable`. */
  lemma CountedIsElapsed(from: Moment, to: Moment)
    requires from.Dated() && to.Dated() && from.Time() <= to.Time()
    ensures Elapsed(from, to, Counted(from, to)) <==> Reliable(from, to)
  {
    hide First, Length, Moment.Time, Elapsed;
    var whole := to.Index() - from.Index();
    WholeMonths(from, to);
    if Elapsed(from, to, Counted(from, to)) {
      ElapsedIsUnique(from, to, Counted(from, to), if BeforeDay(from, to) then whole - 1 else whole);
    }
  }

  /** Otherwise it is one too small in the moved years and one too large in the last month. */
  lemma CountedOffByOne(from: Moment, to: Moment)
    requires from.Dated() && to.Dated() && from.Time() <= to.Time() && !Reliable(from, to)
    ensures Elapsed(from, to, if 0 <= to.year <= 99 then Counted(from, to) + 1 else Counted(from, to) - 1)
  {
    hide First, Length, Moment.Time, Elapsed;
    WholeMonths(from, to);
  }

  lemma CountedNotNegative(from: Moment, to: Moment)
    requires from.Dated() && to.Dated() && from.Time() <= to.Time()
    requires Reliable(from, to) || from.Index() < to.Index()
    ensures Counted(from, to) >= 0
  {
    hide First, Length, Moment.Time, Elapsed;
    TimeOrder(to, from);
    CountedIsElapsed(from, to);
    if Reliable(from, to) && Counted(from, to) < 0 {
      NotNegative(from, to, Counted(from, to));
    }
  }

  /** The elapsed months, for dates in order. */
  method ElapsedMonths(from: Moment, to: Moment) returns (months: int)
    requires from.Dated() && to.Dated() && from.Time() <= to.Time()
    ensures months == Counted(from, to)
    ensures Elapsed(from, to, months) <==> Reliable(from, to)
  {
    hide First, Length, Moment.Time, Elapsed;
    months := (to.year - from.year) * 12 + to.month - from.month;
    TimeOrder(to, from);
    var year := from.year + (from.month + months) / 12;
    var month := (from.month + months) % 12;
    var anniversary := Anniversary(from, year, month);
    AnniversaryPlace(from, to);
    CountedIsElapsed(from, to);
    if anniversary.Some? && anniversary.value > to.Time() {
      months := months - 1;
    }
  }

  /** A whole month in the year 50 is counted as none, and one day at the end of all dates as a month. */
  lemma UnreliableDates() returns (from: Moment, to: Moment, lateFrom: Moment, lateTo: Moment)
    ensures from.Dated() && to.Dated() && from.Time() < to.Time() && !Reliable(from, to)
    ensures lateFrom.Dated() && lateTo.Dated() && lateFrom.Time() < lateTo.Time() && !Reliable(lateFrom, lateTo)
    ensures to.year == 50 && lateTo.Index() == LAST_MONTH
  {
    hide First;
    from, to := Moment(50, 0, 1, 0), Moment(50, 1, 1, 0);
    lateFrom, lateTo := Moment(275_760, 7, 31, 0), Moment(275_760, 8, 1, 0);
    EarlyMonths();
    LateMonths();
  }

  lemma EarlyMonths()
    ensures First(600) == -701_265 && First(601) == -701_234
  {
    hide Leap, First;
    FirstIsClosed(600);
    NextFirst(600);
    assert YearStart(50) == -701_265;
  }

  lemma LateMonths()
    ensures First(3_309_127) == 99_999_957 && First(3_309_128) == 99_999_988
  {
    hide First;
    FirstIsClosed(3_309_127);
    NextFirst(3_309_127);
    assert YearStart(275_760) == 99_999_744;
  }

  lemma NotNegative(from: Moment, to: Moment, months: int)
    requires from.Valid() && to.Valid() && from.Time() <= to.Time() && Elapsed(from, to, months)
    ensures months >= 0
  {
    hide First, Length;
    assert AddMonths(from, 0) == from;
    ElapsedIsLargest(from, to, months, 0);
  }

  // ----- The label -----

  datatype Label =
    | ThisSession
    | JustNow
    | Minutes(minutes: int)
    | Hours(hours: int)
    | Days(days: int)
    | Months(months: int)
    | Years(years: int, rest: int)

  const MINUTE_MS := 60_000

  /** Whole units of `size` milliseconds between two instants. */
  function Units(from: Moment, now: Moment, size: nat): int
    requires size > 0
  {
    (now.Time() - from.Time()) / size
  }

  /** What the label says about the two instants. */
  ghost predicate Tells(age: Label, from: Moment, now: Moment)
    requires from.Valid() && now.Valid()
  {
    match age
    case ThisSession => false
    case JustNow => now.Time() < from.Time() + MINUTE_MS
    case Minutes(n) => 1 <= n < 60 && n == Units(from, now, MINUTE_MS)
    case Hours(n) => 1 <= n < 24 && n == Units(from, now, 60 * MINUTE_MS)
    case Days(n) => 1 <= n <= 30 && n == Units(from, now, DAY_MS) && Elapsed(from, now, 0)
    case Months(n) => 1 <= n < 12 && Elapsed(from, now, n)
    case Years(y, rest) => y >= 1 && 0 <= rest < 12 && Elapsed(from, now, 12 * y + rest)
  }

  /** Less than a calendar month is at most thirty whole days. */
  lemma MonthIsShort(from: Moment, now: Moment)
    requires from.Valid() && now.Valid() && Elapsed(from, now, 0)
    ensures Units(from, now, DAY_MS) <= 30
  {
    hide First, Length;
    var next := AddMonths(from, 1);
    NextFirst(from.Index());
    assert next.Time() - from.Time() <= 31 * DAY_MS;
  }

  lemma SameMonth(from: Moment, now: Moment)
    requires from.Valid() && now.Valid() && from.Time() <= now.Time() && from.Index() == now.Index()
    ensures Elapsed(from, now, 0) && (now.year == from.year && now.month == from.month)
  {
    hide First, Length, Moment.Time;
    TimeOrder(now, from);
    WholeMonths(from, now);
  }

  /** Labels below the age of a day do not depend on the calendar; from then on they do. */
  method HistoryAge(created: Option<Moment>, now: Moment) returns (age: Label)
    requires now.Dated() && (created.Some? ==> created.value.Dated())
    ensures created.None? <==> age.ThisSession?
    ensures created.Some? ==>
      (Tells(age, created.value, now)
       <==> Units(created.value, now, DAY_MS) < 1 || Reliable(created.value, now)
            || created.value.Index() == now.Index())
  {
    hide First, Length, Moment.Time, Elapsed, Reliable;
    if created.None? { return ThisSession; }
    var from := created.value;
    var minutes := if now.Time() < from.Time() then 0 else (now.Time() - from.Time()) / MINUTE_MS;
    if minutes < 1 { return JustNow; }
    if minutes < 60 { return Minutes(minutes); }
    if minutes < 1440 { return Hours(minutes / 60); }
    var months := ElapsedMonths(from, now);
    if months < 1 {
      TimeOrder(now, from);
      if from.Index() == now.Index() { SameMonth(from, now); } else { CountedNotNegative(from, now); }
      if Elapsed(from, now, 0) { MonthIsShort(from, now); }
      return Days(minutes / 1440);
    }
    if months < 12 { return Months(months); }
    assert 12 * (months / 12) + months % 12 == months;
    return Years(months / 12, months % 12);
  }
}
