/** What the bucket listings contain: exactly the years, months, days and hours that hold assets. */
module BucketLists {
  import opened Wrappers
  import opened Text
  import opened Calendar
  import opened FsModel
  import opened AssetNames
  import opened Ordering
  import opened FsService

  // ---------- what a scope holds ----------

  ghost predicate HoldsAny(b: Immich, s: Scope) { exists a :: a in b.lib && InScope(b, s, a) }

  ghost predicate HasYear(b: Immich, s: Scope, y: int) {
    exists a :: a in b.lib && InScope(b, s, a) && a.when.date.y == y
  }

  ghost predicate HasMonth(b: Immich, s: Scope, y: int, m: int) {
    exists a :: a in b.lib && InScope(b, s, a) && a.when.date.y == y && a.when.date.m == m
  }

  ghost predicate HasDay(b: Immich, s: Scope, day: Date) {
    exists a :: a in b.lib && InScope(b, s, a) && a.when.date == day
  }

  ghost predicate HasHour(b: Immich, s: Scope, day: Date, hour: int) {
    exists a :: a in b.lib && InScope(b, s, a) && a.when.date == day && a.when.clock.hour == hour
  }

  /** Every asset of the scope was taken in a year that prints as four digits and has a next year. */
  ghost predicate PrintableYears(b: Immich, s: Scope) {
    forall a :: a in b.lib && InScope(b, s, a) ==> 1000 <= a.when.date.y <= 9998
  }

  /** The timeline endpoint, if it works, reports the first day of each month that holds assets. */
  ghost predicate MonthsExact(b: Immich, s: Scope) {
    s.DateView? && b.months(s.favorite).Some? ==>
      forall d: Date :: d in b.months(s.favorite).value <==> d.d == 1 && HasMonth(b, s, d.y, d.m)
  }

  lemma Orders()
    ensures StrictTotal(IntLess) && StrictTotal(IntGreater) && StrictTotal(DateGreater)
  {
  }

  // ---------- the probing loops ----------

  lemma {:induction false} ProbedYearsExact(probe: int -> bool, hi: int, lo: int)
    ensures forall y :: y in ProbedYears(probe, hi, lo) <==> lo <= y <= hi && probe(y)
    ensures Strict(IntGreater, ProbedYears(probe, hi, lo))
    decreases hi - lo + 1
  {
    if hi >= lo {
      ProbedYearsExact(probe, hi - 1, lo);
      forall y | y in ProbedYears(probe, hi - 1, lo)
        ensures IntGreater(hi, y)
      {
      }
    }
  }

  predicate MonthListed(probe: int -> bool, r: DateRange, m: nat, d: Date) {
    && d == Date(r.start.y, d.m, 1) && 1 <= d.m <= m
    && !DateLess(d, r.start) && DateLess(d, r.end) && probe(d.m)
  }

  lemma {:induction false} ProbedMonthsExact(probe: int -> bool, r: DateRange, m: nat)
    ensures forall d :: d in ProbedMonths(probe, r, m) <==> MonthListed(probe, r, m, d)
    ensures Strict(DateGreater, ProbedMonths(probe, r, m))
  {
    if m > 0 {
      ProbedMonthsExact(probe, r, m - 1);
      var start := Date(r.start.y, m, 1);
      forall d
        ensures d in ProbedMonths(probe, r, m) <==> MonthListed(probe, r, m, d)
      {
        assert d in ProbedMonths(probe, r, m - 1) <==> MonthListed(probe, r, m - 1, d);
      }
      forall d | d in ProbedMonths(probe, r, m - 1)
        ensures DateGreater(start, d)
      {
        assert MonthListed(probe, r, m - 1, d);
      }
    }
  }

  /** The bounds exist exactly when the scope holds an asset; both are dates of assets, and no asset's date
    * lies outside them. */
  lemma DateBoundsExact(b: Immich, s: Scope)
    requires Faithful(b)
    ensures DateBounds(b, s).None? <==> forall a :: a in b.lib ==> !InScope(b, s, a)
    ensures DateBounds(b, s).Some? ==>
              var (oldest, newest) := DateBounds(b, s).value;
              (exists a :: a in b.lib && InScope(b, s, a) && a.when.date == oldest)
              && (exists a :: a in b.lib && InScope(b, s, a) && a.when.date == newest)
              && forall a :: a in b.lib && InScope(b, s, a) ==>
                   !DateLess(a.when.date, oldest) && !DateLess(newest, a.when.date)
  {
    var asc, desc := b.find(WholeQuery(s, Oldest)), b.find(WholeQuery(s, Newest));
    assert FindOk(b, WholeQuery(s, Oldest)) && FindOk(b, WholeQuery(s, Newest));
    forall a | a in b.lib && InScope(b, s, a)
      ensures asc != [] && desc != []
      ensures !DateLess(a.when.date, asc[0].when.date) && !DateLess(desc[0].when.date, a.when.date)
    {
      WholeFinds(b, s, Oldest, a);
      WholeFinds(b, s, Newest, a);
      var i :| 0 <= i < |asc| && asc[i] == a;
      var j :| 0 <= j < |desc| && desc[j] == a;
    }
    if asc != [] && desc != [] {
      WholeFinds(b, s, Oldest, asc[0]);
      WholeFinds(b, s, Newest, desc[0]);
    }
  }

  /** A year, month or day that holds an asset of the scope is found by its probe, whatever boundaries a
    * view has; with exact ones the probe finds nothing else. */
  lemma YearProbeExact(b: Immich, s: Scope, y: int)
    requires Faithful(b) && 1 <= y < MAX_YEAR
    ensures HasYear(b, s, y) ==> HasAssets(b, s, YearRange(y)) && YearProbe(b, s)(y)
    ensures ExactScope(b, s) && HasAssets(b, s, YearRange(y)) ==> HasYear(b, s, y)
  {
    hide HasAssets, ExactScope, InScope;
    if ExactScope(b, s) { HasAssetsExact(b, s, YearRange(y)); }
    if a :| a in b.lib && InScope(b, s, a) && InRange(a, YearRange(y)) {
      RangeFields(a, y, 1);
    }
    if a :| a in b.lib && InScope(b, s, a) && a.when.date.y == y {
      RangeFields(a, y, 1);
      HasAssetsKeeps(b, s, YearRange(y), a);
    }
  }

  lemma MonthProbeExact(b: Immich, s: Scope, y: int, m: int)
    requires Faithful(b) && 1 <= y < MAX_YEAR && 1 <= m <= 12
    ensures HasMonth(b, s, y, m) ==> HasAssets(b, s, MonthRange(y, m)) && MonthProbe(b, s, y)(m)
    ensures ExactScope(b, s) && HasAssets(b, s, MonthRange(y, m)) ==> HasMonth(b, s, y, m)
  {
    hide HasAssets, ExactScope, InScope;
    if ExactScope(b, s) { HasAssetsExact(b, s, MonthRange(y, m)); }
    if a :| a in b.lib && InScope(b, s, a) && InRange(a, MonthRange(y, m)) {
      RangeFields(a, y, m);
    }
    if a :| a in b.lib && InScope(b, s, a) && a.when.date.y == y && a.when.date.m == m {
      RangeFields(a, y, m);
      HasAssetsKeeps(b, s, MonthRange(y, m), a);
    }
  }

  lemma DayProbeExact(b: Immich, s: Scope, day: Date)
    requires Faithful(b) && Valid(day) && day != LAST_DATE
    ensures HasDay(b, s, day) ==> HasAssets(b, s, DayRange(day))
    ensures ExactScope(b, s) && HasAssets(b, s, DayRange(day)) ==> HasDay(b, s, day)
  {
    hide HasAssets, ExactScope, InScope;
    if ExactScope(b, s) { HasAssetsExact(b, s, DayRange(day)); }
    if a :| a in b.lib && InScope(b, s, a) && InRange(a, DayRange(day)) {
      DayFields(a, day);
    }
    if a :| a in b.lib && InScope(b, s, a) && a.when.date == day {
      DayFields(a, day);
      HasAssetsKeeps(b, s, DayRange(day), a);
    }
  }

  // ---------- years ----------

  /** The year has assets of the scope in it, or before and after it. */
  ghost predicate Spanned(b: Immich, s: Scope, y: int) {
    && (exists a :: a in b.lib && InScope(b, s, a) && a.when.date.y <= y)
    && (exists a :: a in b.lib && InScope(b, s, a) && y <= a.when.date.y)
  }

  /** Probing the years between the bounds, whatever boundaries a view has: exactly the years between that
    * their search finds something in. */
  lemma SlowYearsFound(b: Immich, s: Scope)
    requires Faithful(b) && PrintableYears(b, s)
    ensures SlowYearList(b, s).Some?
    ensures Strict(IntGreater, SlowYearList(b, s).value)
    ensures forall y :: y in SlowYearList(b, s).value <==> Spanned(b, s, y) && 1 <= y < MAX_YEAR && YearProbe(b, s)(y)
  {
    hide InScope, YearProbe;
    DateBoundsExact(b, s);
    if DateBounds(b, s).Some? {
      var (oldest, newest) := DateBounds(b, s).value;
      ProbedYearsExact(YearProbe(b, s), newest.y, oldest.y);
    }
  }

  lemma SlowYearsExact(b: Immich, s: Scope)
    requires Faithful(b) && ExactScope(b, s) && PrintableYears(b, s)
    ensures SlowYearList(b, s).Some?
    ensures Strict(IntGreater, SlowYearList(b, s).value)
    ensures forall y :: y in SlowYearList(b, s).value <==> HasYear(b, s, y)
  {
    hide InScope, HasAssets, ExactScope;
    SlowYearsFound(b, s);
    forall y
      ensures y in SlowYearList(b, s).value <==> HasYear(b, s, y)
    {
      if 1 <= y < MAX_YEAR { YearProbeExact(b, s, y); }
    }
  }

  lemma FastYearsExact(b: Immich, s: Scope)
    requires MonthsExact(b, s) && TimelineMonths(b, s).Some?
    ensures Strict(IntGreater, FastYears(TimelineMonths(b, s).value))
    ensures forall y :: y in FastYears(TimelineMonths(b, s).value) <==> HasYear(b, s, y)
  {
    var months := TimelineMonths(b, s).value;
    Orders();
    DistinctStrict(IntGreater, Years(months));
    forall y
      ensures y in FastYears(months) <==> HasYear(b, s, y)
    {
      assert y in FastYears(months) <==> y in Years(months);
      if y in Years(months) {
        var i :| 0 <= i < |Years(months)| && Years(months)[i] == y;
        assert months[i] in b.months(s.favorite).value;
        assert HasMonth(b, s, months[i].y, months[i].m);
      }
      if HasYear(b, s, y) {
        var a :| a in b.lib && InScope(b, s, a) && a.when.date.y == y;
        var d := Date(y, a.when.date.m, 1);
        assert HasMonth(b, s, d.y, d.m);
        assert d in months;
        var i :| 0 <= i < |months| && months[i] == d;
        assert Years(months)[i] == y;
      }
    }
  }

  /** Whatever boundaries a view has, the year level lists every year that holds assets, and only years
    * that their search finds something in. */
  lemma YearListFound(b: Immich, s: Scope)
    requires Faithful(b) && PrintableYears(b, s) && MonthsExact(b, s)
    ensures YearList(b, s).Some?
    ensures forall y :: HasYear(b, s, y) ==> y in YearList(b, s).value
    ensures forall y :: y in YearList(b, s).value ==>
              1000 <= y <= 9998 && Spanned(b, s, y) && HasAssets(b, s, YearRange(y))
  {
    hide InScope, HasAssets, SlowYearList;
    forall y | HasYear(b, s, y)
      ensures Spanned(b, s, y) && 1000 <= y <= 9998 && HasAssets(b, s, YearRange(y)) && YearProbe(b, s)(y)
    {
      YearProbeExact(b, s, y);
    }
    if TimelineMonths(b, s).Some? { FastYearsExact(b, s); } else { SlowYearsFound(b, s); }
  }

  /** The year level lists exactly the years that hold assets, newest first, without repeats. */
  lemma YearListExact(b: Immich, s: Scope)
    requires Faithful(b) && ExactScope(b, s) && PrintableYears(b, s) && MonthsExact(b, s)
    ensures YearList(b, s).Some?
    ensures Strict(IntGreater, YearList(b, s).value)
    ensures forall y :: y in YearList(b, s).value <==> HasYear(b, s, y)
  {
    if TimelineMonths(b, s).Some? { FastYearsExact(b, s); } else { SlowYearsExact(b, s); }
  }

  // ---------- months ----------

  lemma {:induction false} FastMonthsFilter(months: seq<Date>, r: DateRange)
    requires Strict(DateGreater, months)
    ensures forall d :: d in FastMonths(months, r) <==> d in months && !DateLess(d, r.start) && DateLess(d, r.end)
    ensures Strict(DateGreater, FastMonths(months, r))
  {
    if months != [] {
      FastMonthsFilter(months[1..], r);
      assert forall d :: d in months <==> d == months[0] || d in months[1..];
      forall d | d in months[1..]
        ensures DateGreater(months[0], d)
      {
        var i :| 0 <= i < |months[1..]| && months[1..][i] == d;
        assert months[i + 1] == d;
      }
    }
  }

  /** The month's search finds something. */
  predicate MonthFound(b: Immich, s: Scope, y: int, m: int) {
    1 <= y < MAX_YEAR && 1 <= m <= 12 && HasAssets(b, s, MonthRange(y, m))
  }

  predicate FirstOf(d: Date, y: int) { d == Date(y, d.m, 1) && 1 <= d.m <= 12 }

  lemma FastMonthsExact(b: Immich, s: Scope, y: int)
    requires MonthsExact(b, s) && TimelineMonths(b, s).Some?
    ensures var months := FastMonths(TimelineMonths(b, s).value, YearRange(y));
            Strict(DateGreater, months) && forall d :: d in months <==> FirstOf(d, y) && HasMonth(b, s, y, d.m)
  {
    Orders();
    var all := TimelineMonths(b, s).value;
    DistinctStrict(DateGreater, b.months(s.favorite).value);
    FastMonthsFilter(all, YearRange(y));
    forall d
      ensures d in FastMonths(all, YearRange(y)) <==> FirstOf(d, y) && HasMonth(b, s, y, d.m)
    {
      assert d in all <==> d.d == 1 && HasMonth(b, s, d.y, d.m);
      if HasMonth(b, s, d.y, d.m) {
        var a :| a in b.lib && InScope(b, s, a) && a.when.date.y == d.y && a.when.date.m == d.m;
        assert 1 <= d.m <= 12;
      }
    }
  }

  /** Probing a year's months, whatever boundaries a view has: exactly those that their search finds
    * something in, when the scope holds anything. */
  lemma SlowMonthsFound(b: Immich, s: Scope, y: int)
    requires Faithful(b) && 1 <= y < MAX_YEAR
    ensures var months := SlowMonthList(b, s, YearRange(y));
            && Strict(DateGreater, months)
            && (forall d :: d in months ==> FirstOf(d, y) && MonthFound(b, s, y, d.m))
            && (forall d :: HoldsAny(b, s) && FirstOf(d, y) && MonthFound(b, s, y, d.m) ==> d in months)
  {
    hide InScope, HasAssets;
    var r := YearRange(y);
    var probe := MonthProbe(b, s, y);
    ProbedMonthsExact(probe, r, 12);
    DateBoundsExact(b, s);
    forall d
      ensures d in ProbedMonths(probe, r, 12) <==> FirstOf(d, y) && MonthFound(b, s, y, d.m)
    {
      assert d in ProbedMonths(probe, r, 12) <==> MonthListed(probe, r, 12, d);
    }
  }

  lemma SlowMonthsExact(b: Immich, s: Scope, y: int)
    requires Faithful(b) && ExactScope(b, s) && 1 <= y < MAX_YEAR
    ensures var months := SlowMonthList(b, s, YearRange(y));
            Strict(DateGreater, months) && forall d :: d in months <==> FirstOf(d, y) && HasMonth(b, s, y, d.m)
  {
    hide InScope, HasAssets, ExactScope, SlowMonthList;
    SlowMonthsFound(b, s, y);
    forall d | FirstOf(d, y)
      ensures MonthFound(b, s, y, d.m) <==> HasMonth(b, s, y, d.m)
      ensures HasMonth(b, s, y, d.m) ==> HoldsAny(b, s)
    {
      MonthProbeExact(b, s, y, d.m);
    }
  }

  /** Whatever boundaries a view has, the month level lists every month of the year that holds assets, and
    * only months that their search finds something in. */
  lemma MonthListFound(b: Immich, s: Scope, y: int)
    requires Faithful(b) && MonthsExact(b, s) && 1 <= y < MAX_YEAR
    ensures var months := MonthList(b, s, YearRange(y));
            && (forall d :: FirstOf(d, y) && HasMonth(b, s, y, d.m) ==> d in months)
            && (forall d :: d in months ==> FirstOf(d, y) && MonthFound(b, s, y, d.m))
            && (TimelineMonths(b, s).None? && HoldsAny(b, s) ==>
                  forall d :: FirstOf(d, y) && MonthFound(b, s, y, d.m) ==> d in months)
  {
    hide InScope, HasAssets, SlowMonthList;
    forall d | FirstOf(d, y) && HasMonth(b, s, y, d.m)
      ensures MonthFound(b, s, y, d.m) && HoldsAny(b, s)
    {
      MonthProbeExact(b, s, y, d.m);
    }
    if TimelineMonths(b, s).Some? { FastMonthsExact(b, s, y); } else { SlowMonthsFound(b, s, y); }
  }

  /** The month level of a year lists exactly its months that hold assets. */
  lemma MonthListExact(b: Immich, s: Scope, y: int)
    requires Faithful(b) && ExactScope(b, s) && MonthsExact(b, s) && 1 <= y < MAX_YEAR
    ensures var months := MonthList(b, s, YearRange(y));
            Strict(DateGreater, months) && forall d :: d in months <==> FirstOf(d, y) && HasMonth(b, s, y, d.m)
  {
    if TimelineMonths(b, s).Some? { FastMonthsExact(b, s, y); } else { SlowMonthsExact(b, s, y); }
  }

  /** The timeline endpoint is only an acceleration: its branch returns the very year list that
    * the bounds-and-probe fallback returns. */
  lemma FastYearsRefineSlow(b: Immich, s: Scope)
    requires Faithful(b) && ExactScope(b, s) && PrintableYears(b, s) && MonthsExact(b, s)
    requires TimelineMonths(b, s).Some?
    ensures YearList(b, s) == SlowYearList(b, s)
  {
    FastYearsExact(b, s);
    SlowYearsExact(b, s);
    YearsUnique(FastYears(TimelineMonths(b, s).value), SlowYearList(b, s).value);
  }

  lemma YearsUnique(s: seq<int>, t: seq<int>)
    requires Strict(IntGreater, s) && Strict(IntGreater, t) && forall y :: y in s <==> y in t
    ensures s == t
  {
    Orders();
    forall x
      ensures x in s <==> x in t
    {
    }
    StrictUnique(IntGreater, s, t);
  }

  /** And the very month list, for every year. */
  lemma FastMonthsRefineSlow(b: Immich, s: Scope, y: int)
    requires Faithful(b) && ExactScope(b, s) && MonthsExact(b, s) && 1 <= y < MAX_YEAR
    requires TimelineMonths(b, s).Some?
    ensures MonthList(b, s, YearRange(y)) == SlowMonthList(b, s, YearRange(y))
  {
    Orders();
    FastMonthsExact(b, s, y);
    SlowMonthsExact(b, s, y);
    StrictUnique(DateGreater, FastMonths(TimelineMonths(b, s).value, YearRange(y)), SlowMonthList(b, s, YearRange(y)));
  }

  // ---------- days and hours ----------

  /** The day level of a month, whatever boundaries a view has: the days of what the month's search finds. */
  lemma DayListFound(b: Immich, s: Scope, y: int, m: int)
    requires Faithful(b) && 1 <= y < MAX_YEAR && 1 <= m <= 12
    ensures var days := DayList(b, s, MonthRange(y, m));
            && Strict(DateGreater, days)
            && (forall d :: d in days ==>
                  exists a :: a in b.find(DayQuery(s, MonthRange(y, m), Newest)) && a.when.date == d)
            && (HoldsAny(b, s) ==>
                  forall a :: a in b.find(DayQuery(s, MonthRange(y, m), Newest)) ==> a.when.date in days)
  {
    hide InScope, DayQuery;
    Orders();
    DateBoundsExact(b, s);
    var found := b.find(DayQuery(s, MonthRange(y, m), Newest));
    DistinctStrict(DateGreater, DatesOf(found));
    forall a | a in found
      ensures a.when.date in DatesOf(found)
    {
      var i :| 0 <= i < |found| && found[i] == a;
      assert DatesOf(found)[i] == a.when.date;
    }
    forall d | d in DatesOf(found)
      ensures exists a :: a in found && a.when.date == d
    {
      var i :| 0 <= i < |DatesOf(found)| && DatesOf(found)[i] == d;
      assert found[i] in found;
    }
  }

  /** Every day of the month that holds assets is listed; a listed day of the month is found by its own
    * search; and with the month's search inside the month no other day is listed. */
  lemma DayListKeeps(b: Immich, s: Scope, y: int, m: int, d: Date)
    requires Faithful(b) && 1 <= y < MAX_YEAR && 1 <= m <= 12
    ensures d.y == y && d.m == m && HasDay(b, s, d) ==> d in DayList(b, s, MonthRange(y, m))
    ensures d in DayList(b, s, MonthRange(y, m)) ==> Valid(d)
    ensures d in DayList(b, s, MonthRange(y, m)) && d.y == y && d.m == m ==> HasAssets(b, s, DayRange(d))
    ensures d in DayList(b, s, MonthRange(y, m)) && InsideRange(b, s, MonthRange(y, m)) ==> d.y == y && d.m == m
  {
    hide InScope, DayQuery, DayList, InsideRange, HasAssets, ScopeRange, InRange;
    DayListFound(b, s, y, m);
    if d.y == y && d.m == m && HasDay(b, s, d) {
      var a :| a in b.lib && InScope(b, s, a) && a.when.date == d;
      RangeHolds(b, s, MonthRange(y, m), Newest, a);
      RangeFields(a, y, m);
    }
    if d in DayList(b, s, MonthRange(y, m)) {
      var a :| a in b.find(DayQuery(s, MonthRange(y, m), Newest)) && a.when.date == d;
      RangeHolds(b, s, MonthRange(y, m), Newest, a);
      RangeFields(a, y, m);
      if d.y == y && d.m == m { FoundDay(b, s, y, m, a); }
    }
  }

  /** What a month's search finds on one of its days that day's search finds too. */
  lemma FoundDay(b: Immich, s: Scope, y: int, m: int, a: Asset)
    requires Faithful(b) && 1 <= y < MAX_YEAR && 1 <= m <= 12
    requires a in b.find(DayQuery(s, MonthRange(y, m), Newest)) && a.when.date.y == y && a.when.date.m == m
    ensures HasAssets(b, s, DayRange(a.when.date))
  {
    var day := a.when.date;
    var month, r := MonthRange(y, m), DayRange(day);
    DayInMonth(day);
    DayFields(a, day);
    FindExact(b, DayQuery(s, month, Newest), a);
    FindExact(b, DayQuery(s, r, Unordered), a);
    if s.ViewScope? {
      StartFound(b.read, s.after, month.start, r.start, a.when);
      EndFound(b.read, s.before, r.end, month.end, a.when);
    }
  }

  lemma DayInMonth(day: Date)
    requires Valid(day) && day.y < MAX_YEAR
    ensures ValidRange(MonthRange(day.y, day.m)) && ValidRange(DayRange(day))
    ensures !DateLess(day, MonthRange(day.y, day.m).start) && !DateLess(MonthRange(day.y, day.m).end, NextDay(day))
  {
  }

  /** A later start finds what an earlier one finds from there on. */
  lemma StartFound(read: Reading, after: Option<string>, early: Date, late: Date, x: Instant)
    requires ReadsHours(read) && Valid(early) && Valid(late) && !DateLess(late, early)
    requires NotBefore(read, Some(NarrowedAfter(after, Show(IsoBoundary(early)))), x) && !DateLess(x.date, late)
    ensures NotBefore(read, Some(NarrowedAfter(after, Show(IsoBoundary(late)))), x)
  {
    hide Show, Less;
    assert OnTheHour(IsoBoundary(late)) && !Before(x, At(IsoBoundary(late)));
    if after.Some? && Less(Show(IsoBoundary(late)), after.value) {
      MidnightsSort(early, late);
      if early != late { LessTransitive(Show(IsoBoundary(early)), Show(IsoBoundary(late)), after.value); }
    }
  }

  /** An earlier end finds what a later one finds up to there. */
  lemma EndFound(read: Reading, before: Option<string>, early: Date, late: Date, x: Instant)
    requires ReadsHours(read) && Valid(early) && Valid(late) && !DateLess(late, early)
    requires StrictlyBefore(read, Some(NarrowedBefore(before, Show(IsoBoundary(late)))), x) && DateLess(x.date, early)
    ensures StrictlyBefore(read, Some(NarrowedBefore(before, Show(IsoBoundary(early)))), x)
  {
    hide Show, Less;
    assert OnTheHour(IsoBoundary(early)) && Before(x, At(IsoBoundary(early)));
    if before.Some? && Less(before.value, Show(IsoBoundary(early))) {
      MidnightsSort(early, late);
      if early != late { LessTransitive(before.value, Show(IsoBoundary(early)), Show(IsoBoundary(late))); }
    }
  }

  lemma MidnightsSort(early: Date, late: Date)
    requires Valid(early) && Valid(late) && !DateLess(late, early)
    ensures early == late || Less(Show(IsoBoundary(early)), Show(IsoBoundary(late)))
  {
    DateTextOrder(early, late, Tail(IsoBoundary(early)), Tail(IsoBoundary(late)));
  }

  /** The day level of a month lists exactly its days that hold assets. */
  lemma DayListExact(b: Immich, s: Scope, y: int, m: int)
    requires Faithful(b) && ExactScope(b, s) && 1 <= y < MAX_YEAR && 1 <= m <= 12
    ensures var days := DayList(b, s, MonthRange(y, m));
            Strict(DateGreater, days) && forall d :: d in days <==> d.y == y && d.m == m && HasDay(b, s, d)
  {
    hide InScope, DayQuery, DayList, InsideRange, HasAssets, ScopeRange, ExactScope, InRange;
    DayListFound(b, s, y, m);
    forall d
      ensures d in DayList(b, s, MonthRange(y, m)) <==> d.y == y && d.m == m && HasDay(b, s, d)
    {
      DayListKeeps(b, s, y, m, d);
      if d in DayList(b, s, MonthRange(y, m)) {
        var a :| a in b.find(DayQuery(s, MonthRange(y, m), Newest)) && a.when.date == d;
        RangeHolds(b, s, MonthRange(y, m), Newest, a);
        DayProbeExact(b, s, d);
      }
    }
  }

  /** The hour level of a day, whatever boundaries a view has: the hours of what the day's search finds. */
  lemma HourListFound(b: Immich, s: Scope, day: Date)
    requires Faithful(b) && Valid(day) && day != LAST_DATE
    ensures var hours := HourList(b, s, DayRange(day));
            && Strict(IntLess, hours)
            && (forall h :: h in hours ==>
                  exists a :: a in b.find(DayQuery(s, DayRange(day), Oldest)) && a.when.clock.hour == h)
            && (forall a :: a in b.find(DayQuery(s, DayRange(day), Oldest)) ==> a.when.clock.hour in hours)
            && (forall h :: HasHour(b, s, day, h) ==> h in hours)
  {
    hide InScope, DayQuery, InsideRange, ScopeRange, InRange;
    Orders();
    var found := b.find(DayQuery(s, DayRange(day), Oldest));
    DistinctStrict(IntLess, HoursOf(found));
    forall a | a in found
      ensures a.when.clock.hour in HoursOf(found)
    {
      var i :| 0 <= i < |found| && found[i] == a;
      assert HoursOf(found)[i] == a.when.clock.hour;
    }
    forall h | h in HoursOf(found)
      ensures exists a :: a in found && a.when.clock.hour == h
    {
      var i :| 0 <= i < |HoursOf(found)| && HoursOf(found)[i] == h;
      assert found[i] in found;
    }
    forall h | HasHour(b, s, day, h)
      ensures h in HoursOf(found)
    {
      var a :| a in b.lib && InScope(b, s, a) && a.when.date == day && a.when.clock.hour == h;
      RangeHolds(b, s, DayRange(day), Oldest, a);
      DayFields(a, day);
    }
  }

  /** The hour level of a day lists exactly its hours that hold assets. */
  lemma HourListExact(b: Immich, s: Scope, day: Date)
    requires Faithful(b) && ExactScope(b, s) && Valid(day) && day != LAST_DATE
    ensures var hours := HourList(b, s, DayRange(day));
            Strict(IntLess, hours) && forall h :: h in hours <==> HasHour(b, s, day, h)
  {
    hide DayQuery, InsideRange, ScopeRange, ExactScope, HourList, InRange;
    HourListFound(b, s, day);
    forall h | h in HourList(b, s, DayRange(day))
      ensures HasHour(b, s, day, h)
    {
      var a :| a in b.find(DayQuery(s, DayRange(day), Oldest)) && a.when.clock.hour == h;
      RangeHolds(b, s, DayRange(day), Oldest, a);
      DayFields(a, day);
      assert InScope(b, s, a) ==> a in b.lib;
    }
  }
}
