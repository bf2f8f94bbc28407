/** No bucket folder is empty: for which boundaries of a saved view that holds. */
module EmptyFolders {
  import opened Calendar
  import opened FsModel
  import opened AssetNames
  import opened FsService
  import opened BucketLists
  import opened WebdavTree
  import opened TreeTheorems
  import opened MountTheorems
  import opened Descent

  /** The window of the view's boundaries reaches into the range. */
  predicate Meets(b: Immich, s: Scope, r: DateRange)
    requires ValidRange(r)
  {
    s.ViewScope? ==>
      && (s.after.Some? ==> b.read(s.after.value).Some? && Before(b.read(s.after.value).value, At(IsoBoundary(r.end))))
      && (s.before.Some? ==>
          b.read(s.before.value).Some? && Before(At(IsoBoundary(r.start)), b.read(s.before.value).value))
  }

  /** How the view's boundaries have to sort among the midnights: no search of a day or a month strays from
    * it; and where the window reaches into a day, or into the year of a month, its search stays in scope. */
  ghost predicate NeverEmpty(b: Immich, s: Scope) {
    && (forall d :: Printable(d) ==>
          && InsideRange(b, s, DayRange(d))
          && (Meets(b, s, DayRange(d)) ==> ScopeRange(b, s, DayRange(d))))
    && (forall y, m :: 1000 <= y <= 9998 && 1 <= m <= 12 && Meets(b, s, YearRange(y)) ==>
          ScopeRange(b, s, MonthRange(y, m)))
  }

  lemma ExactNeverEmpty(b: Immich, s: Scope)
    requires ExactScope(b, s)
    ensures NeverEmpty(b, s)
  {
    hide ExactScope, KeepsInside, KeepsScope, Meets;
    forall r: DateRange | ValidRange(r)
      ensures InsideRange(b, s, r) && ScopeRange(b, s, r)
    {
      ExactKeeps(b, s, IsoBoundary(r.start), IsoBoundary(r.end));
    }
  }

  /** A month's and a year's search begins with that of its first day and ends with that of its last. */
  lemma DaysInside(b: Immich, s: Scope, y: int, m: int)
    requires NeverEmpty(b, s) && 1000 <= y <= 9998 && 1 <= m <= 12
    ensures InsideRange(b, s, MonthRange(y, m)) && InsideRange(b, s, YearRange(y))
  {
    hide NotEarly, NotLate, ScopeRange, Meets;
    var first, last := Date(y, m, 1), Date(y, m, DaysInMonth(y, m));
    assert InsideRange(b, s, DayRange(first)) && InsideRange(b, s, DayRange(last));
    var newYear, eve := Date(y, 1, 1), Date(y, 12, 31);
    assert InsideRange(b, s, DayRange(newYear)) && InsideRange(b, s, DayRange(eve));
    assert DayRange(last).end == MonthRange(y, m).end && DayRange(eve).end == YearRange(y).end;
  }

  lemma NeverEmptyMonths(b: Immich, s: Scope)
    requires NeverEmpty(b, s)
    ensures MonthsInside(b, s)
  {
    hide NeverEmpty, InsideRange;
    forall y, m | 1000 <= y <= 9998 && 1 <= m <= 12
      ensures InsideRange(b, s, MonthRange(y, m))
    {
      DaysInside(b, s, y, m);
    }
  }

  lemma ScopeMeets(b: Immich, s: Scope, r: DateRange, a: Asset)
    requires ReadsHours(b.read) && ValidRange(r) && InScope(b, s, a) && InRange(a, r)
    ensures Meets(b, s, r)
  {
  }

  // ---------- level by level ----------

  /** An asset of a listed year that is out of scope lies before or after the window, on the same side as
    * none of those that span the year. */
  lemma YearInhabited(b: Immich, s: Scope, y: int)
    requires Faithful(b) && NeverEmpty(b, s) && 1000 <= y <= 9998 && Spanned(b, s, y) && HasAssets(b, s, YearRange(y))
    ensures HasYear(b, s, y)
  {
    hide NeverEmpty, InsideRange, ScopeRange, DayQuery, WholeQuery;
    var g := b.find(DayQuery(s, YearRange(y), Unordered))[0];
    DaysInside(b, s, y, 1);
    RangeHolds(b, s, YearRange(y), Unordered, g);
    RangeFields(g, y, 1);
    var first :| first in b.lib && InScope(b, s, first) && first.when.date.y <= y;
    var last :| last in b.lib && InScope(b, s, last) && y <= last.when.date.y;
    FoundBetween(b, s, YearRange(y), g, first, last);
  }

  lemma FoundBetween(b: Immich, s: Scope, r: DateRange, g: Asset, first: Asset, last: Asset)
    requires Faithful(b) && ValidRange(r) && g in b.find(DayQuery(s, r, Unordered))
    requires InScope(b, s, first) && InScope(b, s, last)
    ensures InScope(b, s, g) || Before(g.when, first.when) || !Before(g.when, last.when)
  {
    FindExact(b, DayQuery(s, r, Unordered), g);
  }

  lemma MonthInhabited(b: Immich, s: Scope, y: int, m: int)
    requires Faithful(b) && NeverEmpty(b, s) && 1000 <= y <= 9998 && 1 <= m <= 12
    requires HasYear(b, s, y) && HasAssets(b, s, MonthRange(y, m))
    ensures HasMonth(b, s, y, m)
  {
    hide NeverEmpty, InsideRange, ScopeRange, DayQuery, InScope, Meets;
    var g := b.find(DayQuery(s, MonthRange(y, m), Unordered))[0];
    MonthScope(b, s, y, m);
    DaysInside(b, s, y, m);
    RangeHolds(b, s, MonthRange(y, m), Unordered, g);
    RangeFields(g, y, m);
    InScopeHeld(b, s, g);
  }

  lemma InScopeHeld(b: Immich, s: Scope, a: Asset)
    requires InScope(b, s, a)
    ensures a in b.lib
  {
  }

  lemma MonthScope(b: Immich, s: Scope, y: int, m: int)
    requires Faithful(b) && NeverEmpty(b, s) && 1000 <= y <= 9998 && 1 <= m <= 12 && HasYear(b, s, y)
    ensures ScopeRange(b, s, MonthRange(y, m))
  {
    hide InsideRange, ScopeRange, InScope, Meets, InRange;
    var a :| a in b.lib && InScope(b, s, a) && a.when.date.y == y;
    RangeFields(a, y, 1);
    ScopeMeets(b, s, YearRange(y), a);
  }

  lemma DayInhabited(b: Immich, s: Scope, y: int, m: int, d: Date)
    requires Faithful(b) && NeverEmpty(b, s) && 1000 <= y <= 9998 && 1 <= m <= 12
    requires HasYear(b, s, y) && d in DayList(b, s, MonthRange(y, m))
    ensures HasDay(b, s, d)
  {
    hide NeverEmpty, InsideRange, ScopeRange, DayQuery, InScope, DayList;
    DayListFound(b, s, y, m);
    var g :| g in b.find(DayQuery(s, MonthRange(y, m), Newest)) && g.when.date == d;
    MonthScope(b, s, y, m);
    RangeHolds(b, s, MonthRange(y, m), Newest, g);
    InScopeHeld(b, s, g);
  }

  lemma HourInhabited(b: Immich, s: Scope, day: Date, h: nat)
    requires Faithful(b) && NeverEmpty(b, s) && Printable(day)
    requires HasDay(b, s, day) && h in HourList(b, s, DayRange(day))
    ensures HasHour(b, s, day, h)
  {
    hide InsideRange, ScopeRange, DayQuery, InScope, HourList, Meets, InRange;
    HourListFound(b, s, day);
    var g :| g in b.find(DayQuery(s, DayRange(day), Oldest)) && g.when.clock.hour == h;
    var a :| a in b.lib && InScope(b, s, a) && a.when.date == day;
    DayFields(a, day);
    ScopeMeets(b, s, DayRange(day), a);
    RangeHolds(b, s, DayRange(day), Oldest, g);
    DayFields(g, day);
    InScopeHeld(b, s, g);
  }

  // ---------- down the tree ----------

  ghost predicate Inhabited(m: Mount, x: Resource) {
    match x
    case Bucket(top, tail, r) =>
      && HasYear(m.immich, top.scope, r.start.y)
      && (|tail| == 2 ==> HasMonth(m.immich, top.scope, r.start.y, r.start.m))
      && (|tail| == 3 ==> HasDay(m.immich, top.scope, r.start))
    case HourFolder(top, _, hr) => HasHour(m.immich, top.scope, hr.day, hr.hour)
    case _ => true
  }

  lemma StepInhabited(m: Mount, x: Resource, name: string)
    requires InTree(x) && ValidResource(x) && Canon(m, x) && Inhabited(m, x)
    requires MountOk(m) && TreeOk(m.immich, x.top) && NeverEmpty(m.immich, x.top.scope)
    requires name in MemberNames(m, x) && GetMember(m, x, name).Some?
    ensures Inhabited(m, GetMember(m, x, name).value)
  {
    hide MountOk, TreeOk, NeverEmpty, GetMember, HasYear, HasMonth, HasDay, HasHour, HasAssets, YearNames,
      MonthNames, DayNames, HourNames, AssetsIn, AssetsInHour, AllAssetsOf, ShouldSplit, YearName, MonthName,
      DateText, DayList, HourList, YearList, InsideRange;
    match x
    case Folder(top) =>
      if top.flat || name !in YearNames(m, top) { FolderFile(m, top, name); }
      else {
        var y := StepYear(m, top, name);
        ListedYear(m, top, y);
      }
    case Bucket(top, tail, r) =>
      NeverEmptyMonths(m.immich, top.scope);
      if |tail| == 1 {
        var mo := StepMonth(m, top, r.start.y, name);
        FaithfulMount(m);
        MonthInhabited(m.immich, top.scope, r.start.y, mo);
      } else if |tail| == 2 {
        var d := StepDay(m, top, r.start.y, r.start.m, name);
        FaithfulMount(m);
        DayInhabited(m.immich, top.scope, r.start.y, r.start.m, d);
        DayHasYear(m.immich, top.scope, d);
        DayRangeStart(d);
      } else if ShouldSplit(m, top, r) {
        var h := StepHour(m, top, r.start, name);
        FaithfulMount(m);
        HourInhabited(m.immich, top.scope, r.start, h);
      } else {
        DayFile(m, top, tail, r, name);
      }
    case HourFolder(top, tail, hr) => MemberOfHour(m, top, tail, hr, name);
    case _ =>
  }

  lemma FaithfulMount(m: Mount)
    requires MountOk(m)
    ensures Faithful(m.immich)
  {
  }

  lemma ListedYear(m: Mount, top: Tree, y: nat)
    requires MountOk(m) && TreeOk(m.immich, top) && NeverEmpty(m.immich, top.scope)
    requires YearList(m.immich, top.scope).Some? && y in YearList(m.immich, top.scope).value
    ensures HasYear(m.immich, top.scope, y)
  {
    hide Faithful, NamesOk, NeverEmpty, YearList, Spanned, HasAssets, PrintableYears, MonthsExact, HasYear;
    YearListFound(m.immich, top.scope);
    YearInhabited(m.immich, top.scope, y);
  }

  lemma DayHasYear(b: Immich, s: Scope, d: Date)
    requires HasDay(b, s, d)
    ensures HasYear(b, s, d.y)
  {
  }

  lemma FolderFile(m: Mount, top: Tree, name: string)
    requires top.flat || name !in YearNames(m, top)
    requires GetMember(m, Folder(top), name).Some?
    ensures GetMember(m, Folder(top), name).value.AssetFile? || GetMember(m, Folder(top), name).value.Readme?
  {
    hide YearNames, AllAssetsOf, TailRange, MountMember, BucketMember;
  }

  lemma DayFile(m: Mount, top: Tree, tail: seq<string>, r: DateRange, name: string)
    requires |tail| == 3 && ValidResource(Bucket(top, tail, r)) && !ShouldSplit(m, top, r)
    requires GetMember(m, Bucket(top, tail, r), name).Some?
    ensures GetMember(m, Bucket(top, tail, r), name).value.AssetFile?
  {
    hide GetMember, AssetsIn, ShouldSplit;
    LookupDayFile(m, top, tail, r, name);
  }

  lemma {:induction false} FollowInhabited(m: Mount, top: Tree, names: seq<string>)
    requires MountOk(m) && Mounted(m, top) && TreeOk(m.immich, top) && NeverEmpty(m.immich, top.scope)
    requires Follow(m, Folder(top), names).Some?
    ensures Inhabited(m, Follow(m, Folder(top), names).value)
  {
    hide MountOk, Mounted, TreeOk, NeverEmpty, MonthsInside, Inhabited, Canon, MemberNames, GetMember;
    if names == [] {
      FolderInhabited(m, top);
    } else {
      var init, last := names[..|names| - 1], names[|names| - 1];
      FollowInhabited(m, top, init);
      NeverEmptyMonths(m.immich, top.scope);
      FollowTree(m, top, init);
      var x := Follow(m, Folder(top), init).value;
      if x.Readme? { NothingBelowFile(m, x); } else { StepInhabited(m, x, last); }
    }
  }

  lemma FolderInhabited(m: Mount, top: Tree)
    ensures Inhabited(m, Folder(top))
  {
  }

  /** The asset was taken in the folder's range or hour. */
  predicate TakenIn(x: Resource, a: Asset) {
    (x.Bucket? && InRange(a, x.range)) || (x.HourFolder? && InHour(a, x.hour))
  }

  ghost predicate Empty(m: Mount, top: Tree, x: Resource) {
    forall a :: a in m.immich.lib && InScope(m.immich, top.scope, a) ==> !TakenIn(x, a)
  }

  /** No listed bucket is empty, for boundaries that sort as NeverEmpty says. */
  lemma NoEmptyBucket(m: Mount, top: Tree, names: seq<string>)
    requires MountOk(m) && Mounted(m, top) && TreeOk(m.immich, top) && NeverEmpty(m.immich, top.scope)
    requires var x := Follow(m, Folder(top), names); x.Some? && (x.value.Bucket? || x.value.HourFolder?)
    ensures !Empty(m, top, Follow(m, Folder(top), names).value)
  {
    hide MountOk, Mounted, TreeOk, NeverEmpty, MonthsInside, Follow, HasAssets, ShouldSplit;
    NeverEmptyMonths(m.immich, top.scope);
    FollowTree(m, top, names);
    FollowInhabited(m, top, names);
    var x := Follow(m, Folder(top), names).value;
    if x.Bucket? { BucketInhabited(m, top, x.tail, x.range); } else { HourTaken(m, top, x.hour); }
  }

  lemma BucketInhabited(m: Mount, top: Tree, tail: seq<string>, r: DateRange)
    requires CanonBucket(m.immich, top.scope, tail, r) && Inhabited(m, Bucket(top, tail, r))
    ensures exists a :: a in m.immich.lib && InScope(m.immich, top.scope, a) && InRange(a, r)
  {
    hide YearName, MonthName, DateText, InScope, HasAssets;
    var start := r.start;
    if |tail| == 1 {
      var a :| a in m.immich.lib && InScope(m.immich, top.scope, a) && a.when.date.y == start.y;
      RangeFields(a, start.y, 1);
    } else if |tail| == 2 {
      var a :| a in m.immich.lib && InScope(m.immich, top.scope, a) && a.when.date.y == start.y
        && a.when.date.m == start.m;
      RangeFields(a, start.y, start.m);
    } else {
      var a :| a in m.immich.lib && InScope(m.immich, top.scope, a) && a.when.date == start;
      DayFields(a, start);
    }
  }

  lemma HourTaken(m: Mount, top: Tree, hr: HourRange)
    requires HasHour(m.immich, top.scope, hr.day, hr.hour)
    ensures exists a :: a in m.immich.lib && InScope(m.immich, top.scope, a) && InHour(a, hr)
  {
    hide InScope;
    var a :| a in m.immich.lib && InScope(m.immich, top.scope, a) && a.when.date == hr.day
      && a.when.clock.hour == hr.hour;
    assert InHour(a, hr);
  }
}
