/** The leaves of a date tree partition the assets it projects: nothing lost, nothing twice. */
module Partition {
  import opened Calendar
  import opened FsModel
  import opened AssetNames
  import opened FsService
  import opened BucketLists
  import opened WebdavTree
  import opened TreeTheorems
  import opened MountTheorems
  import opened Descent
  import opened EmptyFolders

  /** A folder that lists files: an unsplit day, an hour of a split day, or a flat listing. */
  predicate Leaf(m: Mount, x: Resource)
    requires ValidResource(x)
  {
    || (x.Folder? && x.top.flat)
    || (x.Bucket? && |x.tail| == 3 && !ShouldSplit(m, x.top, x.range))
    || x.HourFolder?
  }

  /** The assets whose names the leaf lists. */
  function LeafAssets(m: Mount, x: Resource): seq<Asset>
    requires ValidResource(x) && Leaf(m, x)
  {
    if x.Folder? then m.immich.find(WholeQuery(x.top.scope, Oldest))
    else if x.Bucket? then m.immich.find(DayQuery(x.top.scope, x.range, Oldest))
    else m.immich.find(HourQuery(x.top.scope, x.hour, Oldest))
  }

  /** Where an asset belongs: its day, or its hour when the day is split. */
  function LeafTail(m: Mount, top: Tree, a: Asset): seq<string>
    requires Printable(a.when.date)
  {
    DayRangeStart(a.when.date);
    if ShouldSplit(m, top, DayRange(a.when.date)) then HourTail(a.when.date, a.when.clock.hour)
    else DayTail(a.when.date)
  }

  predicate InLeaf(m: Mount, top: Tree, a: Asset, names: seq<string>) {
    var found := Follow(m, Folder(top), names);
    found.Some? && Leaf(m, found.value) && a in LeafAssets(m, found.value)
  }

  /** Every asset of the scope is in the leaf its date names, whatever boundaries a view has. */
  lemma LeafHolds(m: Mount, top: Tree, a: Asset)
    requires MountOk(m) && TreeOk(m.immich, top) && !top.flat && InScope(m.immich, top.scope, a)
    ensures Printable(a.when.date)
    ensures InLeaf(m, top, a, LeafTail(m, top, a))
  {
    hide Faithful, NamesOk, MonthsExact, MemberNames, GetMember, InScope, HasYear, HasMonth, HasDay, HasHour,
      Follow, YearName, MonthName, DateText, HourName, ShouldSplit, DayQuery, HourQuery, InRange, HourList,
      InsideRange, ScopeRange, KeepsScope, ExactScope;
    AssetFields(m.immich, top.scope, a);
    HourBound(a);
    hide Printable;
    var day, h := a.when.date, a.when.clock.hour;
    ReachDay(m, top, a);
    DayRangeStart(day);
    DayFields(a, day);
    if ShouldSplit(m, top, DayRange(day)) {
      HourListFound(m.immich, top.scope, day);
      EnterHour(m, top, day, h);
      FollowMore(m, Folder(top), DayTail(day), HourName(h));
      HourHolds(m.immich, top.scope, HourRange(day, h), Oldest, a);
    } else {
      RangeHolds(m.immich, top.scope, DayRange(day), Oldest, a);
    }
  }

  // ---------- which boundaries show the scope alone ----------

  ghost predicate NeverEarly(read: Reading, own: string) { forall c :: OnTheHour(c) ==> NotEarly(read, own, c) }

  ghost predicate NeverLate(read: Reading, own: string) { forall c :: OnTheHour(c) ==> NotLate(read, own, c) }

  /** The searches of a view's buckets stay in its scope: none of its boundaries is replaced by a bucket's
    * that it is read after, as a start, or before, as an end. */
  ghost predicate HoursInScope(b: Immich, s: Scope) {
    s.ViewScope? ==>
      && (s.after.Some? ==> b.read(s.after.value).Some? && NeverLate(b.read, s.after.value))
      && (s.before.Some? ==> b.read(s.before.value).Some? && NeverEarly(b.read, s.before.value))
  }

  predicate ReadAtFullHour(read: Reading, own: string) { read(own).Some? ==> AtFullHour(read(own).value) }

  /** A boundary that may be so replaced cuts no hour in two. */
  ghost predicate WholeHours(b: Immich, s: Scope) {
    s.ViewScope? ==>
      && (s.after.Some? ==> ReadAtFullHour(b.read, s.after.value) || NeverLate(b.read, s.after.value))
      && (s.before.Some? ==> ReadAtFullHour(b.read, s.before.value) || NeverEarly(b.read, s.before.value))
  }

  /** The search of each hour that prints stays in that hour. */
  ghost predicate HoursInside(b: Immich, s: Scope) {
    forall hr: HourRange :: Printable(hr.day) && hr.hour < 24 ==> KeepsInside(b, s, HourStart(hr), HourEnd(hr))
  }

  /** How the view's boundaries have to sort for its leaves to show the scope alone, each asset once. */
  ghost predicate LeavesExact(b: Immich, s: Scope) { HoursInside(b, s) && NeverEmpty(b, s) && WholeHours(b, s) }

  lemma ExactLeaves(b: Immich, s: Scope)
    requires ExactScope(b, s)
    ensures LeavesExact(b, s) && HoursInScope(b, s)
  {
    hide KeepsInside, NotEarly, NotLate, NeverEmpty;
    ExactNeverEmpty(b, s);
    forall hr: HourRange | Printable(hr.day) && hr.hour < 24
      ensures KeepsInside(b, s, HourStart(hr), HourEnd(hr))
    {
      HourEnds(hr);
      ExactKeeps(b, s, HourStart(hr), HourEnd(hr));
    }
  }

  /** A day begins with its first hour and ends with its last. */
  lemma HoursInDay(b: Immich, s: Scope, day: Date)
    requires HoursInside(b, s) && Printable(day)
    ensures InsideRange(b, s, DayRange(day))
  {
    hide NotEarly, NotLate;
    assert KeepsInside(b, s, HourStart(HourRange(day, 0)), HourEnd(HourRange(day, 0)));
    assert KeepsInside(b, s, HourStart(HourRange(day, 23)), HourEnd(HourRange(day, 23)));
  }

  /** A boundary at a full hour does not come within an hour that holds an asset of the scope. */
  lemma InhabitedHourKeeps(b: Immich, s: Scope, hr: HourRange)
    requires WholeHours(b, s) && Printable(hr.day) && hr.hour < 24 && HasHour(b, s, hr.day, hr.hour)
    ensures KeepsScope(b, s, HourStart(hr), HourEnd(hr))
  {
    var a :| a in b.lib && InScope(b, s, a) && a.when.date == hr.day && a.when.clock.hour == hr.hour;
    HourEnds(hr);
    WithinHour(a, hr);
    if s.ViewScope? && s.after.Some? && ReadAtFullHour(b.read, s.after.value) {
      FullHourOutside(hr, b.read(s.after.value).value);
    }
    if s.ViewScope? && s.before.Some? && ReadAtFullHour(b.read, s.before.value) {
      FullHourOutside(hr, b.read(s.before.value).value);
    }
  }

  lemma FullHourOutside(hr: HourRange, i: Instant)
    requires Printable(hr.day) && hr.hour < 24 && AtFullHour(i)
    ensures !Before(At(HourStart(hr)), i) || !Before(i, At(HourEnd(hr)))
  {
    if Before(At(HourStart(hr)), i) { NextHour(hr, SecondBound(i.date, i.clock)); }
  }

  /** A dated view that shows nothing out of its scope shows what its flat layout shows. */
  lemma LeafInScope(m: Mount, top: Tree, a: Asset, names: seq<string>)
    requires Faithful(m.immich) && HoursInScope(m.immich, top.scope) && InLeaf(m, top, a, names)
    ensures InScope(m.immich, top.scope, a)
  {
    hide Follow, ShouldSplit, InScope, InRange, NotLate, NotEarly, DayQuery, HourQuery, WholeQuery, Faithful,
      ExactScope;
    FollowTop(m, top, names);
    var x := Follow(m, Folder(top), names).value;
    match x
    case Folder(_) => WholeFinds(m.immich, top.scope, Oldest, a);
    case Bucket(_, _, r) => RangeHolds(m.immich, top.scope, r, Oldest, a);
    case HourFolder(_, _, hr) =>
      HourEnds(hr);
      HourHolds(m.immich, top.scope, hr, Oldest, a);
    case _ =>
  }

  /** Where no folder is empty and no boundary cuts an hour, whatever reaches a leaf keeps its search in
    * scope: an asset of the scope in a day, or in an hour. */
  lemma InhabitedInScope(m: Mount, top: Tree, a: Asset, names: seq<string>)
    requires MountOk(m) && Mounted(m, top) && TreeOk(m.immich, top) && InLeaf(m, top, a, names)
    requires NeverEmpty(m.immich, top.scope) && WholeHours(m.immich, top.scope)
    ensures InScope(m.immich, top.scope, a)
  {
    hide MountOk, Mounted, TreeOk, NeverEmpty, WholeHours, MonthsInside, Follow, ShouldSplit, InScope, DayQuery,
      HourQuery, WholeQuery, KeepsScope, HasHour, HasDay, HasMonth, HasYear, CanonBucket, DayRange;
    NeverEmptyMonths(m.immich, top.scope);
    FollowTree(m, top, names);
    FollowInhabited(m, top, names);
    FaithfulMount(m);
    var x := Follow(m, Folder(top), names).value;
    match x
    case Folder(_) => WholeFinds(m.immich, top.scope, Oldest, a);
    case Bucket(_, tail, r) =>
      DayBucketRange(m, top, tail, r);
      InhabitedDayKeeps(m.immich, top.scope, r.start);
      RangeHolds(m.immich, top.scope, r, Oldest, a);
    case HourFolder(_, _, hr) =>
      InhabitedHourKeeps(m.immich, top.scope, hr);
      HourHolds(m.immich, top.scope, hr, Oldest, a);
    case _ =>
  }

  lemma InhabitedDayKeeps(b: Immich, s: Scope, day: Date)
    requires ReadsHours(b.read) && NeverEmpty(b, s) && Printable(day) && HasDay(b, s, day)
    ensures ScopeRange(b, s, DayRange(day))
  {
    hide InsideRange, ScopeRange, InScope, Meets, ReadsHours;
    var a :| a in b.lib && InScope(b, s, a) && a.when.date == day;
    DayFields(a, day);
    ScopeMeets(b, s, DayRange(day), a);
  }

  /** An asset in a leaf reached by listed names is in scope, and the names are its own. */
  lemma LeafIsOwn(m: Mount, top: Tree, a: Asset, names: seq<string>)
    requires MountOk(m) && Mounted(m, top) && !top.flat && TreeOk(m.immich, top) && LeavesExact(m.immich, top.scope)
    requires InLeaf(m, top, a, names)
    ensures InScope(m.immich, top.scope, a) && Printable(a.when.date) && names == LeafTail(m, top, a)
  {
    hide TreeOk, MonthsInside, HoursInside, NeverEmpty, WholeHours, NamesOk, Faithful, Mounted, MemberNames,
      GetMember, InScope, HasAssets, Follow, YearName, MonthName, DateText, HourName, ShouldSplit, DayQuery,
      HourQuery, DayRange, InRange, InsideRange, ScopeRange, KeepsScope, KeepsInside;
    InhabitedInScope(m, top, a, names);
    NeverEmptyMonths(m.immich, top.scope);
    FollowTree(m, top, names);
    var x := Follow(m, Folder(top), names).value;
    if x.Bucket? {
      DayBucketRange(m, top, x.tail, x.range);
      HoursInDay(m.immich, top.scope, x.range.start);
      RangeHolds(m.immich, top.scope, x.range, Oldest, a);
      DayFields(a, x.range.start);
    } else {
      HourInside(m.immich, top.scope, x.hour);
      HourHolds(m.immich, top.scope, x.hour, Oldest, a);
    }
  }

  lemma HourInside(b: Immich, s: Scope, hr: HourRange)
    requires HoursInside(b, s) && Printable(hr.day) && hr.hour < 24
    ensures KeepsInside(b, s, HourStart(hr), HourEnd(hr))
  {
  }

  lemma DayBucketRange(m: Mount, top: Tree, tail: seq<string>, r: DateRange)
    requires |tail| == 3 && CanonBucket(m.immich, top.scope, tail, r)
    ensures Printable(r.start) && r == DayRange(r.start) && tail == DayTail(r.start)
  {
    hide HasAssets, DayRange, YearName, MonthName, DateText;
  }

  /** Main result: an asset is shown by a leaf reached by listed names exactly when the scope holds
    * it and the names are the one path of its date. So each asset of the scope is in one leaf,
    * and no leaf holds anything else. */
  lemma Partitioned(m: Mount, top: Tree, a: Asset, names: seq<string>)
    requires MountOk(m) && Mounted(m, top) && !top.flat && TreeOk(m.immich, top) && LeavesExact(m.immich, top.scope)
    ensures InLeaf(m, top, a, names)
       <==> (InScope(m.immich, top.scope, a) && Printable(a.when.date) && names == LeafTail(m, top, a))
  {
    hide MountOk, Mounted, TreeOk, LeavesExact, InLeaf, InScope, LeafTail, Printable;
    if InScope(m.immich, top.scope, a) {
      LeafHolds(m, top, a);
    }
    if InLeaf(m, top, a, names) {
      LeafIsOwn(m, top, a, names);
    }
  }

  /** Layouts agree: a saved view shows an asset in its date tree exactly when the flat layout of
    * the same filters does, the view's own window included. Whatever the boundaries, the date tree shows
    * all that the flat layout does; the converse needs one side of their order, or boundaries that cut no
    * hour and empty no folder. */
  lemma LayoutsAgree(m: Mount, dated: Tree, flat: Tree, a: Asset)
    requires MountOk(m) && TreeOk(m.immich, dated) && !dated.flat && flat.flat && dated.scope == flat.scope
    ensures a in LeafAssets(m, Folder(flat)) ==> exists names :: InLeaf(m, dated, a, names)
    ensures HoursInScope(m.immich, dated.scope)
            || (Mounted(m, dated) && NeverEmpty(m.immich, dated.scope) && WholeHours(m.immich, dated.scope)) ==>
              (a in LeafAssets(m, Folder(flat)) <==> exists names :: InLeaf(m, dated, a, names))
  {
    hide TreeOk, NamesOk, Faithful, Mounted, Follow, InLeaf, InScope, LeafTail, Printable, WholeQuery, HoursInScope,
      NeverEmpty, WholeHours;
    WholeFinds(m.immich, flat.scope, Oldest, a);
    if InScope(m.immich, dated.scope, a) {
      LeafHolds(m, dated, a);
    }
    if names :| InLeaf(m, dated, a, names) {
      if HoursInScope(m.immich, dated.scope) {
        LeafInScope(m, dated, a, names);
      } else if Mounted(m, dated) && NeverEmpty(m.immich, dated.scope) && WholeHours(m.immich, dated.scope) {
        InhabitedInScope(m, dated, a, names);
      }
    }
  }
}
