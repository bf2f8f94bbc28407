/** Saved views whose boundaries sort otherwise than they are read, as texts with an offset may: which names
  * their trees then list that nothing finds, and which folders are empty. */
module ViewBoundaries {
  import opened Wrappers
  import opened Text
  import opened Calendar
  import opened FsModel
  import opened AssetNames
  import opened FsService
  import opened BucketLists
  import opened WebdavTree
  import opened TreeTheorems
  import opened MountTheorems
  import opened Descent
  import opened EmptyFolders
  import opened FilePaths
  import opened ListedPaths
  import opened ReferenceImmich

  // ---------- a mount with one saved view ----------

  function AssetAt(id: string, when: Instant): Asset
    requires ValidInstant(when)
  {
    Metadata(id, "", "", when)
  }

  function DatedView(s: Scope): Tree { Tree(["Views", "View"], s, false) }

  /** Each day that its search finds something in is split, or none is. */
  function ViewMount(read: Reading, s: Scope, library: seq<Asset>, splits: bool): Mount {
    var k := Backend(library, (base: Base, a: Asset) => true, read, (q: Query) => None, (favorite: bool) => true);
    Mount(ImmichOf(k), if splits then 0 else 1, {"Views"}, [], [("View", DatedView(s))], {})
  }

  lemma ViewMountOk(read: Reading, s: Scope, library: seq<Asset>, splits: bool)
    requires ReadsHours(read) && s.ViewScope? && PrintableLibrary(library)
    ensures var m := ViewMount(read, s, library, splits);
            && MountOk(m) && Mounted(m, DatedView(s)) && TreeOk(m.immich, DatedView(s)) && m.immich.read == read
  {
    hide Faithful, ReadsHours, TreeOk, MountOk, PrintableLibrary, Found;
    var m := ViewMount(read, s, library, splits);
    var k := Backend(library, (base: Base, a: Asset) => true, read, (q: Query) => None, (favorite: bool) => true);
    assert Segments.Safe("View", 4);
    MountExists(k, m.dayThreshold, m.enabled, m.albums, m.views, m.receipts);
    assert MountOk(m) && TreeOk(m.immich, DatedView(s));
    assert ByName(m.views, "View") == Some(DatedView(s));
  }

  lemma ViewMountFinds(read: Reading, s: Scope, library: seq<Asset>, splits: bool, q: Query, a: Asset)
    requires ReadsHours(read) && s.ViewScope? && PrintableLibrary(library)
    ensures var m := ViewMount(read, s, library, splits);
            && (a in m.immich.find(q) <==>
                a in library && NotBefore(read, q.after, a.when) && StrictlyBefore(read, q.before, a.when))
            && (InScope(m.immich, s, a) <==>
                a in library && NotBefore(read, s.after, a.when) && StrictlyBefore(read, s.before, a.when))
            && (a in m.immich.lib <==> a in library)
  {
    hide Faithful, ReadsHours, PrintableLibrary, Found, NotBefore, StrictlyBefore;
    var k := Backend(library, (base: Base, a: Asset) => true, read, (q: Query) => None, (favorite: bool) => true);
    LibraryDistinct(library);
    ImmichOfFaithful(k);
    FindExact(ImmichOf(k), q, a);
  }

  lemma LibraryDistinct(library: seq<Asset>)
    requires PrintableLibrary(library)
    ensures DistinctIds(library)
  {
  }

  lemma ViewMountSplits(read: Reading, s: Scope, library: seq<Asset>, splits: bool, r: DateRange)
    requires ValidRange(r)
    ensures var m := ViewMount(read, s, library, splits);
            ShouldSplit(m, DatedView(s), r) <==> splits && HasAssets(m.immich, s, r)
  {
    hide Found;
  }

  // ---------- what a search finds is listed ----------

  /** In a year that holds an asset of the scope every month is entered that its search finds something in,
    * and lists the days of what it finds. */
  lemma FoundMonthReached(m: Mount, top: Tree, x: Asset, mo: nat, g: Asset)
    requires MountOk(m) && TreeOk(m.immich, top) && !top.flat && top.scope.ViewScope?
    requires InScope(m.immich, top.scope, x) && Printable(x.when.date) && 1 <= mo <= 12
    requires g in m.immich.find(DayQuery(top.scope, MonthRange(x.when.date.y, mo), Newest))
    ensures var y := x.when.date.y;
            && ValidResource(Bucket(top, MonthTail(y, mo), MonthRange(y, mo)))
            && Follow(m, Folder(top), MonthTail(y, mo)) == Some(Bucket(top, MonthTail(y, mo), MonthRange(y, mo)))
            && g.when.date in DayList(m.immich, top.scope, MonthRange(y, mo))
  {
    hide MountOk, TreeOk, Follow, MemberNames, GetMember, InScope, MonthList, DayList, YearName, MonthName,
      DayQuery;
    var y := x.when.date.y;
    ReachYear(m, top, x);
    ListedMonthDays(m, top, x, mo, g);
    EnterListedMonth(m, top, y, mo);
    FollowMore(m, Folder(top), YearTail(y), MonthName(y, mo));
    assert YearTail(y) + [MonthName(y, mo)] == MonthTail(y, mo);
  }

  lemma ListedMonthDays(m: Mount, top: Tree, x: Asset, mo: nat, g: Asset)
    requires MountOk(m) && TreeOk(m.immich, top) && top.scope.ViewScope?
    requires InScope(m.immich, top.scope, x) && Printable(x.when.date) && 1 <= mo <= 12
    requires g in m.immich.find(DayQuery(top.scope, MonthRange(x.when.date.y, mo), Newest))
    ensures var y := x.when.date.y;
            && Date(y, mo, 1) in MonthList(m.immich, top.scope, YearRange(y))
            && g.when.date in DayList(m.immich, top.scope, MonthRange(y, mo))
  {
    hide NamesOk, Faithful, TreeOk, InScope, MonthList, DayList, DayQuery;
    var y := x.when.date.y;
    ScopeHolds(m.immich, top.scope, x);
    AnyOrder(m.immich, top.scope, MonthRange(y, mo), g);
    MonthsListed(m, top, y);
    assert FirstOf(Date(y, mo, 1), y);
    DayListFound(m.immich, top.scope, y, mo);
  }

  lemma MonthsListed(m: Mount, top: Tree, y: int)
    requires MountOk(m) && TreeOk(m.immich, top) && top.scope.ViewScope? && HoldsAny(m.immich, top.scope)
    requires 1 <= y < MAX_YEAR
    ensures forall d :: FirstOf(d, y) && MonthFound(m.immich, top.scope, y, d.m) ==>
              d in MonthList(m.immich, top.scope, YearRange(y))
  {
    hide NamesOk, Faithful, HasAssets, MonthList, HasMonth;
    MonthListFound(m.immich, top.scope, y);
  }

  lemma ScopeHolds(b: Immich, s: Scope, a: Asset)
    requires InScope(b, s, a)
    ensures HoldsAny(b, s)
  {
    assert a in b.lib;
  }

  /** The order asked for does not decide what is found. */
  lemma AnyOrder(b: Immich, s: Scope, r: DateRange, a: Asset)
    requires Faithful(b) && ValidRange(r)
    requires a in b.find(DayQuery(s, r, Newest)) || a in b.find(DayQuery(s, r, Oldest))
    ensures HasAssets(b, s, r)
    ensures a in b.find(DayQuery(s, r, Newest)) && a in b.find(DayQuery(s, r, Oldest))
  {
    FindExact(b, DayQuery(s, r, Newest), a);
    FindExact(b, DayQuery(s, r, Oldest), a);
    FindExact(b, DayQuery(s, r, Unordered), a);
  }

  /** A day of that month with something found on it is entered. */
  lemma FoundDayReached(m: Mount, top: Tree, x: Asset, g: Asset)
    requires MountOk(m) && TreeOk(m.immich, top) && !top.flat && top.scope.ViewScope?
    requires InScope(m.immich, top.scope, x) && Printable(x.when.date) && g.when.date.y == x.when.date.y
    requires g in m.immich.find(DayQuery(top.scope, MonthRange(g.when.date.y, g.when.date.m), Newest))
    ensures Printable(g.when.date)
    ensures Follow(m, Folder(top), DayTail(g.when.date))
         == Some(Bucket(top, DayTail(g.when.date), DayRange(g.when.date)))
  {
    hide NamesOk, Faithful, TreeOk, Follow, MemberNames, GetMember, InScope, DayList, YearName, MonthName, DateText;
    var d := g.when.date;
    FoundMonthReached(m, top, x, d.m, g);
    EnterListedDay(m, top, d);
    FollowMore(m, Folder(top), MonthTail(d.y, d.m), DateText(d));
    assert MonthTail(d.y, d.m) + [DateText(d)] == DayTail(d);
  }

  /** In a split day that holds an asset of the scope every hour is entered that the day's search finds
    * something of, be it of that day or not. */
  lemma FoundHourReached(m: Mount, top: Tree, x: Asset, g: Asset)
    requires MountOk(m) && TreeOk(m.immich, top) && !top.flat
    requires InScope(m.immich, top.scope, x) && Printable(x.when.date)
    requires ShouldSplit(m, top, DayRange(x.when.date))
    requires g in m.immich.find(DayQuery(top.scope, DayRange(x.when.date), Oldest))
    ensures var hr := HourRange(x.when.date, g.when.clock.hour);
            Follow(m, Folder(top), HourTail(hr.day, hr.hour)) == Some(HourFolder(top, HourTail(hr.day, hr.hour), hr))
  {
    hide NamesOk, Faithful, TreeOk, Follow, MemberNames, GetMember, InScope, HourList, YearName, MonthName,
      DateText, HourName, ShouldSplit;
    var day, h := x.when.date, g.when.clock.hour;
    HourBound(g);
    ReachDay(m, top, x);
    HourListFound(m.immich, top.scope, day);
    EnterHour(m, top, day, h);
    FollowMore(m, Folder(top), DayTail(day), HourName(h));
  }

  // ---------- a listed name that nothing finds ----------

  /** The name of a day under another month is no path. */
  lemma DayElsewhere(m: Mount, top: Tree, y: nat, mo: nat, d: Date)
    requires 1000 <= y <= 9998 && 1 <= mo <= 12 && Valid(d) && !(d.y == y && d.m == mo) && !top.flat
    ensures ValidResource(Bucket(top, MonthTail(y, mo), MonthRange(y, mo)))
    ensures GetMember(m, Bucket(top, MonthTail(y, mo), MonthRange(y, mo)), DateText(d)) == None
    ensures ResolveTree(m, top, MonthTail(y, mo) + [DateText(d)]) == None
  {
    hide YearName, MonthName, DateText, BucketNames, HasAssets, FolderMember, ResolveInDay, TailRange;
    NoDayElsewhere(y, mo, d);
  }

  lemma NoDayElsewhere(y: nat, mo: nat, d: Date)
    requires 1000 <= y <= 9998 && 1 <= mo <= 12 && Valid(d) && !(d.y == y && d.m == mo)
    ensures TailRange(MonthTail(y, mo) + [DateText(d)]) == None
  {
    hide DateRangeFromParts, YearName;
    var parts := ["View"] + (MonthTail(y, mo) + [DateText(d)]);
    assert parts == ["View", YearName(y), MonthName(y, mo), DateText(d)];
    if DateRangeFromParts(parts).Some? {
      RangeOfParts(parts, DateRangeFromParts(parts).value);
      MonthOfDate(y, mo, d);
    }
  }

  lemma MonthOfDate(y: nat, mo: nat, d: Date)
    requires 1000 <= y <= 9998 && 1 <= mo <= 12 && Valid(d)
    requires StartsWith(DateText(d), MonthName(y, mo) + "-")
    ensures d.y == y && d.m == mo
  {
    hide Pad, Pow10;
    var s, p := DateText(d), MonthName(y, mo) + "-";
    assert s[..4] == Pad(4, d.y) && s[5..7] == Pad(2, d.m);
    assert |p| == 8 && p[..4] == Pad(4, y) && p[5..7] == Pad(2, mo);
    assert s[..8] == p;
    assert s[..8][..4] == s[..4] && s[..8][5..7] == s[5..7];
    Powers();
    PadValue(4, d.y);
    PadValue(4, y);
    PadValue(2, d.m);
    PadValue(2, mo);
  }

  predicate PrintableInstant(i: Instant) { ValidInstant(i) && Printable(i.date) }

  /** A client that follows listed names is offered one that neither lookup finds. */
  predicate Misleads(m: Mount, names: seq<string>, name: string) {
    var x := Follow(m, MountRoot, names);
    && x.Some? && name in MemberNames(m, x.value)
    && GetMember(m, x.value, name) == None && Resolve(m, names + [name]) == None
  }

  lemma UnfoundName(m: Mount, s: Scope, x: Asset, mo: nat, g: Asset)
    requires MountOk(m) && s.ViewScope? && Mounted(m, DatedView(s)) && TreeOk(m.immich, DatedView(s))
    requires InScope(m.immich, s, x) && Printable(x.when.date) && 1 <= mo <= 12
    requires g in m.immich.find(DayQuery(s, MonthRange(x.when.date.y, mo), Newest))
    requires !(g.when.date.y == x.when.date.y && g.when.date.m == mo)
    ensures Misleads(m, ["Views", "View"] + MonthTail(x.when.date.y, mo), DateText(g.when.date))
  {
    hide MountOk, TreeOk, Mounted, Follow, InScope, DayQuery, DayList, MonthName, YearName, DateText, Resolve,
      ResolveTree, GetMember, HasAssets;
    var top, y, d := DatedView(s), x.when.date.y, g.when.date;
    FoundMonthReached(m, top, x, mo, g);
    MountedIsListed(m, top);
    FollowFrom(m, MountRoot, top.prefix, MonthTail(y, mo));
    HourBound(g);
    assert DateText(d) in DayNames(m, top, MonthRange(y, mo));
    DayElsewhere(m, top, y, mo, d);
    DayTextPlain(d);
    ResolveView(m, s, MonthTail(y, mo), DateText(d));
    assert top.prefix + (MonthTail(y, mo) + [DateText(d)]) == top.prefix + MonthTail(y, mo) + [DateText(d)];
  }

  lemma DayTextPlain(d: Date)
    requires Valid(d)
    ensures !IsMacOSMetadata(DateText(d))
  {
    hide Pad;
    assert DateText(d)[..4] == Pad(4, d.y);
    assert DateText(d)[0] == Pad(4, d.y)[0];
  }

  lemma ResolveView(m: Mount, s: Scope, tail: seq<string>, name: string)
    requires MountOk(m) && s.ViewScope? && Mounted(m, DatedView(s)) && tail != [] && !IsMacOSMetadata(name)
    ensures Resolve(m, ["Views", "View"] + (tail + [name])) == ResolveTree(m, DatedView(s), tail + [name])
  {
    hide MountOk, ResolveTree, IsMacOSMetadata, ByName;
    var parts := ["Views", "View"] + (tail + [name]);
    assert parts[|parts| - 1] == name && parts[2..] == tail + [name] && parts[1] == "View";
  }

  /** An `after` that sorts after a month's start and is read before it: with an asset in the gap between and
    * one at the month's start, the month lists a day that nothing finds. */
  lemma AfterMisleads(read: Reading, own: string, y: nat, mo: nat, gap: Instant)
    requires ReadsHours(read) && 1000 <= y <= 9998 && 1 <= mo <= 12
    requires read(own).Some? && Less(Show(IsoBoundary(Date(y, mo, 1))), own)
    requires PrintableInstant(gap) && !Before(gap, read(own).value) && Before(gap, At(IsoBoundary(Date(y, mo, 1))))
    ensures var library := [AssetAt("a", gap), AssetAt("b", At(IsoBoundary(Date(y, mo, 1))))];
            && PrintableLibrary(library)
            && Misleads(ViewMount(read, ViewScope([], Some(own), None), library, false),
                        ["Views", "View"] + MonthTail(y, mo), DateText(gap.date))
  {
    hide Misleads, PrintableLibrary, Show, Less, ViewMount, MonthTail;
    var s, start := ViewScope([], Some(own), None), IsoBoundary(Date(y, mo, 1));
    var g, x := AssetAt("a", gap), AssetAt("b", At(start));
    TwoAssets(g, x);
    var m := ViewMount(read, s, [g, x], false);
    ViewMountOk(read, s, [g, x], false);
    var q := DayQuery(s, MonthRange(y, mo), Newest);
    ViewMountFinds(read, s, [g, x], false, q, g);
    ViewMountFinds(read, s, [g, x], false, q, x);
    assert OnTheHour(start) && OnTheHour(IsoBoundary(MonthRange(y, mo).end));
    assert InScope(m.immich, s, x) && g in m.immich.find(q);
    UnfoundName(m, s, x, mo, g);
  }

  lemma TwoAssets(g: Asset, x: Asset)
    requires g.id == "a" && x.id == "b" && Printable(g.when.date) && Printable(x.when.date)
    ensures PrintableLibrary([g, x])
  {
  }

  /** A `before` that sorts before a month's end and is read after it: with an asset in the gap and one at the
    * month's start, the month lists a day after it. */
  lemma BeforeMisleads(read: Reading, own: string, y: nat, mo: nat, gap: Instant)
    requires ReadsHours(read) && 1000 <= y <= 9998 && 1 <= mo <= 12
    requires read(own).Some? && Less(own, Show(IsoBoundary(MonthRange(y, mo).end)))
    requires PrintableInstant(gap) && Before(gap, read(own).value)
    requires !Before(gap, At(IsoBoundary(MonthRange(y, mo).end)))
    ensures var library := [AssetAt("a", gap), AssetAt("b", At(IsoBoundary(Date(y, mo, 1))))];
            && PrintableLibrary(library)
            && Misleads(ViewMount(read, ViewScope([], None, Some(own)), library, false),
                        ["Views", "View"] + MonthTail(y, mo), DateText(gap.date))
  {
    hide Misleads, PrintableLibrary, Show, Less, ViewMount, MonthTail;
    var s, start, end := ViewScope([], None, Some(own)), IsoBoundary(Date(y, mo, 1)), MonthRange(y, mo).end;
    var g, x := AssetAt("a", gap), AssetAt("b", At(start));
    TwoAssets(g, x);
    var m := ViewMount(read, s, [g, x], false);
    ViewMountOk(read, s, [g, x], false);
    var q := DayQuery(s, MonthRange(y, mo), Newest);
    ViewMountFinds(read, s, [g, x], false, q, g);
    ViewMountFinds(read, s, [g, x], false, q, x);
    assert OnTheHour(start) && OnTheHour(IsoBoundary(end));
    assert InScope(m.immich, s, x) && g in m.immich.find(q);
    UnfoundName(m, s, x, mo, g);
  }

  // ---------- an empty folder ----------

  /** A folder reached by listed names holds no asset of the scope taken in it. */
  ghost predicate ShowsEmpty(m: Mount, top: Tree, names: seq<string>) {
    var x := Follow(m, Folder(top), names);
    x.Some? && (x.value.Bucket? || x.value.HourFolder?) && Empty(m, top, x.value)
  }

  lemma EmptyHour(m: Mount, top: Tree, x: Asset, g: Asset)
    requires MountOk(m) && TreeOk(m.immich, top) && !top.flat && InScope(m.immich, top.scope, x)
    requires Printable(x.when.date) && ShouldSplit(m, top, DayRange(x.when.date))
    requires g in m.immich.find(DayQuery(top.scope, DayRange(x.when.date), Oldest))
    requires forall a :: a in m.immich.lib ==> a == x || a == g
    requires g.when.clock.hour != x.when.clock.hour && (g.when.date != x.when.date || !InScope(m.immich, top.scope, g))
    ensures ShowsEmpty(m, top, HourTail(x.when.date, g.when.clock.hour))
  {
    hide MountOk, TreeOk, Follow, InScope, DayQuery, ShouldSplit, HourTail;
    FoundHourReached(m, top, x, g);
  }

  lemma EmptyDay(m: Mount, top: Tree, x: Asset, g: Asset)
    requires MountOk(m) && TreeOk(m.immich, top) && !top.flat && top.scope.ViewScope?
    requires InScope(m.immich, top.scope, x) && Printable(x.when.date) && g.when.date.y == x.when.date.y
    requires g in m.immich.find(DayQuery(top.scope, MonthRange(g.when.date.y, g.when.date.m), Newest))
    requires forall a :: a in m.immich.lib ==> a == x || a == g
    requires g.when.date != x.when.date && !InScope(m.immich, top.scope, g)
    ensures Valid(g.when.date) && ShowsEmpty(m, top, DayTail(g.when.date))
  {
    hide MountOk, TreeOk, Follow, InScope, DayQuery, DayTail;
    FoundDayReached(m, top, x, g);
    DayFields(x, g.when.date);
  }

  const LAST_CLOCK := Clock(23, 59, 59)

  /** The last instant of a day. */
  function DayEnd(d: Date): Instant { Instant(d, LAST_CLOCK, 999_999) }

  /** Read before a midnight that it sorts after: the day before shows in this day's hours. */
  lemma AfterStraysIntoDay(read: Reading, own: string, d: Date)
    requires ReadsHours(read) && read(own).Some? && PrintableInstant(read(own).value)
    requires Printable(d) && !NotEarly(read, own, IsoBoundary(d))
    ensures var i := read(own).value;
            var library := [AssetAt("a", i),
                            AssetAt("b", Instant(d, Clock(if i.clock.hour == 0 then 1 else 0, 0, 0), 0))];
            ShowsEmptyView(read, ViewScope([], Some(own), None), library, true, HourTail(d, i.clock.hour))
  {
    hide Show, Less, ShowsEmptyView;
    var s, i := ViewScope([], Some(own), None), read(own).value;
    var g, x := AssetAt("a", i), AssetAt("b", Instant(d, Clock(if i.clock.hour == 0 then 1 else 0, 0, 0), 0));
    DayRangeStart(d);
    assert OnTheHour(IsoBoundary(d)) && OnTheHour(IsoBoundary(NextDay(d)));
    EmptyHourOfView(read, s, d, x, g);
  }

  /** Read within a day whose midnight it sorts before: its first hour shows what comes before the boundary. */
  lemma AfterHidesInDay(read: Reading, own: string, d: Date)
    requires ReadsHours(read) && read(own).Some? && PrintableInstant(read(own).value)
    requires Printable(d) && Before(read(own).value, At(IsoBoundary(NextDay(d)))) && !NotLate(read, own, IsoBoundary(d))
    ensures var library := [AssetAt("a", Instant(d, MIDNIGHT, 0)), AssetAt("b", DayEnd(d))];
            ShowsEmptyView(read, ViewScope([], Some(own), None), library, true, HourTail(d, 0))
  {
    hide Show, Less, ShowsEmptyView;
    var s, i := ViewScope([], Some(own), None), read(own).value;
    var g, x := AssetAt("a", Instant(d, MIDNIGHT, 0)), AssetAt("b", DayEnd(d));
    DayRangeStart(d);
    NextDayAdjacent(d, i.date);
    LessAsymmetric(own, Show(IsoBoundary(d)));
    assert OnTheHour(IsoBoundary(d)) && OnTheHour(IsoBoundary(NextDay(d)));
    EmptyHourOfView(read, s, d, x, g);
  }

  /** Read within a year, after the start of a month that it sorts before: the month's first day is shown. */
  lemma AfterHidesMonth(read: Reading, own: string, y: nat, mo: nat)
    requires ReadsHours(read) && read(own).Some? && PrintableInstant(read(own).value)
    requires 1000 <= y <= 9998 && 1 <= mo <= 12 && Before(read(own).value, At(IsoBoundary(Date(y + 1, 1, 1))))
    requires !NotLate(read, own, IsoBoundary(Date(y, mo, 1)))
    ensures var library := [AssetAt("a", Instant(Date(y, mo, 1), MIDNIGHT, 0)), AssetAt("b", DayEnd(Date(y, 12, 31)))];
            ShowsEmptyView(read, ViewScope([], Some(own), None), library, false, DayTail(Date(y, mo, 1)))
  {
    hide Show, Less, ShowsEmptyView;
    var s, i, start := ViewScope([], Some(own), None), read(own).value, Date(y, mo, 1);
    var g, x := AssetAt("a", Instant(start, MIDNIGHT, 0)), AssetAt("b", DayEnd(Date(y, 12, 31)));
    LessAsymmetric(own, Show(IsoBoundary(start)));
    assert OnTheHour(IsoBoundary(start)) && OnTheHour(IsoBoundary(MonthRange(y, mo).end));
    EmptyDayOfView(read, s, x, g);
  }

  /** A `before` read after a midnight that it sorts before: the day after shows in this day's hours. */
  lemma BeforeStraysIntoDay(read: Reading, own: string, d: Date)
    requires ReadsHours(read) && read(own).Some? && PrintableInstant(read(own).value)
    requires Printable(d) && !NotLate(read, own, IsoBoundary(NextDay(d)))
    ensures Printable(NextDay(d))
    ensures var library := [AssetAt("a", Instant(NextDay(d), MIDNIGHT, 0)),
                            AssetAt("b", Instant(d, Clock(1, 0, 0), 0))];
            ShowsEmptyView(read, ViewScope([], None, Some(own)), library, true, HourTail(d, 0))
  {
    hide Show, Less, ShowsEmptyView;
    var s, j, end := ViewScope([], None, Some(own)), read(own).value, NextDay(d);
    var g, x := AssetAt("a", Instant(end, MIDNIGHT, 0)), AssetAt("b", Instant(d, Clock(1, 0, 0), 0));
    DayRangeStart(d);
    assert OnTheHour(IsoBoundary(d)) && OnTheHour(IsoBoundary(end));
    EmptyHourOfView(read, s, d, x, g);
  }

  /** Read within a day whose end it sorts after: its last hour shows what comes after the boundary. */
  lemma BeforeHidesInDay(read: Reading, own: string, d: Date)
    requires ReadsHours(read) && read(own).Some? && PrintableInstant(read(own).value)
    requires Printable(d) && Before(At(IsoBoundary(d)), read(own).value)
             && !NotEarly(read, own, IsoBoundary(NextDay(d)))
    ensures var library := [AssetAt("a", DayEnd(d)), AssetAt("b", Instant(d, MIDNIGHT, 0))];
            ShowsEmptyView(read, ViewScope([], None, Some(own)), library, true, HourTail(d, 23))
  {
    hide Show, Less, ShowsEmptyView;
    var s, j, end := ViewScope([], None, Some(own)), read(own).value, NextDay(d);
    var g, x := AssetAt("a", DayEnd(d)), AssetAt("b", Instant(d, MIDNIGHT, 0));
    DayRangeStart(d);
    NextDayAdjacent(d, j.date);
    LessAsymmetric(own, Show(IsoBoundary(end)));
    assert OnTheHour(IsoBoundary(d)) && OnTheHour(IsoBoundary(end));
    EmptyHourOfView(read, s, d, x, g);
  }

  /** Read within a year, before the end of a month that it sorts after: the month's last day is shown. */
  lemma BeforeHidesMonth(read: Reading, own: string, y: nat, mo: nat)
    requires ReadsHours(read) && read(own).Some? && PrintableInstant(read(own).value)
    requires 1000 <= y <= 9998 && 1 <= mo <= 12 && Before(At(IsoBoundary(Date(y, 1, 1))), read(own).value)
    requires !NotEarly(read, own, IsoBoundary(MonthRange(y, mo).end))
    ensures var last := Date(y, mo, DaysInMonth(y, mo));
            var library := [AssetAt("a", DayEnd(last)), AssetAt("b", Instant(Date(y, 1, 1), MIDNIGHT, 0))];
            ShowsEmptyView(read, ViewScope([], None, Some(own)), library, false, DayTail(last))
  {
    hide Show, Less, ShowsEmptyView;
    var s, j, last := ViewScope([], None, Some(own)), read(own).value, Date(y, mo, DaysInMonth(y, mo));
    var g, x := AssetAt("a", DayEnd(last)), AssetAt("b", Instant(Date(y, 1, 1), MIDNIGHT, 0));
    var end := IsoBoundary(MonthRange(y, mo).end);
    LessAsymmetric(own, Show(end));
    assert OnTheHour(IsoBoundary(Date(y, mo, 1))) && OnTheHour(end);
    assert !Before(g.when, j);
    EmptyDayOfView(read, s, x, g);
  }

  /** Some library shows an empty folder in the view's tree. */
  ghost predicate ShowsEmptyView(read: Reading, s: Scope, library: seq<Asset>, splits: bool, names: seq<string>) {
    PrintableLibrary(library) && ShowsEmpty(ViewMount(read, s, library, splits), DatedView(s), names)
  }

  lemma AfterEmpties(read: Reading, own: string, b: Immich)
    requires ReadsHours(read) && read(own).Some? && PrintableInstant(read(own).value) && b.read == read
    requires !NeverEmpty(b, ViewScope([], Some(own), None))
    ensures exists library, splits, names ::
              ShowsEmptyView(read, ViewScope([], Some(own), None), library, splits, names)
  {
    hide ShowsEmptyView, NotEarly, NotLate, At;
    var s := ViewScope([], Some(own), None);
    if d :| Printable(d) && !InsideRange(b, s, DayRange(d)) {
      AfterStraysIntoDay(read, own, d);
    } else if d :| Printable(d) && Meets(b, s, DayRange(d)) && !ScopeRange(b, s, DayRange(d)) {
      AfterHidesInDay(read, own, d);
    } else {
      var y, mo :| 1000 <= y <= 9998 && 1 <= mo <= 12 && Meets(b, s, YearRange(y))
        && !ScopeRange(b, s, MonthRange(y, mo));
      AfterHidesMonth(read, own, y, mo);
    }
  }

  lemma BeforeEmpties(read: Reading, own: string, b: Immich)
    requires ReadsHours(read) && read(own).Some? && PrintableInstant(read(own).value) && b.read == read
    requires !NeverEmpty(b, ViewScope([], None, Some(own)))
    ensures exists library, splits, names ::
              ShowsEmptyView(read, ViewScope([], None, Some(own)), library, splits, names)
  {
    hide ShowsEmptyView, InsideRange, ScopeRange, Meets, ReadsHours;
    var s := ViewScope([], None, Some(own));
    if d :| Printable(d) && !InsideRange(b, s, DayRange(d)) {
      BeforeSides(b, own, DayRange(d));
      BeforeStraysIntoDay(read, own, d);
    } else if d :| Printable(d) && Meets(b, s, DayRange(d)) && !ScopeRange(b, s, DayRange(d)) {
      BeforeSides(b, own, DayRange(d));
      BeforeHidesInDay(read, own, d);
    } else {
      var y, mo :| 1000 <= y <= 9998 && 1 <= mo <= 12 && Meets(b, s, YearRange(y))
        && !ScopeRange(b, s, MonthRange(y, mo));
      BeforeEmptiesMonth(read, own, b, y, mo);
    }
  }

  lemma BeforeEmptiesMonth(read: Reading, own: string, b: Immich, y: int, mo: int)
    requires ReadsHours(read) && read(own).Some? && PrintableInstant(read(own).value) && b.read == read
    requires 1000 <= y <= 9998 && 1 <= mo <= 12
    requires var s := ViewScope([], None, Some(own)); Meets(b, s, YearRange(y)) && !ScopeRange(b, s, MonthRange(y, mo))
    ensures exists library, splits, names ::
              ShowsEmptyView(read, ViewScope([], None, Some(own)), library, splits, names)
  {
    hide ShowsEmptyView, ScopeRange, Meets, ReadsHours;
    BeforeSides(b, own, MonthRange(y, mo));
    BeforeSides(b, own, YearRange(y));
    BeforeHidesMonth(read, own, y, mo);
  }

  lemma BeforeSides(b: Immich, own: string, r: DateRange)
    requires ValidRange(r) && b.read(own).Some?
    ensures var s := ViewScope([], None, Some(own));
            && (InsideRange(b, s, r) <==> NotLate(b.read, own, IsoBoundary(r.end)))
            && (ScopeRange(b, s, r) <==> NotEarly(b.read, own, IsoBoundary(r.end)))
            && (Meets(b, s, r) <==> Before(At(IsoBoundary(r.start)), b.read(own).value))
  {
    hide NotEarly, NotLate, At;
  }

  lemma EmptyHourOfView(read: Reading, s: Scope, d: Date, x: Asset, g: Asset)
    requires ReadsHours(read) && s.ViewScope? && g.id == "a" && x.id == "b"
    requires Printable(g.when.date) && Printable(d) && x.when.date == d && g.when.clock.hour != x.when.clock.hour
    requires NotBefore(read, s.after, x.when) && StrictlyBefore(read, s.before, x.when)
    requires var q := DayQuery(s, DayRange(d), Oldest);
             NotBefore(read, q.after, g.when) && StrictlyBefore(read, q.before, g.when)
    requires g.when.date != d || !(NotBefore(read, s.after, g.when) && StrictlyBefore(read, s.before, g.when))
    ensures ShowsEmptyView(read, s, [g, x], true, HourTail(d, g.when.clock.hour))
  {
    hide NotBefore, StrictlyBefore, MountOk, TreeOk, Mounted, InScope, Found, ShouldSplit, ShowsEmpty, HasAssets,
      DayRange, PrintableLibrary, ViewMount;
    TwoAssets(g, x);
    var m := ViewMount(read, s, [g, x], true);
    ViewMountOk(read, s, [g, x], true);
    DayRangeStart(d);
    var q := DayQuery(s, DayRange(d), Oldest);
    forall a
      ensures a in m.immich.lib <==> a == x || a == g
    {
      ViewMountFinds(read, s, [g, x], true, q, a);
    }
    ViewMountFinds(read, s, [g, x], true, q, g);
    ViewMountFinds(read, s, [g, x], true, q, x);
    FaithfulMount(m);
    AnyOrder(m.immich, s, DayRange(d), g);
    ViewMountSplits(read, s, [g, x], true, DayRange(d));
    EmptyHour(m, DatedView(s), x, g);
  }

  lemma EmptyDayOfView(read: Reading, s: Scope, x: Asset, g: Asset)
    requires ReadsHours(read) && s.ViewScope? && g.id == "a" && x.id == "b"
    requires Printable(g.when.date) && Printable(x.when.date)
    requires x.when.date != g.when.date && x.when.date.y == g.when.date.y
    requires NotBefore(read, s.after, x.when) && StrictlyBefore(read, s.before, x.when)
    requires var q := DayQuery(s, MonthRange(g.when.date.y, g.when.date.m), Newest);
             NotBefore(read, q.after, g.when) && StrictlyBefore(read, q.before, g.when)
    requires !(NotBefore(read, s.after, g.when) && StrictlyBefore(read, s.before, g.when))
    ensures ShowsEmptyView(read, s, [g, x], false, DayTail(g.when.date))
  {
    hide NotBefore, StrictlyBefore, MountOk, TreeOk, Mounted, InScope, Found, ShouldSplit, ShowsEmpty, HasAssets,
      DayRange, PrintableLibrary, ViewMount;
    TwoAssets(g, x);
    var m := ViewMount(read, s, [g, x], false);
    ViewMountOk(read, s, [g, x], false);
    var q := DayQuery(s, MonthRange(g.when.date.y, g.when.date.m), Newest);
    forall a
      ensures a in m.immich.lib <==> a == x || a == g
    {
      ViewMountFinds(read, s, [g, x], false, q, a);
    }
    ViewMountFinds(read, s, [g, x], false, q, g);
    ViewMountFinds(read, s, [g, x], false, q, x);
    EmptyDay(m, DatedView(s), x, g);
  }

  /** The reading alone decides. */
  lemma SameReading(b: Immich, c: Immich, s: Scope)
    requires b.read == c.read
    ensures NeverEmpty(b, s) <==> NeverEmpty(c, s)
  {
    hide NotEarly, NotLate, At;
    forall r: DateRange | ValidRange(r)
      ensures InsideRange(b, s, r) == InsideRange(c, s, r) && ScopeRange(b, s, r) == ScopeRange(c, s, r)
      ensures Meets(b, s, r) == Meets(c, s, r)
    {
    }
  }

  /** A view with one boundary. */
  function OneBoundary(own: string, starts: bool): Scope {
    if starts then ViewScope([], Some(own), None) else ViewScope([], None, Some(own))
  }

  /** Main result: a view with one boundary never shows an empty folder, whatever the library, if and only if
    * the boundary sorts as NeverEmpty says. */
  lemma NeverEmptyExactly(read: Reading, own: string, starts: bool, b: Immich)
    requires ReadsHours(read) && (read(own).Some? ==> PrintableInstant(read(own).value)) && b.read == read
    ensures var s := OneBoundary(own, starts);
            NeverEmpty(b, s) <==> forall library, splits, names :: !ShowsEmptyView(read, s, library, splits, names)
  {
    hide ShowsEmptyView, NeverEmpty;
    var s := OneBoundary(own, starts);
    if NeverEmpty(b, s) {
      forall library, splits, names
        ensures !ShowsEmptyView(read, s, library, splits, names)
      {
        if ShowsEmptyView(read, s, library, splits, names) { NothingEmpty(read, s, library, splits, names, b); }
      }
    } else if read(own).None? {
      UnreadEmpties(b, own, starts);
    } else if starts {
      AfterEmpties(read, own, b);
    } else {
      BeforeEmpties(read, own, b);
    }
  }

  /** With a boundary that cannot be read nothing is listed. */
  lemma UnreadEmpties(b: Immich, own: string, starts: bool)
    requires b.read(own).None?
    ensures NeverEmpty(b, OneBoundary(own, starts))
  {
    hide At, Show;
  }

  lemma NothingEmpty(read: Reading, s: Scope, library: seq<Asset>, splits: bool, names: seq<string>, b: Immich)
    requires ReadsHours(read) && s.ViewScope? && b.read == read && NeverEmpty(b, s)
    ensures !ShowsEmptyView(read, s, library, splits, names)
  {
    hide NeverEmpty, MountOk, TreeOk, Mounted, Follow, PrintableLibrary, ViewMount, Empty;
    if PrintableLibrary(library) {
      var m := ViewMount(read, s, library, splits);
      ViewMountOk(read, s, library, splits);
      SameReading(b, m.immich, s);
      var x := Follow(m, Folder(DatedView(s)), names);
      if x.Some? && (x.value.Bucket? || x.value.HourFolder?) { NoEmptyBucket(m, DatedView(s), names); }
    }
  }

  // ---------- an offset ----------

  /** The backend reads the three forms of the bridge and this text. */
  function AlsoReads(own: string, i: Instant): Reading { (s: string) => if s == own then Some(i) else ParseBound(s) }

  lemma AlsoReadsHours(own: string, i: Instant)
    requires own != "" && own[|own| - 1] != 'Z'
    ensures ReadsHours(AlsoReads(own, i))
  {
    hide ParseBound, Show, At;
    ParseBoundReads();
    forall bucket | OnTheHour(bucket)
      ensures AlsoReads(own, i)(Show(bucket)) == Some(At(bucket))
    {
      ShowsZulu(bucket);
    }
  }

  lemma ShowsZulu(bucket: Bound)
    requires OnTheHour(bucket)
    ensures var s := Show(bucket); s != "" && s[|s| - 1] == 'Z'
  {
    hide DateText, ClockText;
  }

  /** One hour past midnight of the first of May, in a time zone five hours ahead. */
  const AHEAD := "2024-05-01T01:00:00+05:00"
  const AHEAD_READ := Instant(Date(2024, 4, 30), Clock(20, 0, 0), 0)

  /** It sorts after the first of May and is read before it. */
  lemma AheadSorts()
    ensures Less(Show(IsoBoundary(Date(2024, 5, 1))), AHEAD)
    ensures MonthTail(2024, 5) == ["2024", "2024-05"] && DateText(Date(2024, 4, 30)) == "2024-04-30"
  {
    hide Less;
    AheadText();
    AprilTexts();
    TextOrder(Date(2024, 5, 1), Clock(1, 0, 0), "+05:00", IsoBoundary(Date(2024, 5, 1)));
  }

  lemma AprilTexts()
    ensures MonthTail(2024, 5) == ["2024", "2024-05"] && DateText(Date(2024, 4, 30)) == "2024-04-30"
  {
    hide Pad, Str;
    StrFour(2024);
    AprilFields();
    assert DateText(Date(2024, 4, 30)) == "2024" + "-" + "04" + "-" + "30" == "2024-04-30";
    assert MonthName(2024, 5) == "2024" + "-" + "05" == "2024-05";
  }

  lemma AprilFields()
    ensures Pad(4, 2024) == "2024" && Pad(2, 5) == "05" && Pad(2, 4) == "04" && Pad(2, 30) == "30"
  {
    hide Pad;
    YearField();
    DayFieldsOfApril();
  }

  lemma YearField()
    ensures Pad(4, 2024) == "2024"
  {
  }

  lemma DayFieldsOfApril()
    ensures Pad(2, 5) == "05" && Pad(2, 4) == "04" && Pad(2, 30) == "30"
  {
  }

  lemma AheadText()
    ensures AHEAD == TextAt(Date(2024, 5, 1), Clock(1, 0, 0), "+05:00")
  {
    hide DateText, ClockText;
    MayTexts();
  }

  lemma MayTexts()
    ensures DateText(Date(2024, 5, 1)) == "2024-05-01"
    ensures ClockText(Clock(1, 0, 0)) == "01:00:00" && ClockText(MIDNIGHT) == "00:00:00"
  {
    hide Pad;
    AprilFields();
    TwoDigits();
    assert DateText(Date(2024, 5, 1)) == "2024" + "-" + "05" + "-" + "01" == "2024-05-01";
    assert ClockText(Clock(1, 0, 0)) == "01" + ":" + "00" + ":" + "00" == "01:00:00";
    assert ClockText(MIDNIGHT) == "00" + ":" + "00" + ":" + "00" == "00:00:00";
  }

  lemma TwoDigits()
    ensures Pad(2, 1) == "01" && Pad(2, 0) == "00"
  {
  }

  /** A view from that boundary on and one asset, an hour later: the view's May holds nothing, is listed, and
    * lists the last day of April, which neither lookup finds there. */
  lemma OffsetMisleads()
    ensures var g := AssetAt("a", Instant(Date(2024, 4, 30), Clock(21, 0, 0), 0));
            var s := ViewScope([], Some(AHEAD), None);
            var m := ViewMount(AlsoReads(AHEAD, AHEAD_READ), s, [g], false);
            && MountOk(m) && TreeOk(m.immich, DatedView(s)) && m.immich.lib == {g} && InScope(m.immich, s, g)
            && ShowsEmpty(m, DatedView(s), ["2024", "2024-05"])
            && Misleads(m, ["Views", "View", "2024", "2024-05"], "2024-04-30")
  {
    hide ParseBound, Show, Less, MountOk, TreeOk, Mounted, Misleads, Follow, MonthTail, DateText, ViewMount,
      ReadsHours, InScope;
    var g := AssetAt("a", Instant(Date(2024, 4, 30), Clock(21, 0, 0), 0));
    var s := ViewScope([], Some(AHEAD), None);
    var m := ViewMount(AlsoReads(AHEAD, AHEAD_READ), s, [g], false);
    AlsoReadsHours(AHEAD, AHEAD_READ);
    AheadSorts();
    ViewMountOk(AlsoReads(AHEAD, AHEAD_READ), s, [g], false);
    var q := DayQuery(s, MonthRange(2024, 5), Newest);
    AheadFinds(m, g, q);
    FoundMonthReached(m, DatedView(s), g, 5, g);
    UnfoundName(m, s, g, 5, g);
    assert ["Views", "View"] + ["2024", "2024-05"] == ["Views", "View", "2024", "2024-05"];
  }

  lemma AheadFinds(m: Mount, g: Asset, q: Query)
    requires g == AssetAt("a", Instant(Date(2024, 4, 30), Clock(21, 0, 0), 0))
    requires m == ViewMount(AlsoReads(AHEAD, AHEAD_READ), ViewScope([], Some(AHEAD), None), [g], false)
    requires q == DayQuery(ViewScope([], Some(AHEAD), None), MonthRange(2024, 5), Newest)
    ensures g in m.immich.find(q) && InScope(m.immich, ViewScope([], Some(AHEAD), None), g) && m.immich.lib == {g}
  {
    hide ParseBound, Show, Less, ViewMount, InScope;
    AlsoReadsHours(AHEAD, AHEAD_READ);
    AheadSorts();
    assert OnTheHour(IsoBoundary(MonthRange(2024, 5).end));
    var s := ViewScope([], Some(AHEAD), None);
    forall a
      ensures a in m.immich.lib <==> a == g
    {
      ViewMountFinds(AlsoReads(AHEAD, AHEAD_READ), s, [g], false, q, a);
    }
    ViewMountFinds(AlsoReads(AHEAD, AHEAD_READ), s, [g], false, q, g);
  }
}
