/** For which boundary of a saved view its date tree shows what the flat layout shows, and each asset at its own
  * place: exactly when, over all libraries. */
module ViewLayouts {
  import opened Wrappers
  import opened Text
  import opened Calendar
  import opened FsModel
  import opened AssetNames
  import opened FsService
  import opened WebdavTree
  import opened TreeTheorems
  import opened MountTheorems
  import opened Partition
  import opened EmptyFolders
  import opened ReferenceImmich
  import opened ViewBoundaries

  // ---------- two layouts that differ ----------

  function FlatView(s: Scope): Tree { Tree(["Views", "View"], s, true) }

  /** Some library shows an asset in the date tree that the flat layout of the same view does not. */
  ghost predicate LayoutsDiffer(read: Reading, s: Scope, library: seq<Asset>, splits: bool) {
    var m := ViewMount(read, s, library, splits);
    PrintableLibrary(library)
    && exists a, names :: InLeaf(m, DatedView(s), a, names) && a !in LeafAssets(m, Folder(FlatView(s)))
  }

  function HourOf(i: Instant): HourRange { HourRange(i.date, i.clock.hour) }

  /** The last instant of an hour. */
  function HourLast(hr: HourRange): Instant { Instant(hr.day, Clock(hr.hour, 59, 59), 999_999) }

  lemma HoursSort(c: Bound, d: Bound)
    requires OnTheHour(c) && OnTheHour(d) && !Before(At(d), At(c))
    ensures c == d || Less(Show(c), Show(d))
  {
    hide Less, DateText, ClockText;
    IsoOrder(c, d);
  }

  lemma HourShows(read: Reading, s: Scope, x: Asset, g: Asset)
    requires ReadsHours(read) && s.ViewScope? && g.id == "a" && x.id == "b"
    requires Printable(x.when.date) && HourOf(g.when) == HourOf(x.when)
    requires NotBefore(read, s.after, x.when) && StrictlyBefore(read, s.before, x.when)
    requires var q := HourQuery(s, HourOf(x.when), Oldest);
             NotBefore(read, q.after, g.when) && StrictlyBefore(read, q.before, g.when)
    requires !(NotBefore(read, s.after, g.when) && StrictlyBefore(read, s.before, g.when))
    ensures LayoutsDiffer(read, s, [g, x], true)
  {
    hide NotBefore, StrictlyBefore, MountOk, TreeOk, Mounted, InScope, Found, ShouldSplit, HasAssets, Follow,
      DayRange, PrintableLibrary, ViewMount, DayQuery, HourQuery, WholeQuery, HourTail;
    TwoAssets(g, x);
    var m, hr := ViewMount(read, s, [g, x], true), HourOf(x.when);
    ViewMountOk(read, s, [g, x], true);
    FaithfulMount(m);
    ViewMountFinds(read, s, [g, x], true, HourQuery(s, hr, Oldest), g);
    ViewMountFinds(read, s, [g, x], true, HourQuery(s, hr, Oldest), x);
    DayRangeStart(hr.day);
    DayFields(x, hr.day);
    HasAssetsKeeps(m.immich, s, DayRange(hr.day), x);
    RangeHolds(m.immich, s, DayRange(hr.day), Oldest, x);
    ViewMountSplits(read, s, [g, x], true, DayRange(hr.day));
    FoundHourReached(m, DatedView(s), x, x);
    WholeFinds(m.immich, s, Oldest, g);
    assert InLeaf(m, DatedView(s), g, HourTail(hr.day, hr.hour));
  }

  /** An `after` read after an hour's start that it sorts before. */
  lemma AfterShowsMore(read: Reading, own: string, c: Bound)
    requires ReadsHours(read) && read(own).Some? && PrintableInstant(read(own).value) && !AtFullHour(read(own).value)
    requires OnTheHour(c) && !NotLate(read, own, c)
    ensures var i := read(own).value;
            var library := [AssetAt("a", At(HourStart(HourOf(i)))), AssetAt("b", HourLast(HourOf(i)))];
            LayoutsDiffer(read, ViewScope([], Some(own), None), library, true)
  {
    hide Show, Less, LayoutsDiffer;
    var i := read(own).value;
    var hr := HourOf(i);
    var g, x := AssetAt("a", At(HourStart(hr))), AssetAt("b", HourLast(hr));
    HourEnds(hr);
    HoursSort(c, HourStart(hr));
    if c != HourStart(hr) { LessTransitive(own, Show(c), Show(HourStart(hr))); }
    LessAsymmetric(own, Show(HourStart(hr)));
    WithinHour(g, hr);
    HourShows(read, ViewScope([], Some(own), None), x, g);
  }

  /** A `before` read before an hour's end that it sorts after. */
  lemma BeforeShowsMore(read: Reading, own: string, c: Bound)
    requires ReadsHours(read) && read(own).Some? && PrintableInstant(read(own).value) && !AtFullHour(read(own).value)
    requires OnTheHour(c) && !NotEarly(read, own, c)
    ensures var j := read(own).value;
            var library := [AssetAt("a", HourLast(HourOf(j))), AssetAt("b", At(HourStart(HourOf(j))))];
            LayoutsDiffer(read, ViewScope([], None, Some(own)), library, true)
  {
    hide Show, Less, LayoutsDiffer;
    var j := read(own).value;
    var hr := HourOf(j);
    var g, x := AssetAt("a", HourLast(hr)), AssetAt("b", At(HourStart(hr)));
    HourEnds(hr);
    NextHour(hr, c);
    HoursSort(HourEnd(hr), c);
    if c != HourEnd(hr) { LessTransitive(Show(HourEnd(hr)), Show(c), own); }
    LessAsymmetric(own, Show(HourEnd(hr)));
    WithinHour(g, hr);
    HourShows(read, ViewScope([], None, Some(own)), x, g);
  }

  /** An asset out of scope in an hour of a split day that another asset of the day brings into the tree. */
  lemma DayShows(read: Reading, s: Scope, x: Asset, g: Asset)
    requires ReadsHours(read) && s.ViewScope? && g.id == "a" && x.id == "b"
    requires Printable(x.when.date) && g.when.date == x.when.date
    requires NotBefore(read, s.after, x.when) && StrictlyBefore(read, s.before, x.when)
    requires var q := DayQuery(s, DayRange(x.when.date), Oldest);
             NotBefore(read, q.after, g.when) && StrictlyBefore(read, q.before, g.when)
    requires var q := HourQuery(s, HourOf(g.when), Oldest);
             NotBefore(read, q.after, g.when) && StrictlyBefore(read, q.before, g.when)
    requires !(NotBefore(read, s.after, g.when) && StrictlyBefore(read, s.before, g.when))
    ensures LayoutsDiffer(read, s, [g, x], true)
  {
    hide NotBefore, StrictlyBefore, MountOk, TreeOk, Mounted, InScope, Found, ShouldSplit, HasAssets, Follow,
      DayRange, PrintableLibrary, ViewMount, DayQuery, HourQuery, WholeQuery, HourTail;
    TwoAssets(g, x);
    var m, hr := ViewMount(read, s, [g, x], true), HourOf(g.when);
    ViewMountOk(read, s, [g, x], true);
    FaithfulMount(m);
    DayRangeStart(hr.day);
    ViewMountFinds(read, s, [g, x], true, DayQuery(s, DayRange(hr.day), Oldest), g);
    ViewMountFinds(read, s, [g, x], true, HourQuery(s, hr, Oldest), g);
    ViewMountFinds(read, s, [g, x], true, HourQuery(s, hr, Oldest), x);
    AnyOrder(m.immich, s, DayRange(hr.day), g);
    ViewMountSplits(read, s, [g, x], true, DayRange(hr.day));
    FoundHourReached(m, DatedView(s), x, g);
    WholeFinds(m.immich, s, Oldest, g);
    assert InLeaf(m, DatedView(s), g, HourTail(hr.day, hr.hour));
  }

  /** And one on a day of its own, that another asset of the year brings into the tree. */
  lemma MonthShows(read: Reading, s: Scope, x: Asset, g: Asset)
    requires ReadsHours(read) && s.ViewScope? && g.id == "a" && x.id == "b"
    requires Printable(x.when.date) && Printable(g.when.date) && g.when.date.y == x.when.date.y
    requires NotBefore(read, s.after, x.when) && StrictlyBefore(read, s.before, x.when)
    requires var q := DayQuery(s, MonthRange(g.when.date.y, g.when.date.m), Newest);
             NotBefore(read, q.after, g.when) && StrictlyBefore(read, q.before, g.when)
    requires var q := DayQuery(s, DayRange(g.when.date), Oldest);
             NotBefore(read, q.after, g.when) && StrictlyBefore(read, q.before, g.when)
    requires !(NotBefore(read, s.after, g.when) && StrictlyBefore(read, s.before, g.when))
    ensures LayoutsDiffer(read, s, [g, x], false)
  {
    hide NotBefore, StrictlyBefore, MountOk, TreeOk, Mounted, InScope, Found, ShouldSplit, HasAssets, Follow,
      DayRange, PrintableLibrary, ViewMount, DayQuery, WholeQuery, YearName, MonthName, DateText;
    TwoAssets(g, x);
    var m, d := ViewMount(read, s, [g, x], false), g.when.date;
    ViewMountOk(read, s, [g, x], false);
    FaithfulMount(m);
    DayRangeStart(d);
    ViewMountFinds(read, s, [g, x], false, DayQuery(s, MonthRange(d.y, d.m), Newest), g);
    ViewMountFinds(read, s, [g, x], false, DayQuery(s, DayRange(d), Oldest), g);
    ViewMountFinds(read, s, [g, x], false, DayQuery(s, DayRange(d), Oldest), x);
    FoundDayReached(m, DatedView(s), x, g);
    ViewMountSplits(read, s, [g, x], false, DayRange(d));
    WholeFinds(m.immich, s, Oldest, g);
    assert InLeaf(m, DatedView(s), g, DayTail(d));
  }

  /** An `after` read within a day whose midnight it sorts before. */
  lemma AfterLeaksInDay(read: Reading, own: string, d: Date)
    requires ReadsHours(read) && read(own).Some? && PrintableInstant(read(own).value)
    requires Printable(d) && Before(read(own).value, At(IsoBoundary(NextDay(d)))) && !NotLate(read, own, IsoBoundary(d))
    ensures var library := [AssetAt("a", Instant(d, MIDNIGHT, 0)), AssetAt("b", DayEnd(d))];
            LayoutsDiffer(read, ViewScope([], Some(own), None), library, true)
  {
    hide Show, Less, LayoutsDiffer;
    var s, i := ViewScope([], Some(own), None), read(own).value;
    var g, x := AssetAt("a", Instant(d, MIDNIGHT, 0)), AssetAt("b", DayEnd(d));
    DayRangeStart(d);
    NextDayAdjacent(d, i.date);
    LessAsymmetric(own, Show(IsoBoundary(d)));
    assert OnTheHour(IsoBoundary(d)) && OnTheHour(IsoBoundary(NextDay(d))) && OnTheHour(HourEnd(HourOf(g.when)));
    DayShows(read, s, x, g);
  }

  /** Or within a year, after the start of a month that it sorts before. */
  lemma AfterLeaksInMonth(read: Reading, own: string, y: nat, mo: nat)
    requires ReadsHours(read) && read(own).Some? && PrintableInstant(read(own).value)
    requires 1000 <= y <= 9998 && 1 <= mo <= 12 && Before(read(own).value, At(IsoBoundary(Date(y + 1, 1, 1))))
    requires !NotLate(read, own, IsoBoundary(Date(y, mo, 1)))
    ensures var library := [AssetAt("a", Instant(Date(y, mo, 1), MIDNIGHT, 0)), AssetAt("b", DayEnd(Date(y, 12, 31)))];
            LayoutsDiffer(read, ViewScope([], Some(own), None), library, false)
  {
    hide Show, Less, LayoutsDiffer;
    var s, start := ViewScope([], Some(own), None), Date(y, mo, 1);
    var g, x := AssetAt("a", Instant(start, MIDNIGHT, 0)), AssetAt("b", DayEnd(Date(y, 12, 31)));
    LessAsymmetric(own, Show(IsoBoundary(start)));
    assert OnTheHour(IsoBoundary(start)) && OnTheHour(IsoBoundary(MonthRange(y, mo).end));
    assert OnTheHour(IsoBoundary(NextDay(start)));
    MonthShows(read, s, x, g);
  }

  /** A `before` read within a day whose end it sorts after. */
  lemma BeforeLeaksInDay(read: Reading, own: string, d: Date)
    requires ReadsHours(read) && read(own).Some? && PrintableInstant(read(own).value)
    requires Printable(d) && Before(At(IsoBoundary(d)), read(own).value)
             && !NotEarly(read, own, IsoBoundary(NextDay(d)))
    ensures var library := [AssetAt("a", DayEnd(d)), AssetAt("b", Instant(d, MIDNIGHT, 0))];
            LayoutsDiffer(read, ViewScope([], None, Some(own)), library, true)
  {
    hide Show, Less, LayoutsDiffer;
    var s, j, end := ViewScope([], None, Some(own)), read(own).value, NextDay(d);
    var g, x := AssetAt("a", DayEnd(d)), AssetAt("b", Instant(d, MIDNIGHT, 0));
    DayRangeStart(d);
    NextDayAdjacent(d, j.date);
    LessAsymmetric(own, Show(IsoBoundary(end)));
    assert OnTheHour(IsoBoundary(d)) && OnTheHour(IsoBoundary(end)) && OnTheHour(HourStart(HourOf(g.when)));
    DayShows(read, s, x, g);
  }

  /** Or within a year, before the end of a month that it sorts after. */
  lemma BeforeLeaksInMonth(read: Reading, own: string, y: nat, mo: nat)
    requires ReadsHours(read) && read(own).Some? && PrintableInstant(read(own).value)
    requires 1000 <= y <= 9998 && 1 <= mo <= 12 && Before(At(IsoBoundary(Date(y, 1, 1))), read(own).value)
    requires !NotEarly(read, own, IsoBoundary(MonthRange(y, mo).end))
    ensures var last := Date(y, mo, DaysInMonth(y, mo));
            var library := [AssetAt("a", DayEnd(last)), AssetAt("b", Instant(Date(y, 1, 1), MIDNIGHT, 0))];
            LayoutsDiffer(read, ViewScope([], None, Some(own)), library, false)
  {
    hide Show, Less, LayoutsDiffer;
    var s, j, last := ViewScope([], None, Some(own)), read(own).value, Date(y, mo, DaysInMonth(y, mo));
    var g, x := AssetAt("a", DayEnd(last)), AssetAt("b", Instant(Date(y, 1, 1), MIDNIGHT, 0));
    var end := MonthRange(y, mo).end;
    assert NextDay(last) == end;
    LessAsymmetric(own, Show(IsoBoundary(end)));
    assert OnTheHour(IsoBoundary(Date(y, mo, 1))) && OnTheHour(IsoBoundary(end)) && OnTheHour(IsoBoundary(last));
    assert !Before(g.when, j);
    MonthShows(read, s, x, g);
  }

  /** No boundary missorts on both sides. */
  lemma OneSided(read: Reading, own: string, c: Bound, e: Bound)
    requires OnTheHour(c) && OnTheHour(e)
    ensures NotLate(read, own, c) || NotEarly(read, own, e)
  {
    hide Show, Less;
    if !NotLate(read, own, c) && !NotEarly(read, own, e) {
      HoursSort(c, e);
      LessTransitive(Show(e), own, Show(c));
      LessAsymmetric(Show(e), Show(c));
    }
  }

  /** A boundary that leaks at some full hour strays at none; so if it may show an empty folder, that folder
    * shows what is out of scope. */
  lemma AfterLeaks(read: Reading, own: string, c: Bound, b: Immich)
    requires ReadsHours(read) && read(own).Some? && PrintableInstant(read(own).value) && b.read == read
    requires OnTheHour(c) && !NotLate(read, own, c) && !NeverEmpty(b, ViewScope([], Some(own), None))
    ensures exists library, splits :: LayoutsDiffer(read, ViewScope([], Some(own), None), library, splits)
  {
    hide LayoutsDiffer, NotEarly, NotLate, At, ReadsHours;
    var s := ViewScope([], Some(own), None);
    forall d | Printable(d)
      ensures InsideRange(b, s, DayRange(d))
    {
      OneSided(read, own, c, IsoBoundary(d));
    }
    if d :| Printable(d) && Meets(b, s, DayRange(d)) && !ScopeRange(b, s, DayRange(d)) {
      AfterLeaksInDay(read, own, d);
    } else {
      var y, mo :| 1000 <= y <= 9998 && 1 <= mo <= 12 && Meets(b, s, YearRange(y))
        && !ScopeRange(b, s, MonthRange(y, mo));
      AfterLeaksInMonth(read, own, y, mo);
    }
  }

  lemma BeforeLeaks(read: Reading, own: string, c: Bound, b: Immich)
    requires ReadsHours(read) && read(own).Some? && PrintableInstant(read(own).value) && b.read == read
    requires OnTheHour(c) && !NotEarly(read, own, c) && !NeverEmpty(b, ViewScope([], None, Some(own)))
    ensures exists library, splits :: LayoutsDiffer(read, ViewScope([], None, Some(own)), library, splits)
  {
    hide LayoutsDiffer, InsideRange, ScopeRange, Meets, NotEarly, NotLate, ReadsHours;
    var s := ViewScope([], None, Some(own));
    forall d | Printable(d)
      ensures InsideRange(b, s, DayRange(d))
    {
      OneSided(read, own, IsoBoundary(NextDay(d)), c);
      BeforeSides(b, own, DayRange(d));
    }
    if d :| Printable(d) && Meets(b, s, DayRange(d)) && !ScopeRange(b, s, DayRange(d)) {
      BeforeSides(b, own, DayRange(d));
      BeforeLeaksInDay(read, own, d);
    } else {
      var y, mo :| 1000 <= y <= 9998 && 1 <= mo <= 12 && Meets(b, s, YearRange(y))
        && !ScopeRange(b, s, MonthRange(y, mo));
      BeforeSides(b, own, MonthRange(y, mo));
      BeforeSides(b, own, YearRange(y));
      BeforeLeaksInMonth(read, own, y, mo);
    }
  }

  /** Main result: the two layouts of a view with one boundary agree, whatever the library, if and only if it
    * sorts on one side as HoursInScope says, or is read at a full hour and empties no folder. */
  lemma LayoutsAgreeExactly(read: Reading, own: string, starts: bool, b: Immich)
    requires ReadsHours(read) && (read(own).Some? ==> PrintableInstant(read(own).value)) && b.read == read
    ensures var s := OneBoundary(own, starts);
            HoursInScope(b, s) || (ReadAtFullHour(read, own) && NeverEmpty(b, s)) <==>
              forall library, splits :: !LayoutsDiffer(read, s, library, splits)
  {
    hide LayoutsDiffer, NeverEmpty, NotEarly, NotLate, ReadsHours, AtFullHour;
    var s := OneBoundary(own, starts);
    if HoursInScope(b, s) || (ReadAtFullHour(read, own) && NeverEmpty(b, s)) {
      forall library, splits
        ensures !LayoutsDiffer(read, s, library, splits)
      {
        NothingDiffers(read, s, library, splits, b);
      }
    } else if read(own).None? {
      UnreadEmpties(b, own, starts);
    } else if starts {
      var c :| OnTheHour(c) && !NotLate(read, own, c);
      if AtFullHour(read(own).value) { AfterLeaks(read, own, c, b); } else { AfterShowsMore(read, own, c); }
    } else {
      var c :| OnTheHour(c) && !NotEarly(read, own, c);
      if AtFullHour(read(own).value) { BeforeLeaks(read, own, c, b); } else { BeforeShowsMore(read, own, c); }
    }
  }

  lemma NothingDiffers(read: Reading, s: Scope, library: seq<Asset>, splits: bool, b: Immich)
    requires ReadsHours(read) && s.ViewScope? && b.read == read
    requires HoursInScope(b, s) || (NeverEmpty(b, s) && WholeHours(b, s))
    ensures !LayoutsDiffer(read, s, library, splits)
  {
    hide MountOk, TreeOk, Mounted, PrintableLibrary, ViewMount, InLeaf, LeafAssets, NeverEmpty, NotEarly, NotLate,
      ReadAtFullHour;
    if PrintableLibrary(library) {
      var m := ViewMount(read, s, library, splits);
      ViewMountOk(read, s, library, splits);
      SameReading(b, m.immich, s);
      forall a, names | InLeaf(m, DatedView(s), a, names)
        ensures a in LeafAssets(m, Folder(FlatView(s)))
      {
        LayoutsAgree(m, DatedView(s), FlatView(s), a);
      }
    }
  }

  /** A fraction just after an hour is such a boundary: `2024-05-01T05:00:00.500Z`. */
  lemma FractionShowsMore(fine: Bound)
    requires fine == MilliBound(Date(2024, 5, 1), Clock(5, 0, 0), 500)
    ensures exists library :: LayoutsDiffer(ParseBound, ViewScope([], Some(Show(fine)), None), library, true)
  {
    hide LayoutsDiffer, ParseBound, Less, Show, ReadsHours;
    var coarse := SecondBound(fine.date, fine.clock);
    ParseBoundReads();
    BoundRoundTrip(fine);
    ClashMissorts(fine, coarse);
    AfterShowsMore(ParseBound, Show(fine), coarse);
  }

  // ---------- an asset in a wrong place ----------

  /** Some library has a leaf that shows an asset out of scope, or elsewhere than at the path of its date. */
  ghost predicate Misplaces(read: Reading, s: Scope, library: seq<Asset>, splits: bool) {
    var m := ViewMount(read, s, library, splits);
    PrintableLibrary(library)
    && exists a, names ::
         && InLeaf(m, DatedView(s), a, names)
         && !(InScope(m.immich, s, a) && Printable(a.when.date) && names == LeafTail(m, DatedView(s), a))
  }

  lemma HourMisplaces(read: Reading, s: Scope, x: Asset, g: Asset)
    requires ReadsHours(read) && s.ViewScope? && g.id == "a" && x.id == "b"
    requires Printable(x.when.date) && Printable(g.when.date) && HourOf(g.when) != HourOf(x.when)
    requires NotBefore(read, s.after, x.when) && StrictlyBefore(read, s.before, x.when)
    requires var q := HourQuery(s, HourOf(x.when), Oldest);
             NotBefore(read, q.after, g.when) && StrictlyBefore(read, q.before, g.when)
    ensures Misplaces(read, s, [g, x], true)
  {
    hide NotBefore, StrictlyBefore, MountOk, TreeOk, Mounted, InScope, Found, ShouldSplit, HasAssets, Follow,
      DayRange, PrintableLibrary, ViewMount, DayQuery, HourQuery, WholeQuery, HourTail, LeafTail, Printable;
    TwoAssets(g, x);
    var m, hr := ViewMount(read, s, [g, x], true), HourOf(x.when);
    ViewMountOk(read, s, [g, x], true);
    FaithfulMount(m);
    ViewMountFinds(read, s, [g, x], true, HourQuery(s, hr, Oldest), g);
    ViewMountFinds(read, s, [g, x], true, HourQuery(s, hr, Oldest), x);
    DayRangeStart(hr.day);
    DayFields(x, hr.day);
    HasAssetsKeeps(m.immich, s, DayRange(hr.day), x);
    RangeHolds(m.immich, s, DayRange(hr.day), Oldest, x);
    ViewMountSplits(read, s, [g, x], true, DayRange(hr.day));
    FoundHourReached(m, DatedView(s), x, x);
    OwnTail(m, DatedView(s), g, hr);
    assert InLeaf(m, DatedView(s), g, HourTail(hr.day, hr.hour));
  }

  /** Another hour's path is not the asset's. */
  lemma OwnTail(m: Mount, top: Tree, a: Asset, hr: HourRange)
    requires Printable(a.when.date) && Printable(hr.day) && hr.hour < 24 && HourOf(a.when) != hr
    ensures LeafTail(m, top, a) != HourTail(hr.day, hr.hour)
  {
    hide ShouldSplit, TailHour, YearName, MonthName, DateText, HourName;
    TailsParse(a.when.date, a.when.clock.hour);
    TailsParse(hr.day, hr.hour);
  }

  /** An `after` that sorts after a full hour it is read before: the next hour shows what comes before it. */
  lemma AfterMisplaces(read: Reading, own: string, hr: HourRange)
    requires ReadsHours(read) && read(own).Some? && PrintableInstant(read(own).value)
    requires Printable(hr.day) && hr.hour < 24 && !NotEarly(read, own, HourStart(hr))
    ensures var i := read(own).value;
            var library := [AssetAt("a", i), AssetAt("b", At(HourEnd(HourOf(i))))];
            Misplaces(read, ViewScope([], Some(own), None), library, true)
  {
    hide Show, Less, Misplaces;
    var i, c := read(own).value, HourStart(hr);
    var end := HourEnd(HourOf(i));
    HourEnds(HourOf(i));
    HourEnds(hr);
    NextHour(HourOf(i), c);
    HoursSort(end, c);
    if c != end { LessTransitive(Show(end), Show(c), own); }
    var g, x := AssetAt("a", i), AssetAt("b", At(end));
    HourEnds(HourOf(x.when));
    WithinHour(g, HourOf(i));
    NextDayAdjacent(HourOf(x.when).day, i.date);
    HourMisplaces(read, ViewScope([], Some(own), None), x, g);
  }

  /** The day before. */
  function PreviousDay(d: Date): (p: Date)
    requires Valid(d) && d.y > MIN_YEAR
    ensures Valid(p) && p != LAST_DATE && NextDay(p) == d
  {
    if d.d > 1 then d.(d := d.d - 1)
    else if d.m > 1 then Date(d.y, d.m - 1, DaysInMonth(d.y, d.m - 1))
    else Date(d.y - 1, 12, 31)
  }

  function PreviousHour(hr: HourRange): (p: HourRange)
    requires Valid(hr.day) && hr.day.y > MIN_YEAR && hr.day != LAST_DATE && hr.hour < 24
    ensures Valid(p.day) && p.day != LAST_DATE && p.hour < 24 && HourEnd(p) == HourStart(hr)
  {
    if hr.hour > 0 then HourRange(hr.day, hr.hour - 1) else HourRange(PreviousDay(hr.day), 23)
  }

  /** The hour of what comes just before an instant. */
  function LastHourBefore(j: Instant): (hr: HourRange)
    requires PrintableInstant(j)
    ensures Valid(hr.day) && hr.day != LAST_DATE && hr.hour < 24 && hr.day.y >= 999
    ensures Before(At(HourStart(hr)), j) && !Before(At(HourEnd(hr)), j)
  {
    if AtFullHour(j) then PreviousHour(HourOf(j)) else HourOf(j)
  }

  lemma FromHour(p: HourRange, hr: HourRange)
    requires Valid(p.day) && p.day != LAST_DATE && p.hour < 24 && Printable(hr.day) && hr.hour < 24
    requires !Before(At(HourEnd(p)), At(HourEnd(hr)))
    ensures p.day.y >= 1000
  {
    HourEnds(hr);
    if Before(At(HourStart(p)), At(HourStart(hr))) { NextHour(p, HourStart(hr)); }
  }

  /** A `before` that sorts before a full hour it is read after: an hour shows what comes after its end. */
  lemma BeforeMisplaces(read: Reading, own: string, hr: HourRange)
    requires ReadsHours(read) && read(own).Some? && PrintableInstant(read(own).value)
    requires Printable(hr.day) && hr.hour < 24 && !NotLate(read, own, HourEnd(hr))
    ensures var last := LastHourBefore(read(own).value);
            var library := [AssetAt("a", At(HourStart(last))), AssetAt("b", At(HourStart(PreviousHour(last))))];
            Misplaces(read, ViewScope([], None, Some(own)), library, true)
  {
    hide Show, Less, Misplaces;
    var j, c := read(own).value, HourEnd(hr);
    var last := LastHourBefore(j);
    var p := PreviousHour(last);
    HourEnds(hr);
    HourEnds(last);
    HourEnds(p);
    if Before(At(HourStart(last)), At(c)) { NextHour(last, c); }
    HoursSort(c, HourStart(last));
    if c != HourStart(last) { LessTransitive(own, Show(c), Show(HourStart(last))); }
    FromHour(p, hr);
    var g, x := AssetAt("a", At(HourStart(last))), AssetAt("b", At(HourStart(p)));
    HourMisplaces(read, ViewScope([], None, Some(own)), x, g);
  }

  /** Main result: the leaves of a view with one boundary show just its scope, each asset at the path of its
    * date alone, whatever the library, if and only if the boundary sorts as LeavesExact says. */
  lemma PartitionedExactly(read: Reading, own: string, starts: bool, b: Immich)
    requires ReadsHours(read) && (read(own).Some? ==> PrintableInstant(read(own).value)) && b.read == read
    ensures var s := OneBoundary(own, starts);
            LeavesExact(b, s) <==> forall library, splits :: !Misplaces(read, s, library, splits)
  {
    hide Misplaces, LayoutsDiffer, KeepsInside, NeverEmpty, WholeHours, ReadsHours, HoursInScope, AtFullHour;
    var s := OneBoundary(own, starts);
    if LeavesExact(b, s) {
      forall library, splits
        ensures !Misplaces(read, s, library, splits)
      {
        NothingMisplaced(read, s, library, splits, b);
      }
    } else if HoursInside(b, s) {
      InexactDiffers(read, own, starts, b);
      var library, splits :| LayoutsDiffer(read, s, library, splits);
      DifferingMisplaces(read, s, library, splits);
    } else {
      var hr: HourRange :| Printable(hr.day) && hr.hour < 24 && !KeepsInside(b, s, HourStart(hr), HourEnd(hr));
      Strays(read, own, starts, b, hr);
    }
  }

  lemma Strays(read: Reading, own: string, starts: bool, b: Immich, hr: HourRange)
    requires ReadsHours(read) && (read(own).Some? ==> PrintableInstant(read(own).value)) && b.read == read
    requires Printable(hr.day) && hr.hour < 24
    requires !KeepsInside(b, OneBoundary(own, starts), HourStart(hr), HourEnd(hr))
    ensures exists library, splits :: Misplaces(read, OneBoundary(own, starts), library, splits)
  {
    hide Misplaces, ReadsHours, Show, Less;
    if starts { AfterMisplaces(read, own, hr); } else { BeforeMisplaces(read, own, hr); }
  }

  /** A boundary that never strays and yet is not exact makes the layouts differ. */
  lemma InexactDiffers(read: Reading, own: string, starts: bool, b: Immich)
    requires ReadsHours(read) && (read(own).Some? ==> PrintableInstant(read(own).value)) && b.read == read
    requires HoursInside(b, OneBoundary(own, starts)) && !LeavesExact(b, OneBoundary(own, starts))
    ensures exists library, splits :: LayoutsDiffer(read, OneBoundary(own, starts), library, splits)
  {
    hide LayoutsDiffer, HoursInside, NeverEmpty, NeverEarly, NeverLate, ReadsHours, ReadAtFullHour;
    var s := OneBoundary(own, starts);
    LayoutsAgreeExactly(read, own, starts, b);
    if HoursInScope(b, s) { InScopeLeaves(b, s); }
  }

  lemma InScopeLeaves(b: Immich, s: Scope)
    requires HoursInside(b, s) && HoursInScope(b, s)
    ensures LeavesExact(b, s)
  {
    hide NotEarly, NotLate, HoursInside, Meets, ReadAtFullHour;
    forall d | Printable(d)
      ensures InsideRange(b, s, DayRange(d))
    {
      HoursInDay(b, s, d);
    }
    forall r: DateRange | ValidRange(r)
      ensures ScopeRange(b, s, r)
    {
      assert OnTheHour(IsoBoundary(r.start)) && OnTheHour(IsoBoundary(r.end));
    }
  }

  lemma DifferingMisplaces(read: Reading, s: Scope, library: seq<Asset>, splits: bool)
    requires ReadsHours(read) && s.ViewScope? && LayoutsDiffer(read, s, library, splits)
    ensures Misplaces(read, s, library, splits)
  {
    hide PrintableLibrary, ViewMount, InLeaf, MountOk, TreeOk, Mounted, InScope, LeafTail, Printable, WholeQuery;
    var m := ViewMount(read, s, library, splits);
    ViewMountOk(read, s, library, splits);
    FaithfulMount(m);
    var a, names :| InLeaf(m, DatedView(s), a, names) && a !in LeafAssets(m, Folder(FlatView(s)));
    WholeFinds(m.immich, s, Oldest, a);
  }

  lemma NothingMisplaced(read: Reading, s: Scope, library: seq<Asset>, splits: bool, b: Immich)
    requires ReadsHours(read) && s.ViewScope? && b.read == read && LeavesExact(b, s)
    ensures !Misplaces(read, s, library, splits)
  {
    hide PrintableLibrary, ViewMount, MountOk, TreeOk, Mounted, InScope, LeafTail, Printable, InLeaf, LeavesExact;
    if PrintableLibrary(library) {
      var m := ViewMount(read, s, library, splits);
      ViewMountOk(read, s, library, splits);
      SameLeaves(b, m.immich, s);
      forall a, names | InLeaf(m, DatedView(s), a, names)
        ensures InScope(m.immich, s, a) && Printable(a.when.date) && names == LeafTail(m, DatedView(s), a)
      {
        Partitioned(m, DatedView(s), a, names);
      }
    }
  }

  lemma SameLeaves(b: Immich, c: Immich, s: Scope)
    requires b.read == c.read && LeavesExact(b, s)
    ensures LeavesExact(c, s)
  {
    hide NeverEmpty, NotEarly, NotLate, NeverEarly, NeverLate, ReadAtFullHour;
    SameReading(b, c, s);
    forall hr: HourRange | Printable(hr.day) && hr.hour < 24
      ensures KeepsInside(c, s, HourStart(hr), HourEnd(hr))
    {
      assert KeepsInside(b, s, HourStart(hr), HourEnd(hr));
    }
  }

  // ---------- a full hour with an offset ----------

  /** An `after` of a midnight with an offset, read later on that day: the layouts differ for some library. */
  lemma MidnightShowsMore(read: Reading, day: Date, rest: string)
    requires ReadsHours(read) && Printable(day) && Less(rest, "Z")
    requires var i := read(TextAt(day, MIDNIGHT, rest));
             i.Some? && ValidInstant(i.value) && i.value.date == day && i.value != Instant(day, MIDNIGHT, 0)
    ensures exists library :: LayoutsDiffer(read, ViewScope([], Some(TextAt(day, MIDNIGHT, rest)), None), library, true)
  {
    hide LayoutsDiffer, TextAt, Less, ReadsHours;
    TextOrder(day, MIDNIGHT, rest, IsoBoundary(day));
    NextDayAdjacent(day, day);
    AfterLeaksInDay(read, TextAt(day, MIDNIGHT, rest), day);
  }

  /** An `after` of a later full hour with an offset, read at a full hour of that day: it sorts as LeavesExact
    * says unless it is read before the hour that ends there. */
  lemma LaterHourExact(b: Immich, day: Date, h: nat, rest: string)
    requires Printable(day) && 1 <= h < 24 && Less(rest, "Z")
    requires var i := b.read(TextAt(day, Clock(h, 0, 0), rest));
             i.Some? && AtFullHour(i.value) && i.value.date == day
    ensures LeavesExact(b, ViewScope([], Some(TextAt(day, Clock(h, 0, 0), rest)), None))
       <==> b.read(TextAt(day, Clock(h, 0, 0), rest)).value.clock.hour >= h - 1
  {
    hide TextAt, Less, NeverEmpty, WholeHours;
    if b.read(TextAt(day, Clock(h, 0, 0), rest)).value.clock.hour >= h - 1 {
      LaterHourKept(b, day, h, rest);
    } else {
      var before := HourRange(day, h - 1);
      TextOrder(day, Clock(h, 0, 0), rest, HourStart(before));
      assert !KeepsInside(b, ViewScope([], Some(TextAt(day, Clock(h, 0, 0), rest)), None), HourStart(before),
                          HourEnd(before));
    }
  }

  lemma LaterHourKept(b: Immich, day: Date, h: nat, rest: string)
    requires Printable(day) && 1 <= h < 24 && Less(rest, "Z")
    requires var i := b.read(TextAt(day, Clock(h, 0, 0), rest));
             i.Some? && AtFullHour(i.value) && i.value.date == day && i.value.clock.hour >= h - 1
    ensures LeavesExact(b, ViewScope([], Some(TextAt(day, Clock(h, 0, 0), rest)), None))
  {
    hide TextAt, Less, Meets, NeverLate;
    var own := TextAt(day, Clock(h, 0, 0), rest);
    LessAsymmetric("Z", rest);
    forall c | OnTheHour(c)
      ensures NotEarly(b.read, own, c) && (c.clock == MIDNIGHT ==> NotLate(b.read, own, c))
    {
      TextOrder(day, Clock(h, 0, 0), rest, c);
    }
    hide NotEarly, NotLate;
    forall hr: HourRange | Printable(hr.day) && hr.hour < 24
      ensures KeepsInside(b, ViewScope([], Some(own), None), HourStart(hr), HourEnd(hr))
    {
      assert OnTheHour(HourStart(hr));
    }
    forall r: DateRange | ValidRange(r)
      ensures InsideRange(b, ViewScope([], Some(own), None), r) && ScopeRange(b, ViewScope([], Some(own), None), r)
    {
      assert OnTheHour(IsoBoundary(r.start));
    }
  }

  /** The first of May in a time zone five hours behind. */
  const WEST_MIDNIGHT := "2024-05-01T00:00:00-05:00"
  const WEST_ONE := "2024-05-01T01:00:00-05:00"

  lemma WestTexts()
    ensures WEST_MIDNIGHT == TextAt(Date(2024, 5, 1), MIDNIGHT, "-05:00")
    ensures WEST_ONE == TextAt(Date(2024, 5, 1), Clock(1, 0, 0), "-05:00")
  {
    hide DateText, ClockText;
    MayTexts();
  }

  /** Its midnight makes the layouts differ. */
  lemma WestMidnightShowsMore()
    ensures var read := AlsoReads(WEST_MIDNIGHT, Instant(Date(2024, 5, 1), Clock(5, 0, 0), 0));
            exists library :: LayoutsDiffer(read, ViewScope([], Some(WEST_MIDNIGHT), None), library, true)
  {
    hide LayoutsDiffer, TextAt, Less, ReadsHours, ParseBound;
    WestTexts();
    var i := Instant(Date(2024, 5, 1), Clock(5, 0, 0), 0);
    AlsoReadsHours(WEST_MIDNIGHT, i);
    DashBeforeZulu();
    MidnightShowsMore(AlsoReads(WEST_MIDNIGHT, i), Date(2024, 5, 1), "-05:00");
  }

  lemma DashBeforeZulu()
    ensures Less("-05:00", "Z")
  {
  }

  lemma WestOneMissorts(b: Immich)
    requires b.read(WEST_ONE) == Some(Instant(Date(2024, 5, 1), Clock(6, 0, 0), 0))
    ensures !ExactScope(b, ViewScope([], Some(WEST_ONE), None)) && !HoursInScope(b, ViewScope([], Some(WEST_ONE), None))
  {
    hide TextAt, Less, Show;
    WestTexts();
    DashBeforeZulu();
    var one := SecondBound(Date(2024, 5, 1), Clock(1, 0, 0));
    TextOrder(Date(2024, 5, 1), Clock(1, 0, 0), "-05:00", one);
    assert OnTheHour(one) && !NotLate(b.read, WEST_ONE, one);
  }

  lemma ExactShows(b: Immich, s: Scope, library: seq<Asset>, splits: bool)
    requires ReadsHours(b.read) && s.ViewScope? && LeavesExact(b, s)
    ensures !LayoutsDiffer(b.read, s, library, splits) && !Misplaces(b.read, s, library, splits)
  {
    hide LayoutsDiffer, Misplaces, ReadsHours, HoursInside, NeverEmpty, WholeHours;
    NothingDiffers(b.read, s, library, splits, b);
    NothingMisplaced(b.read, s, library, splits, b);
  }

  /** One o'clock does not, nor does it show anything in a wrong place, though it missorts. */
  lemma WestOneIsExact(b: Immich, library: seq<Asset>, splits: bool)
    requires b.read == AlsoReads(WEST_ONE, Instant(Date(2024, 5, 1), Clock(6, 0, 0), 0))
    ensures var s := ViewScope([], Some(WEST_ONE), None);
            && !ExactScope(b, s) && !HoursInScope(b, s) && LeavesExact(b, s)
            && !LayoutsDiffer(b.read, s, library, splits) && !Misplaces(b.read, s, library, splits)
  {
    hide LayoutsDiffer, Misplaces, TextAt, Less, ReadsHours, ParseBound, LeavesExact, ExactScope, HoursInScope;
    WestTexts();
    DashBeforeZulu();
    AlsoReadsHours(WEST_ONE, Instant(Date(2024, 5, 1), Clock(6, 0, 0), 0));
    LaterHourExact(b, Date(2024, 5, 1), 1, "-05:00");
    WestOneMissorts(b);
    ExactShows(b, ViewScope([], Some(WEST_ONE), None), library, splits);
  }
}
