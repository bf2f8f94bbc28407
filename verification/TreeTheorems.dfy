/** Following listed names through `get_member` and resolving the joined path agree, and the leaves
  * of a date tree partition what it projects. */
module TreeTheorems {
  import opened Wrappers
  import opened Text
  import opened Calendar
  import opened FsModel
  import opened Segments
  import opened AssetNames
  import opened FsService
  import opened BucketLists
  import opened WebdavTree

  // ---------- the mounts considered ----------

  ghost predicate TreeOk(b: Immich, top: Tree) { PrintableYears(b, top.scope) && MonthsExact(b, top.scope) }

  /** Folder names as `safe_segment` makes them. They need not differ: a name means its first entry. */
  predicate NamesOk(m: Mount, entries: seq<(string, Tree)>, root: string) {
    forall i :: 0 <= i < |entries| ==>
      && Safe(entries[i].0, |entries[i].0|)
      && entries[i].1.prefix == [root, entries[i].0]
      && !entries[i].1.scope.DateView?
  }

  ghost predicate MountOk(m: Mount) {
    && Faithful(m.immich)
    && (forall a :: a in m.immich.lib ==> '/' !in a.id)
    && NamesOk(m, m.albums, "Albums")
    && NamesOk(m, m.views, "Views")
  }

  /** The entry that its name means: the first of that name, unless the README hides it. */
  predicate Shown(entries: seq<(string, Tree)>, root: string, top: Tree) {
    && |top.prefix| == 2 && top.prefix[0] == root && top.prefix[1] != README
    && ByName(entries, top.prefix[1]) == Some(top)
  }

  predicate Mounted(m: Mount, top: Tree) {
    || (top == Timeline() && "Timeline" in m.enabled)
    || (top == Favorites() && "Favorites" in m.enabled)
    || ("Albums" in m.enabled && Shown(m.albums, "Albums", top))
    || ("Views" in m.enabled && Shown(m.views, "Views", top))
  }

  // ---------- canonical tails ----------

  function YearTail(y: nat): seq<string> { [YearName(y)] }

  function MonthTail(y: nat, m: nat): seq<string> { [YearName(y), MonthName(y, m)] }

  function DayTail(day: Date): seq<string>
    requires Valid(day)
  {
    [YearName(day.y), MonthName(day.y, day.m), DateText(day)]
  }

  function HourTail(day: Date, h: nat): seq<string>
    requires Valid(day)
  {
    DayTail(day) + [HourName(h)]
  }

  predicate Printable(day: Date) { Valid(day) && 1000 <= day.y <= 9998 }

  lemma TailsParse(day: Date, h: nat)
    requires Printable(day) && h < 24
    ensures TailRange(YearTail(day.y)) == Some(YearRange(day.y))
    ensures TailRange(MonthTail(day.y, day.m)) == Some(MonthRange(day.y, day.m))
    ensures TailRange(DayTail(day)) == Some(DayRange(day))
    ensures TailHour(HourTail(day, h)) == Some(HourRange(day, h))
  {
    var view := ["View"];
    hide DateRangeFromParts, HourRangeFromParts, YearName, MonthName, HourName, DateText, DayRange, YearRange,
      MonthRange;
    YearNameParses(view[0], day.y);
    MonthNameParses(view[0], day.y, day.m);
    DayNameParses(view[0], day);
    HourNameParses(view[0], day, h);
    TailParts(view[0], day, h);
  }

  lemma TailParts(view: string, day: Date, h: nat)
    requires Valid(day)
    ensures [view] + YearTail(day.y) == [view, YearName(day.y)]
    ensures [view] + MonthTail(day.y, day.m) == [view, YearName(day.y), MonthName(day.y, day.m)]
    ensures [view] + DayTail(day) == [view, YearName(day.y), MonthName(day.y, day.m), DateText(day)]
    ensures [view] + HourTail(day, h) == [view, YearName(day.y), MonthName(day.y, day.m), DateText(day), HourName(h)]
  {
    hide YearName, MonthName, HourName, DateText;
  }

  /** A folder reached by listed names: its tail is the printed form of its range, and its search finds
    * something. */
  predicate CanonBucket(b: Immich, s: Scope, tail: seq<string>, r: DateRange) {
    && Printable(r.start)
    && (|| (tail == YearTail(r.start.y) && r == YearRange(r.start.y))
        || (tail == MonthTail(r.start.y, r.start.m) && r == MonthRange(r.start.y, r.start.m))
        || (tail == DayTail(r.start) && r == DayRange(r.start)))
    && ValidRange(r) && HasAssets(b, s, r)
  }

  predicate CanonHour(m: Mount, top: Tree, tail: seq<string>, hr: HourRange) {
    && Printable(hr.day) && hr.hour < 24
    && tail == HourTail(hr.day, hr.hour)
    && HasAssets(m.immich, top.scope, DayRange(hr.day))
    && ShouldSplit(m, top, DayRange(hr.day))
  }

  /** What holds of every folder of a date tree reached by listed names. */
  predicate Canon(m: Mount, x: Resource) {
    match x
    case Folder(top) => true
    case Bucket(top, tail, range) => !top.flat && CanonBucket(m.immich, top.scope, tail, range)
    case HourFolder(top, tail, hour) => !top.flat && CanonHour(m, top, tail, hour)
    case AssetFile(_, _, _) => true
    case _ => false
  }

  predicate InTree(x: Resource) { x.Folder? || x.Bucket? || x.HourFolder? || x.AssetFile? }

  function TailOf(x: Resource): seq<string>
    requires InTree(x)
  {
    if x.Folder? then [] else x.tail
  }

  /** One listed name below a tree: `get_member` finds it, the resolver agrees, and the child is
    * again canonical. The README of a date root is not part of the tree. */
  predicate StepOk(m: Mount, x: Resource, name: string)
    requires InTree(x) && ValidResource(x)
  {
    var child := GetMember(m, x, name);
    && child.Some? && InTree(child.value) && ValidResource(child.value) && Canon(m, child.value)
    && child.value.top == x.top && TailOf(child.value) == TailOf(x) + [name]
    && ResolveTree(m, x.top, TailOf(x) + [name]) == child
    && name != "" && IsDigit(name[0]) && '/' !in name
  }

  predicate LeadsTo(m: Mount, x: Resource, name: string, child: Resource) {
    ValidResource(x) && GetMember(m, x, name) == Some(child)
  }

  // ---------- the two lookups, unfolded at one level ----------

  lemma LookupFlat(m: Mount, top: Tree, name: string)
    requires top.flat && !top.scope.DateView?
    ensures MemberNames(m, Folder(top)) == AllAssetsOf(m, top).Keys
    ensures GetMember(m, Folder(top), name) == FileIn(top, [name], AllAssetsOf(m, top), name)
    ensures ResolveTree(m, top, [name]) == FileIn(top, [name], AllAssetsOf(m, top), name)
  {
    hide AllAssetsOf, FileIn, ResolveDated, YearNames, MountMember, BucketMember, BucketNames;
  }

  lemma LookupYear(m: Mount, top: Tree, name: string, r: DateRange)
    requires !top.flat && name != README && name in YearNames(m, top)
    requires TailRange([name]) == Some(r) && HasAssets(m.immich, top.scope, r)
    ensures name in MemberNames(m, Folder(top))
    ensures GetMember(m, Folder(top), name) == Some(Bucket(top, [name], r)) == ResolveTree(m, top, [name])
  {
    hide AllAssetsOf, YearNames, TailRange, HasAssets, FileIn, MountMember, BucketMember, BucketNames, ResolveInDay;
  }

  lemma LookupBucket(m: Mount, top: Tree, tail: seq<string>, range: DateRange, name: string, r: DateRange)
    requires !top.flat && |tail| < 3 && ValidResource(Bucket(top, tail, range))
    requires name in BucketNames(m, top, tail, range)
    requires TailRange(tail + [name]) == Some(r) && HasAssets(m.immich, top.scope, r)
    ensures GetMember(m, Bucket(top, tail, range), name) == Some(Bucket(top, tail + [name], r))
    ensures ResolveTree(m, top, tail + [name]) == Some(Bucket(top, tail + [name], r))
  {
    hide BucketNames, TailRange, TailHour, HasAssets, ShouldSplit, AssetsIn, FileIn, MountMember, FolderMember,
      ResolveInDay;
  }

  lemma ResolveBelowDay(m: Mount, top: Tree, tail: seq<string>, range: DateRange)
    requires !top.flat && |tail| >= 4
    requires TailRange(tail[..3]) == Some(range) && HasAssets(m.immich, top.scope, range)
    ensures ResolveTree(m, top, tail) == ResolveInDay(m, top, tail, range)
  {
    hide TailRange, HasAssets, ResolveInDay;
  }

  lemma LookupHour(m: Mount, top: Tree, tail: seq<string>, range: DateRange, name: string, hr: HourRange)
    requires |tail| == 3 && ValidResource(Bucket(top, tail, range))
    requires ShouldSplit(m, top, range) && name in BucketNames(m, top, tail, range)
    requires TailHour(tail + [name]) == Some(hr)
    ensures GetMember(m, Bucket(top, tail, range), name) == Some(HourFolder(top, tail + [name], hr))
    ensures ResolveInDay(m, top, tail + [name], range) == Some(HourFolder(top, tail + [name], hr))
  {
    hide BucketNames, TailRange, TailHour, ShouldSplit, AssetsIn, FileIn, MountMember, FolderMember;
  }

  lemma LookupDayFile(m: Mount, top: Tree, tail: seq<string>, range: DateRange, name: string)
    requires |tail| == 3 && ValidResource(Bucket(top, tail, range)) && !ShouldSplit(m, top, range)
    ensures GetMember(m, Bucket(top, tail, range), name) == FileIn(top, tail + [name], AssetsIn(m, top, range), name)
    ensures ResolveInDay(m, top, tail + [name], range) == FileIn(top, tail + [name], AssetsIn(m, top, range), name)
  {
    hide BucketNames, TailRange, TailHour, ShouldSplit, AssetsIn, FileIn, MountMember, FolderMember;
  }

  lemma ResolveHourFile(m: Mount, top: Tree, tail: seq<string>, hr: HourRange, range: DateRange, name: string)
    requires ValidRange(range) && |tail| == 4 && TailHour(tail) == Some(hr) && ShouldSplit(m, top, range)
    ensures ResolveInDay(m, top, tail + [name], range) == FileIn(top, tail + [name], AssetsInHour(m, top, hr), name)
  {
    hide TailHour, ShouldSplit, AssetsInHour, AssetsIn, FileIn;
    assert (tail + [name])[..4] == tail;
  }

  lemma MemberOfHour(m: Mount, top: Tree, tail: seq<string>, hr: HourRange, name: string)
    requires ValidResource(HourFolder(top, tail, hr))
    ensures GetMember(m, HourFolder(top, tail, hr), name) == FileIn(top, tail + [name], AssetsInHour(m, top, hr), name)
  {
    hide AssetsInHour, FileIn, MountMember, FolderMember, BucketMember, NamedFolder;
  }

  // ---------- one step, level by level ----------

  predicate Plain(name: string) { name != "" && IsDigit(name[0]) && '/' !in name }

  lemma PlainIsNoReadme(name: string)
    requires Plain(name)
    ensures name != README && !IsMacOSMetadata(name)
  {
    assert !IsDigit('R') && !IsDigit('.');
  }

  lemma EntryNames(m: Mount, q: Query, name: string)
    requires MountOk(m) && name in Entries(m.immich.find(q))
    ensures Plain(name)
  {
    hide Entries, Faithful, NamesOk, DisplayName, LongName, Plain;
    EntriesSound(m.immich.find(q));
    var a := Entries(m.immich.find(q))[name];
    FindExact(m.immich, q, a);
    FileNamesPlain(a);
  }

  lemma FileNamesPlain(a: Asset)
    requires '/' !in a.id
    ensures Plain(DisplayName(a)) && Plain(LongName(a))
  {
    NameParts(a);
  }

  lemma DigitsPlain(s: string, rest: string)
    requires s != "" && AllDigits(s) && '/' !in rest
    ensures Plain(s + rest)
  {
    assert IsDigit((s + rest)[0]);
  }

  lemma BucketNamesPlain(day: Date, h: nat)
    requires Printable(day) && h < 24
    ensures Plain(YearName(day.y)) && Plain(MonthName(day.y, day.m)) && Plain(DateText(day)) && Plain(HourName(h))
  {
    DigitsNoSlash(Pad(2, day.m));
    DigitsNoSlash(Pad(2, day.d));
    DigitsPlain(YearName(day.y), "");
    DigitsPlain(HourName(h), "");
    DigitsPlain(Pad(4, day.y), "-" + Pad(2, day.m));
    DigitsPlain(Pad(4, day.y), "-" + Pad(2, day.m) + "-" + Pad(2, day.d));
    assert YearName(day.y) + "" == YearName(day.y) && HourName(h) + "" == HourName(h);
    assert MonthName(day.y, day.m) == Pad(4, day.y) + ("-" + Pad(2, day.m));
    assert DateText(day) == Pad(4, day.y) + ("-" + Pad(2, day.m) + "-" + Pad(2, day.d));
  }

  // ---------- steps ----------

  /** A step is good when both lookups give the same canonical child. */
  lemma StepOkIntro(m: Mount, x: Resource, name: string, child: Resource)
    requires InTree(x) && ValidResource(x) && InTree(child) && ValidResource(child) && Canon(m, child)
    requires GetMember(m, x, name) == Some(child) && ResolveTree(m, x.top, TailOf(x) + [name]) == Some(child)
    requires child.top == x.top && TailOf(child) == TailOf(x) + [name] && Plain(name)
    ensures StepOk(m, x, name)
  {
    hide GetMember, ResolveTree, Canon;
  }

  lemma FileStep(m: Mount, x: Resource, name: string, entries: map<string, Asset>)
    requires InTree(x) && ValidResource(x) && name in entries && Plain(name)
    requires GetMember(m, x, name) == FileIn(x.top, TailOf(x) + [name], entries, name)
    requires ResolveTree(m, x.top, TailOf(x) + [name]) == FileIn(x.top, TailOf(x) + [name], entries, name)
    ensures StepOk(m, x, name)
  {
    hide GetMember, ResolveTree;
    StepOkIntro(m, x, name, AssetFile(x.top, TailOf(x) + [name], entries[name]));
  }

  lemma StepFlat(m: Mount, top: Tree, name: string)
    requires MountOk(m) && top.flat && !top.scope.DateView?
    requires name in AllAssetsOf(m, top)
    ensures StepOk(m, Folder(top), name)
  {
    hide MountOk, GetMember, ResolveTree, MemberNames, FileIn, StepOk;
    EntryNames(m, WholeQuery(top.scope, Oldest), name);
    LookupFlat(m, top, name);
    assert [] + [name] == [name];
    FileStep(m, Folder(top), name, AllAssetsOf(m, top));
  }

  lemma YearNamed(m: Mount, top: Tree, name: string) returns (y: nat)
    requires MountOk(m) && TreeOk(m.immich, top) && name in YearNames(m, top)
    ensures YearList(m.immich, top.scope).Some?
    ensures name == YearName(y) && y in YearList(m.immich, top.scope).value && 1000 <= y <= 9998
    ensures HasAssets(m.immich, top.scope, YearRange(y))
  {
    hide MonthsExact, Faithful, YearList, NamesOk, YearName, HasAssets, PrintableYears, Spanned, HasYear;
    YearListFound(m.immich, top.scope);
    y :| y in YearList(m.immich, top.scope).value && y >= 0 && name == YearName(y);
  }

  lemma StepYear(m: Mount, top: Tree, name: string) returns (y: nat)
    requires MountOk(m) && TreeOk(m.immich, top) && !top.flat && name in YearNames(m, top)
    ensures StepOk(m, Folder(top), name)
    ensures YearList(m.immich, top.scope).Some? && y in YearList(m.immich, top.scope).value
    ensures LeadsTo(m, Folder(top), name, Bucket(top, YearTail(y), YearRange(y)))
  {
    hide MountOk, TreeOk, GetMember, ResolveTree, MemberNames, YearNames, StepOk, TailRange, YearList, HasAssets,
      YearName;
    y := YearNamed(m, top, name);
    var day := Date(y, 1, 1);
    TailsParse(day, 0);
    BucketNamesPlain(day, 0);
    PlainIsNoReadme(name);
    assert [] + [name] == [name] == YearTail(y);
    LookupYear(m, top, name, YearRange(y));
    StepOkIntro(m, Folder(top), name, Bucket(top, [name], YearRange(y)));
  }

  lemma MonthNamed(m: Mount, top: Tree, y: nat, name: string) returns (mo: nat)
    requires MountOk(m) && TreeOk(m.immich, top) && 1000 <= y <= 9998 && name in MonthNames(m, top, YearRange(y))
    ensures name == MonthName(y, mo) && MonthFound(m.immich, top.scope, y, mo)
  {
    hide MonthsExact, Faithful, MonthList, NamesOk, MonthName, HasAssets, HasMonth, HoldsAny;
    MonthListFound(m.immich, top.scope, y);
    var d :| d in MonthList(m.immich, top.scope, YearRange(y)) && d.y >= 0 && d.m >= 0 && name == MonthName(d.y, d.m);
    assert FirstOf(d, y);
    mo := d.m;
  }

  lemma StepMonth(m: Mount, top: Tree, y: nat, name: string) returns (mo: nat)
    requires MountOk(m) && TreeOk(m.immich, top) && !top.flat && 1000 <= y <= 9998
    requires name in MonthNames(m, top, YearRange(y))
    ensures ValidResource(Bucket(top, YearTail(y), YearRange(y)))
    ensures StepOk(m, Bucket(top, YearTail(y), YearRange(y)), name)
    ensures MonthFound(m.immich, top.scope, y, mo)
    ensures LeadsTo(m, Bucket(top, YearTail(y), YearRange(y)), name, Bucket(top, MonthTail(y, mo), MonthRange(y, mo)))
  {
    hide MountOk, TreeOk, GetMember, ResolveTree, MemberNames, MonthNames, StepOk, TailRange, HasMonth, HasAssets,
      YearName, MonthName;
    mo := MonthNamed(m, top, y, name);
    var day := Date(y, mo, 1);
    TailsParse(day, 0);
    BucketNamesPlain(day, 0);
    assert YearTail(y) + [name] == MonthTail(y, mo);
    LookupBucket(m, top, YearTail(y), YearRange(y), name, MonthRange(y, mo));
    StepOkIntro(m, Bucket(top, YearTail(y), YearRange(y)), name, Bucket(top, MonthTail(y, mo), MonthRange(y, mo)));
  }

  lemma DayNamed(m: Mount, top: Tree, y: nat, mo: nat, name: string) returns (day: Date)
    requires MountOk(m) && 1000 <= y <= 9998 && 1 <= mo <= 12 && InsideRange(m.immich, top.scope, MonthRange(y, mo))
    requires name in DayNames(m, top, MonthRange(y, mo))
    ensures Printable(day) && day.y == y && day.m == mo && name == DateText(day)
    ensures day in DayList(m.immich, top.scope, MonthRange(y, mo)) && HasAssets(m.immich, top.scope, DayRange(day))
  {
    hide Faithful, DayList, NamesOk, DateText, HasAssets, HasDay, InsideRange;
    day :| day in DayList(m.immich, top.scope, MonthRange(y, mo)) && Valid(day) && name == DateText(day);
    DayListKeeps(m.immich, top.scope, y, mo, day);
  }

  lemma StepDay(m: Mount, top: Tree, y: nat, mo: nat, name: string) returns (day: Date)
    requires MountOk(m) && !top.flat && 1000 <= y <= 9998 && 1 <= mo <= 12
    requires InsideRange(m.immich, top.scope, MonthRange(y, mo))
    requires name in DayNames(m, top, MonthRange(y, mo))
    ensures ValidResource(Bucket(top, MonthTail(y, mo), MonthRange(y, mo)))
    ensures StepOk(m, Bucket(top, MonthTail(y, mo), MonthRange(y, mo)), name)
    ensures Printable(day) && day in DayList(m.immich, top.scope, MonthRange(y, mo))
    ensures LeadsTo(m, Bucket(top, MonthTail(y, mo), MonthRange(y, mo)), name, Bucket(top, DayTail(day), DayRange(day)))
  {
    hide MountOk, InsideRange, GetMember, ResolveTree, MemberNames, DayNames, StepOk, TailRange, HasAssets,
      YearName, MonthName, DateText, DayRange, DayList;
    day := DayNamed(m, top, y, mo, name);
    TailsParse(day, 0);
    BucketNamesPlain(day, 0);
    assert MonthTail(y, mo) + [name] == DayTail(day);
    LookupBucket(m, top, MonthTail(y, mo), MonthRange(y, mo), name, DayRange(day));
    DayRangeStart(day);
    StepOkIntro(m, Bucket(top, MonthTail(y, mo), MonthRange(y, mo)), name, Bucket(top, DayTail(day), DayRange(day)));
  }

  lemma DayRangeStart(day: Date)
    requires Printable(day)
    ensures ValidRange(DayRange(day)) && DayRange(day).start == day
  {
  }

  lemma HourNamed(m: Mount, top: Tree, day: Date, name: string) returns (h: nat)
    requires MountOk(m) && Printable(day) && name in HourNames(m, top, DayRange(day))
    ensures h < 24 && name == HourName(h) && h in HourList(m.immich, top.scope, DayRange(day))
  {
    hide Faithful, HourList, NamesOk, HourName, HasHour;
    HourListFound(m.immich, top.scope, day);
    h :| h in HourList(m.immich, top.scope, DayRange(day)) && h >= 0 && name == HourName(h);
    var a :| a in m.immich.find(DayQuery(top.scope, DayRange(day), Oldest)) && a.when.clock.hour == h;
  }

  lemma StepHour(m: Mount, top: Tree, day: Date, name: string) returns (h: nat)
    requires MountOk(m) && !top.flat && Printable(day)
    requires ShouldSplit(m, top, DayRange(day)) && HasAssets(m.immich, top.scope, DayRange(day))
    requires name in HourNames(m, top, DayRange(day))
    ensures ValidResource(Bucket(top, DayTail(day), DayRange(day)))
    ensures StepOk(m, Bucket(top, DayTail(day), DayRange(day)), name)
    ensures h < 24 && h in HourList(m.immich, top.scope, DayRange(day))
    ensures LeadsTo(m, Bucket(top, DayTail(day), DayRange(day)), name,
                    HourFolder(top, HourTail(day, h), HourRange(day, h)))
  {
    hide MountOk, GetMember, ResolveTree, MemberNames, HourNames, StepOk, TailRange, TailHour, HourList, HasAssets,
      YearName, MonthName, DateText, HourName, DayRange, ShouldSplit, ResolveInDay;
    DayRangeStart(day);
    h := HourNamed(m, top, day, name);
    TailsParse(day, h);
    BucketNamesPlain(day, h);
    ResolveBelowDay(m, top, HourTail(day, h), DayRange(day));
    LookupHour(m, top, DayTail(day), DayRange(day), name, HourRange(day, h));
    StepOkIntro(m, Bucket(top, DayTail(day), DayRange(day)), name,
                HourFolder(top, HourTail(day, h), HourRange(day, h)));
  }

  lemma StepDayFile(m: Mount, top: Tree, day: Date, name: string)
    requires MountOk(m) && !top.flat && Printable(day)
    requires !ShouldSplit(m, top, DayRange(day)) && HasAssets(m.immich, top.scope, DayRange(day))
    requires name in AssetsIn(m, top, DayRange(day))
    ensures ValidResource(Bucket(top, DayTail(day), DayRange(day)))
    ensures StepOk(m, Bucket(top, DayTail(day), DayRange(day)), name)
  {
    hide MountOk, GetMember, ResolveTree, MemberNames, StepOk, TailRange, TailHour, HasAssets, YearName, MonthName,
      DateText, HourName, DayRange, ShouldSplit, ResolveInDay, Entries, DayQuery;
    DayRangeStart(day);
    TailsParse(day, 0);
    EntryNames(m, DayQuery(top.scope, DayRange(day), Oldest), name);
    ResolveBelowDay(m, top, DayTail(day) + [name], DayRange(day));
    LookupDayFile(m, top, DayTail(day), DayRange(day), name);
    FileStep(m, Bucket(top, DayTail(day), DayRange(day)), name, AssetsIn(m, top, DayRange(day)));
  }

  lemma StepHourFile(m: Mount, top: Tree, tail: seq<string>, hr: HourRange, name: string)
    requires MountOk(m) && !top.flat && CanonHour(m, top, tail, hr)
    requires name in AssetsInHour(m, top, hr)
    ensures StepOk(m, HourFolder(top, tail, hr), name)
  {
    hide MountOk, GetMember, ResolveTree, MemberNames, StepOk, TailRange, TailHour, HasAssets, YearName, MonthName,
      DateText, HourName, DayRange, ShouldSplit, ResolveInDay, Entries, HourQuery;
    DayRangeStart(hr.day);
    TailsParse(hr.day, hr.hour);
    EntryNames(m, HourQuery(top.scope, hr, Oldest), name);
    assert (tail + [name])[..3] == DayTail(hr.day);
    ResolveBelowDay(m, top, tail + [name], DayRange(hr.day));
    ResolveHourFile(m, top, tail, hr, DayRange(hr.day), name);
    MemberOfHour(m, top, tail, hr, name);
    FileStep(m, HourFolder(top, tail, hr), name, AssetsInHour(m, top, hr));
  }

  lemma StepBucket(m: Mount, top: Tree, tail: seq<string>, r: DateRange, name: string)
    requires MountOk(m) && TreeOk(m.immich, top) && MonthsInside(m.immich, top.scope) && !top.flat
    requires ValidResource(Bucket(top, tail, r)) && CanonBucket(m.immich, top.scope, tail, r)
    requires name in BucketNames(m, top, tail, r)
    ensures StepOk(m, Bucket(top, tail, r), name)
  {
    hide MountOk, TreeOk, StepOk, YearNames, MonthNames, DayNames, HourNames, AssetsIn, ShouldSplit, InsideRange,
      HasAssets, YearName, MonthName, DateText;
    if |tail| == 1 {
      var _ := StepMonth(m, top, r.start.y, name);
    } else if |tail| == 2 {
      var _ := StepDay(m, top, r.start.y, r.start.m, name);
    } else if ShouldSplit(m, top, r) {
      var _ := StepHour(m, top, r.start, name);
    } else {
      StepDayFile(m, top, r.start, name);
    }
  }

  /** Below a date tree, `get_member` and the resolver agree on every listed name. */
  lemma TreeStep(m: Mount, x: Resource, name: string)
    requires MountOk(m) && InTree(x) && ValidResource(x) && Canon(m, x)
    requires TreeOk(m.immich, x.top) && MonthsInside(m.immich, x.top.scope)
    requires x.top.scope.DateView? ==> !x.top.flat && name != README
    requires name in MemberNames(m, x)
    ensures StepOk(m, x, name)
  {
    hide MountOk, TreeOk, MonthsInside, StepOk, YearNames, BucketNames, AllAssetsOf, AssetsInHour, CanonBucket,
      CanonHour;
    match x
    case Folder(top) => if top.flat { StepFlat(m, top, name); } else { var _ := StepYear(m, top, name); }
    case Bucket(top, tail, r) => StepBucket(m, top, tail, r, name);
    case HourFolder(top, tail, hr) => StepHourFile(m, top, tail, hr, name);
    case _ =>
  }
}
