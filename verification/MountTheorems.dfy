/** Listed implies resolves: from the mount root on, every listed name leads to one resource, whether
  * a client asks the collection or the joined path. */
module MountTheorems {
  import opened Wrappers
  import opened Text
  import opened Calendar
  import opened FsModel
  import opened Segments
  import opened AssetNames
  import opened FsService
  import opened BucketLists
  import opened WebdavTree
  import opened TreeTheorems

  /** Starting at `x`, enter one listed name after another with `get_member`. */
  function Follow(m: Mount, x: Resource, names: seq<string>): (r: Option<Resource>)
    requires ValidResource(x)
    ensures r.Some? ==> ValidResource(r.value)
  {
    if names == [] then Some(x)
    else
      var last := names[|names| - 1];
      var parent := Follow(m, x, names[..|names| - 1]);
      if parent.Some? && last in MemberNames(m, parent.value) then GetMember(m, parent.value, last) else None
  }

  const TOPS: set<string> := {"Albums", "Timeline", "Favorites", "Views"}

  /** What holds of a resource reached from the mount root by the names given. */
  ghost predicate Reached(m: Mount, x: Resource, names: seq<string>)
    requires ValidResource(x)
  {
    match x
    case MountRoot => names == []
    case AlbumsRoot => names == ["Albums"] && "Albums" in m.enabled
    case ViewsRoot => names == ["Views"] && "Views" in m.enabled
    case WellKnown => names == [".well-known"]
    case Diagnostics => names == [".well-known", DIAGNOSTICS]
    case Readme(path) =>
      path == names && (names == [README] || (|names| == 2 && names[1] == README && names[0] in TOPS))
    case MacOSMetadata(_) => false
    case Receipt(_) => false
    case _ => Mounted(m, x.top) && Canon(m, x) && names == x.top.prefix + TailOf(x)
  }

  /** The tree the names lead into, if they do: its years print, its timeline is right, and its view's
    * boundaries sort rightly among the month starts. */
  ghost predicate PathOk(m: Mount, names: seq<string>) {
    forall top :: Mounted(m, top) && top.prefix <= names ==> TreeOk(m.immich, top) && MonthsInside(m.immich, top.scope)
  }

  lemma PathOkBefore(m: Mount, names: seq<string>, name: string)
    requires PathOk(m, names + [name])
    ensures PathOk(m, names)
  {
    hide Mounted, TreeOk, MonthsInside;
    forall top: Tree | top.prefix <= names
      ensures top.prefix <= names + [name]
    {
      assert forall i :: 0 <= i < |top.prefix| ==> (names + [name])[i] == names[i];
    }
  }

  // ---------- names and entries ----------

  lemma SafeIsNoMetadata(name: string, n: nat)
    requires Safe(name, n)
    ensures !IsMacOSMetadata(name) && Segment(name)
  {
    SafeHasNoSeparator(name, n);
  }

  lemma EntryOk(m: Mount, entries: seq<(string, Tree)>, root: string, name: string, top: Tree)
    requires NamesOk(m, entries, root) && ByName(entries, name) == Some(top)
    ensures (name, top) in entries && top.prefix == [root, name]
    ensures !top.scope.DateView? && !IsMacOSMetadata(name) && Segment(name)
  {
    hide Safe, IsMacOSMetadata;
    var i :| 0 <= i < |entries| && entries[i] == (name, top);
    SafeIsNoMetadata(name, |name|);
  }

  /** The first name of a mounted tree is its enabled root; an entry's tree is found by its name. */
  lemma MountedTop(m: Mount, top: Tree)
    requires MountOk(m) && Mounted(m, top)
    ensures top.prefix != [] && top.prefix[0] in m.enabled
    ensures || (top == Timeline() && top.prefix[0] == "Timeline")
            || (top == Favorites() && top.prefix[0] == "Favorites")
            || (Shown(m.albums, "Albums", top) && !top.scope.DateView?)
            || (Shown(m.views, "Views", top) && !top.scope.DateView?)
  {
    hide Faithful, NamesOk, ByName;
    if "Albums" in m.enabled && Shown(m.albums, "Albums", top) {
      EntryOk(m, m.albums, "Albums", top.prefix[1], top);
    } else if "Views" in m.enabled && Shown(m.views, "Views", top) {
      EntryOk(m, m.views, "Views", top.prefix[1], top);
    }
  }

  /** A path through a mounted tree is resolved by that tree. */
  lemma ResolveMounted(m: Mount, top: Tree, tail: seq<string>, child: Resource)
    requires MountOk(m) && Mounted(m, top)
    requires var parts := top.prefix + tail;
             |parts| >= 2 ==> !IsMacOSMetadata(parts[|parts| - 1]) && (|parts| == 2 ==> parts[1] != README)
    requires ResolveTree(m, top, tail) == Some(child)
    ensures Resolve(m, top.prefix + tail) == Some(child)
  {
    hide MountOk, Mounted, ResolveTree, IsMacOSMetadata, ByName;
    MountedTop(m, top);
    var parts := top.prefix + tail;
    assert parts[0] == top.prefix[0];
    if |top.prefix| == 2 {
      assert parts[1] == top.prefix[1] && parts[2..] == tail;
    } else {
      assert parts[1..] == tail;
    }
  }

  // ---------- one listed name ----------

  lemma StepRoot(m: Mount, name: string)
    requires MountOk(m) && name in MemberNames(m, MountRoot)
    ensures var child := GetMember(m, MountRoot, name);
            child.Some? && Reached(m, child.value, [name]) && Resolve(m, [name]) == child && Segment(name)
  {
    hide MountOk, FolderNames, BucketNames, ResolveDated, FolderMember, BucketMember, ByName;
    assert Timeline().prefix + [] == ["Timeline"] && Favorites().prefix + [] == ["Favorites"];
    assert ["Timeline"][1..] == [] && ["Favorites"][1..] == [];
  }

  lemma StepEntries(m: Mount, x: Resource, root: string, entries: seq<(string, Tree)>, name: string)
    requires MountOk(m) && ValidResource(x) && root in m.enabled
    requires || (x == AlbumsRoot && root == "Albums" && entries == m.albums)
             || (x == ViewsRoot && root == "Views" && entries == m.views)
    requires name in MemberNames(m, x)
    ensures var child := GetMember(m, x, name);
            child.Some? && Reached(m, child.value, [root, name]) && Resolve(m, [root, name]) == child && Segment(name)
  {
    hide Faithful, ByName, IsMacOSMetadata, ResolveTree, NamesOk, FolderNames, BucketNames, FolderMember,
      BucketMember;
    if name != README {
      var e :| e in entries && e.0 == name;
      var top := ByName(entries, name).value;
      EntryOk(m, entries, root, name, top);
      assert top.prefix + [] == [root, name];
      FolderResolves(m, top);
      ResolveMounted(m, top, [], Folder(top));
    }
  }

  lemma FolderResolves(m: Mount, top: Tree)
    ensures ResolveTree(m, top, []) == Some(Folder(top))
  {
  }

  lemma StepTree(m: Mount, x: Resource, names: seq<string>, name: string)
    requires MountOk(m) && PathOk(m, names) && InTree(x) && ValidResource(x) && Reached(m, x, names)
    requires name in MemberNames(m, x)
    ensures var child := GetMember(m, x, name);
            child.Some? && Reached(m, child.value, names + [name]) && Resolve(m, names + [name]) == child
              && Segment(name)
  {
    hide MountOk, TreeOk, MonthsInside, Mounted, MemberNames, GetMember, Resolve, ResolveTree, Canon,
      IsMacOSMetadata;
    MountedTop(m, x.top);
    assert x.top.prefix <= names;
    if x.top.scope.DateView? && name == README {
      StepReadme(m, x, names);
    } else {
      TreeStep(m, x, name);
      PlainIsNoReadme(name);
      var child := GetMember(m, x, name).value;
      var tail := TailOf(x) + [name];
      assert names + [name] == x.top.prefix + tail;
      assert (x.top.prefix + tail)[|x.top.prefix + tail| - 1] == name;
      ResolveMounted(m, x.top, tail, child);
    }
  }

  /** Only the date root itself lists the README; below it every name is digits first. */
  lemma StepReadme(m: Mount, x: Resource, names: seq<string>)
    requires MountOk(m) && InTree(x) && TreeOk(m.immich, x.top) && ValidResource(x) && Reached(m, x, names)
    requires x.top == Timeline() || x.top == Favorites()
    requires README in MemberNames(m, x)
    ensures var child := GetMember(m, x, README);
            child.Some? && Reached(m, child.value, names + [README]) && Resolve(m, names + [README]) == child
              && Segment(README)
  {
    hide MountOk, TreeOk, Mounted, Canon, FolderNames, BucketNames, AssetsInHour, BucketMember;
    if x.Folder? {
      assert names + [README] == x.top.prefix + [README];
    } else {
      ReadmeOnlyAtRoot(m, x);
    }
  }

  lemma ReadmeOnlyAtRoot(m: Mount, x: Resource)
    requires MountOk(m) && InTree(x) && TreeOk(m.immich, x.top) && ValidResource(x) && Canon(m, x) && !x.Folder?
    requires x.top == Timeline() || x.top == Favorites()
    ensures README !in MemberNames(m, x)
  {
    hide BucketNames, AssetsInHour, CanonBucket, CanonHour, Faithful, NamesOk, TreeOk;
    assert !IsDigit(README[0]);
    if README in MemberNames(m, x) {
      BelowRootStep(m, x, README);
    }
  }

  lemma BelowRootStep(m: Mount, x: Resource, name: string)
    requires MountOk(m) && InTree(x) && ValidResource(x) && Canon(m, x) && !x.Folder? && TreeOk(m.immich, x.top)
    requires MonthsInside(m.immich, x.top.scope) && name in MemberNames(m, x)
    ensures Plain(name)
  {
    hide MountOk, TreeOk, MonthsInside, GetMember, ResolveTree, BucketNames, AssetsInHour, CanonBucket, CanonHour;
    match x
    case Bucket(top, tail, r) => StepBucket(m, top, tail, r, name);
    case HourFolder(top, tail, hr) => StepHourFile(m, top, tail, hr, name);
    case _ =>
  }

  lemma ReachedStep(m: Mount, x: Resource, names: seq<string>, name: string)
    requires MountOk(m) && PathOk(m, names) && ValidResource(x) && Reached(m, x, names) && name in MemberNames(m, x)
    ensures var child := GetMember(m, x, name);
            child.Some? && Reached(m, child.value, names + [name]) && Resolve(m, names + [name]) == child
              && Segment(name)
  {
    hide MountOk, Resolve, FolderNames, BucketNames, AssetsInHour, FolderMember, BucketMember, NamedFolder;
    match x
    case MountRoot =>
      assert names + [name] == [name];
      StepRoot(m, name);
    case AlbumsRoot =>
      assert names + [name] == ["Albums", name];
      StepEntries(m, x, "Albums", m.albums, name);
    case ViewsRoot =>
      assert names + [name] == ["Views", name];
      StepEntries(m, x, "Views", m.views, name);
    case WellKnown =>
      WellKnownStep(m, name);
      assert names + [name] == [".well-known", DIAGNOSTICS];
    case _ => if InTree(x) { StepTree(m, x, names, name); }
  }

  lemma WellKnownStep(m: Mount, name: string)
    requires name == DIAGNOSTICS
    ensures Resolve(m, [".well-known", name]) == Some(Diagnostics) && Segment(name)
  {
    hide ResolveNamed, ResolveTree;
    assert name[0] == 'i';
  }

  lemma {:induction false} FollowReaches(m: Mount, names: seq<string>)
    requires MountOk(m) && PathOk(m, names) && Follow(m, MountRoot, names).Some?
    ensures Reached(m, Follow(m, MountRoot, names).value, names)
    ensures Resolve(m, names) == Follow(m, MountRoot, names)
    ensures forall name :: name in names ==> Segment(name)
  {
    hide MountOk, PathOk, Reached, MemberNames, GetMember, Resolve, Segment;
    if names == [] {
      RootReached(m);
    } else {
      var init, last := names[..|names| - 1], names[|names| - 1];
      assert names == init + [last];
      PathOkBefore(m, init, last);
      FollowReaches(m, init);
      ReachedStep(m, Follow(m, MountRoot, init).value, init, last);
    }
  }

  lemma RootReached(m: Mount)
    ensures Reached(m, MountRoot, []) && Resolve(m, []) == Some(MountRoot)
  {
  }

  /** Main result: wherever listed names lead, each further listed name is found by `get_member`,
    * and `get_resource_inst` on the joined path gives the same resource. Of the mount's trees only the one
    * the names lead into counts. */
  lemma ListedResolves(m: Mount, names: seq<string>, name: string)
    requires MountOk(m) && PathOk(m, names) && Follow(m, MountRoot, names).Some?
    requires name in MemberNames(m, Follow(m, MountRoot, names).value)
    ensures var found := GetMember(m, Follow(m, MountRoot, names).value, name);
            found.Some? && Resolve(m, PathParts(JoinedPath(names + [name]))) == found
  {
    hide MountOk, PathOk, Reached, MemberNames, GetMember, Resolve, Segment, JoinedPath, PathParts;
    FollowReaches(m, names);
    ReachedStep(m, Follow(m, MountRoot, names).value, names, name);
    JoinedPathParts(names + [name]);
  }

  lemma DayHasAssets(m: Mount, top: Tree, day: Date)
    requires MountOk(m) && Printable(day) && HasDay(m.immich, top.scope, day)
    ensures HasAssets(m.immich, top.scope, DayRange(day))
  {
    hide Faithful, NamesOk, HasDay, HasAssets;
    DayProbeExact(m.immich, top.scope, day);
  }

  /** The converse fails: in a split day the resolver still opens a file that is not listed there and
    * that `get_member` does not find. */
  lemma UnlistedFileResolves(m: Mount, top: Tree, day: Date, name: string)
    requires MountOk(m) && !top.flat && Printable(day) && HasDay(m.immich, top.scope, day)
    requires ValidRange(DayRange(day)) && ShouldSplit(m, top, DayRange(day)) && name in AssetsIn(m, top, DayRange(day))
    ensures ValidResource(Bucket(top, DayTail(day), DayRange(day)))
    ensures ResolveTree(m, top, DayTail(day) + [name])
         == Some(AssetFile(top, DayTail(day) + [name], AssetsIn(m, top, DayRange(day))[name]))
    ensures name !in MemberNames(m, Bucket(top, DayTail(day), DayRange(day)))
    ensures GetMember(m, Bucket(top, DayTail(day), DayRange(day)), name) == None
  {
    hide MountOk, Printable, DayTail, DayRange, TailRange, TailHour, HasDay, HasAssets, HourName, ResolveTree,
      ResolveInDay, MemberNames, GetMember, ShouldSplit, DayQuery, Entries, DisplayName, LongName;
    TailsParse(day, 0);
    DayHasAssets(m, top, day);
    DayTailShape(day);
    var found := m.immich.find(DayQuery(top.scope, DayRange(day), Oldest));
    EntriesSound(found);
    LongerThanHour(Entries(found)[name]);
    NoHourTail(DayTail(day), name);
    ResolveBelowDay(m, top, DayTail(day) + [name], DayRange(day));
    FileUnderSplitDay(m, top, DayTail(day), DayRange(day), name);
  }

  lemma DayTailShape(day: Date)
    requires Printable(day)
    ensures |DayTail(day)| == 3 && forall name: string :: (DayTail(day) + [name])[..3] == DayTail(day)
  {
    hide YearName, MonthName, DateText;
  }

  lemma NoHourTail(tail: seq<string>, name: string)
    requires |tail| == 3 && |name| > 2
    ensures TailHour(tail + [name]) == None
  {
    hide DateRangeFromParts;
    assert (["View"] + (tail + [name]))[4] == name;
  }

  lemma FileUnderSplitDay(m: Mount, top: Tree, tail: seq<string>, range: DateRange, name: string)
    requires |tail| == 3 && ValidResource(Bucket(top, tail, range)) && ShouldSplit(m, top, range)
    requires TailHour(tail + [name]) == None && |name| > 2
    ensures ResolveInDay(m, top, tail + [name], range) == FileIn(top, tail + [name], AssetsIn(m, top, range), name)
    ensures name !in MemberNames(m, Bucket(top, tail, range)) && GetMember(m, Bucket(top, tail, range), name) == None
  {
    hide TailRange, TailHour, ShouldSplit, AssetsIn, AssetsInHour, FileIn, MountMember, FolderMember, HourList;
  }

  lemma LongerThanHour(a: Asset)
    ensures |DisplayName(a)| > 2 && |LongName(a)| > 2
  {
    HeadLong(a);
    ShortIdSome(a.id, 12);
    hide NameHead, NameSuffix, ShortId, PathStem, PathSuffix;
  }

  lemma ShortIdSome(id: string, n: nat)
    requires n > 0
    ensures ShortId(id, n) != ""
  {
  }

  lemma HeadLong(a: Asset)
    ensures |NameHead(a)| > 2
  {
    hide WhenText, NameStem, ShortId;
  }
}
