/** Which of the paths that resolve are listed, exactly. */
module ListedPaths {
  import opened Wrappers
  import opened Calendar
  import opened FsModel
  import opened AssetNames
  import opened FsService
  import opened BucketLists
  import opened WebdavTree
  import opened TreeTheorems
  import opened MountTheorems
  import opened Descent
  import opened Partition
  import opened EmptyFolders
  import opened FilePaths

  /** The printed path of a year, month or day folder. */
  function BucketTail(levels: nat, start: Date): seq<string>
    requires Valid(start)
  {
    if levels == 1 then YearTail(start.y) else if levels == 2 then MonthTail(start.y, start.m) else DayTail(start)
  }

  /** Below a tree that is not flat: a folder at the printed path of its own range, an hour besides not
    * empty, a file in its asset's own leaf. */
  predicate Printed(m: Mount, x: Resource)
    requires InTree(x) && ValidResource(x)
  {
    match x
    case Folder(_) => true
    case Bucket(top, tail, r) => top.flat || (Printable(r.start) && tail == BucketTail(|tail|, r.start))
    case HourFolder(top, tail, hr) =>
      top.flat
      || (Printable(hr.day) && tail == HourTail(hr.day, hr.hour)
          && m.immich.find(HourQuery(top.scope, hr, Oldest)) != [])
    case AssetFile(top, tail, a) =>
      top.flat
      || (tail != [] && Printable(a.when.date) && tail[..|tail| - 1] == LeafTail(m, top, a))
    case _ => false
  }

  /** A tree whose years print, whose timeline is right and whose boundaries narrow exactly. */
  ghost predicate TreeExact(m: Mount, top: Tree) { TreeOk(m.immich, top) && ExactScope(m.immich, top.scope) }

  // ---------- listed is printed ----------

  /** Listed names below a tree resolve to what they lead to. */
  lemma FollowedResolves(m: Mount, top: Tree, tail: seq<string>)
    requires MountOk(m) && Mounted(m, top) && TreeExact(m, top) && Follow(m, Folder(top), tail).Some?
    ensures ResolveTree(m, top, tail).Some? ==> Follow(m, Folder(top), tail) == ResolveTree(m, top, tail)
  {
    hide MountOk, TreeOk, ExactScope, MonthsInside, Mounted, MemberNames, GetMember, ResolveTree, Follow, Canon;
    MountedTop(m, top);
    ExactMonths(m.immich, top.scope);
    if tail == [] {
      FollowNone(m, Folder(top));
      FolderResolves(m, top);
    } else {
      var init, name := tail[..|tail| - 1], tail[|tail| - 1];
      assert tail == init + [name];
      FollowLast(m, top, tail);
      FollowTree(m, top, init);
      var x := Follow(m, Folder(top), init).value;
      if x.Readme? {
        NothingBelowFile(m, x);
      } else if top.scope.DateView? && name == README {
        ReadmeAbove(m, x);
        ReadmeNeverResolves(m, top);
      } else {
        TreeStep(m, x, name);
      }
    }
  }

  /** The README is listed by the date root alone. */
  lemma ReadmeAbove(m: Mount, x: Resource)
    requires MountOk(m) && InTree(x) && ValidResource(x) && Canon(m, x) && Mounted(m, x.top) && x.top.scope.DateView?
    requires TreeOk(m.immich, x.top) && README in MemberNames(m, x)
    ensures TailOf(x) == []
  {
    hide MountOk, TreeOk, MemberNames, CanonBucket, CanonHour, ByName;
    MountedTop(m, x.top);
    if !x.Folder? { ReadmeOnlyAtRoot(m, x); }
  }

  lemma ReadmeNeverResolves(m: Mount, top: Tree)
    requires !top.flat
    ensures ResolveTree(m, top, [README]) == None
  {
    assert ["View"] + [README] == ["View", README] && |README| == 10;
  }

  lemma ListedIsPrinted(m: Mount, top: Tree, tail: seq<string>)
    requires MountOk(m) && Mounted(m, top) && TreeExact(m, top)
    requires Follow(m, Folder(top), tail).Some? && InTree(Follow(m, Folder(top), tail).value)
    ensures Printed(m, Follow(m, Folder(top), tail).value)
  {
    hide MountOk, TreeOk, ExactScope, LeavesExact, HoursInScope, MonthsInside, Mounted, Follow, YearName, MonthName,
      DateText, HourName, DayRange, HasAssets, LeafTail, ShouldSplit, HourQuery;
    ExactMonths(m.immich, top.scope);
    ExactLeaves(m.immich, top.scope);
    FollowTree(m, top, tail);
    var x := Follow(m, Folder(top), tail).value;
    match x
    case HourFolder(_, _, _) => ListedHour(m, top, tail);
    case AssetFile(_, _, a) =>
      FileAtLeaf(m, top, tail, a);
      LeafExact(m, top, a, tail[..|tail| - 1]);
    case _ =>
  }

  lemma ListedHour(m: Mount, top: Tree, tail: seq<string>)
    requires MountOk(m) && Mounted(m, top) && TreeExact(m, top)
    requires Follow(m, Folder(top), tail).Some? && Follow(m, Folder(top), tail).value.HourFolder?
    ensures var hr := Follow(m, Folder(top), tail).value.hour;
            ValidHour(hr) && m.immich.find(HourQuery(top.scope, hr, Oldest)) != []
  {
    hide MountOk, TreeOk, ExactScope, MonthsInside, NeverEmpty, Mounted, Follow, HasAssets, HasHour, HourQuery, Canon;
    ExactNeverEmpty(m.immich, top.scope);
    FollowInhabited(m, top, tail);
    FollowTop(m, top, tail);
    HourHeld(m, top, Follow(m, Folder(top), tail).value.hour);
  }

  lemma HourHeld(m: Mount, top: Tree, hr: HourRange)
    requires MountOk(m) && TreeExact(m, top) && ValidHour(hr)
    ensures HasHour(m.immich, top.scope, hr.day, hr.hour) <==> m.immich.find(HourQuery(top.scope, hr, Oldest)) != []
    ensures forall a :: a in m.immich.find(HourQuery(top.scope, hr, Oldest)) ==>
              InScope(m.immich, top.scope, a) && InHour(a, hr)
    ensures HasHour(m.immich, top.scope, hr.day, hr.hour) ==>
              hr.hour in HourList(m.immich, top.scope, DayRange(hr.day))
  {
    hide InScope, HourQuery, HourList, ExactScope, NamesOk, TreeOk, ReadsHours;
    var found := m.immich.find(HourQuery(top.scope, hr, Oldest));
    forall a
      ensures a in found <==> InScope(m.immich, top.scope, a) && InHour(a, hr)
      ensures InScope(m.immich, top.scope, a) ==> a in m.immich.lib
    {
      HourHolds(m.immich, top.scope, hr, Oldest, a);
      ScopeInLibrary(m.immich, top.scope, a);
    }
    if found != [] { assert found[0] in found; }
    HourListFound(m.immich, top.scope, hr.day);
  }

  lemma ScopeInLibrary(b: Immich, s: Scope, a: Asset)
    ensures InScope(b, s, a) ==> a in b.lib
  {
  }

  // ---------- printed is listed ----------

  lemma PrintedBucket(m: Mount, top: Tree, tail: seq<string>)
    requires MountOk(m) && TreeExact(m, top) && !top.flat && 1 <= |tail| <= 3
    requires ResolveTree(m, top, tail).Some? && Printed(m, ResolveTree(m, top, tail).value)
    ensures Follow(m, Folder(top), tail) == ResolveTree(m, top, tail)
  {
    hide MountOk, TreeOk, Follow, InScope, HasAssets, YearName, MonthName, DateText, DayRange, YearRange,
      MonthRange, TailRange, ResolveInDay;
    var r := TailRange(tail).value;
    assert ResolveTree(m, top, tail) == Some(Bucket(top, tail, r)) && HasAssets(m.immich, top.scope, r);
    TailsParse(r.start, 0);
    var a := AssetTakenIn(m, top, r);
    AssetFieldsIn(a, |tail|, r);
    if |tail| == 1 { ReachYear(m, top, a); }
    else if |tail| == 2 { ReachMonth(m, top, a); }
    else { ReachDay(m, top, a); }
  }

  /** A range that holds assets has a printable one. */
  lemma AssetTakenIn(m: Mount, top: Tree, r: DateRange) returns (a: Asset)
    requires MountOk(m) && TreeExact(m, top) && ValidRange(r) && HasAssets(m.immich, top.scope, r)
    ensures InScope(m.immich, top.scope, a) && InRange(a, r) && Printable(a.when.date)
  {
    hide NamesOk, MonthsExact, ExactScope, HasAssets, InScope, InRange;
    HasAssetsExact(m.immich, top.scope, r);
    a :| a in m.immich.lib && InScope(m.immich, top.scope, a) && InRange(a, r);
    AssetFields(m.immich, top.scope, a);
  }

  lemma AssetFieldsIn(a: Asset, levels: nat, r: DateRange)
    requires ValidRange(r) && Printable(r.start) && InRange(a, r) && 1 <= levels <= 3
    requires r == if levels == 1 then YearRange(r.start.y)
                  else if levels == 2 then MonthRange(r.start.y, r.start.m)
                  else DayRange(r.start)
    ensures a.when.date.y == r.start.y && (levels >= 2 ==> a.when.date.m == r.start.m)
            && (levels == 3 ==> a.when.date == r.start)
  {
    RangeFields(a, r.start.y, r.start.m);
    DayFields(a, r.start);
  }

  lemma PrintedHour(m: Mount, top: Tree, tail: seq<string>)
    requires MountOk(m) && TreeExact(m, top) && !top.flat && |tail| == 4
    requires var x := ResolveTree(m, top, tail); x.Some? && x.value.HourFolder? && Printed(m, x.value)
    ensures Follow(m, Folder(top), tail) == ResolveTree(m, top, tail)
  {
    hide MountOk, TreeOk, Follow, InScope, HasAssets, YearName, MonthName, DateText, HourName, DayRange, TailRange,
      TailHour, ShouldSplit, AssetsIn, HourQuery, HasHour, HourList, MemberNames, GetMember;
    var hr := TailHour(tail).value;
    var day, h := hr.day, hr.hour;
    TailsParse(day, h);
    assert tail[..3] == DayTail(day) && tail == DayTail(day) + [HourName(h)];
    assert ResolveTree(m, top, tail) == Some(HourFolder(top, tail, hr)) && ShouldSplit(m, top, DayRange(day));
    HourHeld(m, top, hr);
    var a := m.immich.find(HourQuery(top.scope, hr, Oldest))[0];
    ReachDay(m, top, a);
    DayRangeStart(day);
    EnterHour(m, top, day, h);
    FollowMore(m, Folder(top), DayTail(day), HourName(h));
  }

  /** A file resolved below a tree is an asset of its scope. */
  lemma ResolvedFile(m: Mount, top: Tree, tail: seq<string>)
    requires MountOk(m) && TreeExact(m, top) && !top.flat
    requires ResolveTree(m, top, tail).Some? && ResolveTree(m, top, tail).value.AssetFile?
    ensures |tail| == 4 || |tail| == 5
    ensures |tail| == 4 ==>
              && TailRange(tail[..3]).Some? && tail[3] in AssetsIn(m, top, TailRange(tail[..3]).value)
              && AssetsIn(m, top, TailRange(tail[..3]).value)[tail[3]] == ResolveTree(m, top, tail).value.asset
    ensures |tail| == 5 ==>
              && TailHour(tail[..4]).Some? && tail[4] in AssetsInHour(m, top, TailHour(tail[..4]).value)
              && AssetsInHour(m, top, TailHour(tail[..4]).value)[tail[4]] == ResolveTree(m, top, tail).value.asset
    ensures InScope(m.immich, top.scope, ResolveTree(m, top, tail).value.asset)
  {
    hide NamesOk, TreeOk, ExactScope, KeepsScope, ScopeRange, InsideRange, InScope, TailRange, TailHour,
      ShouldSplit, DayQuery, HourQuery, Entries, HasAssets;
    var a := ResolveTree(m, top, tail).value.asset;
    if |tail| == 4 {
      var r := TailRange(tail[..3]).value;
      EntriesSound(m.immich.find(DayQuery(top.scope, r, Oldest)));
      RangeHolds(m.immich, top.scope, r, Oldest, a);
    } else {
      var hr := TailHour(tail[..4]).value;
      EntriesSound(m.immich.find(HourQuery(top.scope, hr, Oldest)));
      HourHolds(m.immich, top.scope, hr, Oldest, a);
    }
  }

  lemma PrintedFile(m: Mount, top: Tree, tail: seq<string>)
    requires MountOk(m) && Mounted(m, top) && TreeExact(m, top) && !top.flat
    requires var x := ResolveTree(m, top, tail); x.Some? && x.value.AssetFile? && Printed(m, x.value)
    ensures Follow(m, Folder(top), tail) == ResolveTree(m, top, tail)
  {
    hide MountOk, TreeOk, Mounted, Follow, InScope, YearName, MonthName, DateText, HourName, DayRange, TailRange,
      TailHour, ShouldSplit, AssetsIn, AssetsInHour, HourQuery, DayQuery, HasHour, HasDay, MemberNames, GetMember,
      ResolveTree, Entries, ExactScope, MonthsInside, LeafAssets;
    MountedTop(m, top);
    ExactMonths(m.immich, top.scope);
    ResolvedFile(m, top, tail);
    ResolvedAt(m, top, tail);
    var x := ResolveTree(m, top, tail).value;
    var a, names, name := x.asset, tail[..|tail| - 1], tail[|tail| - 1];
    LeafHolds(m, top, a);
    FollowTree(m, top, names);
    var y := Follow(m, Folder(top), names).value;
    TailsParse(a.when.date, a.when.clock.hour);
    LeafListing(m, top, a, y);
    LeafFiles(m, y, name);
    FollowMore(m, Folder(top), names, name);
    assert names + [name] == tail;
  }

  lemma ResolvedAt(m: Mount, top: Tree, tail: seq<string>)
    requires ResolveTree(m, top, tail).Some? && InTree(ResolveTree(m, top, tail).value)
    ensures var x := ResolveTree(m, top, tail).value; x.top == top && TailOf(x) == tail
  {
    hide TailRange, TailHour, ShouldSplit, HasAssets, AssetsIn, AssetsInHour, AllAssetsOf;
  }

  /** The leaf at an asset's own path lists the day or the hour the path names. */
  lemma LeafListing(m: Mount, top: Tree, a: Asset, y: Resource)
    requires ValidResource(y) && Leaf(m, y) && (y.Bucket? || y.HourFolder?) && Canon(m, y) && y.top == top && !top.flat
    requires Printable(a.when.date) && TailOf(y) == LeafTail(m, top, a)
    ensures |TailOf(y)| == 3 ==>
              TailRange(TailOf(y)).Some? && Entries(LeafAssets(m, y)) == AssetsIn(m, top, TailRange(TailOf(y)).value)
    ensures |TailOf(y)| == 4 ==>
              TailHour(TailOf(y)).Some? && Entries(LeafAssets(m, y)) == AssetsInHour(m, top, TailHour(TailOf(y)).value)
  {
    hide YearName, MonthName, DateText, HourName, DayRange, TailRange, TailHour, ShouldSplit, HourQuery, DayQuery,
      HasAssets, Entries;
    if y.Bucket? {
      DayBucketRange(m, top, y.tail, y.range);
      TailsParse(y.range.start, 0);
    } else {
      TailsParse(y.hour.day, y.hour.hour);
    }
  }

  lemma FlatListed(m: Mount, top: Tree, tail: seq<string>)
    requires MountOk(m) && Mounted(m, top) && top.flat && ResolveTree(m, top, tail).Some?
    ensures Follow(m, Folder(top), tail) == ResolveTree(m, top, tail)
  {
    hide MountOk, TreeOk, Mounted, Follow, AllAssetsOf, MemberNames, GetMember, ResolveDated;
    MountedTop(m, top);
    FollowNone(m, Folder(top));
    if tail != [] {
      assert tail == [tail[0]] && [] + [tail[0]] == tail;
      LookupFlat(m, top, tail[0]);
      FollowMore(m, Folder(top), [], tail[0]);
    }
  }

  // ---------- exactly ----------

  /** Main result: of the paths that resolve below a tree, exactly the printed ones are listed; and
    * nothing else is ever found by listed names at such a path. */
  lemma ResolvedIsListed(m: Mount, top: Tree, tail: seq<string>)
    requires MountOk(m) && Mounted(m, top) && TreeExact(m, top) && ResolveTree(m, top, tail).Some?
    ensures InTree(ResolveTree(m, top, tail).value)
    ensures Follow(m, Folder(top), tail) == ResolveTree(m, top, tail) <==> Printed(m, ResolveTree(m, top, tail).value)
    ensures Follow(m, Folder(top), tail) == None <==> !Printed(m, ResolveTree(m, top, tail).value)
  {
    ResolvedKind(m, top, tail);
    hide MountOk, TreeExact, Mounted, Follow, ResolveTree, LeafTail, HourQuery, Printable;
    ResolvedAt(m, top, tail);
    var x := ResolveTree(m, top, tail).value;
    if Follow(m, Folder(top), tail).Some? {
      FollowedResolves(m, top, tail);
      ListedIsPrinted(m, top, tail);
    }
    if Printed(m, x) {
      if top.flat { FlatListed(m, top, tail); }
      else if x.Folder? { FollowNone(m, Folder(top)); }
      else if x.Bucket? { PrintedBucket(m, top, tail); }
      else if x.HourFolder? { PrintedHour(m, top, tail); }
      else { PrintedFile(m, top, tail); }
    }
  }

  lemma ResolvedKind(m: Mount, top: Tree, tail: seq<string>)
    requires ResolveTree(m, top, tail).Some?
    ensures var x := ResolveTree(m, top, tail).value;
            && InTree(x) && (x.Folder? ==> tail == [] && x.top == top) && (x.Bucket? ==> 1 <= |tail| <= 3)
            && (x.HourFolder? ==> |tail| == 4)
  {
    hide TailRange, TailHour, ShouldSplit, HasAssets, AssetsIn, AssetsInHour, AllAssetsOf;
  }

  // ---------- the whole mount ----------

  /** The path goes through a folder that the README of its root hides. */
  predicate Hidden(parts: seq<string>) { |parts| > 2 && parts[0] in {"Albums", "Views"} && parts[1] == README }

  /** The mounted tree the path leads into, if it does, is exact. */
  ghost predicate PathExact(m: Mount, parts: seq<string>) {
    forall top :: Mounted(m, top) && top.prefix <= parts ==> TreeExact(m, top)
  }

  lemma PathExactBefore(m: Mount, parts: seq<string>, n: nat)
    requires PathExact(m, parts) && n <= |parts|
    ensures PathOk(m, parts[..n])
  {
    hide Mounted, TreeOk, ExactScope, MonthsInside;
    forall top: Tree | Mounted(m, top) && top.prefix <= parts[..n]
      ensures TreeOk(m.immich, top) && MonthsInside(m.immich, top.scope)
    {
      assert top.prefix <= parts;
      ExactMonths(m.immich, top.scope);
    }
  }

  /** What tells, for a path that resolves, whether it is listed: client metadata and upload receipts
    * never are, a README is where its collection is enabled, and below a tree the printed ones are. */
  predicate ListedAt(m: Mount, parts: seq<string>, x: Resource)
    requires ValidResource(x)
  {
    match x
    case MacOSMetadata(_) => false
    case Receipt(_) => false
    case Readme(_) => |parts| == 1 || (parts != [] && parts[0] in m.enabled)
    case Folder(_) => true
    case Bucket(_, _, _) => Printed(m, x) && !Hidden(parts)
    case HourFolder(_, _, _) => Printed(m, x) && !Hidden(parts)
    case AssetFile(_, _, _) => Printed(m, x) && !Hidden(parts)
    case _ => true
  }

  lemma {:induction false} FollowFrom(m: Mount, x: Resource, a: seq<string>, b: seq<string>)
    requires ValidResource(x) && Follow(m, x, a).Some?
    ensures Follow(m, x, a + b) == Follow(m, Follow(m, x, a).value, b)
  {
    hide MemberNames, GetMember;
    if b == [] {
      assert a + b == a;
    } else {
      var init, last := b[..|b| - 1], b[|b| - 1];
      FollowFrom(m, x, a, init);
      assert a + b == (a + init) + [last] && (a + b)[..|a + b| - 1] == a + init;
    }
  }

  /** A path into a tree leads through a mounted one, or is hidden. */
  lemma ResolvedTop(m: Mount, parts: seq<string>) returns (top: Tree, tail: seq<string>)
    requires MountOk(m) && Resolve(m, parts).Some? && InTree(Resolve(m, parts).value)
    ensures parts == top.prefix + tail && ResolveTree(m, top, tail) == Resolve(m, parts)
    ensures Hidden(parts) ==> tail != []
    ensures !Hidden(parts) ==> Mounted(m, top)
  {
    hide MountOk, ResolveTree, ByName, IsMacOSMetadata;
    if parts[0] == "Timeline" || parts[0] == "Favorites" {
      top, tail := if parts[0] == "Timeline" then Timeline() else Favorites(), parts[1..];
    } else {
      var entries := if parts[0] == "Albums" then m.albums else m.views;
      top, tail := ByName(entries, parts[1]).value, parts[2..];
      NamedEntry(m, parts[0], parts[1], top);
      assert parts == [parts[0], parts[1]] + tail;
    }
  }

  lemma NamedEntry(m: Mount, root: string, name: string, top: Tree)
    requires MountOk(m) && (root == "Albums" || root == "Views")
    requires ByName(if root == "Albums" then m.albums else m.views, name) == Some(top)
    ensures top.prefix == [root, name]
  {
    hide TreeOk, Faithful, ByName, IsMacOSMetadata;
    EntryOk(m, if root == "Albums" then m.albums else m.views, root, name, top);
  }

  lemma TreePathIsListed(m: Mount, parts: seq<string>)
    requires MountOk(m) && PathExact(m, parts) && Resolve(m, parts).Some? && InTree(Resolve(m, parts).value)
    ensures Follow(m, MountRoot, parts) == Resolve(m, parts) <==> Printed(m, Resolve(m, parts).value) && !Hidden(parts)
    ensures Resolve(m, parts).value.Folder? ==> !Hidden(parts)
  {
    hide MountOk, TreeExact, Mounted, Follow, Resolve, ResolveTree, Printed;
    var top, tail := ResolvedTop(m, parts);
    ResolvedKind(m, top, tail);
    if Hidden(parts) {
      NothingHiddenIsListed(m, parts);
    } else {
      MountedIsListed(m, top);
      FollowFrom(m, MountRoot, top.prefix, tail);
      ResolvedIsListed(m, top, tail);
    }
  }

  /** A README of a root has nothing below it. */
  lemma NothingHiddenIsListed(m: Mount, parts: seq<string>)
    requires MountOk(m) && PathExact(m, parts) && Hidden(parts)
    ensures Follow(m, MountRoot, parts) == None
  {
    hide MountOk, Resolve, Reached, Follow, MemberNames, GetMember;
    assert parts == parts[..2] + parts[2..] && parts[..2] == [parts[0]] + [README];
    if Follow(m, MountRoot, parts).Some? {
      FollowPrefix(m, parts, 2);
      PathExactBefore(m, parts, 2);
      FollowReaches(m, parts[..2]);
      ReadmeAtTwo(m, parts[..2]);
      FollowFrom(m, MountRoot, parts[..2], parts[2..]);
      DeadEnd(m, Follow(m, MountRoot, parts[..2]).value, parts[2..]);
    }
  }

  lemma {:induction false} FollowPrefix(m: Mount, names: seq<string>, n: nat)
    requires n <= |names| && Follow(m, MountRoot, names).Some?
    ensures Follow(m, MountRoot, names[..n]).Some?
  {
    hide MemberNames, GetMember;
    if n == |names| {
      assert names[..n] == names;
    } else {
      FollowPrefix(m, names[..|names| - 1], n);
      assert names[..|names| - 1][..n] == names[..n];
    }
  }

  lemma ReadmeAtTwo(m: Mount, names: seq<string>)
    requires |names| == 2 && names[0] in {"Albums", "Views"} && names[1] == README
    ensures Resolve(m, names) == Some(Readme(names))
  {
    hide ResolveTree, ByName;
  }

  lemma {:induction false} DeadEnd(m: Mount, x: Resource, names: seq<string>)
    requires x.Readme? && names != []
    ensures Follow(m, x, names) == None
  {
    hide MemberNames, GetMember;
    var init := names[..|names| - 1];
    NothingBelowFile(m, x);
    if init == [] { FollowNone(m, x); } else { DeadEnd(m, x, init); }
  }

  lemma FixedPathIsListed(m: Mount, parts: seq<string>)
    requires MountOk(m) && Resolve(m, parts).Some?
    requires var x := Resolve(m, parts).value;
             x.MountRoot? || x.AlbumsRoot? || x.ViewsRoot? || x.WellKnown? || x.Diagnostics?
    ensures Follow(m, MountRoot, parts) == Resolve(m, parts)
  {
    FixedParts(m, parts);
    hide MountOk, Resolve, Follow, MemberNames, GetMember;
    FollowNone(m, MountRoot);
    if parts != [] {
      RootNames(m, parts[0]);
      FollowMore(m, MountRoot, [], parts[0]);
      assert [] + [parts[0]] == [parts[0]];
      if |parts| == 2 {
        DiagnosticsListed(m);
        FollowMore(m, MountRoot, [parts[0]], parts[1]);
        assert [parts[0]] + [parts[1]] == parts;
      } else {
        assert parts == [parts[0]];
      }
    }
  }

  lemma FixedParts(m: Mount, parts: seq<string>)
    requires Resolve(m, parts).Some?
    ensures var x := Resolve(m, parts).value;
            && (x.MountRoot? ==> parts == [])
            && (x.AlbumsRoot? ==> parts == ["Albums"] && parts[0] in m.enabled)
            && (x.ViewsRoot? ==> parts == ["Views"] && parts[0] in m.enabled)
            && (x.WellKnown? ==> parts == [".well-known"])
            && (x.Diagnostics? ==> parts == [".well-known", DIAGNOSTICS])
            && (x.Readme? ==>
                x.path == parts && (parts == [README] || (|parts| == 2 && parts[1] == README && parts[0] in TOPS)))
  {
    hide IsMacOSMetadata, ResolveTree, ByName;
    forall top: Tree, tail | ResolveTree(m, top, tail).Some?
      ensures InTree(ResolveTree(m, top, tail).value)
    {
      ResolvedKind(m, top, tail);
    }
  }

  lemma RootNames(m: Mount, name: string)
    ensures name in m.enabled && name in TOPS ==> name in MemberNames(m, MountRoot)
    ensures name == README || name == ".well-known" ==> name in MemberNames(m, MountRoot)
    ensures name in MemberNames(m, MountRoot) && name in TOPS ==> name in m.enabled
    ensures GetMember(m, MountRoot, name) == MountMember(name)
  {
    hide FolderNames, BucketNames, FolderMember, BucketMember, AssetsInHour, NamedFolder;
  }

  lemma DiagnosticsListed(m: Mount)
    ensures DIAGNOSTICS in MemberNames(m, WellKnown) && GetMember(m, WellKnown, DIAGNOSTICS) == Some(Diagnostics)
  {
  }

  lemma ReadmePathIsListed(m: Mount, parts: seq<string>)
    requires MountOk(m) && Resolve(m, parts).Some? && Resolve(m, parts).value.Readme?
    ensures Follow(m, MountRoot, parts) == Resolve(m, parts) <==> ListedAt(m, parts, Resolve(m, parts).value)
  {
    FixedParts(m, parts);
    hide MountOk, Resolve, Follow, MemberNames, GetMember, MountMember;
    var root := parts[0];
    FollowNone(m, MountRoot);
    RootNames(m, root);
    assert [] + [root] == [root];
    if |parts| == 1 {
      ReadmeOfRoot();
      FollowMore(m, MountRoot, [], root);
      assert parts == [root];
    } else {
      assert parts == [root] + [README] == [root, README];
      if root in m.enabled {
        FollowMore(m, MountRoot, [], root);
        ReadmeListed(m, root);
        FollowMore(m, MountRoot, [root], README);
      } else {
        FollowFirst(m, root, README);
      }
    }
  }

  lemma ReadmeOfRoot()
    ensures MountMember(README) == Some(Readme([README]))
  {
  }

  lemma FollowFirst(m: Mount, first: string, last: string)
    ensures Follow(m, MountRoot, [first] + [last]).Some? ==> first in MemberNames(m, MountRoot)
  {
    hide MemberNames, GetMember;
    var one := [first];
    assert one[..|one| - 1] == [] && (one + [last])[..|one + [last]| - 1] == one;
    assert Follow(m, MountRoot, []) == Some(MountRoot);
    assert Follow(m, MountRoot, one).Some? ==> one[0] in MemberNames(m, MountRoot);
  }

  lemma ReadmeListed(m: Mount, root: string)
    requires root in TOPS
    ensures MountMember(root).Some?
    ensures var x := MountMember(root).value;
            README in MemberNames(m, x) && GetMember(m, x, README) == Some(Readme([root, README]))
  {
    hide YearNames, AllAssetsOf, NamedFolder, BucketMember, BucketNames;
    assert ["Timeline"] + [README] == ["Timeline", README] && ["Favorites"] + [README] == ["Favorites", README];
  }

  /** Main result: of all paths of the mount that resolve, exactly the listed ones are reached from the
    * root by listed names, and then they lead to what they resolve to. */
  lemma PathIsListed(m: Mount, parts: seq<string>)
    requires MountOk(m) && PathExact(m, parts) && Resolve(m, parts).Some?
    ensures Follow(m, MountRoot, parts) == Resolve(m, parts) <==> ListedAt(m, parts, Resolve(m, parts).value)
    ensures Follow(m, MountRoot, parts).Some? ==> Follow(m, MountRoot, parts) == Resolve(m, parts)
  {
    hide MountOk, PathExact, Resolve, Follow, Printed;
    var x := Resolve(m, parts).value;
    if Follow(m, MountRoot, parts).Some? {
      PathExactBefore(m, parts, |parts|);
      assert parts[..|parts|] == parts;
      FollowReaches(m, parts);
    }
    if InTree(x) { TreePathIsListed(m, parts); FolderIsPrinted(m, x); }
    else if x.Readme? { ReadmePathIsListed(m, parts); }
    else if !x.MacOSMetadata? && !x.Receipt? { FixedPathIsListed(m, parts); }
  }

  lemma FolderIsPrinted(m: Mount, x: Resource)
    requires InTree(x) && ValidResource(x)
    ensures x.Folder? ==> Printed(m, x)
  {
  }
}
