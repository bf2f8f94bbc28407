/** Down a date tree by listed names: each level that holds an asset of the scope is entered, and what is
  * reached is canonical. */
module Descent {
  import opened Wrappers
  import opened Calendar
  import opened FsModel
  import opened AssetNames
  import opened FsService
  import opened BucketLists
  import opened WebdavTree
  import opened TreeTheorems
  import opened MountTheorems

  // ---------- going down ----------

  lemma EnterYear(m: Mount, top: Tree, y: nat)
    requires MountOk(m) && TreeOk(m.immich, top) && !top.flat && HasYear(m.immich, top.scope, y)
    ensures YearName(y) in MemberNames(m, Folder(top))
    ensures GetMember(m, Folder(top), YearName(y)) == Some(Bucket(top, YearTail(y), YearRange(y)))
    ensures 1000 <= y <= 9998
  {
    hide YearList, MemberNames, GetMember, ResolveTree, Faithful, MonthsExact, YearName, TailRange, HasAssets,
      NamesOk, Spanned;
    assert 1000 <= y <= 9998;
    YearListFound(m.immich, top.scope);
    assert YearName(y) in YearNames(m, top);
    TailsParse(Date(y, 1, 1), 0);
    BucketNamesPlain(Date(y, 1, 1), 0);
    PlainIsNoReadme(YearName(y));
    LookupYear(m, top, YearName(y), YearRange(y));
  }

  lemma EnterMonth(m: Mount, top: Tree, y: nat, mo: nat)
    requires MountOk(m) && TreeOk(m.immich, top) && !top.flat && 1000 <= y <= 9998 && 1 <= mo <= 12
    requires HasMonth(m.immich, top.scope, y, mo)
    ensures ValidResource(Bucket(top, YearTail(y), YearRange(y)))
    ensures MonthName(y, mo) in MemberNames(m, Bucket(top, YearTail(y), YearRange(y)))
    ensures GetMember(m, Bucket(top, YearTail(y), YearRange(y)), MonthName(y, mo))
         == Some(Bucket(top, MonthTail(y, mo), MonthRange(y, mo)))
  {
    hide MonthList, GetMember, ResolveTree, Faithful, MonthsExact, YearName, MonthName, TailRange, HasAssets,
      NamesOk, PrintableYears, ShouldSplit, HasMonth, HoldsAny;
    MonthListFound(m.immich, top.scope, y);
    assert FirstOf(Date(y, mo, 1), y);
    EnterListedMonth(m, top, y, mo);
  }

  /** A listed month is entered, whether or not it holds an asset of the scope. */
  lemma EnterListedMonth(m: Mount, top: Tree, y: nat, mo: nat)
    requires MountOk(m) && TreeOk(m.immich, top) && !top.flat && 1000 <= y <= 9998 && 1 <= mo <= 12
    requires Date(y, mo, 1) in MonthList(m.immich, top.scope, YearRange(y))
    ensures ValidResource(Bucket(top, YearTail(y), YearRange(y)))
    ensures MonthName(y, mo) in MemberNames(m, Bucket(top, YearTail(y), YearRange(y)))
    ensures GetMember(m, Bucket(top, YearTail(y), YearRange(y)), MonthName(y, mo))
         == Some(Bucket(top, MonthTail(y, mo), MonthRange(y, mo)))
  {
    hide MountOk, TreeOk, MonthList, BucketNames, GetMember, ResolveTree, YearName, MonthName, TailRange, HasAssets;
    ListedMonthHas(m, top, y, mo);
    TailsParse(Date(y, mo, 1), 0);
    assert YearTail(y) + [MonthName(y, mo)] == MonthTail(y, mo);
    LookupBucket(m, top, YearTail(y), YearRange(y), MonthName(y, mo), MonthRange(y, mo));
  }

  lemma ListedMonthHas(m: Mount, top: Tree, y: nat, mo: nat)
    requires MountOk(m) && TreeOk(m.immich, top) && 1000 <= y <= 9998 && 1 <= mo <= 12
    requires Date(y, mo, 1) in MonthList(m.immich, top.scope, YearRange(y))
    ensures HasAssets(m.immich, top.scope, MonthRange(y, mo))
    ensures MonthName(y, mo) in BucketNames(m, top, YearTail(y), YearRange(y))
  {
    hide MonthList, Faithful, MonthsExact, NamesOk, HasAssets, PrintableYears, HasMonth, HoldsAny, YearName, MonthName,
      DayNames, HourNames, ShouldSplit, AssetsIn;
    MonthListFound(m.immich, top.scope, y);
    assert FirstOf(Date(y, mo, 1), y);
    assert MonthName(y, mo) in MonthNames(m, top, YearRange(y));
  }

  lemma EnterDay(m: Mount, top: Tree, day: Date)
    requires MountOk(m) && !top.flat && Printable(day) && HasDay(m.immich, top.scope, day)
    ensures ValidResource(Bucket(top, MonthTail(day.y, day.m), MonthRange(day.y, day.m)))
    ensures DateText(day) in MemberNames(m, Bucket(top, MonthTail(day.y, day.m), MonthRange(day.y, day.m)))
    ensures GetMember(m, Bucket(top, MonthTail(day.y, day.m), MonthRange(day.y, day.m)), DateText(day))
         == Some(Bucket(top, DayTail(day), DayRange(day)))
  {
    hide DayList, GetMember, ResolveTree, Faithful, YearName, MonthName, DateText, TailRange, HasAssets, NamesOk,
      ShouldSplit, HasDay, DayRange, InsideRange;
    DayListKeeps(m.immich, top.scope, day.y, day.m, day);
    EnterListedDay(m, top, day);
  }

  lemma EnterListedDay(m: Mount, top: Tree, day: Date)
    requires MountOk(m) && !top.flat && Printable(day)
    requires day in DayList(m.immich, top.scope, MonthRange(day.y, day.m))
    ensures ValidResource(Bucket(top, MonthTail(day.y, day.m), MonthRange(day.y, day.m)))
    ensures DateText(day) in MemberNames(m, Bucket(top, MonthTail(day.y, day.m), MonthRange(day.y, day.m)))
    ensures GetMember(m, Bucket(top, MonthTail(day.y, day.m), MonthRange(day.y, day.m)), DateText(day))
         == Some(Bucket(top, DayTail(day), DayRange(day)))
  {
    hide DayList, GetMember, ResolveTree, Faithful, YearName, MonthName, DateText, TailRange, HasAssets, NamesOk,
      ShouldSplit, HasDay, DayRange, InsideRange;
    DayListKeeps(m.immich, top.scope, day.y, day.m, day);
    assert DateText(day) in DayNames(m, top, MonthRange(day.y, day.m));
    TailsParse(day, 0);
    assert MonthTail(day.y, day.m) + [DateText(day)] == DayTail(day);
    LookupBucket(m, top, MonthTail(day.y, day.m), MonthRange(day.y, day.m), DateText(day), DayRange(day));
  }

  lemma EnterHour(m: Mount, top: Tree, day: Date, h: nat)
    requires MountOk(m) && !top.flat && Printable(day) && h < 24
    requires ValidRange(DayRange(day)) && ShouldSplit(m, top, DayRange(day))
    requires h in HourList(m.immich, top.scope, DayRange(day))
    ensures ValidResource(Bucket(top, DayTail(day), DayRange(day)))
    ensures HourName(h) in MemberNames(m, Bucket(top, DayTail(day), DayRange(day)))
    ensures GetMember(m, Bucket(top, DayTail(day), DayRange(day)), HourName(h))
         == Some(HourFolder(top, HourTail(day, h), HourRange(day, h)))
  {
    hide HourList, GetMember, ResolveTree, ResolveInDay, Faithful, YearName, MonthName, DateText, HourName,
      TailRange, TailHour, HasAssets, NamesOk, ShouldSplit, DayRange;
    assert HourName(h) in HourNames(m, top, DayRange(day));
    TailsParse(day, h);
    LookupHour(m, top, DayTail(day), DayRange(day), HourName(h), HourRange(day, h));
  }

  lemma FollowMore(m: Mount, x: Resource, names: seq<string>, name: string)
    requires ValidResource(x) && Follow(m, x, names).Some?
    requires name in MemberNames(m, Follow(m, x, names).value)
    ensures Follow(m, x, names + [name]) == GetMember(m, Follow(m, x, names).value, name)
  {
    hide MemberNames, GetMember;
    assert (names + [name])[..|names|] == names;
  }

  lemma HourBound(a: Asset)
    ensures a.when.clock.hour < 24 && Valid(a.when.date)
  {
  }

  lemma AssetFields(b: Immich, s: Scope, a: Asset)
    requires InScope(b, s, a)
    ensures HasYear(b, s, a.when.date.y) && HasMonth(b, s, a.when.date.y, a.when.date.m)
    ensures HasDay(b, s, a.when.date) && HasHour(b, s, a.when.date, a.when.clock.hour)
    ensures PrintableYears(b, s) ==> Printable(a.when.date)
  {
    HourBound(a);
    assert a in b.lib;
  }

  lemma ReachYear(m: Mount, top: Tree, a: Asset)
    requires MountOk(m) && TreeOk(m.immich, top) && !top.flat && InScope(m.immich, top.scope, a)
    requires Printable(a.when.date)
    ensures Follow(m, Folder(top), YearTail(a.when.date.y))
         == Some(Bucket(top, YearTail(a.when.date.y), YearRange(a.when.date.y)))
  {
    hide MountOk, TreeOk, MemberNames, GetMember, InScope, HasYear, HasMonth, HasDay, HasHour, Follow, YearName;
    AssetFields(m.immich, top.scope, a);
    EnterYear(m, top, a.when.date.y);
    FollowNone(m, Folder(top));
    FollowMore(m, Folder(top), [], YearName(a.when.date.y));
    assert [] + [YearName(a.when.date.y)] == YearTail(a.when.date.y);
  }

  lemma ReachMonth(m: Mount, top: Tree, a: Asset)
    requires MountOk(m) && TreeOk(m.immich, top) && !top.flat && InScope(m.immich, top.scope, a)
    requires Printable(a.when.date)
    ensures Follow(m, Folder(top), MonthTail(a.when.date.y, a.when.date.m))
         == Some(Bucket(top, MonthTail(a.when.date.y, a.when.date.m), MonthRange(a.when.date.y, a.when.date.m)))
  {
    hide MountOk, TreeOk, MemberNames, GetMember, InScope, HasYear, HasMonth, HasDay, HasHour, Follow, YearName,
      MonthName;
    AssetFields(m.immich, top.scope, a);
    var day := a.when.date;
    ReachYear(m, top, a);
    EnterMonth(m, top, day.y, day.m);
    FollowMore(m, Folder(top), YearTail(day.y), MonthName(day.y, day.m));
    assert YearTail(day.y) + [MonthName(day.y, day.m)] == MonthTail(day.y, day.m);
  }

  lemma ReachDay(m: Mount, top: Tree, a: Asset)
    requires MountOk(m) && TreeOk(m.immich, top) && !top.flat && InScope(m.immich, top.scope, a)
    requires Printable(a.when.date)
    ensures Follow(m, Folder(top), DayTail(a.when.date))
            == Some(Bucket(top, DayTail(a.when.date), DayRange(a.when.date)))
  {
    hide MountOk, TreeOk, MemberNames, GetMember, InScope, HasYear, HasMonth, HasDay, HasHour, Follow, YearName,
      MonthName, DateText, DayRange;
    AssetFields(m.immich, top.scope, a);
    var day := a.when.date;
    ReachMonth(m, top, a);
    EnterDay(m, top, day);
    FollowMore(m, Folder(top), MonthTail(day.y, day.m), DateText(day));
    assert MonthTail(day.y, day.m) + [DateText(day)] == DayTail(day);
  }

  lemma FollowNone(m: Mount, x: Resource)
    requires ValidResource(x)
    ensures Follow(m, x, []) == Some(x)
  {
  }

  // ---------- coming back ----------

  /** Below a tree, listed names lead to canonical folders whose tail is the names followed. */
  lemma {:induction false} FollowTree(m: Mount, top: Tree, names: seq<string>)
    requires MountOk(m) && Mounted(m, top) && TreeOk(m.immich, top) && MonthsInside(m.immich, top.scope)
    requires Follow(m, Folder(top), names).Some?
    ensures var x := Follow(m, Folder(top), names).value;
            x.Readme? || (InTree(x) && Canon(m, x) && x.top == top && TailOf(x) == names)
  {
    hide MountOk, Mounted, TreeOk, MonthsInside, MemberNames, GetMember, CanonBucket, CanonHour;
    if names != [] {
      var init, last := names[..|names| - 1], names[|names| - 1];
      assert names == init + [last];
      FollowTree(m, top, init);
      var x := Follow(m, Folder(top), init).value;
      if x.Readme? {
        NothingBelowFile(m, x);
      } else {
        StepBelow(m, x, last);
      }
    }
  }

  lemma NothingBelowFile(m: Mount, x: Resource)
    requires x.AssetFile? || x.Readme?
    ensures MemberNames(m, x) == {}
  {
  }

  lemma StepBelow(m: Mount, x: Resource, name: string)
    requires MountOk(m) && InTree(x) && ValidResource(x) && Canon(m, x) && Mounted(m, x.top)
    requires TreeOk(m.immich, x.top) && MonthsInside(m.immich, x.top.scope) && name in MemberNames(m, x)
    ensures var child := GetMember(m, x, name);
            child.Some? && !child.value.Readme? ==>
              InTree(child.value) && Canon(m, child.value) && child.value.top == x.top
              && TailOf(child.value) == TailOf(x) + [name]
  {
    hide MountOk, Mounted, TreeOk, MonthsInside, MemberNames, Canon, BucketMember, GetMember, ResolveTree;
    MountedTop(m, x.top);
    if x.top.scope.DateView? && name == README {
      if x.Folder? { ReadmeMember(m, x); } else { ReadmeOnlyAtRoot(m, x); }
    } else {
      TreeStep(m, x, name);
    }
  }

  lemma ReadmeMember(m: Mount, x: Resource)
    requires x.Folder? && x.top.scope.DateView?
    ensures GetMember(m, x, README).Some? && GetMember(m, x, README).value.Readme?
  {
  }

  /** Listed names below a tree stay in the tree. */
  lemma {:induction false} FollowTop(m: Mount, top: Tree, names: seq<string>)
    requires Follow(m, Folder(top), names).Some?
    ensures var x := Follow(m, Folder(top), names).value;
            x.Readme? || (InTree(x) && x.top == top && TailOf(x) == names)
  {
    hide MemberNames, GetMember;
    if names != [] {
      assert names == names[..|names| - 1] + [names[|names| - 1]];
      FollowTop(m, top, names[..|names| - 1]);
      MemberTop(m, Follow(m, Folder(top), names[..|names| - 1]).value, names[|names| - 1]);
    }
  }

  lemma MemberTop(m: Mount, x: Resource, name: string)
    requires ValidResource(x) && (x.Readme? || InTree(x)) && GetMember(m, x, name).Some?
    ensures InTree(x)
    ensures var y := GetMember(m, x, name).value;
            y.Readme? || (InTree(y) && y.top == x.top && TailOf(y) == TailOf(x) + [name])
  {
    hide TailRange, TailHour, ShouldSplit, FolderNames, BucketNames, AssetsIn, AssetsInHour, AllAssetsOf;
  }
}
