/** Down to the files: every asset a tree projects is one file, at one path of listed names. */
module FilePaths {
  import opened Wrappers
  import opened AssetNames
  import opened FsService
  import opened WebdavTree
  import opened TreeTheorems
  import opened MountTheorems
  import opened Descent
  import opened EmptyFolders
  import opened Partition

  /** Ids that tell the library's assets apart: twelve characters besides dashes, different beginnings. */
  ghost predicate TellingIds(lib: set<Asset>) {
    && (forall a :: a in lib ==> '/' !in a.id && |Dashless(a.id)| >= 12)
    && (forall a, b :: a in lib && b in lib && a != b ==> Dashless(a.id)[..12] != Dashless(b.id)[..12])
  }

  /** Entering `path` below the tree, one listed name after another, ends at a file of the asset. */
  predicate FileAt(m: Mount, top: Tree, path: seq<string>, a: Asset) {
    var found := Follow(m, Folder(top), path);
    found.Some? && found.value.AssetFile? && found.value.asset == a
  }

  lemma FoundTelling(b: Immich, q: Query)
    requires Faithful(b) && TellingIds(b.lib)
    ensures Telling(b.find(q)) && DistinctIds(b.find(q))
  {
    assert FindOk(b, q);
    var found := b.find(q);
    hide Selected, Dashless;
    forall i | 0 <= i < |found|
      ensures found[i] in b.lib
    {
      FindExact(b, q, found[i]);
      assert Selected(b, q, found[i]) ==> found[i] in b.lib by { SelectedInLib(b, q, found[i]); }
    }
    assert Telling(found);
  }

  lemma SelectedInLib(b: Immich, q: Query, a: Asset)
    ensures Selected(b, q, a) ==> a in b.lib
  {
  }

  function LeafQuery(m: Mount, x: Resource): Query
    requires ValidResource(x) && Leaf(m, x)
  {
    if x.Folder? then WholeQuery(x.top.scope, Oldest)
    else if x.Bucket? then DayQuery(x.top.scope, x.range, Oldest)
    else HourQuery(x.top.scope, x.hour, Oldest)
  }

  /** A leaf lists just the names of its assets and gives each its file. */
  lemma LeafFiles(m: Mount, x: Resource, name: string)
    requires ValidResource(x) && Leaf(m, x) && !(x.Folder? && x.top.scope.DateView?)
    ensures MemberNames(m, x) == Entries(LeafAssets(m, x)).Keys
    ensures GetMember(m, x, name) == FileIn(x.top, TailOf(x) + [name], Entries(LeafAssets(m, x)), name)
  {
    hide Entries, WholeQuery, DayQuery, HourQuery, ShouldSplit, FileIn;
    match x
    case Folder(top) =>
      LookupFlat(m, top, name);
      assert [] + [name] == [name];
    case Bucket(top, tail, range) => LookupDayFile(m, top, tail, range, name);
    case HourFolder(top, tail, hr) => MemberOfHour(m, top, tail, hr, name);
    case _ =>
  }

  /** Only a leaf has files. */
  lemma FilesInLeaves(m: Mount, x: Resource, name: string)
    requires ValidResource(x) && GetMember(m, x, name).Some? && GetMember(m, x, name).value.AssetFile?
    ensures Leaf(m, x)
  {
    hide Entries, AssetsIn, AssetsInHour, AllAssetsOf, FolderNames, BucketNames, TailRange, TailHour, ShouldSplit,
      ByName;
  }

  lemma FollowLast(m: Mount, top: Tree, path: seq<string>)
    requires path != [] && Follow(m, Folder(top), path).Some?
    ensures var x := Follow(m, Folder(top), path[..|path| - 1]);
            x.Some? && path[|path| - 1] in MemberNames(m, x.value)
            && Follow(m, Folder(top), path) == GetMember(m, x.value, path[|path| - 1])
  {
    hide MemberNames, GetMember;
  }

  // ---------- the one leaf ----------

  /** The names leading to an asset's leaf; a flat listing is its own leaf. */
  function LeafNames(m: Mount, top: Tree, a: Asset): seq<string>
    requires top.flat || Printable(a.when.date)
  {
    if top.flat then [] else LeafTail(m, top, a)
  }

  /** A flat listing has files only. */
  lemma {:induction false} BelowFlat(m: Mount, top: Tree, names: seq<string>)
    requires top.flat && names != [] && Follow(m, Folder(top), names).Some?
    ensures var x := Follow(m, Folder(top), names).value; x.AssetFile? || x.Readme?
  {
    hide MemberNames, GetMember, FolderNames;
    var init := names[..|names| - 1];
    if init == [] {
      FolderFile(m, top, names[0]);
    } else {
      BelowFlat(m, top, init);
      NothingBelowFile(m, Follow(m, Folder(top), init).value);
    }
  }

  /** A tree whose files are those of its scope: a flat one, or a dated one whose years print, whose timeline
    * is right and whose boundaries sort as LeavesExact says. */
  ghost predicate TreeShows(m: Mount, top: Tree) {
    top.flat || (TreeOk(m.immich, top) && LeavesExact(m.immich, top.scope))
  }

  lemma LeafExact(m: Mount, top: Tree, a: Asset, names: seq<string>)
    requires MountOk(m) && Mounted(m, top) && TreeShows(m, top)
    ensures InLeaf(m, top, a, names) <==>
              InScope(m.immich, top.scope, a) && (top.flat || Printable(a.when.date)) && names == LeafNames(m, top, a)
  {
    hide NamesOk, TreeOk, LeavesExact, Mounted, Follow, InScope, LeafTail, Printable, WholeQuery, Faithful;
    if top.flat {
      WholeFinds(m.immich, top.scope, Oldest, a);
      FollowNone(m, Folder(top));
      if names != [] && InLeaf(m, top, a, names) { BelowFlat(m, top, names); }
    } else {
      Partitioned(m, top, a, names);
    }
  }

  lemma LeafIsNoDateRoot(m: Mount, top: Tree, names: seq<string>)
    requires MountOk(m) && Mounted(m, top)
    requires Follow(m, Folder(top), names).Some? && Leaf(m, Follow(m, Folder(top), names).value)
    ensures var x := Follow(m, Folder(top), names).value;
            InTree(x) && x.top == top && TailOf(x) == names && !(x.Folder? && x.top.scope.DateView?)
  {
    hide MountOk, Mounted, Follow, ShouldSplit;
    MountedTop(m, top);
    FollowTop(m, top, names);
  }

  // ---------- one file each ----------

  /** A file's path is its leaf's names and its name there. */
  lemma FileAtLeaf(m: Mount, top: Tree, path: seq<string>, a: Asset)
    requires MountOk(m) && Mounted(m, top) && FileAt(m, top, path, a)
    ensures path != []
    ensures var x := Follow(m, Folder(top), path[..|path| - 1]);
            x.Some? && Leaf(m, x.value) && path[|path| - 1] in Entries(LeafAssets(m, x.value))
            && Entries(LeafAssets(m, x.value))[path[|path| - 1]] == a
            && InLeaf(m, top, a, path[..|path| - 1])
  {
    if path == [] { FollowNone(m, Folder(top)); }
    hide MountOk, Mounted, Follow, Leaf, LeafAssets, Entries, MemberNames, GetMember;
    FollowLast(m, top, path);
    var init, name := path[..|path| - 1], path[|path| - 1];
    var x := Follow(m, Folder(top), init).value;
    FilesInLeaves(m, x, name);
    LeafIsNoDateRoot(m, top, init);
    LeafFiles(m, x, name);
    EntriesSound(LeafAssets(m, x));
  }

  /** An asset of a leaf has a file there. */
  lemma LeafGivesFile(m: Mount, top: Tree, a: Asset, names: seq<string>) returns (name: string)
    requires MountOk(m) && Mounted(m, top) && TellingIds(m.immich.lib) && InLeaf(m, top, a, names)
    ensures FileAt(m, top, names + [name], a)
  {
    hide NamesOk, Mounted, Follow, Leaf, LeafAssets, Entries, MemberNames, GetMember, Faithful, TellingIds;
    var x := Follow(m, Folder(top), names).value;
    LeafTelling(m, x);
    EntriesConserve(LeafAssets(m, x));
    name := NamedFile(m, top, a, names);
  }

  /** And so has any asset that a leaf names. */
  lemma NamedFile(m: Mount, top: Tree, a: Asset, names: seq<string>) returns (name: string)
    requires MountOk(m) && Mounted(m, top) && InLeaf(m, top, a, names)
    requires a in Entries(LeafAssets(m, Follow(m, Folder(top), names).value)).Values
    ensures FileAt(m, top, names + [name], a)
  {
    hide MountOk, Mounted, Follow, Leaf, LeafAssets, Entries, MemberNames, GetMember;
    var x := Follow(m, Folder(top), names).value;
    LeafIsNoDateRoot(m, top, names);
    name :| name in Entries(LeafAssets(m, x)) && Entries(LeafAssets(m, x))[name] == a;
    LeafFiles(m, x, name);
    FollowMore(m, Folder(top), names, name);
  }

  lemma LeafTelling(m: Mount, x: Resource)
    requires Faithful(m.immich) && TellingIds(m.immich.lib) && ValidResource(x) && Leaf(m, x)
    ensures Telling(LeafAssets(m, x)) && DistinctIds(LeafAssets(m, x))
  {
    hide WholeQuery, DayQuery, HourQuery, ShouldSplit, Faithful, TellingIds, Telling;
    FoundTelling(m.immich, LeafQuery(m, x));
  }

  /** The same asset at two paths is at one path. */
  lemma SamePath(m: Mount, top: Tree, a: Asset, p: seq<string>, q: seq<string>)
    requires MountOk(m) && Mounted(m, top) && TreeShows(m, top)
    requires DistinctLib(m.immich.lib) && FileAt(m, top, p, a) && FileAt(m, top, q, a)
    ensures p == q
  {
    hide NamesOk, TreeShows, DistinctLib, Mounted, Follow, Leaf, LeafAssets, LeafNames, Entries, Faithful,
      TellingIds, InScope, FileAt, Printable;
    FileAtLeaf(m, top, p, a);
    FileAtLeaf(m, top, q, a);
    LeafExact(m, top, a, p[..|p| - 1]);
    LeafExact(m, top, a, q[..|q| - 1]);
    var x := Follow(m, Folder(top), p[..|p| - 1]).value;
    LeafDistinct(m, x);
    EntriesInjective(LeafAssets(m, x));
    assert p == p[..|p| - 1] + [p[|p| - 1]] && q == q[..|q| - 1] + [q[|q| - 1]];
  }

  ghost predicate DistinctLib(lib: set<Asset>) {
    forall a, b :: a in lib && b in lib && a != b ==> a.id != b.id
  }

  lemma LeafDistinct(m: Mount, x: Resource)
    requires Faithful(m.immich) && DistinctLib(m.immich.lib) && ValidResource(x) && Leaf(m, x)
    ensures DistinctIds(LeafAssets(m, x)) && forall a :: a in LeafAssets(m, x) ==> a in m.immich.lib
  {
    hide WholeQuery, DayQuery, HourQuery, ShouldSplit, Selected;
    var q := LeafQuery(m, x);
    assert FindOk(m.immich, q) && LeafAssets(m, x) == m.immich.find(q);
    forall a | a in LeafAssets(m, x)
      ensures a in m.immich.lib
    {
      SelectedInLib(m.immich, q, a);
    }
  }

  /** Nothing is lost, whatever boundaries a view has: an asset of the scope is in the leaf of its date. */
  lemma ScopeInLeaf(m: Mount, top: Tree, a: Asset)
    requires MountOk(m) && Mounted(m, top) && (top.flat || TreeOk(m.immich, top)) && InScope(m.immich, top.scope, a)
    ensures (top.flat || Printable(a.when.date)) && InLeaf(m, top, a, LeafNames(m, top, a))
  {
    hide NamesOk, TreeOk, Mounted, Follow, InScope, LeafTail, Printable, WholeQuery, Faithful;
    if top.flat {
      WholeFinds(m.immich, top.scope, Oldest, a);
      FollowNone(m, Folder(top));
    } else {
      LeafHolds(m, top, a);
    }
  }

  /** So with telling ids it has a file. */
  lemma NothingLost(m: Mount, top: Tree, a: Asset)
    requires MountOk(m) && Mounted(m, top) && (top.flat || TreeOk(m.immich, top)) && TellingIds(m.immich.lib)
    ensures InScope(m.immich, top.scope, a) ==> exists path :: FileAt(m, top, path, a)
  {
    hide MountOk, TreeOk, Mounted, InScope, FileAt, TellingIds, LeafNames, InLeaf, Printable;
    if InScope(m.immich, top.scope, a) {
      ScopeInLeaf(m, top, a);
      var name := LeafGivesFile(m, top, a, LeafNames(m, top, a));
    }
  }

  /** Nothing else is shown, and nothing twice. */
  lemma NothingTwice(m: Mount, top: Tree, a: Asset)
    requires MountOk(m) && Mounted(m, top) && TreeShows(m, top) && DistinctLib(m.immich.lib)
    ensures (exists path :: FileAt(m, top, path, a)) ==> InScope(m.immich, top.scope, a)
    ensures forall p, q :: FileAt(m, top, p, a) && FileAt(m, top, q, a) ==> p == q
  {
    hide MountOk, TreeShows, Mounted, InScope, FileAt, DistinctLib, LeafNames, InLeaf, Printable;
    if path :| FileAt(m, top, path, a) {
      FileAtLeaf(m, top, path, a);
      LeafExact(m, top, a, path[..|path| - 1]);
    }
    forall p, q | FileAt(m, top, p, a) && FileAt(m, top, q, a)
      ensures p == q
    {
      SamePath(m, top, a, p, q);
    }
  }

  /** Main result: a tree shows an asset as a file exactly when its scope holds it, and then at just
    * one path of listed names: nothing lost, nothing twice, down to the file names. */
  lemma OneFileEach(m: Mount, top: Tree, a: Asset)
    requires MountOk(m) && Mounted(m, top) && TreeShows(m, top) && TellingIds(m.immich.lib)
    ensures InScope(m.immich, top.scope, a) <==> exists path :: FileAt(m, top, path, a)
    ensures forall p, q :: FileAt(m, top, p, a) && FileAt(m, top, q, a) ==> p == q
  {
    hide MountOk, TreeOk, LeavesExact, Mounted, InScope, FileAt, TellingIds;
    TellingDistinct(m.immich.lib);
    NothingLost(m, top, a);
    NothingTwice(m, top, a);
  }

  lemma TellingDistinct(lib: set<Asset>)
    requires TellingIds(lib)
    ensures DistinctLib(lib)
  {
  }

  // ---------- exactly when each has a file ----------

  /** A reached leaf whose sorted listing holds an asset after two of its display name, the later of them
    * with its twelve characters. */
  ghost predicate LeafDrops(m: Mount, top: Tree, names: seq<string>) {
    var found := Follow(m, Folder(top), names);
    && found.Some? && Leaf(m, found.value)
    && exists k :: 0 <= k < |SortedAssets(LeafAssets(m, found.value))|
                   && ThirdOfAKind(SortedAssets(LeafAssets(m, found.value)), k)
  }

  /** For ids as Immich makes them, alike or not: every asset of the scope has a file if and only if no leaf
    * drops one. */
  lemma AllShownExactly(m: Mount, top: Tree)
    requires MountOk(m) && Mounted(m, top) && TreeShows(m, top)
    requires DistinctLib(m.immich.lib) && forall a :: a in m.immich.lib ==> LongId(a)
    ensures (forall a :: InScope(m.immich, top.scope, a) ==> exists path :: FileAt(m, top, path, a))
       <==> (forall names :: !LeafDrops(m, top, names))
  {
    hide MountOk, TreeOk, LeavesExact, Mounted, InScope, FileAt, DistinctLib, LeafNames, InLeaf, Printable, LongId,
      LeafDrops;
    if forall a :: InScope(m.immich, top.scope, a) ==> exists path :: FileAt(m, top, path, a) {
      forall names
        ensures !LeafDrops(m, top, names)
      {
        if LeafDrops(m, top, names) {
          var a := DroppedAsset(m, top, names);
          LeafExact(m, top, a, names);
          var path :| FileAt(m, top, path, a);
          FileAtLeaf(m, top, path, a);
          LeafExact(m, top, a, path[..|path| - 1]);
          assert false;
        }
      }
    }
    if forall names :: !LeafDrops(m, top, names) {
      forall a | InScope(m.immich, top.scope, a)
        ensures exists path :: FileAt(m, top, path, a)
      {
        ScopeInLeaf(m, top, a);
        var names := LeafNames(m, top, a);
        NotDropped(m, top, names, a);
        var name := NamedFile(m, top, a, names);
      }
    }
  }

  lemma DroppedAsset(m: Mount, top: Tree, names: seq<string>) returns (a: Asset)
    requires MountOk(m) && DistinctLib(m.immich.lib) && (forall a :: a in m.immich.lib ==> LongId(a))
    requires LeafDrops(m, top, names)
    ensures InLeaf(m, top, a, names) && a !in Entries(LeafAssets(m, Follow(m, Folder(top), names).value)).Values
  {
    hide NamesOk, Faithful, DistinctLib, Follow, Leaf, LeafAssets, Entries, ThirdOfAKind, LongId, SortedAssets;
    var x := Follow(m, Folder(top), names).value;
    LeafDistinct(m, x);
    ThirdDrops(LeafAssets(m, x));
    AllNamed(LeafAssets(m, x));
    a :| a in LeafAssets(m, x) && a !in Entries(LeafAssets(m, x)).Values;
  }

  lemma ThirdDrops(assets: seq<Asset>)
    requires LongIds(assets)
    requires exists k :: 0 <= k < |SortedAssets(assets)| && ThirdOfAKind(SortedAssets(assets), k)
    ensures |Entries(assets)| != |assets|
  {
    hide ThirdOfAKind, Entries;
    DroppedByKind(assets);
  }

  lemma NotDropped(m: Mount, top: Tree, names: seq<string>, a: Asset)
    requires MountOk(m) && DistinctLib(m.immich.lib) && (forall a :: a in m.immich.lib ==> LongId(a))
    requires InLeaf(m, top, a, names) && !LeafDrops(m, top, names)
    ensures a in Entries(LeafAssets(m, Follow(m, Folder(top), names).value)).Values
  {
    hide NamesOk, Faithful, DistinctLib, Follow, Leaf, LeafAssets, Entries, ThirdOfAKind, LongId, SortedAssets;
    var x := Follow(m, Folder(top), names).value;
    LeafDistinct(m, x);
    DroppedByKind(LeafAssets(m, x));
    AllNamed(LeafAssets(m, x));
  }

  /** Mounted trees are the ones listed: from the mount root each is reached by its prefix. */
  lemma MountedIsListed(m: Mount, top: Tree)
    requires MountOk(m) && Mounted(m, top)
    ensures Follow(m, MountRoot, top.prefix) == Some(Folder(top))
  {
    hide MountOk, Mounted, ByName, MemberNames, GetMember, Follow;
    MountedTop(m, top);
    var root := top.prefix[0];
    FollowNone(m, MountRoot);
    RootMember(m, root);
    FollowMore(m, MountRoot, [], root);
    assert [] + [root] == [root];
    if |top.prefix| == 2 && (root == "Albums" || root == "Views") {
      var name := top.prefix[1];
      assert top.prefix == [root] + [name];
      NamedMember(m, root, name, top);
      FollowMore(m, MountRoot, [root], name);
    }
  }

  lemma RootMember(m: Mount, root: string)
    requires root in m.enabled && root in TOPS
    ensures root in MemberNames(m, MountRoot)
    ensures GetMember(m, MountRoot, root) == Some(
              if root == "Albums" then AlbumsRoot else if root == "Views" then ViewsRoot
              else if root == "Timeline" then Folder(Timeline()) else Folder(Favorites()))
  {
    hide FolderNames, BucketNames, FolderMember, BucketMember, AssetsInHour, NamedFolder;
  }

  lemma NamedMember(m: Mount, root: string, name: string, top: Tree)
    requires MountOk(m) && (root == "Albums" || root == "Views")
    requires name != README && ByName(if root == "Albums" then m.albums else m.views, name) == Some(top)
    ensures var x := if root == "Albums" then AlbumsRoot else ViewsRoot;
            name in MemberNames(m, x) && GetMember(m, x, name) == Some(Folder(top))
  {
    hide Faithful, FolderNames, BucketNames, FolderMember, BucketMember, AssetsInHour, ByName, IsMacOSMetadata;
    EntryOk(m, if root == "Albums" then m.albums else m.views, root, name, top);
  }
}
