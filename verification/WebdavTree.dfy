/** The WebDAV collections and the path resolver (src/immich_bridge/webdav_provider.py). */
module WebdavTree {
  import opened Wrappers
  import opened Text
  import opened Calendar
  import opened FsModel
  import opened AssetNames
  import opened FsService

  /** A named date tree: its path, what it projects, and whether it lists assets directly
    * (an album below the split threshold, a saved view with the flat layout). */
  datatype Tree = Tree(prefix: seq<string>, scope: Scope, flat: bool)

  datatype Resource =
    | MountRoot
    | AlbumsRoot
    | ViewsRoot
    | WellKnown
    | Diagnostics
    | Readme(path: seq<string>)
    | MacOSMetadata(path: seq<string>)
    | Receipt(path: seq<string>)
    | Folder(top: Tree)
    | Bucket(top: Tree, tail: seq<string>, range: DateRange)
    | HourFolder(top: Tree, tail: seq<string>, hour: HourRange)
    | AssetFile(top: Tree, tail: seq<string>, asset: Asset)

  /** One mount: Immich, the day split threshold, the enabled collections, the named albums and
    * saved views in listing order, and the paths holding an upload receipt. */
  datatype Mount = Mount(
    immich: Immich,
    dayThreshold: int,
    enabled: set<string>,
    albums: seq<(string, Tree)>,
    views: seq<(string, Tree)>,
    receipts: set<seq<string>>)

  const README := "README.txt"
  const DIAGNOSTICS := "immich-bridge.json"

  function Timeline(): Tree { Tree(["Timeline"], DateView(false), false) }

  function Favorites(): Tree { Tree(["Favorites"], DateView(true), false) }

  /** The first entry of that name, as `next(...)` and `saved_view_by_name` pick it. */
  function ByName(entries: seq<(string, Tree)>, name: string): (r: Option<Tree>)
    ensures r.None? <==> forall i :: 0 <= i < |entries| ==> entries[i].0 != name
    ensures r.Some? ==>
              exists i ::
                && 0 <= i < |entries| && entries[i] == (name, r.value)
                && forall j :: 0 <= j < i ==> entries[j].0 != name
  {
    if entries == [] then None
    else if entries[0].0 == name then
      assert entries[0] == (name, entries[0].1);
      Some(entries[0].1)
    else
      assert forall i :: 0 < i < |entries| ==> entries[1..][i - 1] == entries[i];
      ByName(entries[1..], name)
  }

  predicate IsMacOSMetadata(name: string) {
    StartsWith(name, "._") || name in [".DS_Store", "._.DS_Store", ".Spotlight-V100", ".Trashes", ".fseventsd"]
  }

  // ---------- listings below a tree ----------

  function AssetsIn(m: Mount, top: Tree, r: DateRange): map<string, Asset>
    requires ValidRange(r)
  {
    Entries(m.immich.find(DayQuery(top.scope, r, Oldest)))
  }

  function AssetsInHour(m: Mount, top: Tree, hr: HourRange): map<string, Asset>
    requires ValidHour(hr)
  {
    Entries(m.immich.find(HourQuery(top.scope, hr, Oldest)))
  }

  function AllAssetsOf(m: Mount, top: Tree): map<string, Asset> {
    Entries(m.immich.find(WholeQuery(top.scope, Oldest)))
  }

  /** `should_split_day`: the reported total, or the one item of the first page, over the threshold. */
  predicate ShouldSplit(m: Mount, top: Tree, r: DateRange)
    requires ValidRange(r)
  {
    var q := DayQuery(top.scope, r, Unordered);
    var total := m.immich.total(q);
    var count := if total.Some? && total.value != 0 then total.value else if m.immich.find(q) == [] then 0 else 1;
    count > m.dayThreshold
  }

  function YearNames(m: Mount, top: Tree): set<string> {
    match YearList(m.immich, top.scope)
    case None => {}
    case Some(years) => set y | y in years && y >= 0 :: YearName(y)
  }

  function MonthNames(m: Mount, top: Tree, r: DateRange): set<string>
    requires ValidRange(r) && r.start.y < MAX_YEAR
  {
    set d | d in MonthList(m.immich, top.scope, r) && d.y >= 0 && d.m >= 0 :: MonthName(d.y, d.m)
  }

  function DayNames(m: Mount, top: Tree, r: DateRange): set<string>
    requires ValidRange(r)
  {
    set d | d in DayList(m.immich, top.scope, r) && Valid(d) :: DateText(d)
  }

  function HourNames(m: Mount, top: Tree, r: DateRange): set<string>
    requires ValidRange(r)
  {
    set h | h in HourList(m.immich, top.scope, r) && h >= 0 :: HourName(h)
  }

  predicate ValidHour(hr: HourRange) { Valid(hr.day) && hr.day != LAST_DATE && hr.hour < 24 }

  predicate ValidResource(x: Resource) {
    && (x.Bucket? ==> ValidRange(x.range) && 1 <= |x.tail| <= 3 && (|x.tail| == 1 ==> x.range.start.y < MAX_YEAR))
    && (x.HourFolder? ==> ValidHour(x.hour) && |x.tail| == 4)
  }

  /** `get_member_names` of a year, month or day folder. */
  function BucketNames(m: Mount, top: Tree, tail: seq<string>, range: DateRange): set<string>
    requires ValidResource(Bucket(top, tail, range))
  {
    if |tail| == 1 then MonthNames(m, top, range)
    else if |tail| == 2 then DayNames(m, top, range)
    else if ShouldSplit(m, top, range) then HourNames(m, top, range)
    else AssetsIn(m, top, range).Keys
  }

  /** `get_member_names` of a date root, an album or a saved view. */
  function FolderNames(m: Mount, top: Tree): set<string> {
    if top.flat then AllAssetsOf(m, top).Keys
    else (if top.scope.DateView? then {README} else {}) + YearNames(m, top)
  }

  /** `get_member_names`. */
  function MemberNames(m: Mount, x: Resource): set<string>
    requires ValidResource(x)
  {
    match x
    case MountRoot => {README, ".well-known"} + (m.enabled * {"Albums", "Timeline", "Favorites", "Views"})
    case AlbumsRoot => {README} + set e | e in m.albums :: e.0
    case ViewsRoot => {README} + set e | e in m.views :: e.0
    case WellKnown => {DIAGNOSTICS}
    case Folder(top) => FolderNames(m, top)
    case Bucket(top, tail, range) => BucketNames(m, top, tail, range)
    case HourFolder(top, _, hour) => AssetsInHour(m, top, hour).Keys
    case _ => {}
  }

  /** `date_range_from_parts` under a tree; the leading part is a placeholder it skips. */
  function TailRange(tail: seq<string>): (r: Option<DateRange>)
    ensures r.Some? ==> ValidRange(r.value) && 1 <= |tail| <= 3 && (|tail| == 1 ==> r.value.start.y < MAX_YEAR)
  {
    DateRangeFromParts(["View"] + tail)
  }

  function TailHour(tail: seq<string>): (r: Option<HourRange>)
    ensures r.Some? ==> ValidHour(r.value) && |tail| == 4
  {
    HourRangeFromParts(["View"] + tail)
  }

  function FileIn(top: Tree, tail: seq<string>, entries: map<string, Asset>, name: string): Option<Resource> {
    if name in entries then Some(AssetFile(top, tail, entries[name])) else None
  }

  /** `get_member` of a date root, an album or a saved view. */
  function FolderMember(m: Mount, top: Tree, name: string): (r: Option<Resource>)
    ensures r.Some? ==> ValidResource(r.value)
  {
    if top.scope.DateView? && name == README then Some(Readme(top.prefix + [README]))
    else if top.flat then FileIn(top, [name], AllAssetsOf(m, top), name)
    else if TailRange([name]).None? || name !in FolderNames(m, top) then None
    else Some(Bucket(top, [name], TailRange([name]).value))
  }

  /** `get_member` of a year, month or day folder; `tail` includes the name asked for. */
  function BucketMember(m: Mount, top: Tree, tail: seq<string>, range: DateRange, name: string): (r: Option<Resource>)
    requires ValidResource(Bucket(top, tail, range))
    ensures r.Some? ==> ValidResource(r.value)
  {
    if |tail| < 3 then
      if TailRange(tail + [name]).None? || name !in BucketNames(m, top, tail, range) then None
      else Some(Bucket(top, tail + [name], TailRange(tail + [name]).value))
    else if ShouldSplit(m, top, range) then
      if TailHour(tail + [name]).None? || name !in BucketNames(m, top, tail, range) then None
      else Some(HourFolder(top, tail + [name], TailHour(tail + [name]).value))
    else FileIn(top, tail + [name], AssetsIn(m, top, range), name)
  }

  function MountMember(name: string): (r: Option<Resource>)
    ensures r.Some? ==> ValidResource(r.value)
  {
    if name == README then Some(Readme([README]))
    else if name == "Albums" then Some(AlbumsRoot)
    else if name == "Timeline" then Some(Folder(Timeline()))
    else if name == "Favorites" then Some(Folder(Favorites()))
    else if name == "Views" then Some(ViewsRoot)
    else if name == ".well-known" then Some(WellKnown)
    else None
  }

  /** `get_member`. */
  function GetMember(m: Mount, x: Resource, name: string): (r: Option<Resource>)
    requires ValidResource(x)
    ensures r.Some? ==> ValidResource(r.value)
  {
    match x
    case MountRoot => MountMember(name)
    case AlbumsRoot =>
      if name == README then Some(Readme(["Albums", README])) else NamedFolder(m.albums, name)
    case ViewsRoot =>
      if name == README then Some(Readme(["Views", README])) else NamedFolder(m.views, name)
    case WellKnown => if name == DIAGNOSTICS then Some(Diagnostics) else None
    case Folder(top) => FolderMember(m, top, name)
    case Bucket(top, tail, range) => BucketMember(m, top, tail, range, name)
    case HourFolder(top, tail, hour) => FileIn(top, tail + [name], AssetsInHour(m, top, hour), name)
    case _ => None
  }

  function NamedFolder(entries: seq<(string, Tree)>, name: string): Option<Resource> {
    match ByName(entries, name)
    case None => None
    case Some(top) => Some(Folder(top))
  }

  // ---------- the path resolver ----------

  /** The four- and five-part paths: an hour folder, a file of a day, a file of an hour. */
  function ResolveInDay(m: Mount, top: Tree, tail: seq<string>, day: DateRange): (r: Option<Resource>)
    requires |tail| >= 4 && ValidRange(day)
    ensures r.Some? ==> ValidResource(r.value)
  {
    if |tail| == 4 then
      if TailHour(tail).Some? && ShouldSplit(m, top, day) then Some(HourFolder(top, tail, TailHour(tail).value))
      else FileIn(top, tail, AssetsIn(m, top, day), tail[3])
    else if |tail| == 5 then
      if TailHour(tail[..4]).None? || !ShouldSplit(m, top, day) then None
      else FileIn(top, tail, AssetsInHour(m, top, TailHour(tail[..4]).value), tail[4])
    else None
  }

  /** The part of `_resolve_albums`, `_resolve_date_view` and `_resolve_saved_view` below the tree. */
  function ResolveDated(m: Mount, top: Tree, tail: seq<string>): (r: Option<Resource>)
    requires tail != []
    ensures r.Some? ==> ValidResource(r.value)
  {
    var range := TailRange(if |tail| >= 4 then tail[..3] else tail);
    if range.None? || !HasAssets(m.immich, top.scope, range.value) then None
    else if |tail| <= 3 then Some(Bucket(top, tail, range.value))
    else ResolveInDay(m, top, tail, range.value)
  }

  function ResolveTree(m: Mount, top: Tree, tail: seq<string>): (r: Option<Resource>)
    ensures r.Some? ==> ValidResource(r.value)
  {
    if tail == [] then Some(Folder(top))
    else if top.flat then
      if |tail| == 1 then FileIn(top, tail, AllAssetsOf(m, top), tail[0]) else None
    else ResolveDated(m, top, tail)
  }

  function ResolveNamed(m: Mount, entries: seq<(string, Tree)>, root: Resource, parts: seq<string>)
    : (r: Option<Resource>)
    requires parts != [] && ValidResource(root)
    ensures r.Some? ==> ValidResource(r.value)
  {
    if |parts| == 1 then Some(root)
    else match ByName(entries, parts[1])
      case None => None
      case Some(top) => ResolveTree(m, top, parts[2..])
  }

  function OrReceipt(m: Mount, parts: seq<string>, found: Option<Resource>): (r: Option<Resource>)
    ensures r.Some? && r != found ==> r == Some(Receipt(parts))
  {
    if found.None? && parts in m.receipts then Some(Receipt(parts)) else found
  }

  /** `get_resource_inst` on the segments of a path. */
  function Resolve(m: Mount, parts: seq<string>): (r: Option<Resource>)
    ensures r.Some? ==> ValidResource(r.value)
  {
    if parts == [README]
      || (|parts| == 2 && parts[1] == README && parts[0] in {"Albums", "Timeline", "Favorites", "Views"})
    then Some(Readme(parts))
    else if |parts| > 1 && IsMacOSMetadata(parts[|parts| - 1]) then Some(MacOSMetadata(parts))
    else if parts == [] then Some(MountRoot)
    else if parts[0] in {"Albums", "Timeline", "Favorites", "Views"} && parts[0] !in m.enabled then None
    else if parts[0] == "Albums" then OrReceipt(m, parts, ResolveNamed(m, m.albums, AlbumsRoot, parts))
    else if parts[0] == "Timeline" then OrReceipt(m, parts, ResolveTree(m, Timeline(), parts[1..]))
    else if parts[0] == "Favorites" then OrReceipt(m, parts, ResolveTree(m, Favorites(), parts[1..]))
    else if parts[0] == "Views" then ResolveNamed(m, m.views, ViewsRoot, parts)
    else if parts == [".well-known"] then Some(WellKnown)
    else if parts == [".well-known", DIAGNOSTICS] then Some(Diagnostics)
    else OrReceipt(m, parts, None)
  }

  /** `[p for p in path.split("/") if p]`. */
  function PathParts(path: string): seq<string> { NonEmpty(Split(path, '/')) }

  function NonEmpty(parts: seq<string>): seq<string> {
    if parts == [] then []
    else if parts[0] == "" then NonEmpty(parts[1..])
    else [parts[0]] + NonEmpty(parts[1..])
  }

  /** The path a client builds from listed names. */
  function JoinedPath(names: seq<string>): string {
    if names == [] then "" else "/" + names[0] + JoinedPath(names[1..])
  }

  predicate Segment(name: string) { name != "" && '/' !in name }

  /** Joining and splitting gives the names back. */
  lemma {:induction false} JoinedPathParts(names: seq<string>)
    requires forall name :: name in names ==> Segment(name)
    ensures PathParts(JoinedPath(names)) == names
  {
    if names != [] {
      JoinedPathParts(names[1..]);
      var rest := JoinedPath(names[1..]);
      assert JoinedPath(names) == "" + ['/'] + (names[0] + rest);
      SplitAtSeparator("", '/', names[0] + rest);
      SplitHead(names[0], rest);
      assert Segment(names[0]);
    }
  }

  lemma SplitHead(name: string, rest: string)
    requires Segment(name) && (rest == "" || rest[0] == '/')
    ensures NonEmpty(Split(name + rest, '/')) == [name] + NonEmpty(Split(rest, '/'))
  {
    if rest == "" {
      assert name + rest == name;
      SplitNoSeparator(name, '/');
    } else {
      assert name + rest == name + ['/'] + rest[1..];
      SplitAtSeparator(name, '/', rest[1..]);
      assert rest == "" + ['/'] + rest[1..];
      SplitAtSeparator("", '/', rest[1..]);
      assert NonEmpty([name] + Split(rest[1..], '/')) == [name] + NonEmpty(Split(rest[1..], '/'));
      assert NonEmpty([""] + Split(rest[1..], '/')) == NonEmpty(Split(rest[1..], '/'));
    }
  }
}
