# Immich WebDAV bridge: a verified model

The bridge shows an Immich photo library as a WebDAV drive. This project models the parts of its
Python service whose correctness is not visible in one function, and proves what the parts promise
together. `dafny verify dfyconfig.toml` checks everything.

## What is modelled

**The date-bucket tree.** Immich answers flat, paged, time-filtered searches; the bridge projects
them onto year, month, day and hour folders, for the timeline, the favorites, large albums and saved
views.

* `Text` and `Calendar` hold the Python string operations (code-point order, `split`, `strip`,
  zero padding, `str`, `int`) and the proleptic Gregorian calendar. An instant is a date, a
  clock and a microsecond, in UTC.
* `FsModel` prints and parses bucket names and ISO boundaries; `Segments`, `AssetNames` and
  `FolderNames` make the names of folders and files.
* `FsService` has the searches, the interval narrowing and the bucket listings; `BucketLists` says
  what the listings contain; `Search` has the paging loops.
* `WebdavTree` has the two ways to reach a node: `get_member_names` with `get_member`, and
  `get_resource_inst` on a path. Albums and saved views come in as named trees, each either flat or
  dated (`should_split_album` and the view's layout decide which). `MountNames` makes those trees from
  the albums and the stored views.
* `TreeTheorems` shows one step of each lookup to agree, `MountTheorems` does so from the mount
  root, `ListedPaths` says which of the paths that resolve are listed, `Partition` and `FilePaths` show
  where each asset ends up, `Descent` what listed names lead to, `EmptyFolders` that no folder is empty, and
  `ReferenceImmich` builds backends and mounts that meet every assumption below, so that the theorems speak
  of something. `ViewBoundaries` and `ViewLayouts` have the saved views for which the broad claims fail, and
  show each condition on boundaries to be needed.

**The byte-range cache and the streams over it.** `BlobInterleaving` is a state machine over single
file operations: readers take no lock, a `set` with its prune holds one. `BlobPrune` is the cache
object without readers in between. `Streams` has the two file-like classes and `open_original`, and
`CachedOriginals` joins them to the cache: what is stored is what is served.

**Admission.** `Admission` is a state machine of requests and two bounded semaphores, one step per
acquire, release and change of phase. `LimitedInputs` is the capped body reader over a raw stream.

**Metadata cache and failure counter.** `CacheStore` is the in-memory table with expiry,
`MetadataCache` the cached reads with fresh and stale keys and their invalidation, `AuthLimiter`
basic authentication with its fixed window.

**Writes and codecs.** `Writes` has the upload sink and resource, album creation and album
membership; `WriteVerbs` what PUT, MKCOL, DELETE, COPY and MOVE do to the resource their path resolves
to; `Codecs` range headers and settings keys, `SettingsDicts` whole settings stored and read back;
`GrantTokens` signed tokens over base64url.

Objects whose methods change fields are classes, each method tied to a function of the old state;
the theorems are about runs of those functions.

## Assumptions

They are preconditions of the theorems, never axioms.

* A search is deterministic, and keeps exactly the assets at or after `takenAfter` and before
  `takenBefore`, as Immich reads these texts (`Faithful`; the fake in `tests/test_fs_service.py:34-39`
  behaves so). Of the reading only this is assumed: a full hour the bridge prints is read as that hour in
  UTC. The total a search reports, which decides whether a day splits, is arbitrary. No search is
  truncated; `CompleteOrRefused` says that a truncated one would raise and list nothing.
* The boundary a saved view stores is any text. Nothing is lost whatever it is; for the rest each theorem
  asks only how it sorts, as a string, among the buckets' boundaries: among the month starts (`MonthsInside`,
  listed names resolve), among midnights (`NeverEmpty`, no empty folder), on one side among the full hours
  (`HoursInScope`) or among midnights with no hour cut in two (`WholeHours`) for the layouts to agree, for one
  file each besides on the other side (`LeavesExact`); and on both among all full hours (`ExactScope`) for
  which paths are listed. Flat listings need none of these.
* Of the trees of a mount only the one spoken about, or led into by the names, meets the next two
  (`TreeOk`), and its own view's condition.
* When the timeline endpoint works, it reports the first day of each month that holds assets
  (`MonthsExact`).
* Years are 1000 to 9998 (`PrintableYears`): `str(year)` is not padded, and year 9999 has no
  following year.
* The page chain reaches its end or the page cap (`Ends`), as it does when `nextPage` grows
  (`IncreasingEnds`). The loop has no other bound: `NeverEndsExactly`.
* The names of albums and views are safe segments and their trees carry them (`NamesOk`), which
  `NamesAreOk` proves of the names the bridge makes. They may be equal, or `README.txt`: the theorems
  about a mounted tree (`Mounted`) speak of trees that are reached by their name, and `EveryAlbumShown`
  and `EveryViewShown` say exactly when all are.
* For one file per asset, the first twelve characters of the ids, dashes aside, tell assets apart
  (`TellingIds`); for other ids `AllShownExactly` says when each asset has a file.
* An upload's answer is true when an id Immich had before holds just these bytes (`Truthful`); only what is
  said of the bytes an asset keeps needs it.

## Where the broad claim is false

* String comparison of ISO boundaries is time comparison unless both fall into the same second and
  just one has a nonzero fraction: `IsoOrder` gives both directions. A saved view's own boundary narrows
  exactly to every bucket if and only if it is no fraction just after a full hour, for the forms the
  bridge knows (`ClashFreeExact`). For any other text of a date and a clock, an offset included, it does
  if and only if its instant stays within one hour: the hour the text names when its clock is off the hour
  (`OffsetExact`), the hour that ends there when it is a full hour (`FullHourExact`).
* What is listed need not resolve. A saved view may store `2024-05-01T01:00:00+05:00`, which sorts after
  the first of May and is read before it: its May then lists the last day of April, and neither lookup finds
  that name there (`OffsetMisleads`). A boundary that sorts otherwise than it is read at any month start does
  so with any asset taken in between and one at that month's start (`AfterMisleads`, `BeforeMisleads`); with no such
  boundary nothing else misleads (`ListedResolves`).
* The same view lists May though it holds nothing. A boundary never makes a folder empty, whatever the
  library, exactly when it makes no day's search stray from its day, and the searches of the day it is read
  in and of the months of that year stay in scope (`NeverEmpty`, `NeverEmptyExactly`).
* The date tree may show what the flat layout of a view does not, as with a fraction just after an hour
  (`FractionShowsMore`) or a midnight west of Greenwich, `2024-05-01T00:00:00-05:00` (`MidnightShowsMore`,
  `WestMidnightShowsMore`), never less. With one boundary it never does exactly when the boundary sorts on one
  side as its instant, or is read at a full hour and makes no folder empty (`LayoutsAgreeExactly`).
* A view's leaves need not show just its scope, each asset at one path. With one boundary they do exactly when,
  besides, no hour's search strays from its hour (`LeavesExact`, `PartitionedExactly`). That is less than
  narrowing exactly: `2024-05-01T01:00:00-05:00` missorts, and for no library does it show (`WestOneIsExact`).
* Resolving accepts more than is listed: a day under another year's folder
  (`DayUnderAnyYearParses`), a month written with a sign (`SignedMonthParses`), a file of a split
  day (`UnlistedFileResolves`), an hour that holds nothing, client metadata, upload receipts, the README
  of a collection that is switched off, and whatever lies below an album or view named `README.txt`. A path
  that resolves is listed exactly when it is the printed path of what it resolves to, an hour not empty
  and a file in its asset's own leaf (`ResolvedIsListed`, and `PathIsListed` from the mount root).
* An asset listing drops assets exactly when one finds both its display name and its collision name
  taken (`DroppedExactly`); for ids with twelve characters, dashes aside, and no slash, exactly when the
  sorted listing holds an asset after two of its display name, the later of them with its twelve
  characters (`DroppedByKind`, `ThirdReplacesSecond`). With telling ids that never happens
  (`EntriesConserve`).
* Two albums may get one folder name, and two views too (`AlbumsThatClash`, `ViewsThatClash`); exactly
  when is said by `AlbumNamesCollide` and `ViewNamesCollide`.
* Permits come back when every returned generator is started and neither an application call nor the
  closing after an iteration ends by an exception outside `Exception` (`AllBack`); the three steps named
  are the only ones that lose a permit (`LeakNeedsStep`), and what is missing in the end are the permits
  of the requests that took one of them (`AllBackUnlessLeaked`).
* A `set` need not be followed by a hit: its own prune deletes it exactly when the entries from its
  place on, in the order of eviction, exceed the cap, as a range larger than the cap always does
  (`SurvivesIff`, `SetThenGet`, `LastPlaceFits`).
* With a page cap of zero the search returns an empty list and not a truncation error
  (`CompleteOrRefused`).
* Album membership goes not only by DELETE: where the framework clears the destination of a COPY or MOVE
  first, one of client metadata (`._x`) onto an album's asset takes it out (`OverwritingLeaves`,
  `CopyEmptiesAlbum`); these requests and DELETE are all (`LeavesExactly`).
* The search loop need not end: exactly a page chain within the cap that points back into itself keeps it
  going (`NeverEndsExactly`).
* A cache scope with a colon may let one user's write drop another's entries (`ColonScopesCollide`), for two
  scopes of any text exactly as `ScopesCollide` says; the scopes in use have none.
* A settings key survives camel case and back exactly when each underscore is inside the name and
  followed by a letter (`SnakeInvertsCamel`); settings read back as stored, no two keys merged, exactly when
  each key does (`StoredReadsBack`).

## Model

| member | source | states |
|---|---|---|
| `FilePaths.OneFileEach` | src/immich_bridge/webdav_provider.py:1922-1998 | a mounted tree, flat or with boundaries that sort as `LeavesExact` says, shows an asset as a file if and only if the asset matches the tree's scope, and then at exactly one path of listed names: nothing lost, nothing twice |
| `FilePaths.NothingLost` | src/immich_bridge/webdav_provider.py:1922-1998 | with telling ids nothing is lost whatever boundaries a view has |
| `FilePaths.NothingTwice` | src/immich_bridge/webdav_provider.py:1922-1998 | with distinct ids, telling or not, nothing else is shown and nothing twice |
| `FilePaths.AllShownExactly` | src/immich_bridge/webdav_provider.py:1922-1998 | for ids as Immich makes them, every asset of the scope has a file if and only if no leaf's sorted listing holds one after two of its display name, the later of which shares its twelve characters |
| `FilePaths.LeafFiles` | src/immich_bridge/webdav_provider.py:1746-1784 | a folder that lists files lists exactly the names of its assets, and gives each name that asset's file |
| `FilePaths.MountedIsListed` | src/immich_bridge/webdav_provider.py:1538-1563 | the trees the theorems speak of are the ones reached from the mount root by listed names |
| `Partition.Partitioned` | src/immich_bridge/fs_service.py:264-305 | an asset is in a leaf reached by listed names if and only if it matches the scope and the names are the one path of its date (its day, or its hour when the day is split), for boundaries that sort as `LeavesExact` says |
| `EmptyFolders.NoEmptyBucket` | src/immich_bridge/fs_service.py:226-262 | every year, month, day or hour folder reached by listed names holds an asset of the scope taken in it, for a view's boundaries that sort rightly among the midnights |
| `ViewBoundaries.NeverEmptyExactly` | src/immich_bridge/fs_service.py:359-409 | for a view with one boundary, some library has an empty folder reached by listed names if and only if that condition fails |
| `Partition.LayoutsAgree` | src/immich_bridge/fs_service.py:411-440 | a saved view's date tree shows every asset that the flat layout of the same filters shows, whatever its boundaries; and no other, when no bucket's boundary takes the place of a stricter one of the view, or the view's cut no hour in two and make no folder empty |
| `ViewLayouts.LayoutsAgreeExactly` | src/immich_bridge/fs_service.py:83-102 | for one boundary, some library makes the layouts differ if and only if both conditions fail |
| `ViewLayouts.FractionShowsMore` | src/immich_bridge/fs_service.py:83-102 | which they do for a fraction just after a full hour |
| `ViewLayouts.MidnightShowsMore` | src/immich_bridge/fs_service.py:83-102 | and for every midnight with an offset that is read later on its day |
| `ViewLayouts.WestMidnightShowsMore` | src/immich_bridge/fs_service.py:83-102 | as an actual one, five hours behind, is |
| `ViewLayouts.PartitionedExactly` | src/immich_bridge/fs_service.py:83-102 | for one boundary, every library is partitioned rightly if and only if the boundary sorts as `LeavesExact` says |
| `ViewLayouts.LaterHourExact` | src/immich_bridge/fs_service.py:83-102 | which a later full hour with an offset, read at a full hour of its day, does if and only if that is not before the hour that ends there, though it may missort |
| `ViewLayouts.WestOneIsExact` | src/immich_bridge/fs_service.py:83-102 | as an actual one, five hours behind, does |
| `Partition.LeafHolds` | src/immich_bridge/fs_service.py:694-708 | every asset of the scope is reached through year, month, day (and hour) folders that are all listed, whatever boundaries a view has |
| `Partition.LeafIsOwn` | src/immich_bridge/fs_service.py:739-765 | a leaf shows no asset of another day, hour or scope |
| `MountTheorems.ListedResolves` | src/immich_bridge/webdav_provider.py:221-276 | wherever listed names lead from the mount root, each further listed name is found by `get_member`, and the joined path resolves to the same resource; only the tree led into counts, and of its view's boundaries only how they sort among the month starts |
| `ViewBoundaries.AfterMisleads` | src/immich_bridge/webdav_provider.py:2268-2312 | the converse: for an `after` that sorts after a month's start and is read before it, any asset taken between and one at the month's start make the month list a name that neither lookup finds |
| `ViewBoundaries.BeforeMisleads` | src/immich_bridge/webdav_provider.py:2268-2312 | and for a `before` that sorts before a month's end and is read after it |
| `ViewBoundaries.OffsetMisleads` | src/immich_bridge/webdav_provider.py:2268-2312 | with an actual offset and one asset: a listed empty month, and in it a listed day that neither lookup finds |
| `MountTheorems.FollowReaches` | src/immich_bridge/webdav_provider.py:1521-1563 | every resource reached by listed names is the canonical one of its path: same range, same asset, same README |
| `MountTheorems.UnlistedFileResolves` | src/immich_bridge/webdav_provider.py:725-733 | one way the converse fails: in a split day the path of a file resolves though the day does not list it and `get_member` does not find it |
| `ListedPaths.ResolvedIsListed` | src/immich_bridge/webdav_provider.py:687-752 | of the paths that resolve below a mounted tree exactly these are listed: folders at the printed path of their own range, hours that hold something, files in the leaf of their asset's date |
| `ListedPaths.PathIsListed` | src/immich_bridge/webdav_provider.py:221-276 | the same from the mount root, for every path that resolves: with the README's, the client metadata, the receipts and the folders a README hides |
| `TreeTheorems.TreeStep` | src/immich_bridge/webdav_provider.py:1957-1998 | below any date tree or flat listing, `get_member` and the path resolver agree on each listed name, and the child again carries the printed name of its own range |
| `TreeTheorems.StepDayFile` | src/immich_bridge/webdav_provider.py:640-662 | a file listed by an unsplit day is found by both lookups |
| `TreeTheorems.StepHourFile` | src/immich_bridge/webdav_provider.py:664-683 | a file listed by an hour of a split day is found by both lookups |
| `WebdavTree.JoinedPathParts` | src/immich_bridge/webdav_provider.py:228-230 | splitting a joined path gives the names back |
| `WebdavTree.ByName` | src/immich_bridge/webdav_provider.py:619-624 | the first entry of that name, and None only when there is none |
| `ReferenceImmich.ImmichOfFaithful` | tests/test_fs_service.py:34-39 | for any library of distinct ids and any meaning of the other filters there is a backend that searches as assumed |
| `ReferenceImmich.MountExists` | src/immich_bridge/webdav_provider.py:463-476 | every such library of printable years has, for any album and view trees of safe names, any boundaries and any set of enabled collections, a mount that the tree theorems apply to, its timeline endpoint answering from the library |
| `ReferenceImmich.SampleMount` | src/immich_bridge/webdav_provider.py:463-476 | such a mount with an album, a view that has an exact boundary of its own and a working timeline endpoint, both trees reached by their names |
| `ReferenceImmich.PagedSearch` | src/immich_bridge/fs_service.py:560-600 | over pages of any size, the search returns the whole list when it fits the page cap and the truncation error when it does not |
| `BucketLists.YearListExact` | src/immich_bridge/fs_service.py:264-285 | the year level lists exactly the years that hold assets, newest first, for all three kinds of tree |
| `BucketLists.YearListFound` | src/immich_bridge/fs_service.py:359-378 | whatever boundaries a view has, every year that holds assets is listed, and only years that their search finds something in |
| `BucketLists.MonthListExact` | src/immich_bridge/fs_service.py:286-292 | the month level lists exactly the year's months that hold assets, newest first |
| `BucketLists.DayListExact` | src/immich_bridge/fs_service.py:294-303 | the day level lists exactly the month's days that hold assets, newest first |
| `BucketLists.DayListKeeps` | src/immich_bridge/fs_service.py:396-407 | whatever boundaries a view has, every day of the month that holds assets is listed, and a listed day of the month is found by its own search |
| `BucketLists.HourListExact` | src/immich_bridge/fs_service.py:739-749 | the hour level lists exactly the day's hours that hold assets, in order |
| `BucketLists.FastYearsRefineSlow` | src/immich_bridge/fs_service.py:226-244 | the timeline branch returns the very year list the bounds-and-probe fallback returns |
| `BucketLists.FastMonthsRefineSlow` | src/immich_bridge/fs_service.py:246-260 | and the very month list, for every year |
| `BucketLists.DateBoundsExact` | src/immich_bridge/fs_service.py:141-161 | the bounds are missing exactly when the scope holds no asset, and no asset is dated before the one or after the other |
| `BucketLists.SlowYearsExact` | src/immich_bridge/fs_service.py:359-378 | probing each year between the bounds misses no year and lists no empty one |
| `FsService.NarrowingExact` | src/immich_bridge/fs_service.py:83-102 | whatever text a view has as its boundary, narrowing it to a bucket keeps exactly the instants of both windows if and only if the two texts sort as their instants do |
| `FsService.ClashFreeExact` | src/immich_bridge/fs_service.py:83-102 | a boundary of the forms the bridge knows narrows exactly to every bucket if and only if it has no fraction just after a full hour |
| `FsService.OffsetExact` | src/immich_bridge/fs_service.py:83-102 | a boundary of any form whose clock is off the hour, offsets and finer fractions included, narrows exactly to every bucket if and only if its instant stays within the hour it names |
| `FsService.FullHourExact` | src/immich_bridge/fs_service.py:83-102 | one of a full hour followed by an offset or a fraction does if and only if its instant stays within the hour that ends there |
| `FsService.RangeFinds` | src/immich_bridge/fs_service.py:307-328 | a bucket's search misses no asset of the scope taken in the bucket, whatever the kind of tree and its boundaries; it finds nothing outside the bucket, or out of scope, when one side of the boundaries' order is right |
| `FsService.HasAssetsExact` | src/immich_bridge/fs_service.py:111-125 | the emptiness probe says whether the range holds an asset of the scope |
| `FsService.ProbeYears` | src/immich_bridge/fs_service.py:238-244 | the descending year loop computes the probed years, specified apart |
| `FsService.ProbeMonths` | src/immich_bridge/fs_service.py:380-394 | the month loop with its skipped months computes the probed months |
| `FsModel.IsoOrder` | src/immich_bridge/fs_model.py:158-167 | comparing boundaries as strings agrees with comparing their instants if and only if they do not clash |
| `FsModel.BoundRoundTrip` | src/immich_bridge/fs_model.py:50-75 | the backend reads a printed boundary back as the instant it was printed from |
| `FsModel.DateTextOrder` | src/immich_bridge/fs_service.py:94-101 | printed dates, whatever follows them, sort like dates |
| `FsModel.YearNameParses` | src/immich_bridge/fs_model.py:81-83 | a printed year parses back to its range exactly for the years 1000 to 9998 |
| `FsModel.MonthNameParses` | src/immich_bridge/fs_model.py:84-94 | a printed month parses back to its range |
| `FsModel.DayNameParses` | src/immich_bridge/fs_model.py:96-105 | a printed day parses back to its range |
| `FsModel.HourNameParses` | src/immich_bridge/fs_model.py:111-121 | a printed hour parses back to its hour |
| `FsModel.DayUnderAnyYearParses` | src/immich_bridge/fs_model.py:96-105 | a day is also accepted under any four digits in the year's place |
| `FsModel.SignedMonthParses` | src/immich_bridge/fs_model.py:91-94 | a signed month is accepted though it is never listed |
| `FsModel.RangeOfParts` | src/immich_bridge/fs_model.py:78-108 | which two to four parts are accepted, and which range they give, exactly; no others are |
| `Calendar.OrdinalOrder` | src/immich_bridge/fs_model.py:105-105 | day ordinals grow exactly as dates do |
| `Calendar.NextDayOrdinal` | src/immich_bridge/fs_model.py:63-66 | the date of the next ordinal is the calendar's next day |
| `Calendar.NextDayAdjacent` | src/immich_bridge/fs_model.py:105-105 | no date lies between a day and its next |
| `Segments.SafeSegmentIsSafe` | src/immich_bridge/fs_model.py:187-195 | whatever the input, the segment has no unsafe character, no double blank and no blank or dot at its ends, and fits the length |
| `Segments.SafeSegmentFixedPoints` | src/immich_bridge/fs_model.py:187-195 | the fixed points are exactly the safe segments, hence applying it twice is applying it once |
| `Segments.ValidatedNames` | src/immich_bridge/api/admin.py:175-196 | of the names of at most 120 characters exactly those that are safe segments once stripped are accepted, and what is stored is its own folder name |
| `AssetNames.AssetEntries` | src/immich_bridge/fs_model.py:234-251 | the naming loop computes the name map that the theorems below are about |
| `AssetNames.EntriesOrderIndependent` | src/immich_bridge/fs_model.py:236-243 | the name map does not depend on the order in which Immich returned the assets |
| `AssetNames.EntriesSound` | src/immich_bridge/fs_model.py:245-250 | every name belongs to an asset found and is its display name or its longer collision name |
| `AssetNames.EntriesConserve` | src/immich_bridge/fs_model.py:244-251 | with ids that differ in twelve characters no asset is dropped: as many names as assets, and every asset named |
| `AssetNames.DroppedExactly` | src/immich_bridge/fs_model.py:244-251 | whatever the ids, assets are dropped if and only if, in listing order, some asset finds both its display name and its collision name taken |
| `AssetNames.DroppedByKind` | src/immich_bridge/fs_model.py:244-251 | for ids as Immich makes them, read off the sorted listing alone: assets are dropped if and only if one comes after two of its display name, the later of which shares its twelve characters |
| `AssetNames.ThirdReplacesSecond` | src/immich_bridge/fs_model.py:247-250 | that happens: of three assets alike but for the tails of their ids the third replaces the second |
| `AssetNames.EntriesInjective` | src/immich_bridge/fs_model.py:244-251 | no asset has two names |
| `AssetNames.LongNamesDiffer` | src/immich_bridge/fs_model.py:247-249 | a collision name is never another asset's display name or collision name |
| `AssetNames.NameParts` | src/immich_bridge/fs_model.py:221-231 | taking a display name apart at its last dot gives back the parts it was built from, and no name holds a slash |
| `FolderNames.AlbumEntries` | src/immich_bridge/fs_model.py:198-218 | grouping, naming and sorting give each album its name among all albums |
| `FolderNames.GroupByBase` | src/immich_bridge/fs_model.py:200-203 | the first loop files every album under its base name, in order |
| `FolderNames.AlbumsConserved` | src/immich_bridge/fs_model.py:205-218 | the sorted listing has every album as often as Immich lists it, each under its name |
| `FolderNames.AlbumNamesCollide` | src/immich_bridge/fs_model.py:206-216 | two albums get one folder name exactly when they share base and short id, or one's plain base spells the other's suffixed name |
| `FolderNames.AlbumsThatClash` | src/immich_bridge/fs_model.py:206-216 | they do: two albums of one name with ids alike in eight characters |
| `FolderNames.AlbumNameIsSafe` | src/immich_bridge/fs_model.py:198-218 | album folder names are safe segments whenever short ids are |
| `FolderNames.SavedViewNames` | src/immich_bridge/webdav_provider.py:515-527 | the loop over the counting dict gives each view its numbered name |
| `FolderNames.ViewNamesCollide` | src/immich_bridge/webdav_provider.py:519-526 | two views get one folder name exactly when one's plain base spells the other's numbered name |
| `FolderNames.ViewsThatClash` | src/immich_bridge/webdav_provider.py:519-526 | they do: the views `A`, `A` and `A--2` |
| `MountNames.EveryAlbumShown` | src/immich_bridge/webdav_provider.py:619-624 | every album is reached by its name in the mount if and only if no two of them clash and none is named like the README |
| `MountNames.EveryViewShown` | src/immich_bridge/webdav_provider.py:515-534 | every saved view is, if and only if only views of the same filters and layout clash and none is named like the README |
| `MountNames.NamesAreOk` | src/immich_bridge/webdav_provider.py:515-527 | the names and trees the bridge makes of albums and views are what the tree theorems ask for, equal names or not |
| `FolderNames.DavNameIsSafe` | src/immich_bridge/webdav_provider.py:520-525 | view folder names are safe segments |
| `Search.SearchAll` | src/immich_bridge/fs_service.py:567-598 | on a page chain that ends, or meets the cap, the paging loop ends and computes the listing or the error specified apart, a cap of zero included |
| `Search.CountPaged` | src/immich_bridge/api/admin.py:1351-1378 | the paged count is the length of the listing the search returns over the same pages, and None when it returns none |
| `Search.CompleteOrRefused` | src/immich_bridge/fs_service.py:571-590 | with a cap of one page or more, a listing is returned if and only if a whole page chain within the cap exists, and is that chain's concatenation: never a partial list |
| `Search.TruncatedIsBeyond` | src/immich_bridge/fs_service.py:587-590 | the truncation error comes if and only if the chain leads to a page beyond the cap |
| `Search.NeverEndsExactly` | src/immich_bridge/fs_service.py:578-586 | with positive page numbers, the loop never ends if and only if a page chain within the cap points back into itself |
| `Search.SelfPointerNeverEnds` | src/immich_bridge/fs_service.py:578-586 | from a page within the cap that names itself as next no whole chain exists, and the loop never ends |
| `Search.IncreasingEnds` | src/immich_bridge/fs_service.py:578-590 | with page numbers that grow it ends after at most as many pages as the cap |
| `BlobInterleaving.HitsAreSets` | src/immich_bridge/blob_cache.py:62-108 | in every interleaving of readers with one writer, a hit returns exactly the bytes of one `set` for that key, no older than the `set` whose unexpired metadata vouched for them |
| `CachedOriginals.StoredThenServed` | src/immich_bridge/immich_client.py:847-931 | hence with originals that never change, when every `set` stores what `open_original` hands it, every hit is the slice that `open_original` takes it for |
| `BlobInterleaving.InvRun` | src/immich_bridge/blob_cache.py:110-169 | what every step keeps: data and metadata of a key stem from its own `set` calls, and data are never older than metadata, on disk or in a reader's hands |
| `BlobInterleaving.KeptSetHits` | src/immich_bridge/blob_cache.py:139-156 | a `set` whose prune evicts other keys only makes a `get` within its lifetime, counted from before the lock was waited for, hit with its bytes |
| `BlobPrune.BlobStore.Set` | src/immich_bridge/blob_cache.py:110-169 | a range that is cacheable and complete is stored and the cache pruned to its cap; it is itself still there if and only if it had not expired by then and the entries from its place on fit the cap; any other range changes nothing |
| `BlobPrune.BlobStore.Get` | src/immich_bridge/blob_cache.py:62-108 | a hit only from fresh and matching metadata and data, which it marks as used; otherwise a cacheable key is deleted and nothing else changes |
| `BlobPrune.BlobStore.Prune` | src/immich_bridge/blob_cache.py:202-233 | what is left are the fresh well-formed entries but for the shortest prefix in order of last use that brings the total under the cap, and it fits the cap |
| `BlobPrune.BlobStore.Scan` | src/immich_bridge/blob_cache.py:202-222 | the scan deletes exactly the entries that are not fresh and totals the rest |
| `BlobPrune.BlobStore.Evict` | src/immich_bridge/blob_cache.py:227-233 | the second loop deletes just that prefix |
| `BlobPrune.EvictedIsLeast` | src/immich_bridge/blob_cache.py:224-233 | the survivors fit the cap, and evicting fewer would not do |
| `BlobPrune.SurvivesIff` | src/immich_bridge/blob_cache.py:224-233 | an entry survives if and only if it is fresh and the sizes from its place on, in order of last use, fit the cap |
| `BlobPrune.SetThenGet` | src/immich_bridge/blob_cache.py:139-169 | so a `get` within the lifetime of a `set` hits with its bytes if and only if that sum fits the cap |
| `BlobPrune.LastPlaceFits` | src/immich_bridge/blob_cache.py:224-233 | which no entry larger than the cap does, and the entry used last does when it is not larger |
| `BlobPrune.CandidatesUnique` | src/immich_bridge/blob_cache.py:227-227 | the eviction order does not depend on the order in which the directory is read |
| `Streams.ImmichOriginalStream.Read` | src/immich_bridge/immich_client.py:263-289 | however the response is chunked, a read returns the body's next bytes and moves the position by as many |
| `Streams.ImmichOriginalStream.Seek` | src/immich_bridge/immich_client.py:241-257 | any offset: a negative one is refused, one that Immich refuses leaves the position, and after any other the stream stands at the offset with nothing stale in its buffer |
| `Streams.CachedRangeStream.Read` | src/immich_bridge/immich_client.py:166-183 | a read returns the same bytes for the cached range |
| `Streams.CachedRangeStream.Seek` | src/immich_bridge/immich_client.py:153-160 | exactly the offsets from start to one past the end are accepted |
| `Streams.OpenOriginal` | src/immich_bridge/immich_client.py:847-931 | on a hit, a miss or a bypass the stream opened shows the requested range of the body, a range Immich refuses opens none, and exactly the complete ranges of a miss are stored |
| `Streams.Drive` | src/immich_bridge/immich_client.py:907-931 | any sequence of reads and of seeks within the range gets the same bytes and positions from either stream, those of the body |
| `Admission.PermitsConserved` | src/immich_bridge/webdav_server.py:245-275 | in every interleaving, permits taken are the requests in holding phases, within the limits, and no semaphore is released above its bound |
| `Admission.AllBackUnlessLeaked` | src/immich_bridge/webdav_server.py:296-379 | when all requests are done, the permits missing are exactly those of the requests that leaked theirs |
| `Admission.LeakNeedsStep` | src/immich_bridge/webdav_server.py:322-379 | a request leaks only by a step of its own: its generator dropped unstarted, its call killed, or the closing in the finally block killed |
| `Admission.AllBack` | src/immich_bridge/webdav_server.py:322-379 | hence in a run without these three steps every permit is back when all requests are done |
| `Admission.InvRun` | src/immich_bridge/webdav_server.py:245-379 | the two local flags say, at every step, whether the request holds each permit |
| `LimitedInputs.LimitedInput.Answer` | src/immich_bridge/webdav_server.py:44-56 | `read` and `readline` answer, and consume, what the capped specification says |
| `LimitedInputs.LimitedInput.BoundedReadSize` | src/immich_bridge/webdav_server.py:78-84 | a read is refused exactly when the cap is passed already; else it never goes more than one byte beyond, asks for all that was asked when that is allowed, and for all that is allowed when it is not or no size was given |
| `LimitedInputs.Drive` | src/immich_bridge/webdav_server.py:38-56 | a run of calls on the object is a run of the specification |
| `LimitedInputs.RefinesRaw` | src/immich_bridge/webdav_server.py:44-56 | a body within the cap is read, by any mix of calls, as from the raw stream, and nothing is refused |
| `LimitedInputs.CapHolds` | src/immich_bridge/webdav_server.py:78-89 | for any body, what is handed out is a prefix of at most the cap, and at most one byte more is consumed |
| `LimitedInputs.RefusalSticks` | src/immich_bridge/webdav_server.py:78-89 | once a call is refused all later ones are |
| `CacheStore.InMemoryCache.GetJson` | src/immich_bridge/cache.py:42-51 | an entry is served up to its expiry and deleted when found expired |
| `CacheStore.InMemoryCache.DeletePrefix` | src/immich_bridge/cache.py:58-64 | exactly the entries with the prefix go |
| `CacheStore.InMemoryCache.IncrementWithTtl` | src/immich_bridge/cache.py:72-85 | a living counter grows and keeps its expiry; otherwise a new window opens at one |
| `MetadataCache.Cached` | src/immich_bridge/immich_client.py:370-393 | fresh, loaded, stale or refused: the answer and the table after it |
| `MetadataCache.NoResurrection` | src/immich_bridge/immich_client.py:469-501 | in any sequential run, what a read returns was loaded after the user's last successful write, even when upstream fails, and is at most its lifetime old, or the stale lifetime when upstream failed |
| `MetadataCache.Drive` | src/immich_bridge/immich_client.py:370-393 | a run of reads and writes on the cache object gives the answers and the table that the run theorems speak of |
| `MetadataCache.OthersUntouched` | src/immich_bridge/immich_client.py:469-471 | a write leaves every other user's entries alone |
| `MetadataCache.PrefixIsOwn` | src/immich_bridge/immich_client.py:361-364 | a user's prefix matches that user's keys, fresh and stale, and nobody else's |
| `MetadataCache.ScopesCollide` | src/immich_bridge/immich_client.py:469-471 | for two scopes of any text, exactly when a write of the one drops the fresh entry of the other, and when the stale one |
| `MetadataCache.ColonScopesCollide` | src/immich_bridge/immich_client.py:469-471 | the write of user `a` drops the entries of user `a:b` |
| `MetadataCache.FreshIsNotStale` | src/immich_bridge/immich_client.py:388-392 | storing a stale copy never overwrites another fresh entry |
| `AuthLimiter.BasicAuthUser` | src/immich_bridge/webdav_auth.py:106-139 | outcome, upstream call and table of one attempt |
| `AuthLimiter.FixedWindow` | src/immich_bridge/webdav_auth.py:55-68 | in any sequential run at most `limit` failures are recorded in a window; an attempt is refused if and only if the source's open window has `limit` of them, and then upstream is not asked |
| `AuthLimiter.InvRun` | src/immich_bridge/webdav_auth.py:64-68 | the counter of a source always equals the failures recorded since its window opened |
| `Writes.UploadSink.Write` | src/immich_bridge/webdav_provider.py:1335-1339 | bytes are appended to the staged file and counted |
| `Writes.UploadSink.Close` | src/immich_bridge/webdav_provider.py:1346-1352 | the first close publishes the byte count |
| `Writes.UploadResource.BeginWrite` | src/immich_bridge/webdav_provider.py:1388-1391 | a fresh, empty file is staged and known to the resource |
| `Writes.UploadResource.EndWrite` | src/immich_bridge/webdav_provider.py:1393-1414 | the staged bytes are sent when the write ended well, and the staged file is gone on every path when unlinking works |
| `Writes.Bridge.UploadAsset` | src/immich_bridge/webdav_provider.py:563-594 | upload, then album, then receipt, each only after the one before |
| `Writes.WriteFile` | src/immich_bridge/webdav_provider.py:1388-1414 | sink, writes and end together: the concatenated chunks are what is sent, once, and the length reported is theirs |
| `Writes.CreateAlbum` | src/immich_bridge/webdav_provider.py:555-561 | a new, empty album, and no other change |
| `Writes.RemoveFromAlbum` | src/immich_bridge/webdav_provider.py:596-608 | the membership goes, the asset stays |
| `WriteVerbs.Handle` | src/immich_bridge/webdav_provider.py:1226-1274 | one request of any of the five methods on the bridge's objects: the answer and the new state are those of the resource its path resolves to |
| `WriteVerbs.LibraryGrowsByPut` | src/immich_bridge/webdav_provider.py:1524-1536 | over any sequence of requests the library gains only what a PUT of a media name uploaded, to a path that named nothing, right below the mount root or an album's folder, with that kind of upload allowed, and with the bytes it wrote when Immich answers truly |
| `WriteVerbs.LeavesExactly` | src/immich_bridge/webdav_provider.py:2536-2551 | a request takes an asset out of an album if and only if the policy allows it and a DELETE's path, or the destination that a copy or move of client metadata overwrites, resolves to that asset in that album |
| `WriteVerbs.AlbumAssetPath` | src/immich_bridge/webdav_provider.py:610-685 | such a path goes through the folder of that very album |
| `WriteVerbs.LibraryNeverShrinks` | src/immich_bridge/webdav_provider.py:1226-1274 | over any sequence of requests to any paths, mounts and policies no asset is lost, none is changed when Immich answers truly, and no staged file is left when unlinking works |
| `WriteVerbs.MembershipLostByLeaving` | src/immich_bridge/webdav_provider.py:2536-2551 | over any such sequence a membership is lost only by one of the requests of `LeavesExactly`, with the policy of its moment on |
| `WriteVerbs.OverwritingLeaves` | src/immich_bridge/webdav_provider.py:2581-2611 | so not by DELETE alone: a copy or move of client metadata onto an album's asset that the framework clears first takes it out |
| `WriteVerbs.CopyEmptiesAlbum` | src/immich_bridge/webdav_provider.py:2581-2611 | with an actual COPY and an album of one asset |
| `WriteVerbs.ReceiptsAreTrue` | src/immich_bridge/webdav_provider.py:574-590 | a receipt tells of an upload to its path that succeeded and joined its album if one was meant, with the size of the bytes written, and its asset is still in the library |
| `Codecs.RangeHeaderRoundTrip` | src/immich_bridge/immich_client.py:777-785 | a printed range header, bounded or open, parses back to the same range |
| `Codecs.HeaderAccepted` | src/immich_bridge/webdav_provider.py:117-140 | which headers are accepted and what range they give, exactly: the first range after `bytes=`, a dash that is not its first character, numbers with white space around them, an end that is not before the start |
| `Codecs.Snake` | src/immich_bridge/api/admin.py:1453-1461 | the character loop computes the form `SnakeInvertsCamel` is about |
| `Codecs.SnakeInvertsCamel` | src/immich_bridge/api/admin.py:1453-1466 | a field name survives camel case and back exactly when each underscore is inside it and followed by a letter |
| `SettingsDicts.StoredReadsBack` | src/immich_bridge/api/admin.py:1445-1466 | a dict of settings stored in camel case reads back as it was, in its order and with no two keys merged, if and only if each key survives |
| `GrantTokens.Base64RoundTrip` | src/immich_bridge/authz.py:167-173 | stripping the padding and restoring it, every byte string decodes to itself, and the text holds no dot |
| `GrantTokens.TokenRoundTrip` | src/immich_bridge/authz.py:115-160 | a signed token verifies to its payload under exactly the secrets that give the same signature |

## Left out

- Memoisation inside one filesystem object (`_memoized`, `_freeze`): a search is a function here, so remembering it changes nothing.
- `LimitedInput.readlines` and iteration, which loop over `readline`.
- Racing metadata reads and writes, and racing login attempts: `MetadataCache` and `AuthLimiter` speak of sequential runs with a clock that does not go back.
- Redis as cache backend, SQLite, the real filesystem below `replace` and `unlink`, and modification times under concurrency.
- SHA-256, HMAC and JSON: digests are injective names, the signature is any function, and decoding inverts encoding.
- Unicode: digits, white space, case folding and lower-casing are those of ASCII; MIME tables are a parameter of an asset.
- Year 10000 and failures of the search backend inside a listing: a listing that raises is None or not modelled.
- The counts that decide whether an album splits, and the parsing of the two split thresholds: they are given.
- `date.fromisoformat` for week dates and other forms without dashes at offsets 4 and 7. A saved view whose boundary Immich cannot read finds nothing in the model; in the service its searches fail.
- Runs of seeks across both streams stay inside the range; reads after a refused seek, and of a closed stream.
- The expiry of upload receipts: a request comes with the receipts living at its moment. Users without a scope, who get none.
- HTTP, Cheroot and FastAPI, response headers, redirects, health answers, logging and metrics.
- The dispatch of the DAV framework, which the repository does not hold: `WriteVerbs` takes from it that a request goes to the resource its path resolves to, or to that path's parent; an unmapped LOCK, which creates like a PUT without a body, and property requests are not modelled.
- Share sessions, the admin store and its migrations, capability checks, the React user interface and the Swift app.
- Codecs.HeaderAccepted: headers that are no text are not modelled.
- ViewBoundaries.NeverEmptyExactly: speaks of views with one boundary, not read outside the years 1000 to 9998. With two the condition is shown to suffice (`NoEmptyBucket`), not to be needed: one may missort where the other lets no asset in.
- ViewLayouts.LayoutsAgreeExactly: likewise; with two boundaries `LayoutsAgree` has the sufficient conditions.
- ViewLayouts.PartitionedExactly: likewise; with two boundaries `Partitioned` has the sufficient condition.
