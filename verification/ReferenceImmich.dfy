/** A backend that meets what the tree theorems ask of Immich, for any library and any page size. */
module ReferenceImmich {
  import opened Wrappers
  import opened Text
  import opened Calendar
  import opened FsModel
  import opened Segments
  import opened AssetNames
  import opened Search
  import opened FsService
  import opened BucketLists
  import opened WebdavTree
  import opened TreeTheorems

  type Matcher = (Base, Asset) -> bool

  /** What a backend is made of: a library, the meaning of the other filters, how it reads boundaries,
    * the totals it reports, and whether its timeline endpoint works. */
  datatype Backend = Backend(
    library: seq<Asset>,
    matches: Matcher,
    read: Reading,
    total: Query -> Option<nat>,
    works: bool -> bool)

  predicate Wanted(k: Backend, q: Query, a: Asset) {
    k.matches(q.base, a) && NotBefore(k.read, q.after, a.when) && StrictlyBefore(k.read, q.before, a.when)
  }

  function Matching(k: Backend, q: Query, s: seq<Asset>): (r: seq<Asset>)
    ensures forall a :: a in r <==> a in s && Wanted(k, q, a)
  {
    if s == [] then []
    else
      assert forall a :: a in s <==> a == s[0] || a in s[1..];
      (if Wanted(k, q, s[0]) then [s[0]] else []) + Matching(k, q, s[1..])
  }

  function Reversed<T>(s: seq<T>): (r: seq<T>)
    ensures |r| == |s| && forall i :: 0 <= i < |s| ==> r[i] == s[|s| - 1 - i]
  {
    if s == [] then [] else Reversed(s[1..]) + [s[0]]
  }

  /** The library in listing order, filtered; newest first when asked. */
  function Found(k: Backend, q: Query): seq<Asset> {
    var kept := Matching(k, q, SortedAssets(k.library));
    if q.order.Newest? then Reversed(kept) else kept
  }

  /** The first days of the months that hold a matching asset. */
  function MonthStarts(k: Backend, base: Base, s: seq<Asset>): (r: seq<Date>)
    ensures forall d :: d in r <==>
              d.d == 1 && exists a :: a in s && k.matches(base, a) && a.when.date.y == d.y && a.when.date.m == d.m
  {
    if s == [] then []
    else
      assert forall a :: a in s <==> a == s[0] || a in s[1..];
      var first := if k.matches(base, s[0]) then [Date(s[0].when.date.y, s[0].when.date.m, 1)] else [];
      first + MonthStarts(k, base, s[1..])
  }

  function ImmichOf(k: Backend): Immich {
    Immich(
      (set a | a in k.library), k.matches, k.read, (q: Query) => Found(k, q), k.total,
      (favorite: bool) =>
        if !k.works(favorite) then None
        else Some(MonthStarts(k, if favorite then FavoriteAssets else AllAssets, k.library)))
  }

  lemma {:induction false} MatchingAscending(k: Backend, q: Query, s: seq<Asset>)
    requires Ascending(s)
    ensures Ascending(Matching(k, q, s))
  {
    hide Wanted, KeyLess;
    if s != [] {
      MatchingAscending(k, q, s[1..]);
      forall a | a in Matching(k, q, s[1..])
        ensures KeyLess(s[0], a)
      {
        assert a in s[1..];
        var i :| 0 <= i < |s[1..]| && s[1..][i] == a;
        assert s[i + 1] == a;
      }
    }
  }

  lemma AscendingInTime(kept: seq<Asset>)
    requires Ascending(kept)
    ensures InTime(kept)
  {
    hide KeyLess, Before;
    forall i, j | 0 <= i < j < |kept|
      ensures !Before(kept[j].when, kept[i].when) && kept[i] != kept[j]
    {
      KeyLessMeansNotAfter(kept[i], kept[j]);
    }
  }

  lemma KeyLessMeansNotAfter(a: Asset, b: Asset)
    requires KeyLess(a, b)
    ensures !Before(b.when, a.when) && a != b
  {
    KeyOrder(a, b, a);
  }

  predicate InTime(s: seq<Asset>) {
    forall i, j :: 0 <= i < j < |s| ==> !Before(s[j].when, s[i].when) && s[i] != s[j]
  }

  /** Any library of distinct ids has a faithful backend, whatever the other filters mean and however
    * other boundaries than the printed ones are read. */
  lemma ImmichOfFaithful(k: Backend)
    requires DistinctIds(k.library) && ReadsHours(k.read)
    ensures Faithful(ImmichOf(k))
  {
    hide ReadsHours, SortedAssets, Ascending, Found, FindOk, MonthStarts;
    SortedAscending(k.library);
    SortedMembers(k.library);
    forall q
      ensures FindOk(ImmichOf(k), q)
    {
      FoundOk(k, q);
    }
  }

  lemma FoundOk(k: Backend, q: Query)
    requires Ascending(SortedAssets(k.library)) && (forall a :: a in SortedAssets(k.library) <==> a in k.library)
    ensures FindOk(ImmichOf(k), q)
  {
    hide Ascending, InTime, NotBefore, StrictlyBefore, SortedAssets, Before, Matching, Reversed, MonthStarts;
    var kept := Matching(k, q, SortedAssets(k.library));
    MatchingAscending(k, q, SortedAssets(k.library));
    AscendingInTime(kept);
    FoundOrder(kept, q.order, Found(k, q));
    assert forall a :: a in kept <==> a in SortedAssets(k.library) && Wanted(k, q, a);
  }

  lemma FoundOrder(kept: seq<Asset>, order: Order, found: seq<Asset>)
    requires InTime(kept)
    requires found == if order.Newest? then Reversed(kept) else kept
    ensures forall a :: a in found <==> a in kept
    ensures forall i, j :: 0 <= i < j < |found| ==> found[i] != found[j]
    ensures order.Oldest? ==> forall i, j :: 0 <= i < j < |found| ==> !Before(found[j].when, found[i].when)
    ensures order.Newest? ==> forall i, j :: 0 <= i < j < |found| ==> !Before(found[i].when, found[j].when)
  {
    hide Before, Reversed;
    if order.Newest? {
      ReversedElements(kept);
      forall i, j | 0 <= i < j < |found|
        ensures found[i] != found[j] && !Before(found[i].when, found[j].when)
      {
        assert found[i] == kept[|kept| - 1 - i] && found[j] == kept[|kept| - 1 - j];
      }
    }
  }

  lemma ReversedElements<T>(s: seq<T>)
    ensures forall x :: x in Reversed(s) <==> x in s
  {
    var r := Reversed(s);
    hide Reversed;
    forall i | 0 <= i < |s|
      ensures s[i] in r && r[i] in s
    {
      assert r[|s| - 1 - i] == s[i];
    }
  }

  // ---------- paging it ----------

  /** Pages of `size` items, numbered from 1, each pointing to the next while items are left. */
  function PagedServer<T>(all: seq<T>, size: nat): Server<T>
    requires size >= 1
  {
    (n: int) => if n < 1 then None else PageAfter(all, size, (n - 1) * size, n)
  }

  /** The page that follows `done` items. */
  function PageAfter<T>(all: seq<T>, size: nat, done: int, n: nat): Option<Page<T>> {
    if done < 0 || done > |all| then None
    else if done + size < |all| then Some(Page(all[done..done + size], Some(Str(n + 1))))
    else Some(Page(all[done..], None))
  }

  lemma PageAt<T>(all: seq<T>, size: nat, page: int)
    requires size >= 1 && page >= 1 && (page - 1) * size <= |all|
    ensures page * size < |all| ==>
              && (page - 1) * size <= page * size && PagedServer(all, size)(page).Some?
              && PagedServer(all, size)(page).value.items == all[(page - 1) * size..page * size]
              && More(PagedServer(all, size)(page).value)
              && NextNumber(PagedServer(all, size)(page).value) == Some(page + 1)
    ensures page * size >= |all| ==> PagedServer(all, size)(page) == Some(Page(all[(page - 1) * size..], None))
  {
    hide PyInt, Str;
    PyIntStr(page + 1);
    NextStart(page, size);
  }

  lemma NextStart(page: int, size: nat)
    requires page >= 1
    ensures 0 <= (page - 1) * size <= page * size == (page - 1) * size + size
  {
  }

  /** A chain of pages that ends. */
  lemma {:induction false} PagedEnds<T(!new)>(all: seq<T>, size: nat, page: int, maxPages: nat, n: nat)
    requires size >= 1 && n >= maxPages + 1 - page
    ensures Ends(PagedServer(all, size), page, maxPages, n)
    decreases n
  {
    hide PagedServer, PyInt;
    PagedPoints(all, size, page);
    if n > 0 && page <= maxPages { PagedEnds(all, size, page + 1, maxPages, n - 1); }
  }

  lemma PagedPoints<T>(all: seq<T>, size: nat, page: int)
    requires size >= 1
    ensures var got := PagedServer(all, size)(page);
            got.Some? && More(got.value) && NextNumber(got.value).Some? ==> NextNumber(got.value) == Some(page + 1)
  {
    hide PyInt;
    if page >= 1 && (page - 1) * size <= |all| { PageAt(all, size, page); }
  }

  /** What the pages from one on hold. */
  function FromPage<T>(all: seq<T>, size: nat, page: nat): seq<T>
    requires page >= 1
  {
    var done := (page - 1) * size;
    if 0 <= done <= |all| then all[done..] else []
  }

  lemma {:induction false} PagedFetch<T(!new)>(all: seq<T>, size: nat, page: nat, maxPages: nat, n: nat)
    requires size >= 1 && 1 <= page <= maxPages && (page - 1) * size <= |all| && n >= maxPages + 1 - page
    ensures Ends(PagedServer(all, size), page, maxPages, n)
    ensures Fetched(PagedServer(all, size), page, maxPages, n)
         == if |all| <= maxPages * size then Success(FromPage(all, size, page)) else Failure(Truncated)
    decreases n
  {
    hide PyInt, PagedServer;
    PagedEnds(all, size, page, maxPages, n);
    PageAt(all, size, page);
    if page * size < |all| {
      if page < maxPages {
        PagedFetch(all, size, page + 1, maxPages, n - 1);
        assert all[(page - 1) * size..page * size] + all[page * size..] == all[(page - 1) * size..];
      }
    } else {
      Monotone(page, maxPages, size);
    }
  }

  /** The search over such a server returns everything when it fits the page cap, and otherwise
    * refuses: the truncation error comes exactly for more than `maxPages` pages of assets. */
  lemma PagedSearch<T(!new)>(all: seq<T>, size: nat, maxPages: nat, n: nat)
    requires size >= 1 && n >= maxPages
    ensures Ends(PagedServer(all, size), 1, maxPages, n)
    ensures Searched(PagedServer(all, size), maxPages, n)
         == if maxPages == 0 then Success([])
            else if |all| <= maxPages * size then Success(all)
            else Failure(Truncated)
  {
    hide PagedServer;
    PagedEnds(all, size, 1, maxPages, n);
    if maxPages > 0 { PagedFetch(all, size, 1, maxPages, n); }
    assert all[0..] == all;
  }

  lemma Monotone(n: nat, m: nat, size: nat)
    requires n <= m
    ensures n * size <= m * size
  {
  }

  // ---------- mounting it ----------

  /** The reading of the three forms of FsModel reads what the bridge prints. */
  lemma ParseBoundReads()
    ensures ReadsHours(ParseBound)
  {
    hide ParseBound, Show, At;
    forall bucket | OnTheHour(bucket)
      ensures ParseBound(Show(bucket)) == Some(At(bucket))
    {
      BoundRoundTrip(bucket);
    }
  }

  predicate PrintableLibrary(library: seq<Asset>) {
    DistinctIds(library) && forall a :: a in library ==> 1000 <= a.when.date.y <= 9998 && '/' !in a.id
  }

  /** The mounts of the tree theorems exist: any library of printable years, any albums and saved views
    * of safe names, flat or dated, and a timeline endpoint that works or fails. In them every tree lists
    * printable years from a right timeline, whatever its boundaries. */
  lemma MountExists(k: Backend, threshold: int, enabled: set<string>, albums: seq<(string, Tree)>,
                    views: seq<(string, Tree)>, receipts: set<seq<string>>)
    requires PrintableLibrary(k.library) && ReadsHours(k.read)
    requires var m := Mount(ImmichOf(k), threshold, enabled, albums, views, receipts);
             NamesOk(m, albums, "Albums") && NamesOk(m, views, "Views")
    ensures var m := Mount(ImmichOf(k), threshold, enabled, albums, views, receipts);
            MountOk(m) && forall top :: TreeOk(m.immich, top)
  {
    hide Faithful, ReadsHours, TreeOk, Found;
    ImmichOfFaithful(k);
    forall top: Tree
      ensures TreeOk(ImmichOf(k), top)
    {
      TreeOkOf(k, top);
    }
  }

  lemma TreeOkOf(k: Backend, top: Tree)
    requires PrintableLibrary(k.library)
    ensures TreeOk(ImmichOf(k), top)
  {
    hide Found, DistinctIds;
    if top.scope.DateView? { MonthStartsExact(k, top.scope); }
  }

  lemma MonthStartsExact(k: Backend, s: Scope)
    requires s.DateView?
    ensures MonthsExact(ImmichOf(k), s)
  {
    hide Found;
    var b := ImmichOf(k);
    if k.works(s.favorite) {
      forall d: Date
        ensures d in b.months(s.favorite).value <==> d.d == 1 && HasMonth(b, s, d.y, d.m)
      {
        if a :| a in k.library && k.matches(BaseOf(s), a) && a.when.date.y == d.y && a.when.date.m == d.m {
          assert a in b.lib && InScope(b, s, a);
        }
        if HasMonth(b, s, d.y, d.m) {
          var a :| a in b.lib && InScope(b, s, a) && a.when.date.y == d.y && a.when.date.m == d.m;
          assert a in k.library && k.matches(BaseOf(s), a);
        }
      }
    }
  }

  /** One of them: a working timeline, a dated album and a flat saved view with a boundary of its own. */
  lemma SampleMount(library: seq<Asset>, matches: Matcher, total: Query -> Option<nat>, threshold: int, since: Date)
    requires PrintableLibrary(library) && Valid(since)
    ensures var k := Backend(library, matches, ParseBound, total, favorite => true);
            var trip := Tree(["Albums", "Trip"], AlbumScope("a1"), false);
            var late := Tree(["Views", "Late"], ViewScope([], Some(DateText(since)), None), true);
            var m := Mount(ImmichOf(k), threshold, {"Albums", "Timeline", "Views"}, [("Trip", trip)], [("Late", late)],
                           {});
            && MountOk(m) && Mounted(m, trip) && Mounted(m, late) && ExactScope(m.immich, late.scope)
            && forall top :: TreeOk(m.immich, top)
  {
    hide MountOk, PrintableLibrary, Show, ParseBound, ReadsHours, SortsAtHours, ImmichOf, DateText;
    var k := Backend(library, matches, ParseBound, total, favorite => true);
    var trip := Tree(["Albums", "Trip"], AlbumScope("a1"), false);
    var late := Tree(["Views", "Late"], ViewScope([], Some(DateText(since)), None), true);
    ParseBoundReads();
    SinceExact(k, since);
    assert Safe("Trip", 4) && Safe("Late", 4);
    MountExists(k, threshold, {"Albums", "Timeline", "Views"}, [("Trip", trip)], [("Late", late)], {});
  }

  lemma SinceExact(k: Backend, since: Date)
    requires Valid(since) && k.read == ParseBound
    ensures ExactScope(ImmichOf(k), ViewScope([], Some(DateText(since)), None))
  {
    hide ParseBound, SortsAtHours, At, DateText, Found;
    assert Show(DayBound(since)) == DateText(since);
    BoundRoundTrip(DayBound(since));
    ClashFreeExact(ParseBound, DayBound(since));
  }
}
