/** The named trees of a mount as the bridge builds them, from the albums Immich lists and the stored saved
  * views; and when each of them can be reached by its name. */
module MountNames {
  import opened Wrappers
  import opened Text
  import opened Segments
  import opened FsService
  import opened WebdavTree
  import opened TreeTheorems
  import N = FolderNames
  import AssetNames

  // ---------- albums ----------

  /** An album's folder; `dated` is `should_split_album`. */
  function AlbumTree(e: N.Entry, dated: N.Album -> bool): Tree {
    Tree(["Albums", e.name], AlbumScope(e.album.id), !dated(e.album))
  }

  function AlbumListing(albums: seq<N.Album>): seq<N.Entry> { N.SortedEntries(N.AllNamed(albums, N.Bases(albums))) }

  function AlbumTrees(albums: seq<N.Album>, dated: N.Album -> bool): seq<(string, Tree)> {
    var entries := AlbumListing(albums);
    seq(|entries|, i requires 0 <= i < |entries| => (entries[i].name, AlbumTree(entries[i], dated)))
  }

  /** The tree of the i-th album Immich lists. */
  function TreeOfAlbum(albums: seq<N.Album>, dated: N.Album -> bool, i: nat): Tree
    requires i < |albums|
  {
    AlbumTree(N.Entry(N.AlbumName(albums, albums[i]), albums[i]), dated)
  }

  predicate DistinctAlbums(albums: seq<N.Album>) {
    forall i, j :: 0 <= i < j < |albums| ==> albums[i].id != albums[j].id
  }

  /** The listing has the albums, each under its name. */
  lemma AlbumListed(albums: seq<N.Album>)
    ensures forall e :: e in AlbumListing(albums) ==> e.album in albums && e.name == N.AlbumName(albums, e.album)
    ensures forall a :: a in albums ==> N.Entry(N.AlbumName(albums, a), a) in AlbumListing(albums)
  {
    hide N.AlbumName, N.SortedEntries, N.AllNamed, N.Bases;
    var listing := AlbumListing(albums);
    forall e | e in listing
      ensures e.album in albums && e.name == N.AlbumName(albums, e.album)
    {
      N.AlbumsConserved(albums, e.album);
      var i :| 0 <= i < |listing| && listing[i] == e;
      assert N.AlbumsOf(listing)[i] == e.album;
      assert e.album in multiset(N.AlbumsOf(listing));
      assert e.album in multiset(albums);
    }
    forall a | a in albums
      ensures N.Entry(N.AlbumName(albums, a), a) in listing
    {
      N.AlbumsConserved(albums, a);
      assert a in multiset(albums);
      assert a in multiset(N.AlbumsOf(listing));
      var i :| 0 <= i < |N.AlbumsOf(listing)| && N.AlbumsOf(listing)[i] == a;
      assert listing[i] in listing && listing[i].album == a;
    }
  }

  lemma AlbumByName(albums: seq<N.Album>, dated: N.Album -> bool, name: string)
    ensures ByName(AlbumTrees(albums, dated), name).Some?
            <==> exists i :: 0 <= i < |albums| && N.AlbumName(albums, albums[i]) == name
    ensures ByName(AlbumTrees(albums, dated), name).Some? ==>
              exists i :: 0 <= i < |albums| && N.AlbumName(albums, albums[i]) == name
                          && ByName(AlbumTrees(albums, dated), name) == Some(TreeOfAlbum(albums, dated, i))
  {
    hide AlbumListing, ByName, N.AlbumName;
    AlbumListed(albums);
    var listing, trees := AlbumListing(albums), AlbumTrees(albums, dated);
    if ByName(trees, name).Some? {
      var k :| 0 <= k < |trees| && trees[k] == (name, ByName(trees, name).value);
      assert listing[k] in listing;
      var i :| 0 <= i < |albums| && albums[i] == listing[k].album;
      assert TreeOfAlbum(albums, dated, i) == trees[k].1;
    }
    if i :| 0 <= i < |albums| && N.AlbumName(albums, albums[i]) == name {
      var k :| 0 <= k < |listing| && listing[k] == N.Entry(N.AlbumName(albums, albums[i]), albums[i]);
      assert trees[k].0 == name;
    }
  }

  lemma AlbumShownMeans(albums: seq<N.Album>, dated: N.Album -> bool, i: nat)
    requires i < |albums|
    ensures Shown(AlbumTrees(albums, dated), "Albums", TreeOfAlbum(albums, dated, i))
       <==> && N.AlbumName(albums, albums[i]) != README
            && ByName(AlbumTrees(albums, dated), N.AlbumName(albums, albums[i])) == Some(TreeOfAlbum(albums, dated, i))
  {
    hide AlbumTrees, ByName, N.AlbumName;
  }

  lemma ClashHides(albums: seq<N.Album>, dated: N.Album -> bool, i: nat, j: nat)
    requires DistinctAlbums(albums) && i < j < |albums| && N.AlbumClash(albums, albums[i], albums[j])
    ensures !(&& Shown(AlbumTrees(albums, dated), "Albums", TreeOfAlbum(albums, dated, i))
              && Shown(AlbumTrees(albums, dated), "Albums", TreeOfAlbum(albums, dated, j)))
  {
    hide AlbumTrees, ByName, Shown, N.AlbumName, N.AlbumClash;
    N.AlbumNamesCollide(albums, i, j);
    AlbumShownMeans(albums, dated, i);
    AlbumShownMeans(albums, dated, j);
    assert TreeOfAlbum(albums, dated, i).scope.albumId != TreeOfAlbum(albums, dated, j).scope.albumId;
  }

  lemma NoClashShows(albums: seq<N.Album>, dated: N.Album -> bool, i: nat)
    requires i < |albums| && N.AlbumName(albums, albums[i]) != README
    requires forall i, j :: 0 <= i < j < |albums| ==> !N.AlbumClash(albums, albums[i], albums[j])
    ensures Shown(AlbumTrees(albums, dated), "Albums", TreeOfAlbum(albums, dated, i))
  {
    hide AlbumTrees, ByName, Shown, TreeOfAlbum, N.AlbumName, N.AlbumClash;
    AlbumShownMeans(albums, dated, i);
    AlbumByName(albums, dated, N.AlbumName(albums, albums[i]));
    var k :| 0 <= k < |albums| && N.AlbumName(albums, albums[k]) == N.AlbumName(albums, albums[i])
             && ByName(AlbumTrees(albums, dated), N.AlbumName(albums, albums[i]))
                  == Some(TreeOfAlbum(albums, dated, k));
    if k < i { N.AlbumNamesCollide(albums, k, i); }
    if i < k { N.AlbumNamesCollide(albums, i, k); }
  }

  /** Every album is reached by its name if and only if no two clash and none is named like the README. */
  lemma EveryAlbumShown(albums: seq<N.Album>, dated: N.Album -> bool)
    requires DistinctAlbums(albums)
    ensures (forall i :: 0 <= i < |albums| ==>
             Shown(AlbumTrees(albums, dated), "Albums", TreeOfAlbum(albums, dated, i)))
       <==> && (forall i, j :: 0 <= i < j < |albums| ==> !N.AlbumClash(albums, albums[i], albums[j]))
            && (forall i :: 0 <= i < |albums| ==> N.AlbumName(albums, albums[i]) != README)
  {
    hide AlbumTrees, ByName, Shown, TreeOfAlbum, N.AlbumName, N.AlbumClash;
    forall i | 0 <= i < |albums| && N.AlbumName(albums, albums[i]) == README
      ensures !Shown(AlbumTrees(albums, dated), "Albums", TreeOfAlbum(albums, dated, i))
    {
      AlbumShownMeans(albums, dated, i);
    }
    forall i, j | 0 <= i < j < |albums| && N.AlbumClash(albums, albums[i], albums[j])
      ensures !(&& Shown(AlbumTrees(albums, dated), "Albums", TreeOfAlbum(albums, dated, i))
                && Shown(AlbumTrees(albums, dated), "Albums", TreeOfAlbum(albums, dated, j)))
    {
      ClashHides(albums, dated, i, j);
    }
    if (forall i, j :: 0 <= i < j < |albums| ==> !N.AlbumClash(albums, albums[i], albums[j]))
       && (forall i :: 0 <= i < |albums| ==> N.AlbumName(albums, albums[i]) != README) {
      forall i | 0 <= i < |albums|
        ensures Shown(AlbumTrees(albums, dated), "Albums", TreeOfAlbum(albums, dated, i))
      {
        NoClashShows(albums, dated, i);
      }
    }
  }

  // ---------- saved views ----------

  datatype View = View(name: string, filters: seq<(string, string)>, after: Option<string>, before: Option<string>,
                       flat: bool)

  function ViewNames(views: seq<View>): seq<string> { seq(|views|, i requires 0 <= i < |views| => views[i].name) }

  function ViewTree(views: seq<View>, i: nat): Tree
    requires i < |views|
  {
    Tree(["Views", N.DavName(ViewNames(views), i)], ViewScope(views[i].filters, views[i].after, views[i].before),
         views[i].flat)
  }

  function InsertedTree(e: (string, Tree), s: seq<(string, Tree)>): (r: seq<(string, Tree)>)
    ensures forall x :: x in r <==> x == e || x in s
  {
    if s == [] || !Less(Lower(s[0].0), Lower(e.0)) then [e] + s
    else
      assert forall x :: x in s <==> x == s[0] || x in s[1..];
      [s[0]] + InsertedTree(e, s[1..])
  }

  /** `sorted` on the folded name. */
  function SortedTrees(s: seq<(string, Tree)>): (r: seq<(string, Tree)>)
    ensures forall x :: x in r <==> x in s
  {
    if s == [] then []
    else
      assert forall x :: x in s <==> x == s[0] || x in s[1..];
      InsertedTree(s[0], SortedTrees(s[1..]))
  }

  /** `saved_view_entries`: named in stored order, then sorted. */
  function ViewTrees(views: seq<View>): seq<(string, Tree)> {
    SortedTrees(seq(|views|, i requires 0 <= i < |views| => (N.DavName(ViewNames(views), i), ViewTree(views, i))))
  }

  lemma ViewListed(views: seq<View>)
    ensures forall e :: e in ViewTrees(views) ==>
              exists i :: 0 <= i < |views| && e == (N.DavName(ViewNames(views), i), ViewTree(views, i))
    ensures forall i :: 0 <= i < |views| ==> (N.DavName(ViewNames(views), i), ViewTree(views, i)) in ViewTrees(views)
  {
    hide N.DavName;
    var named := seq(|views|, i requires 0 <= i < |views| => (N.DavName(ViewNames(views), i), ViewTree(views, i)));
    forall i | 0 <= i < |views|
      ensures (N.DavName(ViewNames(views), i), ViewTree(views, i)) in ViewTrees(views)
    {
      assert named[i] in named;
    }
  }

  lemma ViewByName(views: seq<View>, name: string)
    ensures ByName(ViewTrees(views), name).Some?
            <==> exists i :: 0 <= i < |views| && N.DavName(ViewNames(views), i) == name
    ensures ByName(ViewTrees(views), name).Some? ==>
              exists i :: 0 <= i < |views| && N.DavName(ViewNames(views), i) == name
                          && ByName(ViewTrees(views), name) == Some(ViewTree(views, i))
  {
    hide ViewTrees, ByName, N.DavName;
    ViewListed(views);
    var trees := ViewTrees(views);
    if ByName(trees, name).Some? {
      var k :| 0 <= k < |trees| && trees[k] == (name, ByName(trees, name).value);
      assert trees[k] in trees;
    }
    if i :| 0 <= i < |views| && N.DavName(ViewNames(views), i) == name {
      var k :| 0 <= k < |trees| && trees[k] == (N.DavName(ViewNames(views), i), ViewTree(views, i));
    }
  }

  /** The same filters and the same layout: which of the two a name means makes no difference. */
  predicate Alike(a: View, b: View) { a.(name := "") == b.(name := "") }

  lemma ViewShownMeans(views: seq<View>, i: nat)
    requires i < |views|
    ensures Shown(ViewTrees(views), "Views", ViewTree(views, i))
       <==> && N.DavName(ViewNames(views), i) != README
            && ByName(ViewTrees(views), N.DavName(ViewNames(views), i)) == Some(ViewTree(views, i))
  {
    hide ViewTrees, ByName, N.DavName;
  }

  lemma SameTree(views: seq<View>, i: nat, j: nat)
    requires i < j < |views|
    ensures N.ViewClash(ViewNames(views), i, j) <==> N.DavName(ViewNames(views), i) == N.DavName(ViewNames(views), j)
    ensures N.ViewClash(ViewNames(views), i, j) ==>
              (ViewTree(views, i) == ViewTree(views, j) <==> Alike(views[i], views[j]))
  {
    hide N.DavName, N.ViewClash;
    N.ViewNamesCollide(ViewNames(views), i, j);
  }

  lemma ViewClashHides(views: seq<View>, i: nat, j: nat)
    requires i < j < |views| && N.ViewClash(ViewNames(views), i, j) && !Alike(views[i], views[j])
    ensures !(Shown(ViewTrees(views), "Views", ViewTree(views, i))
              && Shown(ViewTrees(views), "Views", ViewTree(views, j)))
  {
    hide ViewTrees, ViewTree, ByName, Shown, N.DavName, N.ViewClash;
    SameTree(views, i, j);
    ViewShownMeans(views, i);
    ViewShownMeans(views, j);
  }

  lemma NoViewClashShows(views: seq<View>, i: nat)
    requires i < |views| && N.DavName(ViewNames(views), i) != README
    requires forall i, j :: 0 <= i < j < |views| && N.ViewClash(ViewNames(views), i, j) ==> Alike(views[i], views[j])
    ensures Shown(ViewTrees(views), "Views", ViewTree(views, i))
  {
    hide ViewTrees, ViewTree, ByName, Shown, N.DavName, N.ViewClash;
    ViewShownMeans(views, i);
    ViewByName(views, N.DavName(ViewNames(views), i));
    var k :| 0 <= k < |views| && N.DavName(ViewNames(views), k) == N.DavName(ViewNames(views), i)
             && ByName(ViewTrees(views), N.DavName(ViewNames(views), i)) == Some(ViewTree(views, k));
    if k < i { SameTree(views, k, i); }
    if i < k { SameTree(views, i, k); }
  }

  /** Every saved view is reached by its name if and only if only alike ones clash and none is named like
    * the README. */
  lemma EveryViewShown(views: seq<View>)
    ensures (forall i :: 0 <= i < |views| ==> Shown(ViewTrees(views), "Views", ViewTree(views, i)))
       <==> && (forall i, j :: 0 <= i < j < |views| && N.ViewClash(ViewNames(views), i, j) ==>
                Alike(views[i], views[j]))
            && (forall i :: 0 <= i < |views| ==> N.DavName(ViewNames(views), i) != README)
  {
    hide ViewTrees, ViewTree, ByName, Shown, Alike, N.DavName, N.ViewClash;
    forall i | 0 <= i < |views| && N.DavName(ViewNames(views), i) == README
      ensures !Shown(ViewTrees(views), "Views", ViewTree(views, i))
    {
      ViewShownMeans(views, i);
    }
    forall i, j | 0 <= i < j < |views| && N.ViewClash(ViewNames(views), i, j) && !Alike(views[i], views[j])
      ensures !(Shown(ViewTrees(views), "Views", ViewTree(views, i))
                && Shown(ViewTrees(views), "Views", ViewTree(views, j)))
    {
      ViewClashHides(views, i, j);
    }
    if (forall i, j :: 0 <= i < j < |views| && N.ViewClash(ViewNames(views), i, j) ==> Alike(views[i], views[j]))
       && (forall i :: 0 <= i < |views| ==> N.DavName(ViewNames(views), i) != README) {
      forall i | 0 <= i < |views|
        ensures Shown(ViewTrees(views), "Views", ViewTree(views, i))
      {
        NoViewClashShows(views, i);
      }
    }
  }

  // ---------- the mount ----------

  /** The names the bridge gives are what the tree theorems ask of names. */
  lemma NamesAreOk(m: Mount, albums: seq<N.Album>, dated: N.Album -> bool, views: seq<View>)
    requires forall a :: a in albums ==> Safe(AssetNames.ShortId(a.id, 8), |AssetNames.ShortId(a.id, 8)|)
    ensures NamesOk(m, AlbumTrees(albums, dated), "Albums") && NamesOk(m, ViewTrees(views), "Views")
  {
    hide Safe, N.AlbumName, N.DavName, AlbumListing, ViewTrees;
    AlbumListed(albums);
    ViewListed(views);
    var listing, trees := AlbumListing(albums), AlbumTrees(albums, dated);
    forall k | 0 <= k < |trees|
      ensures Safe(trees[k].0, |trees[k].0|)
    {
      assert listing[k] in listing;
      N.AlbumNameIsSafe(albums, listing[k].album);
    }
    forall k | 0 <= k < |ViewTrees(views)|
      ensures Safe(ViewTrees(views)[k].0, |ViewTrees(views)[k].0|)
      ensures ViewTrees(views)[k].1.prefix == ["Views", ViewTrees(views)[k].0] && ViewTrees(views)[k].1.scope.ViewScope?
    {
      assert ViewTrees(views)[k] in ViewTrees(views);
      var i :| 0 <= i < |views| && ViewTrees(views)[k] == (N.DavName(ViewNames(views), i), ViewTree(views, i));
      N.DavNameIsSafe(ViewNames(views), i);
    }
  }
}
