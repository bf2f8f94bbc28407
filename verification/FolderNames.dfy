/** Folder names of albums and saved views (src/immich_bridge/fs_model.py `album_entries`,
  * src/immich_bridge/webdav_provider.py `saved_view_entries`): when they collide, exactly. */
module FolderNames {
  import opened Text
  import opened Segments
  import opened AssetNames

  datatype Album = Album(id: string, name: string)

  datatype Entry = Entry(name: string, album: Album)

  function AlbumBase(a: Album): string { SafeSegment(a.name, "Album", 140) }

  /** The albums of one base name, in listing order. */
  function Group(albums: seq<Album>, base: string): seq<Album> {
    if albums == [] then []
    else
      var last := albums[|albums| - 1];
      Group(albums[..|albums| - 1], base) + (if AlbumBase(last) == base then [last] else [])
  }

  function SuffixedName(a: Album): string { AlbumBase(a) + "--" + ShortId(a.id, 8) }

  /** The folder name an album gets among `albums`. */
  function AlbumName(albums: seq<Album>, a: Album): string {
    if |Group(albums, AlbumBase(a))| == 1 then AlbumBase(a) else SuffixedName(a)
  }

  /** The base names in order of first appearance: the keys of the source's dict. */
  function Bases(albums: seq<Album>): seq<string> {
    if albums == [] then []
    else
      var rest, base := Bases(albums[..|albums| - 1]), AlbumBase(albums[|albums| - 1]);
      if base in rest then rest else rest + [base]
  }

  function Named(albums: seq<Album>, group: seq<Album>): seq<Entry> {
    seq(|group|, i requires 0 <= i < |group| => Entry(AlbumName(albums, group[i]), group[i]))
  }

  function AllNamed(albums: seq<Album>, bases: seq<string>): seq<Entry> {
    if bases == [] then []
    else AllNamed(albums, bases[..|bases| - 1]) + Named(albums, Group(albums, bases[|bases| - 1]))
  }

  // ---------- sorting by folded name ----------

  function InsertedEntry(e: Entry, s: seq<Entry>): (r: seq<Entry>)
    ensures multiset(r) == multiset(s) + multiset{e}
  {
    if s == [] || !Less(Lower(s[0].name), Lower(e.name)) then [e] + s
    else
      assert s == [s[0]] + s[1..];
      [s[0]] + InsertedEntry(e, s[1..])
  }

  /** Python's stable `sorted` on the folded name. */
  function SortedEntries(s: seq<Entry>): (r: seq<Entry>)
    ensures multiset(r) == multiset(s)
  {
    if s == [] then []
    else
      assert s == [s[0]] + s[1..];
      InsertedEntry(s[0], SortedEntries(s[1..]))
  }

  // ---------- albums ----------

  function Filed(bases: map<string, seq<Album>>, base: string): seq<Album> {
    if base in bases then bases[base] else []
  }

  /** The dict holds each base's albums of those seen. */
  ghost predicate Groups(bases: map<string, seq<Album>>, albums: seq<Album>) {
    forall base :: Filed(bases, base) == Group(albums, base)
  }

  lemma GroupsMore(bases: map<string, seq<Album>>, albums: seq<Album>, a: Album)
    requires Groups(bases, albums)
    ensures Groups(bases[AlbumBase(a) := Filed(bases, AlbumBase(a)) + [a]], albums + [a])
  {
    hide AlbumBase;
    assert (albums + [a])[..|albums|] == albums;
    forall base
      ensures Filed(bases[AlbumBase(a) := Filed(bases, AlbumBase(a)) + [a]], base) == Group(albums + [a], base)
    {
      assert Filed(bases, base) == Group(albums, base);
    }
  }

  lemma BasesMore(albums: seq<Album>, a: Album)
    ensures Bases(albums + [a])
         == if AlbumBase(a) in Bases(albums) then Bases(albums) else Bases(albums) + [AlbumBase(a)]
  {
    hide AlbumBase;
    assert (albums + [a])[..|albums|] == albums;
  }

  /** The first loop of `album_entries`: the dict of albums by base name, and its key order. */
  method GroupByBase(albums: seq<Album>) returns (keys: seq<string>, bases: map<string, seq<Album>>)
    ensures keys == Bases(albums) && Groups(bases, albums)
    ensures forall base :: base in keys ==> base in bases
  {
    hide AlbumBase, Bases, Group;
    bases := map[];
    keys := [];
    NoGroups();
    for i := 0 to |albums|
      invariant keys == Bases(albums[..i]) && Groups(bases, albums[..i])
      invariant forall base :: base in bases <==> base in keys
    {
      hide Groups;
      var album := albums[i];
      var base := AlbumBase(album);
      assert albums[..i + 1] == albums[..i] + [album];
      GroupsMore(bases, albums[..i], album);
      BasesMore(albums[..i], album);
      if base !in bases {
        keys := keys + [base];
      }
      bases := bases[base := Filed(bases, base) + [album]];
    }
    assert albums[..|albums|] == albums;
  }

  lemma GroupOf(bases: map<string, seq<Album>>, albums: seq<Album>, base: string)
    requires Groups(bases, albums) && base in bases
    ensures bases[base] == Group(albums, base)
  {
    assert Filed(bases, base) == Group(albums, base);
  }

  lemma NoGroups()
    ensures Groups(map[], []) && Bases([]) == []
  {
  }

  /** The inner loop: the plain base for a group of one, suffixed names for more. */
  method NameGroup(ghost albums: seq<Album>, base: string, group: seq<Album>) returns (entries: seq<Entry>)
    requires group == Group(albums, base)
    ensures entries == Named(albums, group)
  {
    GroupBase(albums, base);
    hide AlbumBase, Group, ShortId, Named;
    NamedParts(albums, group);
    if |group| == 1 {
      return [Entry(base, group[0])];
    }
    entries := [];
    for j := 0 to |group|
      invariant entries == Named(albums, group)[..j]
    {
      assert group[j] in group;
      entries := entries + [Entry(base + "--" + ShortId(group[j].id, 8), group[j])];
    }
    assert Named(albums, group)[..|group|] == Named(albums, group);
  }

  lemma NamedParts(albums: seq<Album>, group: seq<Album>)
    ensures |Named(albums, group)| == |group|
    ensures forall j :: 0 <= j < |group| ==> Named(albums, group)[j] == Entry(AlbumName(albums, group[j]), group[j])
  {
    hide AlbumName;
  }

  /** `album_entries`: group by base name, name each group, sort. */
  method AlbumEntries(albums: seq<Album>) returns (entries: seq<Entry>)
    ensures entries == SortedEntries(AllNamed(albums, Bases(albums)))
  {
    hide AlbumBase, SortedEntries, Named, Group, Groups, Bases;
    var keys, bases := GroupByBase(albums);
    entries := [];
    for i := 0 to |keys|
      invariant entries == AllNamed(albums, keys[..i])
    {
      assert keys[..i + 1][..i] == keys[..i] && keys[i] in bases;
      GroupOf(bases, albums, keys[i]);
      var named := NameGroup(albums, keys[i], bases[keys[i]]);
      entries := entries + named;
    }
    assert keys[..|keys|] == keys;
    entries := SortedEntries(entries);
  }

  lemma {:induction false} GroupBase(albums: seq<Album>, base: string)
    ensures forall a :: a in Group(albums, base) ==> AlbumBase(a) == base && a in albums
  {
    if albums != [] {
      GroupBase(albums[..|albums| - 1], base);
    }
  }

  lemma {:induction false} GroupCount(albums: seq<Album>, base: string, a: Album)
    ensures multiset(Group(albums, base))[a] == if AlbumBase(a) == base then multiset(albums)[a] else 0
  {
    hide AlbumBase;
    if albums != [] {
      GroupCount(albums[..|albums| - 1], base, a);
      assert albums == albums[..|albums| - 1] + [albums[|albums| - 1]];
    }
  }

  function AlbumsOf(entries: seq<Entry>): seq<Album> {
    seq(|entries|, i requires 0 <= i < |entries| => entries[i].album)
  }

  lemma AlbumsOfConcat(s: seq<Entry>, t: seq<Entry>)
    ensures AlbumsOf(s + t) == AlbumsOf(s) + AlbumsOf(t)
  {
  }

  lemma {:induction false} BasesDistinct(albums: seq<Album>)
    ensures forall i, j :: 0 <= i < j < |Bases(albums)| ==> Bases(albums)[i] != Bases(albums)[j]
    ensures forall a :: a in albums ==> AlbumBase(a) in Bases(albums)
  {
    hide AlbumBase;
    if albums != [] {
      BasesDistinct(albums[..|albums| - 1]);
      assert albums == albums[..|albums| - 1] + [albums[|albums| - 1]];
    }
  }

  lemma {:induction false} AllNamedCount(albums: seq<Album>, bases: seq<string>, a: Album)
    requires forall i, j :: 0 <= i < j < |bases| ==> bases[i] != bases[j]
    ensures multiset(AlbumsOf(AllNamed(albums, bases)))[a] == if AlbumBase(a) in bases then multiset(albums)[a] else 0
    ensures forall e :: e in AllNamed(albums, bases) ==> e.name == AlbumName(albums, e.album)
  {
    hide AlbumBase, AlbumName;
    if bases != [] {
      var init, base := bases[..|bases| - 1], bases[|bases| - 1];
      AllNamedCount(albums, init, a);
      var group := Group(albums, base);
      AlbumsOfConcat(AllNamed(albums, init), Named(albums, group));
      assert AlbumsOf(Named(albums, group)) == group;
      GroupCount(albums, base, a);
      assert bases == init + [base];
    }
  }

  lemma {:induction false} AlbumCount(entries: seq<Entry>, a: Album)
    ensures multiset(AlbumsOf(entries))[a] == |AlbumEntriesOf(entries, a)|
  {
    if entries != [] {
      AlbumCount(entries[1..], a);
      AlbumsOfConcat([entries[0]], entries[1..]);
      assert entries == [entries[0]] + entries[1..];
    }
  }

  function AlbumEntriesOf(entries: seq<Entry>, a: Album): seq<Entry> {
    if entries == [] then []
    else (if entries[0].album == a then [entries[0]] else []) + AlbumEntriesOf(entries[1..], a)
  }

  lemma {:induction false} InsertedCount(e: Entry, s: seq<Entry>, a: Album)
    ensures |AlbumEntriesOf(InsertedEntry(e, s), a)| == |AlbumEntriesOf(s, a)| + (if e.album == a then 1 else 0)
  {
    hide Lower, Less;
    if s == [] || !Less(Lower(s[0].name), Lower(e.name)) {
      assert ([e] + s)[1..] == s;
    } else {
      InsertedCount(e, s[1..], a);
      assert InsertedEntry(e, s)[1..] == InsertedEntry(e, s[1..]);
    }
  }

  lemma {:induction false} SortedCount(s: seq<Entry>, a: Album)
    ensures |AlbumEntriesOf(SortedEntries(s), a)| == |AlbumEntriesOf(s, a)|
  {
    if s != [] {
      SortedCount(s[1..], a);
      InsertedCount(s[0], SortedEntries(s[1..]), a);
    }
  }

  /** Every album is listed exactly once, under its name. */
  lemma AlbumsConserved(albums: seq<Album>, a: Album)
    ensures multiset(AlbumsOf(SortedEntries(AllNamed(albums, Bases(albums)))))[a] == multiset(albums)[a]
    ensures forall e :: e in SortedEntries(AllNamed(albums, Bases(albums))) ==> e.name == AlbumName(albums, e.album)
  {
    hide AlbumBase, AlbumName;
    BasesDistinct(albums);
    AllNamedCount(albums, Bases(albums), a);
    var named := AllNamed(albums, Bases(albums));
    AlbumCount(named, a);
    AlbumCount(SortedEntries(named), a);
    SortedCount(named, a);
    forall e | e in SortedEntries(named)
      ensures e in named
    {
      assert e in multiset(SortedEntries(named));
    }
    if a !in albums { assert multiset(albums)[a] == 0; }
  }

  // ---------- collisions ----------

  lemma ShortIdNoDash(id: string, n: nat)
    ensures '-' !in ShortId(id, n)
  {
    DashlessChars(id);
  }

  /** A base and a dash-free suffix can be read off the suffixed name. */
  lemma SuffixReadsOff(b: string, s: string, c: string, t: string)
    requires '-' !in s && '-' !in t && b + "--" + s == c + "--" + t
    ensures b == c && s == t
  {
    LastDash(b, s, c, t);
    LastDash(c, t, b, s);
    var x := b + "--" + s;
    assert x[..|b|] == b && x[..|c|] == c;
    assert x[|b| + 2..] == s && x[|c| + 2..] == t;
  }

  lemma LastDash(b: string, s: string, c: string, t: string)
    requires '-' !in t && b + "--" + s == c + "--" + t
    ensures |s| >= |t|
  {
    var x := b + "--" + s;
    assert x[|b| + 1] == '-';
    assert forall k :: |c| + 2 <= k < |x| ==> x[k] == t[k - |c| - 2];
  }

  predicate Alone(albums: seq<Album>, a: Album) { |Group(albums, AlbumBase(a))| == 1 }

  lemma {:induction false} SharedBaseIsNotAlone(albums: seq<Album>, i: nat, j: nat)
    requires i < j < |albums| && AlbumBase(albums[i]) == AlbumBase(albums[j])
    ensures |Group(albums, AlbumBase(albums[j]))| >= 2
  {
    hide AlbumBase;
    var init := albums[..|albums| - 1];
    if j < |init| {
      SharedBaseIsNotAlone(init, i, j);
    } else {
      GroupHas(init, i);
    }
  }

  lemma {:induction false} GroupHas(albums: seq<Album>, i: nat)
    requires i < |albums|
    ensures |Group(albums, AlbumBase(albums[i]))| >= 1
  {
    hide AlbumBase;
    if i < |albums| - 1 { GroupHas(albums[..|albums| - 1], i); }
  }

  /** Two albums share base and short id, or the plain base of one that stands alone spells the other's
    * suffixed name. */
  predicate AlbumClash(albums: seq<Album>, a: Album, b: Album) {
    || (AlbumBase(a) == AlbumBase(b) && ShortId(a.id, 8) == ShortId(b.id, 8))
    || (Alone(albums, a) && !Alone(albums, b) && AlbumBase(a) == SuffixedName(b))
    || (!Alone(albums, a) && Alone(albums, b) && SuffixedName(a) == AlbumBase(b))
  }

  /** Two listed albums get one folder name exactly when they clash. */
  lemma AlbumNamesCollide(albums: seq<Album>, i: nat, j: nat)
    requires i < j < |albums|
    ensures AlbumName(albums, albums[i]) == AlbumName(albums, albums[j]) <==> AlbumClash(albums, albums[i], albums[j])
  {
    hide AlbumBase, Group;
    var a, b := albums[i], albums[j];
    ShortIdNoDash(a.id, 8);
    ShortIdNoDash(b.id, 8);
    if AlbumBase(a) == AlbumBase(b) { SharedBaseIsNotAlone(albums, i, j); }
    if SuffixedName(a) == SuffixedName(b) {
      SuffixReadsOff(AlbumBase(a), ShortId(a.id, 8), AlbumBase(b), ShortId(b.id, 8));
    }
  }

  lemma SuffixedIsSafe(base: string, suffix: string)
    requires Safe(base, |base|) && Safe(suffix, |suffix|)
    ensures Safe(base + "--" + suffix, |base| + 2 + |suffix|)
  {
    var s := base + "--" + suffix;
    forall i | 0 <= i < |s|
      ensures !Unsafe(s[i])
    {
      assert s[i] == if i < |base| then base[i] else if i < |base| + 2 then '-' else suffix[i - |base| - 2];
    }
    forall i | 0 < i < |s|
      ensures !(s[i - 1] == ' ' && s[i] == ' ')
    {
      if i > |base| + 2 { assert s[i - 1] == suffix[i - |base| - 3] && s[i] == suffix[i - |base| - 2]; }
    }
  }

  /** Album folder names are safe segments, as the mount's tree requires, whenever short ids are. */
  lemma AlbumNameIsSafe(albums: seq<Album>, a: Album)
    requires Safe(ShortId(a.id, 8), |ShortId(a.id, 8)|)
    ensures Safe(AlbumName(albums, a), |AlbumName(albums, a)|)
  {
    hide SafeSegment, Group, Safe;
    BaseIsSafe(a.name, "Album");
    SuffixedIsSafe(AlbumBase(a), ShortId(a.id, 8));
    SafeAnyLength(SuffixedName(a), |SuffixedName(a)|);
  }

  lemma SafeAnyLength(s: string, n: nat)
    requires Safe(s, n)
    ensures Safe(s, |s|)
  {
  }

  // ---------- saved views ----------

  function ViewBase(name: string): string { SafeSegment(name, "View", 140) }

  /** Views before the i-th whose folded base is the same: the source's `used` counter. */
  function Before(names: seq<string>, key: string): nat {
    if names == [] then 0
    else Before(names[..|names| - 1], key) + (if Lower(ViewBase(names[|names| - 1])) == key then 1 else 0)
  }

  function DavName(names: seq<string>, i: nat): string
    requires i < |names|
  {
    var base := ViewBase(names[i]);
    Numbered(base, Before(names[..i], Lower(base)))
  }

  /** The naming loop of `saved_view_entries` with its dict of used names. */
  method SavedViewNames(names: seq<string>) returns (davNames: seq<string>)
    ensures |davNames| == |names| && forall i :: 0 <= i < |names| ==> davNames[i] == DavName(names, i)
  {
    hide ViewBase, Lower;
    davNames := [];
    var used: map<string, nat> := map[];
    for i := 0 to |names|
      invariant |davNames| == i && forall j :: 0 <= j < i ==> davNames[j] == DavName(names, j)
      invariant forall key :: (if key in used then used[key] else 0) == Before(names[..i], key)
    {
      var base := ViewBase(names[i]);
      var normalized := Lower(base);
      var count := if normalized in used then used[normalized] else 0;
      assert names[..i + 1][..i] == names[..i];
      used := used[normalized := count + 1];
      davNames := davNames + [if count == 0 then base else base + "--" + Str(count + 1)];
    }
  }

  lemma {:induction false} BeforeGrows(names: seq<string>, key: string, i: nat, j: nat)
    requires i < j <= |names| && Lower(ViewBase(names[i])) == key
    ensures Before(names[..i], key) < Before(names[..j], key)
    decreases j
  {
    hide ViewBase, Lower;
    assert names[..j][..j - 1] == names[..j - 1];
    if i < j - 1 { BeforeGrows(names, key, i, j - 1); }
  }

  function Numbered(base: string, count: nat): string {
    if count == 0 then base else base + "--" + Str(count + 1)
  }

  lemma NumberedCollide(a: string, m: nat, b: string, n: nat)
    requires a == b ==> m != n
    ensures Numbered(a, m) == Numbered(b, n)
       <==> (m == 0 && n > 0 && a == Numbered(b, n)) || (m > 0 && n == 0 && Numbered(a, m) == b)
  {
    hide Str, DigitsValue, AllDigits;
    if m > 0 && n > 0 && Numbered(a, m) == Numbered(b, n) {
      NumberNoDash(m + 1);
      NumberNoDash(n + 1);
      SuffixReadsOff(a, Str(m + 1), b, Str(n + 1));
      StrInjective(m + 1, n + 1);
    }
  }

  lemma StrInjective(m: nat, n: nat)
    ensures Str(m) == Str(n) ==> m == n
  {
    StrValue(m);
    StrValue(n);
    hide Str, DigitsValue;
  }

  /** Views of that folded base before the i-th. */
  function CountBefore(names: seq<string>, i: nat): nat
    requires i < |names|
  {
    Before(names[..i], Lower(ViewBase(names[i])))
  }

  /** One view's plain base spells the other's numbered name: a view called "A--2" beside two called "A". */
  predicate ViewClash(names: seq<string>, i: nat, j: nat)
    requires i < |names| && j < |names|
  {
    var m, n := CountBefore(names, i), CountBefore(names, j);
    || (m == 0 && n > 0 && ViewBase(names[i]) == Numbered(ViewBase(names[j]), n))
    || (m > 0 && n == 0 && Numbered(ViewBase(names[i]), m) == ViewBase(names[j]))
  }

  /** Two saved views get one folder name exactly when they clash. */
  lemma ViewNamesCollide(names: seq<string>, i: nat, j: nat)
    requires i < j < |names|
    ensures DavName(names, i) == DavName(names, j) <==> ViewClash(names, i, j)
  {
    hide ViewBase, Lower, Numbered;
    if ViewBase(names[i]) == ViewBase(names[j]) { BeforeGrows(names, Lower(ViewBase(names[i])), i, j); }
    NumberedCollide(ViewBase(names[i]), CountBefore(names, i), ViewBase(names[j]), CountBefore(names, j));
  }

  // ---------- it happens ----------

  lemma {:induction false} NoDashes(id: string)
    requires '-' !in id
    ensures Dashless(id) == id
  {
    if id != "" {
      NoDashes(id[1..]);
      assert id == [id[0]] + id[1..];
    }
  }

  lemma ShortIdPrefix(id: string)
    requires '-' !in id && |id| >= 8
    ensures ShortId(id, 8) == id[..8]
  {
    NoDashes(id);
    hide Dashless;
  }

  /** Two albums of one name whose ids begin alike. */
  lemma AlbumsThatClash()
    ensures var a, b := Album("0123456789a", "Trip"), Album("0123456789b", "Trip");
            AlbumName([a, b], a) == AlbumName([a, b], b)
  {
    hide AlbumBase, ShortId, Group;
    var a, b := Album("0123456789a", "Trip"), Album("0123456789b", "Trip");
    ShortIdPrefix(a.id);
    ShortIdPrefix(b.id);
    assert a.id[..8] == b.id[..8];
    SameNameSameBase(a, b);
    AlbumNamesCollide([a, b], 0, 1);
  }

  lemma SameNameSameBase(a: Album, b: Album)
    requires a.name == b.name
    ensures AlbumBase(a) == AlbumBase(b)
  {
    hide SafeSegment;
  }

  /** A view called "A--2" beside two called "A". */
  lemma ViewsThatClash()
    ensures DavName(["A", "A", "A--2"], 1) == DavName(["A", "A", "A--2"], 2)
  {
    hide ViewBase, Numbered, Lower;
    ViewBaseFixed("A");
    ViewBaseFixed("A--2");
    FoldedDiffer();
    CountsOfThree("A", "A--2");
    TwoNumbered();
  }

  lemma FoldedDiffer()
    ensures Lower("A") != Lower("A--2")
  {
    assert |Lower("A")| == 1 && |Lower("A--2")| == 4;
  }

  lemma CountsOfThree(x: string, z: string)
    requires Lower(ViewBase(x)) != Lower(ViewBase(z))
    ensures CountBefore([x, x, z], 1) == 1 && CountBefore([x, x, z], 2) == 0
  {
    hide ViewBase, Lower;
    var names := [x, x, z];
    assert names[..1] == [] + [x] && names[..2] == ([] + [x]) + [x];
    forall key
      ensures Before([] + [x], key) == (if Lower(ViewBase(x)) == key then 1 else 0)
      ensures Before(([] + [x]) + [x], key) == (if Lower(ViewBase(x)) == key then 2 else 0)
    {
      BeforeMore([], x, key);
      BeforeMore([] + [x], x, key);
    }
  }

  lemma BeforeMore(names: seq<string>, name: string, key: string)
    ensures Before(names + [name], key) == Before(names, key) + (if Lower(ViewBase(name)) == key then 1 else 0)
    ensures Before([], key) == 0
  {
    hide ViewBase, Lower;
    assert (names + [name])[..|names|] == names;
  }

  lemma ViewBaseFixed(name: string)
    requires name == "A" || name == "A--2"
    ensures ViewBase(name) == name
  {
    assert Safe("View", 140) && Safe("A", 140) && Safe("A--2", 140);
    SafeSegmentFixedPoints(name, "View", 140);
  }

  lemma TwoNumbered()
    ensures Numbered("A", 1) == "A--2" == Numbered("A--2", 0)
  {
    assert Str(2) == "2";
  }

  lemma NumberNoDash(n: nat)
    ensures '-' !in Str(n)
  {
  }

  /** Saved-view folder names are safe segments. */
  lemma DavNameIsSafe(names: seq<string>, i: nat)
    requires i < |names|
    ensures Safe(DavName(names, i), |DavName(names, i)|)
  {
    hide Safe, Before, Lower, ViewBase, Numbered;
    ViewBaseIsSafe(names[i]);
    NumberedIsSafe(ViewBase(names[i]), Before(names[..i], Lower(ViewBase(names[i]))));
  }

  lemma ViewBaseIsSafe(name: string)
    ensures Safe(ViewBase(name), |ViewBase(name)|)
  {
    hide Safe, SafeSegment;
    BaseIsSafe(name, "View");
  }

  lemma BaseIsSafe(name: string, fallback: string)
    requires fallback == "View" || fallback == "Album"
    ensures Safe(SafeSegment(name, fallback, 140), |SafeSegment(name, fallback, 140)|)
  {
    SafeSegmentIsSafe(name, fallback, 140);
    hide SafeSegment, Safe;
    SafeAnyLength(SafeSegment(name, fallback, 140), 140);
  }

  lemma NumberedIsSafe(base: string, count: nat)
    requires Safe(base, |base|)
    ensures Safe(Numbered(base, count), |Numbered(base, count)|)
  {
    NumberIsSafe(count + 1);
    hide Safe, Str;
    SuffixedIsSafe(base, Str(count + 1));
    SafeAnyLength(base + "--" + Str(count + 1), |base| + 2 + |Str(count + 1)|);
  }

  lemma NumberIsSafe(n: nat)
    ensures Safe(Str(n), |Str(n)|)
  {
    var s := Str(n);
    assert forall i :: 0 <= i < |s| ==> IsDigit(s[i]);
    hide Str;
    assert forall c :: IsDigit(c) ==> !Unsafe(c) && !SpaceOrDot(c);
  }
}
