/** File names of assets (src/immich_bridge/fs_model.py, `asset_display_name` and `asset_entries`). */
module AssetNames {
  import opened Text
  import opened Calendar
  import opened Segments

  /** An asset's metadata. `fileName` is "" when Immich has none; `guessed` is the extension the
    * MIME table gives for its type, "" when it gives none; `when` is `asset_datetime`. */
  datatype Metadata = Metadata(id: string, fileName: string, guessed: string, when: Instant)

  predicate WellFormed(a: Metadata) {
    ValidInstant(a.when) && (a.guessed == "" || IsSuffix(a.guessed))
  }

  type Asset = a: Metadata | WellFormed(a) witness Metadata("", "", "", Instant(Date(1970, 1, 1), MIDNIGHT, 0))

  // ---------- PurePosixPath ----------

  function LastPart(parts: seq<string>): string {
    if parts == [] then ""
    else
      var last := parts[|parts| - 1];
      if last != "" && last != "." then last else LastPart(parts[..|parts| - 1])
  }

  /** `PurePosixPath(s).name`. */
  function PathName(s: string): string { LastPart(Split(s, '/')) }

  lemma PathNameNoSlash(s: string)
    ensures '/' !in PathName(s)
  {
    hide Split, LastPart;
    SplitPieces(s, '/');
    LastPartFrom(Split(s, '/'));
  }

  lemma {:induction false} LastPartFrom(parts: seq<string>)
    ensures LastPart(parts) in parts || LastPart(parts) == ""
  {
    if parts != [] { LastPartFrom(parts[..|parts| - 1]); }
  }

  /** Length of the part before the last dot; |s| when there is no dot. */
  function DotIndex(s: string): (i: nat)
    ensures i <= |s|
  {
    if s == "" then 0
    else if s[|s| - 1] == '.' then |s| - 1
    else
      var i := DotIndex(s[..|s| - 1]);
      if i == |s| - 1 then |s| else i
  }

  lemma {:induction false} DotIndexIsLast(s: string)
    ensures var i := DotIndex(s); i < |s| ==> s[i] == '.' && forall j :: i < j < |s| ==> s[j] != '.'
    ensures DotIndex(s) == |s| ==> '.' !in s
  {
    if s != "" { DotIndexIsLast(s[..|s| - 1]); }
  }

  /** `PurePosixPath(s).suffix` and `.stem`. */
  function PathSuffix(s: string): string {
    var name := PathName(s);
    var i := DotIndex(name);
    if 0 < i < |name| - 1 then name[i..] else ""
  }

  function PathStem(s: string): string {
    var name := PathName(s);
    var i := DotIndex(name);
    if 0 < i < |name| - 1 then name[..i] else name
  }

  predicate IsSuffix(s: string) {
    |s| >= 2 && s[0] == '.' && '.' !in s[1..] && '/' !in s
  }

  lemma PathSuffixShape(s: string)
    ensures PathSuffix(s) == "" || IsSuffix(PathSuffix(s))
    ensures '/' !in PathStem(s)
  {
    hide PathName, DotIndex;
    PathNameNoSlash(s);
    DotIndexIsLast(PathName(s));
  }

  lemma LowerSuffix(s: string)
    requires IsSuffix(s)
    ensures IsSuffix(Lower(s))
  {
    assert forall i :: 0 <= i < |s| ==> (Lower(s)[i] == '.' ==> s[i] == '.') && (Lower(s)[i] == '/' ==> s[i] == '/');
  }

  lemma DotIndexAt(p: string, suffix: string)
    requires IsSuffix(suffix)
    ensures DotIndex(p + suffix) == |p|
  {
    hide DotIndex;
    var s := p + suffix;
    DotIndexIsLast(s);
    assert s[|p|] == '.';
    assert forall j :: |p| < j < |s| ==> s[j] == suffix[1..][j - |p| - 1];
  }

  /** A name made of a prefix and one suffix splits back into the two. */
  lemma StemAndSuffix(p: string, suffix: string)
    requires IsSuffix(suffix) && p != "" && '/' !in p
    ensures PathStem(p + suffix) == p && PathSuffix(p + suffix) == suffix
  {
    var s := p + suffix;
    SplitNoSeparator(s, '/');
    DotIndexAt(p, suffix);
    assert s[|p|..] == suffix && s[..|p|] == p;
  }

  // ---------- names ----------

  /** `value.replace("-", "")`. */
  function Dashless(s: string): string {
    if s == "" then "" else (if s[0] == '-' then "" else [s[0]]) + Dashless(s[1..])
  }

  lemma {:induction false} DashlessChars(s: string)
    ensures '-' !in Dashless(s)
    ensures forall c :: c in Dashless(s) ==> c in s
  {
    if s != "" { DashlessChars(s[1..]); }
  }

  function ShortId(id: string, length: nat): string {
    var d := Dashless(id);
    var cut := if |d| <= length then d else d[..length];
    if cut == "" then "unknown" else cut
  }

  /** `sep.join(parts)`. */
  function Join(sep: char, parts: seq<string>): string {
    if parts == [] then "" else if |parts| == 1 then parts[0] else parts[0] + [sep] + Join(sep, parts[1..])
  }

  /** `strftime("%Y-%m-%d %H.%M.%S")`; the year is not padded. */
  function WhenText(i: Instant): string
    requires ValidInstant(i)
  {
    Join('-', [Str(i.date.y), Pad(2, i.date.m), Pad(2, i.date.d)]) + " "
    + Join('.', [Pad(2, i.clock.hour), Pad(2, i.clock.minute), Pad(2, i.clock.second)])
  }

  function OriginalName(a: Asset): string {
    if a.fileName != "" then a.fileName else (if a.id != "" then a.id else "asset") + ".bin"
  }

  function NameSuffix(a: Asset): string {
    var suffix := Lower(PathSuffix(OriginalName(a)));
    if suffix != "" then suffix else if a.guessed != "" then a.guessed else ".bin"
  }

  function NameStem(a: Asset): string {
    SafeSegment(PathStem(OriginalName(a)), "asset", 90)
  }

  /** Everything of the display name before its suffix. */
  function NameHead(a: Asset): string { WhenText(a.when) + " " + NameStem(a) + "--" + ShortId(a.id, 8) }

  /** `asset_display_name`. */
  function DisplayName(a: Asset): string { NameHead(a) + NameSuffix(a) }

  /** The name given on a collision. */
  function LongName(a: Asset): string {
    PathStem(DisplayName(a)) + "--" + ShortId(a.id, 12) + PathSuffix(DisplayName(a))
  }

  lemma NameSuffixShape(a: Asset)
    ensures IsSuffix(NameSuffix(a))
  {
    PathSuffixShape(OriginalName(a));
    if PathSuffix(OriginalName(a)) != "" { LowerSuffix(PathSuffix(OriginalName(a))); }
  }

  lemma NameStemNoSlash(a: Asset)
    ensures '/' !in NameStem(a)
  {
    var fallback := "asset";
    SafeSegmentIsSafe(PathStem(OriginalName(a)), fallback, 90);
    SafeHasNoSeparator(NameStem(a), 90);
  }

  lemma NameHeadNoSlash(a: Asset)
    requires '/' !in a.id
    ensures '/' !in NameHead(a)
  {
    WhenTextNoSlash(a.when);
    NameStemNoSlash(a);
    ShortIdNoSlash(a.id, 8);
    JoinedNoSlash(WhenText(a.when), NameStem(a), ShortId(a.id, 8));
  }

  lemma JoinedNoSlash(when: string, stem: string, id: string)
    requires '/' !in when && '/' !in stem && '/' !in id
    ensures '/' !in when + " " + stem + "--" + id
  {
  }

  lemma ShortIdNoSlash(id: string, length: nat)
    requires '/' !in id
    ensures '/' !in ShortId(id, length)
  {
    DashlessChars(id);
  }

  /** The collision name keeps the display name's parts and adds the longer id. */
  lemma NameParts(a: Asset)
    requires '/' !in a.id
    ensures PathStem(DisplayName(a)) == NameHead(a) && PathSuffix(DisplayName(a)) == NameSuffix(a)
    ensures LongName(a) == NameHead(a) + "--" + ShortId(a.id, 12) + NameSuffix(a)
    ensures IsSuffix(NameSuffix(a))
    ensures '/' !in DisplayName(a) && '/' !in LongName(a)
  {
    NameSuffixShape(a);
    NameHeadNoSlash(a);
    StemAndSuffix(NameHead(a), NameSuffix(a));
    ShortIdNoSlash(a.id, 12);
  }

  lemma WhenTextNoSlash(i: Instant)
    requires ValidInstant(i)
    ensures '/' !in WhenText(i)
  {
    JoinNoSlash('-', [Str(i.date.y), Pad(2, i.date.m), Pad(2, i.date.d)]);
    JoinNoSlash('.', [Pad(2, i.clock.hour), Pad(2, i.clock.minute), Pad(2, i.clock.second)]);
  }

  lemma {:induction false} JoinNoSlash(sep: char, parts: seq<string>)
    requires sep != '/' && forall p :: p in parts ==> AllDigits(p)
    ensures '/' !in Join(sep, parts)
  {
    if parts != [] {
      DigitsNoSlash(parts[0]);
      JoinNoSlash(sep, parts[1..]);
    }
  }

  lemma DigitsNoSlash(s: string)
    requires AllDigits(s)
    ensures '/' !in s
  {
  }

  // ---------- the listing order ----------

  /** `sorted` compares (datetime, file name folded, id). */
  predicate KeyLess(a: Asset, b: Asset) {
    || Before(a.when, b.when)
    || (a.when == b.when
        && (Less(Lower(a.fileName), Lower(b.fileName))
            || (Lower(a.fileName) == Lower(b.fileName) && Less(a.id, b.id))))
  }

  lemma KeyOrder(a: Asset, b: Asset, c: Asset)
    ensures !KeyLess(a, a)
    ensures KeyLess(a, b) && KeyLess(b, c) ==> KeyLess(a, c)
    ensures a.id != b.id ==> KeyLess(a, b) || KeyLess(b, a)
  {
    LessIrreflexive(Lower(a.fileName));
    LessIrreflexive(a.id);
    LessTotal(Lower(a.fileName), Lower(b.fileName));
    LessTotal(a.id, b.id);
    if Less(Lower(a.fileName), Lower(b.fileName)) && Less(Lower(b.fileName), Lower(c.fileName)) {
      LessTransitive(Lower(a.fileName), Lower(b.fileName), Lower(c.fileName));
    }
    if Less(a.id, b.id) && Less(b.id, c.id) { LessTransitive(a.id, b.id, c.id); }
  }

  function Inserted(a: Asset, s: seq<Asset>): (r: seq<Asset>)
    ensures multiset(r) == multiset(s) + multiset{a}
  {
    if s == [] || !KeyLess(s[0], a) then [a] + s
    else
      assert s == [s[0]] + s[1..];
      [s[0]] + Inserted(a, s[1..])
  }

  /** Python's stable `sorted` on the listing key. */
  function SortedAssets(s: seq<Asset>): (r: seq<Asset>)
    ensures multiset(r) == multiset(s)
  {
    if s == [] then []
    else
      assert s == [s[0]] + s[1..];
      Inserted(s[0], SortedAssets(s[1..]))
  }

  predicate DistinctIds(s: seq<Asset>) { forall i, j :: 0 <= i < j < |s| ==> s[i].id != s[j].id }

  predicate Ascending(s: seq<Asset>) { forall i, j :: 0 <= i < j < |s| ==> KeyLess(s[i], s[j]) }

  lemma {:induction false} InsertedAscending(a: Asset, s: seq<Asset>)
    requires Ascending(s) && forall x :: x in s ==> x.id != a.id
    ensures Ascending(Inserted(a, s))
  {
    if s == [] {
    } else if KeyLess(s[0], a) {
      InsertedAscending(a, s[1..]);
      var r := Inserted(a, s[1..]);
      forall x | x in r
        ensures KeyLess(s[0], x)
      {
        assert x in multiset(r);
        assert x == a || x in s[1..];
      }
    } else {
      KeyOrder(s[0], a, a);
      forall x | x in s
        ensures KeyLess(a, x)
      {
        KeyOrder(a, s[0], x);
      }
    }
  }

  lemma {:induction false} SortedAscending(s: seq<Asset>)
    requires DistinctIds(s)
    ensures Ascending(SortedAssets(s))
  {
    if s != [] {
      SortedAscending(s[1..]);
      forall x | x in SortedAssets(s[1..])
        ensures x.id != s[0].id
      {
        assert x in multiset(s[1..]);
      }
      InsertedAscending(s[0], SortedAssets(s[1..]));
    }
  }

  lemma HeadsAgree(s: seq<Asset>, t: seq<Asset>)
    requires Ascending(s) && Ascending(t) && multiset(s) == multiset(t) && s != [] && t != []
    ensures s[0] == t[0]
  {
    assert s[0] in multiset(t) && t[0] in multiset(s);
    var i :| 0 <= i < |t| && t[i] == s[0];
    var j :| 0 <= j < |s| && s[j] == t[0];
    if i != 0 && j != 0 {
      assert KeyLess(t[0], t[i]) && KeyLess(s[0], s[j]);
      KeyOrder(s[0], t[0], s[0]);
    }
  }

  /** A strictly ordered list is determined by its elements. */
  lemma {:induction false} AscendingUnique(s: seq<Asset>, t: seq<Asset>)
    requires Ascending(s) && Ascending(t) && multiset(s) == multiset(t)
    ensures s == t
  {
    hide KeyLess;
    assert |multiset(s)| == |s| && |multiset(t)| == |t|;
    if s != [] {
      HeadsAgree(s, t);
      TailsAgree(s, t);
      AscendingUnique(s[1..], t[1..]);
      assert s == [s[0]] + s[1..] && t == [t[0]] + t[1..];
    }
  }

  lemma TailsAgree(s: seq<Asset>, t: seq<Asset>)
    requires multiset(s) == multiset(t) && s != [] && t != [] && s[0] == t[0]
    ensures multiset(s[1..]) == multiset(t[1..])
  {
    RestMultiset(s);
    RestMultiset(t);
  }

  lemma RestMultiset(s: seq<Asset>)
    requires s != []
    ensures multiset(s[1..]) == multiset(s) - multiset{s[0]}
  {
    assert s == [s[0]] + s[1..];
  }

  lemma DistinctFromMultiset(s: seq<Asset>, t: seq<Asset>)
    requires DistinctIds(s) && multiset(s) == multiset(t)
    ensures DistinctIds(t)
  {
    forall i, j | 0 <= i < j < |t|
      ensures t[i].id != t[j].id
    {
      if t[i].id == t[j].id {
        SameIdSameAsset(s, t[i], t[j]);
        TwiceInMultiset(t, i, j);
        TwiceMeansTwo(s, t[i]);
      }
    }
  }

  lemma SameIdSameAsset(s: seq<Asset>, x: Asset, y: Asset)
    requires DistinctIds(s) && x in multiset(s) && y in multiset(s) && x.id == y.id
    ensures x == y
  {
    var a :| 0 <= a < |s| && s[a] == x;
    var b :| 0 <= b < |s| && s[b] == y;
  }

  lemma TwiceInMultiset(t: seq<Asset>, i: nat, j: nat)
    requires i < j < |t| && t[i] == t[j]
    ensures multiset(t)[t[i]] >= 2
  {
    assert t == t[..j] + t[j..];
    assert t[i] == t[..j][i] && t[i] == t[j..][0];
    assert t[i] in multiset(t[..j]) && t[i] in multiset(t[j..]);
  }

  lemma {:induction false} TwiceMeansTwo(s: seq<Asset>, x: Asset)
    requires multiset(s)[x] >= 2
    ensures !DistinctIds(s)
  {
    assert s == [s[0]] + s[1..];
    if s[0] == x {
      assert x in multiset(s[1..]);
      var j :| 0 <= j < |s[1..]| && s[1..][j] == x;
      assert s[0].id == s[j + 1].id;
    } else {
      TwiceMeansTwo(s[1..], x);
      var i, j :| 0 <= i < j < |s[1..]| && s[1..][i].id == s[1..][j].id;
      assert s[i + 1].id == s[j + 1].id;
    }
  }

  // ---------- the name map ----------

  /** One step of the naming loop. */
  function Entered(entries: map<string, Asset>, a: Asset): map<string, Asset>
  {
    entries[if DisplayName(a) in entries then LongName(a) else DisplayName(a) := a]
  }

  function EnteredAll(s: seq<Asset>): map<string, Asset>
  {
    if s == [] then map[] else Entered(EnteredAll(s[..|s| - 1]), s[|s| - 1])
  }

  /** The name map of a listing, as a function of the assets found. */
  function Entries(assets: seq<Asset>): map<string, Asset>
  {
    SortedMembers(assets);
    EnteredAll(SortedAssets(assets))
  }

  lemma SortedMembers(assets: seq<Asset>)
    ensures forall a :: a in SortedAssets(assets) <==> a in assets
  {
    forall a
      ensures a in SortedAssets(assets) <==> a in assets
    {
      assert a in SortedAssets(assets) <==> a in multiset(SortedAssets(assets));
      assert a in assets <==> a in multiset(assets);
    }
  }

  lemma SortedSize(assets: seq<Asset>)
    ensures |SortedAssets(assets)| == |assets|
  {
    hide SortedAssets;
    var sorted := SortedAssets(assets);
    assert multiset(sorted) == multiset(assets);
    assert |sorted| == |multiset(sorted)| && |assets| == |multiset(assets)|;
  }

  /** `asset_entries`: sort, then name one asset after another. */
  method AssetEntries(assets: seq<Asset>) returns (entries: map<string, Asset>)
    ensures entries == Entries(assets)
  {
    var sorted := SortedAssets(assets);
    SortedMembers(assets);
    entries := map[];
    for i := 0 to |sorted|
      invariant entries == EnteredAll(sorted[..i])
    {
      var asset := sorted[i];
      assert asset in assets;
      var name := DisplayName(asset);
      if name in entries {
        name := PathStem(name) + "--" + ShortId(asset.id, 12) + PathSuffix(name);
      }
      EnteredAllStep(sorted, i);
      entries := entries[name := asset];
    }
    assert sorted[..|sorted|] == sorted;
  }

  lemma EnteredAllStep(s: seq<Asset>, i: nat)
    requires i < |s|
    ensures EnteredAll(s[..i + 1]) == Entered(EnteredAll(s[..i]), s[i])
  {
    hide Entered;
    assert s[..i + 1][..i] == s[..i];
  }

  /** The listing does not depend on the order in which Immich returned the assets. */
  lemma EntriesOrderIndependent(s: seq<Asset>, t: seq<Asset>)
    requires DistinctIds(s) && multiset(s) == multiset(t)
    ensures Entries(s) == Entries(t)
  {
    DistinctFromMultiset(s, t);
    SortedAscending(s);
    SortedAscending(t);
    AscendingUnique(SortedAssets(s), SortedAssets(t));
  }

  /** Every named asset was found. */
  lemma {:induction false} EnteredAllSound(s: seq<Asset>)
    ensures forall name :: name in EnteredAll(s) ==>
              EnteredAll(s)[name] in s
                && (name == DisplayName(EnteredAll(s)[name]) || name == LongName(EnteredAll(s)[name]))
  {
    if s != [] {
      EnteredAllSound(s[..|s| - 1]);
    }
  }

  lemma EntriesSound(assets: seq<Asset>)
    ensures forall name :: name in Entries(assets) ==>
              var a := Entries(assets)[name];
              a in assets && (name == DisplayName(a) || name == LongName(a))
  {
    SortedMembers(assets);
    EnteredAllSound(SortedAssets(assets));
  }

  /** Ids that tell assets apart: no slash, twelve characters besides dashes, different beginnings. */
  predicate Telling(s: seq<Asset>) {
    && (forall i :: 0 <= i < |s| ==> '/' !in s[i].id && |Dashless(s[i].id)| >= 12)
    && (forall i, j :: 0 <= i < j < |s| ==> Dashless(s[i].id)[..12] != Dashless(s[j].id)[..12])
  }

  lemma SuffixUnique(p: string, x: string, q: string, y: string)
    requires IsSuffix(x) && IsSuffix(y) && p + x == q + y
    ensures p == q
  {
    DotIndexAt(p, x);
    DotIndexAt(q, y);
    assert (p + x)[..|p|] == p && (q + y)[..|q|] == q;
  }

  lemma TailUnique(p: string, u: string, q: string, v: string)
    requires p + u == q + v && |u| == |v|
    ensures u == v
  {
    assert (p + u)[|p|..] == u && (q + v)[|q|..] == v;
  }

  lemma DashInside(p: string, u: string, q: string, w: string)
    requires |u| == 12 && |w| == 8 && p + u == q + "--" + w
    ensures '-' in u
  {
    assert (p + u)[|p| + 3] == u[3];
    assert (q + "--" + w)[|q| + 1] == '-';
  }

  predicate ToldApart(a: Asset, b: Asset) {
    && '/' !in a.id && '/' !in b.id
    && |Dashless(a.id)| >= 12 && |Dashless(b.id)| >= 12
    && Dashless(a.id)[..12] != Dashless(b.id)[..12]
  }

  /** A long name never equals a display name, and two long names differ. */
  lemma LongNamesDiffer(a: Asset, b: Asset)
    requires ToldApart(a, b)
    ensures LongName(a) != DisplayName(b) && LongName(a) != LongName(b)
  {
    hide LongName, DisplayName;
    LongIsNoDisplayName(a, b);
    LongNamesAgree(a, b);
    assert ShortId(a.id, 12) == Dashless(a.id)[..12] && ShortId(b.id, 12) == Dashless(b.id)[..12];
  }

  lemma FreshName(s: seq<Asset>, last: Asset)
    requires Telling(s + [last])
    ensures LongName(last) !in EnteredAll(s)
  {
    EnteredAllSound(s);
    if LongName(last) in EnteredAll(s) {
      var other := EnteredAll(s)[LongName(last)];
      var j :| 0 <= j < |s| && s[j] == other;
      assert (s + [last])[j] == other && (s + [last])[|s|] == last;
      LongNamesDiffer(last, other);
    }
  }

  lemma {:induction false} EnteredAllKeepsAll(s: seq<Asset>)
    requires Telling(s)
    ensures |EnteredAll(s)| == |s| && EnteredAll(s).Values == set a | a in s
  {
    hide Entered, Telling, DisplayName, LongName;
    if s != [] {
      var init, last := s[..|s| - 1], s[|s| - 1];
      assert s == init + [last];
      TellingFirst(init, last);
      EnteredAllKeepsAll(init);
      FreshName(init, last);
      KeptByStep(init, last);
      OneElementMore(init, last);
    }
  }

  lemma TellingFirst(init: seq<Asset>, last: Asset)
    requires Telling(init + [last])
    ensures Telling(init)
  {
    hide Dashless;
    assert forall i :: 0 <= i < |init| ==> (init + [last])[i] == init[i];
  }

  lemma OneElementMore(init: seq<Asset>, last: Asset)
    ensures (set a | a in init + [last]) == (set a | a in init) + {last}
  {
  }

  lemma KeptByStep(init: seq<Asset>, last: Asset)
    requires LongName(last) !in EnteredAll(init)
    ensures |EnteredAll(init + [last])| == |EnteredAll(init)| + 1
    ensures EnteredAll(init + [last]).Values == EnteredAll(init).Values + {last}
  {
    var s := init + [last];
    assert s[..|s| - 1] == init;
    var before := EnteredAll(init);
    var name := if DisplayName(last) in before then LongName(last) else DisplayName(last);
    AddedValue(before, name, last);
    AddedSize(before, name, last);
  }

  lemma AddedValue(m: map<string, Asset>, name: string, a: Asset)
    requires name !in m
    ensures m[name := a].Values == m.Values + {a}
  {
    var n := m[name := a];
    forall v | v in m.Values + {a}
      ensures v in n.Values
    {
      if v in m.Values {
        var k :| k in m && m[k] == v;
        assert n[k] == v;
      } else {
        assert n[name] == v;
      }
    }
  }

  /** With telling ids no asset is dropped: the names are as many as the assets and name each of them. */
  lemma EntriesConserve(assets: seq<Asset>)
    requires Telling(assets)
    ensures |Entries(assets)| == |assets|
    ensures Entries(assets).Values == set a | a in assets
  {
    var sorted := SortedAssets(assets);
    SortedMembers(assets);
    TellingSorted(assets);
    EnteredAllKeepsAll(sorted);
    SortedSize(assets);
  }

  /** The i-th asset overwrites another: its display name and its collision name are both taken. */
  predicate Overwrites(s: seq<Asset>, i: nat)
    requires i < |s|
  {
    DisplayName(s[i]) in EnteredAll(s[..i]) && LongName(s[i]) in EnteredAll(s[..i])
  }

  /** Exactly when assets are dropped: each time, in listing order, both names are taken. */
  lemma DroppedExactly(assets: seq<Asset>)
    ensures |Entries(assets)| <= |assets|
    ensures |Entries(assets)| == |assets|
       <==> forall i :: 0 <= i < |SortedAssets(assets)| ==> !Overwrites(SortedAssets(assets), i)
  {
    hide Overwrites, EnteredAll, SortedAssets;
    var sorted := SortedAssets(assets);
    EnteredAllCount(sorted);
    SortedSize(assets);
    assert Entries(assets) == EnteredAll(sorted);
  }

  lemma {:induction false} EnteredAllCount(s: seq<Asset>)
    ensures |EnteredAll(s)| <= |s|
    ensures |EnteredAll(s)| == |s| <==> forall i :: 0 <= i < |s| ==> !Overwrites(s, i)
  {
    hide Overwrites, Entered;
    if s != [] {
      var init, last := s[..|s| - 1], s[|s| - 1];
      assert s == init + [last];
      hide EnteredAll;
      EnteredAllCount(init);
      CountStep(init, last);
      forall i | 0 <= i < |init|
        ensures Overwrites(s, i) <==> Overwrites(init, i)
      {
        OverwritesEarlier(init, last, i);
      }
    }
  }

  lemma CountStep(init: seq<Asset>, last: Asset)
    ensures |EnteredAll(init + [last])| == |EnteredAll(init)| + (if Overwrites(init + [last], |init|) then 0 else 1)
  {
    hide DisplayName, LongName;
    var s, before := init + [last], EnteredAll(init);
    assert s[..|init|] == init;
    assert EnteredAll(s) == Entered(before, last);
    hide EnteredAll;
    AddedSize(before, if DisplayName(last) in before then LongName(last) else DisplayName(last), last);
  }

  lemma AddedSize(m: map<string, Asset>, name: string, a: Asset)
    ensures |m[name := a]| == |m| + if name in m then 0 else 1
  {
    assert m[name := a].Keys == m.Keys + {name};
  }

  lemma OverwritesEarlier(init: seq<Asset>, last: Asset, i: nat)
    requires i < |init|
    ensures Overwrites(init + [last], i) <==> Overwrites(init, i)
  {
    hide DisplayName, LongName, EnteredAll;
    assert (init + [last])[..i] == init[..i];
  }

  /** A listing has as many names as assets exactly when it names each of them. */
  lemma AllNamed(assets: seq<Asset>)
    requires DistinctIds(assets)
    ensures |Entries(assets)| == |assets| <==> forall a :: a in assets ==> a in Entries(assets).Values
  {
    hide Entries, DistinctIds;
    EntriesSound(assets);
    EntriesInjective(assets);
    var entries, all := Entries(assets), set a | a in assets;
    InjectiveSize(entries);
    DistinctSize(assets);
    assert entries.Values <= all;
    SubsetSize(entries.Values, all);
    assert (forall a :: a in assets ==> a in entries.Values) <==> entries.Values == all;
  }

  lemma SubsetSize(s: set<Asset>, t: set<Asset>)
    requires s <= t
    ensures |s| == |t| <==> s == t
  {
    assert t == s + (t - s);
  }

  lemma InjectiveSize(m: map<string, Asset>)
    requires forall n, k :: n in m && k in m && m[n] == m[k] ==> n == k
    ensures |m.Values| == |m|
  {
    ValuesSize(m, m.Keys);
    assert m.Values == set n | n in m.Keys :: m[n];
  }

  lemma {:induction false} ValuesSize(m: map<string, Asset>, names: set<string>)
    requires names <= m.Keys && forall n, k :: n in m && k in m && m[n] == m[k] ==> n == k
    ensures |set n | n in names :: m[n]| == |names|
  {
    if names != {} {
      var n :| n in names;
      ValuesSize(m, names - {n});
      assert (set k | k in names :: m[k]) == (set k | k in names - {n} :: m[k]) + {m[n]};
    }
  }

  lemma {:induction false} DistinctSize(s: seq<Asset>)
    requires DistinctIds(s)
    ensures |set a | a in s| == |s|
  {
    if s != [] {
      var init, last := s[..|s| - 1], s[|s| - 1];
      assert s == init + [last];
      DistinctSize(init);
      OneElementMore(init, last);
      assert last !in init;
    }
  }

  /** Ids as Immich makes them: no slash, twelve characters or more besides dashes. */
  predicate LongIds(s: seq<Asset>) { forall a :: a in s ==> LongId(a) }

  predicate LongId(a: Asset) { '/' !in a.id && |Dashless(a.id)| >= 12 }

  /** Two assets before the k-th have its display name, the later of them also its twelve characters. */
  predicate ThirdOfAKind(s: seq<Asset>, k: nat)
    requires k < |s|
  {
    exists i, j ::
      && 0 <= i < j < k
      && DisplayName(s[i]) == DisplayName(s[j]) == DisplayName(s[k])
      && ShortId(s[j].id, 12) == ShortId(s[k].id, 12)
  }

  /** A collision name is never a display name. */
  lemma LongIsNoDisplayName(a: Asset, b: Asset)
    requires LongId(a) && LongId(b)
    ensures LongName(a) != DisplayName(b)
  {
    hide NameHead, NameSuffix, DisplayName, LongName, WhenText, NameStem;
    NameParts(a);
    NameParts(b);
    ShortIdLong(a);
    ShortIdLong(b);
    NameHeadParts(b);
    if LongName(a) == DisplayName(b) {
      SuffixUnique(NameHead(a) + "--" + ShortId(a.id, 12), NameSuffix(a), NameHead(b), NameSuffix(b));
      DashInside(NameHead(a) + "--", ShortId(a.id, 12), WhenText(b.when) + " " + NameStem(b), ShortId(b.id, 8));
    }
  }

  lemma NameHeadParts(b: Asset)
    ensures NameHead(b) == (WhenText(b.when) + " " + NameStem(b)) + "--" + ShortId(b.id, 8)
    ensures DisplayName(b) == NameHead(b) + NameSuffix(b)
  {
    hide WhenText, NameStem, ShortId, NameSuffix;
  }

  lemma ShortIdLong(a: Asset)
    requires LongId(a)
    ensures |ShortId(a.id, 12)| == 12 && |ShortId(a.id, 8)| == 8 && '-' !in ShortId(a.id, 12)
  {
    DashlessChars(a.id);
  }

  /** Collision names agree exactly when display names and twelve characters do. */
  lemma LongNamesAgree(a: Asset, b: Asset)
    requires LongId(a) && LongId(b)
    ensures LongName(a) == LongName(b)
       <==> DisplayName(a) == DisplayName(b) && ShortId(a.id, 12) == ShortId(b.id, 12)
  {
    hide NameHead, NameSuffix, ShortId, PathStem, PathSuffix;
    NameParts(a);
    NameParts(b);
    ShortIdLong(a);
    ShortIdLong(b);
    if LongName(a) == LongName(b) {
      var p, q := NameHead(a) + "--", NameHead(b) + "--";
      SuffixUnique(p + ShortId(a.id, 12), NameSuffix(a), q + ShortId(b.id, 12), NameSuffix(b));
      SameEnds(p + ShortId(a.id, 12), NameSuffix(a), NameSuffix(b));
      TailUnique(p, ShortId(a.id, 12), q, ShortId(b.id, 12));
      SameStarts(p, q, ShortId(a.id, 12));
      SameStarts(NameHead(a), NameHead(b), "--");
    }
    if DisplayName(a) == DisplayName(b) && ShortId(a.id, 12) == ShortId(b.id, 12) { LongNameOf(a, b); }
  }

  lemma SameEnds(p: string, x: string, y: string)
    requires p + x == p + y
    ensures x == y
  {
    assert (p + x)[|p|..] == x && (p + y)[|p|..] == y;
  }

  lemma SameStarts(p: string, q: string, x: string)
    requires p + x == q + x
    ensures p == q
  {
    assert |p| == |q| && (p + x)[..|p|] == p && (q + x)[..|q|] == q;
  }

  lemma LongNameOf(a: Asset, b: Asset)
    requires DisplayName(a) == DisplayName(b) && ShortId(a.id, 12) == ShortId(b.id, 12)
    ensures LongName(a) == LongName(b)
  {
    hide DisplayName, PathStem, PathSuffix, ShortId;
  }

  /** A display name is taken exactly when an asset before has it. */
  lemma {:induction false} DisplayTaken(s: seq<Asset>, x: Asset)
    requires LongIds(s) && LongId(x)
    ensures DisplayName(x) in EnteredAll(s) <==> exists i :: 0 <= i < |s| && DisplayName(s[i]) == DisplayName(x)
  {
    hide DisplayName, LongName, Dashless;
    if s != [] {
      var init, last := s[..|s| - 1], s[|s| - 1];
      assert last in s && forall a :: a in init ==> a in s;
      DisplayTaken(init, x);
      LongIsNoDisplayName(last, x);
      assert forall i :: 0 <= i < |init| ==> s[i] == init[i];
    }
  }

  lemma TakenStep(init: seq<Asset>, last: Asset, name: string)
    ensures name in EnteredAll(init + [last]) <==>
            || name in EnteredAll(init)
            || name == (if DisplayName(last) in EnteredAll(init) then LongName(last) else DisplayName(last))
  {
    hide DisplayName, LongName;
    assert (init + [last])[..|init|] == init;
  }

  /** A collision name is taken exactly when an asset before got it. */
  lemma {:induction false} LongTaken(s: seq<Asset>, x: Asset)
    requires LongIds(s) && LongId(x)
    ensures LongName(x) in EnteredAll(s) <==> exists j :: 0 <= j < |s| && GotLong(s, j, x)
  {
    hide DisplayName, LongName, LongId, GotLong, EnteredAll;
    if s == [] {
      NothingTaken(LongName(x));
    } else {
      var init, last := s[..|s| - 1], s[|s| - 1];
      assert s == init + [last];
      assert last in s && forall a :: a in init ==> a in s;
      LongTaken(init, x);
      LongIsNoDisplayName(x, last);
      TakenStep(init, last, LongName(x));
      forall j | 0 <= j < |init|
        ensures GotLong(s, j, x) <==> GotLong(init, j, x)
      {
        GotLongBefore(init, last, j, x);
      }
      LastGotLong(init, last, x);
    }
  }

  /** The j-th asset found its display name taken and got a collision name, that of `x`. */
  predicate GotLong(s: seq<Asset>, j: nat, x: Asset)
    requires j < |s|
  {
    DisplayName(s[j]) in EnteredAll(s[..j]) && LongName(s[j]) == LongName(x)
  }

  lemma NothingTaken(name: string)
    ensures name !in EnteredAll([])
  {
  }

  lemma GotLongBefore(init: seq<Asset>, last: Asset, j: nat, x: Asset)
    requires j < |init|
    ensures GotLong(init + [last], j, x) <==> GotLong(init, j, x)
  {
    hide DisplayName, LongName, EnteredAll;
    assert (init + [last])[..j] == init[..j];
  }

  lemma LastGotLong(init: seq<Asset>, last: Asset, x: Asset)
    ensures GotLong(init + [last], |init|, x)
            <==> DisplayName(last) in EnteredAll(init) && LongName(last) == LongName(x)
  {
    hide DisplayName, LongName, EnteredAll;
    assert (init + [last])[..|init|] == init;
  }

  lemma OverwritesIff(s: seq<Asset>, k: nat)
    requires LongIds(s) && k < |s|
    ensures Overwrites(s, k) <==> ThirdOfAKind(s, k)
  {
    hide DisplayName, LongName, EnteredAll, LongId, ShortId;
    var before, x := s[..k], s[k];
    assert forall a :: a in before ==> a in s;
    DisplayTaken(before, x);
    LongTaken(before, x);
    forall j | 0 <= j < k
      ensures GotLong(before, j, x) <==> DisplayName(s[j]) in EnteredAll(s[..j]) && LongName(s[j]) == LongName(x)
      ensures LongName(s[j]) == LongName(x)
              <==> DisplayName(s[j]) == DisplayName(x) && ShortId(s[j].id, 12) == ShortId(x.id, 12)
      ensures DisplayName(s[j]) in EnteredAll(s[..j])
              <==> exists i :: 0 <= i < j && DisplayName(s[i]) == DisplayName(s[j])
    {
      assert before[j] == s[j] && before[..j] == s[..j];
      assert s[j] in s && x in s;
      LongNamesAgree(s[j], x);
      DisplayTaken(s[..j], s[j]);
      assert forall i :: 0 <= i < j ==> s[..j][i] == s[i];
    }
  }

  /** Read off the sorted input: a listing is complete if and only if no asset is the third of a kind. */
  lemma DroppedByKind(assets: seq<Asset>)
    requires LongIds(assets)
    ensures |Entries(assets)| == |assets|
       <==> forall k :: 0 <= k < |SortedAssets(assets)| ==> !ThirdOfAKind(SortedAssets(assets), k)
  {
    hide Overwrites, ThirdOfAKind, Entries, SortedAssets, LongId;
    SortedMembers(assets);
    DroppedExactly(assets);
    forall k | 0 <= k < |SortedAssets(assets)|
      ensures Overwrites(SortedAssets(assets), k) <==> ThirdOfAKind(SortedAssets(assets), k)
    {
      OverwritesIff(SortedAssets(assets), k);
    }
  }

  /** It happens: of three assets alike but for the tails of their ids the last replaces the second. */
  lemma ThirdReplacesSecond(a: Asset, b: Asset, c: Asset)
    requires a.when == b.when == c.when && a.fileName == b.fileName == c.fileName != ""
             && a.guessed == b.guessed == c.guessed
    requires ShortId(a.id, 8) == ShortId(b.id, 8) == ShortId(c.id, 8)
    requires ShortId(a.id, 12) == ShortId(b.id, 12) == ShortId(c.id, 12)
    requires Less(a.id, b.id) && Less(b.id, c.id) && '/' !in a.id && '/' !in b.id && '/' !in c.id
    ensures Entries([a, b, c]) == map[DisplayName(a) := a, LongName(a) := c]
    ensures |Entries([a, b, c])| == 2 && b !in Entries([a, b, c]).Values
  {
    hide DisplayName, LongName, KeyLess, SortedAssets, EnteredAll, ShortId;
    AlikeNames(a, b);
    AlikeNames(b, c);
    LongIsNotDisplay(a);
    AlikeAscending(a, b, c);
    SortedAscending([a, b, c]);
    AscendingUnique(SortedAssets([a, b, c]), [a, b, c]);
    AlikeEntered(a, b, c);
    assert Entries([a, b, c]).Keys == {DisplayName(a), LongName(a)};
    LessIrreflexive(b.id);
  }

  lemma AlikeAscending(a: Asset, b: Asset, c: Asset)
    requires a.when == b.when == c.when && a.fileName == b.fileName == c.fileName
             && Less(a.id, b.id) && Less(b.id, c.id)
    ensures Ascending([a, b, c]) && DistinctIds([a, b, c])
  {
    hide Before, Lower;
    LessTransitive(a.id, b.id, c.id);
    LessIrreflexive(a.id);
    LessIrreflexive(b.id);
    hide Less;
  }

  lemma AlikeEntered(a: Asset, b: Asset, c: Asset)
    requires DisplayName(a) == DisplayName(b) == DisplayName(c)
             && LongName(a) == LongName(b) == LongName(c) != DisplayName(a)
    ensures EnteredAll([a, b, c]) == map[DisplayName(a) := a, LongName(a) := c]
  {
    hide DisplayName, LongName;
    var s := [a, b, c];
    assert s[..2] == [a, b] && [a, b][..1] == [a] && [a][..0] == [];
    assert EnteredAll([a]) == map[DisplayName(a) := a];
    assert EnteredAll([a, b]) == map[DisplayName(a) := a, LongName(a) := b];
  }

  lemma AlikeNames(a: Asset, b: Asset)
    requires a.when == b.when && a.fileName == b.fileName != "" && a.guessed == b.guessed
    requires ShortId(a.id, 8) == ShortId(b.id, 8) && ShortId(a.id, 12) == ShortId(b.id, 12)
    ensures DisplayName(a) == DisplayName(b) && LongName(a) == LongName(b)
  {
    hide PathStem, PathSuffix, ShortId, WhenText;
  }

  lemma LongIsNotDisplay(a: Asset)
    requires '/' !in a.id
    ensures LongName(a) != DisplayName(a)
  {
    NameParts(a);
    hide NameHead, NameSuffix, ShortId;
    assert |LongName(a)| > |NameHead(a) + NameSuffix(a)|;
  }

  /** No asset has two names. */
  lemma EntriesInjective(assets: seq<Asset>)
    requires DistinctIds(assets)
    ensures forall n, k :: n in Entries(assets) && k in Entries(assets) && Entries(assets)[n] == Entries(assets)[k] ==>
              n == k
  {
    DistinctFromMultiset(assets, SortedAssets(assets));
    EnteredAllInjective(SortedAssets(assets));
  }

  lemma {:induction false} EnteredAllInjective(s: seq<Asset>)
    requires DistinctIds(s)
    ensures forall n, k :: n in EnteredAll(s) && k in EnteredAll(s) && EnteredAll(s)[n] == EnteredAll(s)[k] ==> n == k
  {
    hide DisplayName, LongName;
    if s != [] {
      var init, last := s[..|s| - 1], s[|s| - 1];
      EnteredAllInjective(init);
      EnteredAllSound(init);
      assert last !in init;
    }
  }

  lemma TellingSorted(assets: seq<Asset>)
    requires Telling(assets)
    ensures Telling(SortedAssets(assets))
  {
    var sorted := SortedAssets(assets);
    SortedMembers(assets);
    assert DistinctIds(assets);
    DistinctFromMultiset(assets, sorted);
    forall i, j | 0 <= i < j < |sorted|
      ensures |Dashless(sorted[i].id)| >= 12 && |Dashless(sorted[j].id)| >= 12
      ensures Dashless(sorted[i].id)[..12] != Dashless(sorted[j].id)[..12]
    {
      assert sorted[i] in assets && sorted[j] in assets;
      var a :| 0 <= a < |assets| && assets[a] == sorted[i];
      var b :| 0 <= b < |assets| && assets[b] == sorted[j];
    }
    forall i | 0 <= i < |sorted|
      ensures '/' !in sorted[i].id && |Dashless(sorted[i].id)| >= 12
    {
      assert sorted[i] in assets;
    }
  }
}
