/** Which DAV requests write, by the kind of resource their path names, and what whole runs of them keep
  * (src/immich_bridge/webdav_provider.py). */
module WriteVerbs {
  import opened Wrappers
  import opened FsService
  import opened WebdavTree
  import opened TreeTheorems
  import opened Writes
  import opened AssetNames
  import opened FsModel
  import opened ReferenceImmich

  /** A request's method with what Immich and the disk answer to it. `typed` says that the name's extension
    * or guessed type is of media. The DAV framework, not part of this model, may ask an existing destination
    * of a copy or move to delete itself first; `cleans` says that it does. */
  datatype Verb =
    | Put(typed: bool, chunks: seq<Bytes>, withErrors: bool, uploaded: Option<string>, joins: bool, unlinks: bool)
    | MkCol(created: Option<string>)
    | Delete(removes: bool)
    | Copy(dest: seq<string>, cleans: bool, removes: bool)
    | Move(dest: seq<string>, cleans: bool, removes: bool)

  /** The mount and the write policy are those of the moment. */
  datatype Request = Request(mount: Mount, policy: Policy, path: seq<string>, verb: Verb)

  /** What the resource a request reaches does with it. */
  datatype Reaction =
    | Refuse
    | Discard
    | NoResource
    | UploadTo(place: Place)
    | NewAlbum
    | LeaveAlbum(albumId: string, assetId: string)

  /** `is_supported_media_upload_name`. */
  predicate MediaName(name: string, typed: bool) {
    && name != "" && '/' !in name
    && name !in {README, ".well-known", "Albums", "Timeline", "Favorites", "Views"}
    && !IsMacOSMetadata(name) && name[0] != '.' && typed
  }

  // ---------- the resources' methods ----------

  /** `create_empty_resource`: the mount root and album folders take media, the read-only mixin nothing. */
  function CreateEmpty(p: Policy, x: Resource, name: string, typed: bool): Reaction {
    match x
    case MountRoot =>
      if IsMacOSMetadata(name) then Discard
      else if !Allowed(p.rootUploads) || !MediaName(name, typed) then Refuse
      else UploadTo(Place.Root)
    case AlbumsRoot => if IsMacOSMetadata(name) then Discard else Refuse
    case Folder(top) =>
      if !top.scope.AlbumScope? then Refuse
      else if IsMacOSMetadata(name) then Discard
      else if !Allowed(p.albumUploads) || !MediaName(name, typed) then Refuse
      else UploadTo(Place.InAlbum(top.scope.albumId))
    case _ => Refuse
  }

  /** `create_collection`. */
  function CreateCollection(p: Policy, x: Resource, name: string): Reaction {
    if x.AlbumsRoot? && name != README && !IsMacOSMetadata(name) && Allowed(p.albumCreate) then NewAlbum else Refuse
  }

  /** `begin_write` of a resource that exists: client metadata is discarded, the mixin refuses. */
  function BeginWrite(x: Resource): Reaction { if x.MacOSMetadata? then Discard else Refuse }

  /** `handle_delete`, and `delete`, which falls back on it. */
  function HandleDelete(p: Policy, x: Resource): Reaction {
    match x
    case AssetFile(top, _, a) =>
      if top.scope.AlbumScope? && Allowed(p.albumMembershipDelete) then LeaveAlbum(top.scope.albumId, a.id) else Refuse
    case MacOSMetadata(_) => Discard
    case _ => Refuse
  }

  // ---------- dispatch ----------

  function Parent(path: seq<string>): seq<string>
    requires path != []
  {
    path[..|path| - 1]
  }

  /** A request goes to the resource its path names, or to the parent of a path that names none. */
  function React(r: Request): Reaction {
    var found := Resolve(r.mount, r.path);
    match r.verb
    case Put(typed, _, _, _, _, _) =>
      if found.Some? then BeginWrite(found.value)
      else if r.path == [] || Resolve(r.mount, Parent(r.path)).None? then NoResource
      else CreateEmpty(r.policy, Resolve(r.mount, Parent(r.path)).value, r.path[|r.path| - 1], typed)
    case MkCol(_) =>
      if found.Some? then Refuse
      else if r.path == [] || Resolve(r.mount, Parent(r.path)).None? then NoResource
      else CreateCollection(r.policy, Resolve(r.mount, Parent(r.path)).value, r.path[|r.path| - 1])
    case Delete(_) => if found.None? then NoResource else HandleDelete(r.policy, found.value)
    case Copy(dest, cleans, _) => if found.None? then NoResource else Overwriting(r, found.value, dest, cleans)
    case Move(dest, cleans, _) => if found.None? then NoResource else Overwriting(r, found.value, dest, cleans)
  }

  /** `handle_copy` and `handle_move`: the mixin refuses before anything else; client metadata has neither,
    * and then at most the destination is deleted. */
  function Overwriting(r: Request, source: Resource, dest: seq<string>, cleans: bool): Reaction {
    if source.MacOSMetadata? && cleans && Resolve(r.mount, dest).Some?
    then HandleDelete(r.policy, Resolve(r.mount, dest).value)
    else Refuse
  }

  function Removes(v: Verb): bool { !v.Put? && !v.MkCol? && v.removes }

  /** The effect of a request; `file` names the temporary file an upload stages. */
  function After(w: World, ttl: int, r: Request, file: nat): World {
    match React(r)
    case UploadTo(place) =>
      AfterPut(w, ttl, r.path, place, r.path[|r.path| - 1], r.verb.chunks, r.verb.withErrors, r.verb.uploaded,
               r.verb.joins, r.verb.unlinks, file)
    case NewAlbum => AfterNewAlbum(w, r.verb.created)
    case LeaveAlbum(album, asset) => AfterLeaving(w, album, asset, Removes(r.verb))
    case _ => w
  }

  function AnswerOf(r: Request): Answer {
    match React(r)
    case Refuse => Forbidden
    case Discard => Discarded
    case NoResource => Missing
    case UploadTo(place) =>
      if r.verb.withErrors then Aborted else UploadAnswer(place, r.verb.uploaded, r.verb.joins)
    case NewAlbum => if r.verb.created.None? then UpstreamError else Done
    case LeaveAlbum(_, _) => if Removes(r.verb) then Done else UpstreamError
  }

  /** Only a PUT uploads, only an MKCOL makes an album. */
  lemma ReactionVerbs(r: Request)
    ensures React(r).UploadTo? ==> r.verb.Put? && r.path != []
    ensures React(r).NewAlbum? ==> r.verb.MkCol? && r.path != []
    ensures React(r).LeaveAlbum? ==> !r.verb.Put? && !r.verb.MkCol?
  {
    hide Resolve, IsMacOSMetadata, MediaName;
  }

  /** One request on the bridge's objects. */
  method Handle(bridge: Bridge, r: Request) returns (answer: Answer)
    requires bridge.Valid()
    modifies bridge
    ensures bridge.Valid() && answer == AnswerOf(r)
    ensures bridge.world == After(old(bridge.world), bridge.receiptTtl, r, old(bridge.nextTemp))
  {
    hide React, AfterPut, AfterNewAlbum, AfterLeaving, UploadAnswer;
    ReactionVerbs(r);
    match React(r)
    case Refuse => answer := Forbidden;
    case Discard => answer := Discarded;
    case NoResource => answer := Missing;
    case UploadTo(place) =>
      var length;
      answer, length := WriteFile(bridge, r.path, place, r.path[|r.path| - 1], r.verb.chunks, r.verb.withErrors,
                                  r.verb.uploaded, r.verb.joins, r.verb.unlinks);
    case NewAlbum => answer := CreateAlbum(bridge, r.verb.created);
    case LeaveAlbum(album, asset) => answer := RemoveFromAlbum(bridge, album, asset, Removes(r.verb));
  }

  // ---------- which requests write ----------

  /** A PUT of a media name to a path that names nothing yet, right below the mount root or an album's folder,
    * where the policy allows it. */
  predicate Uploads(r: Request, place: Place) {
    && r.verb.Put? && r.path != [] && Resolve(r.mount, r.path).None?
    && Resolve(r.mount, Parent(r.path)).Some? && MediaName(r.path[|r.path| - 1], r.verb.typed)
    && var x := Resolve(r.mount, Parent(r.path)).value;
       || (x.MountRoot? && place.Root? && Allowed(r.policy.rootUploads))
       || (&& x.Folder? && x.top.scope.AlbumScope? && place == Place.InAlbum(x.top.scope.albumId)
           && Allowed(r.policy.albumUploads))
  }

  lemma UploadsExactly(r: Request, place: Place)
    ensures React(r) == UploadTo(place) <==> Uploads(r, place)
  {
    hide Resolve, IsMacOSMetadata;
  }

  /** Exactly which requests take an asset out of an album: with the policy on, a DELETE of a path that
    * resolves to that asset of that album, or a copy or move of client metadata onto one. */
  lemma LeavesExactly(r: Request, album: string, asset: string)
    ensures React(r) == LeaveAlbum(album, asset)
       <==> && Allowed(r.policy.albumMembershipDelete)
            && (|| (r.verb.Delete? && IsAlbumAsset(r.mount, r.path, album, asset))
                || (&& (r.verb.Copy? || r.verb.Move?) && r.verb.cleans
                    && Resolve(r.mount, r.path).Some? && Resolve(r.mount, r.path).value.MacOSMetadata?
                    && IsAlbumAsset(r.mount, r.verb.dest, album, asset)))
  {
    hide Resolve, IsMacOSMetadata, MediaName;
  }

  /** The path resolves to an asset file of the album. */
  predicate IsAlbumAsset(m: Mount, path: seq<string>, album: string, asset: string) {
    var found := Resolve(m, path);
    && found.Some? && found.value.AssetFile?
    && found.value.top.scope == AlbumScope(album) && found.value.asset.id == asset
  }

  /** Such a path goes through the album's own folder. */
  lemma AlbumAssetPath(m: Mount, path: seq<string>, album: string, asset: string)
    requires MountOk(m) && IsAlbumAsset(m, path, album, asset)
    requires forall i :: 0 <= i < |m.views| ==> !m.views[i].1.scope.AlbumScope?
    ensures |path| > 2 && path[0] == "Albums"
    ensures ByName(m.albums, path[1]).Some? && ByName(m.albums, path[1]).value.scope == AlbumScope(album)
  {
    hide MountOk, IsMacOSMetadata, ResolveTree, ByName;
    TreeOfFile(m, path);
  }

  lemma TreeOfFile(m: Mount, path: seq<string>)
    requires Resolve(m, path).Some? && Resolve(m, path).value.AssetFile?
    ensures var top := Resolve(m, path).value.top;
            && path != []
            && (top.scope.AlbumScope? ==> path[0] == "Albums" || path[0] == "Views")
            && (path[0] == "Albums" ==> |path| > 2 && ByName(m.albums, path[1]) == Some(top))
            && (path[0] == "Views" ==> |path| > 2 && ByName(m.views, path[1]) == Some(top))
  {
    hide IsMacOSMetadata, ResolveTree, ByName;
    forall top: Tree, tail | ResolveTree(m, top, tail).Some? && ResolveTree(m, top, tail).value.AssetFile?
      ensures ResolveTree(m, top, tail).value.top == top && tail != []
    {
      FileOfTree(m, top, tail);
    }
  }

  lemma FileOfTree(m: Mount, top: Tree, tail: seq<string>)
    requires ResolveTree(m, top, tail).Some? && ResolveTree(m, top, tail).value.AssetFile?
    ensures ResolveTree(m, top, tail).value.top == top && tail != []
  {
    hide TailRange, TailHour, ShouldSplit, HasAssets, AssetsIn, AssetsInHour, AllAssetsOf;
  }

  // ---------- whole runs ----------

  function Run(w: World, ttl: int, rs: seq<Request>): World {
    if rs == [] then w else After(Run(w, ttl, rs[..|rs| - 1]), ttl, rs[|rs| - 1], |rs|)
  }

  lemma PutStep(w: World, ttl: int, path: seq<string>, place: Place, name: string, chunks: seq<Bytes>, withErrors: bool,
                uploaded: Option<string>, joins: bool, unlinks: bool, file: nat)
    requires file !in w.temp
    ensures var t := AfterPut(w, ttl, path, place, name, chunks, withErrors, uploaded, joins, unlinks, file);
            && (forall id :: id in w.library ==> id in t.library)
            && (withErrors || Truthful(w, uploaded, Concat(chunks)) ==>
                  forall id :: id in w.library ==> t.library[id] == w.library[id])
            && (forall album, id :: id in Members(w, album) ==> id in Members(t, album))
            && t.temp.Keys <= w.temp.Keys + {file}
            && (unlinks ==> t.temp == w.temp)
  {
    hide AfterUpload, Concat;
    var staged := w.(temp := w.temp[file := Concat(chunks)]);
    UploadAdds(staged, ttl, path, place, name, Concat(chunks), uploaded, joins);
    assert staged.temp - {file} == w.temp;
    assert forall album :: Members(staged, album) == Members(w, album);
    var sent := if withErrors then staged
                else AfterUpload(staged, ttl, path, place, name, Concat(chunks), uploaded, joins);
    assert forall album :: Members(sent.(temp := sent.temp - {file}), album) == Members(sent, album);
  }

  /** The request uploads, and Immich's answer to it is true. */
  predicate AnsweredTruly(w: World, r: Request) {
    r.verb.Put? && !r.verb.withErrors ==> Truthful(w, r.verb.uploaded, Concat(r.verb.chunks))
  }

  /** No request loses an asset, and a true answer changes none; a membership goes only where LeavesExactly
    * says; and no staged file stays when its unlink works. */
  lemma StepSafe(w: World, ttl: int, r: Request, file: nat)
    requires file !in w.temp
    ensures var t := After(w, ttl, r, file);
            && (forall id :: id in w.library ==> id in t.library)
            && (AnsweredTruly(w, r) ==> forall id :: id in w.library ==> t.library[id] == w.library[id])
            && (forall album, id :: id in Members(w, album) && id !in Members(t, album) ==>
                React(r) == LeaveAlbum(album, id))
            && t.temp.Keys <= w.temp.Keys + {file}
            && ((r.verb.Put? ==> r.verb.unlinks) ==> t.temp == w.temp)
  {
    hide React, AfterPut, Truthful, Concat;
    ReactionVerbs(r);
    match React(r)
    case UploadTo(place) =>
      PutStep(w, ttl, r.path, place, r.path[|r.path| - 1], r.verb.chunks, r.verb.withErrors, r.verb.uploaded,
              r.verb.joins, r.verb.unlinks, file);
    case _ =>
  }

  predicate TempUpTo(w: World, n: nat) { forall f :: f in w.temp ==> f <= n }

  /** Every answer of the run is true at its time. */
  predicate RunTruly(w: World, ttl: int, rs: seq<Request>) {
    forall i :: 0 <= i < |rs| ==> AnsweredTruly(Run(w, ttl, rs[..i]), rs[i])
  }

  /** Over any sequence of requests to any mounts under any policies the library never shrinks, assets keep
    * their bytes when Immich answers truly, and no staged file is left when unlinking works. */
  lemma {:induction false} LibraryNeverShrinks(w: World, ttl: int, rs: seq<Request>)
    requires w.temp == map[]
    ensures var t := Run(w, ttl, rs);
            && (forall id :: id in w.library ==> id in t.library)
            && (RunTruly(w, ttl, rs) ==> forall id :: id in w.library ==> t.library[id] == w.library[id])
            && TempUpTo(t, |rs|)
            && ((forall r :: r in rs && r.verb.Put? ==> r.verb.unlinks) ==> t.temp == map[])
  {
    hide After, RunTruly, AnsweredTruly, TempUpTo, Members;
    if rs == [] {
      NoTempLeft(w);
    } else {
      var init, last := rs[..|rs| - 1], rs[|rs| - 1];
      var before := Run(w, ttl, init);
      LibraryNeverShrinks(w, ttl, init);
      if RunTruly(w, ttl, rs) { TrulyBefore(w, ttl, rs); }
      TempGrows(before, After(before, ttl, last, |rs|), |rs|);
      StepSafe(before, ttl, last, |rs|);
      assert last in rs && forall r :: r in init ==> r in rs;
    }
  }

  lemma NoTempLeft(w: World)
    requires w.temp == map[]
    ensures TempUpTo(w, 0)
  {
  }

  lemma TrulyBefore(w: World, ttl: int, rs: seq<Request>)
    requires rs != [] && RunTruly(w, ttl, rs)
    ensures RunTruly(w, ttl, rs[..|rs| - 1])
    ensures AnsweredTruly(Run(w, ttl, rs[..|rs| - 1]), rs[|rs| - 1])
  {
    hide AnsweredTruly, Run;
    var init := rs[..|rs| - 1];
    assert forall i :: 0 <= i < |init| ==> init[..i] == rs[..i] && init[i] == rs[i];
  }

  lemma TempGrows(s: World, t: World, n: nat)
    requires n > 0 && TempUpTo(s, n - 1)
    ensures n !in s.temp
    ensures t.temp.Keys <= s.temp.Keys + {n} ==> TempUpTo(t, n)
  {
  }

  /** What one request adds to the library it uploaded, complete and accepted. */
  lemma UploadStep(w: World, ttl: int, r: Request, file: nat, id: string)
    requires id in After(w, ttl, r, file).library && id !in w.library
    ensures React(r).UploadTo? && r.verb.Put? && !r.verb.withErrors && r.verb.uploaded == Some(id)
    ensures After(w, ttl, r, file).library[id] == Concat(r.verb.chunks)
  {
    hide React, Concat;
    ReactionVerbs(r);
  }

  /** Over any sequence of requests the library gains only what a PUT uploaded to such a path, with the policy
    * of its moment on; when Immich answers truly it still has the bytes written. */
  lemma {:induction false} LibraryGrowsByPut(w: World, ttl: int, rs: seq<Request>, id: string)
    requires id !in w.library && id in Run(w, ttl, rs).library
    ensures exists r, place ::
              && r in rs && Uploads(r, place) && !r.verb.withErrors && r.verb.uploaded == Some(id)
              && (w.temp == map[] && RunTruly(w, ttl, rs) ==> Run(w, ttl, rs).library[id] == Concat(r.verb.chunks))
  {
    hide After, React, Uploads, Concat, RunTruly, AnsweredTruly, TempUpTo;
    var init, last := rs[..|rs| - 1], rs[|rs| - 1];
    if id in Run(w, ttl, init).library {
      LibraryGrowsByPut(w, ttl, init, id);
      if w.temp == map[] && RunTruly(w, ttl, rs) {
        TrulyBefore(w, ttl, rs);
        LibraryNeverShrinks(w, ttl, init);
        TempGrows(Run(w, ttl, init), w, |rs|);
        StepSafe(Run(w, ttl, init), ttl, last, |rs|);
      }
    } else {
      UploadStep(Run(w, ttl, init), ttl, last, |rs|, id);
      UploadsExactly(last, React(last).place);
      assert last in rs;
    }
  }

  /** Over any sequence of requests a membership is lost only by one of those that LeavesExactly names, with
    * the policy of its moment on. */
  lemma {:induction false} MembershipLostByLeaving(w: World, ttl: int, rs: seq<Request>, album: string, id: string)
    requires w.temp == map[] && id in Members(w, album) && id !in Members(Run(w, ttl, rs), album)
    ensures exists r :: r in rs && React(r) == LeaveAlbum(album, id) && Allowed(r.policy.albumMembershipDelete)
  {
    hide After, React, RunTruly, AnsweredTruly, TempUpTo;
    var init, last := rs[..|rs| - 1], rs[|rs| - 1];
    if id in Members(Run(w, ttl, init), album) {
      LibraryNeverShrinks(w, ttl, init);
      TempGrows(Run(w, ttl, init), w, |rs|);
      StepSafe(Run(w, ttl, init), ttl, last, |rs|);
      LeavesExactly(last, album, id);
      assert last in rs;
    } else {
      MembershipLostByLeaving(w, ttl, init, album, id);
    }
  }

  /** The i-th request is the upload that a receipt for `path` tells of: complete, accepted, in its album if
    * one was meant, with the size and the bytes written. */
  ghost predicate Told(w: World, ttl: int, rs: seq<Request>, i: nat, path: seq<string>, receipt: UploadReceipt)
    requires i < |rs|
  {
    var after := Run(w, ttl, rs[..i + 1]);
    var r := rs[i];
    && React(r).UploadTo? && r.path == path && r.path != [] && r.verb.Put? && !r.verb.withErrors && AnswerOf(r) == Done
    && receipt == UploadReceipt(r.verb.uploaded.value, path[|path| - 1], |Concat(r.verb.chunks)|)
    && receipt.assetId in after.library && after.library[receipt.assetId] == Concat(r.verb.chunks)
    && (React(r).place.InAlbum? ==> receipt.assetId in Members(after, React(r).place.albumId))
  }

  /** A receipt says that some upload to its path succeeded, and its asset is still in the library. */
  lemma {:induction false} ReceiptsAreTrue(w: World, ttl: int, rs: seq<Request>, path: seq<string>)
    requires w.receipts == map[] && w.temp == map[] && path in Run(w, ttl, rs).receipts
    ensures Run(w, ttl, rs).receipts[path].assetId in Run(w, ttl, rs).library
    ensures exists i :: 0 <= i < |rs| && Told(w, ttl, rs, i, path, Run(w, ttl, rs).receipts[path])
  {
    hide After, React, AnswerOf, Concat, Members, RunTruly, AnsweredTruly, TempUpTo;
    var init, last := rs[..|rs| - 1], rs[|rs| - 1];
    var before := Run(w, ttl, init);
    assert rs[..|rs|] == rs;
    LibraryNeverShrinks(w, ttl, init);
    TempGrows(before, before, |rs|);
    StepSafe(before, ttl, last, |rs|);
    ReceiptStep(before, ttl, last, |rs|, path);
    if path in before.receipts && Run(w, ttl, rs).receipts[path] == before.receipts[path] {
      ReceiptsAreTrue(w, ttl, init, path);
      var i :| 0 <= i < |init| && Told(w, ttl, init, i, path, before.receipts[path]);
      assert init[..i + 1] == rs[..i + 1] && init[i] == rs[i];
      assert Told(w, ttl, rs, i, path, before.receipts[path]);
    } else {
      assert Told(w, ttl, rs, |rs| - 1, path, Run(w, ttl, rs).receipts[path]);
    }
  }

  lemma ReceiptStep(w: World, ttl: int, r: Request, file: nat, path: seq<string>)
    requires path in After(w, ttl, r, file).receipts
    ensures var t := After(w, ttl, r, file);
            || (path in w.receipts && t.receipts[path] == w.receipts[path])
            || (&& React(r).UploadTo? && r.path == path && r.path != [] && r.verb.Put? && !r.verb.withErrors
                && AnswerOf(r) == Done
                && t.receipts[path] == UploadReceipt(r.verb.uploaded.value, path[|path| - 1], |Concat(r.verb.chunks)|)
                && r.verb.uploaded.value in t.library && t.library[r.verb.uploaded.value] == Concat(r.verb.chunks)
                && (React(r).place.InAlbum? ==> r.verb.uploaded.value in Members(t, React(r).place.albumId)))
  {
    hide React, AfterUpload, UploadAnswer, Concat;
    ReactionVerbs(r);
    match React(r)
    case UploadTo(place) =>
      var staged := w.(temp := w.temp[file := Concat(r.verb.chunks)]);
      UploadReceipts(staged, ttl, r.path, place, r.path[|r.path| - 1], Concat(r.verb.chunks), r.verb.uploaded,
                     r.verb.joins);
      UploadAdds(staged, ttl, r.path, place, r.path[|r.path| - 1], Concat(r.verb.chunks), r.verb.uploaded,
                 r.verb.joins);
    case _ =>
  }

  // ---------- not by DELETE alone ----------

  /** A copy or move of client metadata onto an album's asset, where the framework clears the destination
    * first, takes the asset out of the album as a DELETE would. */
  lemma OverwritingLeaves(m: Mount, p: Policy, source: seq<string>, dest: seq<string>, moves: bool, album: string,
                          asset: string)
    requires Resolve(m, source).Some? && Resolve(m, source).value.MacOSMetadata?
    requires IsAlbumAsset(m, dest, album, asset) && Allowed(p.albumMembershipDelete)
    ensures var verb := if moves then Move(dest, true, true) else Copy(dest, true, true);
            React(Request(m, p, source, verb)) == LeaveAlbum(album, asset)
  {
    hide Resolve, IsMacOSMetadata, MediaName, Allowed;
    LeavesExactly(Request(m, p, source, if moves then Move(dest, true, true) else Copy(dest, true, true)), album,
                  asset);
  }

  /** An album of one asset, listed flat. */
  function TripMount(a: Asset): Mount {
    var k := Backend([a], (base: Base, x: Asset) => true, ParseBound, (q: Query) => None, (favorite: bool) => true);
    Mount(ImmichOf(k), 1, {"Albums"}, [("Trip", Tree(["Albums", "Trip"], AlbumScope("a1"), true))], [], {})
  }

  lemma TripFile(a: Asset)
    requires '/' !in a.id
    ensures IsAlbumAsset(TripMount(a), ["Albums", "Trip", DisplayName(a)], "a1", a.id)
    ensures Resolve(TripMount(a), ["Albums", "Trip", "._x"]) == Some(MacOSMetadata(["Albums", "Trip", "._x"]))
  {
    hide DisplayName, LongName, Found, SortedAssets;
    var m, name := TripMount(a), DisplayName(a);
    var top := Tree(["Albums", "Trip"], AlbumScope("a1"), true);
    var path := ["Albums", "Trip", name];
    assert ByName(m.albums, "Trip") == Some(top);
    TripListing(a);
    DisplayPlain(a);
    assert path[2..] == [name];
    assert "._x"[..2] == "._";
  }

  lemma DisplayPlain(a: Asset)
    requires '/' !in a.id
    ensures !IsMacOSMetadata(DisplayName(a))
  {
    FileNamesPlain(a);
    PlainIsNoReadme(DisplayName(a));
  }

  lemma TripListing(a: Asset)
    ensures AllAssetsOf(TripMount(a), Tree(["Albums", "Trip"], AlbumScope("a1"), true)) == map[DisplayName(a) := a]
  {
    hide DisplayName, LongName;
    var k := Backend([a], (base: Base, x: Asset) => true, ParseBound, (q: Query) => None, (favorite: bool) => true);
    assert SortedAssets([a]) == [a];
    var q := WholeQuery(AlbumScope("a1"), Oldest);
    assert Wanted(k, q, a) && [a][1..] == [] && Matching(k, q, []) == [];
    assert Matching(k, q, [a]) == [a];
    OneEntry(a);
    assert TripMount(a).immich.find(q) == [a];
  }

  lemma OneEntry(a: Asset)
    ensures Entries([a]) == map[DisplayName(a) := a]
  {
    hide DisplayName, LongName;
    assert SortedAssets([a]) == [a];
    assert [a][..0] == [] && EnteredAll([a]) == Entered(EnteredAll([]), a);
  }

  /** With an actual request: a COPY of `._x` onto the file of an album's only asset leaves the album empty. */
  lemma CopyEmptiesAlbum(a: Asset, ttl: int, file: nat)
    requires '/' !in a.id
    ensures var w := World(map[a.id := []], map["a1" := {a.id}], map[], map[]);
            var r := Request(TripMount(a), Policy(None, None, None, None), ["Albums", "Trip", "._x"],
                             Copy(["Albums", "Trip", DisplayName(a)], true, true));
            Members(w, "a1") == {a.id} && Members(After(w, ttl, r, file), "a1") == {}
  {
    hide React, DisplayName, TripMount;
    TripFile(a);
    OverwritingLeaves(TripMount(a), Policy(None, None, None, None), ["Albums", "Trip", "._x"],
                      ["Albums", "Trip", DisplayName(a)], false, "a1", a.id);
  }
}
