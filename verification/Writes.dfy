/** The objects behind DAV writes: uploads staged on disk, then sent to Immich
  * (src/immich_bridge/webdav_provider.py). */
module Writes {
  import opened Wrappers

  type Bytes = seq<nat>

  function Concat(chunks: seq<Bytes>): Bytes {
    if chunks == [] then [] else Concat(chunks[..|chunks| - 1]) + chunks[|chunks| - 1]
  }

  /** Stored policy values: None when the key is missing or holds no boolean. */
  datatype Policy = Policy(
    rootUploads: Option<bool>,
    albumUploads: Option<bool>,
    albumCreate: Option<bool>,
    albumMembershipDelete: Option<bool>)

  /** `write_allowed(key, default=True)`. */
  predicate Allowed(value: Option<bool>) { value.GetOr(true) }

  datatype UploadReceipt = UploadReceipt(assetId: string, filename: string, size: nat)

  /** Immich's library and albums, the upload receipts of the user by path, and the staged temporary files. */
  datatype World = World(
    library: map<string, Bytes>,
    albums: map<string, set<string>>,
    receipts: map<seq<string>, UploadReceipt>,
    temp: map<nat, Bytes>)

  datatype Place = Root | InAlbum(albumId: string)

  datatype Answer = Done | Discarded | Forbidden | Missing | UpstreamError | Aborted | NotStaged

  function Members(w: World, album: string): set<string> { if album in w.albums then w.albums[album] else {} }

  /** Immich answers an upload with the asset that has its bytes, a new one or one it had. */
  function Uploaded(w: World, id: string, bytes: Bytes): World { w.(library := w.library[id := bytes]) }

  /** The answer is true: an asset Immich had has just these bytes. */
  predicate Truthful(w: World, uploaded: Option<string>, bytes: Bytes) {
    uploaded.Some? && uploaded.value in w.library ==> w.library[uploaded.value] == bytes
  }

  function Joined(w: World, album: string, id: string): World {
    w.(albums := w.albums[album := Members(w, album) + {id}])
  }

  /** `upload_asset`: upload, join the album, then remember the receipt. */
  function AfterUpload(w: World, ttl: int, path: seq<string>, place: Place, name: string, bytes: Bytes,
                       uploaded: Option<string>, joins: bool): World {
    if uploaded.None? then w
    else
      var up := Uploaded(w, uploaded.value, bytes);
      if place.InAlbum? && !joins then up
      else
        var joined := if place.InAlbum? then Joined(up, place.albumId, uploaded.value) else up;
        if ttl > 0 then joined.(receipts := joined.receipts[path := UploadReceipt(uploaded.value, name, |bytes|)])
        else joined
  }

  function UploadAnswer(place: Place, uploaded: Option<string>, joins: bool): Answer {
    if uploaded.None? || (place.InAlbum? && !joins) then UpstreamError else Done
  }

  // ---------- the bridge's objects ----------

  class Bridge {
    const receiptTtl: int
    var world: World
    var nextTemp: nat

    ghost predicate Valid()
      reads this
    {
      forall t :: t in world.temp ==> t < nextTemp
    }

    constructor (receiptTtl: int, world: World)
      requires world.temp == map[]
      ensures Valid() && this.receiptTtl == receiptTtl && this.world == world
    {
      this.receiptTtl, this.world, this.nextTemp := receiptTtl, world, 0;
    }

    /** `upload_asset`. */
    method UploadAsset(path: seq<string>, place: Place, name: string, bytes: Bytes, uploaded: Option<string>,
                       joins: bool)
      returns (answer: Answer)
      requires Valid()
      modifies this`world
      ensures Valid() && answer == UploadAnswer(place, uploaded, joins)
      ensures world == AfterUpload(old(world), receiptTtl, path, place, name, bytes, uploaded, joins)
    {
      if uploaded.None? {
        return UpstreamError;
      }
      world := Uploaded(world, uploaded.value, bytes);
      if place.InAlbum? {
        if !joins {
          return UpstreamError;
        }
        world := Joined(world, place.albumId, uploaded.value);
      }
      if receiptTtl > 0 {
        world := world.(receipts := world.receipts[path := UploadReceipt(uploaded.value, name, |bytes|)]);
      }
      return Done;
    }
  }

  /** The writable file WsgiDAV fills: each write goes to the temporary file. */
  class UploadSink {
    const resource: UploadResource
    const temp: nat
    var bytesWritten: nat
    var closed: bool

    constructor (resource: UploadResource)
      requires resource.bridge.Valid()
      modifies resource`tempPath, resource.bridge
      ensures this.resource == resource && resource.bridge.Valid()
      ensures temp == old(resource.bridge.nextTemp) && resource.tempPath == Some(temp)
      ensures resource.bridge.world == old(resource.bridge.world).(temp := old(resource.bridge.world.temp)[temp := []])
      ensures bytesWritten == 0 && !closed
    {
      this.resource := resource;
      this.temp := resource.bridge.nextTemp;
      bytesWritten, closed := 0, false;
      new;
      var bridge := resource.bridge;
      bridge.world := bridge.world.(temp := bridge.world.temp[temp := []]);
      bridge.nextTemp := bridge.nextTemp + 1;
      resource.tempPath := Some(temp);
    }

    method Write(data: Bytes) returns (written: nat)
      requires resource.bridge.Valid() && temp in resource.bridge.world.temp
      modifies this`bytesWritten, resource.bridge`world
      ensures resource.bridge.Valid() && written == |data| && bytesWritten == old(bytesWritten) + |data|
      ensures var was := old(resource.bridge.world);
              resource.bridge.world == was.(temp := was.temp[temp := was.temp[temp] + data])
    {
      var bridge := resource.bridge;
      bridge.world := bridge.world.(temp := bridge.world.temp[temp := bridge.world.temp[temp] + data]);
      written := |data|;
      bytesWritten := bytesWritten + written;
    }

    /** The first close publishes the byte count; later ones change nothing. */
    method Close()
      modifies this`closed, resource`bytesWritten
      ensures closed && resource.bytesWritten == if old(closed) then old(resource.bytesWritten) else bytesWritten
    {
      if closed {
        return;
      }
      resource.bytesWritten := bytesWritten;
      closed := true;
    }
  }

  /** The transient resource a PUT writes to. */
  class UploadResource {
    const bridge: Bridge
    const path: seq<string>
    const name: string
    const place: Place
    var tempPath: Option<nat>
    var bytesWritten: nat
    var uploaded: Option<string>

    constructor (bridge: Bridge, path: seq<string>, name: string, place: Place)
      ensures this.bridge == bridge && this.path == path && this.name == name && this.place == place
      ensures tempPath == None && bytesWritten == 0 && uploaded == None
    {
      this.bridge, this.path, this.name, this.place := bridge, path, name, place;
      tempPath, bytesWritten, uploaded := None, 0, None;
    }

    method BeginWrite() returns (sink: UploadSink)
      requires bridge.Valid()
      modifies this`tempPath, bridge
      ensures fresh(sink) && sink.resource == this && bridge.Valid() && tempPath == Some(sink.temp)
      ensures sink.temp == old(bridge.nextTemp) && sink.bytesWritten == 0 && !sink.closed
      ensures bridge.world == old(bridge.world).(temp := old(bridge.world.temp)[sink.temp := []])
    {
      sink := new UploadSink(this);
    }

    /** `end_write`: upload what was staged; the staged file is unlinked on every path. */
    method EndWrite(withErrors: bool, uploaded: Option<string>, joins: bool, unlinks: bool) returns (answer: Answer)
      requires bridge.Valid()
      modifies this`uploaded, bridge`world
      ensures bridge.Valid()
      ensures var staged := tempPath.Some? && tempPath.value in old(bridge.world.temp);
              var sent := !withErrors && staged;
              var after := if sent then AfterUpload(old(bridge.world), bridge.receiptTtl, path, place, name,
                                                    old(bridge.world.temp)[tempPath.value], uploaded, joins)
                           else old(bridge.world);
              && answer == (if withErrors then Aborted
                            else if !staged then NotStaged
                            else UploadAnswer(place, uploaded, joins))
              && bridge.world
                   == (if tempPath.Some? && unlinks then after.(temp := after.temp - {tempPath.value}) else after)
              && this.uploaded == (if answer == Done then uploaded else old(this.uploaded))
    {
      if withErrors {
        answer := Aborted;
      } else if tempPath.None? || tempPath.value !in bridge.world.temp {
        answer := NotStaged;
      } else {
        answer := bridge.UploadAsset(path, place, name, bridge.world.temp[tempPath.value], uploaded, joins);
        if answer == Done {
          this.uploaded := uploaded;
        }
      }
      if tempPath.Some? && unlinks {
        bridge.world := bridge.world.(temp := bridge.world.temp - {tempPath.value});
      }
    }
  }

  // ---------- whole operations ----------

  /** The effect of writing a new file; `file` names the temporary file it stages. */
  function AfterPut(w: World, ttl: int, path: seq<string>, place: Place, name: string, chunks: seq<Bytes>,
                    withErrors: bool, uploaded: Option<string>, joins: bool, unlinks: bool, file: nat): World {
    var bytes := Concat(chunks);
    var staged := w.(temp := w.temp[file := bytes]);
    var sent := if withErrors then staged else AfterUpload(staged, ttl, path, place, name, bytes, uploaded, joins);
    if unlinks then sent.(temp := sent.temp - {file}) else sent
  }

  function AfterNewAlbum(w: World, created: Option<string>): World {
    if created.None? || created.value in w.albums then w else w.(albums := w.albums[created.value := {}])
  }

  function AfterLeaving(w: World, album: string, assetId: string, removes: bool): World {
    if removes && album in w.albums then w.(albums := w.albums[album := w.albums[album] - {assetId}]) else w
  }

  /** The writing half of a PUT: the sink, its writes, the end. `length` is the resource's content length. */
  method WriteFile(bridge: Bridge, path: seq<string>, place: Place, name: string, chunks: seq<Bytes>, withErrors: bool,
                   uploaded: Option<string>, joins: bool, unlinks: bool)
    returns (answer: Answer, length: nat)
    requires bridge.Valid()
    modifies bridge
    ensures bridge.Valid() && length == |Concat(chunks)|
    ensures answer == if withErrors then Aborted else UploadAnswer(place, uploaded, joins)
    ensures bridge.world
         == AfterPut(old(bridge.world), bridge.receiptTtl, path, place, name, chunks, withErrors, uploaded,
                     joins, unlinks, old(bridge.nextTemp))
  {
    hide AfterUpload, UploadAnswer;
    var resource := new UploadResource(bridge, path, name, place);
    ghost var before := bridge.world;
    var sink := resource.BeginWrite();
    var file := sink.temp;
    for i := 0 to |chunks|
      invariant bridge.Valid() && resource.tempPath == Some(file) && !sink.closed
      invariant sink.bytesWritten == |Concat(chunks[..i])|
      invariant bridge.world == before.(temp := before.temp[file := Concat(chunks[..i])])
    {
      var n := sink.Write(chunks[i]);
      assert chunks[..i + 1][..i] == chunks[..i];
      assert before.temp[file := Concat(chunks[..i])][file := Concat(chunks[..i + 1])]
          == before.temp[file := Concat(chunks[..i + 1])];
    }
    assert chunks[..|chunks|] == chunks;
    sink.Close();
    length := resource.bytesWritten;
    answer := resource.EndWrite(withErrors, uploaded, joins, unlinks);
  }

  /** `create_album`. */
  method CreateAlbum(bridge: Bridge, created: Option<string>) returns (answer: Answer)
    requires bridge.Valid()
    modifies bridge`world
    ensures bridge.Valid() && bridge.world == AfterNewAlbum(old(bridge.world), created)
    ensures answer == if created.None? then UpstreamError else Done
  {
    if created.None? {
      return UpstreamError;
    }
    if created.value !in bridge.world.albums {
      bridge.world := bridge.world.(albums := bridge.world.albums[created.value := {}]);
    }
    return Done;
  }

  /** `remove_asset_from_album`: the membership only, never the asset. */
  method RemoveFromAlbum(bridge: Bridge, album: string, assetId: string, removes: bool) returns (answer: Answer)
    requires bridge.Valid()
    modifies bridge`world
    ensures bridge.Valid() && bridge.world == AfterLeaving(old(bridge.world), album, assetId, removes)
    ensures answer == if removes then Done else UpstreamError
  {
    if !removes {
      return UpstreamError;
    }
    if album in bridge.world.albums {
      bridge.world := bridge.world.(albums := bridge.world.albums[album := bridge.world.albums[album] - {assetId}]);
    }
    return Done;
  }

  // ---------- what one upload does ----------

  /** An upload adds: albums keep their members, other receipts their content, and, when Immich's answer
    * is true, assets their bytes. */
  lemma UploadAdds(w: World, ttl: int, path: seq<string>, place: Place, name: string, bytes: Bytes,
                   uploaded: Option<string>, joins: bool)
    ensures var t := AfterUpload(w, ttl, path, place, name, bytes, uploaded, joins);
            && (forall id :: id in w.library ==> id in t.library)
            && (Truthful(w, uploaded, bytes) ==> forall id :: id in w.library ==> t.library[id] == w.library[id])
            && (forall album, id :: id in Members(w, album) ==> id in Members(t, album))
            && t.temp == w.temp
            && (forall q :: q in t.receipts && q != path ==> q in w.receipts && t.receipts[q] == w.receipts[q])
  {
  }

  /** A receipt comes with an upload that succeeded, after it joined its album if one was meant. */
  lemma UploadReceipts(w: World, ttl: int, path: seq<string>, place: Place, name: string, bytes: Bytes,
                       uploaded: Option<string>, joins: bool)
    ensures var t := AfterUpload(w, ttl, path, place, name, bytes, uploaded, joins);
            path in t.receipts ==>
              || (path in w.receipts && t.receipts[path] == w.receipts[path])
              || (&& UploadAnswer(place, uploaded, joins) == Done
                  && t.receipts[path] == UploadReceipt(uploaded.value, name, |bytes|)
                  && uploaded.value in t.library && t.library[uploaded.value] == bytes
                  && (place.InAlbum? ==> uploaded.value in Members(t, place.albumId)))
  {
  }
}
