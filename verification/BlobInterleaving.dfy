/** The byte-range cache with lock-free readers (src/immich_bridge/blob_cache.py).
  * `set` and prune run one at a time under the lock, `get` takes no lock; every file read, replace
  * and unlink is one step, and the steps of readers fall anywhere between the writer's. */
module BlobInterleaving {
  import opened Wrappers

  type Bytes = seq<nat>

  /** What the digest that names both files is computed from. */
  datatype Key = Key(namespace: string, userScope: string, assetId: string, start: int, end: int)

  /** File contents. `version` is history: the place in the log of the `set` that wrote the file. */
  datatype DataFile = DataFile(bytes: Bytes, version: nat)
  datatype MetaFile = MetaFile(size: nat, expiresAt: int, version: nat)

  /** A `set` that passed its guards and took the lock; its lifetime counts from `time`, before that. */
  datatype SetEvent = SetEvent(key: Key, bytes: Bytes, time: int)

  /** The lock holder: idle, both temporary files written, data replaced, or metadata replaced and
    * pruning (with the victim whose metadata is still to be unlinked). */
  datatype Writer =
    | Idle
    | Staged(version: nat)
    | DataIn(version: nat)
    | Pruning(victim: Option<Key>)

  /** A `get` in progress: metadata read and fresh, or deleting the pair after a miss. */
  datatype Reader =
    | HasMeta(key: Key, meta: MetaFile, checkedAt: int)
    | DropData(key: Key)
    | DropMeta(key: Key)

  /** A `get` that returned bytes. */
  datatype Hit = Hit(key: Key, bytes: Bytes, dataVersion: nat, meta: MetaFile, checkedAt: int)

  datatype Limits = Limits(maxBytes: int, maxRangeBytes: int, ttl: int)

  datatype State = State(
    limits: Limits,
    clock: int,
    data: map<Key, DataFile>,
    meta: map<Key, MetaFile>,
    log: seq<SetEvent>,
    writer: Writer,
    readers: map<nat, Reader>,
    hits: seq<Hit>)

  datatype Step =
    | Tick(seconds: nat)
    | Stage(key: Key, bytes: Bytes, waited: nat) // lock taken `waited` after the lifetime began, files written
    | ReplaceData | ReplaceMeta
    | WriterFails                            // an OSError: temporary files removed, lock released
    | UnlinkVictimData(key: Key, works: bool)   // prune picks any pair and unlinks its data ...
    | UnlinkVictimMeta(works: bool)             // ... then its metadata; a failed unlink is ignored
    | Unlock
    | ReadMeta(reader: nat, key: Key)
    | ReadData(reader: nat)
    | Unlink(reader: nat, works: bool)       // a reader that missed deletes the data, then the metadata

  /** `cacheable`. */
  predicate Cacheable(l: Limits, start: int, end: int) {
    && l.maxBytes > 0 && l.maxRangeBytes > 0 && l.ttl > 0
    && 0 <= start <= end && end - start + 1 <= l.maxRangeBytes
  }

  function Initial(limits: Limits, clock: int): State {
    State(limits, clock, map[], map[], [], Idle, map[], [])
  }

  // ---------- the lock holder's steps; one that is not possible changes nothing ----------

  function Staging(s: State, key: Key, bytes: Bytes, waited: nat): State {
    if s.writer.Idle? && Cacheable(s.limits, key.start, key.end) && |bytes| == key.end - key.start + 1 then
      s.(log := s.log + [SetEvent(key, bytes, s.clock - waited)], writer := Staged(|s.log|))
    else s
  }

  function DataReplaced(s: State): State {
    if s.writer.Staged? && s.writer.version < |s.log| then
      var e := s.log[s.writer.version];
      s.(data := s.data[e.key := DataFile(e.bytes, s.writer.version)], writer := DataIn(s.writer.version))
    else s
  }

  function MetaReplaced(s: State): State {
    if s.writer.DataIn? && s.writer.version < |s.log| then
      var e := s.log[s.writer.version];
      s.(meta := s.meta[e.key := MetaFile(|e.bytes|, e.time + s.limits.ttl, s.writer.version)], writer := Pruning(None))
    else s
  }

  function Pruned(s: State, step: Step): State {
    match step
    case UnlinkVictimData(key, works) =>
      if s.writer == Pruning(None) then
        s.(data := if works then s.data - {key} else s.data, writer := Pruning(Some(key)))
      else s
    case UnlinkVictimMeta(works) =>
      if s.writer.Pruning? && s.writer.victim.Some? then
        s.(meta := if works then s.meta - {s.writer.victim.value} else s.meta, writer := Pruning(None))
      else s
    case Unlock => if s.writer == Pruning(None) then s.(writer := Idle) else s
    case _ => s
  }

  // ---------- a reader's steps ----------

  function MetaRead(s: State, r: nat, key: Key): State {
    if r in s.readers || !Cacheable(s.limits, key.start, key.end) then s
    else if key in s.meta && s.meta[key].expiresAt > s.clock then
      s.(readers := s.readers[r := HasMeta(key, s.meta[key], s.clock)])
    else s.(readers := s.readers[r := DropData(key)])
  }

  function DataRead(s: State, r: nat): State {
    if r in s.readers && s.readers[r].HasMeta? then
      var key, meta := s.readers[r].key, s.readers[r].meta;
      if key in s.data && |s.data[key].bytes| == meta.size then
        s.(readers := s.readers - {r},
           hits := s.hits + [Hit(key, s.data[key].bytes, s.data[key].version, meta, s.readers[r].checkedAt)])
      else s.(readers := s.readers[r := DropData(key)])
    else s
  }

  /** Deleting the pair after a miss; a failed unlink is ignored. */
  function PairDropped(s: State, r: nat, works: bool): State {
    if r in s.readers && s.readers[r].DropData? then
      var key := s.readers[r].key;
      s.(data := if works then s.data - {key} else s.data, readers := s.readers[r := DropMeta(key)])
    else if r in s.readers && s.readers[r].DropMeta? then
      s.(meta := if works then s.meta - {s.readers[r].key} else s.meta, readers := s.readers - {r})
    else s
  }

  function Apply(s: State, step: Step): State {
    match step
    case Tick(seconds) => s.(clock := s.clock + seconds)
    case Stage(key, bytes, waited) => Staging(s, key, bytes, waited)
    case ReplaceData => DataReplaced(s)
    case ReplaceMeta => MetaReplaced(s)
    case WriterFails => s.(writer := Idle)
    case ReadMeta(r, key) => MetaRead(s, r, key)
    case ReadData(r) => DataRead(s, r)
    case Unlink(r, works) => PairDropped(s, r, works)
    case _ => Pruned(s, step)
  }

  function Run(s: State, steps: seq<Step>): State {
    if steps == [] then s else Apply(Run(s, steps[..|steps| - 1]), steps[|steps| - 1])
  }

  // ---------- what every interleaving keeps ----------

  predicate DataOk(s: State, key: Key, f: DataFile) {
    f.version < |s.log| && s.log[f.version].key == key && s.log[f.version].bytes == f.bytes
  }

  /** The metadata describes one `set` of that key. */
  predicate MetaOk(s: State, key: Key, f: MetaFile) {
    && f.version < |s.log| && s.log[f.version].key == key
    && f.size == |s.log[f.version].bytes| && f.expiresAt == s.log[f.version].time + s.limits.ttl
  }

  /** Data of that key, while it exists, is not older than the metadata. */
  predicate NotOlder(s: State, key: Key, f: MetaFile) {
    key in s.data ==> s.data[key].version >= f.version
  }

  predicate HitOk(s: State, h: Hit) {
    && MetaOk(s, h.key, h.meta)
    && h.dataVersion < |s.log| && s.log[h.dataVersion].key == h.key && s.log[h.dataVersion].bytes == h.bytes
    && h.dataVersion >= h.meta.version
    && |h.bytes| == h.key.end - h.key.start + 1
    && h.checkedAt < s.log[h.meta.version].time + s.limits.ttl
  }

  predicate WriterOk(s: State) {
    match s.writer
    case Idle => true
    case Staged(v) => v + 1 == |s.log|
    case DataIn(v) => v + 1 == |s.log| && (s.log[v].key in s.data ==> s.data[s.log[v].key].version == v)
    case Pruning(_) => true
  }

  predicate ReaderOk(s: State, r: Reader) {
    r.HasMeta? ==> MetaOk(s, r.key, r.meta) && NotOlder(s, r.key, r.meta) && r.checkedAt < r.meta.expiresAt
  }

  predicate LogOk(s: State) {
    forall i :: 0 <= i < |s.log| ==> |s.log[i].bytes| == s.log[i].key.end - s.log[i].key.start + 1
  }

  ghost predicate FilesOk(s: State) {
    && (forall key :: key in s.data ==> DataOk(s, key, s.data[key]))
    && (forall key :: key in s.meta ==> MetaOk(s, key, s.meta[key]) && NotOlder(s, key, s.meta[key]))
  }

  ghost predicate ReadersOk(s: State) { forall r :: r in s.readers ==> ReaderOk(s, s.readers[r]) }

  predicate HitsOk(s: State) { forall i :: 0 <= i < |s.hits| ==> HitOk(s, s.hits[i]) }

  ghost predicate Inv(s: State) { LogOk(s) && FilesOk(s) && WriterOk(s) && ReadersOk(s) && HitsOk(s) }

  /** A step that only removes files and moves readers on keeps every statement about the log. */
  lemma FilesOnlyRemoved(s: State, t: State)
    requires Inv(s) && t == s.(data := t.data, meta := t.meta, readers := t.readers, hits := t.hits)
    requires forall key :: key in t.data ==> key in s.data && t.data[key] == s.data[key]
    requires forall key :: key in t.meta ==> key in s.meta && t.meta[key] == s.meta[key]
    ensures LogOk(t) && FilesOk(t) && WriterOk(t)
    ensures forall reader :: ReaderOk(s, reader) ==> ReaderOk(t, reader)
    ensures forall hit :: HitOk(s, hit) ==> HitOk(t, hit)
  {
    hide ReadersOk, HitsOk;
  }

  lemma ObserversKept(s: State, t: State)
    requires Inv(s) && LogOk(t) && FilesOk(t) && WriterOk(t)
    requires forall reader :: ReaderOk(s, reader) ==> ReaderOk(t, reader)
    requires forall hit :: HitOk(s, hit) ==> HitOk(t, hit)
    requires forall q :: q in t.readers ==>
               (q in s.readers && t.readers[q] == s.readers[q]) || ReaderOk(t, t.readers[q])
    requires forall i :: 0 <= i < |t.hits| ==> (i < |s.hits| && t.hits[i] == s.hits[i]) || HitOk(t, t.hits[i])
    ensures Inv(t)
  {
    hide LogOk, FilesOk, WriterOk, ReaderOk, HitOk;
  }

  /** What is said of the log stays true when the log grows. */
  lemma LogGrows(s: State, t: State)
    requires t.limits == s.limits && |s.log| <= |t.log| && forall i :: 0 <= i < |s.log| ==> t.log[i] == s.log[i]
    ensures forall key, f :: DataOk(s, key, f) ==> DataOk(t, key, f)
    ensures forall key, f :: MetaOk(s, key, f) ==> MetaOk(t, key, f)
    ensures forall hit :: HitOk(s, hit) ==> HitOk(t, hit)
  {
  }

  lemma StagingInv(s: State, key: Key, bytes: Bytes, waited: nat)
    requires Inv(s)
    ensures Inv(Staging(s, key, bytes, waited))
  {
    var t := Staging(s, key, bytes, waited);
    LogGrows(s, t);
    hide HitsOk, ReadersOk, DataOk, MetaOk, HitOk, Cacheable;
    ObserversKept(s, t);
  }

  lemma DataReplacedInv(s: State)
    requires Inv(s)
    ensures Inv(DataReplaced(s))
  {
    var t := DataReplaced(s);
    LogGrows(s, t);
    if t != s {
      var e := s.log[s.writer.version];
      assert DataOk(t, e.key, t.data[e.key]);
      NewestData(s, t, e.key);
      hide HitsOk, ReadersOk, DataOk, MetaOk, HitOk, NotOlder;
      ObserversKept(s, t);
    }
  }

  /** The newest `set` is not older than any metadata. */
  lemma NewestData(s: State, t: State, key: Key)
    requires t.data.Keys == s.data.Keys + {key} && t.data[key].version + 1 == |s.log|
    requires forall k :: k in s.data && k != key ==> t.data[k] == s.data[k]
    ensures forall k, f :: MetaOk(s, k, f) && NotOlder(s, k, f) ==> NotOlder(t, k, f)
  {
  }

  lemma MetaReplacedInv(s: State)
    requires Inv(s)
    ensures Inv(MetaReplaced(s))
  {
    var t := MetaReplaced(s);
    LogGrows(s, t);
    if t != s {
      var e := s.log[s.writer.version];
      assert MetaOk(t, e.key, t.meta[e.key]) && NotOlder(t, e.key, t.meta[e.key]);
      assert forall k, f :: NotOlder(s, k, f) ==> NotOlder(t, k, f);
      hide HitsOk, ReadersOk, DataOk, MetaOk, HitOk, NotOlder;
      ObserversKept(s, t);
    }
  }

  lemma PrunedInv(s: State, step: Step)
    requires Inv(s)
    ensures Inv(Pruned(s, step))
  {
    var t := Pruned(s, step).(writer := s.writer);
    hide LogOk, FilesOk, WriterOk, HitsOk, HitOk, ReadersOk, ReaderOk, MetaOk, NotOlder;
    FilesOnlyRemoved(s, t);
    ObserversKept(s, t);
    WriterMoved(t, Pruned(s, step));
  }

  lemma WriterMoved(s: State, t: State)
    requires Inv(s) && t == s.(writer := t.writer) && (t.writer == s.writer || t.writer.Idle? || t.writer.Pruning?)
    ensures Inv(t)
  {
    hide HitsOk, ReadersOk;
    ObserversKept(s, t);
  }

  lemma MetaReadInv(s: State, r: nat, key: Key)
    requires Inv(s)
    ensures Inv(MetaRead(s, r, key))
  {
    hide LogOk, WriterOk, ReadersOk, HitsOk, HitOk, Cacheable;
    FilesOnlyRemoved(s, MetaRead(s, r, key));
    ObserversKept(s, MetaRead(s, r, key));
  }

  lemma DataReadInv(s: State, r: nat)
    requires Inv(s)
    ensures Inv(DataRead(s, r))
  {
    hide WriterOk, HitsOk;
    if r in s.readers && s.readers[r].HasMeta? {
      assert ReaderOk(s, s.readers[r]);
      var key := s.readers[r].key;
      if key in s.data { assert DataOk(s, key, s.data[key]); }
      FilesOnlyRemoved(s, DataRead(s, r));
      ObserversKept(s, DataRead(s, r));
    }
  }

  lemma PairDroppedInv(s: State, r: nat, works: bool)
    requires Inv(s)
    ensures Inv(PairDropped(s, r, works))
  {
    hide LogOk, FilesOk, WriterOk, HitsOk, HitOk, MetaOk, NotOlder;
    FilesOnlyRemoved(s, PairDropped(s, r, works));
    ObserversKept(s, PairDropped(s, r, works));
  }

  lemma InvStep(s: State, step: Step)
    requires Inv(s)
    ensures Inv(Apply(s, step))
  {
    hide Staging, DataReplaced, MetaReplaced, Pruned, MetaRead, DataRead, PairDropped, ReadersOk, HitsOk;
    match step
    case Stage(key, bytes, waited) => StagingInv(s, key, bytes, waited);
    case ReplaceData => DataReplacedInv(s);
    case ReplaceMeta => MetaReplacedInv(s);
    case ReadMeta(r, key) => MetaReadInv(s, r, key);
    case ReadData(r) => DataReadInv(s, r);
    case Unlink(r, works) => PairDroppedInv(s, r, works);
    case UnlinkVictimData(_, _) => PrunedInv(s, step);
    case UnlinkVictimMeta(_) => PrunedInv(s, step);
    case Unlock => PrunedInv(s, step);
    case Tick(_) => ObserversKept(s, Apply(s, step));
    case WriterFails => WriterMoved(s, Apply(s, step));
  }

  lemma {:induction false} InvRun(limits: Limits, clock: int, steps: seq<Step>)
    ensures Inv(Run(Initial(limits, clock), steps))
  {
    hide Apply;
    if steps != [] {
      InvRun(limits, clock, steps[..|steps| - 1]);
      InvStep(Run(Initial(limits, clock), steps[..|steps| - 1]), steps[|steps| - 1]);
    }
  }

  /** Main result: in every interleaving, a hit returns exactly the bytes of one `set` of the very key
    * asked for, no older than the `set` whose metadata vouched for them, and that metadata had not
    * expired when it was checked. Nothing torn, nothing of another key. */
  lemma HitsAreSets(limits: Limits, clock: int, steps: seq<Step>, hit: Hit)
    requires hit in Run(Initial(limits, clock), steps).hits
    ensures exists i, j ::
              var log := Run(Initial(limits, clock), steps).log;
              && 0 <= i <= j < |log|
              && log[j].key == hit.key && log[j].bytes == hit.bytes
              && log[i].key == hit.key && |log[i].bytes| == hit.meta.size && hit.checkedAt < log[i].time + limits.ttl
  {
    InvRun(limits, clock, steps);
    var s := Run(Initial(limits, clock), steps);
    LimitsKept(limits, clock, steps);
    assert HitOk(s, hit);
    assert 0 <= hit.meta.version <= hit.dataVersion < |s.log|;
  }

  lemma {:induction false} LimitsKept(limits: Limits, clock: int, steps: seq<Step>)
    ensures Run(Initial(limits, clock), steps).limits == limits
  {
    if steps != [] {
      LimitsKept(limits, clock, steps[..|steps| - 1]);
    }
  }

  /** The steps of a `set` up to its prune. */
  function Stored(s: State, key: Key, bytes: Bytes, waited: nat): State {
    Apply(Apply(Apply(s, Stage(key, bytes, waited)), ReplaceData), ReplaceMeta)
  }

  lemma StoredFiles(s: State, key: Key, bytes: Bytes, waited: nat)
    requires s.writer.Idle? && Cacheable(s.limits, key.start, key.end) && |bytes| == key.end - key.start + 1
    ensures var t := Stored(s, key, bytes, waited);
            && t.writer == Pruning(None) && t.readers == s.readers && t.clock == s.clock && t.limits == s.limits
            && key in t.data && key in t.meta && t.data[key].bytes == bytes
            && t.meta[key].size == |bytes| && t.meta[key].expiresAt == s.clock - waited + s.limits.ttl
  {
    hide Cacheable;
    var staged := Staging(s, key, bytes, waited);
    assert staged.log[staged.writer.version] == SetEvent(key, bytes, s.clock - waited);
  }

  /** The steps of a `get` that finds both files. */
  lemma AskedHits(s: State, key: Key, r: nat)
    requires r !in s.readers && Cacheable(s.limits, key.start, key.end) && key in s.data && key in s.meta
    requires s.meta[key].size == |s.data[key].bytes| && s.meta[key].expiresAt > s.clock
    ensures var t := Apply(Apply(s, ReadMeta(r, key)), ReadData(r));
            t.hits != [] && t.hits[|t.hits| - 1].key == key && t.hits[|t.hits| - 1].bytes == s.data[key].bytes
  {
    hide Cacheable;
  }

  /** The prune's steps on other keys. */
  function Evicting(s: State, victims: seq<(Key, bool, bool)>): State {
    if victims == [] then s
    else
      var v := victims[|victims| - 1];
      Apply(Apply(Evicting(s, victims[..|victims| - 1]), UnlinkVictimData(v.0, v.1)), UnlinkVictimMeta(v.2))
  }

  /** A `set` whose prune evicts other keys only, which BlobPrune says when it does, makes a `get` before
    * its lifetime is over hit with its bytes. */
  lemma KeptSetHits(s: State, key: Key, bytes: Bytes, waited: nat, victims: seq<(Key, bool, bool)>, seconds: nat,
                    r: nat)
    requires s.writer.Idle? && r !in s.readers
    requires Cacheable(s.limits, key.start, key.end) && |bytes| == key.end - key.start + 1
             && waited + seconds < s.limits.ttl
    requires forall v :: v in victims ==> v.0 != key
    ensures var left := Apply(Apply(Evicting(Stored(s, key, bytes, waited), victims), Unlock), Tick(seconds));
            var asked := Apply(Apply(left, ReadMeta(r, key)), ReadData(r));
            asked.hits != [] && asked.hits[|asked.hits| - 1].key == key && asked.hits[|asked.hits| - 1].bytes == bytes
  {
    hide Cacheable, Stored, Evicting;
    StoredFiles(s, key, bytes, waited);
    EvictingKeeps(Stored(s, key, bytes, waited), victims, key);
    AskedHits(Apply(Apply(Evicting(Stored(s, key, bytes, waited), victims), Unlock), Tick(seconds)), key, r);
  }

  lemma {:induction false} EvictingKeeps(s: State, victims: seq<(Key, bool, bool)>, key: Key)
    requires s.writer == Pruning(None) && key in s.data && key in s.meta && forall v :: v in victims ==> v.0 != key
    ensures var t := Evicting(s, victims);
            && t.writer == Pruning(None) && t.readers == s.readers
            && t.clock == s.clock && t.limits == s.limits && t.log == s.log
            && key in t.data && key in t.meta && t.data[key] == s.data[key] && t.meta[key] == s.meta[key]
  {
    if victims != [] {
      var init, v := victims[..|victims| - 1], victims[|victims| - 1];
      assert victims == init + [v];
      EvictingKeeps(s, init, key);
    }
  }
}
