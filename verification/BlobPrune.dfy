/** The cache object with no reader in between (src/immich_bridge/blob_cache.py, `get`, `set`, `_prune_locked`). */
module BlobPrune {
  import opened Wrappers
  import opened Ordering

  type Bytes = seq<nat>

  /** A data file and the time of its last use; a metadata file, or one that is no JSON object. */
  datatype DataFile = DataFile(bytes: Bytes, lastUsed: int)
  datatype MetaFile = Garbled | MetaFile(size: int, expiresAt: int)

  /** A prune candidate as its sort tuple; file names are digests, here numbers. */
  datatype Entry = Entry(lastUsed: int, size: int, key: nat)

  predicate EntryLess(a: Entry, b: Entry) {
    a.lastUsed < b.lastUsed
    || (a.lastUsed == b.lastUsed && (a.size < b.size || (a.size == b.size && a.key < b.key)))
  }

  /** Metadata that is well formed, unexpired, of positive size and not without its data. */
  predicate Fresh(data: map<nat, DataFile>, meta: map<nat, MetaFile>, now: int, key: nat) {
    key in meta && key in data && meta[key].MetaFile? && meta[key].expiresAt > now && meta[key].size > 0
  }

  function EntryOf(data: map<nat, DataFile>, meta: map<nat, MetaFile>, key: nat): Entry
    requires key in data && key in meta && meta[key].MetaFile?
  {
    Entry(data[key].lastUsed, meta[key].size, key)
  }

  function Total(entries: seq<Entry>): int {
    if entries == [] then 0 else entries[0].size + Total(entries[1..])
  }

  /** How many entries go, oldest use first: the fewest that bring the total under the cap. */
  function Evicted(entries: seq<Entry>, maxBytes: int): (n: nat)
    ensures n <= |entries|
  {
    if entries == [] || Total(entries) <= maxBytes then 0 else 1 + Evicted(entries[1..], maxBytes)
  }

  lemma {:induction false} EvictedIsLeast(entries: seq<Entry>, maxBytes: nat)
    ensures Total(entries[Evicted(entries, maxBytes)..]) <= maxBytes
    ensures forall k :: 0 <= k < Evicted(entries, maxBytes) ==> Total(entries[k..]) > maxBytes
  {
    var n := Evicted(entries, maxBytes);
    assert entries[0..] == entries;
    if n > 0 {
      EvictedIsLeast(entries[1..], maxBytes);
      assert entries[1..][n - 1..] == entries[n..];
      forall k | 0 <= k < n
        ensures Total(entries[k..]) > maxBytes
      {
        if k > 0 { assert entries[1..][k - 1..] == entries[k..]; }
      }
    }
  }

  /** The metadata of the keys kept; their data and the data no metadata mentions. */
  function KeptMeta(listed: map<nat, MetaFile>, keep: set<nat>): map<nat, MetaFile> {
    map k | k in listed && k in keep :: listed[k]
  }

  function KeptData(stored: map<nat, DataFile>, listed: map<nat, MetaFile>, keep: set<nat>): map<nat, DataFile> {
    map k | k in stored && (k in keep || k !in listed) :: stored[k]
  }

  lemma KeptAll(stored: map<nat, DataFile>, listed: map<nat, MetaFile>)
    ensures KeptMeta(listed, listed.Keys) == listed && KeptData(stored, listed, listed.Keys) == stored
  {
  }

  lemma KeptLess(stored: map<nat, DataFile>, listed: map<nat, MetaFile>, keep: set<nat>, key: nat)
    requires key in listed
    ensures KeptMeta(listed, keep) - {key} == KeptMeta(listed, keep - {key})
    ensures KeptData(stored, listed, keep) - {key} == KeptData(stored, listed, keep - {key})
  {
  }

  lemma KeptLookup(stored: map<nat, DataFile>, listed: map<nat, MetaFile>, keep: set<nat>, key: nat)
    requires key in listed && key in keep
    ensures key in KeptMeta(listed, keep) && KeptMeta(listed, keep)[key] == listed[key]
    ensures key in KeptData(stored, listed, keep) <==> key in stored
    ensures key in stored ==> KeptData(stored, listed, keep)[key] == stored[key]
  {
  }

  /** `entries` is the sorted list of exactly the fresh entries. */
  ghost predicate Candidates(data: map<nat, DataFile>, meta: map<nat, MetaFile>, now: int, entries: seq<Entry>) {
    && Strict(EntryLess, entries)
    && (forall e :: e in entries ==> Fresh(data, meta, now, e.key) && e == EntryOf(data, meta, e.key))
    && (forall key :: key in meta && Fresh(data, meta, now, key) ==> EntryOf(data, meta, key) in entries)
  }

  function Keys(entries: seq<Entry>): set<nat> { set e | e in entries :: e.key }

  lemma Orders()
    ensures StrictTotal(EntryLess)
  {
  }

  /** The sorted candidate list is unique, so survivors do not depend on the directory order. */
  lemma CandidatesUnique(data: map<nat, DataFile>, meta: map<nat, MetaFile>, now: int, a: seq<Entry>, b: seq<Entry>)
    requires Candidates(data, meta, now, a) && Candidates(data, meta, now, b)
    ensures a == b
  {
    Orders();
    forall e
      ensures e in a <==> e in b
    {
    }
    StrictUnique(EntryLess, a, b);
  }

  predicate DistinctKeys(entries: seq<Entry>) {
    forall i, j :: 0 <= i < j < |entries| ==> entries[i].key != entries[j].key
  }

  /** The scan so far: the fresh entries of all keys but the pending ones, each once. */
  ghost predicate Collected(data: map<nat, DataFile>, meta: map<nat, MetaFile>, now: int, entries: seq<Entry>,
                            pending: set<nat>) {
    && DistinctKeys(entries)
    && (forall e :: e in entries ==>
        e.key !in pending && Fresh(data, meta, now, e.key) && e == EntryOf(data, meta, e.key))
    && (forall key :: key in meta && Fresh(data, meta, now, key) && key !in pending ==>
        EntryOf(data, meta, key) in entries)
  }

  lemma CollectedNone(data: map<nat, DataFile>, meta: map<nat, MetaFile>, now: int)
    ensures Collected(data, meta, now, [], meta.Keys) && Total([]) == 0 && Keys([]) == {}
  {
  }

  lemma CollectedSkip(data: map<nat, DataFile>, meta: map<nat, MetaFile>, now: int, entries: seq<Entry>,
                      pending: set<nat>, key: nat)
    requires Collected(data, meta, now, entries, pending) && key in pending && !Fresh(data, meta, now, key)
    ensures Collected(data, meta, now, entries, pending - {key}) && key !in Keys(entries)
  {
  }

  lemma CollectedAdd(data: map<nat, DataFile>, meta: map<nat, MetaFile>, now: int, entries: seq<Entry>,
                     pending: set<nat>, key: nat)
    requires Collected(data, meta, now, entries, pending) && key in pending && Fresh(data, meta, now, key)
    ensures Collected(data, meta, now, entries + [EntryOf(data, meta, key)], pending - {key})
  {
    var more := entries + [EntryOf(data, meta, key)];
    assert forall e :: e in more <==> e in entries || e == EntryOf(data, meta, key);
    forall i, j | 0 <= i < j < |more|
      ensures more[i].key != more[j].key
    {
      assert more[i] in entries;
    }
  }

  /** The sizes listed, added up. */
  ghost function MetaTotal(meta: map<nat, MetaFile>): int
    decreases meta.Keys
  {
    if meta.Keys == {} then 0
    else
      var key :| key in meta;
      SizeOf(meta[key]) + MetaTotal(meta - {key})
  }

  function SizeOf(f: MetaFile): int { if f.Garbled? then 0 else f.size }

  lemma {:induction false} MetaTotalRemoves(meta: map<nat, MetaFile>, key: nat)
    requires key in meta
    ensures MetaTotal(meta) == SizeOf(meta[key]) + MetaTotal(meta - {key})
    decreases meta.Keys
  {
    var first :| first in meta && MetaTotal(meta) == SizeOf(meta[first]) + MetaTotal(meta - {first});
    if first != key {
      MetaTotalRemoves(meta - {first}, key);
      MetaTotalRemoves(meta - {key}, first);
      assert meta - {first} - {key} == meta - {key} - {first};
    }
  }

  lemma {:induction false} MetaTotalIs(meta: map<nat, MetaFile>, entries: seq<Entry>)
    requires DistinctKeys(entries) && Keys(entries) == meta.Keys
    requires forall e :: e in entries ==> e.key in meta && SizeOf(meta[e.key]) == e.size
    ensures MetaTotal(meta) == Total(entries)
  {
    hide MetaTotal;
    if entries == [] {
      NothingListed(meta);
    } else {
      var e := entries[0];
      assert e in entries;
      KeysStep(entries, 0);
      assert entries[0..] == entries;
      MetaTotalRemoves(meta, e.key);
      OthersListed(meta, entries);
      MetaTotalIs(meta - {e.key}, entries[1..]);
    }
  }

  lemma NothingListed(meta: map<nat, MetaFile>)
    requires Keys([]) == meta.Keys
    ensures MetaTotal(meta) == 0
  {
  }

  lemma OthersListed(meta: map<nat, MetaFile>, entries: seq<Entry>)
    requires entries != [] && DistinctKeys(entries)
    requires forall e :: e in entries ==> e.key in meta && SizeOf(meta[e.key]) == e.size
    ensures DistinctKeys(entries[1..])
    ensures forall e :: e in entries[1..] ==> e.key in meta - {entries[0].key} && SizeOf(meta[e.key]) == e.size
  {
    forall e | e in entries[1..]
      ensures e in entries && e.key != entries[0].key
    {
      var i :| 0 <= i < |entries[1..]| && entries[1..][i] == e;
      assert entries[i + 1] == e;
    }
  }

  lemma CandidateKeys(data: map<nat, DataFile>, meta: map<nat, MetaFile>, now: int, entries: seq<Entry>)
    requires Candidates(data, meta, now, entries)
    ensures DistinctKeys(entries) && forall i :: 0 <= i < |entries| ==> entries[i].size > 0
  {
    forall i | 0 <= i < |entries|
      ensures entries[i].size > 0
    {
      assert entries[i] in entries;
    }
    forall i, j | 0 <= i < j < |entries|
      ensures entries[i].key != entries[j].key
    {
      assert entries[i] in entries && entries[j] in entries && EntryLess(entries[i], entries[j]);
    }
  }

  /** Where the key stands among the candidates; their number when it is none. */
  function PlaceOf(entries: seq<Entry>, key: nat): (n: nat)
    ensures n <= |entries|
    ensures n < |entries| ==> entries[n].key == key
    ensures n == |entries| ==> forall i :: 0 <= i < |entries| ==> entries[i].key != key
  {
    if entries == [] || entries[0].key == key then 0
    else
      assert forall i :: 0 < i < |entries| ==> entries[i] == entries[1..][i - 1];
      1 + PlaceOf(entries[1..], key)
  }

  lemma {:induction false} LaterIsLess(entries: seq<Entry>, i: nat, j: nat)
    requires i <= j <= |entries| && forall k :: 0 <= k < |entries| ==> entries[k].size > 0
    ensures Total(entries[j..]) <= Total(entries[i..])
    decreases j - i
  {
    if i < j {
      assert entries[i..][1..] == entries[i + 1..];
      LaterIsLess(entries, i + 1, j);
    }
  }

  /** Who survives a prune, exactly: a fresh entry whose size and those of all entries used after it
    * fit the cap together. */
  lemma SurvivesIff(data: map<nat, DataFile>, meta: map<nat, MetaFile>, now: int, candidates: seq<Entry>, maxBytes: nat,
                    key: nat)
    requires Candidates(data, meta, now, candidates)
    ensures key in Keys(candidates[Evicted(candidates, maxBytes)..])
       <==> Fresh(data, meta, now, key) && Total(candidates[PlaceOf(candidates, key)..]) <= maxBytes
  {
    CandidateKeys(data, meta, now, candidates);
    EvictedIsLeast(candidates, maxBytes);
    var n, place := Evicted(candidates, maxBytes), PlaceOf(candidates, key);
    hide Evicted, Total, PlaceOf, EntryLess;
    if Fresh(data, meta, now, key) {
      assert EntryOf(data, meta, key) in candidates;
      assert place < |candidates|;
    }
    if place < |candidates| {
      assert candidates[place] in candidates;
      if n <= place {
        LaterIsLess(candidates, n, place);
        assert candidates[n..][place - n] == candidates[place];
        assert candidates[place] in candidates[n..];
      }
    }
    forall e | e in candidates[n..] && e.key == key
      ensures n <= place < |candidates|
    {
      var i :| 0 <= i < |candidates[n..]| && candidates[n..][i] == e;
      assert candidates[n + i].key == candidates[place].key;
    }
  }

  lemma SurvivorsFit(data: map<nat, DataFile>, meta: map<nat, MetaFile>, now: int, candidates: seq<Entry>,
                     maxBytes: nat)
    requires Candidates(data, meta, now, candidates)
    ensures MetaTotal(KeptMeta(meta, Keys(candidates[Evicted(candidates, maxBytes)..]))) <= maxBytes
  {
    hide EntryLess, Fresh, Total, Evicted, MetaTotal;
    CandidateKeys(data, meta, now, candidates);
    EvictedIsLeast(candidates, maxBytes);
    var kept := candidates[Evicted(candidates, maxBytes)..];
    forall e | e in kept
      ensures e in candidates && e.key in meta && SizeOf(meta[e.key]) == e.size
    {
      assert Fresh(data, meta, now, e.key);
      FreshListed(data, meta, now, e.key);
    }
    assert KeptMeta(meta, Keys(kept)).Keys == Keys(kept);
    MetaTotalIs(KeptMeta(meta, Keys(kept)), kept);
  }

  lemma FreshListed(data: map<nat, DataFile>, meta: map<nat, MetaFile>, now: int, key: nat)
    requires Fresh(data, meta, now, key)
    ensures key in meta && key in data && meta[key].MetaFile? && SizeOf(meta[key]) == EntryOf(data, meta, key).size
  {
  }

  /** What `get` answers. */
  function Served(data: map<nat, DataFile>, meta: map<nat, MetaFile>, key: nat, now: int): Option<Bytes> {
    if key in meta && meta[key].MetaFile? && meta[key].expiresAt > now && key in data
      && |data[key].bytes| == meta[key].size
    then Some(data[key].bytes)
    else None
  }

  /** A `get` after a `set` and its prune, within the lifetime, hits with the bytes stored if and only if
    * they and everything used after them fit the cap together. */
  lemma SetThenGet(stored: map<nat, DataFile>, listed: map<nat, MetaFile>, now: int, candidates: seq<Entry>,
                   maxBytes: nat, key: nat, later: int)
    requires key in stored && listed.Keys >= {key} && listed[key].MetaFile?
             && listed[key].size == |stored[key].bytes| > 0
    requires Candidates(stored, listed, now, candidates) && now <= later < listed[key].expiresAt
    ensures var kept := Keys(candidates[Evicted(candidates, maxBytes)..]);
            Served(KeptData(stored, listed, kept), KeptMeta(listed, kept), key, later)
            == if Total(candidates[PlaceOf(candidates, key)..]) <= maxBytes then Some(stored[key].bytes) else None
  {
    hide Evicted, Total, PlaceOf, Candidates;
    SurvivesIff(stored, listed, now, candidates, maxBytes, key);
  }

  /** So a range larger than the whole cap never stays, and one used last stays if it fits alone. */
  lemma LastPlaceFits(candidates: seq<Entry>, key: nat, maxBytes: nat)
    requires PlaceOf(candidates, key) < |candidates| && forall k :: 0 <= k < |candidates| ==> candidates[k].size > 0
    ensures candidates[PlaceOf(candidates, key)].size > maxBytes ==>
              Total(candidates[PlaceOf(candidates, key)..]) > maxBytes
    ensures PlaceOf(candidates, key) == |candidates| - 1 ==>
              Total(candidates[PlaceOf(candidates, key)..]) == candidates[PlaceOf(candidates, key)].size
  {
    var place := PlaceOf(candidates, key);
    assert candidates[place..][1..] == candidates[place + 1..];
    LaterIsLess(candidates, place + 1, |candidates|);
  }

  class BlobStore {
    const maxBytes: nat
    const maxRangeBytes: nat
    const ttl: nat
    var data: map<nat, DataFile>
    var meta: map<nat, MetaFile>

    constructor (maxBytes: int, maxRangeBytes: int, ttl: int)
      ensures this.maxBytes == (if maxBytes > 0 then maxBytes else 0)
      ensures this.maxRangeBytes == (if maxRangeBytes > 0 then maxRangeBytes else 0)
      ensures this.ttl == (if ttl > 0 then ttl else 0)
      ensures data == map[] && meta == map[]
    {
      this.maxBytes := if maxBytes > 0 then maxBytes else 0;
      this.maxRangeBytes := if maxRangeBytes > 0 then maxRangeBytes else 0;
      this.ttl := if ttl > 0 then ttl else 0;
      data, meta := map[], map[];
    }

    predicate Cacheable(start: int, end: int) {
      maxBytes > 0 && maxRangeBytes > 0 && ttl > 0 && 0 <= start <= end && end - start + 1 <= maxRangeBytes
    }

    /** Both files of a key, if there. */
    method DeletePair(key: nat)
      modifies this
      ensures data == old(data) - {key} && meta == old(meta) - {key}
    {
      data := data - {key};
      meta := meta - {key};
    }

    /** `get`: the bytes of a fresh, complete pair; what misses is deleted, what hits was used now. */
    method Get(key: nat, start: int, end: int, now: int) returns (hit: Option<Bytes>)
      modifies this
      ensures hit == (if Cacheable(start, end) then Served(old(data), old(meta), key, now) else None)
      ensures !Cacheable(start, end) ==> data == old(data) && meta == old(meta)
      ensures Cacheable(start, end) && hit.None? ==> data == old(data) - {key} && meta == old(meta) - {key}
      ensures hit.Some? ==> data == old(data)[key := DataFile(hit.value, now)] && meta == old(meta)
    {
      if !Cacheable(start, end) {
        return None;
      }
      if key !in meta || meta[key].Garbled? || meta[key].expiresAt <= now {
        DeletePair(key);
        return None;
      }
      if key !in data || |data[key].bytes| != meta[key].size {
        DeletePair(key);
        return None;
      }
      data := data[key := data[key].(lastUsed := now)];
      return Some(data[key].bytes);
    }

    /** `set`, asked at one time and holding the lock at a later one: nothing for a range that is not
      * cacheable or complete; else the pair is stored and the cache pruned. */
    method Set(key: nat, start: int, end: int, bytes: Bytes, asked: int, now: int)
      returns (ghost candidates: seq<Entry>)
      requires asked <= now
      modifies this
      ensures !Cacheable(start, end) || |bytes| != end - start + 1 ==> data == old(data) && meta == old(meta)
      ensures Cacheable(start, end) && |bytes| == end - start + 1 ==>
                var stored := old(data)[key := DataFile(bytes, now)];
                var listed := old(meta)[key := MetaFile(|bytes|, asked + ttl)];
                && Candidates(stored, listed, now, candidates) && PrunedFrom(stored, listed, candidates)
                && MetaTotal(meta) <= maxBytes
                && (key in meta <==> asked + ttl > now && Total(candidates[PlaceOf(candidates, key)..]) <= maxBytes)
    {
      candidates := [];
      if !Cacheable(start, end) || |bytes| != end - start + 1 {
        return;
      }
      data := data[key := DataFile(bytes, now)];
      meta := meta[key := MetaFile(|bytes|, asked + ttl)];
      ghost var stored, listed := data, meta;
      candidates := Prune(now);
      SurvivesIff(stored, listed, now, candidates, maxBytes, key);
    }

    /** What prune leaves of the files: the candidates but for the fewest least recently used, and
      * data files no metadata mentions. */
    ghost predicate PrunedFrom(stored: map<nat, DataFile>, listed: map<nat, MetaFile>, candidates: seq<Entry>)
      reads this
    {
      var survivors := Keys(candidates[Evicted(candidates, maxBytes)..]);
      meta == KeptMeta(listed, survivors) && data == KeptData(stored, listed, survivors)
    }

    /** The scan of `_prune_locked`: what is not fresh is deleted, the rest is collected. */
    method Scan(now: int) returns (entries: seq<Entry>, total: int)
      modifies this
      ensures total == Total(entries) && Collected(old(data), old(meta), now, entries, {})
      ensures meta == KeptMeta(old(meta), Keys(entries)) && data == KeptData(old(data), old(meta), Keys(entries))
    {
      hide KeptMeta, KeptData, Collected, Total, Keys;
      ghost var data0, meta0 := data, meta;
      CollectedNone(data, meta, now);
      entries := [];
      total := 0;
      var pending := meta.Keys;
      ghost var keep := pending;
      KeptAll(data, meta);
      while pending != {}
        invariant pending <= meta0.Keys && keep == pending + Keys(entries)
        invariant total == Total(entries) && Collected(data0, meta0, now, entries, pending)
        invariant meta == KeptMeta(meta0, keep) && data == KeptData(data0, meta0, keep)
        decreases |pending|
      {
        var key :| key in pending;
        KeptLookup(data0, meta0, keep, key);
        if meta[key].Garbled? || key !in data || meta[key].expiresAt <= now || meta[key].size <= 0 {
          KeptLess(data0, meta0, keep, key);
          CollectedSkip(data0, meta0, now, entries, pending, key);
          DeletePair(key);
          keep := keep - {key};
        } else {
          var entry := Entry(data[key].lastUsed, meta[key].size, key);
          TotalMore(entries, entry);
          KeysMore(entries, entry);
          CollectedAdd(data0, meta0, now, entries, pending, key);
          entries := entries + [entry];
          total := total + meta[key].size;
        }
        pending := pending - {key};
      }
      assert keep == Keys(entries);
    }

    /** The second loop of `_prune_locked`: delete in order of last use until the rest fits. */
    method Evict(sorted: seq<Entry>, total: int, ghost stored: map<nat, DataFile>, ghost listed: map<nat, MetaFile>)
      requires total == Total(sorted) && DistinctKeys(sorted)
      requires forall e :: e in sorted ==> e.key in listed
      requires meta == KeptMeta(listed, Keys(sorted)) && data == KeptData(stored, listed, Keys(sorted))
      modifies this
      ensures var kept := Keys(sorted[Evicted(sorted, maxBytes)..]);
              meta == KeptMeta(listed, kept) && data == KeptData(stored, listed, kept)
    {
      hide KeptMeta, KeptData;
      var left, i := total, 0;
      assert sorted[0..] == sorted;
      while i < |sorted| && left > maxBytes
        invariant 0 <= i <= |sorted| && left == Total(sorted[i..])
        invariant Evicted(sorted, maxBytes) == i + Evicted(sorted[i..], maxBytes)
        invariant meta == KeptMeta(listed, Keys(sorted[i..])) && data == KeptData(stored, listed, Keys(sorted[i..]))
      {
        var entry := sorted[i];
        KeysStep(sorted, i);
        KeptLess(stored, listed, Keys(sorted[i..]), entry.key);
        DeletePair(entry.key);
        left := left - entry.size;
        assert sorted[i..][1..] == sorted[i + 1..];
        i := i + 1;
      }
    }

    /** `_prune_locked`: drop what is not fresh, then the oldest until the rest fits; what is listed
      * then is within the cap. */
    method Prune(now: int) returns (ghost candidates: seq<Entry>)
      modifies this
      ensures Candidates(old(data), old(meta), now, candidates)
      ensures PrunedFrom(old(data), old(meta), candidates)
      ensures MetaTotal(meta) <= maxBytes
    {
      var entries, total := Scan(now);
      var sorted := Distinct(EntryLess, entries);
      Orders();
      DistinctStrict(EntryLess, entries);
      SortedTotal(entries);
      SortedKeys(entries);
      candidates := sorted;
      Evict(sorted, total, old(data), old(meta));
      SurvivorsFit(old(data), old(meta), now, candidates, maxBytes);
    }
  }

  lemma KeysMore(entries: seq<Entry>, e: Entry)
    ensures Keys(entries + [e]) == Keys(entries) + {e.key}
  {
    assert forall x :: x in entries + [e] <==> x in entries || x == e;
  }

  lemma SortedKeys(entries: seq<Entry>)
    requires DistinctKeys(entries)
    ensures Keys(Distinct(EntryLess, entries)) == Keys(entries)
    ensures DistinctKeys(Distinct(EntryLess, entries))
  {
    var sorted := Distinct(EntryLess, entries);
    Orders();
    DistinctStrict(EntryLess, entries);
    forall i, j | 0 <= i < j < |sorted|
      ensures sorted[i].key != sorted[j].key
    {
      assert sorted[i] in entries && sorted[j] in entries;
      assert EntryLess(sorted[i], sorted[j]);
      var a :| 0 <= a < |entries| && entries[a] == sorted[i];
      var b :| 0 <= b < |entries| && entries[b] == sorted[j];
    }
  }

  lemma {:induction false} TotalMore(entries: seq<Entry>, e: Entry)
    ensures Total(entries + [e]) == Total(entries) + e.size
  {
    if entries == [] {
      assert [e][1..] == [];
    } else {
      assert (entries + [e])[1..] == entries[1..] + [e];
      TotalMore(entries[1..], e);
    }
  }

  lemma {:induction false} PlacedTotal(e: Entry, s: seq<Entry>)
    requires e !in s
    ensures Total(Placed(EntryLess, e, s)) == Total(s) + e.size
  {
    if s != [] && !EntryLess(e, s[0]) {
      assert e != s[0] && e !in s[1..];
      PlacedTotal(e, s[1..]);
      assert Placed(EntryLess, e, s)[1..] == Placed(EntryLess, e, s[1..]);
    } else {
      assert Placed(EntryLess, e, s)[1..] == s;
    }
  }

  /** Sorting keeps the total. */
  lemma {:induction false} SortedTotal(entries: seq<Entry>)
    requires DistinctKeys(entries)
    ensures Total(Distinct(EntryLess, entries)) == Total(entries)
  {
    if entries != [] {
      SortedTotal(entries[1..]);
      assert entries[0] !in entries[1..];
      PlacedTotal(entries[0], Distinct(EntryLess, entries[1..]));
    }
  }

  lemma KeysStep(sorted: seq<Entry>, i: nat)
    requires i < |sorted| && DistinctKeys(sorted)
    ensures Keys(sorted[i..]) - {sorted[i].key} == Keys(sorted[i + 1..])
  {
    assert sorted[i..] == [sorted[i]] + sorted[i + 1..];
    forall e | e in sorted[i + 1..]
      ensures e.key != sorted[i].key
    {
      var j :| 0 <= j < |sorted[i + 1..]| && sorted[i + 1..][j] == e;
      assert e == sorted[i + 1 + j];
    }
  }
}
