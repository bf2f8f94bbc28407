/** The byte-range cache under the streams: what `open_original` stores is what it may later be served. */
module CachedOriginals {
  import opened BlobInterleaving
  import Streams

  /** Every `set` stores a range that `open_original` handed it: that slice of the key's original. */
  predicate StoresSlices(steps: seq<Step>, origin: (string, string) -> Bytes) {
    forall step :: step in steps && step.Stage? ==>
      Streams.SliceOf(origin(step.key.namespace, step.key.assetId), step.key.start, step.key.end, step.bytes)
  }

  lemma {:induction false} LogIsStaged(limits: Limits, clock: int, steps: seq<Step>, origin: (string, string) -> Bytes)
    requires StoresSlices(steps, origin)
    ensures forall e :: e in Run(Initial(limits, clock), steps).log ==>
              Streams.SliceOf(origin(e.key.namespace, e.key.assetId), e.key.start, e.key.end, e.bytes)
  {
    if steps != [] {
      var init, last := steps[..|steps| - 1], steps[|steps| - 1];
      assert last in steps && forall step :: step in init ==> step in steps;
      LogIsStaged(limits, clock, init, origin);
      LogGrowsByStage(Run(Initial(limits, clock), init), last);
    }
  }

  lemma LogGrowsByStage(s: State, step: Step)
    ensures forall e :: e in Apply(s, step).log ==>
              e in s.log || (step.Stage? && e.key == step.key && e.bytes == step.bytes)
  {
  }

  /** In every interleaving of readers with one writer, when each `set` stores what `open_original` read of
    * an original that does not change, each hit is what `open_original` asks of one: the slice of the
    * original from start to end. */
  lemma StoredThenServed(limits: Limits, clock: int, steps: seq<Step>, hit: Hit, origin: (string, string) -> Bytes)
    requires StoresSlices(steps, origin) && hit in Run(Initial(limits, clock), steps).hits
    ensures Streams.SliceOf(origin(hit.key.namespace, hit.key.assetId), hit.key.start, hit.key.end, hit.bytes)
  {
    hide Run;
    LogIsStaged(limits, clock, steps, origin);
    HitsAreSets(limits, clock, steps, hit);
    var log := Run(Initial(limits, clock), steps).log;
    var j :| 0 <= j < |log| && log[j].key == hit.key && log[j].bytes == hit.bytes;
    assert log[j] in log;
  }
}
