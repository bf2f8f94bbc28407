/** Basic authentication with a fixed-window failure counter (src/immich_bridge/webdav_auth.py). */
module AuthLimiter {
  import opened Wrappers
  import opened CacheStore

  /** Limits of the authenticator; a limit of 0 or less switches the counter off. */
  datatype Config = Config(limit: int, window: nat, identityTtl: nat)

  datatype Outcome = RateLimited | Failed | Accepted(userId: string)

  /** One attempt: whose failures it counts to (a digest of address and folded name), the API key and
    * its digest, what upstream validation would answer, the time of the checks and of the record. */
  datatype Attempt = Attempt(source: string, password: string, keyDigest: string, upstream: Option<string>, now: int,
                             later: int)

  function FailureKey(source: string): string { "auth-fail:" + source }

  function IdentityKey(digest: string): string { "auth:" + digest }

  function Failures(items: Items, source: string, now: int): int {
    match Got(items, FailureKey(source), now)
    case Some(Count(n)) => n
    case _ => 0
  }

  predicate Limited(c: Config, items: Items, a: Attempt) { c.limit > 0 && Failures(items, a.source, a.now) >= c.limit }

  /** The table after the rate check and, unless refused, the identity lookup. */
  function Checked(c: Config, items: Items, a: Attempt): Items {
    if c.limit > 0 then AfterGet(items, FailureKey(a.source), a.now) else items
  }

  function CachedIdentity(items: Items, a: Attempt): Option<string> {
    match Got(items, IdentityKey(a.keyDigest), a.now)
    case Some(Identity(userId)) => if userId == "" then None else Some(userId)
    case _ => None
  }

  function Recorded(c: Config, items: Items, a: Attempt): Items {
    if c.limit > 0 then AfterIncrement(items, FailureKey(a.source), c.window, a.later) else items
  }

  /** Whether the attempt asks upstream to validate the key. */
  predicate Validates(c: Config, items: Items, a: Attempt) {
    !Limited(c, items, a) && a.password != "" && CachedIdentity(Checked(c, items, a), a).None?
  }

  predicate Fails(c: Config, items: Items, a: Attempt) {
    !Limited(c, items, a) && (a.password == "" || (Validates(c, items, a) && a.upstream.None?))
  }

  function Result(c: Config, items: Items, a: Attempt): Outcome {
    if Limited(c, items, a) then RateLimited
    else if Fails(c, items, a) then Failed
    else if Validates(c, items, a) then Accepted(a.upstream.value)
    else Accepted(CachedIdentity(Checked(c, items, a), a).value)
  }

  function After(c: Config, items: Items, a: Attempt): Items {
    var checked := Checked(c, items, a);
    if Limited(c, items, a) then checked
    else if a.password == "" then Recorded(c, checked, a)
    else
      var looked := AfterGet(checked, IdentityKey(a.keyDigest), a.now);
      if CachedIdentity(checked, a).Some? then looked
      else if a.upstream.None? then Recorded(c, looked, a)
      else AfterSet(looked, IdentityKey(a.keyDigest), Identity(a.upstream.value), c.identityTtl, a.later)
  }

  /** `basic_auth_user`; `validated` says that upstream was asked. */
  method BasicAuthUser(cache: InMemoryCache, c: Config, a: Attempt) returns (outcome: Outcome, validated: bool)
    modifies cache
    ensures outcome == Result(c, old(cache.items), a) && validated == Validates(c, old(cache.items), a)
    ensures cache.items == After(c, old(cache.items), a)
  {
    validated := false;
    if c.limit > 0 {
      var count := cache.GetInt(FailureKey(a.source), a.now);
      if count.GetOr(0) >= c.limit {
        return RateLimited, false;
      }
    }
    if a.password == "" {
      if c.limit > 0 {
        var _ := cache.IncrementWithTtl(FailureKey(a.source), c.window, a.later);
      }
      return Failed, false;
    }
    var cached := cache.GetJson(IdentityKey(a.keyDigest), a.now);
    if cached.Some? && cached.value.Identity? && cached.value.userId != "" {
      return Accepted(cached.value.userId), false;
    }
    validated := true;
    if a.upstream.None? {
      if c.limit > 0 {
        var _ := cache.IncrementWithTtl(FailureKey(a.source), c.window, a.later);
      }
      return Failed, true;
    }
    cache.SetJson(IdentityKey(a.keyDigest), Identity(a.upstream.value), c.identityTtl, a.later);
    return Accepted(a.upstream.value), true;
  }

  // ---------- runs, one attempt after another ----------

  /** A failure on record: whose, when, and the end of the window it fell in. */
  datatype FailureRecord = FailureRecord(source: string, at: int, windowEnd: int)

  datatype State = State(items: Items, clock: int, failures: seq<FailureRecord>)

  function Initial(clock: int): State { State(map[], clock, []) }

  /** The end of the window a failure recorded now falls in. */
  function WindowEnd(c: Config, items: Items, source: string, later: int): int {
    AfterIncrement(items, FailureKey(source), c.window, later)[FailureKey(source)].expiresAt
  }

  function Apply(c: Config, s: State, a: Attempt): State {
    State(After(c, s.items, a), a.later,
      if c.limit > 0 && Fails(c, s.items, a) then
        s.failures + [FailureRecord(a.source, a.later, WindowEnd(c, Checked(c, s.items, a), a.source, a.later))]
      else s.failures)
  }

  function Run(c: Config, s: State, attempts: seq<Attempt>): State {
    if attempts == [] then s else Apply(c, Run(c, s, attempts[..|attempts| - 1]), attempts[|attempts| - 1])
  }

  /** The clock never goes back: each attempt's checks follow the record of the one before. */
  predicate Timed(clock: int, attempts: seq<Attempt>) {
    && (forall i :: 0 <= i < |attempts| ==> clock <= attempts[i].now <= attempts[i].later)
    && (forall i :: 0 < i < |attempts| ==> attempts[i - 1].later <= attempts[i].now)
  }

  /** Failures on record for a source in the window with that end. */
  function InWindow(failures: seq<FailureRecord>, source: string, windowEnd: int): nat {
    if failures == [] then 0
    else
      var last := failures[|failures| - 1];
      InWindow(failures[..|failures| - 1], source, windowEnd)
      + (if last.source == source && last.windowEnd == windowEnd then 1 else 0)
  }

  lemma {:induction false} NoneInWindow(failures: seq<FailureRecord>, source: string, windowEnd: int)
    requires forall f :: f in failures && f.source == source ==> f.windowEnd != windowEnd
    ensures InWindow(failures, source, windowEnd) == 0
  {
    if failures != [] { NoneInWindow(failures[..|failures| - 1], source, windowEnd); }
  }

  lemma OneMore(failures: seq<FailureRecord>, f: FailureRecord, source: string, windowEnd: int)
    ensures InWindow(failures + [f], source, windowEnd)
         == InWindow(failures, source, windowEnd) + (if f.source == source && f.windowEnd == windowEnd then 1 else 0)
  {
    assert (failures + [f])[..|failures|] == failures;
  }

  /** The counter of a source: the failures of the window that ends when it expires. */
  predicate CounterOk(c: Config, s: State, source: string) {
    var key := FailureKey(source);
    key in s.items ==>
      && s.items[key].value.Count?
      && s.items[key].value.count == InWindow(s.failures, source, s.items[key].expiresAt)
      && s.items[key].expiresAt - c.window <= s.clock
  }

  /** A failure's window is the counter's, or was over before the counter's opened. */
  predicate Closed(c: Config, f: FailureRecord, expiresAt: int) {
    f.windowEnd == expiresAt || f.windowEnd < expiresAt - c.window
  }

  ghost predicate Inv(c: Config, s: State) {
    && (forall source :: CounterOk(c, s, source))
    && (forall source, end :: InWindow(s.failures, source, end) <= c.limit)
    && (forall f :: f in s.failures ==> f.windowEnd - c.window <= f.at <= f.windowEnd && f.at <= s.clock)
    && (forall f :: f in s.failures ==>
          var key := FailureKey(f.source);
          if key in s.items then Closed(c, f, s.items[key].expiresAt) else f.windowEnd < s.clock)
  }

  lemma KeysApart(a: string, b: string)
    ensures FailureKey(a) != IdentityKey(b)
    ensures FailureKey(a) == FailureKey(b) ==> a == b
  {
    assert FailureKey(a)[4] == '-' && IdentityKey(b)[4] == ':';
    assert FailureKey(a)[10..] == a && FailureKey(b)[10..] == b;
  }

  /** The table after an attempt, at any failure key. */
  lemma CounterAfter(c: Config, s: State, a: Attempt, source: string)
    requires c.limit > 0
    ensures var key := FailureKey(source);
            var kept := AfterGet(s.items, FailureKey(a.source), a.now);
            var after := After(c, s.items, a);
            if source == a.source && Fails(c, s.items, a) then
              key in after && after[key] == AfterIncrement(kept, key, c.window, a.later)[key]
            else (key in after <==> key in kept) && (key in kept ==> after[key] == kept[key])
  {
    KeysApart(source, a.keyDigest);
    KeysApart(source, a.source);
    hide FailureKey, IdentityKey;
  }

  lemma IncrementOk(c: Config, s: State, a: Attempt)
    requires c.limit > 0 && Inv(c, s) && s.clock <= a.now <= a.later && Fails(c, s.items, a)
    ensures var kept := AfterGet(s.items, FailureKey(a.source), a.now);
            var entry := AfterIncrement(kept, FailureKey(a.source), c.window, a.later)[FailureKey(a.source)];
            && entry.value == Count(InWindow(s.failures, a.source, entry.expiresAt) + 1)
            && InWindow(s.failures, a.source, entry.expiresAt) < c.limit
            && entry.expiresAt - c.window <= a.later <= entry.expiresAt
            && (forall f :: f in s.failures && f.source == a.source ==> Closed(c, f, entry.expiresAt))
  {
    hide FailureKey, IdentityKey, Validates;
    assert CounterOk(c, s, a.source);
    var key := FailureKey(a.source);
    var kept := AfterGet(s.items, key, a.now);
    if !Alive(kept, key, a.later) {
      NoneInWindow(s.failures, a.source, a.later + c.window);
    }
  }

  lemma InvStep(c: Config, s: State, a: Attempt)
    requires c.limit > 0 && Inv(c, s) && s.clock <= a.now <= a.later
    ensures Inv(c, Apply(c, s, a))
  {
    var t := Apply(c, s, a);
    var key := FailureKey(a.source);
    if Fails(c, s.items, a) {
      IncrementOk(c, s, a);
      CounterAfter(c, s, a, a.source);
    }
    hide After, Fails, AfterIncrement, FailureKey, InWindow;
    forall source
      ensures CounterOk(c, t, source)
    {
      CounterAfter(c, s, a, source);
      assert CounterOk(c, s, source);
      if Fails(c, s.items, a) { OneMore(s.failures, t.failures[|s.failures|], source, t.items[key].expiresAt); }
      if Fails(c, s.items, a) && FailureKey(source) in s.items {
        OneMore(s.failures, t.failures[|s.failures|], source, s.items[FailureKey(source)].expiresAt);
      }
    }
    forall source, end
      ensures InWindow(t.failures, source, end) <= c.limit
    {
      if Fails(c, s.items, a) { OneMore(s.failures, t.failures[|s.failures|], source, end); }
    }
    forall f | f in t.failures
      ensures f.windowEnd - c.window <= f.at <= f.windowEnd && f.at <= t.clock
      ensures if FailureKey(f.source) in t.items then Closed(c, f, t.items[FailureKey(f.source)].expiresAt)
              else f.windowEnd < t.clock
    {
      CounterAfter(c, s, a, f.source);
    }
  }

  lemma {:induction false} InvRun(c: Config, clock: int, attempts: seq<Attempt>)
    requires c.limit > 0 && Timed(clock, attempts)
    ensures Inv(c, Run(c, Initial(clock), attempts))
    ensures Run(c, Initial(clock), attempts).clock == if attempts == [] then clock else attempts[|attempts| - 1].later
  {
    hide After, Fails, FailureKey;
    if attempts != [] {
      InvRun(c, clock, attempts[..|attempts| - 1]);
      InvStep(c, Run(c, Initial(clock), attempts[..|attempts| - 1]), attempts[|attempts| - 1]);
    }
  }

  /** Main result, for any sequential run: at most `limit` failures are recorded in one window; an
    * attempt is refused exactly when the source's open window has `limit` failures on record; and
    * then upstream is not asked, however good the key. */
  lemma FixedWindow(c: Config, clock: int, attempts: seq<Attempt>, next: Attempt)
    requires c.limit > 0 && Timed(clock, attempts + [next])
    ensures var s := Run(c, Initial(clock), attempts);
            && (forall source, end :: InWindow(s.failures, source, end) <= c.limit)
            && (forall f :: f in s.failures ==> f.windowEnd - c.window <= f.at <= f.windowEnd)
            && (Result(c, s.items, next) == RateLimited
                <==> exists f :: f in s.failures && f.source == next.source && next.now <= f.windowEnd
                               && InWindow(s.failures, next.source, f.windowEnd) == c.limit)
            && (Result(c, s.items, next) == RateLimited ==> !Validates(c, s.items, next))
  {
    hide Run, FailureKey, IdentityKey, InWindow;
    TimedSplit(clock, attempts, next);
    InvRun(c, clock, attempts);
    LimitedExactly(c, Run(c, Initial(clock), attempts), next);
  }

  lemma TimedSplit(clock: int, attempts: seq<Attempt>, next: Attempt)
    requires Timed(clock, attempts + [next])
    ensures Timed(clock, attempts)
    ensures (if attempts == [] then clock else attempts[|attempts| - 1].later) <= next.now
  {
    assert forall i :: 0 <= i < |attempts| ==> (attempts + [next])[i] == attempts[i];
    assert (attempts + [next])[|attempts|] == next;
  }

  /** An attempt is refused exactly for a full window still open, and before upstream is asked. */
  lemma LimitedExactly(c: Config, s: State, next: Attempt)
    requires c.limit > 0 && Inv(c, s) && s.clock <= next.now
    ensures Result(c, s.items, next) == RateLimited
       <==> exists f :: f in s.failures && f.source == next.source && next.now <= f.windowEnd
                          && InWindow(s.failures, next.source, f.windowEnd) == c.limit
    ensures Result(c, s.items, next) == RateLimited ==> !Validates(c, s.items, next)
  {
    hide FailureKey, IdentityKey, InWindow;
    assert CounterOk(c, s, next.source);
    if Limited(c, s.items, next) {
      var f := WindowMember(s.failures, next.source, s.items[FailureKey(next.source)].expiresAt);
    }
    if f :| f in s.failures && f.source == next.source && next.now <= f.windowEnd
            && InWindow(s.failures, next.source, f.windowEnd) == c.limit {
      OpenWindow(c, s, next, f);
    }
  }

  lemma {:induction false} WindowMember(failures: seq<FailureRecord>, source: string, end: int)
    returns (f: FailureRecord)
    requires InWindow(failures, source, end) > 0
    ensures f in failures && f.source == source && f.windowEnd == end
  {
    var last := failures[|failures| - 1];
    if last.source == source && last.windowEnd == end { f := last; }
    else { f := WindowMember(failures[..|failures| - 1], source, end); }
  }

  /** A window still open is the counter's. */
  lemma OpenWindow(c: Config, s: State, next: Attempt, f: FailureRecord)
    requires c.limit > 0 && Inv(c, s) && s.clock <= next.now && f in s.failures
    requires f.source == next.source && next.now <= f.windowEnd
             && InWindow(s.failures, next.source, f.windowEnd) == c.limit
    ensures Limited(c, s.items, next)
  {
    assert CounterOk(c, s, next.source);
    hide FailureKey;
  }
}
