/** Cached metadata reads and their invalidation by writes (src/immich_bridge/immich_client.py,
  * `_cached`, `_invalidate_metadata_cache`). */
module MetadataCache {
  import opened Wrappers
  import opened Text
  import opened CacheStore

  const STALE_TTL := 86_400

  function StaleTtl(ttl: int): int { if ttl * 12 > STALE_TTL then ttl * 12 else STALE_TTL }

  /** A SHA-256 digest in hexadecimal. */
  predicate Digest(d: string) {
    |d| == 64 && forall i :: 0 <= i < |d| ==> IsDigit(d[i]) || 'a' <= d[i] <= 'f'
  }

  function UserPrefix(user: string): string { "immich:" + user + ":" }

  function CacheKey(user: string, kind: string, digest: string): string { UserPrefix(user) + (kind + ":" + digest) }

  function StaleKey(key: string): string { key + ":stale" }

  // ---------- one cached read ----------

  /** What a read answers: None is the ImmichApiError. `upstream` is what loading would give. */
  function ReadAnswer(items: Items, key: string, ttl: int, now: int, load: nat, upstream: Option<nat>): Option<Json> {
    if Got(items, key, now).Some? then Got(items, key, now)
    else if upstream.Some? then Some(Loaded(upstream.value, load, now, ttl))
    else Got(AfterGet(items, key, now), StaleKey(key), now)
  }

  function AfterRead(items: Items, key: string, ttl: int, now: int, load: nat, upstream: Option<nat>): Items {
    var looked := AfterGet(items, key, now);
    if Got(items, key, now).Some? then looked
    else if upstream.Some? then
      var value := Loaded(upstream.value, load, now, ttl);
      AfterSet(AfterSet(looked, key, value, ttl, now), StaleKey(key), value, StaleTtl(ttl), now)
    else AfterGet(looked, StaleKey(key), now)
  }

  /** `_cached`. */
  method Cached(cache: InMemoryCache, key: string, ttl: int, now: int, load: nat, upstream: Option<nat>)
    returns (value: Option<Json>)
    modifies cache
    ensures value == ReadAnswer(old(cache.items), key, ttl, now, load, upstream)
    ensures cache.items == AfterRead(old(cache.items), key, ttl, now, load, upstream)
  {
    var cached := cache.GetJson(key, now);
    if cached.Some? {
      return cached;
    }
    if upstream.None? {
      var stale := cache.GetJson(StaleKey(key), now);
      return stale;
    }
    var loaded := Loaded(upstream.value, load, now, ttl);
    cache.SetJson(key, loaded, ttl, now);
    cache.SetJson(StaleKey(key), loaded, StaleTtl(ttl), now);
    return Some(loaded);
  }

  method Invalidate(cache: InMemoryCache, user: string)
    modifies cache
    ensures cache.items == WithoutPrefix(old(cache.items), UserPrefix(user))
  {
    cache.DeletePrefix(UserPrefix(user));
  }

  // ---------- runs ----------

  datatype Event =
    | Tick(seconds: nat)
    | Read(user: string, kind: string, digest: string, ttl: nat, upstream: Option<nat>)
    | Write(user: string, succeeds: bool)

  /** `count` numbers the events so far; `lastWrite` is history: the number of each user's last
    * successful write. */
  datatype State = State(items: Items, clock: int, count: nat, lastWrite: map<string, nat>)

  function Initial(clock: int): State { State(map[], clock, 1, map[]) }

  function Apply(s: State, e: Event): State {
    match e
    case Tick(seconds) => s.(clock := s.clock + seconds, count := s.count + 1)
    case Read(user, kind, digest, ttl, upstream) =>
      s.(items := AfterRead(s.items, CacheKey(user, kind, digest), ttl, s.clock, s.count, upstream),
         count := s.count + 1)
    case Write(user, succeeds) =>
      if succeeds then
        s.(items := WithoutPrefix(s.items, UserPrefix(user)), lastWrite := s.lastWrite[user := s.count],
           count := s.count + 1)
      else s.(count := s.count + 1)
  }

  function Run(s: State, events: seq<Event>): State {
    if events == [] then s else Apply(Run(s, events[..|events| - 1]), events[|events| - 1])
  }

  function LastWrite(s: State, user: string): nat { if user in s.lastWrite then s.lastWrite[user] else 0 }

  /** User ids and digests as the bridge makes them: no colon in the id. */
  predicate Scoped(e: Event) {
    match e
    case Tick(_) => true
    case Read(user, _, digest, _, _) => ':' !in user && Digest(digest)
    case Write(user, _) => ':' !in user
  }

  // ---------- keys ----------

  lemma UserOfPrefix(u: string, v: string, x: string, y: string)
    requires ':' !in u && ':' !in v && u + ":" + x == v + ":" + y
    ensures u == v
  {
    FirstColon(u, v, x, y);
    FirstColon(v, u, y, x);
    assert (u + ":" + x)[..|u|] == u && (v + ":" + y)[..|v|] == v;
  }

  lemma FirstColon(u: string, v: string, x: string, y: string)
    requires ':' !in v && u + ":" + x == v + ":" + y
    ensures |u| >= |v|
  {
    var s := u + ":" + x;
    assert s[|u|] == ':';
    assert forall i :: 0 <= i < |v| ==> s[i] == v[i];
  }

  /** A user's prefix matches that user's keys, fresh and stale, and nobody else's. */
  lemma PrefixIsOwn(u: string, v: string, kind: string, digest: string)
    requires ':' !in u && ':' !in v
    ensures StartsWith(CacheKey(v, kind, digest), UserPrefix(u)) <==> u == v
    ensures StartsWith(StaleKey(CacheKey(v, kind, digest)), UserPrefix(u)) <==> u == v
  {
    OwnPrefix(u, v, kind + ":" + digest);
    OwnPrefix(u, v, kind + ":" + digest + ":stale");
    assert StaleKey(CacheKey(v, kind, digest)) == UserPrefix(v) + (kind + ":" + digest + ":stale");
  }

  lemma OwnPrefix(u: string, v: string, rest: string)
    requires ':' !in u && ':' !in v
    ensures StartsWith(UserPrefix(v) + rest, UserPrefix(u)) <==> u == v
  {
    var key := UserPrefix(v) + rest;
    if StartsWith(key, UserPrefix(u)) {
      var tail := key[|UserPrefix(u)|..];
      assert key == UserPrefix(u) + tail;
      assert key[7..] == u + ":" + tail;
      assert key[7..] == v + ":" + rest;
      UserOfPrefix(u, v, tail, rest);
    }
    if u == v { assert key[..|UserPrefix(u)|] == UserPrefix(u); }
  }

  /** No fresh key is a stale key: a digest does not end in "stale". */
  lemma FreshIsNotStale(u: string, kind: string, digest: string, other: string)
    requires Digest(digest)
    ensures CacheKey(u, kind, digest) != StaleKey(other)
  {
    var key := CacheKey(u, kind, digest);
    assert key == (UserPrefix(u) + kind + ":") + digest;
    assert key[|key| - 2] == digest[62];
    var stale := StaleKey(other);
    assert stale[|stale| - 2] == ":stale"[4] == 'l';
  }

  // ---------- what every run keeps ----------

  /** An entry holds a value loaded after its user's last write, and expires its lifetime after. */
  predicate EntryOk(s: State, key: string) {
    key in s.items ==>
      && s.items[key].value.Loaded?
      && s.items[key].value.load < s.count && s.items[key].value.at <= s.clock
      && s.items[key].expiresAt <= s.items[key].value.at + StaleTtl(s.items[key].value.ttl)
  }

  ghost predicate Inv(s: State) {
    && (forall user :: user in s.lastWrite ==> s.lastWrite[user] < s.count)
    && (forall key :: key in s.items ==> EntryOk(s, key))
    && (forall user, key :: user in s.lastWrite && key in s.items && StartsWith(key, UserPrefix(user)) ==>
          s.items[key].value.load > s.lastWrite[user])
    && (forall user, kind, digest :: Digest(digest) && CacheKey(user, kind, digest) in s.items ==>
          var entry := s.items[CacheKey(user, kind, digest)];
          entry.expiresAt <= entry.value.at + entry.value.ttl)
  }

  lemma ReadInv(s: State, e: Event)
    requires Inv(s) && e.Read? && Scoped(e)
    ensures Inv(Apply(s, e))
  {
    var key := CacheKey(e.user, e.kind, e.digest);
    var t := Apply(s, e);
    forall k | k in t.items
      ensures (k in s.items && t.items[k] == s.items[k])
           || (k == key && t.items[k] == Entry(Loaded(e.upstream.GetOr(0), s.count, s.clock, e.ttl), s.clock + e.ttl))
           || (k == StaleKey(key)
               && t.items[k] == Entry(Loaded(e.upstream.GetOr(0), s.count, s.clock, e.ttl), s.clock + StaleTtl(e.ttl)))
    {
    }
    hide CacheKey, StaleKey, AfterRead, UserPrefix, Digest, StartsWith;
    forall u, kind, digest | Digest(digest) && CacheKey(u, kind, digest) in t.items
      ensures var entry := t.items[CacheKey(u, kind, digest)]; entry.expiresAt <= entry.value.at + entry.value.ttl
    {
      FreshIsNotStale(u, kind, digest, key);
    }
  }

  lemma WriteInv(s: State, e: Event)
    requires Inv(s) && e.Write? && Scoped(e)
    ensures Inv(Apply(s, e))
  {
    hide CacheKey, StaleKey, UserPrefix, Digest, StartsWith;
  }

  lemma {:induction false} InvRun(clock: int, events: seq<Event>)
    requires forall e :: e in events ==> Scoped(e)
    ensures Inv(Run(Initial(clock), events))
  {
    if events != [] {
      InvRun(clock, events[..|events| - 1]);
      var s, e := Run(Initial(clock), events[..|events| - 1]), events[|events| - 1];
      assert e in events;
      hide CacheKey, StaleKey, UserPrefix, Digest, StartsWith, AfterRead;
      if e.Read? { ReadInv(s, e); }
      if e.Write? { WriteInv(s, e); }
    }
  }

  /** Main result: in any sequential run, whatever a metadata read returns was loaded after the
    * user's last successful write, even when upstream fails; and a value served without a new load
    * is at most its lifetime old, or at most the stale lifetime when upstream failed. */
  lemma NoResurrection(clock: int, events: seq<Event>, read: Event)
    requires (forall e :: e in events ==> Scoped(e)) && read.Read? && Scoped(read)
    ensures var s := Run(Initial(clock), events);
            var answer := Answered(s, read);
            answer.Some? ==>
              && answer.value.Loaded?
              && answer.value.load > LastWrite(s, read.user)
              && (answer.value.load == s.count ==> read.upstream == Some(answer.value.content))
              && (answer.value.load != s.count && read.upstream.Some? ==> s.clock <= answer.value.at + answer.value.ttl)
              && (answer.value.load != s.count ==> s.clock <= answer.value.at + StaleTtl(answer.value.ttl))
  {
    InvRun(clock, events);
    var s := Run(Initial(clock), events);
    var key := CacheKey(read.user, read.kind, read.digest);
    PrefixIsOwn(read.user, read.user, read.kind, read.digest);
    FirstLoadPositive(clock, events);
    hide UserPrefix, StaleKey, Digest, Run, CacheKey, StartsWith;
    if key in s.items { assert EntryOk(s, key); }
    if StaleKey(key) in s.items { assert EntryOk(s, StaleKey(key)); }
  }

  /** The cache object over a run: reads go through `Cached`, successful writes through `Invalidate`. */
  method Drive(clock: int, events: seq<Event>) returns (cache: InMemoryCache, answers: seq<Option<Json>>)
    ensures fresh(cache) && cache.items == Run(Initial(clock), events).items
    ensures |answers| == |events|
    ensures forall i :: 0 <= i < |events| && events[i].Read? ==>
              answers[i] == Answered(Run(Initial(clock), events[..i]), events[i])
  {
    hide Apply, Answered;
    cache := new InMemoryCache();
    answers := [];
    var now, count := clock, 1;
    for n := 0 to |events|
      invariant fresh(cache) && |answers| == n
      invariant var s := Run(Initial(clock), events[..n]); cache.items == s.items && now == s.clock && count == s.count
      invariant forall i :: 0 <= i < n && events[i].Read? ==>
                  answers[i] == Answered(Run(Initial(clock), events[..i]), events[i])
    {
      assert events[..n + 1][..n] == events[..n];
      EventStep(Run(Initial(clock), events[..n]), events[n]);
      var answer: Option<Json> := None;
      match events[n] {
        case Tick(seconds) =>
          now := now + seconds;
        case Read(user, kind, digest, ttl, upstream) =>
          answer := Cached(cache, CacheKey(user, kind, digest), ttl, now, count, upstream);
        case Write(user, succeeds) =>
          if succeeds {
            Invalidate(cache, user);
          }
      }
      answers := answers + [answer];
      count := count + 1;
    }
    assert events[..|events|] == events;
  }

  /** What a read answers in a state. */
  function Answered(s: State, e: Event): Option<Json>
    requires e.Read?
  {
    ReadAnswer(s.items, CacheKey(e.user, e.kind, e.digest), e.ttl, s.clock, s.count, e.upstream)
  }

  lemma EventStep(s: State, e: Event)
    ensures var t := Apply(s, e);
            && t.count == s.count + 1
            && t.clock == (if e.Tick? then s.clock + e.seconds else s.clock)
            && t.items == match e
                          case Tick(_) => s.items
                          case Read(user, kind, digest, ttl, upstream) =>
                            AfterRead(s.items, CacheKey(user, kind, digest), ttl, s.clock, s.count, upstream)
                          case Write(user, succeeds) => if succeeds then WithoutPrefix(s.items, UserPrefix(user))
                                                        else s.items
    ensures e.Read? ==>
              Answered(s, e)
                == ReadAnswer(s.items, CacheKey(e.user, e.kind, e.digest), e.ttl, s.clock, s.count, e.upstream)
  {
  }

  predicate PositiveLoads(s: State) {
    s.count >= 1 && forall key :: key in s.items && s.items[key].value.Loaded? ==> s.items[key].value.load >= 1
  }

  lemma {:induction false} FirstLoadPositive(clock: int, events: seq<Event>)
    ensures PositiveLoads(Run(Initial(clock), events))
  {
    hide CacheKey, StaleKey, UserPrefix, StartsWith;
    if events != [] { FirstLoadPositive(clock, events[..|events| - 1]); }
  }

  /** A write leaves every other user's entries alone. */
  lemma OthersUntouched(s: State, writer: string, other: string, kind: string, digest: string)
    requires ':' !in writer && ':' !in other && writer != other
    ensures var t := Apply(s, Write(writer, true));
            forall key :: key == CacheKey(other, kind, digest) || key == StaleKey(CacheKey(other, kind, digest)) ==>
              ((key in t.items <==> key in s.items) && (key in s.items ==> t.items[key] == s.items[key]))
  {
    PrefixIsOwn(writer, other, kind, digest);
    hide CacheKey, StaleKey, UserPrefix, StartsWith;
  }

  /** What a text up to its colon begins with, up to another colon: no colon before, or the same, or more. */
  lemma ColonPrefix(u: string, v: string, rest: string)
    ensures StartsWith(v + (":" + rest), u + ":")
       <==> || u == v || StartsWith(v, u + ":")
            || (StartsWith(u, v + ":") && StartsWith(rest, u[|v| + 1..] + ":"))
  {
    var text, head := v + (":" + rest), u + ":";
    if |u| < |v| {
      assert text[..|head|] == v[..|head|];
    } else if |u| == |v| {
      assert text[..|head|] == v + ":";
      if text[..|head|] == head { assert (v + ":")[..|v|] == (u + ":")[..|u|]; }
    } else {
      var more := u[|v| + 1..];
      if StartsWith(text, head) { GoesOn(u, v, rest); }
      if StartsWith(u, v + ":") {
        assert u == (v + ":") + more && head == (v + ":") + (more + ":") && text == (v + ":") + rest;
        if StartsWith(text, head) { assert rest[..|more + ":"|] == text[..|head|][|v| + 1..]; }
        if StartsWith(rest, more + ":") { assert text[..|head|] == (v + ":") + rest[..|more + ":"|]; }
      }
    }
  }

  lemma GoesOn(u: string, v: string, rest: string)
    requires |u| > |v| && StartsWith(v + (":" + rest), u + ":")
    ensures StartsWith(u, v + ":")
  {
    var text, head := v + (":" + rest), u + ":";
    assert head[..|v| + 1] == text[..|head|][..|v| + 1] == text[..|v| + 1];
    assert u[..|v| + 1] == head[..|v| + 1] && text[..|v| + 1] == v + ":";
  }

  lemma ColonInside(u: string, v: string)
    requires StartsWith(v, u + ":")
    ensures ':' in v
  {
    assert v[|u|] == v[..|u + ":"|][|u|] == (u + ":")[|u|] == ':';
  }

  lemma NoColonPrefix(u: string, v: string)
    requires ':' !in v
    ensures !StartsWith(v, u + ":")
  {
    if StartsWith(v, u + ":") { ColonInside(u, v); }
  }

  /** Scopes as any text: exactly when a write of `u` drops the fresh entry of `v`, and when the stale one. */
  lemma ScopesCollide(u: string, v: string, kind: string, digest: string)
    requires ':' !in kind && ':' !in digest
    ensures StartsWith(CacheKey(v, kind, digest), UserPrefix(u))
       <==> u == v || StartsWith(v, u + ":") || u == v + (":" + kind)
    ensures StartsWith(StaleKey(CacheKey(v, kind, digest)), UserPrefix(u))
       <==> u == v || StartsWith(v, u + ":") || u == v + (":" + kind) || u == v + (":" + (kind + (":" + digest)))
  {
    hide StartsWith;
    Unprefixed(u, v, kind + ":" + digest);
    Unprefixed(u, v, kind + ":" + digest + ":stale");
    assert StaleKey(CacheKey(v, kind, digest)) == UserPrefix(v) + (kind + ":" + digest + ":stale");
    assert kind + ":" + digest == kind + (":" + digest);
    assert kind + ":" + digest + ":stale" == kind + (":" + (digest + (":" + "stale")));
    ColonPrefix(u, v, kind + (":" + digest));
    ColonPrefix(u, v, kind + (":" + (digest + (":" + "stale"))));
    BelowScope(u, v, kind, digest);
  }

  lemma Unprefixed(u: string, v: string, rest: string)
    ensures StartsWith(UserPrefix(v) + rest, UserPrefix(u)) <==> StartsWith(v + (":" + rest), u + ":")
  {
    var long, short := UserPrefix(v) + rest, UserPrefix(u);
    assert long == "immich:" + (v + (":" + rest)) && short == "immich:" + (u + ":");
    if |short| <= |long| {
      assert long[..|short|] == "immich:" + (v + (":" + rest))[..|u + ":"|];
      assert short[7..] == u + ":" && long[..|short|][7..] == (v + (":" + rest))[..|u + ":"|];
    }
  }

  /** A scope that goes on after `v` and its colon. */
  lemma BelowScope(u: string, v: string, kind: string, digest: string)
    requires ':' !in kind && ':' !in digest
    ensures StartsWith(u, v + ":") && StartsWith(kind + (":" + digest), u[|v| + 1..] + ":") <==> u == v + (":" + kind)
    ensures StartsWith(u, v + ":") && StartsWith(kind + (":" + (digest + (":" + "stale"))), u[|v| + 1..] + ":")
       <==> u == v + (":" + kind) || u == v + (":" + (kind + (":" + digest)))
  {
    var kindOnly, both := v + (":" + kind), v + (":" + (kind + (":" + digest)));
    BeginsWith(v, kind);
    BeginsWith(v, kind + (":" + digest));
    if StartsWith(u, v + ":") {
      var t := u[|v| + 1..];
      assert u == v + (":" + t);
      ColonPrefix(t, kind, digest);
      ColonPrefix(t, kind, digest + (":" + "stale"));
      NoColonPrefix(t, kind);
      if StartsWith(t, kind + ":") {
        var w := t[|kind| + 1..];
        assert t == kind + (":" + w);
        NoColonPrefix(w, digest);
        ColonPrefix(w, digest, "stale");
        if StartsWith(w, digest + ":") { NoColonPrefix(w[|digest| + 1..], "stale"); }
      }
    }
  }

  lemma BeginsWith(v: string, t: string)
    ensures StartsWith(v + (":" + t), v + ":") && (v + (":" + t))[|v| + 1..] == t
  {
    assert (v + (":" + t))[..|v| + 1] == v + ":";
  }

  /** So with a colon the write of user "a" drops the entries of user "a:b". */
  lemma ColonScopesCollide(kind: string, digest: string)
    requires ':' !in kind && ':' !in digest
    ensures StartsWith(CacheKey("a:b", kind, digest), UserPrefix("a"))
  {
    ScopesCollide("a", "a:b", kind, digest);
    assert "a:b"[..2] == "a" + ":";
  }
}
