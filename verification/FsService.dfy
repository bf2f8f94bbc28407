/** The projection of a flat, time-filtered search onto date buckets (src/immich_bridge/fs_service.py). */
module FsService {
  import opened Wrappers
  import opened Text
  import opened Calendar
  import opened FsModel
  import opened AssetNames
  import opened Ordering

  // ---------- the search backend ----------

  /** The filters of one search other than its time window. */
  datatype Base = AllAssets | FavoriteAssets | InAlbum(albumId: string) | Filtered(filters: seq<(string, string)>)

  datatype Order = Oldest | Newest | Unordered

  datatype Query = Query(base: Base, after: Option<string>, before: Option<string>, order: Order)

  /** How the backend reads a boundary; None when it cannot. */
  type Reading = string -> Option<Instant>

  /** Immich: a finite set of assets and a deterministic search over it. `find` is the whole page
    * chain of a search, `total` the count its first page reports, `months` the timeline buckets
    * (None when that endpoint fails). */
  datatype Immich = Immich(
    lib: set<Asset>,
    matches: (Base, Asset) -> bool,
    read: Reading,
    find: Query -> seq<Asset>,
    total: Query -> Option<nat>,
    months: bool -> Option<seq<Date>>)

  /** The half-open window a search keeps. */
  predicate NotBefore(read: Reading, after: Option<string>, x: Instant) {
    after.None? || (read(after.value).Some? && !Before(x, read(after.value).value))
  }

  predicate StrictlyBefore(read: Reading, before: Option<string>, x: Instant) {
    before.None? || (read(before.value).Some? && Before(x, read(before.value).value))
  }

  predicate Selected(b: Immich, q: Query, a: Asset) {
    a in b.lib && b.matches(q.base, a) && NotBefore(b.read, q.after, a.when) && StrictlyBefore(b.read, q.before, a.when)
  }

  predicate FindOk(b: Immich, q: Query) {
    && (forall i, j :: 0 <= i < j < |b.find(q)| ==> b.find(q)[i] != b.find(q)[j])
    && (forall a :: a in b.find(q) ==> Selected(b, q, a))
    && (forall a :: a in b.lib && Selected(b, q, a) ==> a in b.find(q))
    && (q.order.Oldest? ==> forall i, j :: 0 <= i < j < |b.find(q)| ==> !Before(b.find(q)[j].when, b.find(q)[i].when))
    && (q.order.Newest? ==> forall i, j :: 0 <= i < j < |b.find(q)| ==> !Before(b.find(q)[i].when, b.find(q)[j].when))
  }

  /** Buckets begin and end on the hour. */
  predicate OnTheHour(b: Bound) { ValidBound(b) && b.SecondBound? && b.clock.minute == 0 && b.clock.second == 0 }

  predicate AtFullHour(i: Instant) { ValidInstant(i) && i.clock.minute == 0 && i.clock.second == 0 && i.micro == 0 }

  /** The boundaries the bridge prints are read back. */
  ghost predicate ReadsHours(read: Reading) {
    forall bucket :: OnTheHour(bucket) ==> read(Show(bucket)) == Some(At(bucket))
  }

  ghost predicate Faithful(b: Immich) { ReadsHours(b.read) && forall q :: FindOk(b, q) }

  lemma FindExact(b: Immich, q: Query, a: Asset)
    requires Faithful(b)
    ensures a in b.find(q) <==> Selected(b, q, a)
  {
    assert FindOk(b, q);
  }

  // ---------- narrowing a saved view's own window ----------

  /** `_with_date_bounds`: the later start and the earlier end, compared as strings. */
  function NarrowedAfter(existing: Option<string>, after: string): string {
    if existing.Some? && Less(after, existing.value) then existing.value else after
  }

  function NarrowedBefore(existing: Option<string>, before: string): string {
    if existing.Some? && Less(existing.value, before) then existing.value else before
  }

  ghost predicate AfterExact(read: Reading, own: string, bucket: Bound)
    requires ValidBound(bucket)
  {
    forall x: Instant :: NotBefore(read, Some(NarrowedAfter(Some(own), Show(bucket))), x)
                    <==> NotBefore(read, Some(own), x) && NotBefore(read, Some(Show(bucket)), x)
  }

  ghost predicate BeforeExact(read: Reading, own: string, bucket: Bound)
    requires ValidBound(bucket)
  {
    forall x: Instant :: StrictlyBefore(read, Some(NarrowedBefore(Some(own), Show(bucket))), x)
                    <==> StrictlyBefore(read, Some(own), x) && StrictlyBefore(read, Some(Show(bucket)), x)
  }

  /** Where the boundary sorts after the bucket's, it is not read as earlier. */
  predicate NotEarly(read: Reading, own: string, bucket: Bound)
    requires ValidBound(bucket)
  {
    read(own).Some? && Less(Show(bucket), own) ==> !Before(read(own).value, At(bucket))
  }

  /** Where it sorts before the bucket's, it is not read as later. */
  predicate NotLate(read: Reading, own: string, bucket: Bound)
    requires ValidBound(bucket)
  {
    read(own).Some? && Less(own, Show(bucket)) ==> !Before(At(bucket), read(own).value)
  }

  /** The boundary and the bucket's sort, as strings, the way their instants do. */
  predicate SortsAsTime(read: Reading, own: string, bucket: Bound)
    requires ValidBound(bucket)
  {
    NotEarly(read, own, bucket) && NotLate(read, own, bucket)
  }

  /** Whatever the view's boundary is, narrowing keeps exactly the instants of both windows if and only
    * if the two boundaries sort as time does. */
  lemma NarrowingExact(read: Reading, own: string, bucket: Bound)
    requires ValidBound(bucket) && read(Show(bucket)) == Some(At(bucket)) && read(own).Some?
    ensures AfterExact(read, own, bucket) <==> SortsAsTime(read, own, bucket)
    ensures BeforeExact(read, own, bucket) <==> SortsAsTime(read, own, bucket)
  {
    hide Show, At;
    if SortsAsTime(read, own, bucket) {
      LaterStartWins(read, own, bucket);
      EarlierEndWins(read, own, bucket);
    } else {
      var i, c := read(own).value, At(bucket);
      LessAsymmetric(own, Show(bucket));
      assert !NotBefore(read, Some(own), c) || !NotBefore(read, Some(Show(bucket)), i);
      assert StrictlyBefore(read, Some(own), c) || StrictlyBefore(read, Some(Show(bucket)), i);
    }
  }

  lemma LaterStartWins(read: Reading, own: string, bucket: Bound)
    requires ValidBound(bucket) && read(Show(bucket)) == Some(At(bucket)) && read(own).Some?
    requires SortsAsTime(read, own, bucket)
    ensures AfterExact(read, own, bucket)
  {
    hide Show, At, Before;
    var i, c := read(own).value, At(bucket);
    LessTotal(own, Show(bucket));
    forall x: Instant
      ensures Less(Show(bucket), own) ==> (!Before(x, i) <==> !Before(x, i) && !Before(x, c))
      ensures !Less(Show(bucket), own) ==> (!Before(x, c) <==> !Before(x, i) && !Before(x, c))
    {
      if Less(Show(bucket), own) && !Before(x, i) { NotBeforeTransitive(c, i, x); }
      if Less(own, Show(bucket)) && !Before(x, c) { NotBeforeTransitive(i, c, x); }
    }
  }

  lemma EarlierEndWins(read: Reading, own: string, bucket: Bound)
    requires ValidBound(bucket) && read(Show(bucket)) == Some(At(bucket)) && read(own).Some?
    requires SortsAsTime(read, own, bucket)
    ensures BeforeExact(read, own, bucket)
  {
    hide Show, At, Before;
    var i, c := read(own).value, At(bucket);
    LessTotal(own, Show(bucket));
    forall x: Instant
      ensures Less(own, Show(bucket)) ==> (Before(x, i) <==> Before(x, i) && Before(x, c))
      ensures !Less(own, Show(bucket)) ==> (Before(x, c) <==> Before(x, i) && Before(x, c))
    {
      if Less(own, Show(bucket)) && !Before(x, c) { NotBeforeTransitive(i, c, x); }
      if Less(Show(bucket), own) && !Before(x, i) { NotBeforeTransitive(c, i, x); }
    }
  }

  /** What a view's own boundary needs for every bucket. */
  ghost predicate SortsAtHours(read: Reading, own: string) {
    read(own).Some? && forall bucket :: OnTheHour(bucket) ==> SortsAsTime(read, own, bucket)
  }

  /** For the three forms above: no fraction just after a full hour. */
  predicate ClashFree(own: Bound) {
    !(own.MilliBound? && own.milli > 0 && own.clock.minute == 0 && own.clock.second == 0)
  }

  lemma ClashFreeExact(read: Reading, own: Bound)
    requires ValidBound(own) && read(Show(own)) == Some(At(own))
    ensures SortsAtHours(read, Show(own)) <==> ClashFree(own)
  {
    hide Show, At, Before, OrdersAgree;
    if ClashFree(own) {
      forall bucket | OnTheHour(bucket)
        ensures SortsAsTime(read, Show(own), bucket)
      {
        IsoOrder(own, bucket);
        AgreeingSorts(read, own, bucket);
      }
    } else {
      var bucket := SecondBound(own.date, own.clock);
      ClashMissorts(own, bucket);
      assert OnTheHour(bucket) && !SortsAsTime(read, Show(own), bucket);
    }
  }

  lemma AgreeingSorts(read: Reading, own: Bound, bucket: Bound)
    requires ValidBound(own) && ValidBound(bucket) && read(Show(own)) == Some(At(own))
    requires OrdersAgree(own, bucket) && OrdersAgree(bucket, own)
    ensures SortsAsTime(read, Show(own), bucket)
  {
    hide Show, At, Before;
  }

  /** The later instant is the smaller string. */
  lemma ClashMissorts(fine: Bound, coarse: Bound)
    requires ValidBound(fine) && ValidBound(coarse) && fine.MilliBound? && coarse.SecondBound? && Clash(fine, coarse)
    ensures Less(Show(fine), Show(coarse)) && Before(At(coarse), At(fine))
  {
    DateTextOrder(fine.date, coarse.date, Tail(fine), Tail(coarse));
    TailOrder(fine, coarse);
  }

  /** A text of a date and a clock, whatever follows them. */
  function TextAt(date: Date, clock: Clock, rest: string): string
    requires Valid(date) && ValidClock(clock)
  {
    DateText(date) + ("T" + (ClockText(clock) + rest))
  }

  /** The instant stays within the hour. */
  predicate InsideHour(i: Instant, hour: HourRange)
    requires Valid(hour.day) && hour.day != LAST_DATE && hour.hour < 24
  {
    !Before(i, At(HourStart(hour))) && !Before(At(HourEnd(hour)), i)
  }

  /** For any text whose clock is off the hour, or is a full hour with what follows sorting after `Z`: the
    * boundary sorts rightly exactly if the instant it is read as stays within the hour the text names. */
  lemma OffsetExact(read: Reading, date: Date, clock: Clock, rest: string)
    requires Valid(date) && date != LAST_DATE && ValidClock(clock)
    requires clock.minute > 0 || clock.second > 0 || Less("Z", rest)
    requires ReadsHours(read) && read(TextAt(date, clock, rest)).Some?
    ensures SortsAtHours(read, TextAt(date, clock, rest))
       <==> InsideHour(read(TextAt(date, clock, rest)).value, HourRange(date, clock.hour))
  {
    hide TextAt, Less, ReadsHours, SortsAtHours, InsideHour;
    forall bucket | OnTheHour(bucket)
      ensures SortsAfterStart(TextAt(date, clock, rest), HourRange(date, clock.hour), bucket)
    {
      TextOrder(date, clock, rest, bucket);
      LessAsymmetric("Z", rest);
    }
    HourWindowExact(read, TextAt(date, clock, rest), HourRange(date, clock.hour));
  }

  /** For a full hour with what follows sorting before `Z`, as an offset or a fraction does: within the
    * hour that ends there. */
  lemma FullHourExact(read: Reading, hour: HourRange, rest: string)
    requires Valid(hour.day) && hour.day != LAST_DATE && hour.hour < 24 && Less(rest, "Z") && ReadsHours(read)
    requires OnTheHour(HourEnd(hour)) && read(TextAt(HourEnd(hour).date, HourEnd(hour).clock, rest)).Some?
    ensures var own := TextAt(HourEnd(hour).date, HourEnd(hour).clock, rest);
            SortsAtHours(read, own) <==> InsideHour(read(own).value, hour)
  {
    hide TextAt, Less, ReadsHours, SortsAtHours, InsideHour;
    var end := HourEnd(hour);
    HourEnds(hour);
    forall bucket | OnTheHour(bucket)
      ensures SortsAfterStart(TextAt(end.date, end.clock, rest), hour, bucket)
    {
      TextOrder(end.date, end.clock, rest, bucket);
      LessAsymmetric("Z", rest);
      if Before(At(HourStart(hour)), At(bucket)) {
        NextHour(hour, bucket);
      } else {
        NotBeforeTransitive(At(bucket), At(HourStart(hour)), At(end));
      }
    }
    HourWindowExact(read, TextAt(end.date, end.clock, rest), hour);
  }

  /** The text sorts between the start of the hour and the next full hour. */
  predicate SortsAfterStart(own: string, hour: HourRange, bucket: Bound)
    requires Valid(hour.day) && hour.hour < 24 && ValidBound(bucket)
  {
    && (Less(Show(bucket), own) <==> !Before(At(HourStart(hour)), At(bucket)))
    && (Less(own, Show(bucket)) <==> Before(At(HourStart(hour)), At(bucket)))
  }

  lemma HourWindowExact(read: Reading, own: string, hour: HourRange)
    requires Valid(hour.day) && hour.day != LAST_DATE && hour.hour < 24 && ReadsHours(read) && read(own).Some?
    requires forall bucket :: OnTheHour(bucket) ==> SortsAfterStart(own, hour, bucket)
    ensures SortsAtHours(read, own) <==> InsideHour(read(own).value, hour)
  {
    var i := read(own).value;
    hide Show, At, ReadsHours;
    assert OnTheHour(HourStart(hour)) && OnTheHour(HourEnd(hour)) && Before(At(HourStart(hour)), At(HourEnd(hour))) by {
      HourEnds(hour);
    }
    assert SortsAfterStart(own, hour, HourStart(hour)) && SortsAfterStart(own, hour, HourEnd(hour));
    if InsideHour(i, hour) {
      forall bucket | OnTheHour(bucket)
        ensures SortsAsTime(read, own, bucket)
      {
        assert SortsAfterStart(own, hour, bucket);
        if Before(At(HourStart(hour)), At(bucket)) {
          NextHour(hour, bucket);
          NotBeforeTransitive(i, At(HourEnd(hour)), At(bucket));
        } else {
          NotBeforeTransitive(At(bucket), At(HourStart(hour)), i);
        }
      }
    } else if Before(i, At(HourStart(hour))) {
      assert !SortsAsTime(read, own, HourStart(hour));
    } else {
      assert !SortsAsTime(read, own, HourEnd(hour));
    }
  }

  /** How a text sorts among the full hours: by its date, its clock, and then what follows. */
  lemma TextOrder(date: Date, clock: Clock, rest: string, bucket: Bound)
    requires Valid(date) && ValidClock(clock) && OnTheHour(bucket)
    ensures var own := TextAt(date, clock, rest);
            var hour := SecondBound(date, Clock(clock.hour, 0, 0));
            var over := clock.minute > 0 || clock.second > 0;
            && (Less(Show(bucket), own) <==>
                Before(At(bucket), At(hour)) || (bucket == hour && (over || Less("Z", rest))))
            && (Less(own, Show(bucket)) <==>
                Before(At(hour), At(bucket)) || (bucket == hour && !over && Less(rest, "Z")))
            && (bucket == hour || Before(At(bucket), At(hour)) || Before(At(hour), At(bucket)))
            && !(Before(At(bucket), At(hour)) && Before(At(hour), At(bucket)))
            && (bucket == hour ==> !Before(At(bucket), At(hour)))
  {
    var a, z := "T" + (ClockText(clock) + rest), "T" + (ClockText(bucket.clock) + "Z");
    hide DateText, ClockText;
    assert Show(bucket) == DateText(bucket.date) + z by {
      assert "T" + ClockText(bucket.clock) + "Z" == z;
    }
    DateTextOrder(bucket.date, date, z, a);
    DateTextOrder(date, bucket.date, a, z);
    LessAfterPrefix("T", ClockText(clock) + rest, ClockText(bucket.clock) + "Z");
    LessAfterPrefix("T", ClockText(bucket.clock) + "Z", ClockText(clock) + rest);
    ClockTextOrder(clock, bucket.clock, rest, "Z");
    ClockTextOrder(bucket.clock, clock, "Z", rest);
  }

  lemma HourEnds(hour: HourRange)
    requires Valid(hour.day) && hour.day != LAST_DATE && hour.hour < 24
    ensures OnTheHour(HourStart(hour)) && OnTheHour(HourEnd(hour)) && Before(At(HourStart(hour)), At(HourEnd(hour)))
  {
    NextDayAdjacent(hour.day, hour.day);
  }

  /** After the start of an hour no full hour comes before its end. */
  lemma NextHour(hour: HourRange, bucket: Bound)
    requires Valid(hour.day) && hour.day != LAST_DATE && hour.hour < 24 && OnTheHour(bucket)
    requires Before(At(HourStart(hour)), At(bucket))
    ensures !Before(At(bucket), At(HourEnd(hour)))
  {
    NextDayAdjacent(hour.day, bucket.date);
  }

  // ---------- scopes: what a date tree projects ----------

  /** A saved view brings its own boundaries as it was given them. */
  datatype Scope =
    | DateView(favorite: bool)
    | AlbumScope(albumId: string)
    | ViewScope(filters: seq<(string, string)>, after: Option<string>, before: Option<string>)

  /** The view's boundaries narrow exactly to every bucket. */
  ghost predicate ExactScope(b: Immich, s: Scope) {
    s.ViewScope? ==>
      && (s.after.Some? ==> SortsAtHours(b.read, s.after.value))
      && (s.before.Some? ==> SortsAtHours(b.read, s.before.value))
  }

  function BaseOf(s: Scope): Base {
    match s
    case DateView(favorite) => if favorite then FavoriteAssets else AllAssets
    case AlbumScope(id) => InAlbum(id)
    case ViewScope(filters, _, _) => Filtered(filters)
  }

  /** The scope's search with no bucket, as `_load_date_bounds` and the flat listings run it. */
  function WholeQuery(s: Scope, order: Order): Query {
    if s.ViewScope? then Query(BaseOf(s), s.after, s.before, order)
    else Query(BaseOf(s), None, None, order)
  }

  /** The scope's search inside [start, end). */
  function RangeQuery(s: Scope, start: Bound, end: Bound, order: Order): Query
    requires ValidBound(start) && ValidBound(end)
  {
    if s.ViewScope? then
      Query(BaseOf(s), Some(NarrowedAfter(s.after, Show(start))),
            Some(NarrowedBefore(s.before, Show(end))), order)
    else Query(BaseOf(s), Some(Show(start)), Some(Show(end)), order)
  }

  predicate InScope(b: Immich, s: Scope, a: Asset) {
    Selected(b, WholeQuery(s, Unordered), a)
  }

  predicate Within(a: Asset, start: Bound, end: Bound)
    requires ValidBound(start) && ValidBound(end)
  {
    !Before(a.when, At(start)) && Before(a.when, At(end))
  }

  /** No boundary of the view takes the place of a start it is read before or of an end it is read after. */
  predicate KeepsInside(b: Immich, s: Scope, start: Bound, end: Bound)
    requires ValidBound(start) && ValidBound(end)
  {
    s.ViewScope? ==>
      && (s.after.Some? ==> NotEarly(b.read, s.after.value, start))
      && (s.before.Some? ==> NotLate(b.read, s.before.value, end))
  }

  /** No start takes the place of a boundary that is read later, and no end of one that is read earlier. */
  predicate KeepsScope(b: Immich, s: Scope, start: Bound, end: Bound)
    requires ValidBound(start) && ValidBound(end)
  {
    s.ViewScope? ==>
      && (s.after.Some? ==> b.read(s.after.value).Some? && NotLate(b.read, s.after.value, start))
      && (s.before.Some? ==> b.read(s.before.value).Some? && NotEarly(b.read, s.before.value, end))
  }

  /** A bucket's search, for every kind of scope and every boundary of a view: it misses no asset of the
    * scope taken in [start, end), and what else it may find depends on the boundaries' order alone. */
  lemma RangeFinds(b: Immich, s: Scope, start: Bound, end: Bound, order: Order, a: Asset)
    requires Faithful(b) && OnTheHour(start) && OnTheHour(end)
    ensures InScope(b, s, a) && Within(a, start, end) ==> a in b.find(RangeQuery(s, start, end, order))
    ensures a in b.find(RangeQuery(s, start, end, order)) && KeepsInside(b, s, start, end) ==> Within(a, start, end)
    ensures a in b.find(RangeQuery(s, start, end, order)) && KeepsScope(b, s, start, end) ==> InScope(b, s, a)
  {
    var q := RangeQuery(s, start, end, order);
    hide Show, At, Before, Less, NotEarly, NotLate;
    FindExact(b, q, a);
    if s.ViewScope? {
      NarrowedStart(b.read, s.after, start, a.when);
      NarrowedEnd(b.read, s.before, end, a.when);
    }
  }

  lemma NarrowedStart(read: Reading, after: Option<string>, start: Bound, x: Instant)
    requires ReadsHours(read) && OnTheHour(start)
    ensures var found := NotBefore(read, Some(NarrowedAfter(after, Show(start))), x);
            && (NotBefore(read, after, x) && NotBefore(read, Some(Show(start)), x) ==> found)
            && (found && (after.Some? ==> NotEarly(read, after.value, start)) ==> NotBefore(read, Some(Show(start)), x))
            && (found && (after.Some? ==> read(after.value).Some? && NotLate(read, after.value, start)) ==>
                NotBefore(read, after, x))
  {
    hide Show, At, Before, Less;
    if after.Some? && read(after.value).Some? {
      var i, c := read(after.value).value, At(start);
      LessTotal(after.value, Show(start));
      if !Before(x, i) && !Before(i, c) { NotBeforeTransitive(c, i, x); }
      if !Before(x, c) && !Before(c, i) { NotBeforeTransitive(i, c, x); }
    }
  }

  lemma NarrowedEnd(read: Reading, before: Option<string>, end: Bound, x: Instant)
    requires ReadsHours(read) && OnTheHour(end)
    ensures var found := StrictlyBefore(read, Some(NarrowedBefore(before, Show(end))), x);
            && (StrictlyBefore(read, before, x) && StrictlyBefore(read, Some(Show(end)), x) ==> found)
            && (found && (before.Some? ==> NotLate(read, before.value, end)) ==>
                StrictlyBefore(read, Some(Show(end)), x))
            && (found && (before.Some? ==> read(before.value).Some? && NotEarly(read, before.value, end)) ==>
                StrictlyBefore(read, before, x))
  {
    hide Show, At, Before, Less;
    if before.Some? && read(before.value).Some? {
      var j, c := read(before.value).value, At(end);
      LessTotal(before.value, Show(end));
      if !Before(x, c) && !Before(c, j) { NotBeforeTransitive(j, c, x); }
      if !Before(x, j) && !Before(j, c) { NotBeforeTransitive(c, j, x); }
    }
  }

  lemma ExactKeeps(b: Immich, s: Scope, start: Bound, end: Bound)
    requires ExactScope(b, s) && OnTheHour(start) && OnTheHour(end)
    ensures KeepsInside(b, s, start, end) && KeepsScope(b, s, start, end)
  {
    hide NotEarly, NotLate;
  }

  lemma WholeFinds(b: Immich, s: Scope, order: Order, a: Asset)
    requires Faithful(b)
    ensures a in b.find(WholeQuery(s, order)) <==> InScope(b, s, a)
  {
    FindExact(b, WholeQuery(s, order), a);
  }

  // ---------- buckets ----------

  function DayQuery(s: Scope, r: DateRange, order: Order): Query
    requires ValidRange(r)
  {
    RangeQuery(s, IsoBoundary(r.start), IsoBoundary(r.end), order)
  }

  function HourQuery(s: Scope, hr: HourRange, order: Order): Query
    requires Valid(hr.day) && hr.day != LAST_DATE && hr.hour < 24
  {
    RangeQuery(s, HourStart(hr), HourEnd(hr), order)
  }

  predicate HasAssets(b: Immich, s: Scope, r: DateRange)
    requires ValidRange(r)
  {
    b.find(DayQuery(s, r, Unordered)) != []
  }

  predicate InRange(a: Asset, r: DateRange) {
    !DateLess(a.when.date, r.start) && DateLess(a.when.date, r.end)
  }

  predicate InHour(a: Asset, hr: HourRange) { a.when.date == hr.day && a.when.clock.hour == hr.hour }

  /** The search of a range of days stays in the range, and in the scope. */
  predicate InsideRange(b: Immich, s: Scope, r: DateRange)
    requires ValidRange(r)
  {
    KeepsInside(b, s, IsoBoundary(r.start), IsoBoundary(r.end))
  }

  predicate ScopeRange(b: Immich, s: Scope, r: DateRange)
    requires ValidRange(r)
  {
    KeepsScope(b, s, IsoBoundary(r.start), IsoBoundary(r.end))
  }

  /** Of the view's boundaries only how they sort among the month starts counts here. */
  ghost predicate MonthsInside(b: Immich, s: Scope) {
    forall y, m :: 1000 <= y <= 9998 && 1 <= m <= 12 ==> InsideRange(b, s, MonthRange(y, m))
  }

  lemma ExactMonths(b: Immich, s: Scope)
    requires ExactScope(b, s)
    ensures MonthsInside(b, s)
  {
    hide KeepsInside, ExactScope;
    forall y, m | 1000 <= y <= 9998 && 1 <= m <= 12
      ensures InsideRange(b, s, MonthRange(y, m))
    {
      ExactKeeps(b, s, IsoBoundary(MonthRange(y, m).start), IsoBoundary(MonthRange(y, m).end));
    }
  }

  lemma RangeHolds(b: Immich, s: Scope, r: DateRange, order: Order, a: Asset)
    requires Faithful(b) && ValidRange(r)
    ensures InScope(b, s, a) && InRange(a, r) ==> a in b.find(DayQuery(s, r, order))
    ensures a in b.find(DayQuery(s, r, order)) && InsideRange(b, s, r) ==> InRange(a, r)
    ensures a in b.find(DayQuery(s, r, order)) && ScopeRange(b, s, r) ==> InScope(b, s, a)
    ensures ExactScope(b, s) ==> InsideRange(b, s, r) && ScopeRange(b, s, r)
  {
    hide InScope, KeepsInside, KeepsScope, ExactScope, RangeQuery;
    RangeFinds(b, s, IsoBoundary(r.start), IsoBoundary(r.end), order, a);
    if ExactScope(b, s) { ExactKeeps(b, s, IsoBoundary(r.start), IsoBoundary(r.end)); }
  }

  lemma HourHolds(b: Immich, s: Scope, hr: HourRange, order: Order, a: Asset)
    requires Faithful(b) && Valid(hr.day) && hr.day != LAST_DATE && hr.hour < 24
    ensures InScope(b, s, a) && InHour(a, hr) ==> a in b.find(HourQuery(s, hr, order))
    ensures a in b.find(HourQuery(s, hr, order)) && KeepsScope(b, s, HourStart(hr), HourEnd(hr)) ==> InScope(b, s, a)
    ensures a in b.find(HourQuery(s, hr, order)) && KeepsInside(b, s, HourStart(hr), HourEnd(hr)) ==> InHour(a, hr)
    ensures ExactScope(b, s) ==>
              KeepsInside(b, s, HourStart(hr), HourEnd(hr)) && KeepsScope(b, s, HourStart(hr), HourEnd(hr))
  {
    hide InScope, Within, RangeQuery, Valid, NextDay, InHour, KeepsInside, KeepsScope, ExactScope;
    HourEnds(hr);
    RangeFinds(b, s, HourStart(hr), HourEnd(hr), order, a);
    WithinHour(a, hr);
    if ExactScope(b, s) { ExactKeeps(b, s, HourStart(hr), HourEnd(hr)); }
  }

  lemma WithinHour(a: Asset, hr: HourRange)
    requires Valid(hr.day) && hr.day != LAST_DATE && hr.hour < 24
    ensures Within(a, HourStart(hr), HourEnd(hr)) <==> InHour(a, hr)
  {
    NextDayAdjacent(hr.day, a.when.date);
  }

  /** Year, month and day ranges hold the assets with those date fields. */
  lemma RangeFields(a: Asset, y: int, m: int)
    requires 1 <= m <= 12
    ensures InRange(a, YearRange(y)) <==> a.when.date.y == y
    ensures InRange(a, MonthRange(y, m)) <==> a.when.date.y == y && a.when.date.m == m
  {
  }

  lemma DayFields(a: Asset, day: Date)
    requires Valid(day) && day != LAST_DATE
    ensures InRange(a, DayRange(day)) <==> a.when.date == day
  {
    NextDayAdjacent(day, a.when.date);
  }

  /** No boundary of a view empties a range that holds an asset of its scope. */
  lemma HasAssetsKeeps(b: Immich, s: Scope, r: DateRange, a: Asset)
    requires Faithful(b) && ValidRange(r) && InScope(b, s, a) && InRange(a, r)
    ensures HasAssets(b, s, r)
  {
    hide InScope, InRange, ExactScope;
    RangeHolds(b, s, r, Unordered, a);
  }

  lemma HasAssetsExact(b: Immich, s: Scope, r: DateRange)
    requires Faithful(b) && ExactScope(b, s) && ValidRange(r)
    ensures HasAssets(b, s, r) <==> exists a :: a in b.lib && InScope(b, s, a) && InRange(a, r)
  {
    hide ExactScope, InRange;
    var found := b.find(DayQuery(s, r, Unordered));
    if found != [] {
      RangeHolds(b, s, r, Unordered, found[0]);
    }
    if a :| a in b.lib && InScope(b, s, a) && InRange(a, r) {
      RangeHolds(b, s, r, Unordered, a);
    }
  }

  // ---------- year and month listings ----------

  predicate IntLess(x: int, y: int) { x < y }

  predicate IntGreater(x: int, y: int) { x > y }

  predicate DateGreater(x: Date, y: Date) { DateLess(y, x) }

  /** The dates of a scope's first and last asset. */
  function DateBounds(b: Immich, s: Scope): Option<(Date, Date)> {
    var oldest, newest := b.find(WholeQuery(s, Oldest)), b.find(WholeQuery(s, Newest));
    if oldest == [] || newest == [] then None else Some((oldest[0].when.date, newest[0].when.date))
  }

  /** The probing year loop, from `hi` down to `lo`. */
  function ProbedYears(probe: int -> bool, hi: int, lo: int): seq<int>
    decreases hi - lo + 1
  {
    if hi < lo then []
    else (if probe(hi) then [hi] else []) + ProbedYears(probe, hi - 1, lo)
  }

  /** The probing month loop over a range's year, from month `m` down to January. */
  function ProbedMonths(probe: int -> bool, r: DateRange, m: nat): seq<Date> {
    if m == 0 then []
    else
      var start := Date(r.start.y, m, 1);
      if DateLess(start, r.start) || !DateLess(start, r.end) || !probe(m) then ProbedMonths(probe, r, m - 1)
      else [start] + ProbedMonths(probe, r, m - 1)
  }

  function YearProbe(b: Immich, s: Scope): int -> bool {
    (y: int) => ValidRange(YearRange(y)) && HasAssets(b, s, YearRange(y))
  }

  function MonthProbe(b: Immich, s: Scope, y: int): int -> bool {
    (m: int) => ValidRange(MonthRange(y, m)) && HasAssets(b, s, MonthRange(y, m))
  }

  /** The month list of a working timeline endpoint, newest first; None selects the fallback. */
  function TimelineMonths(b: Immich, s: Scope): Option<seq<Date>> {
    if !s.DateView? || b.months(s.favorite).None? then None
    else Some(Distinct(DateGreater, b.months(s.favorite).value))
  }

  function Years(dates: seq<Date>): seq<int> { seq(|dates|, i requires 0 <= i < |dates| => dates[i].y) }

  function FastYears(months: seq<Date>): seq<int> { Distinct(IntGreater, Years(months)) }

  function FastMonths(months: seq<Date>, r: DateRange): seq<Date> {
    if months == [] then []
    else
      var rest := FastMonths(months[1..], r);
      if !DateLess(months[0], r.start) && DateLess(months[0], r.end) then [months[0]] + rest else rest
  }

  /** The year level of the three bucket listings; None stands for the ValueError of year 10000. */
  function YearList(b: Immich, s: Scope): Option<seq<int>> {
    if TimelineMonths(b, s).Some? then Some(FastYears(TimelineMonths(b, s).value))
    else SlowYearList(b, s)
  }

  function SlowYearList(b: Immich, s: Scope): Option<seq<int>> {
    match DateBounds(b, s)
    case None => Some([])
    case Some((oldest, newest)) =>
      if newest.y >= MAX_YEAR then None else Some(ProbedYears(YearProbe(b, s), newest.y, oldest.y))
  }

  function MonthList(b: Immich, s: Scope, r: DateRange): seq<Date>
    requires ValidRange(r) && r.start.y < MAX_YEAR
  {
    if TimelineMonths(b, s).Some? then FastMonths(TimelineMonths(b, s).value, r)
    else SlowMonthList(b, s, r)
  }

  function SlowMonthList(b: Immich, s: Scope, r: DateRange): seq<Date>
    requires ValidRange(r) && r.start.y < MAX_YEAR
  {
    if s.AlbumScope? || DateBounds(b, s).Some? then ProbedMonths(MonthProbe(b, s, r.start.y), r, 12) else []
  }

  function DatesOf(assets: seq<Asset>): seq<Date> { seq(|assets|, i requires 0 <= i < |assets| => assets[i].when.date) }

  function HoursOf(assets: seq<Asset>): seq<int> {
    seq(|assets|, i requires 0 <= i < |assets| => assets[i].when.clock.hour)
  }

  /** The day level: the distinct days of the range's assets, newest first. */
  function DayList(b: Immich, s: Scope, r: DateRange): seq<Date>
    requires ValidRange(r)
  {
    if s.ViewScope? && DateBounds(b, s).None? then []
    else Distinct(DateGreater, DatesOf(b.find(DayQuery(s, r, Newest))))
  }

  /** The hours of a day's assets, in order. */
  function HourList(b: Immich, s: Scope, r: DateRange): seq<int>
    requires ValidRange(r)
  {
    Distinct(IntLess, HoursOf(b.find(DayQuery(s, r, Oldest))))
  }

  /** The loops that `_fallback_date_buckets`, `list_view_date_buckets` and
    * `list_album_date_buckets` run over years and months. */
  method ProbeYears(probe: int -> bool, newest: int, oldest: int) returns (years: seq<int>)
    ensures years == ProbedYears(probe, newest, oldest)
  {
    years := [];
    var year := newest;
    while year >= oldest
      invariant years + ProbedYears(probe, year, oldest) == ProbedYears(probe, newest, oldest)
    {
      if probe(year) {
        years := years + [year];
      }
      year := year - 1;
    }
  }

  method ProbeMonths(probe: int -> bool, r: DateRange) returns (months: seq<Date>)
    ensures months == ProbedMonths(probe, r, 12)
  {
    months := [];
    var month := 12;
    while month > 0
      invariant 0 <= month <= 12
      invariant months + ProbedMonths(probe, r, month) == ProbedMonths(probe, r, 12)
    {
      var start := Date(r.start.y, month, 1);
      if DateLess(start, r.start) || !DateLess(start, r.end) {
        month := month - 1;
        continue;
      }
      if probe(month) {
        months := months + [start];
      }
      month := month - 1;
    }
  }
}
