/** Paging through a search: all of it or an error (src/immich_bridge/fs_service.py `search_all_assets`,
  * src/immich_bridge/api/admin.py `_count_matching_assets`). */
module Search {
  import opened Wrappers
  import opened Text

  /** One page: its items and the next page's number as text, None or "" at the end. */
  datatype Page<T> = Page(items: seq<T>, next: Option<string>)

  datatype SearchError = Truncated | BadNextPage | Upstream

  /** A deterministic server: page number to page, None when the request fails. */
  type Server<!T> = int -> Option<Page<T>>

  predicate More<T>(p: Page<T>) { p.next.Some? && p.next.value != "" }

  function NextNumber<T>(p: Page<T>): Option<int>
    requires More(p)
  {
    PyInt(p.next.value)
  }

  predicate Points<T>(p: Page<T>, n: int) { More(p) && NextNumber(p) == Some(n) }

  /** The server never points back: each next page has a higher number. */
  ghost predicate Increasing<T(!new)>(server: Server<T>) {
    forall n, k :: server(n).Some? && Points(server(n).value, k) ==> k > n
  }

  // ---------- page chains, defined apart from any loop ----------

  /** The pages numbered `chain`, from `start` on: each is served and points to the one after it. */
  ghost predicate Linked<T(!new)>(server: Server<T>, start: int, chain: seq<int>)
    decreases |chain|
  {
    && chain != [] && chain[0] == start && server(start).Some?
    && (|chain| > 1 ==> Points(server(start).value, chain[1]) && Linked(server, chain[1], chain[1..]))
  }

  function Last(chain: seq<int>): int
    requires chain != []
  {
    chain[|chain| - 1]
  }

  /** A chain whose last page points nowhere. */
  ghost predicate WholeChain<T(!new)>(server: Server<T>, start: int, chain: seq<int>) {
    Linked(server, start, chain) && server(Last(chain)).Some? && !More(server(Last(chain)).value)
  }

  ghost function ItemsOf<T(!new)>(server: Server<T>, chain: seq<int>): seq<T> {
    if chain == [] then []
    else (if server(chain[0]).Some? then server(chain[0]).value.items else []) + ItemsOf(server, chain[1..])
  }

  predicate Capped(chain: seq<int>, maxPages: int) { forall i :: 0 <= i < |chain| ==> chain[i] <= maxPages }

  // ---------- the loops ----------

  /** The loop is over after following at most `n` next pages. */
  ghost predicate Ends<T(!new)>(server: Server<T>, page: int, maxPages: int, n: nat)
    decreases n
  {
    || page > maxPages
    || server(page).None?
    || !More(server(page).value)
    || NextNumber(server(page).value).None?
    || (n > 0 && Ends(server, NextNumber(server(page).value).value, maxPages, n - 1))
  }

  /** Next pages that grow are enough. */
  lemma {:induction false} IncreasingEnds<T(!new)>(server: Server<T>, page: int, maxPages: int, n: nat)
    requires Increasing(server) && n >= maxPages + 1 - page
    ensures Ends(server, page, maxPages, n)
    decreases n
  {
    hide PyInt;
    if page <= maxPages && server(page).Some? && More(server(page).value) && NextNumber(server(page).value).Some? {
      var next := NextNumber(server(page).value).value;
      assert Points(server(page).value, next);
      if n > 0 { IncreasingEnds(server, next, maxPages, n - 1); }
    }
  }

  /** What the search loop returns from `page` on. */
  ghost function Fetched<T(!new)>(server: Server<T>, page: int, maxPages: int, n: nat): Result<seq<T>, SearchError>
    requires Ends(server, page, maxPages, n)
    decreases n
  {
    if page > maxPages then Failure(Truncated)
    else if server(page).None? then Failure(Upstream)
    else
      var got := server(page).value;
      if !More(got) then Success(got.items)
      else if NextNumber(got).None? then Failure(BadNextPage)
      else After(got.items, Fetched(server, NextNumber(got).value, maxPages, n - 1))
  }

  /** What `search_all_assets` returns; with no page allowed its loop is skipped. */
  ghost function Searched<T(!new)>(server: Server<T>, maxPages: int, n: nat): Result<seq<T>, SearchError>
    requires Ends(server, 1, maxPages, n)
  {
    if maxPages < 1 then Success([]) else Fetched(server, 1, maxPages, n)
  }

  function After<T>(items: seq<T>, rest: Result<seq<T>, SearchError>): Result<seq<T>, SearchError> {
    match rest
    case Success(more) => Success(items + more)
    case Failure(e) => Failure(e)
  }

  lemma AfterNothing<T>(rest: Result<seq<T>, SearchError>)
    ensures After([], rest) == rest
  {
    if rest.Success? { assert [] + rest.value == rest.value; }
  }

  lemma AfterMore<T>(seen: seq<T>, items: seq<T>, rest: Result<seq<T>, SearchError>)
    ensures After(seen, After(items, rest)) == After(seen + items, rest)
  {
    if rest.Success? { assert seen + (items + rest.value) == seen + items + rest.value; }
  }

  /** `search_all_assets`: follow next pages up to the cap, or raise. */
  method SearchAll<T(!new)>(server: Server<T>, maxPages: int, ghost n: nat) returns (r: Result<seq<T>, SearchError>)
    requires Ends(server, 1, maxPages, n)
    ensures r == Searched(server, maxPages, n)
  {
    hide PyInt;
    if maxPages < 1 {
      return Success([]);
    }
    var assets: seq<T> := [];
    var page := 1;
    ghost var left := n;
    AfterNothing(Fetched(server, 1, maxPages, n));
    while page <= maxPages
      invariant Ends(server, page, maxPages, left)
      invariant After(assets, Fetched(server, page, maxPages, left)) == Fetched(server, 1, maxPages, n)
      decreases left
    {
      var got := server(page);
      if got.None? {
        return Failure(Upstream);
      }
      ghost var seen := assets;
      assets := assets + got.value.items;
      if !More(got.value) {
        return Success(assets);
      }
      var number := NextNumber(got.value);
      if number.None? {
        return Failure(BadNextPage);
      }
      AfterMore(seen, got.value.items, Fetched(server, number.value, maxPages, left - 1));
      page, left := number.value, left - 1;
    }
    return Failure(Truncated);
  }

  /** The paged fallback of the admin match count: the length of that very listing, or None. */
  method CountPaged<T(!new)>(server: Server<T>, maxPages: int, ghost n: nat) returns (count: Option<nat>)
    requires Ends(server, 1, maxPages, n)
    ensures count == if maxPages >= 1 && Searched(server, maxPages, n).Success?
                     then Some(|Searched(server, maxPages, n).value|) else None
  {
    hide PyInt;
    var total := 0;
    ghost var seen: seq<T> := [];
    var page := 1;
    ghost var left := n;
    AfterNothing(Fetched(server, 1, maxPages, n));
    while page <= maxPages
      invariant total == |seen| && Ends(server, page, maxPages, left)
      invariant page == 1 || maxPages >= 1
      invariant After(seen, Fetched(server, page, maxPages, left)) == Fetched(server, 1, maxPages, n)
      decreases left
    {
      var got := server(page);
      if got.None? {
        return None;
      }
      total := total + |got.value.items|;
      if !More(got.value) {
        return Some(total);
      }
      var number := NextNumber(got.value);
      if number.None? {
        return None;
      }
      AfterMore(seen, got.value.items, Fetched(server, number.value, maxPages, left - 1));
      seen := seen + got.value.items;
      page, left := number.value, left - 1;
    }
    return None;
  }

  // ---------- complete or refused ----------

  /** A success is the items of a whole page chain within the cap. */
  lemma {:induction false} SuccessIsWhole<T(!new)>(server: Server<T>, page: int, maxPages: int, n: nat)
    returns (chain: seq<int>)
    requires Ends(server, page, maxPages, n) && Fetched(server, page, maxPages, n).Success?
    ensures WholeChain(server, page, chain) && Capped(chain, maxPages)
    ensures Fetched(server, page, maxPages, n).value == ItemsOf(server, chain)
    decreases n
  {
    hide PyInt;
    var got := server(page).value;
    if !More(got) {
      chain := [page];
      assert ItemsOf(server, chain[1..]) == [];
    } else {
      var next := NextNumber(got).value;
      var rest := SuccessIsWhole(server, next, maxPages, n - 1);
      chain := [page] + rest;
      assert chain[1..] == rest;
    }
  }

  /** A whole page chain within the cap is found, and all its items are returned. */
  lemma {:induction false} WholeIsSuccess<T(!new)>(server: Server<T>, page: int, maxPages: int, n: nat, chain: seq<int>)
    requires Ends(server, page, maxPages, n) && WholeChain(server, page, chain) && Capped(chain, maxPages)
    ensures Fetched(server, page, maxPages, n) == Success(ItemsOf(server, chain))
    decreases |chain|
  {
    hide PyInt;
    assert chain[0] <= maxPages;
    var items := server(page).value.items;
    if |chain| == 1 {
      assert items + ItemsOf(server, chain[1..]) == items;
    } else {
      assert Last(chain[1..]) == Last(chain);
      WholeIsSuccess(server, chain[1], maxPages, n - 1, chain[1..]);
    }
  }

  /** Complete or refused: the search returns a list exactly when a whole page chain within the cap
    * exists, and then it is that chain's concatenation; a listing is never partial. Only a cap that
    * allows no page at all gives the empty list instead. */
  lemma CompleteOrRefused<T(!new)>(server: Server<T>, maxPages: int, n: nat, items: seq<T>)
    requires Ends(server, 1, maxPages, n)
    ensures maxPages >= 1 ==>
              (Searched(server, maxPages, n) == Success(items)
               <==> exists chain ::
                      WholeChain(server, 1, chain) && Capped(chain, maxPages) && items == ItemsOf(server, chain))
    ensures maxPages < 1 ==> Searched(server, maxPages, n) == Success([])
  {
    if maxPages >= 1 && Searched(server, maxPages, n) == Success(items) {
      var chain := SuccessIsWhole(server, 1, maxPages, n);
      assert WholeChain(server, 1, chain);
    }
    if chain :| WholeChain(server, 1, chain) && Capped(chain, maxPages) && items == ItemsOf(server, chain) {
      WholeIsSuccess(server, 1, maxPages, n, chain);
    }
  }

  /** The last page of a chain within the cap points beyond it. */
  ghost predicate LeadsBeyond<T(!new)>(server: Server<T>, page: int, maxPages: int, chain: seq<int>, beyond: int) {
    && Capped(chain, maxPages) && Linked(server, page, chain) && beyond > maxPages
    && server(Last(chain)).Some? && Points(server(Last(chain)).value, beyond)
  }

  /** The truncation error means just that: the chain leads to a page number beyond the cap. */
  lemma TruncatedIsBeyond<T(!new)>(server: Server<T>, page: int, maxPages: int, n: nat)
    requires Ends(server, page, maxPages, n) && page <= maxPages
    ensures Fetched(server, page, maxPages, n) == Failure(Truncated)
       <==> exists chain, beyond :: LeadsBeyond(server, page, maxPages, chain, beyond)
  {
    if Fetched(server, page, maxPages, n) == Failure(Truncated) {
      var chain, beyond := BeyondWitness(server, page, maxPages, n);
    }
    if chain, beyond :| LeadsBeyond(server, page, maxPages, chain, beyond) {
      BeyondIsTruncated(server, page, maxPages, n, chain, beyond);
    }
  }

  lemma {:induction false} BeyondWitness<T(!new)>(server: Server<T>, page: int, maxPages: int, n: nat)
    returns (chain: seq<int>, beyond: int)
    requires Ends(server, page, maxPages, n) && page <= maxPages
             && Fetched(server, page, maxPages, n) == Failure(Truncated)
    ensures LeadsBeyond(server, page, maxPages, chain, beyond)
    decreases n
  {
    hide PyInt;
    var got := server(page).value;
    var next := NextNumber(got).value;
    if next > maxPages {
      chain, beyond := [page], next;
    } else {
      var rest;
      rest, beyond := BeyondWitness(server, next, maxPages, n - 1);
      chain := [page] + rest;
      assert chain[1..] == rest;
    }
  }

  lemma {:induction false} BeyondIsTruncated<T(!new)>(server: Server<T>, page: int, maxPages: int, n: nat,
                                                      chain: seq<int>, beyond: int)
    requires Ends(server, page, maxPages, n) && LeadsBeyond(server, page, maxPages, chain, beyond)
    ensures Fetched(server, page, maxPages, n) == Failure(Truncated)
    decreases |chain|
  {
    hide PyInt;
    if |chain| > 1 {
      assert Last(chain[1..]) == Last(chain);
      BeyondIsTruncated(server, chain[1], maxPages, n - 1, chain[1..], beyond);
    }
  }

  // ---------- when the loop never ends ----------

  /** The pages from `start` on lead, within the cap, back to one of them. */
  ghost predicate PointsBack<T(!new)>(server: Server<T>, start: int, maxPages: int, chain: seq<int>) {
    && Linked(server, start, chain) && Capped(chain, maxPages) && server(Last(chain)).Some?
    && exists k :: 0 <= k < |chain| && Points(server(Last(chain)).value, chain[k])
  }

  /** Page numbers are positive. */
  ghost predicate Numbered<T(!new)>(server: Server<T>) {
    forall n, k :: server(n).Some? && Points(server(n).value, k) ==> k >= 1
  }

  lemma {:induction false} LinkedAt<T(!new)>(server: Server<T>, start: int, chain: seq<int>, i: nat)
    requires Linked(server, start, chain) && i < |chain|
    ensures server(chain[i]).Some? && (i + 1 < |chain| ==> Points(server(chain[i]).value, chain[i + 1]))
    decreases i
  {
    hide PyInt;
    if i > 0 { LinkedAt(server, chain[1], chain[1..], i - 1); }
  }

  lemma {:induction false} LinkedFirst<T(!new)>(server: Server<T>, start: int, chain: seq<int>, n: nat)
    requires Linked(server, start, chain) && 0 < n <= |chain|
    ensures Linked(server, start, chain[..n])
    decreases n
  {
    hide PyInt;
    if n > 1 {
      LinkedFirst(server, chain[1], chain[1..], n - 1);
      assert chain[..n][1..] == chain[1..][..n - 1];
    }
  }

  /** From no page of such a chain is the end reached. */
  lemma {:induction false} BackNeverEnds<T(!new)>(server: Server<T>, start: int, maxPages: int, chain: seq<int>,
                                                  i: nat, n: nat)
    requires PointsBack(server, start, maxPages, chain) && i < |chain|
    ensures !Ends(server, chain[i], maxPages, n)
    decreases n
  {
    hide PyInt;
    LinkedAt(server, start, chain, i);
    if n > 0 {
      if i + 1 < |chain| {
        BackNeverEnds(server, start, maxPages, chain, i + 1, n - 1);
      } else {
        var k :| 0 <= k < |chain| && Points(server(Last(chain)).value, chain[k]);
        BackNeverEnds(server, start, maxPages, chain, k, n - 1);
      }
    }
  }

  /** A loop not over after `n` next pages has followed a chain of as many. */
  lemma {:induction false} Unended<T(!new)>(server: Server<T>, page: int, maxPages: int, n: nat)
    returns (chain: seq<int>)
    requires Numbered(server) && page >= 1 && !Ends(server, page, maxPages, n)
    ensures Linked(server, page, chain) && Capped(chain, maxPages) && |chain| == n + 1
    ensures forall i :: 0 <= i < |chain| ==> chain[i] >= 1
    decreases n
  {
    hide PyInt;
    if n == 0 {
      chain := [page];
    } else {
      var next := NextNumber(server(page).value).value;
      assert Points(server(page).value, next);
      var rest := Unended(server, next, maxPages, n - 1);
      chain := [page] + rest;
      assert chain[1..] == rest;
    }
  }

  /** The page numbers up to a cap. */
  function UpTo(n: nat): (r: set<int>)
    ensures |r| == n && forall k :: k in r <==> 1 <= k <= n
  {
    if n == 0 then {} else UpTo(n - 1) + {n}
  }

  lemma DistinctFit(s: seq<int>, n: nat)
    requires (forall i :: 0 <= i < |s| ==> 1 <= s[i] <= n) && forall i, j :: 0 <= i < j < |s| ==> s[i] != s[j]
    ensures |s| <= n
  {
    ElementsSize(s);
    SubsetFits((set k | k in s), UpTo(n));
  }

  lemma SubsetFits(a: set<int>, b: set<int>)
    requires a <= b
    ensures |a| <= |b|
  {
    assert b == a + (b - a);
  }

  lemma {:induction false} ElementsSize(s: seq<int>)
    requires forall i, j :: 0 <= i < j < |s| ==> s[i] != s[j]
    ensures |set k | k in s| == |s|
  {
    if s != [] {
      var init, last := s[..|s| - 1], s[|s| - 1];
      ElementsSize(init);
      assert s == init + [last];
      assert (set k | k in s) == (set k | k in init) + {last};
      assert last !in init;
    }
  }

  lemma EndlessPointsBack<T(!new)>(server: Server<T>, maxPages: nat) returns (chain: seq<int>)
    requires Numbered(server) && !Ends(server, 1, maxPages, maxPages)
    ensures PointsBack(server, 1, maxPages, chain)
  {
    hide PyInt;
    var long := Unended(server, 1, maxPages, maxPages);
    if forall i, j :: 0 <= i < j < |long| ==> long[i] != long[j] { DistinctFit(long, maxPages); }
    var i, j :| 0 <= i < j < |long| && long[i] == long[j];
    LinkedAt(server, 1, long, j - 1);
    LinkedFirst(server, 1, long, j);
    chain := long[..j];
    assert chain[i] == long[j] && Last(chain) == long[j - 1];
  }

  /** The loop is not over after any number of next pages. */
  ghost predicate Endless<T(!new)>(server: Server<T>, maxPages: int) {
    forall n: nat :: !Ends(server, 1, maxPages, n)
  }

  /** The loop has no other bound: it never ends if and only if a page chain within the cap points back into
    * itself. */
  lemma NeverEndsExactly<T(!new)>(server: Server<T>, maxPages: int)
    requires Numbered(server)
    ensures Endless(server, maxPages) <==> exists chain :: PointsBack(server, 1, maxPages, chain)
  {
    hide PyInt, PointsBack;
    if chain :| PointsBack(server, 1, maxPages, chain) { BackIsEndless(server, maxPages, chain); }
    if Endless(server, maxPages) {
      assert !Ends(server, 1, maxPages, 0);
      var chain := EndlessPointsBack(server, maxPages);
    }
  }

  lemma BackIsEndless<T(!new)>(server: Server<T>, maxPages: int, chain: seq<int>)
    requires PointsBack(server, 1, maxPages, chain)
    ensures Endless(server, maxPages)
  {
    hide Ends;
    forall n: nat
      ensures !Ends(server, 1, maxPages, n)
    {
      BackNeverEnds(server, 1, maxPages, chain, 0, n);
    }
  }

  /** Progress is needed: at a page within the cap that points to itself the loop never ends, and no
    * whole chain starts there, however long. */
  lemma {:induction false} SelfPointerNeverEnds<T(!new)>(server: Server<T>, page: int, maxPages: int, n: nat,
                                                         chain: seq<int>)
    requires server(page).Some? && Points(server(page).value, page) && page <= maxPages
    ensures !Ends(server, page, maxPages, n) && !WholeChain(server, page, chain)
    decreases n + |chain|
  {
    hide PyInt;
    if n > 0 { SelfPointerNeverEnds(server, page, maxPages, n - 1, chain); }
    if n == 0 && WholeChain(server, page, chain) && |chain| > 1 {
      assert Last(chain[1..]) == Last(chain);
      SelfPointerNeverEnds(server, page, maxPages, 0, chain[1..]);
    }
  }
}
