/** The derived view `Index.jsx` recomputes on every render: the search
    filter over the rows the server sent, the page count, the rows of the
    current page, and the updaters the Previous/Next buttons apply. */
module ListView {
  import opened Records
  import opened Text

  const ItemsPerPage: nat := 5

  /** The name half of the filter callback. */
  predicate NameHit(r: Resource, query: string)
  {
    Contains(Lower(r.name), Lower(query))
  }

  /** The filter callback runs without throwing: `||` only evaluates
      `description.toLowerCase()` when the name did not match, and that
      call fails on a null description. */
  predicate Evaluates(r: Resource, query: string)
  {
    NameHit(r, query) || r.description.Some?
  }

  /** The filter callback: name or description contains the query, both
      lower-cased. */
  function Matches(r: Resource, query: string): (m: bool)
    requires Evaluates(r, query)
    ensures query == [] ==> m
    ensures m ==> |query| <= |r.name| || (r.description.Some? && |query| <= |r.description.value|)
  {
    NameHit(r, query) || Contains(Lower(r.description.value), Lower(query))
  }

  /** The filter callback matches exactly the rows in whose lower-cased name
      or description the lower-cased query occurs at some position. */
  lemma MatchesIffOccurs(r: Resource, query: string)
    requires Evaluates(r, query)
    ensures Matches(r, query) <==>
      Occurs(Lower(r.name), Lower(query))
      || (r.description.Some? && Occurs(Lower(r.description.value), Lower(query)))
  {
    ContainsIffOccurs(Lower(r.name), Lower(query));
    if r.description.Some? {
      ContainsIffOccurs(Lower(r.description.value), Lower(query));
    }
  }

  /** The page renders: the filter callback throws on no row. Rows that all
      carry a description render under any query, and the empty query
      renders any rows. */
  function Renderable(rows: seq<Resource>, query: string): (ok: bool)
    ensures (forall i :: 0 <= i < |rows| ==> rows[i].description.Some?) ==> ok
    ensures query == [] ==> ok
  {
    forall i :: 0 <= i < |rows| ==> Evaluates(rows[i], query)
  }

  /** `resources.filter(...)`: the matching rows. */
  function Filter(rows: seq<Resource>, query: string): (kept: seq<Resource>)
    requires Renderable(rows, query)
    ensures |kept| <= |rows|
    ensures forall i :: 0 <= i < |kept| ==> kept[i] in rows && Evaluates(kept[i], query) && Matches(kept[i], query)
  {
    if rows == [] then []
    else
      var n := |rows| - 1;
      var init := Filter(rows[..n], query);
      if Matches(rows[n], query) then init + [rows[n]] else init
  }

  /** The positions in `rows` of the rows `Filter` keeps. */
  function KeptIndices(rows: seq<Resource>, query: string): seq<nat>
    requires Renderable(rows, query)
  {
    if rows == [] then []
    else
      var n := |rows| - 1;
      var init := KeptIndices(rows[..n], query);
      if Matches(rows[n], query) then init + [n] else init
  }

  /** The filtered list is the subsequence of `rows` at the increasing
      positions `KeptIndices`. */
  lemma {:induction false} FilterSelects(rows: seq<Resource>, query: string)
    requires Renderable(rows, query)
    ensures |KeptIndices(rows, query)| == |Filter(rows, query)|
    ensures forall k :: 0 <= k < |KeptIndices(rows, query)| ==>
      KeptIndices(rows, query)[k] < |rows| && Filter(rows, query)[k] == rows[KeptIndices(rows, query)[k]]
    ensures forall k, l :: 0 <= k < l < |KeptIndices(rows, query)| ==>
      KeptIndices(rows, query)[k] < KeptIndices(rows, query)[l]
  {
    if rows != [] {
      var n := |rows| - 1;
      var init := rows[..n];
      FilterSelects(init, query);
      var kept, ix := Filter(init, query), KeptIndices(init, query);
      if Matches(rows[n], query) {
        assert Filter(rows, query) == kept + [rows[n]];
        assert KeptIndices(rows, query) == ix + [n];
      } else {
        assert Filter(rows, query) == kept;
        assert KeptIndices(rows, query) == ix;
      }
    }
  }

  /** A position is among `KeptIndices` exactly when its row matches. */
  lemma {:induction false} KeptIndicesExact(rows: seq<Resource>, query: string)
    requires Renderable(rows, query)
    ensures forall k :: 0 <= k < |KeptIndices(rows, query)| ==> KeptIndices(rows, query)[k] < |rows|
    ensures forall j :: 0 <= j < |rows| ==> (Matches(rows[j], query) <==> j in KeptIndices(rows, query))
  {
    if rows != [] {
      var n := |rows| - 1;
      var init := rows[..n];
      KeptIndicesExact(init, query);
      var ix := KeptIndices(init, query);
      assert forall j :: 0 <= j < n ==> init[j] == rows[j];
      assert n !in ix;
      if Matches(rows[n], query) {
        assert KeptIndices(rows, query) == ix + [n];
      } else {
        assert KeptIndices(rows, query) == ix;
      }
    }
  }

  /** A row is in the filtered list exactly when it is one of `rows` and
      matches the query. */
  lemma FilterMembership(rows: seq<Resource>, query: string, r: Resource)
    requires Renderable(rows, query)
    ensures r in Filter(rows, query) <==> r in rows && Evaluates(r, query) && Matches(r, query)
  {
    FilterSelects(rows, query);
    KeptIndicesExact(rows, query);
    if r in rows && Matches(r, query) {
      var j :| 0 <= j < |rows| && rows[j] == r;
      var ix := KeptIndices(rows, query);
      var k :| 0 <= k < |ix| && ix[k] == j;
      assert Filter(rows, query)[k] == r;
    }
  }

  /** Filtering rows that all match keeps them all. */
  lemma {:induction false} FilterKeepsMatching(rows: seq<Resource>, query: string)
    requires forall i :: 0 <= i < |rows| ==> Evaluates(rows[i], query) && Matches(rows[i], query)
    ensures Filter(rows, query) == rows
  {
    if rows != [] {
      var n := |rows| - 1;
      FilterKeepsMatching(rows[..n], query);
      assert rows[..n] + [rows[n]] == rows;
    }
  }

  /** Filtering the filtered list again with the same query changes nothing. */
  lemma FilterIdempotent(rows: seq<Resource>, query: string)
    requires Renderable(rows, query)
    ensures Renderable(Filter(rows, query), query)
    ensures Filter(Filter(rows, query), query) == Filter(rows, query)
  {
    FilterKeepsMatching(Filter(rows, query), query);
  }

  /** The empty query keeps every row, whatever its description. */
  lemma {:induction false} EmptyQueryKeepsAll(rows: seq<Resource>)
    ensures Renderable(rows, "")
    ensures Filter(rows, "") == rows
  {
    forall i | 0 <= i < |rows| ensures NameHit(rows[i], "") {
      assert Lower("") == [];
    }
    FilterKeepsMatching(rows, "");
  }

  /** Two queries that lower-case alike select the same rows. */
  lemma {:induction false} FilterIgnoresQueryCase(rows: seq<Resource>, q1: string, q2: string)
    requires Lower(q1) == Lower(q2)
    requires Renderable(rows, q1)
    ensures Renderable(rows, q2)
    ensures Filter(rows, q1) == Filter(rows, q2)
  {
    if rows != [] {
      FilterIgnoresQueryCase(rows[..|rows| - 1], q1, q2);
    }
  }

  /** `Math.ceil(n / itemsPerPage)`: the fewest pages of five that hold `n` rows. */
  function TotalPages(n: nat): (pages: nat)
    ensures n <= pages * ItemsPerPage
    ensures pages == 0 || (pages - 1) * ItemsPerPage < n
  {
    (n + ItemsPerPage - 1) / ItemsPerPage
  }

  /** No list is empty of pages unless it is empty. */
  lemma NoPagesOnlyWhenEmpty(n: nat)
    ensures TotalPages(n) == 0 <==> n == 0
  {
  }

  /** ECMAScript's relative index for `slice`: a negative index counts from
      the end; the result is clamped to `[0, len]`. */
  function RelativeIndex(i: int, len: nat): (k: nat)
    ensures k <= len
  {
    if i < 0 then (if len + i < 0 then 0 else len + i)
    else if i < len then i else len
  }

  /** `Array.prototype.slice(start, end)`. */
  function JsSlice<T>(s: seq<T>, start: int, end: int): (r: seq<T>)
    ensures |r| <= |s|
    ensures forall i :: 0 <= i < |r| ==> r[i] in s
    ensures 0 <= start <= end <= |s| ==> r == s[start..end]
    ensures 0 <= end <= start ==> r == []
  {
    var lo, hi := RelativeIndex(start, |s|), RelativeIndex(end, |s|);
    if lo < hi then s[lo..hi] else []
  }

  /** `filteredResources.slice((currentPage - 1) * 5, currentPage * 5)`. */
  function Displayed(filtered: seq<Resource>, page: int): (shown: seq<Resource>)
    ensures |shown| <= ItemsPerPage
    ensures forall i :: 0 <= i < |shown| ==> shown[i] in filtered
    ensures page == 0 ==> shown == []
  {
    JsSlice(filtered, (page - 1) * ItemsPerPage, page * ItemsPerPage)
  }

  function Min(a: int, b: int): int
  {
    if a < b then a else b
  }

  /** Page `p >= 1` shows the rows from `(p-1)*5` up to `p*5`, cut at the
      end of the list: at most five, contiguous in the filtered list. Page 0,
      which Next reaches on an empty list, shows nothing. */
  lemma DisplayedIsPageSlice(filtered: seq<Resource>, page: int)
    requires page >= 0
    ensures page == 0 ==> Displayed(filtered, page) == []
    ensures page >= 1 ==>
      Displayed(filtered, page)
      == filtered[Min((page - 1) * ItemsPerPage, |filtered|)..Min(page * ItemsPerPage, |filtered|)]
    ensures |Displayed(filtered, page)| <= ItemsPerPage
  {
  }

  /** On a page between 1 and the page count the slice starts inside the
      list and is not empty. */
  lemma DisplayedOnExistingPage(filtered: seq<Resource>, page: int)
    requires 1 <= page <= TotalPages(|filtered|)
    ensures Displayed(filtered, page) == filtered[(page - 1) * ItemsPerPage..Min(page * ItemsPerPage, |filtered|)]
    ensures 1 <= |Displayed(filtered, page)| <= ItemsPerPage
  {
    DisplayedIsPageSlice(filtered, page);
  }

  /** A page past the page count — the query narrowed the list and the page
      was not re-clamped — shows nothing. */
  lemma DisplayedPastLastPage(filtered: seq<Resource>, page: int)
    requires page > TotalPages(|filtered|)
    ensures Displayed(filtered, page) == []
  {
  }

  /** Every filtered row is shown on exactly the page `i / 5 + 1`, which
      exists, in the slot `i % 5`. */
  lemma EveryRowHasAPage(filtered: seq<Resource>, i: nat)
    requires i < |filtered|
    ensures 1 <= i / ItemsPerPage + 1 <= TotalPages(|filtered|)
    ensures i % ItemsPerPage < |Displayed(filtered, i / ItemsPerPage + 1)|
    ensures Displayed(filtered, i / ItemsPerPage + 1)[i % ItemsPerPage] == filtered[i]
  {
    var p := i / ItemsPerPage + 1;
    DisplayedIsPageSlice(filtered, p);
  }

  /** The Next updater `prev => Math.min(prev + 1, totalPages)`. */
  function NextPage(page: int, totalPages: nat): (next: int)
    ensures next <= totalPages
    ensures 1 <= page <= totalPages ==> 1 <= next <= totalPages
    ensures page < totalPages ==> next == page + 1
    ensures page >= totalPages ==> next == totalPages
  {
    Min(page + 1, totalPages)
  }

  /** The Previous updater `prev => Math.max(prev - 1, 1)`. */
  function PrevPage(page: int): (prev: int)
    ensures prev >= 1
    ensures page > 1 ==> prev == page - 1
    ensures page <= 1 ==> prev == 1
  {
    if page - 1 > 1 then page - 1 else 1
  }

  /** Next is a no-op on the last page, Previous on the first; on an empty
      list Next moves page 1 to page 0. */
  lemma PagerBoundaries(page: int, totalPages: nat)
    ensures page == totalPages ==> NextPage(page, totalPages) == page
    ensures page == 1 ==> PrevPage(page) == 1
    ensures totalPages == 0 ==> NextPage(1, totalPages) == 0
  {
  }

  /** The page number never becomes negative: from 0 or above, both
      updaters stay at 0 or above. */
  lemma PagerKeepsPageNatural(page: int, totalPages: nat)
    requires page >= 0
    ensures NextPage(page, totalPages) >= 0 && PrevPage(page) >= 0
  {
  }

  /** Twelve rows make three pages; Next stays on page 3, Previous on page 1. */
  lemma TwelveRowsScenario()
    ensures TotalPages(12) == 3
    ensures NextPage(3, TotalPages(12)) == 3 && PrevPage(1) == 1
  {
  }

  /** A one-row list keeps its row exactly when the row matches. */
  lemma FilterSingleton(r: Resource, query: string)
    requires Evaluates(r, query)
    ensures Renderable([r], query)
    ensures Filter([r], query) == if Matches(r, query) then [r] else []
  {
  }

  /** A query that lower-cases to "amd" is in no lower-cased string without
      an 'm' or 'M'. */
  lemma {:induction false} AmdNeedsM(s: string, query: string)
    requires Lower(query) == "amd"
    requires forall i :: 0 <= i < |s| ==> s[i] != 'm' && s[i] != 'M'
    ensures !Contains(Lower(s), Lower(query))
  {
    var low := Lower(s);
    LowerAt(s);
    ContainsIffOccurs(low, "amd");
    forall k ensures !OccursAt(low, "amd", k) {
      if 0 <= k && k + 3 <= |low| {
        assert low[k..k + 3][1] == low[k + 1] != 'm';
      }
    }
  }

  /** The row of the search scenario: an RTX 4090 made by NVIDIA. */
  function Card(name: string, description: string): Resource
  {
    Resource(1, name, "GPU", Some(description), None)
  }

  /** Searching "nvidia" in any case keeps the card "RTX 4090" / "NVIDIA". */
  lemma NvidiaKept(name: string, description: string, query: string)
    requires name == "RTX 4090" && description == "NVIDIA"
    requires Lower(query) == "nvidia"
    ensures Renderable([Card(name, description)], query)
    ensures Filter([Card(name, description)], query) == [Card(name, description)]
  {
    assert Lower(description) == "nvidia" by {
      LowerAt(description);
    }
    assert Contains(Lower(description), Lower(query));
    FilterSingleton(Card(name, description), query);
  }

  /** Searching "amd" in any case drops the card "RTX 4090" / "NVIDIA". */
  lemma AmdDropped(name: string, description: string, query: string)
    requires name == "RTX 4090" && description == "NVIDIA"
    requires Lower(query) == "amd"
    ensures Renderable([Card(name, description)], query)
    ensures Filter([Card(name, description)], query) == []
  {
    AmdNeedsM(name, query);
    AmdNeedsM(description, query);
    FilterSingleton(Card(name, description), query);
  }
}
