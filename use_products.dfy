/**
 * The catalog query hook of the storefront (src/hooks/useProducts.ts): the
 * search filter over the catalog, and the pagination session that shows the
 * filtered list eight products at a time and loads the next page after a
 * simulated delay.
 */
module UseProducts {
  import opened JsString
  import opened ProductData

  /** Page size of the pagination session. */
  const ITEMS_PER_PAGE: nat := 8

  function Min(a: int, b: int): int {
    if a <= b then a else b
  }

  // ---------------------------------------------------------------------------
  // Search filter
  // ---------------------------------------------------------------------------

  /** The search needle: the term lower-cased, then trimmed. */
  function Needle(term: string): string {
    Trim(ToLowerCase(term))
  }

  /** The filter callback: the needle occurs in the lower-cased name, description or category. */
  predicate Matches(p: Product, needle: string) {
    Includes(ToLowerCase(p.name), needle)
    || Includes(ToLowerCase(p.description), needle)
    || Includes(ToLowerCase(p.category), needle)
  }

  /** `a` is obtained from `b` by deleting elements, the rest keeping their order. */
  predicate IsSubsequence<T(==)>(a: seq<T>, b: seq<T>)
    decreases |b|
  {
    a == [] || (b != [] && ((a[0] == b[0] && IsSubsequence(a[1..], b[1..])) || IsSubsequence(a, b[1..])))
  }

  /**
   * Array.prototype.filter with `Matches`, one product at a time from the
   * left; the three lemmas below state what it keeps.
   */
  function KeepMatching(ps: seq<Product>, needle: string): (r: seq<Product>)
    ensures |r| <= |ps|
  {
    if ps == [] then []
    else if Matches(ps[0], needle) then [ps[0]] + KeepMatching(ps[1..], needle)
    else KeepMatching(ps[1..], needle)
  }

  /** `KeepMatching` keeps every matching product as often as `ps` holds it, and no other. */
  lemma {:induction false} KeepMatchingCounts(ps: seq<Product>, needle: string)
    ensures forall p :: multiset(KeepMatching(ps, needle))[p] == if Matches(p, needle) then multiset(ps)[p] else 0
  {
    if ps != [] {
      KeepMatchingCounts(ps[1..], needle);
      assert ps == [ps[0]] + ps[1..];
    }
  }

  /** A product is kept exactly when it is in `ps` and matches. */
  lemma {:induction false} KeepMatchingMembers(ps: seq<Product>, needle: string)
    ensures forall p :: p in KeepMatching(ps, needle) <==> p in ps && Matches(p, needle)
  {
    KeepMatchingCounts(ps, needle);
    forall p
      ensures p in KeepMatching(ps, needle) <==> p in ps && Matches(p, needle)
    {
      assert p in KeepMatching(ps, needle) <==> multiset(KeepMatching(ps, needle))[p] > 0;
      assert p in ps <==> multiset(ps)[p] > 0;
    }
  }

  /** The kept products are an order-preserving subsequence of `ps`. */
  lemma {:induction false} KeepMatchingOrdered(ps: seq<Product>, needle: string)
    ensures IsSubsequence(KeepMatching(ps, needle), ps)
  {
    if ps != [] {
      var rest := KeepMatching(ps[1..], needle);
      KeepMatchingOrdered(ps[1..], needle);
      if Matches(ps[0], needle) {
        assert ([ps[0]] + rest)[1..] == rest;
      }
    }
  }

  /**
   * The memoised `filteredProducts`: the whole catalog when the trimmed term
   * is empty, otherwise the products matching the needle.
   */
  function FilterProducts(catalog: seq<Product>, term: string): seq<Product> {
    if Trim(term) == [] then catalog else KeepMatching(catalog, Needle(term))
  }

  /**
   * The memoised list after a render with `newTerm` is the very array of the
   * render with `oldTerm`: the term is unchanged, or both are blank and the
   * memo returns the catalog array. Any other change yields a fresh array
   * from `filter`, even one with the same contents.
   */
  predicate SameFilterArray(oldTerm: string, newTerm: string) {
    oldTerm == newTerm || (Trim(oldTerm) == [] && Trim(newTerm) == [])
  }

  /** When the memo hands back the same array, its contents are the same filter. */
  lemma SameFilterArrayKeepsFilter(catalog: seq<Product>, oldTerm: string, newTerm: string)
    requires SameFilterArray(oldTerm, newTerm)
    ensures FilterProducts(catalog, oldTerm) == FilterProducts(catalog, newTerm)
  {
  }

  /** The empty needle occurs in every string. */
  lemma IncludesEmpty(s: string)
    ensures Includes(s, [])
  {
  }

  /** With the empty needle every product matches and the filter keeps everything. */
  lemma {:induction false} KeepMatchingEmptyNeedle(ps: seq<Product>)
    ensures KeepMatching(ps, []) == ps
  {
    if ps != [] {
      IncludesEmpty(ToLowerCase(ps[0].name));
      KeepMatchingEmptyNeedle(ps[1..]);
    }
  }

  /**
   * The early return for a blank term agrees with the general filter: the
   * result is always the products matching the needle.
   */
  lemma {:induction false} FilterIsKeepMatching(catalog: seq<Product>, term: string)
    ensures FilterProducts(catalog, term) == KeepMatching(catalog, Needle(term))
  {
    if Trim(term) == [] {
      TrimLowerEmptyIff(term);
      KeepMatchingEmptyNeedle(catalog);
    }
  }

  /**
   * A blank term (empty or white space only, in the sense of
   * String.prototype.trim) returns the catalog unchanged, in its order.
   */
  lemma BlankTermKeepsCatalog(catalog: seq<Product>, term: string)
    requires AllWhiteSpace(term)
    ensures FilterProducts(catalog, term) == catalog
  {
  }

  /**
   * The filter result is an order-preserving subsequence of the catalog; a
   * product is in it exactly when it is in the catalog and the needle occurs
   * in its lower-cased name, description or category, and it occurs as often
   * as in the catalog.
   */
  lemma FilterSpec(catalog: seq<Product>, term: string)
    ensures IsSubsequence(FilterProducts(catalog, term), catalog)
    ensures forall p :: p in FilterProducts(catalog, term) <==> p in catalog && Matches(p, Needle(term))
    ensures forall p :: multiset(FilterProducts(catalog, term))[p]
                      == if Matches(p, Needle(term)) then multiset(catalog)[p] else 0
  {
    FilterIsKeepMatching(catalog, term);
    KeepMatchingCounts(catalog, Needle(term));
    KeepMatchingMembers(catalog, Needle(term));
    KeepMatchingOrdered(catalog, Needle(term));
  }

  /** Matching twice against the same needle is matching once. */
  lemma {:induction false} KeepMatchingIdempotent(ps: seq<Product>, needle: string)
    ensures KeepMatching(KeepMatching(ps, needle), needle) == KeepMatching(ps, needle)
  {
    if ps != [] {
      KeepMatchingIdempotent(ps[1..], needle);
      if Matches(ps[0], needle) {
        var rest := KeepMatching(ps[1..], needle);
        assert ([ps[0]] + rest)[1..] == rest;
      }
    }
  }

  /** Filtering the filtered list with the same term gives the same list. */
  lemma FilterIdempotent(catalog: seq<Product>, term: string)
    ensures FilterProducts(FilterProducts(catalog, term), term) == FilterProducts(catalog, term)
  {
    FilterIsKeepMatching(catalog, term);
    FilterIsKeepMatching(FilterProducts(catalog, term), term);
    KeepMatchingIdempotent(catalog, Needle(term));
  }

  // ---------------------------------------------------------------------------
  // Pages
  // ---------------------------------------------------------------------------

  /**
   * Array.prototype.slice(start, end) for non-negative bounds: both bounds are
   * clipped to the length, and the slice is empty when start is not below end.
   */
  function Slice<T>(s: seq<T>, start: nat, end: nat): (r: seq<T>)
    ensures |r| == if Min(end, |s|) <= start then 0 else Min(end, |s|) - start
    ensures forall k :: 0 <= k < |r| ==> start + k < |s| && r[k] == s[start + k]
  {
    var lo := Min(start, |s|);
    var hi := Min(end, |s|);
    if lo < hi then s[lo..hi] else []
  }

  /** The products shown once `page` pages have been loaded from `filtered`. */
  function Shown(filtered: seq<Product>, page: nat): seq<Product> {
    filtered[..Min(page * ITEMS_PER_PAGE, |filtered|)]
  }

  /** Page `page` (counting from 1) of `filtered`, as the load callback slices it. */
  function PageOf(filtered: seq<Product>, page: nat): seq<Product>
    requires page >= 1
  {
    Slice(filtered, (page - 1) * ITEMS_PER_PAGE, page * ITEMS_PER_PAGE)
  }

  /** Pages 1 to `k` of `filtered`, one after another. */
  function Pages(filtered: seq<Product>, k: nat): seq<Product> {
    if k == 0 then [] else Pages(filtered, k - 1) + PageOf(filtered, k)
  }

  /**
   * Appending the next page to what `page` pages show gives what `page + 1`
   * pages show; past the end, the next page is empty.
   */
  lemma NextPageExtends(filtered: seq<Product>, page: nat)
    ensures Shown(filtered, page) + PageOf(filtered, page + 1) == Shown(filtered, page + 1)
    ensures page * ITEMS_PER_PAGE >= |filtered| ==> PageOf(filtered, page + 1) == []
  {
  }

  /** While the pages shown do not reach the end, the next page is not empty. */
  lemma NextPageNonEmpty(filtered: seq<Product>, page: nat)
    requires page * ITEMS_PER_PAGE < |filtered|
    ensures PageOf(filtered, page + 1) != []
  {
  }

  /**
   * Concatenating pages 1 to `k` reconstructs the first `k` pages' worth of
   * the list, without duplication or omission, in order.
   */
  lemma {:induction false} PagesReconstruct(filtered: seq<Product>, k: nat)
    ensures Pages(filtered, k) == Shown(filtered, k)
  {
    if k > 0 {
      PagesReconstruct(filtered, k - 1);
      NextPageExtends(filtered, k - 1);
    }
  }

  /** Enough pages reconstruct the whole list. */
  lemma PagesCoverAll(filtered: seq<Product>, k: nat)
    requires k * ITEMS_PER_PAGE >= |filtered|
    ensures Pages(filtered, k) == filtered
  {
    PagesReconstruct(filtered, k);
  }

  /**
   * When `page` pages are shown, something is left to show exactly when the
   * pages do not yet reach the end; otherwise the whole list is shown.
   */
  lemma ShownExhaustedIff(filtered: seq<Product>, page: nat)
    ensures |Shown(filtered, page)| < |filtered| <==> page * ITEMS_PER_PAGE < |filtered|
    ensures |Shown(filtered, page)| >= |filtered| <==> Shown(filtered, page) == filtered
  {
  }

  // ---------------------------------------------------------------------------
  // Pagination session
  // ---------------------------------------------------------------------------

  /**
   * The closure of a scheduled load callback: the page number and the
   * filtered list of the render in which the load was requested.
   */
  datatype PendingLoad = PendingLoad(page: nat, filtered: seq<Product>)

  /**
   * One instance of the hook: its argument `searchTerm`, its three state
   * variables, and the load callback waiting on its timer, if any.
   */
  class ProductsHook {
    const catalog: seq<Product>
    var searchTerm: string
    var filtered: seq<Product>
    var displayed: seq<Product>
    var page: nat
    var loading: bool
    var pending: Option<PendingLoad>

    /**
     * The memoised `filtered` is the filter of the catalog by the current
     * term; `loading` is set exactly while a load callback is waiting; pages
     * count from 1.
     */
    ghost predicate Valid()
      reads this
    {
      filtered == FilterProducts(catalog, searchTerm)
      && page >= 1
      && (loading <==> pending.Some?)
      && (pending.Some? ==> pending.value.page >= 1)
    }

    /** The shown products are the first `page` pages of the current filtered list. */
    ghost predicate Synced()
      reads this
    {
      displayed == Shown(filtered, page)
    }

    /**
     * The exposed `hasMore`. In a synced session it is false exactly when
     * every filtered product is shown, and true exactly while the loaded
     * pages do not reach the end of the filtered list.
     */
    function HasMore(): (r: bool)
      reads this
      ensures Synced() ==> (r <==> page * ITEMS_PER_PAGE < |filtered|)
      ensures Synced() ==> (!r <==> displayed == filtered)
    {
      ShownExhaustedIff(filtered, page);
      |displayed| < |filtered|
    }

    /**
     * The exposed `totalCount`: the number of filtered products, which never
     * exceeds the catalog and, in a synced session, bounds what is shown.
     */
    function TotalCount(): (r: nat)
      reads this
      ensures Valid() ==> r <= |catalog|
      ensures Synced() ==> |displayed| <= r
    {
      |filtered|
    }

    /** Mounting the hook: the initial state, then the reset effect's first run. */
    constructor(catalog: seq<Product>, searchTerm: string)
      ensures this.catalog == catalog && this.searchTerm == searchTerm
      ensures filtered == FilterProducts(catalog, searchTerm)
      ensures page == 1 && displayed == filtered[..Min(ITEMS_PER_PAGE, |filtered|)]
      ensures !loading && pending == None
      ensures Valid() && Synced()
    {
      var f := FilterProducts(catalog, searchTerm);
      this.catalog, this.searchTerm, filtered := catalog, searchTerm, f;
      displayed, loading, page, pending := [], false, 1, None;
      new;
      assert Valid();
      ResetPagination();
    }

    /**
     * The reset effect: back to page 1, showing the first page of the current
     * filtered list. `loading` and a waiting callback are left alone.
     */
    method ResetPagination()
      modifies this`page, this`displayed
      ensures page == 1 && displayed == filtered[..Min(ITEMS_PER_PAGE, |filtered|)]
      ensures old(Valid()) ==> Valid()
      ensures Synced()
    {
      page := 1;
      displayed := Slice(filtered, 0, ITEMS_PER_PAGE);
    }

    /**
     * A render with the term `term`. The memo recomputes on any term change,
     * but the reset effect runs only when the memoised list is a new array:
     * that is not so when the term is unchanged, nor when both terms are
     * blank, since a blank term returns the catalog array itself. In those
     * cases only the term changes and the pages shown stay as they were.
     */
    method ChangeSearchTerm(term: string)
      requires Valid()
      modifies this
      ensures Valid()
      ensures searchTerm == term && filtered == FilterProducts(catalog, term)
      ensures loading == old(loading) && pending == old(pending)
      ensures !SameFilterArray(old(searchTerm), term)
              ==> page == 1 && displayed == filtered[..Min(ITEMS_PER_PAGE, |filtered|)] && Synced()
      ensures SameFilterArray(old(searchTerm), term)
              ==> filtered == old(filtered) && displayed == old(displayed) && page == old(page)
      ensures term == old(searchTerm) ==> unchanged(this)
    {
      if term == searchTerm {
        return;
      } else if SameFilterArray(searchTerm, term) {
        SameFilterArrayKeepsFilter(catalog, searchTerm, term);
        searchTerm := term;
        assert Valid();
      } else {
        searchTerm := term;
        filtered := FilterProducts(catalog, term);
        assert Valid();
        ResetPagination();
      }
    }

    /**
     * `loadMore`: nothing happens while a load is in progress; otherwise
     * `loading` is set and a callback is scheduled that has captured the
     * current page and filtered list. The shown list and the page do not
     * change yet. `hasMore` is not consulted.
     */
    method LoadMore()
      requires Valid()
      modifies this`loading, this`pending
      ensures Valid()
      ensures old(loading) ==> unchanged(this)
      ensures !old(loading) ==> loading && pending == Some(PendingLoad(page, filtered))
    {
      if loading {
        return;
      }
      loading := true;
      pending := Some(PendingLoad(page, filtered));
    }

    /**
     * The scheduled callback runs: the captured list's page after the captured
     * page is appended to whatever is shown now, the page becomes the captured
     * page plus one, and `loading` is cleared. The search term is not checked,
     * so a term changed in the meantime gets the old term's page appended.
     */
    method LoadTimerFires()
      requires Valid() && pending.Some?
      modifies this`displayed, this`page, this`loading, this`pending
      ensures Valid()
      ensures displayed == old(displayed) + PageOf(old(pending.value.filtered), old(pending.value.page) + 1)
      ensures page == old(pending.value.page) + 1 && !loading && pending == None
      ensures old(pending.value.page) * ITEMS_PER_PAGE >= |old(pending.value.filtered)| ==> displayed == old(displayed)
      ensures old(Synced()) && old(pending.value) == PendingLoad(old(page), filtered) ==> Synced()
    {
      var captured := pending.value;
      var nextPage := captured.page + 1;
      var startIndex := (nextPage - 1) * ITEMS_PER_PAGE;
      var endIndex := startIndex + ITEMS_PER_PAGE;
      var newProducts := Slice(captured.filtered, startIndex, endIndex);
      displayed := displayed + newProducts;
      page := nextPage;
      loading := false;
      pending := None;
      NextPageExtends(captured.filtered, captured.page);
    }
  }

  /**
   * A load requested and completed with no term change in between keeps the
   * session synced, advances one page and keeps what was shown as a prefix.
   */
  method LoadNextPage(h: ProductsHook)
    requires h.Valid() && h.Synced() && !h.loading
    modifies h
    ensures h.Valid() && h.Synced() && !h.loading
    ensures h.page == old(h.page) + 1 && h.searchTerm == old(h.searchTerm) && h.filtered == old(h.filtered)
    ensures h.displayed == old(h.displayed) + PageOf(h.filtered, h.page)
  {
    h.LoadMore();
    h.LoadTimerFires();
  }

  /**
   * The hook does not discard a stale load: after a term change that gives a
   * new filtered array while a load is waiting, the new term's first page is
   * followed by the old term's next page, and the page number continues the
   * old count. When nothing matches the new term and the old list still had
   * products after its current page, more products are shown than its total.
   */
  method StaleLoadIsAppended(h: ProductsHook, term: string)
    requires h.Valid() && !h.loading && !SameFilterArray(h.searchTerm, term)
    modifies h
    ensures h.Valid() && h.searchTerm == term && h.page == old(h.page) + 1
    ensures !h.loading && h.pending == None
    ensures h.displayed == Shown(h.filtered, 1) + PageOf(old(h.filtered), old(h.page) + 1)
    ensures h.filtered == [] && old(h.page) * ITEMS_PER_PAGE < |old(h.filtered)|
            ==> h.TotalCount() < |h.displayed| && !h.Synced()
  {
    ghost var before := h.filtered;
    ghost var p := h.page;
    h.LoadMore();
    assert h.pending == Some(PendingLoad(p, before));
    h.ChangeSearchTerm(term);
    ghost var first := h.displayed;
    assert first == Shown(h.filtered, 1);
    h.LoadTimerFires();
    assert h.displayed == first + PageOf(before, p + 1);
    if h.filtered == [] && p * ITEMS_PER_PAGE < |before| {
      NextPageNonEmpty(before, p);
    }
  }

  /**
   * A change between two different blank terms while a load is waiting
   * resets nothing: the memo hands back the same catalog array, so the load
   * adds the next page of the unchanged list and a synced session stays
   * synced.
   */
  method BlankTermChangeKeepsLoad(h: ProductsHook, term: string)
    requires h.Valid() && !h.loading && term != h.searchTerm && SameFilterArray(h.searchTerm, term)
    modifies h
    ensures h.Valid() && h.searchTerm == term && h.page == old(h.page) + 1
    ensures !h.loading && h.pending == None
    ensures h.filtered == old(h.filtered)
    ensures h.displayed == old(h.displayed) + PageOf(h.filtered, h.page)
    ensures old(h.Synced()) ==> h.Synced()
  {
    ghost var before := h.filtered;
    ghost var p := h.page;
    h.LoadMore();
    assert h.pending == Some(PendingLoad(p, before));
    h.ChangeSearchTerm(term);
    h.LoadTimerFires();
  }

}
