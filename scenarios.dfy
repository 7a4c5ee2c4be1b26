/** The pagination session applied to the store's own twenty-product catalog. */
module Scenarios {
  import opened ProductData
  import opened UseProducts

  /**
   * With the empty term: the first page shows 8 of 20 products and more
   * remain; two completed loads show all 20 and nothing remains; a third
   * load, if a caller ignored `hasMore`, appends nothing and only advances
   * the page.
   */
  method EmptyTermScenario() returns (firstShown: nat, firstHasMore: bool, allShown: nat, allHasMore: bool, h: ProductsHook)
    ensures firstShown == 8 && firstHasMore
    ensures allShown == 20 && !allHasMore
    ensures fresh(h) && h.Valid() && !h.loading
    ensures h.displayed == StaticProducts && !h.HasMore() && h.TotalCount() == 20
    ensures h.page == 4
  {
    h := new ProductsHook(StaticProducts, "");
    assert h.filtered == StaticProducts;
    firstShown, firstHasMore := |h.displayed|, h.HasMore();
    LoadNextPage(h);
    LoadNextPage(h);
    allShown, allHasMore := |h.displayed|, h.HasMore();
    h.LoadMore();
    h.LoadTimerFires();
  }

  /**
   * With the empty term and one page loaded, changing the term to a single
   * space keeps both pages shown: the memo returns the same catalog array,
   * so the reset does not run.
   */
  method BlankTermScenario() returns (shown: nat, h: ProductsHook)
    ensures shown == 16
    ensures fresh(h) && h.Valid() && h.Synced() && !h.loading && h.searchTerm == " " && h.page == 2
  {
    h := new ProductsHook(StaticProducts, "");
    assert h.filtered == StaticProducts;
    LoadNextPage(h);
    assert JsString.Trim(" ") == [];
    h.ChangeSearchTerm(" ");
    shown := |h.displayed|;
  }
}
