# Catalog query hook of the sports-ball storefront

This project models `useProducts`, the React hook behind the storefront's product list. It has two parts:

- **The search filter** (`filteredProducts`). For a blank term it returns the static catalog. Otherwise, it keeps the products whose lower-cased name, description or category contains the lower-cased, trimmed term, in catalog order.
- **The pagination session.** It shows the filtered list eight products (`ITEMS_PER_PAGE`) at a time. A search-term change resets it to page 1, except a change from one blank term to another. For a blank term, the memo returns the catalog array itself, so the reset effect, which depends on that array, does not run again. `loadMore` sets `loading` and schedules a callback. After the delay, the callback appends the next page and advances `page`. The session also exposes `hasMore` and `totalCount`.

Files:

- `js_string.dfy`, module `JsString`: the three JavaScript string operations the filter uses.
  - `Trim` strips exactly the ECMAScript WhiteSpace and LineTerminator code points.
  - `ToLowerCase` maps code point by code point.
  - `Includes` is substring containment, proved equal to "occurs at some offset".
- `products.dfy`, module `ProductData`: the `Product` record and the twenty-product static catalog.
- `use_products.dfy`, module `UseProducts`: the filter, the page arithmetic, and the class `ProductsHook`.
  - The class holds the hook's argument `searchTerm`, the memoised `filtered` list, and the state variables `displayed`, `page` and `loading`.
  - `Valid()` ties `filtered` to the filter of the catalog by the current term.
  - It also holds `pending`, the closure of a scheduled load callback: the page and the filtered list of the render that called `loadMore`.
- `scenarios.dfy`, module `Scenarios`: the session applied to the static catalog with the empty term.

The central invariant is `Synced()`: `displayed` is the first `page` pages of the current filtered list.
- Mounting establishes it, and so does every term change that gives a new filtered array.
- A change between two blank terms keeps the filtered array, the page and the shown list, so it keeps `Synced()` as well.
- `LoadMore` keeps it.
- `LoadTimerFires` keeps it when nothing changed between the request and the callback.

The code has no stale-response check. When the term changes while a load is waiting, the old term's page is appended to the new list, and `StaleLoadIsAppended` shows this.

The hook itself does not check `hasMore` before loading (`src/hooks/useProducts.ts:33` tests only `loading`); the grid component checks it before calling (`src/components/ProductGrid.tsx:24`). A load past the end appends nothing, but it still sets `loading` and, when the callback runs, advances `page`.

## Model

| member | source | states |
|---|---|---|
| JsString.Trim | src/hooks/useProducts.ts:14 | the trimmed term starts and ends with a non-white-space code point, and is empty exactly when the term is white space only |
| JsString.TrimCutsWhiteSpace | src/hooks/useProducts.ts:14 | the trimmed term is a slice of the term, and everything cut off before and after it is white space |
| JsString.TrimIdempotent | src/hooks/useProducts.ts:18 | trimming a trimmed string changes nothing |
| JsString.ToLowerCase | src/hooks/useProducts.ts:18-22 | lower-casing keeps the length and maps each code point by itself |
| JsString.TrimLowerEmptyIff | src/hooks/useProducts.ts:14-18 | the needle `toLowerCase().trim()` is empty exactly when `trim()` of the term is empty |
| JsString.Includes | src/hooks/useProducts.ts:20-22 | `includes`: the needle is a prefix of the text or of one of its suffixes, tried from the left; the empty needle occurs everywhere (its meaning is stated by `IncludesIff`) |
| JsString.IncludesIff | src/hooks/useProducts.ts:20-22 | `includes` holds exactly when the needle is the slice of the text at some offset |
| UseProducts.Needle | src/hooks/useProducts.ts:18 | the search needle: the term lower-cased, then trimmed (its emptiness is tied to the blank test by `TrimLowerEmptyIff`) |
| UseProducts.Matches | src/hooks/useProducts.ts:19-23 | the filter callback: the needle occurs in the lower-cased name, description or category |
| UseProducts.KeepMatching | src/hooks/useProducts.ts:19-23 | the filtered list is never longer than the list it filters |
| UseProducts.KeepMatchingCounts | src/hooks/useProducts.ts:19-23 | each matching product is kept as often as it occurs, and a non-matching one not at all |
| UseProducts.KeepMatchingMembers | src/hooks/useProducts.ts:19-23 | a product is kept iff it is in the list and its lower-cased name, description or category contains the needle |
| UseProducts.KeepMatchingOrdered | src/hooks/useProducts.ts:19-23 | the kept products are an order-preserving subsequence of the list |
| UseProducts.KeepMatchingEmptyNeedle | src/hooks/useProducts.ts:20-22 | with the empty needle every product matches, so nothing is dropped |
| UseProducts.FilterProducts | src/hooks/useProducts.ts:13-24 | the memoised `filteredProducts`: the catalog itself for a blank term, otherwise the products matching the needle (its meaning is stated by `FilterSpec`) |
| UseProducts.SameFilterArray | src/hooks/useProducts.ts:13-30 | the memo hands back the array of the previous render, so the reset effect does not rerun, exactly when the term is unchanged or both terms are blank |
| UseProducts.FilterIsKeepMatching | src/hooks/useProducts.ts:13-24 | the early return for a blank term gives the same list as the general filter |
| UseProducts.BlankTermKeepsCatalog | src/hooks/useProducts.ts:14-16 | an empty or white-space-only term returns the catalog unchanged, in its order |
| UseProducts.FilterSpec | src/hooks/useProducts.ts:13-24 | the filter result is an order-preserving subsequence of the catalog, holding exactly the matching products, each as often as in the catalog |
| UseProducts.KeepMatchingIdempotent | src/hooks/useProducts.ts:19-23 | filtering a filtered list with the same needle changes nothing |
| UseProducts.FilterIdempotent | src/hooks/useProducts.ts:13-24 | filtering the filtered list with the same term gives the same list |
| UseProducts.Slice | src/hooks/useProducts.ts:42 | `slice(start, end)` has length `min(end, len) - start` (or 0) and holds the elements from `start` on |
| UseProducts.NextPageExtends | src/hooks/useProducts.ts:39-44 | the next page appended to `page` pages' worth gives `page + 1` pages' worth; past the end the next page is empty |
| UseProducts.PagesReconstruct | src/hooks/useProducts.ts:39-44 | pages 1 to k, concatenated, are the first `min(8k, len)` products without duplication or omission |
| UseProducts.PagesCoverAll | src/hooks/useProducts.ts:39-44 | enough pages reconstruct the whole filtered list |
| UseProducts.ShownExhaustedIff | src/hooks/useProducts.ts:50 | fewer than all are shown iff `8 * page < len`; otherwise the whole list is shown |
| UseProducts.ProductsHook.HasMore | src/hooks/useProducts.ts:50 | in a synced session `hasMore` is false exactly when every filtered product is shown |
| UseProducts.ProductsHook.TotalCount | src/hooks/useProducts.ts:57 | `totalCount` never exceeds the catalog size and bounds the shown count in a synced session |
| UseProducts.ProductsHook.constructor | src/hooks/useProducts.ts:8-10 | mounting starts on page 1 with the first page of the filter shown, not loading, nothing scheduled |
| UseProducts.ProductsHook.ResetPagination | src/hooks/useProducts.ts:27-30 | the reset sets page 1 and shows the first `min(8, len)` filtered products; `loading` and a scheduled callback are untouched |
| UseProducts.ProductsHook.ChangeSearchTerm | src/hooks/useProducts.ts:13-30 | the filter is always that of the new term; a change that gives a new filtered array resets the session to its first page; a change between two blank terms keeps the array, the page and the shown list; the same term changes nothing |
| UseProducts.ProductsHook.LoadMore | src/hooks/useProducts.ts:32-36 | while loading nothing changes and nothing is scheduled; otherwise `loading` is set and the current page and filtered list are captured |
| UseProducts.ProductsHook.LoadTimerFires | src/hooks/useProducts.ts:38-47 | the captured list's next page is appended to the current list, `page` becomes the captured page plus one, `loading` clears; past the end nothing is appended; with no intervening term change the session stays synced |
| UseProducts.LoadNextPage | src/hooks/useProducts.ts:32-47 | a load with no term change in between advances one page, keeps the shown list as a prefix and keeps the session synced |
| UseProducts.StaleLoadIsAppended | src/hooks/useProducts.ts:38-46 | after a term change that gives a new filtered array while a load waits, the new term's first page is followed by the old term's next page, and the page count continues the old one; when nothing matches the new term and the old list still had products after its current page, more products are shown than its total count |
| UseProducts.BlankTermChangeKeepsLoad | src/hooks/useProducts.ts:13-46 | after a change between two blank terms while a load waits, the load appends the next page of the unchanged list and a synced session stays synced |
| Scenarios.EmptyTermScenario | src/data/products.ts:3-210 | with the empty term, 8 products are shown first and more remain; after two loads 20 are shown and none remain; a third load appends nothing and only advances the page |
| Scenarios.BlankTermScenario | src/hooks/useProducts.ts:13-30 | with the empty term and one page loaded, changing the term to a single space runs no reset: page 2 with 16 products stays shown |

## Left out

- Timing: the 1000 ms `setTimeout` delay and React's render and effect scheduling are not modelled. A load is the pair `LoadMore` / `LoadTimerFires`, and a term change runs its filter and its reset effect in one step (`ChangeSearchTerm`). The one render in between, which shows the old list beside the new count, is not represented.
- LoadMore reads the current `loading`. In the source, `loadMore` reads the `loading` of the render that created it, so two calls from the same render could both schedule a load. That case is not modelled: at most one load is pending. The closure of `loadMore` also captures that render's `page` and `filteredProducts`; the model captures both in `pending` when the load is requested.
- `hasMore` is computed from the current state. A render-cycle lag between an update and the value shown is not represented.
- The caller-side guard in `src/components/ProductGrid.tsx` is not part of this model. The grid calls `loadMore` only when `hasMore` holds, and does not observe while `loading`. `LoadMore` has no such precondition, which matches the hook.
- JsString.ToLowerCase maps only the ASCII capitals A–Z. Other Unicode case mappings, including the length-changing ones, are not modelled; the catalog's Persian text has no case.
- Strings are sequences of Unicode code points, not UTF-16 code units.
- Unmounting is not modelled: a callback still pending after unmount is not represented.
- Stale-response suppression is neither modelled nor claimed, because the code does not implement it.
- A worked example of a Persian search term over the static catalog is not included. `FilterSpec` states the filter's behaviour for every term and catalog.
- `src/types/Product.ts` is not part of this model. The record's fields are taken from the catalog data; an absent `isDiscounted` is `false`.
- Rendering is not modelled because it is UI with no logic: `src/components/StarRating.tsx` (floating-point star display), `src/components/ProductCard.tsx` (price formatting and markup), `src/components/SearchBar.tsx` and `src/App.tsx`.
- Vendor matching and the cart are not modelled: no such code appears in the modelled sources.
