/** The catalogue grid of the home page (product-renderer.js): a filter by
    section or category, pages of 15 products, the page buttons and the
    empty-state message. The list of active products comes from the page's
    data manager and is a parameter here. */
module Renderer {
  import opened Js
  import opened Catalog

  const ItemsPerPage := 15

  /** The renderer's state: the selected filter and the current page. */
  datatype RendererState = RendererState(filter: string, page: int)

  const Initial := RendererState("all", 1)

  predicate FilterHit(p: Product, filter: string) {
    p.section == filter || p.category == filter
  }

  /** `getFilteredProducts`: everything for "all", otherwise the products
      whose section or category is the filter, in order. */
  function FilteredProducts(active: seq<Product>, filter: string): (r: seq<Product>)
    ensures filter == "all" ==> r == active
    ensures filter != "all" ==> forall i :: 0 <= i < |r| ==> FilterHit(r[i], filter) && r[i] in active
    ensures filter != "all" ==> forall i :: 0 <= i < |active| && FilterHit(active[i], filter) ==> active[i] in r
  {
    if filter == "all" then active else Filter(active, (p: Product) => FilterHit(p, filter))
  }

  /** `Math.ceil(n / 15)`. */
  function TotalPages(n: nat): (r: nat)
    ensures r * ItemsPerPage >= n
    ensures r == 0 || (r - 1) * ItemsPerPage < n
  {
    (n + ItemsPerPage - 1) / ItemsPerPage
  }

  /** `getProductsForCurrentPage`: `slice((page - 1) * 15, page * 15)`. */
  function PageOf<T>(s: seq<T>, page: int): (r: seq<T>)
    ensures |r| <= ItemsPerPage
    ensures page >= 1 && (page - 1) * ItemsPerPage <= |s| ==>
              r == s[(page - 1) * ItemsPerPage..Min(page * ItemsPerPage, |s|)]
    ensures page >= 1 && (page - 1) * ItemsPerPage >= |s| ==> r == []
    ensures page == 0 ==> r == []
  {
    Slice(s, (page - 1) * ItemsPerPage, page * ItemsPerPage)
  }

  /** Pages 1 to k, one after another. */
  function PagesUpTo<T>(s: seq<T>, k: nat): seq<T>
    decreases k
  {
    if k == 0 then [] else PagesUpTo(s, k - 1) + PageOf(s, k)
  }

  /** The first k pages are the first 15·k items. */
  lemma {:induction false} PagesUpToIsPrefix<T>(s: seq<T>, k: nat)
    ensures PagesUpTo(s, k) == s[..Min(k * ItemsPerPage, |s|)]
    decreases k
  {
    if k > 0 {
      PagesUpToIsPrefix(s, k - 1);
      var a := Min((k - 1) * ItemsPerPage, |s|);
      var b := Min(k * ItemsPerPage, |s|);
      if (k - 1) * ItemsPerPage <= |s| {
        assert PageOf(s, k) == s[a..b];
        assert s[..a] + s[a..b] == s[..b];
      } else {
        assert PageOf(s, k) == [];
        assert a == |s| && b == |s|;
      }
    }
  }

  /** The pages the buttons reach cover the list exactly, in order and
      without overlap. */
  lemma PagesCoverList<T>(s: seq<T>)
    ensures PagesUpTo(s, TotalPages(|s|)) == s
  {
    PagesUpToIsPrefix(s, TotalPages(|s|));
  }

  /** Every page in range is non-empty. */
  lemma PageInRangeNotEmpty<T>(s: seq<T>, page: int)
    requires 1 <= page <= TotalPages(|s|)
    ensures |PageOf(s, page)| > 0
  {
  }

  /** A button of the page bar. The previous and next buttons only get the
      class `disabled`; their click handlers stay in place. */
  datatype PageButton =
    | Prev(disabled: bool, target: int)
    | Number(page: nat, active: bool)
    | Next(disabled: bool, target: int)

  function NumberButtons(i: nat, total: nat, current: int): (r: seq<PageButton>)
    requires i >= 1
    ensures |r| == if i <= total then total - i + 1 else 0
    ensures forall j :: 0 <= j < |r| ==> r[j] == Number(i + j, i + j == current)
    decreases total + 1 - i
  {
    if i > total then [] else [Number(i, i == current)] + NumberButtons(i + 1, total, current)
  }

  /** `renderPagination`: nothing for at most one page; otherwise previous,
      a button for every page (the current one active), next. */
  function Pagination(totalItems: nat, current: int): (r: seq<PageButton>)
    ensures TotalPages(totalItems) <= 1 <==> r == []
    ensures TotalPages(totalItems) > 1 ==>
              && |r| == TotalPages(totalItems) + 2
              && r[0] == Prev(current == 1, current - 1)
              && r[|r| - 1] == Next(current == TotalPages(totalItems), current + 1)
              && forall j :: 1 <= j <= TotalPages(totalItems) ==> r[j] == Number(j, j == current)
  {
    var total := TotalPages(totalItems);
    if total <= 1 then []
    else [Prev(current == 1, current - 1)] + NumberButtons(1, total, current) + [Next(current == total, current + 1)]
  }

  /** What `renderProducts` shows. */
  datatype View =
    | Grid(shown: seq<Product>, pagination: seq<PageButton>)
      /** The empty-state message; `anyActive` picks "no products in this
          category" over "no active products". */
    | EmptyState(anyActive: bool)

  /** `renderProducts`: the current page of the filtered list, or the
      empty-state message (and no page bar) when that page is empty. */
  function Render(st: RendererState, active: seq<Product>): (r: View)
    ensures r.EmptyState? <==> PageOf(FilteredProducts(active, st.filter), st.page) == []
    ensures r.EmptyState? ==> (r.anyActive <==> |active| > 0)
    ensures r.Grid? ==> r.shown == PageOf(FilteredProducts(active, st.filter), st.page)
    ensures r.Grid? ==> r.pagination == Pagination(|FilteredProducts(active, st.filter)|, st.page)
  {
    var filtered := FilteredProducts(active, st.filter);
    var shown := PageOf(filtered, st.page);
    if |shown| == 0 then EmptyState(|active| > 0)
    else Grid(shown, Pagination(|filtered|, st.page))
  }

  /** `handleFilterClick`: a new filter starts again at page 1. */
  function HandleFilterClick(st: RendererState, filter: string): (r: RendererState)
    ensures r.filter == filter && r.page == 1
  {
    RendererState(filter, 1)
  }

  /** `goToPage`: the page is taken as given, without clamping. */
  function GoToPage(st: RendererState, page: int): (r: RendererState)
    ensures r.filter == st.filter && r.page == page
  {
    st.(page := page)
  }

  /** After a filter click the grid shows the first 15 matching products,
      or the empty state when nothing matches. */
  lemma FilterClickShowsFirstPage(st: RendererState, filter: string, active: seq<Product>)
    ensures var filtered := FilteredProducts(active, filter);
            var v := Render(HandleFilterClick(st, filter), active);
            (|filtered| == 0 <==> v.EmptyState?)
            && (v.Grid? ==> v.shown == filtered[..Min(ItemsPerPage, |filtered|)])
  {
  }

  /** The handler of the previous button on page 1 goes to page 0, whose
      slice is empty: the grid is replaced by the empty-state message and
      the page bar is cleared. (Whether the stylesheet lets that click
      through is not part of this model.) */
  lemma PrevOnFirstPageEmptiesGrid(filter: string, active: seq<Product>)
    requires |FilteredProducts(active, filter)| > ItemsPerPage
    ensures var st := RendererState(filter, 1);
            var bar := Pagination(|FilteredProducts(active, filter)|, 1);
            && bar[0] == Prev(true, 0)
            && Render(GoToPage(st, bar[0].target), active) == EmptyState(true)
  {
    var filtered := FilteredProducts(active, filter);
    assert TotalPages(|filtered|) > 1;
    assert |active| > 0 by {
      if filter != "all" {
        assert filtered[0] in active;
      }
    }
  }
}
