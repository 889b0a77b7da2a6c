/** The storefront's local catalogue (data-manager.js): the product and
    section lists kept in local storage, filtered and sorted on request. */
module DataManager {
  import opened Js
  import opened Catalog
  import Sorting

  /** The filter object of `getProducts`. A missing `active` is None; the
      text filters use "" for "not given"; `sort` "" means no sorting. */
  datatype Filters = Filters(active: Option<bool>, category: string, section: string, featured: bool, sort: string)

  const NoFilters := Filters(None, "", "", false, "")

  /** Every supplied filter holds: `active` by strict equality, category and
      section by equality, `featured` by truthiness. */
  predicate Matches(p: Product, f: Filters) {
    && (f.active.None? || p.active == Some(f.active.value))
    && (f.category == "" || p.category == f.category)
    && (f.section == "" || p.section == f.section)
    && (!f.featured || p.featured)
  }

  /** The stored products satisfying all filters, in stored order. */
  function Select(ps: seq<Product>, f: Filters): (r: seq<Product>)
    ensures forall i :: 0 <= i < |r| ==> Matches(r[i], f) && r[i] in ps
    ensures forall i :: 0 <= i < |ps| && Matches(ps[i], f) ==> ps[i] in r
  {
    Filter(ps, (p: Product) => Matches(p, f))
  }

  /** The filters of `getProducts`, applied one after another as the code
      does; the result is the single conjunctive selection. */
  function ApplyFilters(ps: seq<Product>, f: Filters): (r: seq<Product>)
    ensures r == Select(ps, f)
  {
    var a := if f.active.Some? then Filter(ps, (p: Product) => p.active == Some(f.active.value)) else ps;
    var b := if f.category != "" then Filter(a, (p: Product) => p.category == f.category) else a;
    var c := if f.section != "" then Filter(b, (p: Product) => p.section == f.section) else b;
    var d := if f.featured then Filter(c, (p: Product) => p.featured) else c;
    ApplyFiltersIsSelect(ps, f);
    d
  }

  lemma ApplyFiltersIsSelect(ps: seq<Product>, f: Filters)
    ensures
      var a := if f.active.Some? then Filter(ps, (p: Product) => p.active == Some(f.active.value)) else ps;
      var b := if f.category != "" then Filter(a, (p: Product) => p.category == f.category) else a;
      var c := if f.section != "" then Filter(b, (p: Product) => p.section == f.section) else b;
      var d := if f.featured then Filter(c, (p: Product) => p.featured) else c;
      d == Select(ps, f)
  {
    var pa := (p: Product) => f.active.None? || p.active == Some(f.active.value);
    var pb := (p: Product) => pa(p) && (f.category == "" || p.category == f.category);
    var pc := (p: Product) => pb(p) && (f.section == "" || p.section == f.section);
    var pd := (p: Product) => pc(p) && (!f.featured || p.featured);
    var a := if f.active.Some? then Filter(ps, (p: Product) => p.active == Some(f.active.value)) else ps;
    if f.active.Some? {
      FilterExt(ps, (p: Product) => p.active == Some(f.active.value), pa);
    } else {
      FilterAll(ps, pa);
    }
    assert a == Filter(ps, pa);
    var b := if f.category != "" then Filter(a, (p: Product) => p.category == f.category) else a;
    if f.category != "" {
      FilterFilter(ps, pa, (p: Product) => p.category == f.category, pb);
    } else {
      FilterExt(ps, pa, pb);
    }
    assert b == Filter(ps, pb);
    var c := if f.section != "" then Filter(b, (p: Product) => p.section == f.section) else b;
    if f.section != "" {
      FilterFilter(ps, pb, (p: Product) => p.section == f.section, pc);
    } else {
      FilterExt(ps, pb, pc);
    }
    assert c == Filter(ps, pc);
    var d := if f.featured then Filter(c, (p: Product) => p.featured) else c;
    if f.featured {
      FilterFilter(ps, pc, (p: Product) => p.featured, pd);
    } else {
      FilterExt(ps, pc, pd);
    }
    FilterExt(ps, pd, (p: Product) => Matches(p, f));
  }

  function PriceKey(p: Product): int { p.price }
  function PriceDescKey(p: Product): int { -p.price }
  function NewestKey(p: Product): int { -CreatedOrEpoch(p) }

  /** The sort switch of `getProducts` (also `sortProducts` of the shop
      page): by price either way, by name under the locale collation
      `collate`, and newest first for "newest" and every other key. */
  function SortProducts(ps: seq<Product>, sort: string, collate: string -> int): (r: seq<Product>)
    ensures multiset(r) == multiset(ps)
    ensures sort == "price_asc" ==> forall i, j :: 0 <= i < j < |r| ==> r[i].price <= r[j].price
    ensures sort == "price_desc" ==> forall i, j :: 0 <= i < j < |r| ==> r[i].price >= r[j].price
    ensures sort == "name" ==> forall i, j :: 0 <= i < j < |r| ==> collate(r[i].name) <= collate(r[j].name)
    ensures sort != "price_asc" && sort != "price_desc" && sort != "name" ==>
              forall i, j :: 0 <= i < j < |r| ==> CreatedOrEpoch(r[i]) >= CreatedOrEpoch(r[j])
  {
    if sort == "price_asc" then Sorting.SortBy(ps, PriceKey)
    else if sort == "price_desc" then
      var r := Sorting.SortBy(ps, PriceDescKey);
      assert forall i, j :: 0 <= i < j < |r| ==> PriceDescKey(r[i]) <= PriceDescKey(r[j]);
      r
    else if sort == "name" then Sorting.SortBy(ps, (p: Product) => collate(p.name))
    else
      var r := Sorting.SortBy(ps, NewestKey);
      assert forall i, j :: 0 <= i < j < |r| ==> NewestKey(r[i]) <= NewestKey(r[j]);
      r
  }

  /** `getProducts(filters)` on the stored list: the selection, sorted only
      when a sort key is given. */
  function GetProducts(ps: seq<Product>, f: Filters, collate: string -> int): (r: seq<Product>)
    ensures f.sort == "" ==> r == Select(ps, f)
    ensures multiset(r) == multiset(Select(ps, f))
    ensures forall i :: 0 <= i < |r| ==> Matches(r[i], f)
  {
    var selected := ApplyFilters(ps, f);
    if f.sort == "" then selected
    else
      var r := SortProducts(selected, f.sort, collate);
      assert forall i :: 0 <= i < |r| ==> r[i] in multiset(selected);
      r
  }

  /** After `updateProducts(ps)`, `getProducts()` gives back exactly `ps`. */
  lemma GetAllIsStored(ps: seq<Product>, collate: string -> int)
    ensures GetProducts(ps, NoFilters, collate) == ps
  {
    FilterAll(ps, (p: Product) => Matches(p, NoFilters));
  }

  /** With a sort key, the listing is the stable sort of the selection: the
      products of one sort key keep their stored order. */
  lemma SortedListingIsStable(ps: seq<Product>, f: Filters, collate: string -> int)
    requires f.sort == "price_asc"
    ensures forall k :: Sorting.WithKey(GetProducts(ps, f, collate), PriceKey, k) == Sorting.WithKey(Select(ps, f), PriceKey, k)
  {
  }

  /** The default of `getFeaturedProducts`. */
  const FeaturedLimit := 8

  /** `getFeaturedProducts(limit)`: the first `limit` featured active products. */
  function GetFeaturedProducts(ps: seq<Product>, limit: int, collate: string -> int): (r: seq<Product>)
    ensures limit >= 0 ==> |r| <= limit
    ensures forall i :: 0 <= i < |r| ==> r[i].featured && ActiveTrue(r[i])
    ensures r <= Select(ps, Filters(Some(true), "", "", true, ""))
    ensures limit >= 0 ==> r == Select(ps, Filters(Some(true), "", "", true, ""))[..Min(limit, |Select(ps, Filters(Some(true), "", "", true, ""))|)]
  {
    var all := GetProducts(ps, Filters(Some(true), "", "", true, ""), collate);
    Slice(all, 0, limit)
  }

  /** `if (limit) products = products.slice(0, limit)`: a limit of 0 or none
      leaves the list whole; a negative limit drops that many from the end. */
  function Limit(ps: seq<Product>, limit: Option<int>): (r: seq<Product>)
    ensures r <= ps
    ensures limit.Some? && limit.value > 0 ==> |r| == if |ps| < limit.value then |ps| else limit.value
    ensures limit.None? || limit.value == 0 ==> r == ps
    ensures limit.Some? && limit.value < 0 ==> |r| == if |ps| + limit.value < 0 then 0 else |ps| + limit.value
  {
    if limit.Some? && limit.value != 0 then Slice(ps, 0, limit.value) else ps
  }

  /** `getProductsByCategory(category, limit)`: a prefix of the active
      products of that category (all active products when category is ""). */
  function GetProductsByCategory(ps: seq<Product>, category: string, limit: Option<int>, collate: string -> int): (r: seq<Product>)
    ensures r <= Select(ps, Filters(Some(true), category, "", false, ""))
    ensures forall i :: 0 <= i < |r| ==> ActiveTrue(r[i]) && (category == "" || r[i].category == category)
    ensures limit.Some? && limit.value > 0 ==> |r| == Min(limit.value, |Select(ps, Filters(Some(true), category, "", false, ""))|)
    ensures limit.None? || limit.value == 0 ==> r == Select(ps, Filters(Some(true), category, "", false, ""))
  {
    Limit(GetProducts(ps, Filters(Some(true), category, "", false, ""), collate), limit)
  }

  /** `getProductsBySection(section, limit)`. */
  function GetProductsBySection(ps: seq<Product>, section: string, limit: Option<int>, collate: string -> int): (r: seq<Product>)
    ensures r <= Select(ps, Filters(Some(true), "", section, false, ""))
    ensures forall i :: 0 <= i < |r| ==> ActiveTrue(r[i]) && (section == "" || r[i].section == section)
    ensures limit.Some? && limit.value > 0 ==> |r| == Min(limit.value, |Select(ps, Filters(Some(true), "", section, false, ""))|)
    ensures limit.None? || limit.value == 0 ==> r == Select(ps, Filters(Some(true), "", section, false, ""))
  {
    Limit(GetProducts(ps, Filters(Some(true), "", section, false, ""), collate), limit)
  }

  /** The query matches the lowercased name, description or category. */
  predicate SearchHit(p: Product, lowerQuery: string) {
    || Includes(Lower(p.name), lowerQuery)
    || Includes(Lower(p.description), lowerQuery)
    || Includes(Lower(p.category), lowerQuery)
  }

  /** `searchProducts(query)`: the active products the lowercased query
      hits, in stored order. */
  function SearchProducts(ps: seq<Product>, query: string, collate: string -> int): (r: seq<Product>)
    ensures forall i :: 0 <= i < |r| ==> r[i] in ps && ActiveTrue(r[i]) && SearchHit(r[i], Lower(query))
    ensures forall i :: 0 <= i < |ps| && ActiveTrue(ps[i]) && SearchHit(ps[i], Lower(query)) ==> ps[i] in r
  {
    var q := Lower(query);
    Filter(GetProducts(ps, Filters(Some(true), "", "", false, ""), collate), (p: Product) => SearchHit(p, q))
  }

  /** An empty query finds every active product. */
  lemma SearchEmptyIsAllActive(ps: seq<Product>, collate: string -> int)
    ensures SearchProducts(ps, "", collate) == Select(ps, Filters(Some(true), "", "", false, ""))
  {
    var all := GetProducts(ps, Filters(Some(true), "", "", false, ""), collate);
    forall i | 0 <= i < |all| ensures SearchHit(all[i], Lower("")) {
      IncludesEmpty(Lower(all[i].name));
    }
    FilterAll(all, (p: Product) => SearchHit(p, Lower("")));
  }

  // ---------------------------------------------------------------------
  // Seeding

  const SampleProducts: seq<Product> := [
    Product(
      1, "", "Пантограф Премиум", 45000, "pantograph", "classic", Some(5),
      "Эксклюзивный пантограф для гардеробной системы",
      ["Высококачественные материалы", "Плавный ход", "Надежная конструкция"],
      map["Материал" := "Массив дерева", "Размеры" := "200x90x45 см", "Вес" := "35 кг"],
      "Новинка", Some(true), true, ["images/products/pantograph1.jpg"], "", None, "")
  ]

  const SampleSections: seq<Section> := [
    Section(1, "Классические", "classic", Some(true)),
    Section(2, "Современные", "modern", Some(true)),
    Section(3, "Премиум", "premium", Some(true))
  ]

  /** The two lists under the keys 'products' and 'sections'; None when the
      key holds nothing (or an empty string). */
  datatype Storage = Storage(products: Option<seq<Product>>, sections: Option<seq<Section>>)

  /** `loadInitialData`: the sample catalogue is written only when no
      product list is stored; an empty stored list counts as stored. */
  function LoadInitialData(st: Storage): (r: Storage)
    ensures st.products.Some? ==> r == st
    ensures st.products.None? ==> r.products == Some(SampleProducts) && r.sections == Some(SampleSections)
  {
    if st.products.None? then Storage(Some(SampleProducts), Some(SampleSections)) else st
  }

  /** Seeding happens at most once: a second load changes nothing. */
  lemma LoadInitialDataIdempotent(st: Storage)
    ensures LoadInitialData(LoadInitialData(st)) == LoadInitialData(st)
  {
  }
}
