/** The admin-side copy of the local data manager (adm/data-manager.js):
    the same filters as the storefront's, its own sort keys (an unknown key
    keeps the filtered order), lookups by id and code, and the active-only
    listings. */
module AdmData {
  import opened Js
  import opened Catalog
  import Sorting
  import DataManager

  /** Every product carries a creation date. */
  predicate AllDated(ps: seq<Product>) {
    forall i :: 0 <= i < |ps| ==> ps[i].createdAt.Some?
  }

  /** `order` returns a rearrangement of whatever list it is given. */
  ghost predicate Permutes(order: seq<Product> -> seq<Product>) {
    forall s :: multiset(order(s)) == multiset(s)
  }

  /** The sort switch of `getProducts`: price either way, name either way
      under the locale collation `collate`, newest first; any other key
      leaves the list as it is.

      The 'newest' comparator has no fallback date: a product without
      `createdAt` becomes an invalid date, every comparison involving it is
      NaN, and the sort reads NaN as "equal". Such a comparator is not
      consistent, and the language leaves the resulting order to the engine;
      `engine` stands for that order and is only known to rearrange its
      input. With every product dated the comparator is consistent and the
      result is the stable sort, newest first. */
  function SortProducts(ps: seq<Product>, sort: string, collate: string -> int,
                        engine: seq<Product> -> seq<Product>): (r: seq<Product>)
    requires Permutes(engine)
    ensures multiset(r) == multiset(ps)
    ensures sort == "price_asc" ==> forall i, j :: 0 <= i < j < |r| ==> r[i].price <= r[j].price
    ensures sort == "price_desc" ==> forall i, j :: 0 <= i < j < |r| ==> r[i].price >= r[j].price
    ensures sort == "name_asc" ==> forall i, j :: 0 <= i < j < |r| ==> collate(r[i].name) <= collate(r[j].name)
    ensures sort == "name_desc" ==> forall i, j :: 0 <= i < j < |r| ==> collate(r[i].name) >= collate(r[j].name)
    ensures sort == "newest" && AllDated(ps) ==>
              AllDated(r) && forall i, j :: 0 <= i < j < |r| ==> r[i].createdAt.value >= r[j].createdAt.value
    ensures sort == "newest" && !AllDated(ps) ==> r == engine(ps)
    ensures sort !in {"price_asc", "price_desc", "name_asc", "name_desc", "newest"} ==> r == ps
  {
    if sort == "price_asc" then Sorting.SortBy(ps, DataManager.PriceKey)
    else if sort == "price_desc" then
      var r := Sorting.SortBy(ps, DataManager.PriceDescKey);
      assert forall i, j :: 0 <= i < j < |r| ==> DataManager.PriceDescKey(r[i]) <= DataManager.PriceDescKey(r[j]);
      r
    else if sort == "name_asc" then Sorting.SortBy(ps, (p: Product) => collate(p.name))
    else if sort == "name_desc" then
      var r := Sorting.SortBy(ps, (p: Product) => -collate(p.name));
      assert forall i, j :: 0 <= i < j < |r| ==> -collate(r[i].name) <= -collate(r[j].name);
      r
    else if sort == "newest" then
      if AllDated(ps) then
        NewestDated(ps);
        Sorting.SortBy(ps, DataManager.NewestKey)
      else engine(ps)
    else ps
  }

  /** Sorting dated products by `NewestKey` puts the later dates first. */
  lemma NewestDated(ps: seq<Product>)
    requires AllDated(ps)
    ensures var r := Sorting.SortBy(ps, DataManager.NewestKey);
      AllDated(r) && forall i, j :: 0 <= i < j < |r| ==> r[i].createdAt.value >= r[j].createdAt.value
  {
    var r := Sorting.SortBy(ps, DataManager.NewestKey);
    forall i | 0 <= i < |r| ensures r[i].createdAt.Some? {
      assert r[i] in multiset(ps);
    }
    assert forall i, j :: 0 <= i < j < |r| ==> DataManager.NewestKey(r[i]) <= DataManager.NewestKey(r[j]);
  }

  /** `getProducts(filters)`: the products satisfying every supplied filter,
      sorted when a sort key is given; the stored list itself is not touched. */
  function GetProducts(ps: seq<Product>, f: DataManager.Filters, collate: string -> int,
                       engine: seq<Product> -> seq<Product>): (r: seq<Product>)
    requires Permutes(engine)
    ensures multiset(r) == multiset(DataManager.Select(ps, f))
    ensures forall i :: 0 <= i < |r| ==> DataManager.Matches(r[i], f)
    ensures f.sort == "price_asc" ==> forall i, j :: 0 <= i < j < |r| ==> r[i].price <= r[j].price
    ensures f.sort == "price_desc" ==> forall i, j :: 0 <= i < j < |r| ==> r[i].price >= r[j].price
    ensures f.sort == "name_asc" ==> forall i, j :: 0 <= i < j < |r| ==> collate(r[i].name) <= collate(r[j].name)
    ensures f.sort == "name_desc" ==> forall i, j :: 0 <= i < j < |r| ==> collate(r[i].name) >= collate(r[j].name)
    ensures f.sort == "newest" && AllDated(DataManager.Select(ps, f)) ==>
              AllDated(r) && forall i, j :: 0 <= i < j < |r| ==> r[i].createdAt.value >= r[j].createdAt.value
    ensures f.sort == "newest" && !AllDated(DataManager.Select(ps, f)) ==> r == engine(DataManager.Select(ps, f))
    ensures f.sort !in {"price_asc", "price_desc", "name_asc", "name_desc", "newest"} ==> r == DataManager.Select(ps, f)
  {
    var selected := DataManager.ApplyFilters(ps, f);
    if f.sort == "" then selected
    else
      var r := SortProducts(selected, f.sort, collate, engine);
      RearrangedSelection(ps, f, r);
      r
  }

  /** A rearrangement of the selection holds only matching products. */
  lemma RearrangedSelection(ps: seq<Product>, f: DataManager.Filters, r: seq<Product>)
    requires multiset(r) == multiset(DataManager.Select(ps, f))
    ensures forall i :: 0 <= i < |r| ==> DataManager.Matches(r[i], f)
  {
    var s := DataManager.Select(ps, f);
    forall i | 0 <= i < |r| ensures DataManager.Matches(r[i], f) {
      assert r[i] in multiset(s);
    }
  }

  /** On the sort keys both data managers know, the admin copy and the
      storefront list the same products in the same order, provided every
      selected product is dated when the key is 'newest'. */
  lemma SortedListingsAgree(ps: seq<Product>, f: DataManager.Filters, collate: string -> int,
                            engine: seq<Product> -> seq<Product>)
    requires Permutes(engine)
    requires f.sort == "price_asc" || f.sort == "price_desc" || f.sort == "newest"
    requires f.sort == "newest" ==> AllDated(DataManager.Select(ps, f))
    ensures GetProducts(ps, f, collate, engine) == DataManager.GetProducts(ps, f, collate)
  {
    var s := DataManager.Select(ps, f);
    if f.sort == "price_asc" {
      assert SortProducts(s, f.sort, collate, engine) == DataManager.SortProducts(s, f.sort, collate);
    } else if f.sort == "price_desc" {
      assert SortProducts(s, f.sort, collate, engine) == DataManager.SortProducts(s, f.sort, collate);
    } else {
      assert SortProducts(s, f.sort, collate, engine) == DataManager.SortProducts(s, f.sort, collate);
    }
  }

  /** Two products alike but for the date: `Undated` has none. */
  const Undated := Product(1, "", "A", 100, "", "", Some(1), "", [], map[], "", Some(true), false, [], "", None, "")
  const Dated := Product(2, "", "B", 100, "", "", Some(1), "", [], map[], "", Some(true), false, [], "", Some(1000), "")
  const NewestFirst := DataManager.Filters(None, "", "", false, "newest")

  lemma SelectPair()
    ensures DataManager.Select([Undated, Dated], NewestFirst) == [Undated, Dated]
  {
    FilterAll([Undated, Dated], (p: Product) => DataManager.Matches(p, NewestFirst));
  }

  /** An engine that leaves the undated pair in place keeps it in the admin
      listing. */
  lemma AdminKeepsMixedPair(collate: string -> int)
    ensures GetProducts([Undated, Dated], NewestFirst, collate, s => s) == [Undated, Dated]
  {
    SelectPair();
    assert !AllDated([Undated, Dated]) by { assert [Undated, Dated][0].createdAt.None?; }
  }

  /** The storefront dates the undated product at the epoch and so lists the
      dated one first. */
  lemma StorefrontReordersMixedPair(collate: string -> int)
    ensures DataManager.GetProducts([Undated, Dated], NewestFirst, collate) == [Dated, Undated]
  {
    SelectPair();
    var ps := [Undated, Dated];
    assert ps[1..] == [Dated];
    assert Sorting.SortBy([Dated], DataManager.NewestKey) == [Dated] by {
      assert [Dated][1..] == [];
    }
    assert Sorting.Insert(Undated, [Dated], DataManager.NewestKey) == [Dated, Undated] by {
      assert [Dated][1..] == [];
    }
  }

  /** Without the date the two listings part ways: for an undated product
      listed before a dated one, an engine that leaves the pair in place
      keeps the admin order, while the storefront puts the dated one first. */
  lemma MixedListingsDisagree(collate: string -> int)
    ensures GetProducts([Undated, Dated], NewestFirst, collate, s => s)
            != DataManager.GetProducts([Undated, Dated], NewestFirst, collate)
  {
    AdminKeepsMixedPair(collate);
    StorefrontReordersMixedPair(collate);
    assert [Undated, Dated][0] != [Dated, Undated][0];
  }

  /** `getProductById(id)`: the first product whose id is `parseInt(id)`;
      failing that, the first whose id equals `id` under loose equality,
      which converts the text with `Number`. */
  function GetProductById(ps: seq<Product>, idText: string): (r: Option<Product>)
    ensures ParseInt(idText).Some? && FindById(ps, ParseInt(idText).value).Some? ==>
              r == FindById(ps, ParseInt(idText).value)
    ensures (ParseInt(idText).None? || FindById(ps, ParseInt(idText).value).None?) ==>
              r == (if NumberOf(idText).Some? then FindById(ps, NumberOf(idText).value) else None)
    ensures r.Some? ==> r.value in ps
  {
    var first := match ParseInt(idText)
      case Some(n) => FindById(ps, n)
      case None => None;
    if first.Some? then first
    else match NumberOf(idText)
      case Some(n) => FindById(ps, n)
      case None => None
  }

  /** A rendered id finds the product with that id. */
  lemma ProductByRenderedId(ps: seq<Product>, id: nat)
    ensures GetProductById(ps, NatToString(id)) == FindById(ps, id)
  {
    ParseIntOfNatToString(id);
    NumberOfNatToString(id);
  }

  /** `getProductsByCategory`: the products of the category with
      `active === true`, in stored order. */
  function GetProductsByCategory(ps: seq<Product>, category: string): (r: seq<Product>)
    ensures forall i :: 0 <= i < |r| ==> r[i].category == category && ActiveTrue(r[i]) && r[i] in ps
    ensures forall i :: 0 <= i < |ps| && ps[i].category == category && ActiveTrue(ps[i]) ==> ps[i] in r
  {
    Filter(ps, (p: Product) => p.category == category && ActiveTrue(p))
  }

  /** `getProductsBySection`: the products of the section with
      `active === true`, in stored order. */
  function GetProductsBySection(ps: seq<Product>, section: string): (r: seq<Product>)
    ensures forall i :: 0 <= i < |r| ==> r[i].section == section && ActiveTrue(r[i]) && r[i] in ps
    ensures forall i :: 0 <= i < |ps| && ps[i].section == section && ActiveTrue(ps[i]) ==> ps[i] in r
  {
    Filter(ps, (p: Product) => p.section == section && ActiveTrue(p))
  }

  /** `getFeaturedProducts`: featured products with `active === true`. */
  function GetFeaturedProducts(ps: seq<Product>): (r: seq<Product>)
    ensures forall i :: 0 <= i < |r| ==> r[i].featured && ActiveTrue(r[i]) && r[i] in ps
    ensures forall i :: 0 <= i < |ps| && ps[i].featured && ActiveTrue(ps[i]) ==> ps[i] in r
  {
    Filter(ps, (p: Product) => p.featured && ActiveTrue(p))
  }

  /** The section listing is the general query for active products of that
      section. */
  lemma SectionListingIsQuery(ps: seq<Product>, section: string, collate: string -> int,
                              engine: seq<Product> -> seq<Product>)
    requires Permutes(engine)
    requires section != ""
    ensures GetProductsBySection(ps, section) == GetProducts(ps, DataManager.Filters(Some(true), "", section, false, ""), collate, engine)
  {
    var f := DataManager.Filters(Some(true), "", section, false, "");
    FilterExt(ps, (p: Product) => p.section == section && ActiveTrue(p), (p: Product) => DataManager.Matches(p, f));
  }

  /** `getSections`: the sections not explicitly deactivated (a missing
      flag counts as active). */
  function GetSections(sections: seq<Section>): (r: seq<Section>)
    ensures forall i :: 0 <= i < |r| ==> r[i].active != Some(false) && r[i] in sections
    ensures forall i :: 0 <= i < |sections| && sections[i].active != Some(false) ==> sections[i] in r
  {
    Filter(sections, (s: Section) => s.active != Some(false))
  }

  /** `getSectionByCode`: the first section with that code. */
  function GetSectionByCode(sections: seq<Section>, code: string): (r: Option<Section>)
    ensures r.None? <==> forall i :: 0 <= i < |sections| ==> sections[i].code != code
    ensures r.Some? ==> r.value.code == code
    ensures r.Some? ==> exists i :: 0 <= i < |sections| && sections[i] == r.value
                                   && forall j :: 0 <= j < i ==> sections[j].code != code
  {
    match FindIndex(sections, (s: Section) => s.code == code)
    case None => None
    case Some(i) => Some(sections[i])
  }
}
