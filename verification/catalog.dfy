/** The records the storefront, the admin panel and the API server share:
    products, catalogue sections and the predicates the code tests on them. */
module Catalog {
  import opened Js

  /** A catalogue product. Fields that the code reads with a fallback
      (`stock || 0`, `active !== false`, `createdAt || 0`) are optional;
      text fields use "" for missing. `legacyImage` is the single-image field
      `image` of older records. */
  datatype Product = Product(
    id: int,
    sku: string,
    name: string,
    price: int,
    category: string,
    section: string,
    stock: Option<int>,
    description: string,
    features: seq<string>,
    specs: map<string, string>,
    badge: string,
    active: Option<bool>,
    featured: bool,
    images: seq<string>,
    legacyImage: string,
    createdAt: Option<int>,
    recommended: string)

  /** A catalogue section (a category grouping shown on the site). */
  datatype Section = Section(id: int, name: string, code: string, active: Option<bool>)

  /** `product.stock || 0`. */
  function StockOrZero(p: Product): int {
    p.stock.GetOr(0)
  }

  /** `(product.stock || 0) <= 0`: what every add-to-cart path refuses. */
  predicate OutOfStock(p: Product) {
    StockOrZero(p) <= 0
  }

  /** `product.active !== false`: a missing flag counts as active. */
  predicate NotDeactivated(p: Product) {
    p.active != Some(false)
  }

  /** `product.active === true` (also the truthiness test `product.active`). */
  predicate ActiveTrue(p: Product) {
    p.active == Some(true)
  }

  /** `new Date(product.createdAt || 0)` as a number of milliseconds. */
  function CreatedOrEpoch(p: Product): int {
    p.createdAt.GetOr(0)
  }

  /** `products.findIndex(p => p.id === id)`, None for -1. */
  function IndexOfId(ps: seq<Product>, id: int): (r: Option<nat>)
    ensures r.Some? ==> r.value < |ps| && ps[r.value].id == id
    ensures r.Some? ==> forall j :: 0 <= j < r.value ==> ps[j].id != id
    ensures r.None? ==> forall j :: 0 <= j < |ps| ==> ps[j].id != id
  {
    if |ps| == 0 then None
    else if ps[0].id == id then Some(0)
    else match IndexOfId(ps[1..], id)
      case None => None
      case Some(i) => Some(i + 1)
  }

  /** `products.find(p => p.id === id)`: the first product with that id. */
  function FindById(ps: seq<Product>, id: int): (r: Option<Product>)
    ensures r.None? <==> forall i :: 0 <= i < |ps| ==> ps[i].id != id
    ensures r.Some? ==> r.value.id == id
    ensures r.Some? ==>
              exists i :: 0 <= i < |ps| && ps[i] == r.value && (forall j :: 0 <= j < i ==> ps[j].id != id)
  {
    match IndexOfId(ps, id)
    case None => None
    case Some(i) => Some(ps[i])
  }

  /** Every section code in `sections` is distinct (the UNIQUE constraint). */
  predicate UniqueCodes(sections: seq<Section>) {
    forall i, j :: 0 <= i < j < |sections| ==> sections[i].code != sections[j].code
  }
}
