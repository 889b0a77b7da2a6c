/** The shop page in its two versions, Shop/shop.js and shop.js: syncing
    the catalogue from the admin list, the add-to-cart guard and the direct
    add path, the add-to-cart button state, the listing with its search,
    sort and first page, and the page-number window. */
module Shop {
  import opened Js
  import opened Catalog
  import Cart
  import ImageStore
  import DataManager

  // ---------------------------------------------------------------------
  // Sync from the admin list (Shop/shop.js)

  /** The lists the shop reads under 'products' and 'sections'. */
  datatype ShopStorage = ShopStorage(products: Option<seq<Product>>, sections: Option<seq<Section>>)

  const DefaultSections: seq<Section> := [
    Section(1, "Классические", "classic", Some(true)),
    Section(2, "Современные", "modern", Some(true)),
    Section(3, "Премиум", "premium", Some(true))
  ]

  /** `syncWithAdminData`: the admin products whose `active` is not false
      replace the shop list, but only when there is at least one; the
      default sections are written only when none are stored. The second
      component is the returned list. */
  function SyncWithAdminData(admin: Stored<seq<Product>>, st: ShopStorage): (r: (ShopStorage, seq<Product>))
    ensures forall i :: 0 <= i < |r.1| ==> NotDeactivated(r.1[i])
    ensures admin.Parsed? ==>
              forall i :: 0 <= i < |admin.value| && NotDeactivated(admin.value[i]) ==> admin.value[i] in r.1
    ensures |r.1| == 0 ==> r.0 == st
    ensures |r.1| > 0 ==> admin.Parsed? && r.0.products == Some(r.1)
    ensures |r.1| > 0 ==> r.0.sections == if st.sections.None? then Some(DefaultSections) else st.sections
  {
    match admin
    case Parsed(products) =>
      var kept := Filter(products, NotDeactivated);
      if |kept| > 0 then
        var sections := if st.sections.None? then Some(DefaultSections) else st.sections;
        (ShopStorage(Some(kept), sections), kept)
      else (st, [])
    case _ => (st, [])
  }

  /** When the admin list is all active, the shop list becomes exactly it. */
  lemma SyncCopiesActiveList(products: seq<Product>, st: ShopStorage)
    requires |products| > 0
    requires forall i :: 0 <= i < |products| ==> NotDeactivated(products[i])
    ensures SyncWithAdminData(Parsed(products), st).0.products == Some(products)
  {
    FilterAll(products, NotDeactivated);
  }

  // ---------------------------------------------------------------------
  // Adding to the cart (Shop/shop.js and shop.js)

  /** `addProductDirectly`: the cart is read from storage (nothing stored
      reads as empty); an existing line gains one unit, otherwise a line of
      quantity 1 is appended whose image comes from the image store when
      there is one, else from the product's first image. None when the
      stored text does not parse: the error is caught and nothing is
      written. No 50-line or 99-unit cap applies on this path. */
  function AddProductDirectly(stored: Stored<seq<Cart.CartItem>>, p: Product, store: Option<ImageStore.Images>)
    : (r: Option<seq<Cart.CartItem>>)
    ensures r.None? <==> stored.Unparsable?
    ensures r.Some? ==> Cart.QuantityOf(r.value, p.id) == Cart.QuantityOf(Cart.LoadCart(stored), p.id) + 1
    ensures r.Some? ==> forall id :: id != p.id ==>
              Cart.QuantityOf(r.value, id) == Cart.QuantityOf(Cart.LoadCart(stored), id)
    ensures r.Some? && Cart.HasLine(Cart.LoadCart(stored), p.id) ==> |r.value| == |Cart.LoadCart(stored)|
    ensures r.Some? && !Cart.HasLine(Cart.LoadCart(stored), p.id) ==>
              r.value == Cart.LoadCart(stored) + [Cart.CartItem(p.id, p.name, p.price, DirectImage(p, store), 1)]
  {
    if stored.Unparsable? then None
    else
      var cart := Cart.LoadCart(stored);
      var r := Cart.AddLine(cart, Cart.ProductData(p.id, p.name, p.price, DirectImage(p, store)));
      assert !Cart.HasLine(cart, p.id) ==> r == cart + [r[|cart|]];
      Some(r)
  }

  /** The image picked for a new line on the direct path. */
  function DirectImage(p: Product, store: Option<ImageStore.Images>): (r: Option<string>)
    ensures store.None? ==> r == (if |p.images| > 0 then Some(p.images[0]) else None)
    ensures store.Some? ==> r == ImageStore.GetProductFirstImage(store.value, p)
  {
    match store
    case Some(images) => ImageStore.GetProductFirstImage(images, p)
    case None => if |p.images| > 0 then Some(p.images[0]) else None
  }

  /** How `handleAddToCart` reaches the cart: through the cart component
      (either the global animated helper or the component itself, which
      build the same line data), or directly through storage. */
  datatype AddRoute = ThroughCartSystem | DirectToStorage(store: Option<ImageStore.Images>)

  datatype AddOutcome =
    | ProductNotFound
    | RefusedOutOfStock
    | AddedViaCart(saved: Cart.Saved)
    | AddedDirectly(written: Option<seq<Cart.CartItem>>)

  /** `handleAddToCart(id)`: an unknown product or one whose stock is
      missing or not positive is refused and no cart is touched. */
  function HandleAddToCart(catalog: seq<Product>, id: int, cart: seq<Cart.CartItem>,
                           stored: Stored<seq<Cart.CartItem>>, route: AddRoute): (r: AddOutcome)
    ensures r.ProductNotFound? <==> FindById(catalog, id).None?
    ensures r.RefusedOutOfStock? <==> FindById(catalog, id).Some? && OutOfStock(FindById(catalog, id).value)
    ensures r.AddedViaCart? <==> FindById(catalog, id).Some? && !OutOfStock(FindById(catalog, id).value)
                                 && route.ThroughCartSystem?
    ensures r.AddedViaCart? && |cart| < Cart.MaxLines ==>
              Cart.QuantityOf(r.saved.memory, id) == Cart.QuantityOf(cart, id) + 1
              && Cart.TotalItems(r.saved.memory) == Cart.TotalItems(cart) + 1
    ensures r.AddedDirectly? ==> route.DirectToStorage?
    ensures r.AddedDirectly? && r.written.Some? ==>
              Cart.QuantityOf(r.written.value, id) == Cart.QuantityOf(Cart.LoadCart(stored), id) + 1
  {
    match FindById(catalog, id)
    case None => ProductNotFound
    case Some(p) =>
      if OutOfStock(p) then RefusedOutOfStock
      else match route
        case ThroughCartSystem => AddedViaCart(Cart.AddProduct(cart, Cart.ProductDataOf(p)))
        case DirectToStorage(store) => AddedDirectly(AddProductDirectly(stored, p, store))
  }

  // ---------------------------------------------------------------------
  // Button state and cart lookups

  /** What an add-to-cart button shows. */
  datatype ButtonState = InCartButton(quantity: int) | SoldOutButton | AvailableButton

  /** `new Map(cart.map(item => [item.id, item.quantity])).get(id)`: with
      duplicate ids the last line wins. */
  function MapQuantity(cart: seq<Cart.CartItem>, id: int): (r: Option<int>)
    ensures r.None? <==> !Cart.HasLine(cart, id)
    ensures r.Some? ==> exists i :: 0 <= i < |cart| && cart[i].id == id && cart[i].quantity == r.value
                                    && (forall j :: i < j < |cart| ==> cart[j].id != id)
  {
    if |cart| == 0 then None
    else
      var last := cart[|cart| - 1];
      if last.id == id then Some(last.quantity)
      else
        var r := MapQuantity(cart[..|cart| - 1], id);
        assert forall j :: 0 <= j < |cart| - 1 ==> cart[..|cart| - 1][j] == cart[j];
        r
  }

  /** `updateCartButtons` for one button: a product in the cart shows its
      quantity; otherwise a product that is unknown or out of stock gets a
      disabled button; otherwise an enabled one. */
  function ButtonFor(cart: seq<Cart.CartItem>, catalog: seq<Product>, id: int): (r: ButtonState)
    ensures r.InCartButton? <==> Cart.HasLine(cart, id)
    ensures r.InCartButton? ==> Some(r.quantity) == MapQuantity(cart, id)
    ensures r.SoldOutButton? <==>
              !Cart.HasLine(cart, id) && (FindById(catalog, id).None? || OutOfStock(FindById(catalog, id).value))
    ensures r.AvailableButton? <==>
              !Cart.HasLine(cart, id) && FindById(catalog, id).Some? && !OutOfStock(FindById(catalog, id).value)
  {
    match MapQuantity(cart, id)
    case Some(q) => InCartButton(q)
    case None =>
      var stock := match FindById(catalog, id) case Some(p) => StockOrZero(p) case None => 0;
      if stock <= 0 then SoldOutButton else AvailableButton
  }

  /** The button drawn with a product card (`renderProductCard`,
      `getProductCardHTML`): out of stock is tested first, then the cart,
      whose line is found with `find` (the first one). */
  function CardButton(cart: seq<Cart.CartItem>, p: Product): (r: ButtonState)
    ensures r.SoldOutButton? <==> OutOfStock(p)
    ensures r.InCartButton? <==> !OutOfStock(p) && Cart.HasLine(cart, p.id)
    ensures r.InCartButton? ==> r.quantity == Cart.QuantityOf(cart, p.id)
  {
    if OutOfStock(p) then SoldOutButton
    else if Cart.HasLine(cart, p.id) then InCartButton(Cart.QuantityOf(cart, p.id))
    else AvailableButton
  }

  predicate DistinctIds(cart: seq<Cart.CartItem>) {
    forall i, j :: 0 <= i < j < |cart| ==> cart[i].id != cart[j].id
  }

  /** Adding through the cart never creates a second line for an id. */
  lemma AddLineKeepsIdsDistinct(cart: seq<Cart.CartItem>, p: Cart.ProductData)
    requires DistinctIds(cart)
    ensures DistinctIds(Cart.AddLine(cart, p))
  {
    var r := Cart.AddLine(cart, p);
    if !Cart.HasLine(cart, p.id) {
      forall i | 0 <= i < |cart| ensures cart[i].id != p.id {
      }
    }
  }

  /** Without duplicate ids, the first and the last line for an id agree. */
  lemma MapQuantityIsFirstLine(cart: seq<Cart.CartItem>, id: int)
    requires DistinctIds(cart) && Cart.HasLine(cart, id)
    ensures MapQuantity(cart, id) == Some(Cart.QuantityOf(cart, id))
  {
    var i :| 0 <= i < |cart| && cart[i].id == id && cart[i].quantity == MapQuantity(cart, id).value
             && (forall j :: i < j < |cart| ==> cart[j].id != id);
    var k := Cart.LineIndex(cart, id).value;
    assert i == k;
  }

  /** For a product of the catalogue that is in stock, the card and the
      later button refresh show the same state when ids are distinct. */
  lemma CardMatchesRefresh(cart: seq<Cart.CartItem>, catalog: seq<Product>, p: Product)
    requires DistinctIds(cart)
    requires FindById(catalog, p.id) == Some(p) && !OutOfStock(p)
    ensures CardButton(cart, p) == ButtonFor(cart, catalog, p.id)
  {
    if Cart.HasLine(cart, p.id) {
      MapQuantityIsFirstLine(cart, p.id);
    }
  }

  /** For an out-of-stock product already in the cart, the two disagree:
      the card says sold out, the refresh says "in cart". */
  lemma CardAndRefreshDisagreeWhenSoldOut()
    ensures var p := Product(7, "", "Лифт", 100, "kitchen", "", Some(0), "", [], map[], "", Some(true),
                             false, [], "", None, "");
            var cart := [Cart.CartItem(7, "Лифт", 100, None, 2)];
            CardButton(cart, p) == SoldOutButton && ButtonFor(cart, [p], 7) == InCartButton(2)
  {
    var cart := [Cart.CartItem(7, "Лифт", 100, None, 2)];
    assert Cart.HasLine(cart, 7) by { assert cart[0].id == 7; }
  }

  /** `isProductInCart`: whether some stored line has the id; false when the
      stored text does not parse. */
  function IsProductInCart(stored: Stored<seq<Cart.CartItem>>, id: int): (r: bool)
    ensures r <==> stored.Parsed? && exists i :: 0 <= i < |stored.value| && stored.value[i].id == id
  {
    !stored.Unparsable? && Cart.HasLine(Cart.LoadCart(stored), id)
  }

  /** `getProductCartQuantity` (and the quantity on a card): the quantity on
      the first stored line with the id, 0 when there is none or the stored
      text does not parse. */
  function CartQuantity(stored: Stored<seq<Cart.CartItem>>, id: int): (r: int)
    ensures !IsProductInCart(stored, id) ==> r == 0
    ensures IsProductInCart(stored, id) ==>
              exists i :: 0 <= i < |stored.value| && stored.value[i].id == id && stored.value[i].quantity == r
                          && (forall j :: 0 <= j < i ==> stored.value[j].id != id)
  {
    if stored.Unparsable? then 0
    else
      var cart := Cart.LoadCart(stored);
      match Cart.LineIndex(cart, id)
      case None => 0
      case Some(i) => cart[i].quantity
  }

  // ---------------------------------------------------------------------
  // Stock label (Shop/shop.js)

  datatype StockLabel = InStockLabel | RemainingLabel(count: int) | NoStockLabel

  /** The stock line of a card: more than 5 is "in stock", 1..5 shows the
      count, and a missing or non-positive stock is "out of stock". */
  function StockLabelOf(stock: Option<int>): (r: StockLabel)
    ensures r == InStockLabel <==> stock.Some? && stock.value > 5
    ensures r.RemainingLabel? <==> stock.Some? && 0 < stock.value <= 5
    ensures r.RemainingLabel? ==> r.count == stock.value
    ensures r == NoStockLabel <==> stock.None? || stock.value <= 0
  {
    match stock
    case None => NoStockLabel
    case Some(n) => if n > 5 then InStockLabel else if n > 0 then RemainingLabel(n) else NoStockLabel
  }

  // ---------------------------------------------------------------------
  // Listing, search and filters

  /** The filter state of the page. `search` is kept lowercased, as the input
      handler lowercases it. */
  datatype ShopFilters = ShopFilters(category: string, section: string, sort: string, search: string)

  /** The search input handler. */
  function WithSearch(f: ShopFilters, input: string): (r: ShopFilters)
    ensures r.search == Lower(input)
    ensures r.category == f.category && r.section == f.section && r.sort == f.sort
  {
    f.(search := Lower(input))
  }

  /** `clearFilters`. */
  function ClearFilters(): (r: ShopFilters)
    ensures r.category == "" && r.section == "" && r.search == "" && r.sort == "newest"
  {
    ShopFilters("", "", "newest", "")
  }

  /** The search step of `renderProducts` (shop.js): with a non-empty query,
      the products hit by it, in order; with an empty one, all of them. */
  function SearchFilter(ps: seq<Product>, search: string): (r: seq<Product>)
    ensures search == "" ==> r == ps
    ensures forall i :: 0 <= i < |r| ==> r[i] in ps && DataManager.SearchHit(r[i], search)
    ensures forall i :: 0 <= i < |ps| && DataManager.SearchHit(ps[i], search) ==> ps[i] in r
  {
    if search != "" then Filter(ps, (p: Product) => DataManager.SearchHit(p, search))
    else
      assert forall i :: 0 <= i < |ps| ==> DataManager.SearchHit(ps[i], search) by {
        forall i | 0 <= i < |ps| ensures DataManager.SearchHit(ps[i], search) {
          IncludesEmpty(Lower(ps[i].name));
        }
      }
      ps
  }

  /** A product the listing of shop.js shows: active, of the chosen category
      and section (when chosen), and hit by the search. */
  predicate Listed(p: Product, f: ShopFilters) {
    && ActiveTrue(p)
    && (f.category == "" || p.category == f.category)
    && (f.section == "" || p.section == f.section)
    && DataManager.SearchHit(p, f.search)
  }

  /** The filters shop.js passes to `getProducts`. */
  function ListingFilters(f: ShopFilters): DataManager.Filters {
    DataManager.Filters(Some(true), f.category, f.section, false, f.sort)
  }

  /** The search step is a filter on the search hits, the empty query
      included. */
  lemma SearchFilterIsFilter(ps: seq<Product>, search: string)
    ensures SearchFilter(ps, search) == Filter(ps, (p: Product) => DataManager.SearchHit(p, search))
  {
    if search == "" {
      FilterAll(ps, (p: Product) => DataManager.SearchHit(p, search));
    }
  }

  /** The listed products of `ps`, in stored order. */
  function ListedIn(ps: seq<Product>, f: ShopFilters): seq<Product> {
    Filter(ps, (p: Product) => Listed(p, f))
  }

  /** Searching the selection is selecting the listed products. */
  lemma SearchOfSelection(ps: seq<Product>, f: ShopFilters)
    ensures Filter(DataManager.Select(ps, ListingFilters(f)), (p: Product) => DataManager.SearchHit(p, f.search))
            == ListedIn(ps, f)
  {
    FilterFilter(ps, (p: Product) => DataManager.Matches(p, ListingFilters(f)),
                 (p: Product) => DataManager.SearchHit(p, f.search), (p: Product) => Listed(p, f));
  }

  /** The listing of shop.js: exactly the active products of the chosen
      category and section that the search hits, each as often as stored;
      in stored order without a sort key, otherwise in the order of the key
      (an unknown key sorts newest first). */
  function Listing(ps: seq<Product>, f: ShopFilters, collate: string -> int): (r: seq<Product>)
    ensures forall i :: 0 <= i < |r| ==> Listed(r[i], f)
    ensures forall i :: 0 <= i < |ps| && Listed(ps[i], f) ==> ps[i] in r
    ensures multiset(r) == multiset(ListedIn(ps, f))
    ensures f.sort == "" ==> r == ListedIn(ps, f)
    ensures f.sort == "price_asc" ==> forall i, j :: 0 <= i < j < |r| ==> r[i].price <= r[j].price
    ensures f.sort == "price_desc" ==> forall i, j :: 0 <= i < j < |r| ==> r[i].price >= r[j].price
    ensures f.sort == "name" ==> forall i, j :: 0 <= i < j < |r| ==> collate(r[i].name) <= collate(r[j].name)
    ensures f.sort !in {"", "price_asc", "price_desc", "name"} ==>
              forall i, j :: 0 <= i < j < |r| ==> CreatedOrEpoch(r[i]) >= CreatedOrEpoch(r[j])
  {
    var r := SearchFilter(DataManager.GetProducts(ps, ListingFilters(f), collate), f.search);
    ListingContents(ps, f, collate);
    RearrangedListed(ps, f, r);
    ListingOrder(ps, f, collate);
    r
  }

  /** The listing holds exactly the listed products, as often as stored. */
  lemma ListingContents(ps: seq<Product>, f: ShopFilters, collate: string -> int)
    ensures var r := SearchFilter(DataManager.GetProducts(ps, ListingFilters(f), collate), f.search);
            && multiset(r) == multiset(ListedIn(ps, f))
            && (f.sort == "" ==> r == ListedIn(ps, f))
  {
    var g := ListingFilters(f);
    var base := DataManager.GetProducts(ps, g, collate);
    SearchFilterIsFilter(base, f.search);
    SearchOfSelection(ps, f);
    FilterPermutation(base, DataManager.Select(ps, g), (p: Product) => DataManager.SearchHit(p, f.search));
  }

  /** A rearrangement of the listed products holds them all and nothing
      else. */
  lemma RearrangedListed(ps: seq<Product>, f: ShopFilters, r: seq<Product>)
    requires multiset(r) == multiset(ListedIn(ps, f))
    ensures forall i :: 0 <= i < |r| ==> Listed(r[i], f)
    ensures forall i :: 0 <= i < |ps| && Listed(ps[i], f) ==> ps[i] in r
  {
    forall i | 0 <= i < |ps| && Listed(ps[i], f) ensures ps[i] in r {
      assert ps[i] in multiset(ListedIn(ps, f));
    }
    forall i | 0 <= i < |r| ensures Listed(r[i], f) {
      assert r[i] in multiset(ListedIn(ps, f));
    }
  }

  /** The listing keeps the order of the sort key, the search being a
      filter on the sorted list. */
  lemma ListingOrder(ps: seq<Product>, f: ShopFilters, collate: string -> int)
    ensures var r := SearchFilter(DataManager.GetProducts(ps, ListingFilters(f), collate), f.search);
            && (f.sort == "price_asc" ==> forall i, j :: 0 <= i < j < |r| ==> r[i].price <= r[j].price)
            && (f.sort == "price_desc" ==> forall i, j :: 0 <= i < j < |r| ==> r[i].price >= r[j].price)
            && (f.sort == "name" ==> forall i, j :: 0 <= i < j < |r| ==> collate(r[i].name) <= collate(r[j].name))
            && (f.sort !in {"", "price_asc", "price_desc", "name"} ==>
                  forall i, j :: 0 <= i < j < |r| ==> CreatedOrEpoch(r[i]) >= CreatedOrEpoch(r[j]))
  {
    var base := DataManager.GetProducts(ps, ListingFilters(f), collate);
    var hit := (p: Product) => DataManager.SearchHit(p, f.search);
    var r := SearchFilter(base, f.search);
    SearchFilterIsFilter(base, f.search);
    if f.sort == "price_asc" {
      FilterKeepsOrder(base, hit, DataManager.PriceKey);
    } else if f.sort == "price_desc" {
      FilterKeepsOrder(base, hit, DataManager.PriceDescKey);
    } else if f.sort == "name" {
      FilterKeepsOrder(base, hit, (p: Product) => collate(p.name));
    } else if f.sort != "" {
      FilterKeepsOrder(base, hit, DataManager.NewestKey);
    }
  }

  /** After clearing the filters, the listing is every active product,
      newest first. */
  lemma ClearedListingIsAllActive(ps: seq<Product>, collate: string -> int)
    ensures var r := Listing(ps, ClearFilters(), collate);
      multiset(r) == multiset(DataManager.Select(ps, DataManager.Filters(Some(true), "", "", false, "")))
      && forall i, j :: 0 <= i < j < |r| ==> CreatedOrEpoch(r[i]) >= CreatedOrEpoch(r[j])
  {
    var f := DataManager.Filters(Some(true), "", "", false, "newest");
    var g := DataManager.Filters(Some(true), "", "", false, "");
    FilterExt(ps, (p: Product) => DataManager.Matches(p, f), (p: Product) => DataManager.Matches(p, g));
    assert DataManager.Select(ps, f) == DataManager.Select(ps, g);
    assert Listing(ps, ClearFilters(), collate) == DataManager.SortProducts(DataManager.ApplyFilters(ps, f), "newest", collate);
  }

  // ---------------------------------------------------------------------
  // First page and page count (Shop/shop.js)

  const ShopPageSize := 12

  /** `Math.ceil(n / size)` for a positive size. */
  function CeilDiv(n: nat, size: nat): (r: nat)
    requires size > 0
    ensures r * size >= n
    ensures r == 0 || (r - 1) * size < n
  {
    (n + size - 1) / size
  }

  datatype Page = Page(shown: seq<Product>, totalPages: nat)

  /** `list.slice(0, size)`: the first page of a list. */
  function FirstPage<T>(s: seq<T>, size: nat): (r: seq<T>)
    ensures |r| == if |s| < size then |s| else size
    ensures r <= s
  {
    Slice(s, 0, size)
  }

  lemma PrefixMultiset<T>(s: seq<T>, k: nat)
    requires k <= |s|
    ensures multiset(s[..k]) <= multiset(s)
  {
    assert s == s[..k] + s[k..];
  }

  /** The filters Shop/shop.js passes to `getProducts`: active products of
      the chosen category and section, unsorted. */
  function PageFilters(f: ShopFilters): (r: DataManager.Filters)
    ensures r.active == Some(true) && r.category == f.category && r.section == f.section
    ensures !r.featured && r.sort == ""
  {
    DataManager.Filters(Some(true), f.category, f.section, false, "")
  }

  /** The selected products in the page's sort order (`sortProducts`,
      whose default is newest first). */
  function PageOrder(ps: seq<Product>, f: ShopFilters, collate: string -> int): (r: seq<Product>)
    ensures multiset(r) == multiset(DataManager.Select(ps, PageFilters(f)))
    ensures |r| == |DataManager.Select(ps, PageFilters(f))|
    ensures forall i :: 0 <= i < |r| ==> DataManager.Matches(r[i], PageFilters(f))
    ensures f.sort == "price_asc" ==> forall i, j :: 0 <= i < j < |r| ==> r[i].price <= r[j].price
    ensures f.sort == "price_desc" ==> forall i, j :: 0 <= i < j < |r| ==> r[i].price >= r[j].price
    ensures f.sort == "name" ==> forall i, j :: 0 <= i < j < |r| ==> collate(r[i].name) <= collate(r[j].name)
    ensures f.sort != "price_asc" && f.sort != "price_desc" && f.sort != "name" ==>
              forall i, j :: 0 <= i < j < |r| ==> CreatedOrEpoch(r[i]) >= CreatedOrEpoch(r[j])
  {
    var selected := DataManager.GetProducts(ps, PageFilters(f), collate);
    var sorted := DataManager.SortProducts(selected, f.sort, collate);
    RearrangedPage(ps, f, sorted);
    sorted
  }

  /** A rearrangement of the page's selection has its length and holds only
      matching products. */
  lemma RearrangedPage(ps: seq<Product>, f: ShopFilters, r: seq<Product>)
    requires multiset(r) == multiset(DataManager.Select(ps, PageFilters(f)))
    ensures |r| == |DataManager.Select(ps, PageFilters(f))|
    ensures forall i :: 0 <= i < |r| ==> DataManager.Matches(r[i], PageFilters(f))
  {
    var s := DataManager.Select(ps, PageFilters(f));
    assert |multiset(r)| == |multiset(s)|;
    forall i | 0 <= i < |r| ensures DataManager.Matches(r[i], PageFilters(f)) {
      assert r[i] in multiset(s);
    }
  }

  /** `renderProducts` of Shop/shop.js: the first page of 12 of the sorted
      selection (the current page is always 1) and the page count. */
  function ShopPage(ps: seq<Product>, f: ShopFilters, collate: string -> int): (r: Page)
    ensures var n := |DataManager.Select(ps, PageFilters(f))|;
      r.shown == PageOrder(ps, f, collate)[..Min(n, ShopPageSize)]
    ensures var n := |DataManager.Select(ps, PageFilters(f))|;
      |r.shown| == (if n < ShopPageSize then n else ShopPageSize)
    ensures var n := |DataManager.Select(ps, PageFilters(f))|;
      r.totalPages * ShopPageSize >= n && (r.totalPages == 0 || (r.totalPages - 1) * ShopPageSize < n)
    ensures multiset(r.shown) <= multiset(DataManager.Select(ps, PageFilters(f)))
    ensures forall i :: 0 <= i < |r.shown| ==> DataManager.Matches(r.shown[i], PageFilters(f))
    ensures f.sort == "price_asc" ==> forall i, j :: 0 <= i < j < |r.shown| ==> r.shown[i].price <= r.shown[j].price
  {
    var sorted := PageOrder(ps, f, collate);
    var shown := FirstPage(sorted, ShopPageSize);
    PrefixMultiset(sorted, |shown|);
    Page(shown, CeilDiv(|sorted|, ShopPageSize))
  }

  // ---------------------------------------------------------------------
  // Page-number window (Shop/shop.js renderPagination)

  datatype PageToken = PrevButton(target: int) | PageButton(number: int, active: bool) | Dots | NextButton(target: int)

  /** Page `i` gets a numbered button: the first, the last, and the pages
      next to the current one. */
  predicate Numbered(i: int, total: int, current: int) {
    i == 1 || i == total || (current - 1 <= i <= current + 1)
  }

  /** The buttons and dots for pages `i..total`, in page order. */
  function WindowFrom(i: int, total: int, current: int): (r: seq<PageToken>)
    requires i >= 1
    ensures forall x :: 0 <= x < |r| ==> r[x].PageButton? || r[x].Dots?
    decreases total - i
  {
    if i > total then []
    else
      var head := if Numbered(i, total, current) then [PageButton(i, i == current)]
                  else if i == current - 2 || i == current + 2 then [Dots]
                  else [];
      head + WindowFrom(i + 1, total, current)
  }

  /** A page has a button in the window exactly when it is numbered; the
      button is marked active exactly on the current page. */
  lemma {:induction false} WindowButtons(i: int, total: int, current: int)
    requires i >= 1
    ensures forall n, a :: PageButton(n, a) in WindowFrom(i, total, current) <==>
              i <= n <= total && Numbered(n, total, current) && a == (n == current)
    decreases total - i
  {
    if i <= total {
      WindowButtons(i + 1, total, current);
    }
  }

  /** Dots appear exactly for a skipped page two away from the current one. */
  lemma {:induction false} WindowDots(i: int, total: int, current: int)
    requires i >= 1
    ensures Dots in WindowFrom(i, total, current) <==>
              (i <= current - 2 <= total && !Numbered(current - 2, total, current))
              || (i <= current + 2 <= total && !Numbered(current + 2, total, current))
    decreases total - i
  {
    if i <= total {
      WindowDots(i + 1, total, current);
    }
  }

  predicate ButtonsFrom(r: seq<PageToken>, i: int) {
    forall x :: 0 <= x < |r| && r[x].PageButton? ==> i <= r[x].number
  }

  predicate ButtonsIncreasing(r: seq<PageToken>) {
    forall x, y :: 0 <= x < y < |r| && r[x].PageButton? && r[y].PageButton? ==> r[x].number < r[y].number
  }

  /** Buttons appear in increasing page order, none below the start. */
  lemma {:induction false} WindowOrdered(i: int, total: int, current: int)
    requires i >= 1
    ensures ButtonsFrom(WindowFrom(i, total, current), i)
    ensures ButtonsIncreasing(WindowFrom(i, total, current))
    decreases total - i
  {
    if i <= total {
      WindowOrdered(i + 1, total, current);
      var head := if Numbered(i, total, current) then [PageButton(i, i == current)]
                  else if i == current - 2 || i == current + 2 then [Dots]
                  else [];
      var rest := WindowFrom(i + 1, total, current);
      assert ButtonsFrom(rest, i + 1) && ButtonsIncreasing(rest);
      var r := WindowFrom(i, total, current);
      assert r == head + rest;
      forall x | |head| <= x < |r| ensures r[x] == rest[x - |head|] { }
      forall x | 0 <= x < |head| ensures r[x] == head[0] && (r[x].PageButton? ==> r[x].number == i) { }
      forall x | 0 <= x < |r| && r[x].PageButton? ensures i <= r[x].number {
        if x >= |head| {
          assert r[x] == rest[x - |head|];
        }
      }
      forall x, y | 0 <= x < y < |r| && r[x].PageButton? && r[y].PageButton?
        ensures r[x].number < r[y].number
      {
        assert r[y] == rest[y - |head|];
        if x >= |head| {
          assert r[x] == rest[x - |head|];
        }
      }
    }
  }

  /** `renderPagination(total, current)`: nothing for at most one page;
      otherwise a "prev" button when not on the first page, the window, and a
      "next" button when not on the last page. */
  function Pagination(total: int, current: int): (r: seq<PageToken>)
    ensures total <= 1 ==> r == []
    ensures (exists k :: PrevButton(k) in r) <==> total > 1 && current > 1
    ensures (exists k :: NextButton(k) in r) <==> total > 1 && current < total
    ensures total > 1 && current > 1 ==> r[0] == PrevButton(current - 1)
    ensures total > 1 && current < total ==> r[|r| - 1] == NextButton(current + 1)
    ensures forall n, a :: PageButton(n, a) in r <==>
              total > 1 && 1 <= n <= total && Numbered(n, total, current) && a == (n == current)
    ensures Dots in r <==> total > 1 && (1 < current - 2 < total || 1 < current + 2 < total)
  {
    if total <= 1 then []
    else
      var prev := if current > 1 then [PrevButton(current - 1)] else [];
      var next := if current < total then [NextButton(current + 1)] else [];
      var window := WindowFrom(1, total, current);
      WindowButtons(1, total, current);
      WindowDots(1, total, current);
      var r := prev + window + next;
      assert forall t :: t in r <==> t in prev || t in window || t in next;
      assert forall k :: PrevButton(k) !in window && NextButton(k) !in window;
      r
  }
}
