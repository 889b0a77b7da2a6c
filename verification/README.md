# MASHOPP furniture shop — a Dafny model of its core

MASHOPP is a furniture e-commerce site. The browser side has a storefront:
- catalogue pages with filters, sorting and paging;
- a product page;
- a shopping cart kept in local storage;
- a local admin panel;
- an image store in local storage;
- a backup import;
- form and time helpers.

Behind it are two versions of an Express/SQLite product API, `server.js` and
`Utils/server.js`, and an admin client with a login guard.

This project models that behaviour in Dafny 4.11:
- Data is immutable datatypes: products, cart lines, sections, database rows
  and storage states.
- Operations are pure functions.
- Properties are contracts and lemmas.

Local storage is a value passed in and returned. A stored entry is `Stored<T>`:
- `Absent` — no entry;
- `Unparsable` — text that `JSON.parse` rejects;
- `Parsed(value)`.

The clock, `Math.random`, the locale collation, SQLite's `LIKE`, the credential
check and the server's answers are parameters. The JavaScript built-ins the
code relies on live in module `Js` and are written out there:
- truthiness;
- `parseInt` and `Number` on integer text;
- `trim`, `split` / `join`, `slice` with negative bounds;
- the truncating `%`, `find` / `findIndex` and `filter`.

`Array.prototype.sort` is stable, and `Sorting.SortBy` models it as a stable
insertion sort.

Modules follow the source files:

| module | file(s) |
|---|---|
| `Js`, `Sorting`, `Catalog` | shared built-ins and the product/section records |
| `Cart` | cart-system.js |
| `Shop` | Shop/shop.js and shop.js |
| `Piece` | Pieces/piece.js |
| `Home` | index.js and faq.js |
| `Renderer` | product-renderer.js |
| `DataManager` | data-manager.js |
| `AdmData` | adm/data-manager.js |
| `ImageStore` | image-manager.js |
| `AdminAuth` | admin/admin-auth.js |
| `AdminDb` | admin/admin-db.js |
| `AdminPanel` | Utils/admin-panel.js |
| `ImportExport` | Utils/import-export.js |
| `FormUtils` | Utils/utils.js |
| `Server` | Utils/server.js and server.js |

Where the two shop scripts or the two servers differ, both variants are
modelled and a lemma states the difference.

Behaviour worth knowing that is not a defect of the kind listed under Findings:
- **Product-grid prev button.** Its handler stays active on page 1 while the
  button only looks disabled. Going to page 0 replaces the grid with the
  empty-state message (`Renderer.PrevOnFirstPageEmptiesGrid`).
- **Stock wording.** The product page and the shop card word the stock
  differently at exactly 5 items and for a missing stock
  (`Piece.PageAndCardStockAgree`).
- **Sold-out products in the cart.** The card shows "sold out" for an
  out-of-stock product that is in the cart, while the later button refresh shows
  "in cart" (`Shop.CardAndRefreshDisagreeWhenSoldOut`).
- **Clearing a section.** On `server.js`, clearing a product's section
  deactivates it but keeps the old section, because `''` is falsy. On
  `Utils/server.js` the section is cleared (`Server.ClearedSectionOutcomes`).
- **Stale image after a save.** An image left after the saved ones is read back
  as part of the product (`ImageStore.StaleImageReappears`).
- **FAQ double click.** Two clicks on the same FAQ item restore the state it had
  before the first click (`Home.DoubleClick`).
- **Shop/shop.js search.** The page passes a search term to
  `data-manager.js`'s `getProducts`, which ignores it. The page's search box
  therefore has no effect there (`Shop.PageFilters`).
- **Blank specification key.** A specification line whose key is only spaces is
  accepted under the empty key (`AdminDb.SpecLineAtFirstColon`).
- **Blank price on update.** Utils/server.js validates the price with
  `Number`, which reads a blank text as 0, but stores `parseFloat` of it,
  which is NaN. The database refuses the NULL price and the route answers 500
  (`Server.BlankPriceRefused`).
- **Undated products under 'newest'.** The storefront sorts a product without
  a date as the oldest, while the admin panel's comparator leaves its place to
  the engine. For an undated product followed by a dated one, the admin list
  can keep them in that order while the storefront swaps them
  (`AdmData.MixedListingsDisagree`).

## Model

| member | source | states |
|---|---|---|
| Catalog.FindById | data-manager.js:123-126 | the product found is the first with that id; none iff no product has it |
| Sorting.SortBy | data-manager.js:90-107 | the result is in key order, a permutation of the input, and products with equal keys keep their relative order (stability) |
| Sorting.SortIdempotent | data-manager.js:90-107 | sorting an already sorted list changes nothing |
| Cart.LineIndex | cart-system.js:64 | the line found is the first with the product id; none iff the cart has no such line |
| Cart.TotalsConcat | cart-system.js:344-346 | item count and cart total are additive over a split of the cart |
| Cart.TotalItemsUpdate | cart-system.js:268-270 | replacing one line changes the item count by exactly the change of that line's quantity |
| Cart.AddLine | cart-system.js:63-76 | the product's quantity grows by one, every other product's quantity is unchanged, the item count grows by one, and a new line appears only when the product was absent |
| Cart.LineIndexSameIds | cart-system.js:64 | lines are looked up by id alone |
| Cart.LineIndexAppend | cart-system.js:64-75 | appending a line only affects lookups of an id not already present |
| Cart.CompactItem | cart-system.js:172-178 | the persisted line keeps id, name, price and quantity, stores at most the first 100 characters of the image URL, and stores an empty URL as null |
| Cart.Compact | cart-system.js:172-178 | every line is compacted, in order |
| Cart.SaveCart | cart-system.js:163-178 | a cart over 50 lines is cut to its first 50 in memory too, and exactly the compacted lines are stored |
| Cart.SaveIdempotent | cart-system.js:163-178 | a second save right after the first changes nothing |
| Cart.LoadCart | cart-system.js:16-24 | a missing or unparsable entry loads as an empty cart, otherwise the stored lines |
| Cart.CompactItemIdempotent | cart-system.js:172-178 | compacting a compacted line changes nothing |
| Cart.ReloadResaveStable | cart-system.js:16-24 | reloading and re-saving what was stored writes the same lines (persisted form is a fixed point) |
| Cart.AddProduct | cart-system.js:63-76 | below 50 lines, adding increases the item count by exactly one; the cart never exceeds 50 lines, so at 50 lines a new product's line is cut off again by the save and the cart keeps its first 50 lines |
| Cart.WithoutId | cart-system.js:128 | no line of the id is left, and every line of another product is kept |
| Cart.WithoutIdKeepsOthers | cart-system.js:128 | exactly the lines of the id go: the length drops by their number and every other line keeps its multiplicity |
| Cart.WithoutIdConcat | cart-system.js:128 | removal works line by line over a split of the cart, so the kept lines stay in order |
| Cart.RemoveTotal | cart-system.js:124-132 | removing a product subtracts exactly its units from the item count |
| Cart.RemoveAbsent | cart-system.js:128 | removing a product not in the cart leaves the cart unchanged |
| Cart.RemoveProduct | cart-system.js:124-132 | after removal no line of that product is left, the count drops by its units, the cart shrinks by exactly its lines, and every other line is kept as often as it was |
| Cart.UpdateQuantity | cart-system.js:135-160 | an unknown id does nothing; a change taking the quantity below 1 removes the line; the removal is exactly RemoveProduct, so every other line survives; otherwise the quantity becomes old plus change capped at 99, staying within 1..99; the found line changes only its quantity and every other line is unchanged |
| Cart.ClearCart | cart-system.js:240-242 | clearing leaves an empty cart with zero count and total |
| Cart.ParsePrice | cart-system.js:100-103 | the price is the number formed by all digits of the text, 0 when it has none |
| Cart.OnlyDigitsConcat | cart-system.js:102 | digit extraction distributes over concatenation |
| Cart.ParsePriceOfRendered | cart-system.js:100-103 | a price rendered in decimal, with digit-free text around it, parses back to itself |
| Cart.ProductDataOf | Shop/shop.js:163-168 | the data handed to the cart keeps id, name and price, and carries the first image exactly when the product has one |
| ImageStore.KeyInjective | image-manager.js:79 | different image indices of one SKU never share a storage key |
| ImageStore.GetImage | image-manager.js:56-62 | an image reads as present iff its key is stored with non-empty data |
| ImageStore.SaveImage | image-manager.js:30-53 | data over 100000 characters is refused and leaves the store unchanged; otherwise exactly that key is set |
| ImageStore.RemoveImage | image-manager.js:65-68 | the key is gone and every other entry is unchanged |
| ImageStore.Run | image-manager.js:95-106 | the product's images from index i are the maximal run of consecutive present keys |
| ImageStore.RunUnique | image-manager.js:95-106 | that run is the only sequence that reads back and is followed by a missing key |
| ImageStore.GetProductImages | image-manager.js:89-110 | no SKU gives no images; otherwise the consecutive stored images from index 0 |
| ImageStore.GetProductFirstImage | image-manager.js:113-120 | the stored image 0 when present, else the product's own first image, else null |
| ImageStore.FirstImageIsHeadOfRun | image-manager.js:113-120 | the first image agrees with the head of the product's image list |
| ImageStore.SaveFrom | image-manager.js:77-82 | the number of successful saves is the number of images within the size limit, so all succeed iff all fit |
| ImageStore.SaveProductImages | image-manager.js:71-86 | no SKU or no images saves nothing; otherwise the answer is true iff at least one image fit |
| ImageStore.SavedSomeIff | image-manager.js:77-85 | some save succeeded iff some image fits the limit |
| ImageStore.SaveFromEffect | image-manager.js:77-82 | a fitting image is written under its key; an oversize one is skipped and its key keeps its old entry or stays absent; other entries are untouched and no other key appears |
| ImageStore.SavedImagesRead | image-manager.js:77-82 | after a save in which every image fits, each non-empty image reads back at its key |
| ImageStore.SavedNextUnchanged | image-manager.js:77-82 | a save does not touch the key right after the saved images |
| ImageStore.SaveThenGet | image-manager.js:71-110 | round trip: saved non-empty images read back as the same list when no stale image follows them |
| ImageStore.StaleImageReappears | image-manager.js:71-110 | saving one image over two older ones reads back two images |
| ImageStore.KeptKeys | image-manager.js:123-142 | the kept keys are exactly the image keys of the used SKUs' runs |
| ImageStore.CleanupUnusedImages | image-manager.js:123-147 | cleanup deletes exactly the entries that are not images of a used SKU and changes no value |
| ImageStore.CleanupRead | image-manager.js:123-142 | after cleanup a key reads as before when kept and as missing otherwise |
| ImageStore.CleanupKeepsUsedImages | image-manager.js:123-142 | cleanup never changes the images read for a used SKU |
| ImageStore.Kilobytes | image-manager.js:162 | the size figure is total/1024 rounded to the nearest integer, halves up |
| DataManager.Select | data-manager.js:71-88 | exactly the stored products that meet every supplied filter, in stored order |
| DataManager.ApplyFilters | data-manager.js:71-88 | applying the filters one after another equals the single conjunctive selection |
| DataManager.ApplyFiltersIsSelect | data-manager.js:71-88 | the chain of four filters in the source's order is the conjunctive selection |
| DataManager.SortProducts | data-manager.js:90-107 | the sorted list is a permutation ordered by price up or down, by collated name, or newest first for every other key |
| DataManager.GetProducts | data-manager.js:70-111 | the listing holds exactly the matching products, unsorted when no sort key is given |
| DataManager.GetAllIsStored | data-manager.js:164-166 | after storing a list, the unfiltered listing returns it unchanged |
| DataManager.SortedListingIsStable | data-manager.js:90-95 | products of equal price keep their stored order |
| DataManager.GetFeaturedProducts | data-manager.js:129-131 | for a non-negative limit, exactly the first min(limit, n) of the n featured active products, in stored order |
| DataManager.Limit | data-manager.js:137-139 | `slice(0, limit)`: 0 or no limit keeps all, a positive one keeps that many, a negative one drops from the end |
| DataManager.GetProductsByCategory | data-manager.js:134-141 | a prefix of the active products of the category: all of them without a limit or with 0, exactly min(limit, n) for a positive limit |
| DataManager.GetProductsBySection | data-manager.js:143-149 | a prefix of the active products of the section: all of them without a limit or with 0, exactly min(limit, n) for a positive limit |
| DataManager.SearchProducts | data-manager.js:152-161 | exactly the active products whose name, description or category contains the lowercased query |
| DataManager.SearchEmptyIsAllActive | data-manager.js:152-161 | an empty query finds every active product |
| DataManager.LoadInitialData | data-manager.js:29-34 | the sample catalogue is written only when no product list is stored |
| DataManager.LoadInitialDataIdempotent | data-manager.js:29-34 | seeding happens at most once |
| AdmData.SortProducts | adm/data-manager.js:67-85 | a permutation ordered by price or collated name either way; for 'newest', newest first when every product is dated, otherwise the engine's order for a comparator that answers NaN; an unknown key keeps the filtered order |
| AdmData.GetProducts | adm/data-manager.js:35-88 | exactly the matching products, in the order of the sort key: price or collated name either way, newest first when every selected product is dated (the engine's order otherwise), the filtered order for any other key |
| AdmData.SortedListingsAgree | adm/data-manager.js:67-85 | on the price keys, and on 'newest' when every selected product is dated, the admin and storefront listings are identical |
| AdmData.AdminKeepsMixedPair | adm/data-manager.js:81-83 | an undated product listed before a dated one stays first under an engine that leaves the pair in place |
| AdmData.StorefrontReordersMixedPair | data-manager.js:102-105 | the storefront dates a product without `createdAt` at the epoch and lists the dated one first |
| AdmData.MixedListingsDisagree | adm/data-manager.js:81-83 | for that pair the two data managers give different 'newest' listings |
| AdmData.GetProductById | adm/data-manager.js:90-104 | the lookup tries `parseInt(id)` and then the loosely equal number, finding a stored product or nothing |
| AdmData.ProductByRenderedId | adm/data-manager.js:90-104 | a decimal id text finds the product with that id |
| AdmData.GetProductsByCategory | adm/data-manager.js:106-110 | exactly the active products of the category |
| AdmData.GetProductsBySection | adm/data-manager.js:112-116 | exactly the active products of the section |
| AdmData.GetFeaturedProducts | adm/data-manager.js:118-122 | exactly the featured active products |
| AdmData.SectionListingIsQuery | adm/data-manager.js:112-116 | the section listing equals the general query for active products of that section |
| AdmData.GetSections | adm/data-manager.js:124-126 | exactly the sections not explicitly deactivated |
| AdmData.GetSectionByCode | adm/data-manager.js:128-130 | the first section with the code; none iff no section has it |
| Shop.SyncWithAdminData | Shop/shop.js:86-116 | the shop list becomes the admin products not deactivated, only when there is at least one; default sections are written only when none are stored |
| Shop.SyncCopiesActiveList | Shop/shop.js:90-95 | an all-active admin list is copied exactly |
| Shop.AddProductDirectly | Shop/shop.js:176-223 | the stored cart gains one unit of the product and no other quantity changes; an unparsable cart writes nothing |
| Shop.DirectImage | Shop/shop.js:190-196 | a new line's image comes from the image store when it is available, else from the product's first image |
| Shop.HandleAddToCart | Shop/shop.js:144-173 | an unknown product or one out of stock is refused; otherwise exactly one unit is added through the cart system or directly to storage |
| Shop.MapQuantity | Shop/shop.js:248 | the quantity map keeps the last line for a duplicated id |
| Shop.ButtonFor | Shop/shop.js:235-273 | a product in the cart shows its quantity; else unknown or out-of-stock products get a disabled button, others an enabled one |
| Shop.CardButton | Shop/shop.js:475-545 | the card tests stock first, then the cart's first line for the product |
| Shop.AddLineKeepsIdsDistinct | cart-system.js:63-76 | adding through the cart never creates a duplicate line |
| Shop.MapQuantityIsFirstLine | Shop/shop.js:248 | without duplicate ids the map's quantity is the line's quantity |
| Shop.CardMatchesRefresh | Shop/shop.js:235-273 | for an in-stock product the card and the button refresh agree |
| Shop.CardAndRefreshDisagreeWhenSoldOut | Shop/shop.js:475-545 | a sold-out product already in the cart is "sold out" on the card but "in cart" after a refresh |
| Shop.IsProductInCart | Shop/shop.js:548-555 | true iff the parsed stored cart has a line with the id |
| Shop.CartQuantity | Shop/shop.js:557-565 | the quantity of the first stored line with the id, else 0 |
| Shop.StockLabelOf | Shop/shop.js:524-525 | more than 5 is in stock, 1..5 shows the count, missing or non-positive is out of stock |
| Shop.WithSearch | shop.js:42-43 | the search filter becomes the lowercased input; other filters are kept |
| Shop.ClearFilters | Shop/shop.js:622-636 | every filter is reset and the sort goes back to newest |
| Shop.SearchFilter | shop.js:303-309 | exactly the products the query hits, in order; an empty query keeps all |
| Shop.Listing | shop.js:291-320 | exactly the active products of the chosen category and section that the search hits, each as often as stored; stored order without a sort key, else ordered by price either way, by collated name, or newest first for any other key |
| Shop.ListingContents | shop.js:291-308 | the listing is a rearrangement of the listed products, and with no sort key it is them in stored order |
| Shop.ListingOrder | shop.js:294-308 | searching the sorted list keeps the order of the sort key |
| Shop.ClearedListingIsAllActive | shop.js:429-435 | after clearing filters the listing is all active products, newest first |
| Shop.CeilDiv | Shop/shop.js:448 | the page count is the least number of pages that hold the products |
| Shop.FirstPage | Shop/shop.js:451-453 | page 1 is the first `size` products |
| Shop.PageFilters | Shop/shop.js:434-439 | the page asks for active products of the category and section; the search term is ignored |
| Shop.PageOrder | Shop/shop.js:567-579 | a permutation of the selection, ordered by price either way, by collated name, or newest first for 'newest' and every other key |
| Shop.ShopPage | Shop/shop.js:423-473 | the page shows the first 12 (or all, when fewer) of the sorted selection, drawn from the selection, and the least page count holding it |
| Shop.WindowButtons | Shop/shop.js:598-604 | a page has a button iff it is first, last or next to the current one; only the current one is active |
| Shop.WindowDots | Shop/shop.js:601-602 | dots appear iff a page two away from the current one is skipped |
| Shop.WindowOrdered | Shop/shop.js:598-604 | buttons appear in increasing page order |
| Shop.Pagination | Shop/shop.js:581-614 | no bar for at most one page; prev iff not on the first page, next iff not on the last, plus the numbered window and dots |
| Piece.LoadProduct | Pieces/piece.js:59-87 | a NaN or zero id shows the error at once; otherwise the page shows the first answer among at most four attempts, and the error iff all four are empty |
| Piece.TryLoad | Pieces/piece.js:71-84 | the retries stop at the first answer, after at most four tries |
| Piece.MissingIdIsNotFound | Pieces/piece.js:62-68 | a missing id parameter always ends in the error state |
| Piece.NextImage | Pieces/piece.js:311-317 | next moves one image forward, wrapping from last to first, and does nothing with one image |
| Piece.PreviousImage | Pieces/piece.js:303-309 | previous moves one back, wrapping from first to last |
| Piece.NextPreviousInverse | Pieces/piece.js:303-317 | next and previous undo each other |
| Piece.StepsCompose | Pieces/piece.js:311-317 | a+b forward clicks are a clicks then b clicks |
| Piece.FullTurn | Pieces/piece.js:311-317 | as many forward clicks as images return to the starting image |
| Piece.Thumbnails | Pieces/piece.js:297-300 | exactly the thumbnail at the current index is highlighted |
| Piece.OneThumbnailActive | Pieces/piece.js:288-301 | with an index in range exactly one thumbnail is highlighted |
| Piece.GetStockText | Pieces/piece.js:384-389 | missing stock reads available, at most 0 sold out, 1..4 shows the count, 5 and more available |
| Piece.DisabledIffNoStock | Pieces/piece.js:319-334 | the add-to-cart button is disabled iff stock is missing or not positive |
| Piece.MissingStockAvailableButDisabled | Pieces/piece.js:319-334 | a product without stock reads available yet cannot be added |
| Piece.PageAndCardStockAgree | Pieces/piece.js:384-389 | page and card wording agree except at stock 5 and for missing stock |
| Home.MigrateImages | index.js:27-32 | afterwards no product needs migration; only the images of products with a legacy image change, to that image; the flag is set iff some product needed it |
| Home.MigrateProductImages | index.js:23-36 | unparsable storage throws; the list is written back iff some product was migrated |
| Home.MigrationIdempotent | index.js:23-36 | running the migration on its output writes nothing |
| Home.CardImage | index.js:139-146 | the card shows the first of the images when the list is non-empty, else the legacy image, and a placeholder for an empty source |
| Home.MigrationKeepsCardImage | index.js:139-146 | migration never changes what a card shows |
| Home.Recommended | index.js:88 | exactly the products whose recommended field is the text "true" |
| Home.RecommendedIdempotent | index.js:88 | filtering the recommended strip again changes nothing |
| Home.RandomPick | index.js:108-109 | three products of the catalogue (fewer when it is smaller), each from it and none repeated beyond its multiplicity |
| Home.ToggleFaq | index.js:67-75 | every item closes, and the clicked one opens iff it was closed |
| Home.ClickLeavesAtMostOneOpen | faq.js:7-19 | after any click at most one item is open |
| Home.ClickOpenCloses | faq.js:7-19 | clicking an open item closes all; clicking a closed one leaves only it open |
| Home.DoubleClick | faq.js:7-19 | two clicks on one item restore its state and leave every other item closed |
| Renderer.FilteredProducts | product-renderer.js:55-62 | "all" keeps every product; otherwise exactly those whose section or category is the filter |
| Renderer.TotalPages | product-renderer.js:147-150 | the least number of 15-item pages holding the list |
| Renderer.PageOf | product-renderer.js:64-68 | page p is items 15(p-1) up to 15p, empty past the end or for page 0 |
| Renderer.PagesUpToIsPrefix | product-renderer.js:64-68 | the first k pages are the first 15k items |
| Renderer.PagesCoverList | product-renderer.js:64-68 | the pages the buttons reach cover the list exactly, in order, without overlap |
| Renderer.PageInRangeNotEmpty | product-renderer.js:64-68 | every page that has a button is non-empty |
| Renderer.Pagination | product-renderer.js:147-189 | no bar for at most one page; otherwise prev, one button per page with the current one active, then next |
| Renderer.Render | product-renderer.js:39-53 | the grid shows the current page of the filtered list, or the empty-state message when that page is empty |
| Renderer.HandleFilterClick | product-renderer.js:29-37 | a new filter resets to page 1 |
| Renderer.GoToPage | product-renderer.js:191-194 | the page is taken as given |
| Renderer.FilterClickShowsFirstPage | product-renderer.js:29-53 | after a filter click the grid shows the first 15 matching products, or the empty state iff none match |
| Renderer.PrevOnFirstPageEmptiesGrid | product-renderer.js:168-173 | prev on page 1 goes to page 0 and shows the empty state |
| AdminAuth.LogEvent | admin/admin-auth.js:3-14 | the newest entry goes first and the log never exceeds 100 entries |
| AdminAuth.LogStaysBounded | admin/admin-auth.js:3-14 | any run of events keeps the log within 100 entries, newest first |
| AdminAuth.MinutesLeft | admin/admin-auth.js:39 | the minutes shown round the remaining time up |
| AdminAuth.CheckLoginSecurity | admin/admin-auth.js:27-50 | as written: a stale counter is reset in storage, a block refuses, otherwise the answer compares the count read before the reset |
| AdminAuth.CheckLoginSecurityFixed | admin/admin-auth.js:27-50 | as intended: the answer compares the count after the reset |
| AdminAuth.RecordFailedAttempt | admin/admin-auth.js:52-62 | one more attempt at now; the fifth blocks for 30 minutes and logs the block |
| AdminAuth.ClearSecurityData | admin/admin-auth.js:64-68 | all three counters read as 0 |
| AdminAuth.FifthFailureBlocks | admin/admin-auth.js:38-44 | the fifth failure blocks logins for the next 30 minutes |
| AdminAuth.FewAttemptsAllowed | admin/admin-auth.js:46-49 | fewer than five attempts and no block allow a login |
| AdminAuth.FirstCheckAfterLockoutRefused | admin/admin-auth.js:28-49 | as written, the first check after a lockout expires is refused |
| AdminAuth.LockoutExpiryAllowsLogin | admin/admin-auth.js:32-49 | as intended, a check after the lockout and the 15-minute window allows a login with all five attempts |
| AdminAuth.ValidateUsername | admin/admin-auth.js:72-77 | a username is valid iff it is a string of at most 100 characters without `<>{}` |
| AdminAuth.HasMarkup | admin/admin-auth.js:75 | detects any of `<>{}` |
| AdminAuth.ValidatePassword | admin/admin-auth.js:79-81 | a password is valid iff it is a string of 1 to 100 characters |
| AdminAuth.CreateSession | admin/admin-auth.js:101-112 | a session for the user expiring in two hours, logged |
| AdminAuth.ClearSession | admin/admin-auth.js:151-157 | the session is removed and the removal logged when there was one |
| AdminAuth.ValidateSession | admin/admin-auth.js:114-141 | valid iff unexpired and idle at most 15 minutes; a valid check refreshes activity, an invalid one clears the session |
| AdminAuth.ActiveSessionStaysValid | admin/admin-auth.js:114-141 | checks within 15 minutes of each other and before expiry keep a session valid |
| AdminAuth.NoValidationPastExpiry | admin/admin-auth.js:119-125 | after two hours no check succeeds |
| AdminAuth.Authenticate | admin/admin-auth.js:172-199 | refused checks change nothing further; bad input or credentials record exactly one failure; success clears counters and opens the session |
| AdminAuth.FiveFailuresLockOut | admin/admin-auth.js:172-199 | five wrong passwords lock the next login out |
| AdminDb.TrimAll | admin/admin-db.js:801 | every line trimmed |
| AdminDb.ParseFeatures | admin/admin-db.js:799-804 | the features are the non-blank trimmed lines of the text |
| AdminDb.FeaturesRoundTrip | admin/admin-db.js:721-722 | features shown in the editor and saved again are unchanged |
| AdminDb.SpecLineAtFirstColon | admin/admin-db.js:806-817 | a line gives a specification iff its first ':' is not its first character; key and value are the trimmed text around that ':' |
| AdminDb.SpecLineParts | admin/admin-db.js:810-812 | split on ':' then re-join of the tail gives the text before and after the first ':' |
| AdminDb.SpecsOfKeys | admin/admin-db.js:806-817 | the specification keys are exactly those the lines give |
| AdminDb.ParseLines | admin/admin-db.js:808 | every line parsed in order |
| AdminDb.LastLineWins | admin/admin-db.js:806-817 | for a repeated key the last line wins |
| AdminDb.MapOf | admin/admin-db.js:806-817 | the keys of the built map are those of the entries |
| AdminDb.SpecsOfSome | admin/admin-db.js:806-817 | lines that all parse give the map of their entries |
| AdminDb.EntryLines | admin/admin-db.js:723-725 | the editor writes one "key: value" line per entry |
| AdminDb.EntryLineParses | admin/admin-db.js:723-725 | a written line parses back to its entry |
| AdminDb.EmptySpecificationsRoundTrip | admin/admin-db.js:723-725 | with no specifications the rendered field is empty and parses back to no specifications |
| AdminDb.SpecificationsRoundTrip | admin/admin-db.js:723-725 | specifications shown in the editor and saved again are unchanged |
| AdminDb.RenderedLinesSplit | admin/admin-db.js:723-725 | the rendered field splits back into its lines |
| AdminDb.MapOfDistinct | admin/admin-db.js:806-817 | with distinct keys each entry's value is kept |
| AdminDb.ProductCountInSection | admin/admin-db.js:497-501 | the count of active products of the section |
| AdminDb.CountMatchesSectionListing | admin/admin-db.js:497-501 | the admin count equals the storefront's listing size for that section |
| AdminDb.SaveProductToDb | admin/admin-db.js:372-410 | invalid forms stop first, then a missing or inactive section; otherwise an update of the edited product or a create |
| AdminDb.QuickSearchBySku | admin/admin-db.js:154-180 | a blank query finds nothing; the server's answer wins; offline, the first local product with the trimmed SKU |
| ImportExport.IndexOf | Utils/import-export.js:135 | the first stored record with the id; none iff there is none |
| ImportExport.MergeOne | Utils/import-export.js:132-153 | an imported record overlays the first record with its id, or is appended as new |
| ImportExport.Merge | Utils/import-export.js:132-153 | the merge keeps every stored record's position and id and adds at most the imported count |
| ImportExport.MergeKeepsUntouched | Utils/import-export.js:132-153 | a record the import does not mention is unchanged |
| ImportExport.MergeIds | Utils/import-export.js:132-153 | after the merge the ids are exactly the stored ones plus the imported ones |
| ImportExport.MergeOneIds | Utils/import-export.js:134-150 | one merge step adds exactly the imported id |
| ImportExport.MergeOneUnique | Utils/import-export.js:134-150 | one merge step keeps ids unique |
| ImportExport.MergeUnique | Utils/import-export.js:132-153 | merging keeps ids unique even when the import repeats an id |
| ImportExport.MergeOverlays | Utils/import-export.js:132-153 | a stored record mentioned once becomes that import laid over it |
| ImportExport.ReplaceAll | Utils/import-export.js:154-161 | replace mode stores the import in its order, stamped |
| ImportExport.ReplaceKeepsFields | Utils/import-export.js:154-161 | apart from the timestamps a replaced product keeps every imported field |
| ImportExport.ReadList | Utils/import-export.js:130 | a missing list reads as empty; an unparsable one throws |
| ImportExport.ImportProducts | Utils/import-export.js:129-165 | an unparsable stored list aborts; otherwise a merge or a replacement |
| ImportExport.ImportSections | Utils/import-export.js:168-191 | the same without timestamps; replace stores the import verbatim |
| ImportExport.ImportImages | Utils/import-export.js:194-205 | overwrite keeps exactly the import; otherwise the union with imported values winning |
| ImportExport.ValidateImportData | Utils/import-export.js:252-275 | one distinct error per present but wrong-shaped field; valid iff none |
| ImportExport.ProcessImportedData | Utils/import-export.js:80-126 | products, sections, images and cart in that order, each list that is given stored as its import step computes it; an unparsable stored list throws, which leaves that list and every later one, the cart included, as they were while earlier writes stay |
| ImportExport.GetDataStats | Utils/import-export.js:278-285 | list lengths and image key count; an unparsable entry throws |
| ImportExport.ReplaceImportStats | Utils/import-export.js:80-126 | after a replacing import the statistics report the imported counts |
| AdminPanel.FormPrice | Utils/admin-panel.js:221 | `parseInt(text) \|\| 0`: NaN becomes 0 |
| AdminPanel.FormPriceOfRendered | Utils/admin-panel.js:221 | a typed decimal price survives the form |
| AdminPanel.GetProductImages | Utils/admin-panel.js:229-240 | exactly the non-empty non-placeholder preview sources, in order |
| AdminPanel.ValidIffNameNotBlank | Utils/admin-panel.js:242-244 | the form is valid iff the name has a non-space character |
| AdminPanel.MaxId | Utils/admin-panel.js:248 | the largest id, at least 0 |
| AdminPanel.GenerateProductId | Utils/admin-panel.js:246-249 | the new id exceeds every existing id and is one more than the largest (or 1) |
| AdminPanel.EditList | Utils/admin-panel.js:178-184 | products with the edited id get the form laid over them, the others stay |
| AdminPanel.EditKeepsIds | Utils/admin-panel.js:178-184 | editing does not change any id |
| AdminPanel.AddToList | Utils/admin-panel.js:185-194 | one product appended under a fresh id |
| AdminPanel.SaveProductAsWritten | Utils/admin-panel.js:166-214 | as written, adding with images and a SKU stores the list and then throws before saving images |
| AdminPanel.SaveProduct | Utils/admin-panel.js:166-214 | as intended, a valid form is saved as an edit or an add |
| AdminPanel.AddWithImagesThrows | Utils/admin-panel.js:200 | a concrete add with images ends in the error path |
| AdminPanel.AddSavesImages | Utils/admin-panel.js:199-204 | with the intended id an added product's images read back |
| AdminPanel.DeleteProduct | Utils/admin-panel.js:258-266 | no product with the id remains, and every product with another id does |
| AdminPanel.DeleteKeepsOthers | Utils/admin-panel.js:258-266 | exactly the products with the id go: the length drops by their number and every other product keeps its multiplicity |
| AdminPanel.DeleteConcat | Utils/admin-panel.js:258-266 | deletion works product by product over a split of the list, so the kept products stay in order |
| AdminPanel.AddThenDelete | Utils/admin-panel.js:185-194 | deleting the product just added gives the list back |
| AdminPanel.Splice1 | Utils/admin-panel.js:297 | `splice(index, 1)` with negative and past-the-end indices |
| AdminPanel.RemoveProductImage | Utils/admin-panel.js:295-300 | exactly the image at the index is removed |
| FormUtils.ValidateEmailIffShape | Utils/utils.js:73-76 | an address is accepted iff it is local@domain.tld with no spaces, a single '@', and a dot inside the domain not at its edges |
| FormUtils.EmailExamples | Utils/utils.js:73-76 | "a@b.ru" is accepted and "a b@c.ru" refused |
| FormUtils.StripSpaces | Utils/utils.js:79 | exactly the non-space characters, in order |
| FormUtils.AcceptedPhoneHasElevenDigits | Utils/utils.js:78-81 | every accepted phone number has exactly 11 digits |
| FormUtils.PhoneExampleTail | Utils/utils.js:79 | the last seven digits of a bare number (`\d{3}-?\d{2}-?\d{2}`) match the tail of the pattern |
| FormUtils.PhoneExampleBare | Utils/utils.js:78-81 | a bare 11-digit number starting with 8 is accepted |
| FormUtils.RequiredIffNotBlank | Utils/utils.js:83-85 | a value is present iff it has a non-space character |
| Js.ValueOr | Utils/utils.js:129-137 | the parsed value, else the default (a missing, empty or non-JSON text); `safeJSONParse` in Utils/server.js reads columns the same way |
| FormUtils.Get | Utils/utils.js:129-137 | the parsed entry, or the default for a missing, empty or unparsable one |
| FormUtils.Set | Utils/utils.js:119-127 | true iff the write is accepted; the key then reads back as the value whatever the default, every other key reads as before, and a refused write changes nothing |
| FormUtils.Remove | Utils/utils.js:139-147 | the key then reads as the default and every other key as before |
| FormUtils.GetRelativeTime | Utils/utils.js:194-205 | the bucket (just now, minutes, hours, days, full date) is picked by the elapsed time, with the count floored |
| FormUtils.RelativeTimeMonotone | Utils/utils.js:194-205 | an older date never gets a finer bucket than a newer one |
| Server.ParseProduct | Utils/server.js:233-246 | null stays null; JSON columns default to [], {}, []; a missing stock reads 0 |
| Server.RowOf | Utils/server.js:546-551 | written JSON columns always parse back |
| Server.ParseRowOf | Utils/server.js:233-255 | a written product reads back as itself, except that a null stock reads back as 0 |
| Server.ValidateProductData | Utils/server.js:257-277 | one error per failing field in field order; accepted iff there is none |
| Server.ParseId | Utils/server.js:482-486 | an id is accepted iff `parseInt` gives a positive number |
| Server.ParseIdOfRendered | Utils/server.js:482-486 | every positive decimal id passes unchanged |
| Server.SectionWithId | Utils/server.js:744-753 | the section with the id; none iff there is none |
| Server.MoveSection | Utils/server.js:756-758 | exactly the products of the old section move to the new code with the new flag |
| Server.MoveEmptiesSource | Utils/server.js:756-766 | a move empties the old section into the new |
| Server.DeleteSection | server.js:540-582 | unknown section is 404; otherwise its products are cleared and deactivated, counted, and the section row removed |
| Server.DeleteSectionEmptiesIt | server.js:555-569 | after deletion the section is gone and none of its products remain in it |
| Server.DeleteSectionChecked | Utils/server.js:736-784 | the same after the id check |
| Server.UpdateSection | Utils/server.js:804-827 | no old code is 400; otherwise its products move, active iff a new code is given |
| Server.StockUpdate | Utils/server.js:544 | the sent stock when truthy, else the current one, else 0 |
| Server.ImagesAfterUpdate | Utils/server.js:512-528 | uploads replace the images; otherwise the stored ones are kept |
| Server.CommonRow | Utils/server.js:539-551 | the shared fallbacks of both servers' update |
| Server.ProductWithId | Utils/server.js:500-509 | the product row with the id; none iff there is none |
| Server.ReplaceRow | Utils/server.js:533-553 | exactly the rows with the id are replaced |
| Server.UtilsRow | Utils/server.js:530-552 | the validated fields are trimmed and the price is what `parseFloat` reads, NaN for blank text; active iff the section is non-empty and the flag is 'true' |
| Server.UpdateProduct | Utils/server.js:480-583 | id check, validation and lookup come first; a missing section throws; a price `parseFloat` reads as NaN is refused by the NOT NULL column (500, nothing changes); otherwise the row is replaced and read back |
| Server.BlankPriceRefused | Utils/server.js:494-541 | a blank price passes validation, being 0 to `Number`, yet the update is refused because `parseFloat` of it is NaN |
| Server.LegacyRow | server.js:383-403 | omitted fields fall back to the current row; active iff the section is not cleared and the flag is 'true' |
| Server.UpdateProductLegacy | server.js:347-436 | unknown product is 404; an unparsable stored column throws; a price `parseFloat` reads as NaN is refused by the NOT NULL column; otherwise replaced and answered with the row as spread |
| Server.LegacyReply | server.js:421-429 | the answer is the row with its JSON columns parsed and the flags made booleans; the stock is left as stored, null included |
| Server.LegacyReplyVersusParse | server.js:421-429 | server.js's answer and `parseProduct` agree except on a NULL stock, which one answers as null and the other as 0 |
| Server.ClearedSectionOutcomes | server.js:383-395 | clearing a section deactivates the product but keeps its section on server.js; on Utils/server.js, for a price `parseFloat` can read, the section is cleared too |
| Server.UpdateKeepsImages | server.js:366-380 | without uploads an update keeps the stored images |
| Server.CreateSection | Utils/server.js:659-690 | name and code are required and a taken code is refused; otherwise the trimmed section is inserted |
| Server.ReplaceSection | Utils/server.js:705-707 | exactly the row with the id is overwritten |
| Server.ReplaceSectionKeepsCodesUnique | Utils/server.js:705-716 | writing a code no other section uses keeps codes unique |
| Server.UpdateSectionRow | Utils/server.js:692-733 | id check, required fields, 404 for no row, 400 for a taken code, else overwritten |
| Server.StampLength | Utils/server.js:280 | the timestamp part has 1 to 6 digits |
| Server.NamePart | Utils/server.js:281-285 | the first three (or all, when fewer) characters of the lower-cased name that are Latin or Cyrillic small letters or digits, each upper-cased |
| Server.NamePartSkipsDropped | Utils/server.js:281-285 | a character the filter drops can be removed from the name without changing the name part |
| Server.Stamp | Utils/server.js:280 | the last six digits of the clock, as digits |
| Server.SkuLayout | Utils/server.js:287 | where "MF", the name part and the stamp sit |
| Server.GenerateSku | Utils/server.js:279-288 | "MF", then exactly the name part of the name, then the last six digits of the clock, whose value is the clock modulo 10^6 |
| Server.FinalSku | server.js:285-286 | the given SKU when truthy, else a generated one; none when there is no name to generate from |
| Server.ListProducts | server.js:168-200 | exactly the rows matching every filter, newest first |
| Server.MigrateSections | Utils/server.js:899-914 | inserted sections are counted and existing ones kept |
| Server.MigrateSectionsKeepsCodesUnique | Utils/server.js:899-914 | migration keeps section codes unique |
| Server.MigrateSectionsCovers | Utils/server.js:899-914 | every complete input section's code ends up in the table |
| Server.MigrateSectionsNothingNew | Utils/server.js:899-914 | migrating present sections inserts nothing |
| Server.MigrateSectionsIdempotent | Utils/server.js:899-914 | a second identical migration inserts nothing |
| Server.MigrationSku | Utils/server.js:924 | the product's own SKU when truthy, else generated; none when there is no name |
| Server.MigratedRow | Utils/server.js:918-937 | the inserted row with the source's defaults |
| Server.MigrateProducts | Utils/server.js:916-948 | inserted products are counted and existing ones kept; a product without SKU and name fails the run |
| Server.MigrateProductsCovers | Utils/server.js:916-948 | with every SKU given, each complete input product's SKU ends up in the table |
| Server.MigrateProductsNothingNew | Utils/server.js:916-948 | migrating present products inserts nothing |
| Server.MigrateProductsIdempotent | Utils/server.js:916-948 | a second identical migration inserts nothing and does not fail |
| Server.Migrate | Utils/server.js:892-977 | sections then products; a failure answers 500 and keeps rows inserted before it |

## Left out

- Rendering and browser UI are not modelled; only their decisions are. Not modelled: HTML and DOM, animations, notifications, timers (the 300 ms delay before a removal), the mobile menu, smooth scrolling, modals and confirm dialogs.
- Local-storage quota errors and the `clearStorageAndRetry` fallback of cart-system.js are not modelled: cart writes always succeed here. Only `LocalStorageManager.set` (FormUtils.Set) takes a refused write as a parameter.
- Cross-tab synchronisation events (`storage`, `cartUpdated`) are not modelled: they only re-run the modelled reads.
- `Math.random` in `loadRandomProducts` is not modelled: the shuffle is a parameter, any rearrangement of the list.
- `Date.now()` is not modelled: the clock is an integer parameter (milliseconds). Dates are integers. A `createdAt` that is present but is not a date is not modelled; a missing one is (see AdmData.SortProducts).
- Floating-point prices are not modelled: prices are integers, and `parseFloat` / `Number` are modelled on integer text only. The `0x` prefix of `parseInt` is not modelled.
- `localeCompare` is the collation parameter `collate` mapping a name to its rank.
- SQLite's `LIKE` is the parameter `like`. Database and callback errors (500 answers from `err`) are not modelled, except two: the migration failure, and the NOT NULL refusal of a NaN price on update (Server.UpdateProduct, Server.UpdateProductLegacy, Server.BlankPriceRefused).
- File uploads and unlinking of image files are not modelled; uploads are a list of URLs.
- The credential check of `CredentialManager` (admin/admin-auth.js:84-94), a plain-text lookup in a fixed table after a 500 ms delay, is the parameter `verify`.
- AdminAuth.Authenticate: one clock reading `now` serves the whole call. In the source the failure record or the new session is stamped after `verify`'s 500 ms await, so half a second later than the security check.
- Shop.HandleAddToCart: the global `addToCartWithAnimation` (cart-system.js:550-566) does nothing while `window.cartSystem` is unset, which can only happen before `DOMContentLoaded` creates it (cart-system.js:569-573). That pre-initialisation no-op is not a modelled route.
- A corrupt security log (unparsable entry) is not modelled; the log is a list.
- Backup export and download (Utils/import-export.js:9-49) are not modelled: they write files only. `importFromJSON`'s file reading is not modelled either.
- The search route of Utils/server.js (851-877), the stats routes and the GET-by-SKU route are not modelled: they are direct queries.
- The migration route of server.js (658-728) is not modelled; only the one of Utils/server.js is. Its callbacks run in an order the code does not fix, and it differs from Utils/server.js as follows:
  - it counts every product callback, ignored duplicates and failed inserts included (707-709), where Utils/server.js counts only rows actually inserted (Utils/server.js:941);
  - it binds `section.active` as sent (670), so a missing flag is stored as NULL, where Utils/server.js stores `active !== false`;
  - it answers once the last callback has run and reports products only, never sections.
- Piece.LoadProduct: the one-second retry delay is not modelled. The answers of the four lookups are a list.
- ImageStore.Kilobytes: only the rounding of `getStats` is modelled. The character sum it rounds and the ' KB' text are not.
- FormUtils.PhoneExampleBare: only the bare-number example is proved. A formatted number such as "+7-(999)-123-45-67" is not shown accepted.
- Shop.Pagination: the null check on the page bar element is not modelled.
- AdmData.SortProducts: under 'newest', a product without `createdAt` makes every comparison involving it NaN, which the sort reads as "equal" (adm/data-manager.js:82). That comparator is not consistent, and the language leaves the resulting order to the engine. The model takes that order as the parameter `engine` and knows only that it rearranges the list; with every product dated it is the stable sort, newest first.
- AdmData.GetProducts: inherits the engine-defined 'newest' order of AdmData.SortProducts for a selection with an undated product.
- DataManager.GetProducts: `JSON.parse` of the stored list (data-manager.js:71) throws on a corrupt entry, which the caller does not catch. The model takes the parsed list as a parameter, so that throw is not modelled.
- DataManager.SearchProducts: a product without `description` makes data-manager.js:159 throw a TypeError whenever its name does not match. Here a missing description is "", and the search goes on.
- DataManager.SearchProducts: `toLowerCase` is Js.Lower, which lowers Latin and Cyrillic capitals only. A query or product text with other capitals (accented Latin, Greek) can miss a hit JavaScript finds.
- Shop.WithSearch: the search text is lowered by Js.Lower, on Latin and Cyrillic capitals only.
- Shop.SearchFilter: the hit test lowers the product's texts by Js.Lower, on Latin and Cyrillic capitals only.
- Server.NamePart: `toLowerCase` and `toUpperCase` are Js.Lower and Js.Upper, on Latin and Cyrillic letters only.
- AdminAuth.ValidateUsername: JavaScript's `.length` counts UTF-16 code units while a Dafny string counts characters. A name with characters beyond U+FFFF is measured shorter here than by the 100-character limit of the source.
- AdminAuth.ValidatePassword: the 100-character limit is on characters, not UTF-16 code units, as for ValidateUsername.
- ImageStore.SaveImage: the 100000 limit is on characters, not UTF-16 code units; image data is normally ASCII, where the two agree.
- Cart.CompactItem: the image URL is cut at 100 characters, not 100 UTF-16 code units; the two differ only for characters beyond U+FFFF.
- FormUtils.Set: the value is assumed to survive `JSON.stringify` followed by `JSON.parse`, which fails for `undefined`, functions and dates inside the value.
- JSON `null` stored in place of a list is not modelled: a stored value is absent, unparsable or a parsed list.
- ScrollManager, MobileMenu and the notification helpers of Utils/utils.js are not modelled: they only drive the UI.

## Findings

| source | as written | input that shows it | evidently intended | confidence | as-written member | corrected member |
|---|---|---|---|---|---|---|
| admin/admin-auth.js:28-49 | after a stale counter is reset in storage, the answer still compares the count read before the reset | 5 stored attempts, a lockout that has just expired, last attempt more than 15 minutes ago: the first login is refused with no message | the answer uses the reset count, so the login is allowed with 5 attempts left | not executed | AdminAuth.FirstCheckAfterLockoutRefused | AdminAuth.LockoutExpiryAllowsLogin |
| Utils/admin-panel.js:200 | the image step reads `newProduct`, which is declared only inside the add branch, so it throws a ReferenceError | adding a new product whose form has a SKU and at least one image: the list is stored, the images are not, and an error is shown | use the new product's id after an add, so its images are saved | not executed | AdminPanel.AddWithImagesThrows | AdminPanel.AddSavesImages |
