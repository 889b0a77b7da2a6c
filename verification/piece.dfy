/** The product page (Pieces/piece.js): the id check before loading, the
    image carousel, the thumbnail highlight, the stock text and the
    add-to-cart button. */
module Piece {
  import opened Js
  import opened Catalog
  import Shop

  // Loading

  /** What the page ends up showing. */
  datatype PieceView = NotFound | Shown(product: Product)

  /** `loadProduct`: `parseInt` of the `id` parameter (a missing parameter
      reads as the text "null"); NaN or 0 shows the error at once.
      Otherwise the lookup is tried up to four times (the first try and
      three retries); `attempts` are the answers of the successive tries. */
  function LoadProduct(idParam: Option<string>, attempts: seq<Option<Product>>): (r: PieceView)
    ensures var id := ParseInt(idParam.GetOr("null"));
            (id.None? || id.value == 0) ==> r == NotFound
    ensures r.Shown? ==> exists k :: 0 <= k < |attempts| && k < 4 && attempts[k] == Some(r.product)
    ensures var id := ParseInt(idParam.GetOr("null"));
            id.Some? && id.value != 0 ==>
              (r.NotFound? <==> forall k :: 0 <= k < |attempts| && k < 4 ==> attempts[k].None?)
  {
    var id := ParseInt(idParam.GetOr("null"));
    if id.None? || id.value == 0 then NotFound
    else TryLoad(attempts, 0)
  }

  /** `tryLoadProduct(attempt)`: the first answer among attempts k..3. */
  function TryLoad(attempts: seq<Option<Product>>, k: nat): (r: PieceView)
    requires k <= 4
    ensures r.Shown? ==> exists j :: k <= j < |attempts| && j < 4 && attempts[j] == Some(r.product)
    ensures r.NotFound? <==> forall j :: k <= j < |attempts| && j < 4 ==> attempts[j].None?
    decreases 4 - k
  {
    if k >= |attempts| || k >= 4 then NotFound
    else if attempts[k].Some? then Shown(attempts[k].value)
    else TryLoad(attempts, k + 1)
  }

  /** A missing id parameter always ends in the error state. */
  lemma MissingIdIsNotFound(attempts: seq<Option<Product>>)
    ensures LoadProduct(None, attempts) == NotFound
  {
    assert "null"[0] == 'n';
    assert !IsSpace('n') && !IsDigit('n');
    assert TrimStart("null") == "null";
  }

  // The carousel

  /** `nextImage`: one step forward, wrapping; no change with at most one
      image. */
  function NextImage(index: int, count: nat): (r: int)
    ensures count <= 1 ==> r == index
    ensures count > 1 && 0 <= index < count ==> 0 <= r < count && (r == index + 1 || (index == count - 1 && r == 0))
  {
    if count <= 1 then index else JsRem(index + 1, count)
  }

  /** `previousImage`: one step back, wrapping; no change with at most one
      image. */
  function PreviousImage(index: int, count: nat): (r: int)
    ensures count <= 1 ==> r == index
    ensures count > 1 && 0 <= index < count ==> 0 <= r < count && (r == index - 1 || (index == 0 && r == count - 1))
  {
    if count <= 1 then index else JsRem(index - 1 + count, count)
  }

  /** Forward then back, and back then forward, return to the same image. */
  lemma NextPreviousInverse(index: int, count: nat)
    requires 0 <= index < count
    ensures PreviousImage(NextImage(index, count), count) == index
    ensures NextImage(PreviousImage(index, count), count) == index
  {
  }

  /** The carousel after `steps` clicks on the next arrow. */
  function StepForward(index: int, count: nat, steps: nat): (r: int)
    decreases steps
  {
    if steps == 0 then index else StepForward(NextImage(index, count), count, steps - 1)
  }

  /** Without reaching the last image, k steps forward move k places. */
  lemma {:induction false} StepsWithoutWrap(index: int, count: nat, k: nat)
    requires 1 < count && 0 <= index && index + k < count
    ensures StepForward(index, count, k) == index + k
    decreases k
  {
    if k > 0 {
      assert NextImage(index, count) == index + 1;
      StepsWithoutWrap(index + 1, count, k - 1);
    }
  }

  /** Stepping a + b times is stepping a times, then b times. */
  lemma {:induction false} StepsCompose(index: int, count: nat, a: nat, b: nat)
    ensures StepForward(index, count, a + b) == StepForward(StepForward(index, count, a), count, b)
    decreases a
  {
    if a > 0 {
      StepsCompose(NextImage(index, count), count, a - 1, b);
    }
  }

  /** A full turn of the carousel returns to the starting image. */
  lemma FullTurn(index: int, count: nat)
    requires 1 < count && 0 <= index < count
    ensures StepForward(index, count, count) == index
  {
    var a := count - 1 - index;
    StepsCompose(index, count, a, 1 + index);
    StepsWithoutWrap(index, count, a);
    StepsCompose(count - 1, count, 1, index);
    assert StepForward(count - 1, count, 1) == 0;
    StepsWithoutWrap(0, count, index);
  }

  /** `changeImage(k)`: the thumbnail highlight, one flag per thumbnail. */
  function Thumbnails(count: nat, index: int): (r: seq<bool>)
    ensures |r| == count
    ensures forall i :: 0 <= i < count ==> (r[i] <==> i == index)
  {
    seq(count, i => i == index)
  }

  /** With an index in range exactly one thumbnail is highlighted. */
  lemma OneThumbnailActive(count: nat, index: int, i: nat, j: nat)
    requires 0 <= index < count
    requires i < count && j < count && Thumbnails(count, index)[i] && Thumbnails(count, index)[j]
    ensures i == j == index
  {
  }

  // Stock

  datatype StockText = Available | SoldOut | Remaining(count: int)

  /** `getStockText`: a missing stock reads as available; at most 0 is sold
      out; 1 to 4 shows the count; 5 and more is available. */
  function GetStockText(stock: Option<int>): (r: StockText)
    ensures r == SoldOut <==> stock.Some? && stock.value <= 0
    ensures r.Remaining? <==> stock.Some? && 0 < stock.value < 5
    ensures r.Remaining? ==> r.count == stock.value
    ensures r == Available <==> stock.None? || stock.value >= 5
  {
    match stock
    case None => Available
    case Some(n) => if n <= 0 then SoldOut else if n < 5 then Remaining(n) else Available
  }

  /** `updateAddToCartButton`: disabled iff `(stock || 0) <= 0`. */
  predicate AddToCartDisabled(p: Product) {
    OutOfStock(p)
  }

  lemma DisabledIffNoStock(p: Product)
    ensures AddToCartDisabled(p) <==> p.stock.None? || p.stock.value <= 0
  {
  }

  /** A product without a stock field reads "available" on its page while
      its add-to-cart button is disabled. */
  lemma MissingStockAvailableButDisabled(p: Product)
    requires p.stock.None?
    ensures GetStockText(p.stock) == Available && AddToCartDisabled(p)
  {
  }

  /** The product page and the shop card agree on the stock wording except
      at exactly 5 items (the page says "available", the card shows the
      count) and for a missing stock (available on the page, out of stock
      on the card). */
  lemma PageAndCardStockAgree(stock: Option<int>)
    ensures (GetStockText(stock) == SoldOut) == (Shop.StockLabelOf(stock) == Shop.NoStockLabel) <==> stock.Some?
    ensures stock.Some? && stock.value != 5 ==>
              (GetStockText(stock).Remaining? <==> Shop.StockLabelOf(stock).RemainingLabel?)
    ensures stock == Some(5) ==> GetStockText(stock) == Available && Shop.StockLabelOf(stock) == Shop.RemainingLabel(5)
  {
  }
}
