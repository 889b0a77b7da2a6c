/** The shopping cart kept in the browser (cart-system.js): lines keyed by
    product id, a 50-line cap and a compact persisted form. Timers and
    animations are dropped: a delayed removal is modelled by its final
    state. */
module Cart {
  import opened Js
  import Catalog

  /** One cart line. */
  datatype CartItem = CartItem(id: int, name: string, price: int, image: Option<string>, quantity: int)

  /** The product data handed to `addProduct`. */
  datatype ProductData = ProductData(id: int, name: string, price: int, image: Option<string>)

  /** The outcome of a save: the in-memory cart afterwards and the list
      written to storage. */
  datatype Saved = Saved(memory: seq<CartItem>, stored: seq<CartItem>)

  const MaxLines := 50
  const MaxQuantity := 99
  const ImageUrlLimit := 100

  predicate HasLine(cart: seq<CartItem>, id: int) {
    exists i :: 0 <= i < |cart| && cart[i].id == id
  }

  /** `cart.findIndex(item => item.id === id)`. */
  function LineIndex(cart: seq<CartItem>, id: int): (r: Option<nat>)
    ensures r.Some? ==> r.value < |cart| && cart[r.value].id == id
    ensures r.Some? ==> forall j :: 0 <= j < r.value ==> cart[j].id != id
    ensures r.None? <==> !HasLine(cart, id)
  {
    if |cart| == 0 then None
    else if cart[0].id == id then Some(0)
    else match LineIndex(cart[1..], id)
      case None =>
        assert forall j :: 1 <= j < |cart| ==> cart[j] == cart[1..][j - 1];
        None
      case Some(i) => Some(i + 1)
  }

  /** The quantity on the line `find` returns for `id`, 0 without one. */
  function QuantityOf(cart: seq<CartItem>, id: int): int {
    match LineIndex(cart, id)
    case None => 0
    case Some(i) => cart[i].quantity
  }

  /** `getTotalItemsCount`: the sum of the quantities. */
  function TotalItems(cart: seq<CartItem>): int {
    if |cart| == 0 then 0 else cart[0].quantity + TotalItems(cart[1..])
  }

  /** `getCartTotal`: the sum of price times quantity. */
  function CartTotal(cart: seq<CartItem>): int {
    if |cart| == 0 then 0 else cart[0].price * cart[0].quantity + CartTotal(cart[1..])
  }

  /** Both totals add up over a split of the cart. */
  lemma {:induction false} TotalsConcat(a: seq<CartItem>, b: seq<CartItem>)
    ensures TotalItems(a + b) == TotalItems(a) + TotalItems(b)
    ensures CartTotal(a + b) == CartTotal(a) + CartTotal(b)
  {
    if |a| > 0 {
      TotalsConcat(a[1..], b);
      assert (a + b)[1..] == a[1..] + b;
    } else {
      assert a + b == b;
    }
  }

  /** Replacing one line changes the item count by the change of its quantity. */
  lemma TotalItemsUpdate(cart: seq<CartItem>, i: nat, item: CartItem)
    requires i < |cart|
    ensures TotalItems(cart[i := item]) == TotalItems(cart) - cart[i].quantity + item.quantity
  {
    assert cart == cart[..i] + [cart[i]] + cart[i + 1..];
    assert cart[i := item] == cart[..i] + [item] + cart[i + 1..];
    TotalsConcat(cart[..i] + [cart[i]], cart[i + 1..]);
    TotalsConcat(cart[..i], [cart[i]]);
    TotalsConcat(cart[..i] + [item], cart[i + 1..]);
    TotalsConcat(cart[..i], [item]);
  }

  /** The in-memory part of `addProduct`: the first line with the product's
      id gains one unit; without such a line a new line of quantity 1 is
      appended. No upper bound is applied here. */
  function AddLine(cart: seq<CartItem>, p: ProductData): (r: seq<CartItem>)
    ensures HasLine(r, p.id)
    ensures |r| == if HasLine(cart, p.id) then |cart| else |cart| + 1
    ensures QuantityOf(r, p.id) == QuantityOf(cart, p.id) + 1
    ensures forall id :: id != p.id ==> QuantityOf(r, id) == QuantityOf(cart, id)
    ensures TotalItems(r) == TotalItems(cart) + 1
    ensures forall i :: 0 <= i < |cart| ==>
              r[i].id == cart[i].id && r[i].name == cart[i].name && r[i].price == cart[i].price && r[i].image == cart[i].image
    ensures !HasLine(cart, p.id) ==> r[|cart|] == CartItem(p.id, p.name, p.price, p.image, 1)
  {
    match LineIndex(cart, p.id)
    case Some(i) =>
      var item := cart[i];
      var r := cart[i := item.(quantity := item.quantity + 1)];
      TotalItemsUpdate(cart, i, item.(quantity := item.quantity + 1));
      assert LineIndex(r, p.id) == Some(i) by { LineIndexSameIds(cart, r, p.id); }
      assert forall id :: id != p.id ==> QuantityOf(r, id) == QuantityOf(cart, id) by {
        forall id | id != p.id ensures QuantityOf(r, id) == QuantityOf(cart, id) {
          LineIndexSameIds(cart, r, id);
        }
      }
      r
    case None =>
      var line := CartItem(p.id, p.name, p.price, p.image, 1);
      var r := cart + [line];
      TotalsConcat(cart, [line]);
      assert r[|cart|].id == p.id;
      assert LineIndex(r, p.id) == Some(|cart|) by { LineIndexAppend(cart, line, p.id); }
      assert forall id :: id != p.id ==> QuantityOf(r, id) == QuantityOf(cart, id) by {
        forall id | id != p.id ensures QuantityOf(r, id) == QuantityOf(cart, id) {
          LineIndexAppend(cart, line, id);
        }
      }
      r
  }

  /** Lines are found by id only: two carts with the same ids at the same
      positions find the same line. */
  lemma {:induction false} LineIndexSameIds(a: seq<CartItem>, b: seq<CartItem>, id: int)
    requires |a| == |b| && forall i :: 0 <= i < |a| ==> a[i].id == b[i].id
    ensures LineIndex(a, id) == LineIndex(b, id)
  {
    if |a| > 0 {
      LineIndexSameIds(a[1..], b[1..], id);
    }
  }

  lemma {:induction false} LineIndexAppend(cart: seq<CartItem>, line: CartItem, id: int)
    ensures LineIndex(cart + [line], id) ==
      if HasLine(cart, id) then LineIndex(cart, id)
      else if line.id == id then Some(|cart|) else None
  {
    if |cart| > 0 {
      LineIndexAppend(cart[1..], line, id);
      assert (cart + [line])[1..] == cart[1..] + [line];
      if !HasLine(cart, id) {
        assert !HasLine(cart[1..], id) by {
          forall k | 0 <= k < |cart[1..]| ensures cart[1..][k].id != id {
            assert cart[1..][k] == cart[k + 1];
          }
        }
      }
    } else {
      assert cart + [line] == [line];
    }
  }

  /** The persisted form of one line: the image URL cut to 100 characters,
      and an empty URL stored as null. */
  function CompactItem(item: CartItem): (r: CartItem)
    ensures r.id == item.id && r.name == item.name && r.price == item.price && r.quantity == item.quantity
    ensures r.image.None? <==> (item.image.None? || item.image.value == "")
    ensures r.image.Some? ==> r.image.value <= item.image.value && |r.image.value| == Min(|item.image.value|, ImageUrlLimit)
  {
    var image := match item.image
      case Some(url) => if url == "" then None else Some(url[..Min(|url|, ImageUrlLimit)])
      case None => None;
    item.(image := image)
  }

  function Compact(cart: seq<CartItem>): (r: seq<CartItem>)
    ensures |r| == |cart|
    ensures forall i :: 0 <= i < |cart| ==> r[i] == CompactItem(cart[i])
  {
    if |cart| == 0 then [] else [CompactItem(cart[0])] + Compact(cart[1..])
  }

  /** `saveCart`: a cart of more than 50 lines is cut to its first 50, in
      memory as well; the compact form of what remains is written. */
  function SaveCart(cart: seq<CartItem>): (r: Saved)
    ensures |r.memory| == Min(|cart|, MaxLines) && r.memory == cart[..|r.memory|]
    ensures |r.stored| == |r.memory|
    ensures forall i :: 0 <= i < |r.stored| ==> r.stored[i] == CompactItem(cart[i])
  {
    var kept := if |cart| > MaxLines then cart[..MaxLines] else cart;
    Saved(kept, Compact(kept))
  }

  /** Saving is idempotent: a second save right after the first changes
      neither the cart nor what is stored. */
  lemma SaveIdempotent(cart: seq<CartItem>)
    ensures SaveCart(SaveCart(cart).memory) == SaveCart(cart)
  {
  }

  /** `loadCart`: a missing value or text that does not parse gives an empty
      cart; otherwise the parsed lines. */
  function LoadCart(s: Stored<seq<CartItem>>): (r: seq<CartItem>)
    ensures s.Parsed? ==> r == s.value
    ensures !s.Parsed? ==> r == []
  {
    match s
    case Parsed(items) => items
    case _ => []
  }

  lemma CompactItemIdempotent(item: CartItem)
    ensures CompactItem(CompactItem(item)) == CompactItem(item)
  {
    if item.image.Some? && item.image.value != "" {
      var url := item.image.value;
      var cut := url[..Min(|url|, ImageUrlLimit)];
      assert |cut| > 0;
      assert cut[..Min(|cut|, ImageUrlLimit)] == cut;
    }
  }

  /** Reloading what was saved and saving it again writes exactly the same
      lines: the persisted form is a fixed point. */
  lemma ReloadResaveStable(cart: seq<CartItem>)
    ensures var stored := SaveCart(cart).stored;
      SaveCart(LoadCart(Parsed(stored))).stored == stored
  {
    var stored := SaveCart(cart).stored;
    forall i | 0 <= i < |stored| ensures CompactItem(stored[i]) == stored[i] {
      CompactItemIdempotent(cart[i]);
    }
    assert Compact(stored) == stored;
  }

  /** `addProduct`: add the line, then save. */
  function AddProduct(cart: seq<CartItem>, p: ProductData): (r: Saved)
    ensures |cart| < MaxLines ==> r.memory == AddLine(cart, p)
    ensures |cart| < MaxLines ==> TotalItems(r.memory) == TotalItems(cart) + 1
    ensures |r.memory| <= MaxLines
    ensures |cart| >= MaxLines && !HasLine(cart, p.id) ==> r.memory == cart[..MaxLines]
  {
    SaveCart(AddLine(cart, p))
  }

  /** The lines whose id differs from `id`, in order (`filter(item => item.id !== id)`). */
  function WithoutId(cart: seq<CartItem>, id: int): (r: seq<CartItem>)
    ensures !HasLine(r, id)
    ensures |r| <= |cart|
    ensures forall i :: 0 <= i < |cart| && cart[i].id != id ==> cart[i] in r
    ensures forall i :: 0 <= i < |r| ==> r[i] in cart
  {
    if |cart| == 0 then []
    else if cart[0].id == id then WithoutId(cart[1..], id)
    else [cart[0]] + WithoutId(cart[1..], id)
  }

  /** Removal drops exactly the lines of the id and keeps every other line
      as often as it occurs. */
  lemma {:induction false} WithoutIdKeepsOthers(cart: seq<CartItem>, id: int)
    ensures |WithoutId(cart, id)| == |cart| - Count(cart, (item: CartItem) => item.id == id)
    ensures forall item: CartItem :: item.id != id ==> multiset(WithoutId(cart, id))[item] == multiset(cart)[item]
  {
    if |cart| > 0 {
      WithoutIdKeepsOthers(cart[1..], id);
      var rest := WithoutId(cart[1..], id);
      assert multiset(cart) == multiset{cart[0]} + multiset(cart[1..]) by {
        assert cart == [cart[0]] + cart[1..];
      }
      if cart[0].id != id {
        assert multiset([cart[0]] + rest) == multiset{cart[0]} + multiset(rest);
      }
    }
  }

  /** Removal works line by line: the kept lines stay in their order. */
  lemma {:induction false} WithoutIdConcat(a: seq<CartItem>, b: seq<CartItem>, id: int)
    ensures WithoutId(a + b, id) == WithoutId(a, id) + WithoutId(b, id)
    decreases |a|
  {
    if |a| > 0 {
      WithoutIdConcat(a[1..], b, id);
      assert (a + b)[1..] == a[1..] + b;
    } else {
      assert a + b == b;
    }
  }

  /** The total quantity on all lines for `id`. */
  function QuantityForId(cart: seq<CartItem>, id: int): int {
    if |cart| == 0 then 0 else (if cart[0].id == id then cart[0].quantity else 0) + QuantityForId(cart[1..], id)
  }

  /** Removing a product takes away exactly its units from the item count. */
  lemma {:induction false} RemoveTotal(cart: seq<CartItem>, id: int)
    ensures TotalItems(WithoutId(cart, id)) == TotalItems(cart) - QuantityForId(cart, id)
  {
    if |cart| > 0 {
      RemoveTotal(cart[1..], id);
      if cart[0].id != id {
        assert ([cart[0]] + WithoutId(cart[1..], id))[1..] == WithoutId(cart[1..], id);
      }
    }
  }

  /** Removing a product absent from the cart changes nothing. */
  lemma {:induction false} RemoveAbsent(cart: seq<CartItem>, id: int)
    requires !HasLine(cart, id)
    ensures WithoutId(cart, id) == cart
  {
    if |cart| > 0 {
      assert cart[0].id != id;
      assert !HasLine(cart[1..], id) by {
        forall k | 0 <= k < |cart[1..]| ensures cart[1..][k].id != id {
          assert cart[1..][k] == cart[k + 1];
        }
      }
      RemoveAbsent(cart[1..], id);
      assert cart == [cart[0]] + cart[1..];
    }
  }

  /** `removeProduct` once its timer has fired: drop every line for the id,
      then save. */
  function RemoveProduct(cart: seq<CartItem>, id: int): (r: Saved)
    ensures !HasLine(r.memory, id)
    ensures |cart| <= MaxLines ==> TotalItems(r.memory) == TotalItems(cart) - QuantityForId(cart, id)
    ensures |cart| <= MaxLines ==> |r.memory| == |cart| - Count(cart, (item: CartItem) => item.id == id)
    ensures |cart| <= MaxLines ==>
              forall item: CartItem :: item.id != id ==> multiset(r.memory)[item] == multiset(cart)[item]
  {
    RemoveTotal(cart, id);
    WithoutIdKeepsOthers(cart, id);
    SaveCart(WithoutId(cart, id))
  }

  /** What `updateProductQuantity` ends in. */
  datatype QuantityOutcome =
    | NoLine               // no line for the id: nothing changes, nothing is saved
    | Removed(saved: Saved) // the quantity fell below 1: the product is removed
    | Updated(saved: Saved) // the new quantity, capped at 99, is saved

  /** `updateProductQuantity(id, change)`. */
  function UpdateQuantity(cart: seq<CartItem>, id: int, change: int): (r: QuantityOutcome)
    ensures r.NoLine? <==> !HasLine(cart, id)
    ensures r.Removed? <==> HasLine(cart, id) && QuantityOf(cart, id) + change < 1
    ensures r.Removed? ==> !HasLine(r.saved.memory, id)
    ensures r.Removed? ==> r.saved == RemoveProduct(cart, id)
    ensures r.Updated? && |cart| <= MaxLines ==>
              QuantityOf(r.saved.memory, id) == Min(QuantityOf(cart, id) + change, MaxQuantity)
    ensures r.Updated? && |cart| <= MaxLines ==> 1 <= QuantityOf(r.saved.memory, id) <= MaxQuantity
    ensures r.Updated? ==> |r.saved.memory| == Min(|cart|, MaxLines)
    ensures r.Updated? ==> forall i :: 0 <= i < |r.saved.memory| ==> r.saved.memory[i].id == cart[i].id
    ensures r.Updated? ==> forall i :: 0 <= i < |r.saved.memory| && LineIndex(cart, id) != Some(i) ==>
              r.saved.memory[i] == cart[i]
    ensures r.Updated? ==> forall i :: 0 <= i < |r.saved.memory| && LineIndex(cart, id) == Some(i) ==>
              r.saved.memory[i] == cart[i].(quantity := Min(cart[i].quantity + change, MaxQuantity))
  {
    match LineIndex(cart, id)
    case None => NoLine
    case Some(i) =>
      var q := cart[i].quantity + change;
      if q < 1 then Removed(RemoveProduct(cart, id))
      else
        var q' := Min(q, MaxQuantity);
        SavedUpdate(cart, id, i, q');
        Updated(SaveCart(cart[i := cart[i].(quantity := q')]))
  }

  /** Saving the cart with line `i`, the product's line, set to quantity `q`. */
  lemma SavedUpdate(cart: seq<CartItem>, id: int, i: nat, q: int)
    requires LineIndex(cart, id) == Some(i)
    ensures var m := SaveCart(cart[i := cart[i].(quantity := q)]).memory;
      && |m| == Min(|cart|, MaxLines)
      && (forall j :: 0 <= j < |m| ==> m[j].id == cart[j].id)
      && (forall j :: 0 <= j < |m| && j != i ==> m[j] == cart[j])
      && (i < |m| ==> m[i] == cart[i].(quantity := q))
      && (|cart| <= MaxLines ==> QuantityOf(m, id) == q)
  {
    var updated := cart[i := cart[i].(quantity := q)];
    var m := SaveCart(updated).memory;
    assert m == updated[..|m|];
    forall j | 0 <= j < |m| ensures m[j] == updated[j] {
    }
    if |cart| <= MaxLines {
      assert m == updated;
      LineIndexSameIds(cart, updated, id);
      assert LineIndex(m, id) == Some(i);
    }
  }

  /** `clearCart`. */
  function ClearCart(): (r: Saved)
    ensures r.memory == [] && r.stored == []
    ensures TotalItems(r.memory) == 0 && CartTotal(r.memory) == 0
  {
    SaveCart([])
  }

  /** `parsePrice`: blank text is 0; otherwise the digits of the text read
      as one number, 0 when there are none. */
  function ParsePrice(text: string): (r: nat)
    ensures |OnlyDigits(text)| == 0 ==> r == 0
    ensures |OnlyDigits(text)| > 0 ==> r == DigitsValue(OnlyDigits(text))
  {
    if text == "" then 0
    else
      var digits := OnlyDigits(text);
      ParseIntOfDigits(digits);
      match ParseInt(digits)
      case None => 0
      case Some(v) => if v == 0 then 0 else v
  }

  lemma {:induction false} OnlyDigitsConcat(a: string, b: string)
    ensures OnlyDigits(a + b) == OnlyDigits(a) + OnlyDigits(b)
  {
    if |a| > 0 {
      OnlyDigitsConcat(a[1..], b);
      assert (a + b)[1..] == a[1..] + b;
    } else {
      assert a + b == b;
    }
  }

  lemma {:induction false} OnlyDigitsOfNonDigits(a: string)
    requires forall i :: 0 <= i < |a| ==> !IsDigit(a[i])
    ensures OnlyDigits(a) == ""
  {
    if |a| > 0 {
      OnlyDigitsOfNonDigits(a[1..]);
    }
  }

  lemma {:induction false} OnlyDigitsOfDigits(a: string)
    requires AllDigits(a)
    ensures OnlyDigits(a) == a
  {
    if |a| > 0 {
      OnlyDigitsOfDigits(a[1..]);
    }
  }

  /** A price rendered as decimal digits, with any digit-free text around
      it (a currency sign, a label), parses back to itself. */
  lemma ParsePriceOfRendered(before: string, n: nat, after: string)
    requires forall i :: 0 <= i < |before| ==> !IsDigit(before[i])
    requires forall i :: 0 <= i < |after| ==> !IsDigit(after[i])
    ensures ParsePrice(before + NatToString(n) + after) == n
  {
    var s := NatToString(n);
    OnlyDigitsConcat(before + s, after);
    OnlyDigitsConcat(before, s);
    OnlyDigitsOfNonDigits(before);
    OnlyDigitsOfNonDigits(after);
    OnlyDigitsOfDigits(s);
    DigitsValueOfNatToString(n);
    assert OnlyDigits(before + s) == s;
    assert OnlyDigits(before + s + after) == s;
  }

  /** `addToCartWithAnimation`: the data passed on for a catalogue product,
      with its first image or null. */
  function ProductDataOf(p: Catalog.Product): (r: ProductData)
    ensures r.id == p.id && r.name == p.name && r.price == p.price
    ensures r.image.Some? <==> |p.images| > 0
    ensures r.image.Some? ==> r.image.value == p.images[0]
  {
    ProductData(p.id, p.name, p.price, if |p.images| > 0 then Some(p.images[0]) else None)
  }
}
