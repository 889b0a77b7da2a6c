/** The local admin panel (admin-panel.js): the product form, id
    generation, saving an edited or new product into the local list, the
    images kept with it, and deleting. */
module AdminPanel {
  import opened Js
  import opened Catalog
  import ImageStore

  /** What `getProductFormData` collects. */
  datatype FormData = FormData(
    name: string,
    sku: string,
    category: string,
    price: int,
    description: string,
    active: bool,
    featured: bool,
    images: seq<string>)

  /** `parseInt(text) || 0`: NaN becomes 0. */
  function FormPrice(text: string): (r: int)
    ensures ParseInt(text).Some? ==> r == ParseInt(text).value
    ensures ParseInt(text).None? ==> r == 0
  {
    ParseInt(text).GetOr(0)
  }

  /** The typed price survives the form. */
  lemma FormPriceOfRendered(price: nat)
    ensures FormPrice(NatToString(price)) == price
  {
    ParseIntOfNatToString(price);
  }

  predicate RealImage(src: string) {
    src != "" && !Includes(src, "placeholder")
  }

  /** `getProductImages`: the preview sources, without empty ones and
      without placeholders, in order. */
  function GetProductImages(srcs: seq<string>): (r: seq<string>)
    ensures forall i :: 0 <= i < |r| ==> r[i] != "" && !Includes(r[i], "placeholder") && r[i] in srcs
    ensures forall i :: 0 <= i < |srcs| && RealImage(srcs[i]) ==> srcs[i] in r
  {
    Filter(srcs, RealImage)
  }

  /** `validateProductForm`: the name must not be blank. */
  predicate ValidateProductForm(form: FormData) {
    form.name != "" && Trim(form.name) != ""
  }

  /** Only the name is required, and only up to whitespace. */
  lemma ValidIffNameNotBlank(form: FormData)
    ensures ValidateProductForm(form) <==> exists i :: 0 <= i < |form.name| && !IsSpace(form.name[i])
  {
    BlankIffAllSpace(form.name);
  }

  /** `Math.max(0, ...ids)`. */
  function MaxId(ps: seq<Product>): (m: int)
    ensures m >= 0
    ensures forall i :: 0 <= i < |ps| ==> ps[i].id <= m
    ensures m == 0 || exists i :: 0 <= i < |ps| && ps[i].id == m
  {
    if |ps| == 0 then 0
    else
      var rest := MaxId(ps[1..]);
      assert forall i :: 1 <= i < |ps| ==> ps[i] == ps[1..][i - 1];
      if ps[0].id > rest then ps[0].id else rest
  }

  /** `generateProductId`: one more than the largest id (and at least 1). */
  function GenerateProductId(ps: seq<Product>): (r: int)
    ensures r >= 1
    ensures forall i :: 0 <= i < |ps| ==> ps[i].id < r
    ensures r == 1 || exists i :: 0 <= i < |ps| && ps[i].id == r - 1
  {
    MaxId(ps) + 1
  }

  /** `{...p, ...formData}`: the form's fields laid over the product. */
  function ApplyForm(p: Product, form: FormData): (r: Product) {
    p.(name := form.name, sku := form.sku, category := form.category, price := form.price,
       description := form.description, active := Some(form.active), featured := form.featured,
       images := form.images)
  }

  /** The new product of the add branch: the form's fields, the generated
      id and the creation time. */
  function NewProduct(form: FormData, id: int, now: int): (r: Product) {
    Product(id, form.sku, form.name, form.price, form.category, "", None, form.description,
            [], map[], "", Some(form.active), form.featured, form.images, "", Some(now), "")
  }

  /** The edit branch: every product with the edited id gets the form laid
      over it; the others stay as they are. */
  function EditList(ps: seq<Product>, id: int, form: FormData): (r: seq<Product>)
    ensures |r| == |ps|
    ensures forall i :: 0 <= i < |ps| && ps[i].id != id ==> r[i] == ps[i]
    ensures forall i :: 0 <= i < |ps| && ps[i].id == id ==> r[i] == ApplyForm(ps[i], form)
  {
    seq(|ps|, i requires 0 <= i < |ps| => if ps[i].id == id then ApplyForm(ps[i], form) else ps[i])
  }

  /** The ids of the list do not change by editing. */
  lemma EditKeepsIds(ps: seq<Product>, id: int, form: FormData)
    ensures forall i :: 0 <= i < |ps| ==> EditList(ps, id, form)[i].id == ps[i].id
  {
  }

  /** The add branch: the list with one new product at the end, under a
      fresh id. */
  function AddToList(ps: seq<Product>, form: FormData, now: int): (r: seq<Product>)
    ensures |r| == |ps| + 1 && r[..|ps|] == ps
    ensures r[|ps|].id == GenerateProductId(ps)
    ensures forall i :: 0 <= i < |ps| ==> ps[i].id != r[|ps|].id
  {
    ps + [NewProduct(form, GenerateProductId(ps), now)]
  }

  /** What `saveProduct` ends with. */
  datatype SaveOutcome =
    | InvalidForm
    | Saved(products: seq<Product>, images: ImageStore.Images)
      /** The list was already stored when the exception was thrown; the
          images were not saved. */
    | ThrewAfterStore(products: seq<Product>)

  /** The images of the saved product stored under its SKU, when the form
      carries images and a SKU. */
  function StoreImages(updated: seq<Product>, id: int, images: ImageStore.Images): ImageStore.Images {
    match FindById(updated, id)
    case Some(p) => ImageStore.SaveProductImages(images, p.sku, p.images).0
    case None => images
  }

  predicate CarriesImages(form: FormData) {
    |form.images| > 0 && form.sku != ""
  }

  /** `saveProduct` as written: the product's id for the image step is
      `currentProduct?.id || newProduct.id`, but `newProduct` is declared
      inside the add branch, so whenever the `||` reaches it (an add, or an
      edit of id 0) the lookup throws a ReferenceError after the list has
      been stored. */
  function SaveProductAsWritten(ps: seq<Product>, form: FormData, current: Option<Product>,
                                images: ImageStore.Images, now: int): (r: SaveOutcome)
    ensures !ValidateProductForm(form) <==> r == InvalidForm
    ensures ValidateProductForm(form) && current.None? && CarriesImages(form) ==>
              r == ThrewAfterStore(AddToList(ps, form, now))
    ensures ValidateProductForm(form) && !CarriesImages(form) ==> r.Saved? && r.images == images
  {
    if !ValidateProductForm(form) then InvalidForm
    else
      var updated := if current.Some? then EditList(ps, current.value.id, form) else AddToList(ps, form, now);
      if !CarriesImages(form) then Saved(updated, images)
      else if current.Some? && current.value.id != 0 then Saved(updated, StoreImages(updated, current.value.id, images))
      else ThrewAfterStore(updated)
  }

  /** `saveProduct` as evidently intended: the image step uses the edited
      product's id, or the new product's id after an add. */
  function SaveProduct(ps: seq<Product>, form: FormData, current: Option<Product>,
                       images: ImageStore.Images, now: int): (r: SaveOutcome)
    ensures !ValidateProductForm(form) <==> r == InvalidForm
    ensures ValidateProductForm(form) ==> r.Saved?
    ensures ValidateProductForm(form) && current.Some? ==> r.products == EditList(ps, current.value.id, form)
    ensures ValidateProductForm(form) && current.None? ==> r.products == AddToList(ps, form, now)
  {
    if !ValidateProductForm(form) then InvalidForm
    else
      var id := if current.Some? then current.value.id else GenerateProductId(ps);
      var updated := if current.Some? then EditList(ps, current.value.id, form) else AddToList(ps, form, now);
      if !CarriesImages(form) then Saved(updated, images)
      else Saved(updated, StoreImages(updated, id, images))
  }

  /** As written, adding a product with images and a SKU always ends in the
      error path: the list is stored but the images are not. */
  lemma AddWithImagesThrows(ps: seq<Product>, images: ImageStore.Images, now: int)
    ensures var form := FormData("Лифт", "MFL1", "kitchen", 100, "", true, false, ["data:1"]);
            SaveProductAsWritten(ps, form, None, images, now) == ThrewAfterStore(AddToList(ps, form, now))
  {
    var form := FormData("Лифт", "MFL1", "kitchen", 100, "", true, false, ["data:1"]);
    assert form.name[0] == 'Л' && !IsSpace(form.name[0]);
    BlankIffAllSpace(form.name);
  }

  /** With the intended id, an added product's images are stored under its
      SKU: they read back as the saved list. */
  lemma AddSavesImages(ps: seq<Product>, form: FormData, images: ImageStore.Images, now: int)
    requires ValidateProductForm(form) && CarriesImages(form)
    requires forall j :: 0 <= j < |form.images| ==> form.images[j] != "" && |form.images[j]| <= ImageStore.MaxImageLength
    requires ImageStore.GetImage(images, ImageStore.Key(form.sku, |form.images|)).None?
    ensures var r := SaveProduct(ps, form, None, images, now);
            ImageStore.GetProductImages(r.images, form.sku) == form.images
  {
    var updated := AddToList(ps, form, now);
    var id := GenerateProductId(ps);
    var np := NewProduct(form, id, now);
    assert updated[|ps|] == np;
    assert FindById(updated, id) == Some(np) by {
      assert forall i :: 0 <= i < |ps| ==> updated[i].id != id;
    }
    ImageStore.SaveThenGet(images, form.sku, form.images);
  }

  /** `deleteProduct` after confirmation: every product with the id goes,
      the others keep their order. */
  function DeleteProduct(ps: seq<Product>, id: int): (r: seq<Product>)
    ensures forall i :: 0 <= i < |r| ==> r[i].id != id && r[i] in ps
    ensures forall i :: 0 <= i < |ps| && ps[i].id != id ==> ps[i] in r
  {
    Filter(ps, (p: Product) => p.id != id)
  }

  /** Only the products with the id go: every other product stays as often
      as it was listed. */
  lemma DeleteKeepsOthers(ps: seq<Product>, id: int)
    ensures |DeleteProduct(ps, id)| == |ps| - Count(ps, (p: Product) => p.id == id)
    ensures forall p: Product :: p.id != id ==> multiset(DeleteProduct(ps, id))[p] == multiset(ps)[p]
  {
    FilterComplement(ps, (p: Product) => p.id != id, (p: Product) => p.id == id);
    FilterMultiset(ps, (p: Product) => p.id != id);
  }

  /** Deletion works product by product, so the kept products stay in order. */
  lemma DeleteConcat(a: seq<Product>, b: seq<Product>, id: int)
    ensures DeleteProduct(a + b, id) == DeleteProduct(a, id) + DeleteProduct(b, id)
  {
    FilterConcat(a, b, (p: Product) => p.id != id);
  }

  /** Deleting the product just added gives the list back. */
  lemma AddThenDelete(ps: seq<Product>, form: FormData, now: int)
    ensures DeleteProduct(AddToList(ps, form, now), GenerateProductId(ps)) == ps
  {
    var id := GenerateProductId(ps);
    var np := NewProduct(form, id, now);
    FilterConcat(ps, [np], (p: Product) => p.id != id);
    FilterAll(ps, (p: Product) => p.id != id);
    assert Filter([np], (p: Product) => p.id != id) == [];
  }

  /** `array.splice(index, 1)`: a negative index counts from the end; an
      index past the end removes nothing. */
  function Splice1<T>(s: seq<T>, index: int): (r: seq<T>)
    ensures var start := SliceBound(index, |s|);
            (start < |s| ==> r == s[..start] + s[start + 1..]) && (start == |s| ==> r == s)
  {
    var start := SliceBound(index, |s|);
    if start < |s| then s[..start] + s[start + 1..] else s
  }

  /** `removeProductImage(index)`: the current product loses exactly the
      image at that index; nothing happens without a current product. */
  function RemoveProductImage(current: Option<Product>, index: int): (r: Option<Product>)
    ensures current.None? ==> r.None?
    ensures current.Some? && 0 <= index < |current.value.images| ==>
              && r.Some? && r.value == current.value.(images := r.value.images)
              && |r.value.images| == |current.value.images| - 1
              && (forall j :: 0 <= j < index ==> r.value.images[j] == current.value.images[j])
              && (forall j :: index <= j < |r.value.images| ==> r.value.images[j] == current.value.images[j + 1])
    ensures current.Some? && index >= |current.value.images| ==> r == current
  {
    match current
    case None => None
    case Some(p) => Some(p.(images := Splice1(p.images, index)))
  }
}
