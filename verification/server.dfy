/** The catalogue rules of the two Express servers, Utils/server.js and
    server.js, over the SQLite tables abstracted as sequences of rows. A
    request field is `Option<string>` (None: missing); a JSON text column is
    `Stored`; `NoReply` is an exception thrown inside a database callback,
    after which no response is sent. */
module Server {
  import opened Js
  import Sorting

  /** A row of the `products` table. A NULL or NaN number is None. */
  datatype Row = Row(
    id: int, sku: string, name: string, price: Option<int>, category: string, section: string,
    stock: Option<int>, description: string,
    features: Stored<seq<string>>, specs: Stored<map<string, string>>,
    badge: string, active: bool, featured: bool, images: Stored<seq<string>>, createdAt: int)

  /** A product as the API returns it; a None stock is JSON null. */
  datatype ApiProduct = ApiProduct(
    id: int, sku: string, name: string, price: Option<int>, category: string, section: string,
    stock: Option<int>, description: string, features: seq<string>, specs: map<string, string>,
    badge: string, active: bool, featured: bool, images: seq<string>, createdAt: int)

  /** A row of the `sections` table. */
  datatype SectionRow = SectionRow(id: int, name: string, code: string, active: bool)

  datatype Db = Db(products: seq<Row>, sections: seq<SectionRow>)

  /** The outcome of a request: 200/201 with a value, 400, 404, 500 when
      the database refuses the statement, or no response at all. */
  datatype Reply<T> = Ok(value: T) | BadRequest | NotFound | Failed | NoReply

  // ---------------------------------------------------------------------
  // parseProduct

  /** `parseProduct`: null stays null; the JSON columns default to [], {}
      and [], a missing stock becomes 0, and the flags become booleans. */
  function ParseProduct(row: Option<Row>): (r: Option<ApiProduct>)
    ensures r.None? <==> row.None?
    ensures r.Some? ==> var p := row.value;
      && r.value.features == ValueOr(p.features, [])
      && r.value.specs == ValueOr(p.specs, map[])
      && r.value.images == ValueOr(p.images, [])
      && r.value.stock == Some(p.stock.GetOr(0))
      && r.value.id == p.id && r.value.sku == p.sku && r.value.name == p.name && r.value.price == p.price
      && r.value.section == p.section && r.value.active == p.active
  {
    match row
    case None => None
    case Some(p) =>
      Some(ApiProduct(p.id, p.sku, p.name, p.price, p.category, p.section, Some(p.stock.GetOr(0)), p.description,
                      ValueOr(p.features, []), ValueOr(p.specs, map[]), p.badge, p.active, p.featured,
                      ValueOr(p.images, []), p.createdAt))
  }

  /** The row written for an API product: every JSON column is the
      stringified value, which always parses back. */
  function RowOf(p: ApiProduct): (r: Row)
    ensures r.features.Parsed? && r.specs.Parsed? && r.images.Parsed?
    ensures r.id == p.id && r.stock == p.stock
  {
    Row(p.id, p.sku, p.name, p.price, p.category, p.section, p.stock, p.description,
        Parsed(p.features), Parsed(p.specs), p.badge, p.active, p.featured, Parsed(p.images), p.createdAt)
  }

  /** Reading back a written product gives the product, a null stock
      reading as 0. */
  lemma ParseRowOf(p: ApiProduct)
    ensures ParseProduct(Some(RowOf(p))) == Some(p.(stock := Some(p.stock.GetOr(0))))
    ensures p.stock.Some? ==> ParseProduct(Some(RowOf(p))) == Some(p)
  {
  }

  // ---------------------------------------------------------------------
  // validateProductData and id checks

  datatype FieldError = NameRequired | PriceInvalid | CategoryRequired | SkuRequired

  function Rank(e: FieldError): nat {
    match e
    case NameRequired => 0
    case PriceInvalid => 1
    case CategoryRequired => 2
    case SkuRequired => 3
  }

  /** `!v || v.trim().length === 0`. */
  predicate Blank(v: Option<string>) {
    v.None? || |Trim(v.value)| == 0
  }

  /** `!price || isNaN(price) || price < 0`. */
  predicate BadPrice(price: Option<string>) {
    !Truthy(price) || NumberOf(price.value).None? || NumberOf(price.value).value < 0
  }

  /** Rank order, strictly increasing along the list. */
  predicate RankOrdered(r: seq<FieldError>) {
    forall i, j :: 0 <= i < j < |r| ==> Rank(r[i]) < Rank(r[j])
  }

  /** The error list for the four field checks (name, price, category,
      sku), in field order. */
  function FieldErrors(name: bool, price: bool, category: bool, sku: bool): (r: seq<FieldError>)
    ensures NameRequired in r <==> name
    ensures PriceInvalid in r <==> price
    ensures CategoryRequired in r <==> category
    ensures SkuRequired in r <==> sku
    ensures r == [] <==> !name && !price && !category && !sku
    ensures RankOrdered(r)
  {
    var tail := TailErrors(category, sku);
    if name then
      if price then [NameRequired, PriceInvalid] + tail else [NameRequired] + tail
    else
      if price then [PriceInvalid] + tail else tail
  }

  /** The errors of the last two checks, category then sku. */
  function TailErrors(category: bool, sku: bool): (r: seq<FieldError>)
    ensures |r| <= 2
    ensures forall i :: 0 <= i < |r| ==> 2 <= Rank(r[i])
    ensures RankOrdered(r)
    ensures CategoryRequired in r <==> category
    ensures SkuRequired in r <==> sku
  {
    if category then
      if sku then [CategoryRequired, SkuRequired] else [CategoryRequired]
    else
      if sku then [SkuRequired] else []
  }

  /** `validateProductData`: one error per failing field, in the order name,
      price, category, sku; no error means accepted. */
  function ValidateProductData(name: Option<string>, price: Option<string>, category: Option<string>,
                               sku: Option<string>): (r: seq<FieldError>)
    ensures NameRequired in r <==> Blank(name)
    ensures PriceInvalid in r <==> BadPrice(price)
    ensures CategoryRequired in r <==> Blank(category)
    ensures SkuRequired in r <==> Blank(sku)
    ensures r == [] <==> !Blank(name) && !BadPrice(price) && !Blank(category) && !Blank(sku)
    ensures RankOrdered(r)
  {
    FieldErrors(Blank(name), BadPrice(price), Blank(category), Blank(sku))
  }

  /** The id check of the routes with an `:id` parameter: `parseInt` of the
      text, refused when NaN or not positive. */
  function ParseId(text: string): (r: Option<int>)
    ensures r.Some? <==> ParseInt(text).Some? && ParseInt(text).value > 0
    ensures r.Some? ==> r == ParseInt(text)
  {
    match ParseInt(text)
    case Some(n) => if n > 0 then Some(n) else None
    case None => None
  }

  /** Every positive id written in decimal passes the check unchanged. */
  lemma ParseIdOfRendered(n: nat)
    requires n > 0
    ensures ParseId(NatToString(n)) == Some(n)
  {
    ParseIntOfNatToString(n);
  }

  // ---------------------------------------------------------------------
  // Section deletion and bulk section moves

  /** The first section with the id (`db.get`). */
  function SectionWithId(sections: seq<SectionRow>, id: int): (r: Option<SectionRow>)
    ensures r.None? <==> forall k :: 0 <= k < |sections| ==> sections[k].id != id
    ensures r.Some? ==> r.value in sections && r.value.id == id
  {
    match FindIndex(sections, (s: SectionRow) => s.id == id)
    case Some(k) => Some(sections[k])
    case None => None
  }

  /** Number of products whose section is `code`. */
  function InSection(products: seq<Row>, code: string): (n: nat)
    ensures n <= |products|
  {
    Count(products, (p: Row) => p.section == code)
  }

  /** `UPDATE products SET section = ?, active = ? WHERE section = ?`. */
  function MoveSection(products: seq<Row>, from: string, to: string, active: bool): (r: seq<Row>)
    ensures |r| == |products|
    ensures forall i :: 0 <= i < |r| && products[i].section == from ==>
              r[i] == products[i].(section := to, active := active)
    ensures forall i :: 0 <= i < |r| && products[i].section != from ==> r[i] == products[i]
  {
    if |products| == 0 then []
    else
      var p := products[0];
      var rest := MoveSection(products[1..], from, to, active);
      var r := [if p.section == from then p.(section := to, active := active) else p] + rest;
      assert forall i :: 1 <= i < |r| ==> r[i] == rest[i - 1] && products[i] == products[1..][i - 1];
      r
  }

  /** After a move to another code, no product is left in the old section and
      the new one has gained all of them. */
  lemma {:induction false} MoveEmptiesSource(products: seq<Row>, from: string, to: string, active: bool)
    requires from != to
    ensures InSection(MoveSection(products, from, to, active), from) == 0
    ensures InSection(MoveSection(products, from, to, active), to) == InSection(products, to) + InSection(products, from)
  {
    if |products| > 0 {
      MoveEmptiesSource(products[1..], from, to, active);
      var r := MoveSection(products, from, to, active);
      assert r[1..] == MoveSection(products[1..], from, to, active);
    }
  }

  /** `DELETE /api/sections/:id` of server.js: 404 for an unknown section;
      otherwise its products lose their section and are deactivated, their
      number is reported, and the section row goes. */
  function DeleteSection(db: Db, id: int): (r: (Db, Reply<nat>))
    ensures r.1.NotFound? <==> SectionWithId(db.sections, id).None?
    ensures r.1.NotFound? ==> r.0 == db
    ensures r.1.Ok? || r.1.NotFound?
    ensures r.1.Ok? ==> var code := SectionWithId(db.sections, id).value.code;
      && r.1.value == InSection(db.products, code)
      && r.0.products == MoveSection(db.products, code, "", false)
      && r.0.sections == Filter(db.sections, (s: SectionRow) => s.id != id)
  {
    match SectionWithId(db.sections, id)
    case None => (db, NotFound)
    case Some(s) =>
      var products := MoveSection(db.products, s.code, "", false);
      (Db(products, Filter(db.sections, (t: SectionRow) => t.id != id)), Ok(InSection(db.products, s.code)))
  }

  /** After deleting a section, no product of the section with that id is
      left in it, and the section is gone. */
  lemma DeleteSectionEmptiesIt(db: Db, id: int)
    requires SectionWithId(db.sections, id).Some? && SectionWithId(db.sections, id).value.code != ""
    ensures var (after, _) := DeleteSection(db, id);
      && InSection(after.products, SectionWithId(db.sections, id).value.code) == 0
      && SectionWithId(after.sections, id).None?
  {
    MoveEmptiesSource(db.products, SectionWithId(db.sections, id).value.code, "", false);
  }

  /** `DELETE /api/sections/:id` of Utils/server.js: the same, after the id
      check. */
  function DeleteSectionChecked(db: Db, idText: string): (r: (Db, Reply<nat>))
    ensures ParseId(idText).None? ==> r == (db, BadRequest)
    ensures ParseId(idText).Some? ==> r == DeleteSection(db, ParseId(idText).value)
  {
    match ParseId(idText)
    case None => (db, BadRequest)
    case Some(id) => DeleteSection(db, id)
  }

  /** `POST /api/products/update-section` (both servers): 400 without an old
      code; otherwise its products move to the new code (or none), active
      exactly when there is a new code, and their number is reported. */
  function UpdateSection(db: Db, oldSection: Option<string>, newSection: Option<string>): (r: (Db, Reply<nat>))
    ensures r.1.BadRequest? <==> !Truthy(oldSection)
    ensures r.1.BadRequest? ==> r.0 == db
    ensures r.1.Ok? || r.1.BadRequest?
    ensures r.1.Ok? ==>
      && r.1.value == InSection(db.products, oldSection.value)
      && r.0.sections == db.sections
      && r.0.products == MoveSection(db.products, oldSection.value, OrElse(newSection, ""), Truthy(newSection))
  {
    if !Truthy(oldSection) then (db, BadRequest)
    else
      var moved := MoveSection(db.products, oldSection.value, OrElse(newSection, ""), Truthy(newSection));
      (db.(products := moved), Ok(InSection(db.products, oldSection.value)))
  }

  // ---------------------------------------------------------------------
  // Updating a product

  /** The body of a product form; features arrive as a list (a single value
      is a one-element list). None stands for a field the form did not send
      and `Some("")` for one sent empty; the two differ wherever the code
      compares with '' or `undefined` instead of testing truthiness. */
  datatype ProductForm = ProductForm(
    name: Option<string>, price: Option<string>, category: Option<string>, section: Option<string>,
    sku: Option<string>, stock: Option<string>, description: Option<string>,
    features: Option<seq<string>>, specs: Option<map<string, string>>,
    badge: Option<string>, active: Option<string>, featured: Option<string>)

  /** `parseInt(stock || current.stock || 0)`. */
  function StockUpdate(stock: Option<string>, current: Option<int>): (r: Option<int>)
    ensures Truthy(stock) ==> r == ParseInt(stock.value)
    ensures !Truthy(stock) ==> r == Some(current.GetOr(0))
  {
    if Truthy(stock) then ParseInt(stock.value) else Some(current.GetOr(0))
  }

  /** Stored images are kept unless files were uploaded, which replace them. */
  function ImagesAfterUpdate(current: Stored<seq<string>>, uploads: seq<string>): (r: seq<string>)
    ensures |uploads| > 0 ==> r == uploads
    ensures |uploads| == 0 ==> r == ValueOr(current, [])
  {
    if |uploads| > 0 then uploads else ValueOr(current, [])
  }

  /** The fields both servers update the same way: stock, description,
      features, specifications and badge fall back to the current values,
      `featured` is the flag 'true', and the images follow the upload rule. */
  predicate CommonUpdate(cur: Row, row: Row, form: ProductForm, uploads: seq<string>) {
    && row.id == cur.id && row.createdAt == cur.createdAt
    && row.sku == OrElse(form.sku, cur.sku)
    && row.stock == StockUpdate(form.stock, cur.stock)
    && row.description == OrElse(form.description, cur.description)
    && row.features == Parsed(if form.features.Some? then form.features.value else ValueOr(cur.features, []))
    && row.specs == Parsed(if form.specs.Some? then form.specs.value else ValueOr(cur.specs, map[]))
    && row.badge == OrElse(form.badge, cur.badge)
    && row.featured == (form.featured == Some("true"))
    && row.images == Parsed(ImagesAfterUpdate(cur.images, uploads))
  }

  function CommonRow(cur: Row, form: ProductForm, uploads: seq<string>): (r: Row)
    ensures CommonUpdate(cur, r, form, uploads)
  {
    cur.(sku := OrElse(form.sku, cur.sku),
         stock := StockUpdate(form.stock, cur.stock),
         description := OrElse(form.description, cur.description),
         features := Parsed(if form.features.Some? then form.features.value else ValueOr(cur.features, [])),
         specs := Parsed(if form.specs.Some? then form.specs.value else ValueOr(cur.specs, map[])),
         badge := OrElse(form.badge, cur.badge),
         featured := form.featured == Some("true"),
         images := Parsed(ImagesAfterUpdate(cur.images, uploads)))
  }

  /** The first product with the id. */
  function ProductWithId(products: seq<Row>, id: int): (r: Option<Row>)
    ensures r.None? <==> forall k :: 0 <= k < |products| ==> products[k].id != id
    ensures r.Some? ==> r.value in products && r.value.id == id
  {
    match FindIndex(products, (p: Row) => p.id == id)
    case Some(k) => Some(products[k])
    case None => None
  }

  /** `UPDATE products SET .. WHERE id = ?`. */
  function ReplaceRow(products: seq<Row>, id: int, row: Row): (r: seq<Row>)
    ensures |r| == |products|
    ensures forall i :: 0 <= i < |r| ==> r[i] == if products[i].id == id then row else products[i]
  {
    seq(|products|, i requires 0 <= i < |products| => if products[i].id == id then row else products[i])
  }

  /** The row Utils/server.js writes: the validated name, category and
      section, trimmed, and `parseFloat` of the price; active only when the
      section is not '' and the flag is 'true'. Validation reads the price
      with `Number`, which takes blank text as 0, while `parseFloat` of
      blank text is NaN (None). */
  function UtilsRow(cur: Row, form: ProductForm, uploads: seq<string>): (row: Row)
    requires form.name.Some? && form.price.Some? && form.category.Some? && form.section.Some?
    ensures CommonUpdate(cur, row, form, uploads)
    ensures row.name == Trim(form.name.value) && row.price == ParseInt(form.price.value)
    ensures row.category == Trim(form.category.value) && row.section == Trim(form.section.value)
    ensures row.active <==> form.section.value != "" && form.active == Some("true")
  {
    CommonRow(cur, form, uploads).(
      name := Trim(form.name.value), price := ParseInt(form.price.value),
      category := Trim(form.category.value), section := Trim(form.section.value),
      active := form.section.value != "" && form.active == Some("true"))
  }

  /** `PUT /api/products/:id` of Utils/server.js: the id check, validation
      and lookup come first; a missing section then throws on `trim`; a
      price `parseFloat` reads as NaN is bound as NULL, which the NOT NULL
      price column refuses. */
  function UpdateProduct(db: Db, idText: string, form: ProductForm, uploads: seq<string>): (r: (Db, Reply<ApiProduct>))
    ensures r.1.BadRequest? <==>
              ParseId(idText).None? || ValidateProductData(form.name, form.price, form.category, form.sku) != []
    ensures r.1.NotFound? <==> !r.1.BadRequest? && ProductWithId(db.products, ParseId(idText).value).None?
    ensures r.1.NoReply? <==> !r.1.BadRequest? && !r.1.NotFound? && form.section.None?
    ensures r.1.Failed? <==> !r.1.BadRequest? && !r.1.NotFound? && !r.1.NoReply?
                             && form.price.Some? && ParseInt(form.price.value).None?
    ensures !r.1.Ok? ==> r.0 == db
    ensures r.1.Ok? ==> var id := ParseId(idText).value;
      var row := UtilsRow(ProductWithId(db.products, id).value, form, uploads);
      r.0 == db.(products := ReplaceRow(db.products, id, row)) && Some(r.1.value) == ParseProduct(Some(row))
  {
    match ParseId(idText)
    case None => (db, BadRequest)
    case Some(id) =>
      var errors := ValidateProductData(form.name, form.price, form.category, form.sku);
      if errors != [] then (db, BadRequest)
      else match ProductWithId(db.products, id)
        case None => (db, NotFound)
        case Some(cur) =>
          if form.section.None? then (db, NoReply)
          else
            assert NameRequired !in errors && PriceInvalid !in errors && CategoryRequired !in errors;
            var row := UtilsRow(cur, form, uploads);
            if row.price.None? then (db, Failed)
            else (db.(products := ReplaceRow(db.products, id, row)), Ok(ParseProduct(Some(row)).value))
  }

  /** The row server.js writes: name, price, category and section fall back
      to the current values when omitted or empty; active only when the
      section is not '' and the flag is 'true'. */
  function LegacyRow(cur: Row, form: ProductForm, uploads: seq<string>): (row: Row)
    ensures CommonUpdate(cur, row, form, uploads)
    ensures row.name == OrElse(form.name, cur.name)
    ensures row.price == if Truthy(form.price) then ParseInt(form.price.value) else cur.price
    ensures row.category == OrElse(form.category, cur.category)
    ensures row.section == OrElse(form.section, cur.section)
    ensures row.active <==> form.section != Some("") && form.active == Some("true")
  {
    CommonRow(cur, form, uploads).(
      name := OrElse(form.name, cur.name),
      price := if Truthy(form.price) then ParseInt(form.price.value) else cur.price,
      category := OrElse(form.category, cur.category),
      section := OrElse(form.section, cur.section),
      active := form.section != Some("") && form.active == Some("true"))
  }

  /** The current row's JSON columns that server.js parses with a bare
      `JSON.parse`, which throws on bad text. */
  predicate LegacyParseFails(cur: Row, form: ProductForm) {
    cur.images.Unparsable? || (form.features.None? && cur.features.Unparsable?)
    || (form.specs.None? && cur.specs.Unparsable?)
  }

  /** The answer server.js builds from the updated row: the row spread as
      it is, with the JSON columns parsed and the flags made booleans; the
      stock is not converted, so a NULL stock is answered as null. */
  function LegacyReply(row: Row): (r: ApiProduct)
    ensures r.stock == row.stock
    ensures r.features == ValueOr(row.features, []) && r.specs == ValueOr(row.specs, map[])
    ensures r.images == ValueOr(row.images, [])
    ensures r.id == row.id && r.sku == row.sku && r.name == row.name && r.price == row.price
    ensures r.section == row.section && r.active == row.active
  {
    ApiProduct(row.id, row.sku, row.name, row.price, row.category, row.section, row.stock, row.description,
               ValueOr(row.features, []), ValueOr(row.specs, map[]), row.badge, row.active, row.featured,
               ValueOr(row.images, []), row.createdAt)
  }

  /** The two answers differ only in the stock: `parseProduct` reads a NULL
      stock as 0, server.js answers it as null. */
  lemma LegacyReplyVersusParse(row: Row)
    ensures row.stock.Some? ==> Some(LegacyReply(row)) == ParseProduct(Some(row))
    ensures row.stock.None? ==> LegacyReply(row).stock.None? && ParseProduct(Some(row)).value.stock == Some(0)
    ensures Some(LegacyReply(row).(stock := Some(row.stock.GetOr(0)))) == ParseProduct(Some(row))
  {
  }

  /** `PUT /api/products/:id` of server.js: no id check or validation; the
      JSON columns are parsed while the statement is built, and a price
      text `parseFloat` reads as NaN is refused by the NOT NULL column. */
  function UpdateProductLegacy(db: Db, id: int, form: ProductForm, uploads: seq<string>): (r: (Db, Reply<ApiProduct>))
    ensures r.1.NotFound? <==> ProductWithId(db.products, id).None?
    ensures r.1.NoReply? <==>
              ProductWithId(db.products, id).Some? && LegacyParseFails(ProductWithId(db.products, id).value, form)
    ensures r.1.Failed? <==> !r.1.NotFound? && !r.1.NoReply?
                             && LegacyRow(ProductWithId(db.products, id).value, form, uploads).price.None?
    ensures r.1.Ok? || r.1.NotFound? || r.1.NoReply? || r.1.Failed?
    ensures !r.1.Ok? ==> r.0 == db
    ensures r.1.Ok? ==> var row := LegacyRow(ProductWithId(db.products, id).value, form, uploads);
      r.0 == db.(products := ReplaceRow(db.products, id, row)) && r.1.value == LegacyReply(row)
  {
    match ProductWithId(db.products, id)
    case None => (db, NotFound)
    case Some(cur) =>
      if LegacyParseFails(cur, form) then (db, NoReply)
      else
        var row := LegacyRow(cur, form, uploads);
        if row.price.None? then (db, Failed)
        else (db.(products := ReplaceRow(db.products, id, row)), Ok(LegacyReply(row)))
  }

  /** Clearing the section on server.js deactivates the product but, '' being
      falsy, leaves it in its current section; on Utils/server.js the
      section is cleared as well. */
  lemma ClearedSectionOutcomes(db: Db, id: int, form: ProductForm, uploads: seq<string>)
    requires form.section == Some("")
    requires ProductWithId(db.products, id).Some?
    requires ValidateProductData(form.name, form.price, form.category, form.sku) == []
    ensures var r := UpdateProductLegacy(db, id, form, uploads);
      r.1.Ok? ==> !r.1.value.active && r.1.value.section == ProductWithId(db.products, id).value.section
    ensures id > 0 && form.price.Some? && ParseInt(form.price.value).Some? ==>
      var r := UpdateProduct(db, NatToString(id), form, uploads);
      r.1.Ok? && !r.1.value.active && r.1.value.section == ""
  {
    if id > 0 {
      ParseIdOfRendered(id);
    }
  }

  /** A blank price passes validation, `Number(" ")` being 0, but
      `parseFloat(" ")` is NaN: the update is refused by the database and
      nothing changes. */
  lemma BlankPriceRefused(db: Db, idText: string, form: ProductForm, uploads: seq<string>)
    requires ParseId(idText).Some? && ProductWithId(db.products, ParseId(idText).value).Some?
    requires !Blank(form.name) && !Blank(form.category) && !Blank(form.sku) && form.section.Some?
    requires form.price == Some(" ")
    ensures ValidateProductData(form.name, form.price, form.category, form.sku) == []
    ensures UpdateProduct(db, idText, form, uploads) == (db, Failed)
  {
    BlankPriceReadings();
    assert ValidateProductData(form.name, form.price, form.category, form.sku) == [] by {
      assert !BadPrice(form.price);
    }
    var r := UpdateProduct(db, idText, form, uploads);
    assert r.1.Failed?;
    assert r.0 == db;
  }

  /** `Number(" ")` is 0 while `parseFloat(" ")` is NaN. */
  lemma BlankPriceReadings()
    ensures NumberOf(" ") == Some(0) && ParseInt(" ") == None
  {
    assert TrimStart(" ") == "";
    assert Trim(" ") == "";
  }

  /** Without uploads, an update keeps the stored image list. */
  lemma UpdateKeepsImages(db: Db, id: int, form: ProductForm)
    requires ProductWithId(db.products, id).Some? && ProductWithId(db.products, id).value.images.Parsed?
    ensures var r := UpdateProductLegacy(db, id, form, []);
      r.1.Ok? ==> r.1.value.images == ProductWithId(db.products, id).value.images.value
  {
  }

  // ---------------------------------------------------------------------
  // Section create and update (Utils/server.js)

  predicate UniqueCodes(sections: seq<SectionRow>) {
    forall i, j :: 0 <= i < j < |sections| ==> sections[i].code != sections[j].code
  }

  predicate HasCode(sections: seq<SectionRow>, code: string) {
    exists k :: 0 <= k < |sections| && sections[k].code == code
  }

  /** `POST /api/sections`: name and code are required; a code already in
      the table violates its UNIQUE constraint (400); otherwise the trimmed
      section is inserted under the next AUTOINCREMENT id. */
  function CreateSection(db: Db, name: Option<string>, code: Option<string>, active: Option<string>, nextId: int)
    : (r: (Db, Reply<SectionRow>))
    requires forall k :: 0 <= k < |db.sections| ==> db.sections[k].id < nextId
    ensures r.1.BadRequest? <==> !Truthy(name) || !Truthy(code) || HasCode(db.sections, Trim(code.value))
    ensures r.1.Ok? || r.1.BadRequest?
    ensures r.1.BadRequest? ==> r.0 == db
    ensures r.1.Ok? ==> r.1.value.code == Trim(code.value) && r.1.value.name == Trim(name.value)
                        && r.1.value.active == (active == Some("true"))
                        && r.0 == db.(sections := db.sections + [r.1.value])
    ensures UniqueCodes(db.sections) ==> UniqueCodes(r.0.sections)
  {
    if !Truthy(name) || !Truthy(code) then (db, BadRequest)
    else if HasCode(db.sections, Trim(code.value)) then (db, BadRequest)
    else
      var s := SectionRow(nextId, Trim(name.value), Trim(code.value), active == Some("true"));
      (db.(sections := db.sections + [s]), Ok(s))
  }

  /** Another section than `id` already uses the code. */
  predicate CodeTakenByOther(sections: seq<SectionRow>, code: string, id: int) {
    exists k :: 0 <= k < |sections| && sections[k].code == code && sections[k].id != id
  }

  /** `UPDATE sections SET .. WHERE id = ?`. */
  function ReplaceSection(sections: seq<SectionRow>, s: SectionRow): (r: seq<SectionRow>)
    ensures |r| == |sections|
    ensures forall k :: 0 <= k < |r| ==> r[k] == if sections[k].id == s.id then s else sections[k]
  {
    seq(|sections|, k requires 0 <= k < |sections| => if sections[k].id == s.id then s else sections[k])
  }

  /** Section ids are a primary key. */
  predicate UniqueIds(sections: seq<SectionRow>) {
    forall i, j :: 0 <= i < j < |sections| ==> sections[i].id != sections[j].id
  }

  /** Overwriting the row with a code no other section uses keeps codes unique. */
  lemma ReplaceSectionKeepsCodesUnique(sections: seq<SectionRow>, s: SectionRow)
    requires UniqueIds(sections) && UniqueCodes(sections) && !CodeTakenByOther(sections, s.code, s.id)
    ensures UniqueCodes(ReplaceSection(sections, s))
  {
    var r := ReplaceSection(sections, s);
    forall i, j | 0 <= i < j < |r| ensures r[i].code != r[j].code {
      if sections[i].id == s.id && sections[j].id != s.id {
        assert sections[j].code != s.code;
      } else if sections[i].id != s.id && sections[j].id == s.id {
        assert sections[i].code != s.code;
      }
    }
  }

  /** `PUT /api/sections/:id`: the id check and the name/code guard; no row
      with the id is 404; a code used by another section is 400; otherwise
      the row is overwritten. */
  function UpdateSectionRow(db: Db, idText: string, name: Option<string>, code: Option<string>, active: Option<string>)
    : (r: (Db, Reply<SectionRow>))
    ensures r.1.BadRequest? <==>
              ParseId(idText).None? || !Truthy(name) || !Truthy(code)
              || (SectionWithId(db.sections, ParseId(idText).value).Some?
                  && CodeTakenByOther(db.sections, Trim(code.value), ParseId(idText).value))
    ensures r.1.NotFound? <==>
              ParseId(idText).Some? && Truthy(name) && Truthy(code) && SectionWithId(db.sections, ParseId(idText).value).None?
    ensures !r.1.Ok? ==> r.0 == db
    ensures r.1.Ok? ==> r.1.value == SectionRow(ParseId(idText).value, Trim(name.value), Trim(code.value), active == Some("true"))
                        && r.0 == db.(sections := ReplaceSection(db.sections, r.1.value))
    ensures UniqueIds(db.sections) && UniqueCodes(db.sections) ==> UniqueCodes(r.0.sections)
  {
    match ParseId(idText)
    case None => (db, BadRequest)
    case Some(id) =>
      if !Truthy(name) || !Truthy(code) then (db, BadRequest)
      else if SectionWithId(db.sections, id).None? then (db, NotFound)
      else if CodeTakenByOther(db.sections, Trim(code.value), id) then (db, BadRequest)
      else
        var s := SectionRow(id, Trim(name.value), Trim(code.value), active == Some("true"));
        if UniqueIds(db.sections) && UniqueCodes(db.sections) then ReplaceSectionKeepsCodesUnique(db.sections, s); (db.(sections := ReplaceSection(db.sections, s)), Ok(s))
        else (db.(sections := ReplaceSection(db.sections, s)), Ok(s))
  }

  // ---------------------------------------------------------------------
  // generateSKU

  /** The characters `[a-z0-9а-яё]` the name keeps. */
  predicate SkuNameChar(c: char) {
    ('a' <= c <= 'z') || ('0' <= c <= '9') || ('\U{0430}' <= c <= '\U{044F}') || c == '\U{0451}'
  }

  /** What a kept character becomes after `toUpperCase`. */
  predicate SkuUpperChar(c: char) {
    ('A' <= c <= 'Z') || ('0' <= c <= '9') || ('\U{0410}' <= c <= '\U{042F}') || c == '\U{0401}'
  }

  /** How many digits of the timestamp end the SKU. */
  function StampLength(now: nat): (n: nat)
    ensures 1 <= n <= 6
  {
    if |NatToString(now)| < 6 then |NatToString(now)| else 6
  }

  /** The name part: the first three kept characters of the lowercased
      name, upper-cased. */
  function NamePart(name: string): (part: string)
    ensures |part| <= 3
    ensures forall i :: 0 <= i < |part| ==> SkuUpperChar(part[i])
    ensures var kept := Filter(Lower(name), SkuNameChar);
      && |part| == Min(|kept|, 3)
      && forall i :: 0 <= i < |part| ==> part[i] == UpperChar(kept[i])
  {
    var kept := Filter(Lower(name), SkuNameChar);
    var first := if |kept| <= 3 then kept else kept[..3];
    assert forall i :: 0 <= i < |first| ==> SkuNameChar(first[i]);
    Upper(first)
  }

  /** A character the name part drops (punctuation, a space, a letter of
      another alphabet) can be removed from the name without changing it. */
  lemma NamePartSkipsDropped(a: string, c: char, b: string)
    requires !SkuNameChar(LowerChar(c))
    ensures NamePart(a + [c] + b) == NamePart(a + b)
  {
    KeptSkipsDropped(a, c, b);
  }

  lemma KeptSkipsDropped(a: string, c: char, b: string)
    requires !SkuNameChar(LowerChar(c))
    ensures Filter(Lower(a + [c] + b), SkuNameChar) == Filter(Lower(a + b), SkuNameChar)
  {
    var la, lc, lb := Lower(a), Lower([c]), Lower(b);
    LowerConcat(a + [c], b);
    LowerConcat(a, [c]);
    LowerConcat(a, b);
    FilterConcat(la + lc, lb, SkuNameChar);
    FilterConcat(la, lc, SkuNameChar);
    assert Filter(lc, SkuNameChar) == [] by {
      assert lc == [LowerChar(c)];
    }
    assert Filter(la, SkuNameChar) + [] == Filter(la, SkuNameChar);
    FilterConcat(la, lb, SkuNameChar);
  }

  /** `Date.now().toString().slice(-6)`. */
  function Stamp(now: nat): (s: string)
    ensures |s| == StampLength(now)
    ensures AllDigits(s) && DigitsValue(s) == now % Pow10(6)
  {
    LastDigitsValue(now, 6);
    LastChars(NatToString(now), 6)
  }

  /** Where the parts of a generated SKU sit. */
  lemma SkuLayout(part: string, stamp: string)
    requires forall i :: 0 <= i < |part| ==> SkuUpperChar(part[i])
    ensures var r := "MF" + part + stamp;
      && r[..2] == "MF" && r[|r| - |stamp|..] == stamp
      && forall i :: 2 <= i < |r| - |stamp| ==> SkuUpperChar(r[i])
  {
    var r := "MF" + part + stamp;
    assert forall i :: 2 <= i < |r| - |stamp| ==> r[i] == part[i - 2];
  }

  /** `generateSKU(name)` at time `now`: "MF", the name part, and the last six
      digits of the timestamp. */
  function GenerateSku(name: string, now: nat): (r: string)
    ensures 2 + StampLength(now) <= |r| <= 11 && r[..2] == "MF"
    ensures forall i :: 2 <= i < |r| - StampLength(now) ==> SkuUpperChar(r[i])
    ensures AllDigits(r[|r| - StampLength(now)..])
    ensures DigitsValue(r[|r| - StampLength(now)..]) == now % Pow10(6)
    ensures r[2..|r| - StampLength(now)] == NamePart(name)
    ensures r[|r| - StampLength(now)..] == Stamp(now)
  {
    var part := NamePart(name);
    var stamp := Stamp(now);
    SkuLayout(part, stamp);
    "MF" + part + stamp
  }

  /** `sku || generateSKU(name)` of the create route in server.js: None when
      there is no sku and no name, where the call throws. */
  function FinalSku(sku: Option<string>, name: Option<string>, now: nat): (r: Option<string>)
    ensures Truthy(sku) ==> r == Some(sku.value)
    ensures !Truthy(sku) && name.Some? ==> r == Some(GenerateSku(name.value, now))
    ensures !Truthy(sku) && name.None? ==> r.None?
  {
    if Truthy(sku) then Some(sku.value)
    else match name
      case Some(n) => Some(GenerateSku(n, now))
      case None => None
  }

  // ---------------------------------------------------------------------
  // GET /api/products of server.js

  datatype ProductQuery = ProductQuery(
    category: Option<string>, section: Option<string>, active: Option<string>,
    featured: Option<string>, search: Option<string>)

  /** The WHERE clause: each supplied filter must hold; `like(field, term)`
      is SQLite's `field LIKE '%term%'`. */
  predicate QueryMatches(p: Row, q: ProductQuery, like: (string, string) -> bool) {
    && (Truthy(q.category) ==> p.category == q.category.value)
    && (Truthy(q.section) ==> p.section == q.section.value)
    && (q.active.Some? ==> p.active == (q.active.value == "true"))
    && (q.featured.Some? ==> p.featured == (q.featured.value == "true"))
    && (Truthy(q.search) ==> like(p.name, q.search.value) || like(p.sku, q.search.value)
                             || like(p.description, q.search.value))
  }

  function NewerFirst(p: Row): int { -p.createdAt }

  /** The listing: exactly the matching rows, newest first. */
  function ListProducts(products: seq<Row>, q: ProductQuery, like: (string, string) -> bool): (r: seq<Row>)
    ensures forall i :: 0 <= i < |r| ==> QueryMatches(r[i], q, like)
    ensures multiset(r) == multiset(Filter(products, (p: Row) => QueryMatches(p, q, like)))
    ensures forall i, j :: 0 <= i < j < |r| ==> r[i].createdAt >= r[j].createdAt
  {
    var matching := Filter(products, (p: Row) => QueryMatches(p, q, like));
    var r := Sorting.SortBy(matching, NewerFirst);
    assert forall i, j :: 0 <= i < j < |r| ==> NewerFirst(r[i]) <= NewerFirst(r[j]);
    assert forall i :: 0 <= i < |r| ==> r[i] in multiset(matching);
    r
  }

  // ---------------------------------------------------------------------
  // Migration from browser storage (Utils/server.js)

  /** A section as sent for migration; None is a missing field. */
  datatype MigSection = MigSection(name: Option<string>, code: Option<string>, active: Option<bool>)

  /** `INSERT OR IGNORE INTO sections` inserts exactly when name and code are
      present (NOT NULL) and the code is new (UNIQUE). */
  predicate SectionInsertable(sections: seq<SectionRow>, m: MigSection) {
    m.name.Some? && m.code.Some? && !HasCode(sections, m.code.value)
  }

  /** The sections migrated one after another; the count is the number of
      rows actually inserted. */
  function MigrateSections(sections: seq<SectionRow>, input: seq<MigSection>, nextId: int): (r: (seq<SectionRow>, nat))
    ensures |r.0| == |sections| + r.1 && r.1 <= |input|
    ensures sections <= r.0
    decreases |input|
  {
    if |input| == 0 then (sections, 0)
    else
      var m := input[0];
      if SectionInsertable(sections, m) then
        var row := SectionRow(nextId, m.name.value, m.code.value, m.active != Some(false));
        var (final, n) := MigrateSections(sections + [row], input[1..], nextId + 1);
        (final, n + 1)
      else MigrateSections(sections, input[1..], nextId)
  }

  lemma HasCodeGrows(s: seq<SectionRow>, t: seq<SectionRow>, code: string)
    requires s <= t && HasCode(s, code)
    ensures HasCode(t, code)
  {
    var k :| 0 <= k < |s| && s[k].code == code;
    assert t[k] == s[k];
  }

  /** Migration keeps section codes unique. */
  lemma {:induction false} MigrateSectionsKeepsCodesUnique(sections: seq<SectionRow>, input: seq<MigSection>, nextId: int)
    requires UniqueCodes(sections)
    ensures UniqueCodes(MigrateSections(sections, input, nextId).0)
    decreases |input|
  {
    if |input| > 0 {
      var m := input[0];
      if SectionInsertable(sections, m) {
        var t := sections + [SectionRow(nextId, m.name.value, m.code.value, m.active != Some(false))];
        forall i, j | 0 <= i < j < |t| ensures t[i].code != t[j].code {
          if j == |sections| {
            assert t[i] == sections[i];
          }
        }
        MigrateSectionsKeepsCodesUnique(t, input[1..], nextId + 1);
      } else {
        MigrateSectionsKeepsCodesUnique(sections, input[1..], nextId);
      }
    }
  }

  /** After migration, the code of every complete input section is in the
      table. */
  lemma {:induction false} MigrateSectionsCovers(sections: seq<SectionRow>, input: seq<MigSection>, nextId: int)
    ensures forall k :: 0 <= k < |input| && input[k].name.Some? && input[k].code.Some? ==>
              HasCode(MigrateSections(sections, input, nextId).0, input[k].code.value)
    decreases |input|
  {
    if |input| > 0 {
      var m := input[0];
      var t := if SectionInsertable(sections, m)
               then sections + [SectionRow(nextId, m.name.value, m.code.value, m.active != Some(false))]
               else sections;
      var id' := if SectionInsertable(sections, m) then nextId + 1 else nextId;
      assert MigrateSections(sections, input, nextId).0 == MigrateSections(t, input[1..], id').0;
      MigrateSectionsCovers(t, input[1..], id');
      var final := MigrateSections(sections, input, nextId).0;
      if m.name.Some? && m.code.Some? {
        if SectionInsertable(sections, m) {
          assert t[|sections|].code == m.code.value;
          assert HasCode(t, m.code.value);
        }
        HasCodeGrows(t, final, m.code.value);
      }
      forall k | 1 <= k < |input| && input[k].name.Some? && input[k].code.Some?
        ensures HasCode(final, input[k].code.value)
      {
        assert input[1..][k - 1] == input[k];
      }
    }
  }

  /** A migration whose complete sections are all present inserts nothing. */
  lemma {:induction false} MigrateSectionsNothingNew(sections: seq<SectionRow>, input: seq<MigSection>, nextId: int)
    requires forall k :: 0 <= k < |input| && input[k].name.Some? && input[k].code.Some? ==>
               HasCode(sections, input[k].code.value)
    ensures MigrateSections(sections, input, nextId) == (sections, 0)
    decreases |input|
  {
    if |input| > 0 {
      assert !SectionInsertable(sections, input[0]);
      forall k | 0 <= k < |input[1..]| && input[1..][k].name.Some? && input[1..][k].code.Some?
        ensures HasCode(sections, input[1..][k].code.value)
      {
        assert input[1..][k] == input[k + 1];
      }
      MigrateSectionsNothingNew(sections, input[1..], nextId);
    }
  }

  /** Running the same section migration twice inserts nothing the second
      time. */
  lemma MigrateSectionsIdempotent(sections: seq<SectionRow>, input: seq<MigSection>, nextId: int, laterId: int)
    ensures var first := MigrateSections(sections, input, nextId).0;
      MigrateSections(first, input, laterId) == (first, 0)
  {
    MigrateSectionsCovers(sections, input, nextId);
    MigrateSectionsNothingNew(MigrateSections(sections, input, nextId).0, input, laterId);
  }

  /** A product as sent for migration; None is a missing field. */
  datatype MigProduct = MigProduct(
    sku: Option<string>, name: Option<string>, price: Option<int>, category: Option<string>,
    section: Option<string>, stock: Option<int>, description: Option<string>,
    features: Option<seq<string>>, specs: Option<map<string, string>>, badge: Option<string>,
    active: Option<bool>, featured: Option<bool>, images: Option<seq<string>>)

  predicate HasSku(products: seq<Row>, sku: string) {
    exists k :: 0 <= k < |products| && products[k].sku == sku
  }

  predicate UniqueSkus(products: seq<Row>) {
    forall i, j :: 0 <= i < j < |products| ==> products[i].sku != products[j].sku
  }

  /** The sku a migrated product gets: its own when truthy, else a generated
      one; None when there is no name to generate from, where the call
      throws and the whole migration answers 500. */
  function MigrationSku(m: MigProduct, now: nat): (r: Option<string>)
    ensures r.None? <==> !Truthy(m.sku) && m.name.None?
    ensures Truthy(m.sku) ==> r == Some(m.sku.value)
  {
    FinalSku(m.sku, m.name, now)
  }

  /** The NOT NULL columns name, price, category and section are present. */
  predicate Complete(m: MigProduct) {
    m.name.Some? && m.price.Some? && m.category.Some? && m.section.Some?
  }

  /** `INSERT OR IGNORE INTO products` inserts exactly when the product is
      complete and the sku is new. */
  predicate ProductInsertable(products: seq<Row>, m: MigProduct, sku: string) {
    Complete(m) && !HasSku(products, sku)
  }

  /** The row inserted for a migrated product, with the source's defaults. */
  function MigratedRow(m: MigProduct, sku: string, id: int, now: nat): (row: Row)
    requires Complete(m)
    ensures row.sku == sku && row.id == id && row.stock == Some(m.stock.GetOr(0))
    ensures row.active <==> m.active != Some(false)
    ensures row.features == Parsed(m.features.GetOr([])) && row.images == Parsed(m.images.GetOr([]))
  {
    Row(id, sku, m.name.value, m.price, m.category.value, m.section.value, Some(m.stock.GetOr(0)),
        OrElse(m.description, ""), Parsed(m.features.GetOr([])), Parsed(m.specs.GetOr(map[])),
        OrElse(m.badge, ""), m.active != Some(false), m.featured == Some(true), Parsed(m.images.GetOr([])), now)
  }

  datatype ProductMigration = ProductMigration(products: seq<Row>, inserted: nat, failed: bool)

  /** The products migrated one after another, `clock[k]` being the time at
      the k-th; a product without sku and name stops the run. */
  function MigrateProducts(products: seq<Row>, input: seq<MigProduct>, nextId: int, clock: seq<nat>): (r: ProductMigration)
    requires |clock| == |input|
    ensures |r.products| == |products| + r.inserted && r.inserted <= |input|
    ensures products <= r.products
    ensures r.failed <==> exists k :: 0 <= k < |input| && MigrationSku(input[k], clock[k]).None?
    decreases |input|
  {
    if |input| == 0 then ProductMigration(products, 0, false)
    else
      var m := input[0];
      match MigrationSku(m, clock[0])
      case None => ProductMigration(products, 0, true)
      case Some(sku) =>
        var r := if ProductInsertable(products, m, sku) then
          var next := MigrateProducts(products + [MigratedRow(m, sku, nextId, clock[0])], input[1..], nextId + 1, clock[1..]);
          next.(inserted := next.inserted + 1)
        else MigrateProducts(products, input[1..], nextId, clock[1..]);
        assert forall k :: 1 <= k < |input| ==> input[1..][k - 1] == input[k] && clock[1..][k - 1] == clock[k];
        r
  }

  lemma HasSkuGrows(s: seq<Row>, t: seq<Row>, sku: string)
    requires s <= t && HasSku(s, sku)
    ensures HasSku(t, sku)
  {
    var k :| 0 <= k < |s| && s[k].sku == sku;
    assert t[k] == s[k];
  }

  /** With every sku given, a migrated table holds the sku of every
      complete input product. */
  lemma {:induction false} MigrateProductsCovers(products: seq<Row>, input: seq<MigProduct>, nextId: int, clock: seq<nat>)
    requires |clock| == |input|
    requires forall k :: 0 <= k < |input| ==> Truthy(input[k].sku)
    ensures var r := MigrateProducts(products, input, nextId, clock);
      forall k :: 0 <= k < |input| && Complete(input[k]) ==> HasSku(r.products, input[k].sku.value)
    decreases |input|
  {
    if |input| > 0 {
      var m := input[0];
      var sku := m.sku.value;
      var ins := ProductInsertable(products, m, sku);
      var t := if ins then products + [MigratedRow(m, sku, nextId, clock[0])] else products;
      var id' := if ins then nextId + 1 else nextId;
      assert MigrateProducts(products, input, nextId, clock).products == MigrateProducts(t, input[1..], id', clock[1..]).products;
      assert forall k :: 0 <= k < |input[1..]| ==> input[1..][k] == input[k + 1];
      MigrateProductsCovers(t, input[1..], id', clock[1..]);
      var final := MigrateProducts(products, input, nextId, clock).products;
      if Complete(m) {
        if ins {
          assert t[|products|].sku == sku;
          assert HasSku(t, sku);
        }
        HasSkuGrows(t, final, sku);
      }
    }
  }

  /** A product migration whose complete products are all present inserts
      nothing. */
  lemma {:induction false} MigrateProductsNothingNew(products: seq<Row>, input: seq<MigProduct>, nextId: int, clock: seq<nat>)
    requires |clock| == |input|
    requires forall k :: 0 <= k < |input| ==> Truthy(input[k].sku)
    requires forall k :: 0 <= k < |input| && Truthy(input[k].sku) && Complete(input[k]) ==>
               HasSku(products, input[k].sku.value)
    ensures MigrateProducts(products, input, nextId, clock) == ProductMigration(products, 0, false)
    decreases |input|
  {
    if |input| > 0 {
      assert !ProductInsertable(products, input[0], input[0].sku.value);
      assert forall k :: 0 <= k < |input[1..]| ==> input[1..][k] == input[k + 1];
      MigrateProductsNothingNew(products, input[1..], nextId, clock[1..]);
    }
  }

  /** With every sku given, running the same product migration twice
      inserts nothing the second time and does not fail. */
  lemma MigrateProductsIdempotent(products: seq<Row>, input: seq<MigProduct>, nextId: int, laterId: int,
                                  clock: seq<nat>, later: seq<nat>)
    requires |clock| == |input| && |later| == |input|
    requires forall k :: 0 <= k < |input| ==> Truthy(input[k].sku)
    ensures var first := MigrateProducts(products, input, nextId, clock).products;
      MigrateProducts(first, input, laterId, later) == ProductMigration(first, 0, false)
  {
    MigrateProductsCovers(products, input, nextId, clock);
    MigrateProductsNothingNew(MigrateProducts(products, input, nextId, clock).products, input, laterId, later);
  }

  datatype MigrationReply = Migrated(db: Db, migratedProducts: nat, migratedSections: nat) | MigrationFailed(db: Db)

  /** `POST /api/migrate-from-localstorage`: sections first, then products,
      each list only when it is an array. A failure answers 500, keeping the
      rows inserted before it. */
  function Migrate(db: Db, sections: Option<seq<MigSection>>, products: Option<seq<MigProduct>>,
                   nextSectionId: int, nextProductId: int, clock: seq<nat>): (r: MigrationReply)
    requires products.Some? ==> |clock| == |products.value|
    ensures r.MigrationFailed? <==> products.Some? && MigrateProducts(db.products, products.value, nextProductId, clock).failed
    ensures db.sections <= r.db.sections && db.products <= r.db.products
    ensures r.Migrated? ==> |r.db.sections| == |db.sections| + r.migratedSections
                            && |r.db.products| == |db.products| + r.migratedProducts
  {
    var (ss, ns) := if sections.Some? then MigrateSections(db.sections, sections.value, nextSectionId) else (db.sections, 0);
    var pm := if products.Some? then MigrateProducts(db.products, products.value, nextProductId, clock)
              else ProductMigration(db.products, 0, false);
    if pm.failed then MigrationFailed(Db(pm.products, ss)) else Migrated(Db(pm.products, ss), pm.inserted, ns)
  }
}
