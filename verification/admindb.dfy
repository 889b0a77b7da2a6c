/** The admin panel's product editor and catalogue helpers (admin-db.js):
    the feature and specification text fields of the product form, the
    per-section product count, form validation, the section check before a
    save and the SKU quick search. */
module AdminDb {
  import opened Js
  import opened Catalog
  import DataManager

  // Features: one per line

  /** Trim every line. */
  function TrimAll(lines: seq<string>): (r: seq<string>)
    ensures |r| == |lines|
    ensures forall i :: 0 <= i < |r| ==> r[i] == Trim(lines[i])
  {
    seq(|lines|, i requires 0 <= i < |lines| => Trim(lines[i]))
  }

  predicate NonEmpty(line: string) {
    |line| > 0
  }

  /** `parseFeatures`: the trimmed lines of the text, blank ones dropped. */
  function ParseFeatures(text: string): (r: seq<string>)
    ensures forall i :: 0 <= i < |r| ==> r[i] != "" && IsTrimmed(r[i])
    ensures forall i :: 0 <= i < |r| ==> r[i] in TrimAll(Split(text, '\n'))
  {
    Filter(TrimAll(Split(text, '\n')), NonEmpty)
  }

  /** The features field as `fillProductForm` fills it: one feature per line. */
  function RenderFeatures(features: seq<string>): string {
    Join(features, '\n')
  }

  /** What a feature list must look like to survive the edit form unchanged. */
  predicate FormFeature(f: string) {
    f != "" && IsTrimmed(f) && '\n' !in f
  }

  /** Opening a product in the editor and saving it again keeps its features,
      provided each is a non-blank, trimmed, single-line text. */
  lemma FeaturesRoundTrip(features: seq<string>)
    requires forall i :: 0 <= i < |features| ==> FormFeature(features[i])
    ensures ParseFeatures(RenderFeatures(features)) == features
  {
    if |features| == 0 {
      assert Split("", '\n') == [""];
      assert TrimAll([""]) == [""];
    } else {
      SplitJoin(features, '\n');
      forall i | 0 <= i < |features|
        ensures Trim(features[i]) == features[i]
      {
        TrimOfTrimmed(features[i]);
      }
      assert TrimAll(features) == features;
      FilterAll(features, NonEmpty);
    }
  }

  // Specifications: one "key: value" per line

  /** One line of the specifications field: the text before the first ':'
      is the key, the rest (which may hold more ':') the value, both trimmed.
      A line without ':' or starting with ':' is skipped. A key of only spaces
      is accepted and becomes the empty key. */
  function SpecLine(line: string): (r: Option<(string, string)>) {
    var parts := Split(line, ':');
    if parts[0] != "" && |parts| > 1 then Some((Trim(parts[0]), Trim(Join(parts[1..], ':')))) else None
  }

  /** A line gives a specification iff it has a ':' that is not its first
      character; the key and value are the trimmed texts around the first ':'. */
  lemma SpecLineAtFirstColon(line: string)
    ensures FindIndex(line, (c: char) => c == ':').None? ==> SpecLine(line).None?
    ensures FindIndex(line, (c: char) => c == ':').Some? ==>
              var i := FindIndex(line, (c: char) => c == ':').value;
              && (SpecLine(line).Some? <==> i > 0)
              && (SpecLine(line).Some? ==> SpecLine(line).value == (Trim(line[..i]), Trim(line[i + 1..])))
  {
    SpecLineParts(line);
  }

  /** How `line.split(':')` relates to the first ':' of the line. */
  lemma SpecLineParts(line: string)
    ensures FindIndex(line, (c: char) => c == ':').None? ==> Split(line, ':') == [line]
    ensures FindIndex(line, (c: char) => c == ':').Some? ==>
              var i := FindIndex(line, (c: char) => c == ':').value;
              && |Split(line, ':')| >= 2
              && Split(line, ':')[0] == line[..i]
              && Join(Split(line, ':')[1..], ':') == line[i + 1..]
  {
    match FindIndex(line, (c: char) => c == ':')
    case None =>
      assert ':' !in line by {
        forall j | 0 <= j < |line| ensures line[j] != ':' {
          assert !((c: char) => c == ':')(line[j]);
        }
      }
      SplitNoSep(line, ':');
    case Some(i) =>
      assert ':' !in line[..i] by {
        forall j | 0 <= j < i ensures line[..i][j] != ':' {
          assert !((c: char) => c == ':')(line[j]);
        }
      }
      SplitAtFirst(line, ':', i);
  }

  /** A parsed line that gives a specification under key k. */
  predicate HasKey(o: Option<(string, string)>, k: string) {
    o.Some? && o.value.0 == k
  }

  /** The specifications the parsed lines give, assigned in order: a later
      line with the same key overwrites an earlier one. */
  function SpecsOf(parsed: seq<Option<(string, string)>>): (r: map<string, string>)
    decreases |parsed|
  {
    if |parsed| == 0 then map[]
    else
      var n := |parsed| - 1;
      match parsed[n]
      case None => SpecsOf(parsed[..n])
      case Some(kv) => SpecsOf(parsed[..n])[kv.0 := kv.1]
  }

  /** The keys of the specifications are exactly the keys the lines give. */
  lemma {:induction false} SpecsOfKeys(parsed: seq<Option<(string, string)>>, k: string)
    ensures k in SpecsOf(parsed) <==> exists i :: 0 <= i < |parsed| && HasKey(parsed[i], k)
    decreases |parsed|
  {
    if |parsed| > 0 {
      var n := |parsed| - 1;
      SpecsOfKeys(parsed[..n], k);
      assert forall i :: 0 <= i < n ==> parsed[..n][i] == parsed[i];
    }
  }

  /** Every line, parsed. */
  function ParseLines(lines: seq<string>): (r: seq<Option<(string, string)>>)
    ensures |r| == |lines|
    ensures forall i :: 0 <= i < |r| ==> r[i] == SpecLine(lines[i])
  {
    seq(|lines|, i requires 0 <= i < |lines| => SpecLine(lines[i]))
  }

  /** `parseSpecifications`: the specifications written one per line. */
  function ParseSpecifications(text: string): (r: map<string, string>) {
    SpecsOf(ParseLines(Split(text, '\n')))
  }

  /** The line gives a specification under key k. */
  predicate GivesKey(line: string, k: string) {
    HasKey(SpecLine(line), k)
  }

  /** The line that wins for a key: the last one giving it. */
  lemma {:induction false} LastLineWins(parsed: seq<Option<(string, string)>>, i: nat)
    requires i < |parsed| && parsed[i].Some?
    requires forall j :: i < j < |parsed| && parsed[j].Some? ==> parsed[j].value.0 != parsed[i].value.0
    ensures parsed[i].value.0 in SpecsOf(parsed)
    ensures SpecsOf(parsed)[parsed[i].value.0] == parsed[i].value.1
    decreases |parsed|
  {
    var n := |parsed| - 1;
    if i < n {
      assert parsed[..n][i] == parsed[i];
      LastLineWins(parsed[..n], i);
    }
  }

  /** The map a sequence of entries builds when assigned in order. */
  function MapOf(entries: seq<(string, string)>): (r: map<string, string>)
    ensures forall k :: k in r <==> exists i :: 0 <= i < |entries| && entries[i].0 == k
    decreases |entries|
  {
    if |entries| == 0 then map[]
    else
      var n := |entries| - 1;
      assert forall i :: 0 <= i < n ==> entries[..n][i] == entries[i];
      MapOf(entries[..n])[entries[n].0 := entries[n].1]
  }

  /** Lines that all parse: the specifications are the map of their entries. */
  lemma {:induction false} SpecsOfSome(entries: seq<(string, string)>, parsed: seq<Option<(string, string)>>)
    requires |parsed| == |entries|
    requires forall i :: 0 <= i < |parsed| ==> parsed[i] == Some(entries[i])
    ensures SpecsOf(parsed) == MapOf(entries)
    decreases |entries|
  {
    if |entries| > 0 {
      var n := |entries| - 1;
      SpecsOfSome(entries[..n], parsed[..n]);
    }
  }

  /** One specification as `fillProductForm` writes it. */
  function EntryLine(e: (string, string)): string {
    e.0 + ": " + e.1
  }

  /** The lines `fillProductForm` writes for the entries. */
  function EntryLines(entries: seq<(string, string)>): (r: seq<string>)
    ensures |r| == |entries|
    ensures forall i :: 0 <= i < |r| ==> r[i] == EntryLine(entries[i])
  {
    seq(|entries|, i requires 0 <= i < |entries| => EntryLine(entries[i]))
  }

  /** The specifications field as `fillProductForm` fills it from
      `Object.entries`, one "key: value" per line. */
  function RenderSpecifications(entries: seq<(string, string)>): string {
    Join(EntryLines(entries), '\n')
  }

  /** An entry that survives the edit form: a non-blank trimmed key without
      ':' or line break, a trimmed value without a line break. */
  predicate FormEntry(e: (string, string)) {
    && e.0 != "" && IsTrimmed(e.0) && ':' !in e.0 && '\n' !in e.0
    && IsTrimmed(e.1) && '\n' !in e.1
  }

  /** A rendered line parses back to its entry. */
  lemma EntryLineParses(e: (string, string))
    requires FormEntry(e)
    ensures SpecLine(EntryLine(e)) == Some(e)
  {
    var line := EntryLine(e);
    var k := |e.0|;
    assert line[k] == ':' && line[..k] == e.0 && line[k + 1..] == " " + e.1;
    assert ':' !in line[..k];
    SplitAtFirst(line, ':', k);
    TrimOfTrimmed(e.0);
    TrimLeadingSpace(e.1);
  }

  /** Opening a product in the editor and saving it again keeps its
      specifications, whatever order `Object.entries` lists them in. */
  lemma SpecificationsRoundTrip(entries: seq<(string, string)>)
    requires forall i :: 0 <= i < |entries| ==> FormEntry(entries[i])
    ensures ParseSpecifications(RenderSpecifications(entries)) == MapOf(entries)
  {
    if |entries| == 0 {
      EmptySpecificationsRoundTrip(entries);
    } else {
      var lines := EntryLines(entries);
      RenderedLinesSplit(entries);
      var parsed := ParseLines(lines);
      forall i | 0 <= i < |entries| ensures parsed[i] == Some(entries[i]) {
        EntryLineParses(entries[i]);
      }
      SpecsOfSome(entries, parsed);
    }
  }

  /** No specifications render as an empty field, which parses back to
      none. */
  lemma EmptySpecificationsRoundTrip(entries: seq<(string, string)>)
    requires |entries| == 0
    ensures ParseSpecifications(RenderSpecifications(entries)) == MapOf(entries)
  {
    assert Join(EntryLines(entries), '\n') == "";
    assert Split("", '\n') == [""];
    assert SpecLine("") == None by {
      assert Split("", ':') == [""];
    }
    assert ParseLines([""]) == [None];
    assert SpecsOf([None]) == SpecsOf([]);
  }

  /** The rendered field splits back into its lines. */
  lemma RenderedLinesSplit(entries: seq<(string, string)>)
    requires |entries| > 0
    requires forall i :: 0 <= i < |entries| ==> FormEntry(entries[i])
    ensures Split(RenderSpecifications(entries), '\n') == EntryLines(entries)
  {
    var lines := EntryLines(entries);
    forall i | 0 <= i < |lines| ensures '\n' !in lines[i] {
      assert lines[i] == entries[i].0 + ": " + entries[i].1;
    }
    SplitJoin(lines, '\n');
  }

  /** With distinct keys each entry's value is the one the map holds. */
  lemma {:induction false} MapOfDistinct(entries: seq<(string, string)>, i: nat)
    requires i < |entries|
    requires forall a, b :: 0 <= a < b < |entries| ==> entries[a].0 != entries[b].0
    ensures entries[i].0 in MapOf(entries) && MapOf(entries)[entries[i].0] == entries[i].1
    decreases |entries|
  {
    var n := |entries| - 1;
    if i < n {
      assert entries[..n][i] == entries[i];
      MapOfDistinct(entries[..n], i);
    }
  }

  // Section counts and the product form

  predicate InSectionActive(p: Product, code: string) {
    p.section == code && ActiveTrue(p)
  }

  /** `getProductCountInSection`: the active products of the section. */
  function ProductCountInSection(products: seq<Product>, code: string): (n: nat)
    ensures n <= |products|
    ensures n == |Filter(products, (p: Product) => InSectionActive(p, code))|
  {
    Count(products, (p: Product) => InSectionActive(p, code))
  }

  /** The count the admin shows for a section is the number of products the
      storefront lists for that section among the active ones. */
  lemma CountMatchesSectionListing(products: seq<Product>, code: string)
    requires code != ""
    ensures ProductCountInSection(products, code)
            == |DataManager.Select(products, DataManager.Filters(Some(true), "", code, false, ""))|
  {
    var f := DataManager.Filters(Some(true), "", code, false, "");
    FilterExt(products, (p: Product) => InSectionActive(p, code), (p: Product) => DataManager.Matches(p, f));
  }

  /** The text inputs of the product form (`getProductFormData`). */
  datatype ProductForm = ProductForm(name: string, price: string, category: string, section: string, sku: string)

  /** `validateProductForm`: name, price, category and section are required. */
  predicate ValidateProductForm(form: ProductForm) {
    form.name != "" && form.price != "" && form.category != "" && form.section != ""
  }

  /** What `saveProductToDB` does with a form. */
  datatype SaveOutcome = InvalidForm | UnknownSection | SendUpdate(id: int) | SendCreate

  /** `sections.some(s => s.code === section && s.active)`. */
  predicate SectionAvailable(sections: seq<Section>, code: string) {
    exists i :: 0 <= i < |sections| && sections[i].code == code && sections[i].active == Some(true)
  }

  /** `saveProductToDB`: invalid forms stop first, then a section that is
      missing or inactive; otherwise an update when a product is being
      edited, a create otherwise. */
  function SaveProductToDb(form: ProductForm, sections: seq<Section>, currentId: Option<int>): (r: SaveOutcome)
    ensures r == InvalidForm <==> !ValidateProductForm(form)
    ensures r == UnknownSection <==> ValidateProductForm(form) && !SectionAvailable(sections, form.section)
    ensures r.SendUpdate? <==> ValidateProductForm(form) && SectionAvailable(sections, form.section) && currentId.Some? && currentId.value != 0
    ensures r.SendUpdate? ==> Some(r.id) == currentId
  {
    if !ValidateProductForm(form) then InvalidForm
    else if !SectionAvailable(sections, form.section) && form.section != "" then UnknownSection
    else if currentId.Some? && currentId.value != 0 then SendUpdate(currentId.value)
    else SendCreate
  }

  // SKU quick search

  /** How the server answered `GET /products/sku/:sku`. */
  datatype SkuAnswer = SkuFound(product: Product) | ServerUnavailable | OtherFailure

  /** `quickSearchBySKU`: a blank query finds nothing without asking the
      server; the server's product otherwise; when the server is down, the
      first local product whose SKU equals the trimmed query. */
  function QuickSearchBySku(query: string, products: seq<Product>, answer: SkuAnswer): (r: Option<Product>)
    ensures Trim(query) == "" ==> r.None?
    ensures Trim(query) != "" && answer.SkuFound? ==> r == Some(answer.product)
    ensures Trim(query) != "" && answer.OtherFailure? ==> r.None?
    ensures Trim(query) != "" && answer.ServerUnavailable? ==>
              (r.None? <==> forall i :: 0 <= i < |products| ==> products[i].sku != Trim(query))
    ensures Trim(query) != "" && answer.ServerUnavailable? && r.Some? ==>
              r.value.sku == Trim(query)
              && exists i :: 0 <= i < |products| && products[i] == r.value
                             && forall j :: 0 <= j < i ==> products[j].sku != Trim(query)
  {
    var key := Trim(query);
    if key == "" then None
    else match answer
      case SkuFound(p) => Some(p)
      case OtherFailure => None
      case ServerUnavailable =>
        match FindIndex(products, (p: Product) => p.sku == key)
        case None => None
        case Some(i) => Some(products[i])
  }
}
