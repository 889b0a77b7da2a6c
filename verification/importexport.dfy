/** Importing a backup into local storage (import-export.js): products and
    sections merged by id or replaced, images overlaid or overwritten, the
    cart replaced; plus the shape check of an import file and the storage
    statistics. Stored records are id-keyed maps of fields, so that the
    object spread `{...old, ...new}` is a map union. */
module ImportExport {
  import opened Js
  import Cart

  /** A stored product or section: its id and its other fields. */
  datatype Record = Record(id: int, fields: map<string, string>)

  type Images = map<string, string>

  predicate SameId(x: Record, id: int) {
    x.id == id
  }

  /** `existing.findIndex(p => p.id === id)`. */
  function IndexOf(existing: seq<Record>, id: int): (r: Option<nat>)
    ensures r.Some? ==> r.value < |existing| && existing[r.value].id == id
    ensures r.Some? ==> forall j :: 0 <= j < r.value ==> existing[j].id != id
    ensures r.None? ==> forall j :: 0 <= j < |existing| ==> existing[j].id != id
  {
    FindIndex(existing, (x: Record) => SameId(x, id))
  }

  /** The fields with `updatedAt` set to the import time, when the import
      stamps records (products do, sections do not). */
  function Touch(fields: map<string, string>, stamp: Option<string>): map<string, string> {
    match stamp
    case None => fields
    case Some(t) => fields["updatedAt" := t]
  }

  /** `{...old, ...imported, updatedAt}`: the imported fields win. */
  function Overlay(prior: Record, imported: Record, stamp: Option<string>): Record {
    Record(imported.id, Touch(prior.fields + imported.fields, stamp))
  }

  /** An imported record that is new: stamped products keep a truthy
      `createdAt` and otherwise get the import time. */
  function Fresh(imported: Record, stamp: Option<string>): Record {
    match stamp
    case None => imported
    case Some(t) =>
      var created := if "createdAt" in imported.fields && imported.fields["createdAt"] != "" then imported.fields["createdAt"] else t;
      Record(imported.id, imported.fields["createdAt" := created]["updatedAt" := t])
  }

  /** One imported record merged in: overlaid on the first record with its
      id, appended when there is none. */
  function MergeOne(existing: seq<Record>, imported: Record, stamp: Option<string>): (r: seq<Record>)
    ensures IndexOf(existing, imported.id).Some? ==>
              var i := IndexOf(existing, imported.id).value;
              r == existing[i := Overlay(existing[i], imported, stamp)]
    ensures IndexOf(existing, imported.id).None? ==> r == existing + [Fresh(imported, stamp)]
  {
    match IndexOf(existing, imported.id)
    case Some(i) => existing[i := Overlay(existing[i], imported, stamp)]
    case None => existing + [Fresh(imported, stamp)]
  }

  /** The merge loop of `importProducts` / `importSections`. */
  function Merge(existing: seq<Record>, imported: seq<Record>, stamp: Option<string>): (r: seq<Record>)
    ensures |existing| <= |r| <= |existing| + |imported|
    ensures forall j :: 0 <= j < |existing| ==> r[j].id == existing[j].id
    decreases |imported|
  {
    if |imported| == 0 then existing
    else Merge(MergeOne(existing, imported[0], stamp), imported[1..], stamp)
  }

  predicate Imports(imported: seq<Record>, id: int) {
    exists i :: 0 <= i < |imported| && imported[i].id == id
  }

  predicate HasId(rs: seq<Record>, id: int) {
    exists j :: 0 <= j < |rs| && rs[j].id == id
  }

  predicate UniqueIds(rs: seq<Record>) {
    forall i, j :: 0 <= i < j < |rs| ==> rs[i].id != rs[j].id
  }

  /** A record whose id the import does not mention keeps its fields and its
      position. */
  lemma {:induction false} MergeKeepsUntouched(existing: seq<Record>, imported: seq<Record>, stamp: Option<string>, j: nat)
    requires j < |existing| && !Imports(imported, existing[j].id)
    ensures Merge(existing, imported, stamp)[j] == existing[j]
    decreases |imported|
  {
    if |imported| > 0 {
      var next := MergeOne(existing, imported[0], stamp);
      assert imported[0].id != existing[j].id;
      assert next[j] == existing[j];
      assert !Imports(imported[1..], existing[j].id) by {
        forall i | 0 <= i < |imported| - 1 ensures imported[1..][i].id != existing[j].id {
          assert imported[1..][i] == imported[i + 1];
        }
      }
      MergeKeepsUntouched(next, imported[1..], stamp, j);
    }
  }

  /** After the merge every id of the old list and of the import is present,
      and no other id is. */
  lemma {:induction false} MergeIds(existing: seq<Record>, imported: seq<Record>, stamp: Option<string>, id: int)
    ensures HasId(Merge(existing, imported, stamp), id) <==> HasId(existing, id) || Imports(imported, id)
    decreases |imported|
  {
    if |imported| > 0 {
      var next := MergeOne(existing, imported[0], stamp);
      MergeIds(next, imported[1..], stamp, id);
      MergeOneIds(existing, imported[0], stamp, id);
      assert Imports(imported, id) <==> imported[0].id == id || Imports(imported[1..], id) by {
        if Imports(imported, id) {
          var i :| 0 <= i < |imported| && imported[i].id == id;
          if i > 0 { assert imported[1..][i - 1].id == id; }
        }
        if Imports(imported[1..], id) {
          var i :| 0 <= i < |imported| - 1 && imported[1..][i].id == id;
          assert imported[i + 1].id == id;
        }
      }
    }
  }

  /** One merge step adds the imported id and no other. */
  lemma MergeOneIds(existing: seq<Record>, imported: Record, stamp: Option<string>, id: int)
    ensures HasId(MergeOne(existing, imported, stamp), id) <==> HasId(existing, id) || imported.id == id
  {
    var next := MergeOne(existing, imported, stamp);
    if IndexOf(existing, imported.id).None? {
      assert next[|existing|].id == imported.id;
      if HasId(next, id) {
        var j :| 0 <= j < |next| && next[j].id == id;
        if j < |existing| {
          assert existing[j].id == id;
        }
      }
      if HasId(existing, id) {
        var j :| 0 <= j < |existing| && existing[j].id == id;
        assert next[j].id == id;
      }
    } else {
      var i := IndexOf(existing, imported.id).value;
      assert forall j :: 0 <= j < |next| ==> next[j].id == existing[j].id;
      assert existing[i].id == imported.id;
    }
  }

  /** One merge step never adds a second record with an id already listed. */
  lemma MergeOneUnique(existing: seq<Record>, imported: Record, stamp: Option<string>)
    requires UniqueIds(existing)
    ensures UniqueIds(MergeOne(existing, imported, stamp))
  {
  }

  /** Merging keeps ids unique: an id already in the list is updated in
      place, even when the import lists it twice. */
  lemma {:induction false} MergeUnique(existing: seq<Record>, imported: seq<Record>, stamp: Option<string>)
    requires UniqueIds(existing)
    ensures UniqueIds(Merge(existing, imported, stamp))
    decreases |imported|
  {
    if |imported| > 0 {
      MergeOneUnique(existing, imported[0], stamp);
      MergeUnique(MergeOne(existing, imported[0], stamp), imported[1..], stamp);
    }
  }

  /** A stored record that the import mentions exactly once ends up as that
      imported record laid over it. */
  lemma {:induction false} MergeOverlays(existing: seq<Record>, imported: seq<Record>, stamp: Option<string>, j: nat, k: nat)
    requires UniqueIds(existing)
    requires j < |existing| && k < |imported| && imported[k].id == existing[j].id
    requires forall i :: 0 <= i < |imported| && i != k ==> imported[i].id != existing[j].id
    ensures Merge(existing, imported, stamp)[j] == Overlay(existing[j], imported[k], stamp)
    decreases |imported|
  {
    var next := MergeOne(existing, imported[0], stamp);
    var rest := imported[1..];
    MergeOneUnique(existing, imported[0], stamp);
    if k == 0 {
      assert IndexOf(existing, imported[0].id) == Some(j);
      assert next[j] == Overlay(existing[j], imported[0], stamp);
      assert !Imports(rest, next[j].id) by {
        forall i | 0 <= i < |rest| ensures rest[i].id != next[j].id {
          assert rest[i] == imported[i + 1];
        }
      }
      MergeKeepsUntouched(next, rest, stamp, j);
    } else {
      assert next[j] == existing[j];
      forall i | 0 <= i < |rest| && i != k - 1 ensures rest[i].id != next[j].id {
        assert rest[i] == imported[i + 1];
      }
      MergeOverlays(next, rest, stamp, j, k - 1);
    }
  }

  /** Replace mode for products: the import in its own order, stamped. */
  function ReplaceAll(imported: seq<Record>, stamp: string): (r: seq<Record>)
    ensures |r| == |imported|
    ensures forall i :: 0 <= i < |r| ==> r[i].id == imported[i].id && r[i] == Fresh(imported[i], Some(stamp))
  {
    seq(|imported|, i requires 0 <= i < |imported| => Fresh(imported[i], Some(stamp)))
  }

  /** Apart from the two timestamps a replaced product keeps every imported
      field. */
  lemma ReplaceKeepsFields(imported: seq<Record>, stamp: string, i: nat, f: string)
    requires i < |imported| && f in imported[i].fields && f != "updatedAt"
    requires f == "createdAt" ==> imported[i].fields[f] != ""
    ensures f in ReplaceAll(imported, stamp)[i].fields
    ensures ReplaceAll(imported, stamp)[i].fields[f] == imported[i].fields[f]
  {
  }

  /** `JSON.parse(localStorage.getItem(key) || '[]')`: a missing entry reads
      as empty; an unparsable one throws (None). */
  function ReadList<T>(s: Stored<seq<T>>): (r: Option<seq<T>>)
    ensures s.Absent? ==> r == Some([])
    ensures s.Unparsable? <==> r.None?
    ensures s.Parsed? ==> r == Some(s.value)
  {
    match s
    case Absent => Some([])
    case Unparsable => None
    case Parsed(v) => Some(v)
  }

  /** `importProducts`: the stored list is read first in both modes, so an
      unparsable one aborts the import (None). */
  function ImportProducts(stored: Stored<seq<Record>>, imported: seq<Record>, merge: bool, stamp: string): (r: Option<seq<Record>>)
    ensures r.None? <==> stored.Unparsable?
    ensures r.Some? && !merge ==> r.value == ReplaceAll(imported, stamp)
    ensures r.Some? && merge ==> r.value == Merge(ReadList(stored).value, imported, Some(stamp))
  {
    match ReadList(stored)
    case None => None
    case Some(existing) => if merge then Some(Merge(existing, imported, Some(stamp))) else Some(ReplaceAll(imported, stamp))
  }

  /** `importSections`: the same merge without timestamps; replace stores
      the import verbatim. */
  function ImportSections(stored: Stored<seq<Record>>, imported: seq<Record>, merge: bool): (r: Option<seq<Record>>)
    ensures r.None? <==> stored.Unparsable?
    ensures r.Some? && !merge ==> r.value == imported
    ensures r.Some? && merge ==> r.value == Merge(ReadList(stored).value, imported, None)
  {
    match ReadList(stored)
    case None => None
    case Some(existing) => if merge then Some(Merge(existing, imported, None)) else Some(imported)
  }

  /** `importImages`: overwrite keeps exactly the imported map; otherwise the
      union, the imported value winning on a shared key. */
  function ImportImages(stored: Stored<Images>, imported: Images, overwrite: bool): (r: Option<Images>)
    ensures r.None? <==> stored.Unparsable?
    ensures r.Some? && overwrite ==> r.value == imported
    ensures r.Some? && !overwrite ==>
              && r.value.Keys == imported.Keys + (if stored.Parsed? then stored.value.Keys else {})
              && (forall k :: k in imported ==> r.value[k] == imported[k])
              && (forall k :: k in r.value && k !in imported ==> stored.Parsed? && r.value[k] == stored.value[k])
  {
    match stored
    case Unparsable => None
    case Absent => Some(if overwrite then imported else map[] + imported)
    case Parsed(prior) => Some(if overwrite then imported else prior + imported)
  }

  /** A field of an import file: absent (or falsy), present with the wrong
      shape, or usable. */
  datatype Field<T> = Missing | WrongShape | Given(value: T)

  datatype ImportData = ImportData(
    products: Field<seq<Record>>,
    sections: Field<seq<Record>>,
    images: Field<Images>,
    cart: Field<seq<Cart.CartItem>>)

  /** The messages of `validateImportData`. */
  datatype ImportError = ProductsNotArray | SectionsNotArray | ImagesNotObject | CartNotArray

  /** `validateImportData`: one error per present but wrong-shaped field,
      in field order; valid iff there is none. */
  function ValidateImportData(data: ImportData): (r: (bool, seq<ImportError>))
    ensures r.0 <==> |r.1| == 0
    ensures r.0 <==> !data.products.WrongShape? && !data.sections.WrongShape? && !data.images.WrongShape? && !data.cart.WrongShape?
    ensures ProductsNotArray in r.1 <==> data.products.WrongShape?
    ensures SectionsNotArray in r.1 <==> data.sections.WrongShape?
    ensures ImagesNotObject in r.1 <==> data.images.WrongShape?
    ensures CartNotArray in r.1 <==> data.cart.WrongShape?
    ensures forall i, j :: 0 <= i < j < |r.1| ==> r.1[i] != r.1[j]
  {
    var errors :=
      (if data.products.WrongShape? then [ProductsNotArray] else [])
      + (if data.sections.WrongShape? then [SectionsNotArray] else [])
      + (if data.images.WrongShape? then [ImagesNotObject] else [])
      + (if data.cart.WrongShape? then [CartNotArray] else []);
    (|errors| == 0, errors)
  }

  /** The four local-storage entries an import touches. */
  datatype Store = Store(
    products: Stored<seq<Record>>,
    sections: Stored<seq<Record>>,
    images: Stored<Images>,
    cart: Stored<seq<Cart.CartItem>>)

  datatype ImportOptions = ImportOptions(mergeProducts: bool, mergeSections: bool, overwriteImages: bool)

  /** The options' defaults: merge products and sections, keep images. */
  const DefaultOptions := ImportOptions(true, true, false)

  /** The step for each list throws: the list is given and its stored entry
      does not parse. */
  predicate ProductsThrow(data: ImportData, st: Store) {
    data.products.Given? && st.products.Unparsable?
  }

  predicate SectionsThrow(data: ImportData, st: Store) {
    data.sections.Given? && st.sections.Unparsable?
  }

  predicate ImagesThrow(data: ImportData, st: Store) {
    data.images.Given? && st.images.Unparsable?
  }

  /** `processImportedData`: products, sections, images and cart in that
      order, each only when given with the right shape; an unparsable
      stored entry throws, which skips every later step (earlier writes
      stay). The cart is replaced wholesale. */
  function ProcessImportedData(data: ImportData, st: Store, opts: ImportOptions, stamp: string): (r: Store)
    // products: imported unless absent or the stored list is unreadable
    ensures data.products.Given? && !st.products.Unparsable? ==>
              r.products == Parsed(ImportProducts(st.products, data.products.value, opts.mergeProducts, stamp).value)
    ensures !data.products.Given? ==> r.products == st.products
    ensures ProductsThrow(data, st) ==> r == st
    // sections: reached only when the products step did not throw
    ensures !ProductsThrow(data, st) && data.sections.Given? && !st.sections.Unparsable? ==>
              r.sections == Parsed(ImportSections(st.sections, data.sections.value, opts.mergeSections).value)
    ensures ProductsThrow(data, st) || !data.sections.Given? || st.sections.Unparsable? ==> r.sections == st.sections
    // images: reached only when neither earlier step threw
    ensures !ProductsThrow(data, st) && !SectionsThrow(data, st) && data.images.Given? && !st.images.Unparsable? ==>
              r.images == Parsed(ImportImages(st.images, data.images.value, opts.overwriteImages).value)
    ensures ProductsThrow(data, st) || SectionsThrow(data, st) || !data.images.Given? || st.images.Unparsable? ==>
              r.images == st.images
    // cart: replaced wholesale when no step threw
    ensures !ProductsThrow(data, st) && !SectionsThrow(data, st) && !ImagesThrow(data, st) && data.cart.Given? ==>
              r.cart == Parsed(data.cart.value)
    ensures ProductsThrow(data, st) || SectionsThrow(data, st) || ImagesThrow(data, st) || !data.cart.Given? ==>
              r.cart == st.cart
  {
    var s1 :=
      if data.products.Given? then
        match ImportProducts(st.products, data.products.value, opts.mergeProducts, stamp)
        case None => None
        case Some(ps) => Some(st.(products := Parsed(ps)))
      else Some(st);
    var s2 :=
      if s1.Some? && data.sections.Given? then
        match ImportSections(s1.value.sections, data.sections.value, opts.mergeSections)
        case None => None
        case Some(ss) => Some(s1.value.(sections := Parsed(ss)))
      else s1;
    var s3 :=
      if s2.Some? && data.images.Given? then
        match ImportImages(s2.value.images, data.images.value, opts.overwriteImages)
        case None => None
        case Some(im) => Some(s2.value.(images := Parsed(im)))
      else s2;
    var s4 :=
      if s3.Some? && data.cart.Given? then Some(s3.value.(cart := Parsed(data.cart.value)))
      else s3;
    match s4
    case Some(s) => s
    case None =>
      // the write of each step that finished before the throw
      if s3.Some? then s3.value else if s2.Some? then s2.value else if s1.Some? then s1.value else st
  }

  /** The counts `getDataStats` reports. */
  datatype DataStats = DataStats(products: nat, sections: nat, images: nat, cart: nat)

  /** `getDataStats`: list lengths and the number of image keys, a missing
      entry counting 0; an unparsable entry throws (None). */
  function GetDataStats(st: Store): (r: Option<DataStats>)
    ensures r.None? <==> st.products.Unparsable? || st.sections.Unparsable? || st.images.Unparsable? || st.cart.Unparsable?
    ensures r.Some? ==> r.value.products == |ReadList(st.products).value|
    ensures r.Some? ==> r.value.sections == |ReadList(st.sections).value|
    ensures r.Some? ==> r.value.images == (if st.images.Parsed? then |st.images.value.Keys| else 0)
    ensures r.Some? ==> r.value.cart == |ReadList(st.cart).value|
  {
    match (ReadList(st.products), ReadList(st.sections), ReadList(st.cart))
    case (Some(ps), Some(ss), Some(c)) =>
      (match st.images
       case Unparsable => None
       case Absent => Some(DataStats(|ps|, |ss|, 0, |c|))
       case Parsed(im) => Some(DataStats(|ps|, |ss|, |im.Keys|, |c|)))
    case _ => None
  }

  /** After an import the statistics report the imported counts where the
      import replaced a list. */
  lemma ReplaceImportStats(data: ImportData, st: Store, stamp: string)
    requires data.products.Given? && data.sections.Given? && data.cart.Given? && data.images.Given?
    requires !st.products.Unparsable? && !st.sections.Unparsable? && !st.images.Unparsable?
    ensures var r := ProcessImportedData(data, st, ImportOptions(false, false, true), stamp);
            GetDataStats(r) == Some(DataStats(|data.products.value|, |data.sections.value|, |data.images.value.Keys|, |data.cart.value|))
  {
  }
}
