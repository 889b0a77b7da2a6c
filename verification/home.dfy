/** The home page (index.js) and the stand-alone FAQ script (faq.js): the
    one-off migration of legacy single images, the recommended and random
    product strips, the card image, and the FAQ accordion. */
module Home {
  import opened Js
  import opened Catalog

  // Legacy image migration

  /** A product with a legacy `image` and no (or an empty) `images` list. */
  predicate NeedsMigration(p: Product) {
    p.legacyImage != "" && |p.images| == 0
  }

  function MigrateOne(p: Product): Product {
    if NeedsMigration(p) then p.(images := [p.legacyImage]) else p
  }

  /** The `forEach` of `migrateProductImages`: the migrated list and the
      `needsUpdate` flag. */
  function MigrateImages(ps: seq<Product>): (r: (seq<Product>, bool))
    ensures |r.0| == |ps|
    ensures forall i :: 0 <= i < |ps| ==> !NeedsMigration(r.0[i])
    ensures forall i :: 0 <= i < |ps| ==> r.0[i] == ps[i].(images := r.0[i].images)
    ensures forall i :: 0 <= i < |ps| && NeedsMigration(ps[i]) ==> r.0[i].images == [ps[i].legacyImage]
    ensures forall i :: 0 <= i < |ps| && !NeedsMigration(ps[i]) ==> r.0[i] == ps[i]
    ensures r.1 <==> exists i :: 0 <= i < |ps| && NeedsMigration(ps[i])
  {
    var needs := Count(ps, NeedsMigration) > 0;
    assert needs ==> Filter(ps, NeedsMigration)[0] in ps;
    (seq(|ps|, i requires 0 <= i < |ps| => MigrateOne(ps[i])), needs)
  }

  /** What the migration does to the stored list. */
  datatype MigrationOutcome =
    | Threw              // the stored text is not JSON
    | Unchanged          // nothing written
    | Written(products: seq<Product>)

  /** `migrateProductImages`: a missing list reads as empty; the list is
      written back only when some product was migrated. */
  function MigrateProductImages(stored: Stored<seq<Product>>): (r: MigrationOutcome)
    ensures r == Threw <==> stored.Unparsable?
    ensures r == Unchanged <==>
              stored.Absent? || (stored.Parsed? && forall i :: 0 <= i < |stored.value| ==> !NeedsMigration(stored.value[i]))
    ensures r.Written? ==> stored.Parsed? && |r.products| == |stored.value|
    ensures r.Written? ==> forall i :: 0 <= i < |r.products| ==> !NeedsMigration(r.products[i])
    ensures r.Written? ==> forall i :: 0 <= i < |r.products| ==> r.products[i] == stored.value[i].(images := r.products[i].images)
  {
    match stored
    case Unparsable => Threw
    case Absent => Unchanged
    case Parsed(ps) =>
      var (migrated, changed) := MigrateImages(ps);
      if changed then Written(migrated) else Unchanged
  }

  /** Running the migration on what it wrote changes nothing: it is a
      one-off. */
  lemma MigrationIdempotent(stored: Stored<seq<Product>>)
    requires MigrateProductImages(stored).Written?
    ensures MigrateProductImages(Parsed(MigrateProductImages(stored).products)) == Unchanged
  {
  }

  /** The image a product card shows: `images[0]` when the list is
      non-empty (an empty text there falls through to the placeholder),
      else the legacy `image`; None is the "no image" placeholder. */
  function CardImage(p: Product): (r: Option<string>)
    ensures r.Some? ==> r.value != "" && (r.value == p.legacyImage || (|p.images| > 0 && r.value == p.images[0]))
    ensures |p.images| > 0 ==> (r.Some? <==> p.images[0] != "")
    ensures |p.images| == 0 ==> (r.Some? <==> p.legacyImage != "")
  {
    var src := if |p.images| > 0 then p.images[0] else p.legacyImage;
    if src != "" then Some(src) else None
  }

  /** Migration never changes what a card shows. */
  lemma MigrationKeepsCardImage(ps: seq<Product>, i: nat)
    requires i < |ps|
    ensures CardImage(MigrateImages(ps).0[i]) == CardImage(ps[i])
  {
  }

  // The product strips

  /** `loadRecommendedProducts`: products whose `recommended` field is the
      text "true", in stored order. */
  function Recommended(ps: seq<Product>): (r: seq<Product>)
    ensures forall i :: 0 <= i < |r| ==> r[i].recommended == "true" && r[i] in ps
    ensures forall i :: 0 <= i < |ps| && ps[i].recommended == "true" ==> ps[i] in r
  {
    Filter(ps, (p: Product) => p.recommended == "true")
  }

  /** Selecting the recommended products of the recommended strip changes
      nothing. */
  lemma RecommendedIdempotent(ps: seq<Product>)
    ensures Recommended(Recommended(ps)) == Recommended(ps)
  {
    var p := (p: Product) => p.recommended == "true";
    FilterFilter(ps, p, p, p);
  }

  /** `loadRandomProducts`: the first three of a shuffled copy of the list.
      The shuffle comes from `Math.random` and is a parameter: any
      rearrangement of the stored list. */
  function RandomPick(ps: seq<Product>, shuffled: seq<Product>): (r: seq<Product>)
    requires multiset(shuffled) == multiset(ps)
    ensures |r| == if |ps| < 3 then |ps| else 3
    ensures multiset(r) <= multiset(ps)
    ensures forall i :: 0 <= i < |r| ==> r[i] in ps
    ensures r == [] <==> ps == []
  {
    assert |shuffled| == |multiset(shuffled)| == |ps|;
    var r := Slice(shuffled, 0, 3);
    assert shuffled == r + shuffled[|r|..];
    assert multiset(shuffled) == multiset(r) + multiset(shuffled[|r|..]);
    assert forall i :: 0 <= i < |r| ==> r[i] in multiset(ps);
    r
  }

  // The FAQ accordion (index.js and faq.js share the same handler)

  /** At most one item is open. */
  predicate AtMostOneOpen(open: seq<bool>) {
    forall i, j :: 0 <= i < |open| && 0 <= j < |open| && open[i] && open[j] ==> i == j
  }

  /** `toggleFAQItem(k)`: every item closes; item k opens iff it was
      closed before the click. */
  function ToggleFaq(open: seq<bool>, k: nat): (r: seq<bool>)
    requires k < |open|
    ensures |r| == |open|
    ensures forall j :: 0 <= j < |r| && j != k ==> !r[j]
    ensures r[k] <==> !open[k]
  {
    seq(|open|, j requires 0 <= j < |open| => j == k && !open[k])
  }

  /** After any click at most one item is open, whatever was open before. */
  lemma ClickLeavesAtMostOneOpen(open: seq<bool>, k: nat)
    requires k < |open|
    ensures AtMostOneOpen(ToggleFaq(open, k))
  {
  }

  /** Clicking an open item closes everything; clicking a closed one leaves
      exactly that one open. */
  lemma ClickOpenCloses(open: seq<bool>, k: nat)
    requires k < |open|
    ensures open[k] ==> forall j :: 0 <= j < |open| ==> !ToggleFaq(open, k)[j]
    ensures !open[k] ==> forall j :: 0 <= j < |open| ==> (ToggleFaq(open, k)[j] <==> j == k)
  {
  }

  /** Two clicks on the same item: starting closed, everything ends closed;
      starting open, the item ends open alone. */
  lemma DoubleClick(open: seq<bool>, k: nat)
    requires k < |open|
    ensures var twice := ToggleFaq(ToggleFaq(open, k), k);
            (!open[k] ==> forall j :: 0 <= j < |open| ==> !twice[j])
            && (open[k] ==> forall j :: 0 <= j < |open| ==> (twice[j] <==> j == k))
  {
  }
}
