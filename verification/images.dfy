/** The browser-side image store (image-manager.js): a string-keyed object
    of image data; a product's images live under `<sku>_0`, `<sku>_1`, ...
    and are read back as the longest run of present, non-empty entries. */
module ImageStore {
  import opened Js
  import Catalog

  type Images = map<string, string>

  /** Images longer than this are refused. */
  const MaxImageLength := 100000

  /** The storage key of image number `i` of a product: `${sku}_${i}`. */
  function Key(sku: string, i: nat): string {
    sku + "_" + NatToString(i)
  }

  lemma KeyInjective(sku: string, i: nat, j: nat)
    requires Key(sku, i) == Key(sku, j)
    ensures i == j
  {
    assert NatToString(i) == Key(sku, i)[|sku| + 1..];
    assert NatToString(j) == Key(sku, j)[|sku| + 1..];
    NatToStringInjective(i, j);
  }

  /** `getImage`: the stored data, or null when missing or empty. */
  function GetImage(images: Images, key: string): (r: Option<string>)
    ensures r.Some? <==> key in images && images[key] != ""
    ensures r.Some? ==> r.value == images[key]
  {
    if key in images && images[key] != "" then Some(images[key]) else None
  }

  /** `saveImage`: data over 100000 characters is refused and nothing is
      stored; otherwise the entry is set (even to empty data). */
  function SaveImage(images: Images, key: string, data: string): (r: (Images, bool))
    ensures r.1 <==> |data| <= MaxImageLength
    ensures r.1 ==> r.0 == images[key := data]
    ensures !r.1 ==> r.0 == images
  {
    if |data| > MaxImageLength then (images, false) else (images[key := data], true)
  }

  /** `removeImage`. */
  function RemoveImage(images: Images, key: string): (r: Images)
    ensures key !in r
    ensures forall k :: k in images && k != key ==> k in r && r[k] == images[k]
    ensures r.Keys <= images.Keys
  {
    images - {key}
  }

  lemma KeyDistinct(sku: string, i: nat, n: nat)
    requires i != n
    ensures Key(sku, i) != Key(sku, n)
  {
    if Key(sku, i) == Key(sku, n) {
      KeyInjective(sku, i, n);
    }
  }

  /** Dropping key `Key(sku, i)` does not change what is read at the keys
      of any other index. */
  lemma DropKeepsOthers(images: Images, sku: string, i: nat, lo: nat, hi: nat)
    requires i < lo
    ensures forall n :: lo <= n <= hi ==>
              GetImage(images - {Key(sku, i)}, Key(sku, n)) == GetImage(images, Key(sku, n))
  {
    forall n | lo <= n <= hi
      ensures GetImage(images - {Key(sku, i)}, Key(sku, n)) == GetImage(images, Key(sku, n))
    {
      KeyDistinct(sku, i, n);
    }
  }

  /** Image `i` onwards of a product: the run of consecutive keys whose
      entries are present and non-empty. Each visited key is dropped from
      the map on the way down, which does not affect later keys. */
  function Run(images: Images, sku: string, i: nat): (r: seq<string>)
    ensures forall n :: i <= n < i + |r| ==> GetImage(images, Key(sku, n)) == Some(r[n - i])
    ensures GetImage(images, Key(sku, i + |r|)).None?
    decreases |images|
  {
    var k := Key(sku, i);
    match GetImage(images, k)
    case None => []
    case Some(v) =>
      var rest := Run(images - {k}, sku, i + 1);
      DropKeepsOthers(images, sku, i, i + 1, i + 1 + |rest|);
      [v] + rest
  }

  /** The run is the only sequence with those two properties. */
  lemma {:induction false} RunUnique(images: Images, sku: string, i: nat, r: seq<string>)
    requires forall n :: i <= n < i + |r| ==> GetImage(images, Key(sku, n)) == Some(r[n - i])
    requires GetImage(images, Key(sku, i + |r|)).None?
    ensures Run(images, sku, i) == r
    decreases |r|
  {
    var k := Key(sku, i);
    if |r| > 0 {
      assert GetImage(images, k) == Some(r[0]);
      var smaller := images - {k};
      DropKeepsOthers(images, sku, i, i + 1, i + |r|);
      RunUnique(smaller, sku, i + 1, r[1..]);
      assert r == [r[0]] + r[1..];
    }
  }

  /** `getProductImages`: no images without a SKU; otherwise the run from 0. */
  function GetProductImages(images: Images, sku: string): (r: seq<string>)
    ensures sku == "" ==> r == []
    ensures sku != "" ==> forall j :: 0 <= j < |r| ==> GetImage(images, Key(sku, j)) == Some(r[j])
    ensures sku != "" ==> GetImage(images, Key(sku, |r|)).None?
  {
    if sku == "" then [] else Run(images, sku, 0)
  }

  /** `getProductFirstImage`: the stored image 0 when there is a SKU and it
      is present, otherwise the product's own first image, otherwise null. */
  function GetProductFirstImage(images: Images, p: Catalog.Product): (r: Option<string>)
    ensures p.sku != "" && GetImage(images, Key(p.sku, 0)).Some? ==> r == GetImage(images, Key(p.sku, 0))
    ensures (p.sku == "" || GetImage(images, Key(p.sku, 0)).None?) ==>
              r == (if |p.images| > 0 then Some(p.images[0]) else None)
  {
    var own := if |p.images| > 0 then Some(p.images[0]) else None;
    if p.sku == "" then own
    else
      match GetImage(images, Key(p.sku, 0))
      case Some(v) => Some(v)
      case None => own
  }

  /** The stored first image is the head of the product's stored images. */
  lemma FirstImageIsHeadOfRun(images: Images, p: Catalog.Product)
    requires p.sku != "" && |GetProductImages(images, p.sku)| > 0
    ensures GetProductFirstImage(images, p) == Some(GetProductImages(images, p.sku)[0])
  {
  }

  /** The images `imgs[i..]` saved one by one under `Key(sku, i)`, ...;
      returns the new map and how many saves succeeded. */
  function SaveFrom(images: Images, sku: string, imgs: seq<string>, i: nat): (r: (Images, nat))
    requires i <= |imgs|
    ensures r.1 <= |imgs| - i
    ensures r.1 == Count(imgs[i..], Fits)
    ensures r.1 == |imgs| - i <==> forall j :: i <= j < |imgs| ==> |imgs[j]| <= MaxImageLength
    decreases |imgs| - i
  {
    if i == |imgs| then (images, 0)
    else
      var (m, ok) := SaveImage(images, Key(sku, i), imgs[i]);
      var (m', n) := SaveFrom(m, sku, imgs, i + 1);
      assert imgs[i..][1..] == imgs[i + 1..];
      (m', n + if ok then 1 else 0)
  }

  /** `saveProductImages`: nothing without a SKU or without images;
      otherwise every image is saved under its key, and the answer is
      whether at least one was stored. */
  function SaveProductImages(images: Images, sku: string, imgs: seq<string>): (r: (Images, bool))
    ensures sku == "" || |imgs| == 0 ==> r == (images, false)
    ensures sku != "" && |imgs| > 0 ==> (r.1 <==> exists j :: 0 <= j < |imgs| && |imgs[j]| <= MaxImageLength)
  {
    if sku == "" || |imgs| == 0 then (images, false)
    else
      var (m, n) := SaveFrom(images, sku, imgs, 0);
      SavedSomeIff(images, sku, imgs, 0);
      (m, n > 0)
  }

  lemma {:induction false} SavedSomeIff(images: Images, sku: string, imgs: seq<string>, i: nat)
    requires i <= |imgs|
    ensures SaveFrom(images, sku, imgs, i).1 > 0 <==> exists j :: i <= j < |imgs| && |imgs[j]| <= MaxImageLength
    decreases |imgs| - i
  {
    if i < |imgs| {
      var (m, ok) := SaveImage(images, Key(sku, i), imgs[i]);
      SavedSomeIff(m, sku, imgs, i + 1);
    }
  }

  /** Image data `saveImage` accepts. */
  predicate Fits(data: string) {
    |data| <= MaxImageLength
  }

  /** No key `Key(sku, j)` with `i <= j < |imgs|` is `k`. */
  predicate Untouched(sku: string, imgs: seq<string>, i: nat, k: string) {
    forall j :: i <= j < |imgs| ==> k != Key(sku, j)
  }

  /** A key the saves from `i` on do not write keeps its entry, or stays absent. */
  lemma {:induction false} SaveFromKeepsOthers(images: Images, sku: string, imgs: seq<string>, i: nat)
    requires i <= |imgs|
    ensures var m := SaveFrom(images, sku, imgs, i).0;
      forall k :: Untouched(sku, imgs, i, k) ==>
        (k in m <==> k in images) && (k in images ==> m[k] == images[k])
    decreases |imgs| - i
  {
    if i < |imgs| {
      var m1 := SaveImage(images, Key(sku, i), imgs[i]).0;
      SaveFromKeepsOthers(m1, sku, imgs, i + 1);
      forall k | Untouched(sku, imgs, i, k) ensures Untouched(sku, imgs, i + 1, k) && k != Key(sku, i) {
        assert k != Key(sku, i);
      }
    }
  }

  /** Every fitting image from `i` on is written under its key. */
  lemma {:induction false} SaveFromWrites(images: Images, sku: string, imgs: seq<string>, i: nat)
    requires i <= |imgs|
    ensures var m := SaveFrom(images, sku, imgs, i).0;
      forall j :: i <= j < |imgs| && Fits(imgs[j]) ==> Key(sku, j) in m && m[Key(sku, j)] == imgs[j]
    decreases |imgs| - i
  {
    if i < |imgs| {
      var m1 := SaveImage(images, Key(sku, i), imgs[i]).0;
      SaveFromWrites(m1, sku, imgs, i + 1);
      SaveFromKeepsOthers(m1, sku, imgs, i + 1);
      forall j' | i + 1 <= j' < |imgs| ensures Key(sku, i) != Key(sku, j') {
        KeyDistinct(sku, i, j');
      }
      assert Untouched(sku, imgs, i + 1, Key(sku, i));
    }
  }

  /** Every oversize image from `i` on leaves its key as it was. */
  lemma {:induction false} SaveFromSkips(images: Images, sku: string, imgs: seq<string>, i: nat)
    requires i <= |imgs|
    ensures var m := SaveFrom(images, sku, imgs, i).0;
      forall j :: i <= j < |imgs| && !Fits(imgs[j]) ==>
        (Key(sku, j) in m <==> Key(sku, j) in images)
        && (Key(sku, j) in images ==> m[Key(sku, j)] == images[Key(sku, j)])
    decreases |imgs| - i
  {
    if i < |imgs| {
      var m1 := SaveImage(images, Key(sku, i), imgs[i]).0;
      SaveFromSkips(m1, sku, imgs, i + 1);
      forall j | i + 1 <= j < |imgs| ensures Key(sku, i) != Key(sku, j) {
        KeyDistinct(sku, i, j);
      }
      if !Fits(imgs[i]) {
        SaveFromKeepsOthers(m1, sku, imgs, i + 1);
        assert Untouched(sku, imgs, i + 1, Key(sku, i));
      }
    }
  }

  /** The saves from `i` on add no key but those of fitting images. */
  lemma {:induction false} SaveFromNoNewKeys(images: Images, sku: string, imgs: seq<string>, i: nat)
    requires i <= |imgs|
    ensures var m := SaveFrom(images, sku, imgs, i).0;
      forall k :: k in m ==> k in images || exists j :: i <= j < |imgs| && k == Key(sku, j) && Fits(imgs[j])
    decreases |imgs| - i
  {
    if i < |imgs| {
      var m1 := SaveImage(images, Key(sku, i), imgs[i]).0;
      SaveFromNoNewKeys(m1, sku, imgs, i + 1);
      var m := SaveFrom(images, sku, imgs, i).0;
      forall k | k in m ensures k in images || exists j :: i <= j < |imgs| && k == Key(sku, j) && Fits(imgs[j]) {
        if k !in images {
          if k in m1 {
            assert k == Key(sku, i) && Fits(imgs[i]);
          } else {
            var j :| i + 1 <= j < |imgs| && k == Key(sku, j) && Fits(imgs[j]);
          }
        }
      }
    }
  }

  /** The keys `Key(sku, j)` with `j >= i` are treated one by one: a fitting
      image is written under its key, an oversize one is skipped and its key
      keeps whatever it held before (or stays absent); every other entry is
      left alone and no other key appears. */
  lemma SaveFromEffect(images: Images, sku: string, imgs: seq<string>, i: nat)
    requires i <= |imgs|
    ensures var m := SaveFrom(images, sku, imgs, i).0;
      && (forall j :: i <= j < |imgs| && Fits(imgs[j]) ==> Key(sku, j) in m && m[Key(sku, j)] == imgs[j])
      && (forall j :: i <= j < |imgs| && !Fits(imgs[j]) ==>
            (Key(sku, j) in m <==> Key(sku, j) in images)
            && (Key(sku, j) in images ==> m[Key(sku, j)] == images[Key(sku, j)]))
      && (forall k :: k in images && Untouched(sku, imgs, i, k) ==> k in m && m[k] == images[k])
      && (forall k :: k in m ==> k in images || exists j :: i <= j < |imgs| && k == Key(sku, j) && Fits(imgs[j]))
  {
    SaveFromWrites(images, sku, imgs, i);
    SaveFromSkips(images, sku, imgs, i);
    SaveFromKeepsOthers(images, sku, imgs, i);
    SaveFromNoNewKeys(images, sku, imgs, i);
  }

  /** After saving images that all fit, each non-empty one reads back at
      its key. */
  lemma SavedImagesRead(images: Images, sku: string, imgs: seq<string>)
    requires forall j :: 0 <= j < |imgs| ==> imgs[j] != "" && |imgs[j]| <= MaxImageLength
    ensures forall n :: 0 <= n < |imgs| ==> GetImage(SaveFrom(images, sku, imgs, 0).0, Key(sku, n)) == Some(imgs[n])
  {
    SaveFromEffect(images, sku, imgs, 0);
  }

  /** Saving images leaves the key right after them as it was. */
  lemma SavedNextUnchanged(images: Images, sku: string, imgs: seq<string>)
    requires forall j :: 0 <= j < |imgs| ==> |imgs[j]| <= MaxImageLength
    ensures GetImage(SaveFrom(images, sku, imgs, 0).0, Key(sku, |imgs|)) == GetImage(images, Key(sku, |imgs|))
  {
    var m := SaveFrom(images, sku, imgs, 0).0;
    var next := Key(sku, |imgs|);
    forall j | 0 <= j < |imgs| ensures next != Key(sku, j) {
      KeyDistinct(sku, j, |imgs|);
    }
    SaveFromEffect(images, sku, imgs, 0);
    assert next in m <==> next in images;
  }

  /** Round trip: after saving non-empty images that all fit, reading the
      product's images gives them back, provided no stale image sits right
      after the last one. */
  lemma SaveThenGet(images: Images, sku: string, imgs: seq<string>)
    requires sku != "" && |imgs| > 0
    requires forall j :: 0 <= j < |imgs| ==> imgs[j] != "" && |imgs[j]| <= MaxImageLength
    requires GetImage(images, Key(sku, |imgs|)).None?
    ensures GetProductImages(SaveProductImages(images, sku, imgs).0, sku) == imgs
  {
    assert SaveProductImages(images, sku, imgs).0 == SaveFrom(images, sku, imgs, 0).0;
    SavedRun(images, sku, imgs);
  }

  lemma SavedRun(images: Images, sku: string, imgs: seq<string>)
    requires forall j :: 0 <= j < |imgs| ==> imgs[j] != "" && |imgs[j]| <= MaxImageLength
    requires GetImage(images, Key(sku, |imgs|)).None?
    ensures Run(SaveFrom(images, sku, imgs, 0).0, sku, 0) == imgs
  {
    var m := SaveFrom(images, sku, imgs, 0).0;
    assert forall n :: 0 <= n < 0 + |imgs| ==> GetImage(m, Key(sku, n)) == Some(imgs[n - 0]) by {
      SavedImagesRead(images, sku, imgs);
    }
    assert GetImage(m, Key(sku, 0 + |imgs|)).None? by {
      SavedNextUnchanged(images, sku, imgs);
    }
    RunFromReads(m, sku, imgs);
  }

  /** A run from 0 is determined by the reads at its keys and the one after. */
  lemma RunFromReads(m: Images, sku: string, imgs: seq<string>)
    requires forall n :: 0 <= n < 0 + |imgs| ==> GetImage(m, Key(sku, n)) == Some(imgs[n - 0])
    requires GetImage(m, Key(sku, 0 + |imgs|)).None?
    ensures Run(m, sku, 0) == imgs
  {
    RunUnique(m, sku, 0, imgs);
  }

  /** A stale image left right after the saved ones is read back as well:
      saving one image over a product that had two yields two. */
  lemma StaleImageReappears()
    ensures var before := map[Key("SKU", 0) := "old0", Key("SKU", 1) := "old1"];
      GetProductImages(SaveProductImages(before, "SKU", ["new0"]).0, "SKU") == ["new0", "old1"]
  {
    var before := map[Key("SKU", 0) := "old0", Key("SKU", 1) := "old1"];
    var after := SaveProductImages(before, "SKU", ["new0"]).0;
    assert Key("SKU", 0) != Key("SKU", 1) by {
      if Key("SKU", 0) == Key("SKU", 1) {
        KeyInjective("SKU", 0, 1);
      }
    }
    assert after == before[Key("SKU", 0) := "new0"];
    assert Key("SKU", 2) !in after by {
      if Key("SKU", 2) == Key("SKU", 0) {
        KeyInjective("SKU", 2, 0);
      }
      if Key("SKU", 2) == Key("SKU", 1) {
        KeyInjective("SKU", 2, 1);
      }
    }
    RunUnique(after, "SKU", 0, ["new0", "old1"]);
  }

  /** The keys `cleanupUnusedImages` keeps for the SKUs in `used`: for each,
      the keys of its run of images from 0. */
  function KeptKeys(images: Images, used: seq<string>): (r: set<string>)
    ensures forall s, j :: s in used && 0 <= j < |Run(images, s, 0)| ==> Key(s, j) in r
    ensures forall k :: k in r ==> exists s, j :: s in used && 0 <= j < |Run(images, s, 0)| && k == Key(s, j)
  {
    if |used| == 0 then {}
    else
      var s := used[0];
      var here := set j | 0 <= j < |Run(images, s, 0)| :: Key(s, j);
      var rest := KeptKeys(images, used[1..]);
      assert forall k :: k in here ==> exists s', j :: s' in used && 0 <= j < |Run(images, s', 0)| && k == Key(s', j) by {
        forall k | k in here
          ensures exists s', j :: s' in used && 0 <= j < |Run(images, s', 0)| && k == Key(s', j)
        {
          var j :| 0 <= j < |Run(images, s, 0)| && k == Key(s, j);
          assert s in used;
        }
      }
      assert forall s' :: s' in used[1..] ==> s' in used;
      assert forall s' :: s' in used && s' != s ==> s' in used[1..];
      here + rest
  }

  /** `cleanupUnusedImages`: every entry that is not part of the run of a
      used SKU is deleted. */
  function CleanupUnusedImages(images: Images, used: seq<string>): (r: Images)
    ensures r.Keys <= images.Keys
    ensures forall k :: k in r ==> r[k] == images[k]
    ensures forall k :: k in r <==> k in images && k in KeptKeys(images, used)
  {
    var kept := KeptKeys(images, used);
    map k | k in images.Keys && k in kept :: images[k]
  }

  /** Every kept key holds a present, non-empty image. */
  lemma KeptKeyPresent(images: Images, used: seq<string>, k: string)
    requires k in KeptKeys(images, used)
    ensures GetImage(images, k).Some?
  {
    var s', j :| s' in used && 0 <= j < |Run(images, s', 0)| && k == Key(s', j);
    assert GetImage(images, Key(s', j)).Some?;
  }

  /** After cleanup, a key reads as before when it is kept and as missing
      otherwise. */
  lemma CleanupRead(images: Images, used: seq<string>, k: string)
    ensures GetImage(CleanupUnusedImages(images, used), k) ==
              if k in KeptKeys(images, used) then GetImage(images, k) else None
  {
  }

  /** Two stores that read the same along a product's run, and both read
      nothing right after it, give the same run. */
  lemma RunOfAgreeing(a: Images, b: Images, s: string)
    requires forall n :: 0 <= n < |Run(b, s, 0)| ==> GetImage(a, Key(s, n)) == GetImage(b, Key(s, n))
    requires GetImage(a, Key(s, |Run(b, s, 0)|)).None?
    ensures Run(a, s, 0) == Run(b, s, 0)
  {
    var run := Run(b, s, 0);
    assert forall n :: 0 <= n < 0 + |run| ==> GetImage(a, Key(s, n)) == Some(run[n - 0]);
    RunUnique(a, s, 0, run);
  }

  /** Cleanup never loses an image of a product still in use. */
  lemma CleanupKeepsUsedImages(images: Images, used: seq<string>, s: string)
    requires s in used
    ensures Run(CleanupUnusedImages(images, used), s, 0) == Run(images, s, 0)
  {
    var r := CleanupUnusedImages(images, used);
    var run := Run(images, s, 0);
    var kept := KeptKeys(images, used);
    forall n | 0 <= n < |run| ensures GetImage(r, Key(s, n)) == GetImage(images, Key(s, n)) {
      assert Key(s, n) in kept;
      CleanupRead(images, used, Key(s, n));
    }
    var last := Key(s, |run|);
    CleanupRead(images, used, last);
    if last in kept {
      KeptKeyPresent(images, used, last);
    }
    RunOfAgreeing(r, images, s);
  }

  /** `Math.round(total / 1024)`: the nearest whole number of kilobytes,
      halves rounded up (the size figure of `getStats`). */
  function Kilobytes(total: nat): (r: nat)
    ensures r * 1024 - 512 <= total < r * 1024 + 512
  {
    (total + 512) / 1024
  }
}
