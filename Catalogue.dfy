/** The image/segmentation catalogue of scripts/sct_data_augmentationb.py and
    the draws made from it: `list_data` built in `main`, `random_list`, the
    random slice index and the all-slices index ranges. */
module Catalogue {
  import opened Builtins

  /** A walked file the catalogue keeps as an image: it ends in `.nii.gz`
      and holds no `_seg`. */
  predicate IsImageName(f: string)
  {
    EndsWith(f, ".nii.gz") && Find(f, "_seg") == -1
  }

  /** Where `_seg` is inserted: three past the first `_t2`, which is 2 when
      `find` reports -1. */
  function SegCut(f: string): int
  {
    Find(f, "_t2") + 3
  }

  /** `file[0:p+3] + '_seg' + file[p+3:]` with `p = file.find('_t2')`. */
  function SegName(f: string): (r: string)
    ensures Contains(r, "_seg")
    ensures |r| == |f| + 4
  {
    var c := SegCut(f);
    assert OccursAt(Head(f, c) + "_seg" + Tail(f, c), "_seg", |Head(f, c)|);
    Head(f, c) + "_seg" + Tail(f, c)
  }

  /** The cut lies inside an image name, so the slices are plain sub-strings. */
  lemma SegCutInRange(f: string)
    requires IsImageName(f)
    ensures 2 <= SegCut(f) <= |f|
  {
  }

  /** Deleting the four characters at offset `p+3` of the segmentation name
      gives back the image name; and the segmentation name is never itself
      taken for an image. */
  lemma SegNameRoundTrip(f: string)
    requires IsImageName(f)
    ensures var c := SegCut(f); var s := SegName(f);
      0 <= c && c + 4 <= |s| && s[..c] + s[c + 4..] == f
    ensures !IsImageName(SegName(f))
  {
    var c := SegCut(f);
    SegCutInRange(f);
    var s := SegName(f);
    assert s == f[..c] + "_seg" + f[c..];
    assert s[..c] == f[..c];
    assert s[c + 4..] == f[c..];
  }

  /** The catalogue entries contributed by one walked file. */
  function Entry(f: string): seq<string>
  {
    if IsImageName(f) then [f, SegName(f)] else []
  }

  /** `list_data` after the loop at lines 148-155 has seen `files`. */
  function CatalogueOf(files: seq<string>): seq<string>
  {
    FlatMap(Entry, files)
  }

  /** One walked file kept as an image, or none. */
  function ImageEntry(f: string): seq<string>
  {
    if IsImageName(f) then [f] else []
  }

  /** The image names among `files`, in walk order. */
  function Images(files: seq<string>): seq<string>
  {
    FlatMap(ImageEntry, files)
  }

  /** The order in which `os.walk` hands out file names: directory by directory. */
  function Flatten(walk: seq<seq<string>>): seq<string>
    decreases |walk|
  {
    if walk == [] then [] else Flatten(walk[..|walk| - 1]) + walk[|walk| - 1]
  }

  /** The images are exactly the walked files that pass the name filter. */
  lemma {:induction false} ImagesAreFiltered(files: seq<string>)
    ensures forall f :: f in Images(files) <==> f in files && IsImageName(f)
    decreases |files|
  {
    if files != [] {
      var init := files[..|files| - 1];
      ImagesAreFiltered(init);
      assert files == init + [files[|files| - 1]];
    }
  }

  /** The catalogue interleaves each image, in order, with its segmentation name. */
  lemma {:induction false} CatalogueShape(files: seq<string>)
    ensures |CatalogueOf(files)| == 2 * |Images(files)|
    ensures forall k :: 0 <= k < |Images(files)| ==>
      CatalogueOf(files)[2 * k] == Images(files)[k] && CatalogueOf(files)[2 * k + 1] == SegName(Images(files)[k])
    decreases |files|
  {
    if files != [] {
      CatalogueShape(files[..|files| - 1]);
    }
  }

  /** Read position by position: an even length, each even position an
      image of the walk, each odd position the segmentation name of the image
      before it. */
  lemma CatalogueEntries(files: seq<string>)
    ensures |CatalogueOf(files)| % 2 == 0
    ensures forall k :: 0 <= k < |CatalogueOf(files)| / 2 ==>
      IsImageName(CatalogueOf(files)[2 * k]) && CatalogueOf(files)[2 * k] in files &&
      CatalogueOf(files)[2 * k + 1] == SegName(CatalogueOf(files)[2 * k])
  {
    var c := CatalogueOf(files);
    CatalogueShape(files);
    ImagesAreFiltered(files);
    forall k | 0 <= k < |c| / 2
      ensures IsImageName(c[2 * k]) && c[2 * k] in files
    {
      assert Images(files)[k] in Images(files);
    }
  }

  lemma FlattenSnoc(walk: seq<seq<string>>, d: nat)
    requires d < |walk|
    ensures Flatten(walk[..d + 1]) == Flatten(walk[..d]) + walk[d]
  {
    assert walk[..d + 1][..d] == walk[..d];
  }

  /** The inner loop of lines 149-155 over the file names of one directory:
      each image is appended, then its segmentation name. */
  method AppendListing(listData: seq<string>, files: seq<string>) returns (r: seq<string>)
    ensures r == listData + CatalogueOf(files)
  {
    r := listData;
    var i := 0;
    assert files[..0] == [];
    while i < |files|
      invariant 0 <= i <= |files|
      invariant r == listData + CatalogueOf(files[..i])
    {
      var file := files[i];
      TakeSnoc(files, i);
      FlatMapSnoc(Entry, files[..i], file);
      if IsImageName(file) {
        r := r + [file];
        r := r + [SegName(file)];
      }
      i := i + 1;
    }
    assert files[..i] == files;
  }

  /** Lines 148-155: walk every directory listing and append each image
      followed by its segmentation name. */
  method BuildCatalogue(walk: seq<seq<string>>) returns (listData: seq<string>)
    ensures listData == CatalogueOf(Flatten(walk))
    ensures |listData| % 2 == 0
    ensures forall k :: 0 <= k < |listData| / 2 ==>
      IsImageName(listData[2 * k]) && listData[2 * k] in Flatten(walk) && listData[2 * k + 1] == SegName(listData[2 * k])
  {
    listData := [];
    var d := 0;
    while d < |walk|
      invariant 0 <= d <= |walk|
      invariant listData == CatalogueOf(Flatten(walk[..d]))
    {
      listData := AppendListing(listData, walk[d]);
      FlatMapAppend(Entry, Flatten(walk[..d]), walk[d]);
      FlattenSnoc(walk, d);
      d := d + 1;
    }
    assert walk[..d] == walk;
    CatalogueEntries(Flatten(walk));
  }

  /** The catalogue position `random.randrange(0, len(list_data) / 2)`
      picks from the raw draw `u`, or None when the catalogue has no pair. */
  function PairIndex(listData: seq<string>, u: nat): (r: Option<nat>)
    ensures r.Some? <==> |listData| >= 2
    ensures r.Some? ==> 2 * r.value + 1 < |listData|
  {
    match RandRange(0, |listData| / 2, u)
    case None => None
    case Some(k) => Some(k as nat)
  }

  /** `random_list` (lines 350-361): `nw` draws with replacement from the
      catalogue, each giving the image at an even position and the
      segmentation after it, both prefixed by the folder. `ok` is false
      where `randrange` raises on an empty catalogue. */
  method RandomList(folder: string, listData: seq<string>, nw: nat, draws: seq<nat>)
    returns (ok: bool, list: seq<string>, listSeg: seq<string>)
    requires |draws| == nw
    ensures ok <==> nw == 0 || |listData| >= 2
    ensures ok ==> |list| == nw && |listSeg| == nw
    ensures ok ==> forall k :: 0 <= k < nw ==>
      PairIndex(listData, draws[k]).Some? &&
      list[k] == folder + "/" + listData[2 * PairIndex(listData, draws[k]).value] &&
      listSeg[k] == folder + "/" + listData[2 * PairIndex(listData, draws[k]).value + 1]
    ensures !ok ==> list == [] && listSeg == []
  {
    list, listSeg := [], [];
    var i := 0;
    while i < nw
      invariant 0 <= i <= nw
      invariant |list| == i && |listSeg| == i && (i > 0 ==> |listData| >= 2)
      invariant forall k :: 0 <= k < i ==>
        PairIndex(listData, draws[k]).Some? &&
        list[k] == folder + "/" + listData[2 * PairIndex(listData, draws[k]).value] &&
        listSeg[k] == folder + "/" + listData[2 * PairIndex(listData, draws[k]).value + 1]
    {
      var randomIndex := PairIndex(listData, draws[i]);
      if randomIndex.None? {
        return false, [], [];
      }
      var r := randomIndex.value;
      list := list + [folder + "/" + listData[r * 2]];
      listSeg := listSeg + [folder + "/" + listData[r * 2 + 1]];
      i := i + 1;
    }
    ok := true;
  }

  /** The slice `random.randrange(1, nz - 1)` picks from the raw draw `u`
      (lines 451 and 497), or None where Python raises because `nz < 3`. */
  function SliceIndex(nz: int, u: nat): (r: Option<nat>)
    ensures r.Some? <==> nz >= 3
    ensures r.Some? ==> 1 <= r.value <= nz - 2
  {
    match RandRange(1, nz - 1, u)
    case None => None
    case Some(n) => Some(n as nat)
  }

  /** Every interior slice can be drawn: the draw is not biased away from any index. */
  lemma SliceIndexReachesEvery(nz: int, n: nat)
    requires 1 <= n <= nz - 2
    ensures SliceIndex(nz, n - 1) == Some(n)
  {
    RandRangeCovers(1, nz - 1, n);
  }

  /** Python's `range(lo, hi)`. */
  function Range(lo: int, hi: int): (r: seq<int>)
    ensures |r| == if hi <= lo then 0 else hi - lo
    ensures forall k :: 0 <= k < |r| ==> r[k] == lo + k
    decreases hi - lo
  {
    if hi <= lo then [] else [lo] + Range(lo + 1, hi)
  }

  /** The values of `range(lo, hi)` are exactly lo .. hi-1, in increasing order. */
  lemma RangeMembers(lo: int, hi: int)
    ensures forall n :: n in Range(lo, hi) <==> lo <= n < hi
    ensures forall a, b :: 0 <= a < b < |Range(lo, hi)| ==> Range(lo, hi)[a] < Range(lo, hi)[b]
  {
    forall n | lo <= n < hi ensures n in Range(lo, hi) {
      assert Range(lo, hi)[n - lo] == n;
    }
  }

  /** The slice indices the all-slices mode hands to `worker_slice_and_crop`
      for a volume of depth `nz` (lines 186 and 201). */
  function AllSliceIndices(nz: int): seq<int>
  {
    Range(1, nz)
  }

  /** All-slices mode visits every slice from 1 to nz-1 exactly once, in order. */
  lemma AllSlicesVisitsEachOnce(nz: int)
    ensures forall n :: n in AllSliceIndices(nz) <==> 1 <= n <= nz - 1
    ensures forall a, b :: 0 <= a < b < |AllSliceIndices(nz)| ==> AllSliceIndices(nz)[a] != AllSliceIndices(nz)[b]
  {
    RangeMembers(1, nz);
  }

  /** The catalogue pairs the all-slices mode walks, as written at lines 160
      and 169: `range(0, len(list_data) / 2 - 1)`. */
  function AllSlicesPairsAsWritten(listData: seq<string>): seq<int>
  {
    Range(0, |listData| / 2 - 1)
  }

  /** As written, the last catalogue pair is never sliced; with one pair, none is. */
  lemma AllSlicesPairsAsWrittenSkipsLast(listData: seq<string>)
    requires |listData| >= 2
    ensures |listData| / 2 - 1 !in AllSlicesPairsAsWritten(listData)
    ensures |listData| < 4 ==> AllSlicesPairsAsWritten(listData) == []
  {
    RangeMembers(0, |listData| / 2 - 1);
  }

  /** The pairs the all-slices mode evidently means to walk: every one. */
  function AllSlicesPairs(listData: seq<string>): seq<int>
  {
    Range(0, |listData| / 2)
  }

  /** Every catalogue pair is walked exactly once. */
  lemma AllSlicesPairsCoverCatalogue(listData: seq<string>)
    ensures forall k :: k in AllSlicesPairs(listData) <==> 0 <= k && 2 * k + 1 < |listData|
    ensures |AllSlicesPairs(listData)| == |listData| / 2
  {
    RangeMembers(0, |listData| / 2);
  }
}
