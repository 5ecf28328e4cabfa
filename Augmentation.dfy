/** The stages of scripts/sct_data_augmentationb.py that change the working
    directory: preprocessing, the random slice cache, registration, field
    application and cleanup. The external tools are not run; each issues a
    `Command` into the log and creates or deletes the files it names. */
module Augmentation {
  import opened Builtins
  import opened Commands
  import opened Apply
  import opened Catalogue

  /** What `Image(path).dim` and `get_orientation_3d` report for a volume. */
  datatype Header = Header(spacing: Spacing, orientation: string, nz: nat)

  /** A header after `worker_resized_and_crop`: 1x1x1 mm and RPI. Resampling
      changes the number of planes to `resampledNz`, which `sct_resample`
      computes and the model takes as given. */
  function Normalised(h: Header, resampledNz: nat): (r: Header)
    ensures IsIsotropic(r.spacing) && r.orientation == "RPI"
    ensures IsIsotropic(h.spacing) ==> r.nz == h.nz
    ensures !IsIsotropic(h.spacing) ==> r.nz == resampledNz
  {
    Header(Spacing(1.0, 1.0, 1.0), "RPI", if IsIsotropic(h.spacing) then h.nz else resampledNz)
  }

  /** Preprocessing an already preprocessed volume issues nothing. */
  lemma PreprocessIdempotent(image: string, seg: string, h: Header, resampledNz: nat)
    ensures var n := Normalised(h, resampledNz);
      PreprocessCommands(image, seg, n.spacing, n.orientation) == []
  {
    var n := Normalised(h, resampledNz);
    assert n.spacing == Spacing(1.0, 1.0, 1.0);
  }

  /** The state of a working directory as a value: what each stage below
      is specified against. */
  datatype Snapshot = Snapshot(files: set<string>, dirs: set<string>, headers: map<string, Header>, log: seq<Command>)

  // ---------------------------------------------------------------------
  // Preprocessing (lines 252-259, 388-406)
  // ---------------------------------------------------------------------

  /** `worker_resized_and_crop` on a snapshot: whether the image could be
      opened, and the state after it. Only the image's own header changes,
      and it comes out 1x1x1 mm and RPI. */
  function PreprocessStep(s: Snapshot, image: string, seg: string, resampledNz: nat): (r: (bool, Snapshot))
    ensures r.0 <==> image in s.headers
    ensures !r.0 ==> r.1 == s
    ensures r.1.files == s.files && r.1.dirs == s.dirs && r.1.headers.Keys == s.headers.Keys
    ensures forall p :: p in s.headers && p != image ==> r.1.headers[p] == s.headers[p]
    ensures r.0 ==> IsIsotropic(r.1.headers[image].spacing) && r.1.headers[image].orientation == "RPI"
    ensures r.0 ==> r.1.log == s.log + PreprocessCommands(image, seg, s.headers[image].spacing, s.headers[image].orientation)
  {
    if image !in s.headers then (false, s)
    else
      var h := s.headers[image];
      (true, s.(headers := s.headers[image := Normalised(h, resampledNz)],
                log := s.log + PreprocessCommands(image, seg, h.spacing, h.orientation)))
  }

  /** The serial preprocessing loop on a snapshot: one step per pair, stopping
      at the first image that cannot be opened. On success every image of
      the list is 1x1x1 mm and RPI; a volume not in the list keeps its header. */
  function PreprocessRun(s: Snapshot, args: seq<(string, string)>, resampledNz: seq<nat>): (r: (bool, Snapshot))
    requires |resampledNz| == |args|
    decreases |args|
    ensures r.0 <==> forall k :: 0 <= k < |args| ==> args[k].0 in s.headers
    ensures r.1.files == s.files && r.1.dirs == s.dirs && r.1.headers.Keys == s.headers.Keys
    ensures forall p :: p in s.headers && (forall k :: 0 <= k < |args| ==> args[k].0 != p) ==> r.1.headers[p] == s.headers[p]
    ensures r.0 ==> forall k :: 0 <= k < |args| ==>
      IsIsotropic(r.1.headers[args[k].0].spacing) && r.1.headers[args[k].0].orientation == "RPI"
  {
    if args == [] then (true, s)
    else
      var st := PreprocessStep(s, args[0].0, args[0].1, resampledNz[0]);
      if !st.0 then st
      else
        var r := PreprocessRun(st.1, args[1..], resampledNz[1..]);
        assert forall k :: 1 <= k < |args| ==> args[k].0 == args[1..][k - 1].0;
        r
  }

  /** A run over volumes that are all 1x1x1 mm and RPI already changes
      nothing and issues nothing, whatever `sct_resample` would report. */
  lemma {:induction false} PreprocessRunFixpoint(s: Snapshot, args: seq<(string, string)>, resampledNz: seq<nat>)
    requires |resampledNz| == |args|
    requires forall k :: 0 <= k < |args| ==>
      args[k].0 in s.headers && IsIsotropic(s.headers[args[k].0].spacing) && s.headers[args[k].0].orientation == "RPI"
    ensures PreprocessRun(s, args, resampledNz) == (true, s)
    decreases |args|
  {
    if args != [] {
      var h := s.headers[args[0].0];
      assert Normalised(h, resampledNz[0]) == h;
      assert s.headers[args[0].0 := h] == s.headers;
      PreprocessIdempotent(args[0].0, args[0].1, h, resampledNz[0]);
      assert s.log + PreprocessCommands(args[0].0, args[0].1, h.spacing, h.orientation) == s.log;
      assert PreprocessStep(s, args[0].0, args[0].1, resampledNz[0]) == (true, s);
      assert forall k :: 0 <= k < |args[1..]| ==> args[1..][k] == args[k + 1];
      PreprocessRunFixpoint(s, args[1..], resampledNz[1..]);
    }
  }

  /** Preprocessing twice is preprocessing once: a second run over the same
      list succeeds and leaves the working directory as the first left it. */
  lemma PreprocessRunIdempotent(s: Snapshot, args: seq<(string, string)>, nz1: seq<nat>, nz2: seq<nat>)
    requires |nz1| == |args| && |nz2| == |args|
    requires PreprocessRun(s, args, nz1).0
    ensures PreprocessRun(PreprocessRun(s, args, nz1).1, args, nz2) == (true, PreprocessRun(s, args, nz1).1)
  {
    PreprocessRunFixpoint(PreprocessRun(s, args, nz1).1, args, nz2);
  }

  // ---------------------------------------------------------------------
  // Slicing (lines 439-520)
  // ---------------------------------------------------------------------

  /** The reorientation `random_slice` does before slicing a volume: the
      header becomes RPI, and the pair is rewritten only when it was not. */
  function Reoriented(s: Snapshot, path: string, segPath: string): (r: Snapshot)
    requires path in s.headers
    ensures r.files == s.files && r.dirs == s.dirs && r.headers.Keys == s.headers.Keys
    ensures r.headers[path].orientation == "RPI"
    ensures forall p :: p in r.headers ==> r.headers[p].nz == s.headers[p].nz && r.headers[p].spacing == s.headers[p].spacing
    ensures forall p :: p in s.headers && p != path ==> r.headers[p] == s.headers[p]
    ensures s.headers[path].orientation == "RPI" ==> r == s
    ensures s.headers[path].orientation != "RPI" ==> r.log == s.log + [SetOrientRPI(path), SetOrientRPI(segPath)]
  {
    var h := s.headers[path];
    if h.orientation == "RPI" then
      assert s.headers[path := h] == s.headers;
      s.(headers := s.headers[path := h])
    else s.(headers := s.headers[path := h.(orientation := "RPI")], log := s.log + [SetOrientRPI(path), SetOrientRPI(segPath)])
  }

  /** `worker_random_slice` on a snapshot: the cache folder is made first;
      then a missing image or a volume of fewer than three planes fails,
      and otherwise the drawn slice goes through the cache. */
  function WorkerSliceStep(s: Snapshot, v: SliceSource, c: SliceConfig, u: nat): (r: (bool, Snapshot))
    ensures r.0 <==> v.path in s.headers && s.headers[v.path].nz >= 3
    ensures r.1.dirs == s.dirs + {SliceDir(v.stem)} && r.1.headers == s.headers
    ensures !r.0 ==> r.1.files == s.files && r.1.log == s.log
    ensures r.0 ==> var n := SliceIndex(s.headers[v.path].nz, u).value;
      r.1.files == CacheStep(s.files, v, c, n).0 && r.1.log == s.log + CacheStep(s.files, v, c, n).1
  {
    var t := s.(dirs := s.dirs + {SliceDir(v.stem)});
    if v.path !in s.headers then (false, t)
    else
      var drawn := SliceIndex(s.headers[v.path].nz, u);
      if drawn.None? then (false, t)
      else
        var step := CacheStep(s.files, v, c, drawn.value);
        (true, t.(files := step.0, log := s.log + step.1))
  }

  /** One volume of the serial `random_slice`: a missing image fails before
      anything is done; otherwise the volume is reoriented and its slice
      drawn and cached. */
  function SliceStep(s: Snapshot, v: SliceSource, c: SliceConfig, u: nat): (r: (bool, Snapshot))
    ensures r.0 <==> v.path in s.headers && s.headers[v.path].nz >= 3
    ensures v.path !in s.headers ==> r.1 == s
    ensures s.files <= r.1.files && s.dirs <= r.1.dirs && r.1.headers.Keys == s.headers.Keys
    ensures forall p :: p in r.1.headers ==>
      r.1.headers[p].nz == s.headers[p].nz && r.1.headers[p].spacing == s.headers[p].spacing &&
      (s.headers[p].orientation == "RPI" ==> r.1.headers[p].orientation == "RPI")
    ensures r.0 ==> (CropPath(v.stem, SliceIndex(s.headers[v.path].nz, u).value) in r.1.files &&
      SliceDir(v.stem) in r.1.dirs && r.1.headers[v.path].orientation == "RPI")
  {
    if v.path !in s.headers then (false, s)
    else WorkerSliceStep(Reoriented(s, v.path, v.segPath), v, c, u)
  }

  /** Asking again for the slice a volume just got changes nothing: the
      volume is RPI already, its folder exists and the cached crop is hit. */
  lemma SliceStepIdempotent(s: Snapshot, v: SliceSource, c: SliceConfig, u: nat)
    requires SliceStep(s, v, c, u).0
    ensures SliceStep(SliceStep(s, v, c, u).1, v, c, u) == SliceStep(s, v, c, u)
  {
    var t := SliceStep(s, v, c, u).1;
    var t2 := Reoriented(t, v.path, v.segPath);
    assert t2 == t;
    var n := SliceIndex(s.headers[v.path].nz, u).value;
    assert SliceIndex(t.headers[v.path].nz, u).value == n;
    assert t.dirs + {SliceDir(v.stem)} == t.dirs;
    assert CacheStep(t.files, v, c, n) == (t.files, []);
    assert t.log + [] == t.log;
  }

  /** The serial `random_slice` loop on a snapshot: one step per volume,
      stopping at the first that fails. Besides the outcome and the new
      state it gives the slice index drawn for each volume that succeeded. */
  function RandomSliceRun(s: Snapshot, sources: seq<SliceSource>, c: SliceConfig, draws: seq<nat>): (bool, Snapshot, seq<nat>)
    requires |draws| == |sources|
    decreases |sources|
  {
    if sources == [] then (true, s, [])
    else
      var st := SliceStep(s, sources[0], c, draws[0]);
      if !st.0 then (false, st.1, [])
      else
        var rest := RandomSliceRun(st.1, sources[1..], c, draws[1..]);
        (rest.0, rest.1, [SliceIndex(s.headers[sources[0].path].nz, draws[0]).value] + rest.2)
  }

  /** One step of the slicing loop at position `k`, as the loop that
      collects the drawn indices `ns` sees it. */
  lemma RandomSliceRunStep(pre: Snapshot, post: Snapshot, sources: seq<SliceSource>, c: SliceConfig, draws: seq<nat>,
      k: nat, ok: bool, n: nat, ns: seq<nat>)
    requires |draws| == |sources| && k < |sources|
    requires (ok, post) == SliceStep(pre, sources[k], c, draws[k])
    requires ok ==> n == SliceIndex(pre.headers[sources[k].path].nz, draws[k]).value
    ensures var t := RandomSliceRun(pre, sources[k..], c, draws[k..]);
      if !ok then t == (false, post, [])
      else
        var t1 := RandomSliceRun(post, sources[k + 1..], c, draws[k + 1..]);
        t.0 == t1.0 && t.1 == t1.1 && ns + t.2 == (ns + [n]) + t1.2
  {
    assert sources[k..][0] == sources[k] && sources[k..][1..] == sources[k + 1..];
    assert draws[k..][0] == draws[k] && draws[k..][1..] == draws[k + 1..];
    if ok {
      AppendAssoc(ns, [n], RandomSliceRun(post, sources[k + 1..], c, draws[k + 1..]).2);
    }
  }

  /** The cache names of the slices drawn so far: entry `i` names the slice
      `ns[i]` of volume `i`, through `name` (`CropPath` or `CropSegPath`). */
  function CropNames(name: (string, nat) -> string, sources: seq<SliceSource>, ns: seq<nat>): seq<string>
    requires |ns| <= |sources|
    decreases |ns|
  {
    if ns == [] then []
    else CropNames(name, sources, ns[..|ns| - 1]) + [name(sources[|ns| - 1].stem, ns[|ns| - 1])]
  }

  /** Entry by entry, the names are those of the drawn slices. */
  lemma {:induction false} CropNamesAt(name: (string, nat) -> string, sources: seq<SliceSource>, ns: seq<nat>)
    requires |ns| <= |sources|
    decreases |ns|
    ensures |CropNames(name, sources, ns)| == |ns|
    ensures forall i :: 0 <= i < |ns| ==> CropNames(name, sources, ns)[i] == name(sources[i].stem, ns[i])
  {
    if ns != [] {
      var front := ns[..|ns| - 1];
      CropNamesAt(name, sources, front);
      forall i | 0 <= i < |ns|
        ensures CropNames(name, sources, ns)[i] == name(sources[i].stem, ns[i])
      {
        if i < |front| {
          assert ns[i] == front[i];
        }
      }
    }
  }

  /** The slicing loop only adds files and folders, and headers keep their
      keys, plane counts and spacings; an RPI header stays RPI. */
  lemma {:induction false} RandomSliceRunFrame(s: Snapshot, sources: seq<SliceSource>, c: SliceConfig, draws: seq<nat>)
    requires |draws| == |sources|
    decreases |sources|
    ensures var r := RandomSliceRun(s, sources, c, draws);
      r.1.headers.Keys == s.headers.Keys && s.files <= r.1.files && s.dirs <= r.1.dirs &&
      forall p :: p in r.1.headers ==>
        r.1.headers[p].nz == s.headers[p].nz && r.1.headers[p].spacing == s.headers[p].spacing &&
        (s.headers[p].orientation == "RPI" ==> r.1.headers[p].orientation == "RPI")
  {
    if sources != [] {
      var st := SliceStep(s, sources[0], c, draws[0]);
      if st.0 {
        RandomSliceRunFrame(st.1, sources[1..], c, draws[1..]);
      }
    }
  }

  /** The slicing loop fails exactly when some volume is missing or has
      fewer than three planes. */
  lemma {:induction false} RandomSliceRunFails(s: Snapshot, sources: seq<SliceSource>, c: SliceConfig, draws: seq<nat>)
    requires |draws| == |sources|
    decreases |sources|
    ensures RandomSliceRun(s, sources, c, draws).0 <==>
      forall i :: 0 <= i < |sources| ==> sources[i].path in s.headers && s.headers[sources[i].path].nz >= 3
  {
    if sources != [] {
      var st := SliceStep(s, sources[0], c, draws[0]);
      if st.0 {
        var tail := sources[1..];
        RandomSliceRunFails(st.1, tail, c, draws[1..]);
        assert forall i :: 0 <= i < |tail| ==> tail[i] == sources[i + 1];
        assert (forall i :: 0 <= i < |tail| ==> tail[i].path in st.1.headers && st.1.headers[tail[i].path].nz >= 3) <==>
          (forall i :: 0 <= i < |tail| ==> tail[i].path in s.headers && s.headers[tail[i].path].nz >= 3);
        if forall i :: 0 <= i < |sources| ==> sources[i].path in s.headers && s.headers[sources[i].path].nz >= 3 {
          forall i | 0 <= i < |tail|
            ensures tail[i].path in s.headers && s.headers[tail[i].path].nz >= 3
          {
            assert tail[i] == sources[i + 1];
          }
        } else {
          var j :| 0 <= j < |sources| && !(sources[j].path in s.headers && s.headers[sources[j].path].nz >= 3);
          assert j > 0 && tail[j - 1] == sources[j];
        }
      }
    }
  }

  /** When every volume can be sliced the loop succeeds, and each index
      it reports is the one the volume's plane count and raw number give. */
  lemma {:induction false} RandomSliceRunDraws(s: Snapshot, sources: seq<SliceSource>, c: SliceConfig, draws: seq<nat>)
    requires |draws| == |sources|
    requires forall i :: 0 <= i < |sources| ==> sources[i].path in s.headers && s.headers[sources[i].path].nz >= 3
    decreases |sources|
    ensures var r := RandomSliceRun(s, sources, c, draws);
      r.0 && |r.2| == |sources| &&
      forall i :: 0 <= i < |sources| ==> r.2[i] == SliceIndex(s.headers[sources[i].path].nz, draws[i]).value
  {
    if sources != [] {
      var st := SliceStep(s, sources[0], c, draws[0]);
      var tail, tailDraws := sources[1..], draws[1..];
      forall i | 0 <= i < |tail|
        ensures tail[i].path in st.1.headers && st.1.headers[tail[i].path].nz >= 3
      {
        assert tail[i] == sources[i + 1];
      }
      RandomSliceRunDraws(st.1, tail, c, tailDraws);
      var rest := RandomSliceRun(st.1, tail, c, tailDraws);
      var r := RandomSliceRun(s, sources, c, draws);
      assert r.2 == [SliceIndex(s.headers[sources[0].path].nz, draws[0]).value] + rest.2;
      forall i | 0 <= i < |sources|
        ensures r.2[i] == SliceIndex(s.headers[sources[i].path].nz, draws[i]).value
      {
        if i > 0 {
          assert sources[i] == tail[i - 1] && draws[i] == tailDraws[i - 1];
          assert st.1.headers[sources[i].path].nz == s.headers[sources[i].path].nz;
        }
      }
    }
  }

  /** On success every volume ends RPI, its cache folder exists and the crop
      of the slice drawn for it is in the cache. */
  lemma {:induction false} RandomSliceRunCaches(s: Snapshot, sources: seq<SliceSource>, c: SliceConfig, draws: seq<nat>)
    requires |draws| == |sources|
    requires forall i :: 0 <= i < |sources| ==> sources[i].path in s.headers && s.headers[sources[i].path].nz >= 3
    decreases |sources|
    ensures var r := RandomSliceRun(s, sources, c, draws);
      forall i :: 0 <= i < |sources| ==>
        CropPath(sources[i].stem, SliceIndex(s.headers[sources[i].path].nz, draws[i]).value) in r.1.files &&
        SliceDir(sources[i].stem) in r.1.dirs &&
        sources[i].path in r.1.headers && r.1.headers[sources[i].path].orientation == "RPI"
  {
    if sources != [] {
      var v, st := sources[0], SliceStep(s, sources[0], c, draws[0]);
      var r := RandomSliceRun(s, sources, c, draws);
      var tail, tailDraws := sources[1..], draws[1..];
      forall i | 0 <= i < |tail|
        ensures tail[i].path in st.1.headers && st.1.headers[tail[i].path].nz >= 3
      {
        assert tail[i] == sources[i + 1];
      }
      RandomSliceRunFrame(st.1, tail, c, tailDraws);
      RandomSliceRunCaches(st.1, tail, c, tailDraws);
      assert r.1 == RandomSliceRun(st.1, tail, c, tailDraws).1;
      forall i | 0 <= i < |sources|
        ensures CropPath(sources[i].stem, SliceIndex(s.headers[sources[i].path].nz, draws[i]).value) in r.1.files &&
          SliceDir(sources[i].stem) in r.1.dirs &&
          sources[i].path in r.1.headers && r.1.headers[sources[i].path].orientation == "RPI"
      {
        if i > 0 {
          assert sources[i] == tail[i - 1] && draws[i] == tailDraws[i - 1];
          assert st.1.headers[sources[i].path].nz == s.headers[sources[i].path].nz;
        }
      }
    }
  }

  /** Everything the slicing loop promises about the state it leaves, in
      one place: the frame, the failure cases, and on success the cached
      crop, folder and orientation of every volume with its drawn index. */
  lemma RandomSliceRunSpec(s: Snapshot, sources: seq<SliceSource>, c: SliceConfig, draws: seq<nat>)
    requires |draws| == |sources|
    ensures var r := RandomSliceRun(s, sources, c, draws);
      s.files <= r.1.files && s.dirs <= r.1.dirs && r.1.headers.Keys == s.headers.Keys &&
      (forall p :: p in r.1.headers ==> r.1.headers[p].nz == s.headers[p].nz && r.1.headers[p].spacing == s.headers[p].spacing) &&
      (r.0 <==> forall i :: 0 <= i < |sources| ==> sources[i].path in s.headers && s.headers[sources[i].path].nz >= 3) &&
      (r.0 ==> |r.2| == |sources| && forall i :: 0 <= i < |sources| ==>
        r.2[i] == SliceIndex(s.headers[sources[i].path].nz, draws[i]).value &&
        CropPath(sources[i].stem, r.2[i]) in r.1.files && SliceDir(sources[i].stem) in r.1.dirs &&
        r.1.headers[sources[i].path].orientation == "RPI")
  {
    RandomSliceRunFrame(s, sources, c, draws);
    RandomSliceRunFails(s, sources, c, draws);
    if RandomSliceRun(s, sources, c, draws).0 {
      RandomSliceRunDraws(s, sources, c, draws);
      RandomSliceRunCaches(s, sources, c, draws);
    }
  }

  /** The working directory of a run. */
  class Workspace {
    /** Files below the working directory, by relative path. */
    var files: set<string>
    /** Directories below the working directory. */
    var dirs: set<string>
    /** The headers of the volumes the run reads, by the path it opens them with. */
    var headers: map<string, Header>
    /** Every external command issued so far, in order. */
    var log: seq<Command>

    function Snap(): Snapshot
      reads this
    {
      Snapshot(files, dirs, headers, log)
    }

    constructor (files0: set<string>, dirs0: set<string>, headers0: map<string, Header>)
      ensures files == files0 && dirs == dirs0 && headers == headers0 && log == []
    {
      files := files0;
      dirs := dirs0;
      headers := headers0;
      log := [];
    }

    /** `worker_resized_and_crop` (lines 388-406): resample the pair unless the
        image is 1x1x1 mm, then reorient it unless it is RPI. Opening an image
        that is not there raises, and nothing is done. */
    method ResizeAndCrop(image: string, seg: string, resampledNz: nat) returns (ok: bool)
      modifies this
      ensures ok == (image in old(headers))
      ensures files == old(files) && dirs == old(dirs)
      ensures !ok ==> headers == old(headers) && log == old(log)
      ensures ok ==> headers == old(headers)[image := Normalised(old(headers)[image], resampledNz)]
      ensures ok ==> log == old(log) + PreprocessCommands(image, seg, old(headers)[image].spacing, old(headers)[image].orientation)
      ensures (ok, Snap()) == PreprocessStep(old(Snap()), image, seg, resampledNz)
    {
      if image !in headers {
        return false;
      }
      var h := headers[image];
      if !IsIsotropic(h.spacing) {
        log := log + [Resample(image), Resample(seg)];
        headers := headers[image := h.(spacing := Spacing(1.0, 1.0, 1.0), nz := resampledNz)];
      }
      // The orientation is read from the file as it is after resampling.
      var h2 := headers[image];
      if h2.orientation != "RPI" {
        log := log + [SetOrientRPI(image), SetOrientRPI(seg)];
        headers := headers[image := h2.(orientation := "RPI")];
      }
      ok := true;
    }

    /** A serial preprocessing loop (lines 252-259): `worker_resized_and_crop`
        on each pair in turn, stopping where an image cannot be opened. On
        success every image of the list is 1x1x1 mm and RPI. */
    method PreprocessAll(args: seq<(string, string)>, resampledNz: seq<nat>) returns (ok: bool)
      requires |resampledNz| == |args|
      modifies this
      ensures files == old(files) && dirs == old(dirs)
      ensures headers.Keys == old(headers).Keys
      ensures forall p :: p in old(headers) && (forall k :: 0 <= k < |args| ==> args[k].0 != p) ==> headers[p] == old(headers)[p]
      ensures ok <==> forall k :: 0 <= k < |args| ==> args[k].0 in old(headers)
      ensures ok ==> forall k :: 0 <= k < |args| ==>
        IsIsotropic(headers[args[k].0].spacing) && headers[args[k].0].orientation == "RPI"
      ensures (ok, Snap()) == PreprocessRun(old(Snap()), args, resampledNz)
    {
      var i := 0;
      while i < |args|
        invariant 0 <= i <= |args|
        invariant PreprocessRun(old(Snap()), args, resampledNz) == PreprocessRun(Snap(), args[i..], resampledNz[i..])
      {
        assert args[i..][0] == args[i] && args[i..][1..] == args[i + 1..];
        assert resampledNz[i..][0] == resampledNz[i] && resampledNz[i..][1..] == resampledNz[i + 1..];
        var done := ResizeAndCrop(args[i].0, args[i].1, resampledNz[i]);
        if !done {
          return false;
        }
        i := i + 1;
      }
      ok := true;
    }

    /** `worker_random_slice` (lines 439-474) with the raw random number `u`:
        make the cache folder, draw a slice index in [1, nz - 2], and cut the
        slice only when its cached crop is missing. An unreadable image or a
        volume of fewer than three planes raises after the folder exists. */
    method WorkerRandomSlice(v: SliceSource, c: SliceConfig, u: nat) returns (ok: bool, im: string, imSeg: string, n: nat)
      modifies this
      ensures dirs == old(dirs) + {SliceDir(v.stem)}
      ensures headers == old(headers)
      ensures ok <==> v.path in old(headers) && SliceIndex(old(headers)[v.path].nz, u).Some?
      ensures !ok ==> files == old(files) && log == old(log)
      ensures ok ==> n == SliceIndex(old(headers)[v.path].nz, u).value
      ensures ok ==> im == CropPath(v.stem, n) && imSeg == CropSegPath(v.stem, n)
      ensures ok ==> files == CacheStep(old(files), v, c, n).0 && log == old(log) + CacheStep(old(files), v, c, n).1
      ensures (ok, Snap()) == WorkerSliceStep(old(Snap()), v, c, u)
    {
      dirs := dirs + {SliceDir(v.stem)};
      im, imSeg, n := "", "", 0;
      if v.path !in headers {
        return false, im, imSeg, n;
      }
      var drawn := SliceIndex(headers[v.path].nz, u);
      if drawn.None? {
        return false, im, imSeg, n;
      }
      n := drawn.value;
      if CropPath(v.stem, n) !in files {
        log := log + MissCommands(v, c, n);
        files := files + MissOutputs(v.stem, n);
      }
      im := CropPath(v.stem, n);
      imSeg := CropSegPath(v.stem, n);
      ok := true;
    }

    /** The reorientation that `random_slice` (lines 487-490) does before
        slicing each volume. */
    method Reorient(path: string, segPath: string) returns (ok: bool)
      modifies this
      ensures ok == (path in old(headers))
      ensures files == old(files) && dirs == old(dirs)
      ensures !ok ==> headers == old(headers) && log == old(log)
      ensures ok ==> headers == old(headers)[path := old(headers)[path].(orientation := "RPI")]
      ensures ok && old(headers)[path].orientation == "RPI" ==> log == old(log)
      ensures ok && old(headers)[path].orientation != "RPI" ==> log == old(log) + [SetOrientRPI(path), SetOrientRPI(segPath)]
      ensures Snap() == if ok then Reoriented(old(Snap()), path, segPath) else old(Snap())
    {
      if path !in headers {
        return false;
      }
      var h := headers[path];
      if h.orientation != "RPI" {
        log := log + [SetOrientRPI(path), SetOrientRPI(segPath)];
      }
      headers := headers[path := h.(orientation := "RPI")];
      ok := true;
    }

    /** The serial `random_slice` (lines 479-520): for each volume in turn,
        reorient it, then draw and cache a slice. It stops at the first
        volume that raises. On success every returned crop is in the cache,
        and each drawn index is the one the volume's plane count and its raw
        random number give. */
    method RandomSlice(sources: seq<SliceSource>, c: SliceConfig, draws: seq<nat>)
      returns (ok: bool, ims: seq<string>, imSegs: seq<string>, ns: seq<nat>)
      requires |draws| == |sources|
      modifies this
      ensures old(files) <= files && old(dirs) <= dirs
      ensures headers.Keys == old(headers).Keys
      ensures forall p :: p in headers ==> headers[p].nz == old(headers)[p].nz && headers[p].spacing == old(headers)[p].spacing
      ensures ok <==> forall i :: 0 <= i < |sources| ==> sources[i].path in old(headers) && old(headers)[sources[i].path].nz >= 3
      ensures ok ==> |ims| == |sources| && |imSegs| == |sources| && |ns| == |sources|
      ensures ok ==> forall i :: 0 <= i < |sources| ==>
        ns[i] == SliceIndex(old(headers)[sources[i].path].nz, draws[i]).value &&
        ims[i] == CropPath(sources[i].stem, ns[i]) && imSegs[i] == CropSegPath(sources[i].stem, ns[i]) &&
        ims[i] in files && SliceDir(sources[i].stem) in dirs && headers[sources[i].path].orientation == "RPI"
      ensures var r := RandomSliceRun(old(Snap()), sources, c, draws);
        ok == r.0 && Snap() == r.1 && (ok ==> ns == r.2)
    {
      ok, ims, imSegs, ns := SliceEach(sources, c, draws);
      RandomSliceRunSpec(old(Snap()), sources, c, draws);
      if ok {
        CropNamesAt(CropPath, sources, ns);
        CropNamesAt(CropSegPath, sources, ns);
      }
    }

    /** The loop of `random_slice` itself: one `SliceOne` per volume, so the
        state it leaves and the indices it collects are those of
        `RandomSliceRun`; each returned pair of names is the crop of the
        index drawn alongside it. */
    method SliceEach(sources: seq<SliceSource>, c: SliceConfig, draws: seq<nat>)
      returns (ok: bool, ims: seq<string>, imSegs: seq<string>, ns: seq<nat>)
      requires |draws| == |sources|
      modifies this
      ensures var r := RandomSliceRun(old(Snap()), sources, c, draws);
        ok == r.0 && Snap() == r.1 && (ok ==> ns == r.2)
      ensures ok ==> |ims| == |sources| && |imSegs| == |sources| && |ns| == |sources|
      ensures |ns| <= |sources|
      ensures ims == CropNames(CropPath, sources, ns) && imSegs == CropNames(CropSegPath, sources, ns)
    {
      ims, imSegs, ns := [], [], [];
      ghost var run := RandomSliceRun(Snap(), sources, c, draws);
      assert sources[0..] == sources && draws[0..] == draws;
      assert run.2 == [] + run.2;
      var k := 0;
      while k < |sources|
        invariant 0 <= k <= |sources|
        invariant |ims| == k && |imSegs| == k && |ns| == k
        invariant run == RandomSliceRun(old(Snap()), sources, c, draws)
        invariant var t := RandomSliceRun(Snap(), sources[k..], c, draws[k..]);
          run.0 == t.0 && run.1 == t.1 && run.2 == ns + t.2
        invariant ims == CropNames(CropPath, sources, ns) && imSegs == CropNames(CropSegPath, sources, ns)
      {
        ghost var pre := Snap();
        var sliced, im, imSeg, n := SliceOne(sources[k], c, draws[k]);
        RandomSliceRunStep(pre, Snap(), sources, c, draws, k, sliced, n, ns);
        if !sliced {
          return false, ims, imSegs, ns;
        }
        assert (ns + [n])[..k] == ns;
        ims, imSegs, ns := ims + [im], imSegs + [imSeg], ns + [n];
        k := k + 1;
      }
      assert sources[k..] == [] && draws[k..] == [];
      ok := true;
    }

    /** One pass of the loop of `random_slice` (lines 486-515): reorient the
        volume, then draw and cache its slice. The new state is exactly
        `SliceStep`'s, whose contract gives the failure cases and what is
        kept and added. */
    method SliceOne(v: SliceSource, c: SliceConfig, u: nat) returns (ok: bool, im: string, imSeg: string, n: nat)
      modifies this
      ensures (ok, Snap()) == SliceStep(old(Snap()), v, c, u)
      ensures ok ==> n == SliceIndex(old(headers)[v.path].nz, u).value
      ensures ok ==> im == CropPath(v.stem, n) && imSeg == CropSegPath(v.stem, n)
    {
      im, imSeg, n := "", "", 0;
      ok := Reorient(v.path, v.segPath);
      if !ok {
        return;
      }
      ok, im, imSeg, n := WorkerRandomSlice(v, c, u);
    }

    /** `worker_warping_field` (lines 560-578): register one pair of
        segmentations and return the name of the forward field. */
    method WorkerWarpingField(srcSeg: string, destSeg: string, i: nat) returns (warp: string)
      modifies this
      ensures warp == WarpName(i)
      ensures log == old(log) + [RegisterCommand(srcSeg, destSeg, i)]
      ensures files == old(files) + RegistrationFiles(i)
      ensures dirs == old(dirs) && headers == old(headers)
    {
      log := log + [RegisterCommand(srcSeg, destSeg, i)];
      files := files + RegistrationFiles(i);
      warp := NatToString(i) + "0Warp.nii.gz";
    }

    /** The serial `warping_field` (lines 536-555): one registration per wrap,
        the field names collected in wrap order. */
    method WarpingField(srcSeg: seq<string>, destSeg: seq<string>, nw: nat) returns (warp: seq<string>)
      requires nw <= |srcSeg| && nw <= |destSeg|
      modifies this
      ensures warp == SerialWarpNames(nw)
      ensures log == old(log) + RegistrationLog(srcSeg, destSeg, nw)
      ensures files == old(files) + RegistrationOutputs(nw)
      ensures dirs == old(dirs) && headers == old(headers)
    {
      warp := [];
      var i := 0;
      while i < nw
        invariant 0 <= i <= nw
        invariant warp == SerialWarpNames(i)
        invariant log == old(log) + RegistrationLog(srcSeg, destSeg, i)
        invariant files == old(files) + RegistrationOutputs(i)
        invariant dirs == old(dirs) && headers == old(headers)
      {
        AppendAssoc(old(log), RegistrationLog(srcSeg, destSeg, i), [RegisterCommand(srcSeg[i], destSeg[i], i)]);
        log := log + [RegisterCommand(srcSeg[i], destSeg[i], i)];
        files := files + RegistrationFiles(i);
        warp := warp + [NatToString(i) + "0Warp.nii.gz"];
        i := i + 1;
      }
    }

    /** One pass of the inner loop of `apply_warping_field` (lines 597-603):
        warp target `j` and its segmentation with the field of wrap `i`. */
    method ApplyOne(a: ApplyArgs, i: nat, j: nat)
      requires WellSized(a) && i < a.nbreWrap && i * a.nbreSlice <= j < i * a.nbreSlice + a.nbreSlice
      modifies this
      ensures j < Targets(a) && log == old(log) + SerialStep(a, j)
      ensures files == old(files) && dirs == old(dirs) && headers == old(headers)
    {
      BlockInside(i, a.nbreSlice, j - i * a.nbreSlice, a.nbreWrap);
      BlockOf(i, a.nbreSlice, j - i * a.nbreSlice);
      var name := SerialName(a.srcFiles[i], a.destFiles[i], a.nbreIm[j]);
      log := log + [ApplyTransforms(a.im[j], a.dest[i], a.wrap[i], a.out, name, false),
                    ApplyTransforms(a.imSeg[j], a.dest[i], a.wrap[i], a.out, name, true)];
    }

    /** The pooled registration stage (lines 300-307) run one worker after
        the other, its results collected by `worker_warping_result`: the same
        fields, files and commands as the serial loop. */
    method PooledWarpingField(srcSeg: seq<string>, destSeg: seq<string>, nw: nat) returns (warp: seq<string>)
      requires nw <= |srcSeg| && nw <= |destSeg|
      modifies this
      ensures warp == SerialWarpNames(nw)
      ensures log == old(log) + RegistrationLog(srcSeg, destSeg, nw)
      ensures files == old(files) + RegistrationOutputs(nw)
      ensures dirs == old(dirs) && headers == old(headers)
    {
      var results := [];
      var i := 0;
      while i < nw
        invariant 0 <= i <= nw
        invariant results == SerialWarpNames(i)
        invariant log == old(log) + RegistrationLog(srcSeg, destSeg, i)
        invariant files == old(files) + RegistrationOutputs(i)
        invariant dirs == old(dirs) && headers == old(headers)
      {
        var r := WorkerWarpingField(srcSeg[i], destSeg[i], i);
        AppendAssoc(old(log), RegistrationLog(srcSeg, destSeg, i), [RegisterCommand(srcSeg[i], destSeg[i], i)]);
        results := results + [r];
        i := i + 1;
      }
      warp := WorkerWarpingResult(results);
    }

    /** The inner loop of `apply_warping_field` for wrap `i` (lines 596-603),
        taking the running counter `j` in and handing it back. */
    method ApplyWrap(a: ApplyArgs, i: nat, j0: nat, ghost before: seq<Command>) returns (j: nat)
      requires WellSized(a) && i < a.nbreWrap && j0 == i * a.nbreSlice
      requires log == before + SerialApplyLog(a, j0)
      modifies this
      ensures j == j0 + a.nbreSlice && j <= Targets(a)
      ensures log == before + SerialApplyLog(a, j)
      ensures files == old(files) && dirs == old(dirs) && headers == old(headers)
    {
      MulSucc(i, a.nbreSlice);
      MulMonotone(a.nbreSlice, i + 1, a.nbreWrap);
      j := j0;
      var iter := 0;
      while iter < a.nbreSlice
        invariant 0 <= iter <= a.nbreSlice
        invariant j == j0 + iter
        invariant log == before + SerialApplyLog(a, j)
        invariant files == old(files) && dirs == old(dirs) && headers == old(headers)
      {
        ApplyOne(a, i, j);
        AppendAssoc(before, SerialApplyLog(a, j), SerialStep(a, j));
        j := j + 1;
        iter := iter + 1;
      }
    }

    /** The serial `apply_warping_field` (lines 592-603): a wrap loop and a
        slice loop sharing the running target counter `j`; target `j` is
        warped by the field of wrap `i`. */
    method ApplyWarpingField(a: ApplyArgs)
      requires WellSized(a)
      modifies this
      ensures log == old(log) + SerialApplyLog(a, Targets(a))
      ensures files == old(files) && dirs == old(dirs) && headers == old(headers)
    {
      var j := 0;
      var i := 0;
      while i < a.nbreWrap
        invariant 0 <= i <= a.nbreWrap
        invariant j == i * a.nbreSlice
        invariant log == old(log) + SerialApplyLog(a, j)
        invariant files == old(files) && dirs == old(dirs) && headers == old(headers)
      {
        j := ApplyWrap(a, i, j, old(log));
        MulSucc(i, a.nbreSlice);
        i := i + 1;
      }
    }

    /** One pass of the loop of `worker_apply_warping_field` (lines 615-622). */
    method PooledApplyOne(a: ApplyArgs, iter: nat, it: nat)
      requires WellSized(a) && iter < a.nbreWrap && it < a.nbreSlice
      modifies this
      ensures log == old(log) + PooledStep(a, iter, it)
      ensures files == old(files) && dirs == old(dirs) && headers == old(headers)
    {
      var j := iter * a.nbreSlice;
      BlockInside(iter, a.nbreSlice, it, a.nbreWrap);
      var name := PooledName(a.srcFiles[iter], a.nbreSrc[iter], a.destFiles[iter], a.nbreDest[iter],
                             a.imFiles[j + it], a.nbreIm[j + it]);
      log := log + [ApplyTransforms(a.im[j + it], a.dest[iter], a.wrap[iter], a.out, name, false),
                    ApplyTransforms(a.imSeg[j + it], a.dest[iter], a.wrap[iter], a.out, name, true)];
    }

    /** The pooled `worker_apply_warping_field` (lines 608-622) for wrap
        `iter`, whose first target is `iter * nbre_slice` (line 324). */
    method WorkerApplyWarpingField(a: ApplyArgs, iter: nat)
      requires WellSized(a) && iter < a.nbreWrap
      modifies this
      ensures log == old(log) + PooledWorkerLog(a, iter, a.nbreSlice)
      ensures files == old(files) && dirs == old(dirs) && headers == old(headers)
    {
      var it := 0;
      while it < a.nbreSlice
        invariant 0 <= it <= a.nbreSlice
        invariant log == old(log) + PooledWorkerLog(a, iter, it)
        invariant files == old(files) && dirs == old(dirs) && headers == old(headers)
      {
        PooledApplyOne(a, iter, it);
        AppendAssoc(old(log), PooledWorkerLog(a, iter, it), PooledStep(a, iter, it));
        it := it + 1;
      }
    }

    /** The pooled stage (lines 324-328) run one worker after the other: the
        workers for wraps `0 .. nbre_wrap - 1`, in order. */
    method PooledApplyWarpingField(a: ApplyArgs)
      requires WellSized(a)
      modifies this
      ensures log == old(log) + PooledApplyLog(a, a.nbreWrap)
      ensures files == old(files) && dirs == old(dirs) && headers == old(headers)
    {
      var iter := 0;
      while iter < a.nbreWrap
        invariant 0 <= iter <= a.nbreWrap
        invariant log == old(log) + PooledApplyLog(a, iter)
        invariant files == old(files) && dirs == old(dirs) && headers == old(headers)
      {
        WorkerApplyWarpingField(a, iter);
        PooledApplyLogSnoc(a, iter);
        AppendAssoc(old(log), PooledApplyLog(a, iter), PooledWorkerLog(a, iter, a.nbreSlice));
        iter := iter + 1;
      }
    }

    /** One pass of the cleanup loop (lines 339-340). */
    method RemoveFields(warp: seq<string>, i: nat)
      requires i < |warp|
      modifies this
      ensures log == old(log) + [RemoveTree(warp[i]), RemoveTree(InverseWarpName(i))]
      ensures files == old(files) - {warp[i], InverseWarpName(i)}
      ensures dirs == old(dirs) && headers == old(headers)
    {
      log := log + [RemoveTree(warp[i]), RemoveTree(InverseWarpName(i))];
      files := files - {warp[i], InverseWarpName(i)};
    }

    /** The cleanup loop (lines 338-340): remove each forward field and the
        inverse field of the same wrap. */
    method Cleanup(warp: seq<string>, nw: nat)
      requires nw <= |warp|
      modifies this
      ensures log == old(log) + CleanupLog(warp, nw)
      ensures files == old(files) - CleanupTargets(warp, nw)
      ensures dirs == old(dirs) && headers == old(headers)
    {
      var i := 0;
      while i < nw
        invariant 0 <= i <= nw
        invariant log == old(log) + CleanupLog(warp, i)
        invariant files == old(files) - CleanupTargets(warp, i)
        invariant dirs == old(dirs) && headers == old(headers)
      {
        RemoveFields(warp, i);
        AppendAssoc(old(log), CleanupLog(warp, i), [RemoveTree(warp[i]), RemoveTree(InverseWarpName(i))]);
        DiffDiff(old(files), CleanupTargets(warp, i), {warp[i], InverseWarpName(i)});
        i := i + 1;
      }
    }
  }

  /** `worker_result` (lines 525-531): split the pool's `(im, im_seg, nbre)`
      triples into three lists, position by position. */
  method WorkerResult(results: seq<(string, string, nat)>) returns (ims: seq<string>, imSegs: seq<string>, ns: seq<nat>)
    ensures |ims| == |results| && |imSegs| == |results| && |ns| == |results|
    ensures forall i :: 0 <= i < |results| ==> (ims[i], imSegs[i], ns[i]) == results[i]
  {
    ims, imSegs, ns := [], [], [];
    var k := 0;
    while k < |results|
      invariant 0 <= k <= |results|
      invariant |ims| == k && |imSegs| == k && |ns| == k
      invariant forall i :: 0 <= i < k ==> (ims[i], imSegs[i], ns[i]) == results[i]
    {
      var (im, imSeg, n) := results[k];
      ims, imSegs, ns := ims + [im], imSegs + [imSeg], ns + [n];
      k := k + 1;
    }
  }

  /** `worker_warping_result` (lines 583-587): the pool's results, in order. */
  method WorkerWarpingResult(results: seq<string>) returns (warp: seq<string>)
    ensures warp == results
  {
    warp := [];
    var k := 0;
    while k < |results|
      invariant 0 <= k <= |results|
      invariant warp == results[..k]
    {
      TakeSnoc(results, k);
      warp := warp + [results[k]];
      k := k + 1;
    }
  }

  /** The preview image every registration writes is not among the files
      the cleanup loop deletes, so it survives the run. */
  lemma PreviewSurvivesCleanup(nw: nat)
    ensures WarpedPreview !in CleanupTargets(SerialWarpNames(nw), nw)
  {
    var warp := SerialWarpNames(nw);
    CleanupTargetsMembers(warp, nw);
    forall i | 0 <= i < nw
      ensures WarpedPreview != warp[i] && WarpedPreview != InverseWarpName(i)
    {
      assert WarpedPreview[0] == 't';
      assert WarpName(i)[0] == NatToString(i)[0];
      assert InverseWarpName(i)[0] == NatToString(i)[0];
    }
  }

  // ---------------------------------------------------------------------
  // Serial preprocessing arguments (lines 252-259)
  // ---------------------------------------------------------------------

  /** The pairs the serial branch hands to `worker_resized_and_crop`, as
      written: the destination call of each wrap is built from the source
      lists (line 256), then one call per target. */
  function SerialPreprocessArgsAsWritten(src: seq<string>, srcSeg: seq<string>, dest: seq<string>, destSeg: seq<string>,
                                         im: seq<string>, imSeg: seq<string>, nw: nat, nt: nat): (r: seq<(string, string)>)
    requires nw <= |src| && nw <= |srcSeg| && nw <= |dest| && nw <= |destSeg| && nt <= |im| && nt <= |imSeg|
    ensures |r| == 2 * nw + nt
    ensures forall i :: 0 <= i < nw ==> r[2 * i] == (src[i], srcSeg[i]) && r[2 * i + 1] == (src[i], srcSeg[i])
    ensures forall t :: 0 <= t < nt ==> r[2 * nw + t] == (im[t], imSeg[t])
  {
    if nt > 0 then SerialPreprocessArgsAsWritten(src, srcSeg, dest, destSeg, im, imSeg, nw, nt - 1) + [(im[nt - 1], imSeg[nt - 1])]
    else if nw > 0 then SerialPreprocessArgsAsWritten(src, srcSeg, dest, destSeg, im, imSeg, nw - 1, 0) + [(src[nw - 1], srcSeg[nw - 1]), (src[nw - 1], srcSeg[nw - 1])]
    else []
  }

  /** As written, a destination volume that is not also a source or a target
      is never preprocessed: with one wrap, source `a`, destination `b` and
      target `c`, `b` is missing from the calls. */
  lemma DestinationSkippedAsWritten()
    ensures var r := SerialPreprocessArgsAsWritten(["a"], ["a_seg"], ["b"], ["b_seg"], ["c"], ["c_seg"], 1, 1);
      forall k :: 0 <= k < |r| ==> r[k].0 != "b"
  {
    var r := SerialPreprocessArgsAsWritten(["a"], ["a_seg"], ["b"], ["b_seg"], ["c"], ["c_seg"], 1, 1);
    assert r == [("a", "a_seg"), ("a", "a_seg"), ("c", "c_seg")];
  }

  /** The serial calls with the destination lists used for the destination
      call, as in the pooled branch (line 245). */
  function SerialPreprocessArgs(src: seq<string>, srcSeg: seq<string>, dest: seq<string>, destSeg: seq<string>,
                                im: seq<string>, imSeg: seq<string>, nw: nat, nt: nat): (r: seq<(string, string)>)
    requires nw <= |src| && nw <= |srcSeg| && nw <= |dest| && nw <= |destSeg| && nt <= |im| && nt <= |imSeg|
    ensures |r| == 2 * nw + nt
    ensures forall i :: 0 <= i < nw ==> r[2 * i] == (src[i], srcSeg[i]) && r[2 * i + 1] == (dest[i], destSeg[i])
    ensures forall t :: 0 <= t < nt ==> r[2 * nw + t] == (im[t], imSeg[t])
  {
    if nt > 0 then SerialPreprocessArgs(src, srcSeg, dest, destSeg, im, imSeg, nw, nt - 1) + [(im[nt - 1], imSeg[nt - 1])]
    else if nw > 0 then SerialPreprocessArgs(src, srcSeg, dest, destSeg, im, imSeg, nw - 1, 0) + [(src[nw - 1], srcSeg[nw - 1]), (dest[nw - 1], destSeg[nw - 1])]
    else []
  }

  /** With the destination lists used, the serial branch preprocesses the
      same volumes as the pooled one: every source, destination and target
      pair, and nothing else. */
  lemma SerialPreprocessCoversAll(src: seq<string>, srcSeg: seq<string>, dest: seq<string>, destSeg: seq<string>,
                                  im: seq<string>, imSeg: seq<string>, nw: nat, nt: nat)
    requires nw <= |src| && nw <= |srcSeg| && nw <= |dest| && nw <= |destSeg| && nt <= |im| && nt <= |imSeg|
    ensures var r := SerialPreprocessArgs(src, srcSeg, dest, destSeg, im, imSeg, nw, nt);
      (forall i :: 0 <= i < nw ==> (src[i], srcSeg[i]) in r && (dest[i], destSeg[i]) in r) &&
      (forall t :: 0 <= t < nt ==> (im[t], imSeg[t]) in r) &&
      (forall k :: 0 <= k < |r| ==>
        (exists i :: 0 <= i < nw && (r[k] == (src[i], srcSeg[i]) || r[k] == (dest[i], destSeg[i]))) ||
        (exists t :: 0 <= t < nt && r[k] == (im[t], imSeg[t])))
  {
    var r := SerialPreprocessArgs(src, srcSeg, dest, destSeg, im, imSeg, nw, nt);
    forall i | 0 <= i < nw
      ensures (src[i], srcSeg[i]) in r && (dest[i], destSeg[i]) in r
    {
      assert r[2 * i] == (src[i], srcSeg[i]);
      assert r[2 * i + 1] == (dest[i], destSeg[i]);
    }
    forall t | 0 <= t < nt
      ensures (im[t], imSeg[t]) in r
    {
      assert r[2 * nw + t] == (im[t], imSeg[t]);
    }
    forall k | 0 <= k < |r|
      ensures (exists i :: 0 <= i < nw && (r[k] == (src[i], srcSeg[i]) || r[k] == (dest[i], destSeg[i]))) ||
              (exists t :: 0 <= t < nt && r[k] == (im[t], imSeg[t]))
    {
      if k < 2 * nw {
        var i := k / 2;
        if k == 2 * i {
          assert r[k] == (src[i], srcSeg[i]);
        } else {
          assert k == 2 * i + 1;
          assert r[k] == (dest[i], destSeg[i]);
        }
      } else {
        var t := k - 2 * nw;
        assert r[2 * nw + t] == (im[t], imSeg[t]);
      }
    }
  }
}
