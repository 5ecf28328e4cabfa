/** The external commands scripts/sct_data_augmentationb.py issues and the
    file names it builds for them: slice caches, warp fields and outputs. */
module Commands {
  import opened Builtins

  /** One external operation. Every case but `CropXY` is a shell line handed
      to `sct.run`; `CropXY` is the in-process call `crop_x_y` of msct_image. */
  datatype Command =
    | CropSlice(input: string, index: nat, output: string)
    | CropXY(slice: string, sliceSeg: string, sizeX: int, sizeY: int, outIm: string, outSeg: string, centerSeg: int)
    | Resample(path: string)
    | SetOrientRPI(path: string)
    | Register(destSeg: string, srcSeg: string, prefix: string, warped: string)
    | ApplyTransforms(input: string, reference: string, warp: string, outDir: string, name: OutputName, seg: bool)
    | RemoveTree(path: string)
  {
    /** The shell line, character for character as the script builds it. */
    function Line(): string
      requires !CropXY?
    {
      match this
      case CropSlice(input, n, output) =>
        "sct_crop_image -i " + input + " -dim 2 -start " + NatToString(n) + " -end " + NatToString(n) + " -o " + output
      case Resample(p) => "sct_resample -i " + p + " -mm 1x1x1 -x nn -o " + p
      case SetOrientRPI(p) => "sct_image -i " + p + " -setorient RPI -o " + p
      case Register(destSeg, srcSeg, prefix, warped) =>
        "isct_antsRegistration --dimensionality 2 --transform BSplineSyN[0.5,1,3] " +
        ("--metric MeanSquares[" + destSeg + "," + srcSeg + ", 1] ") +
        "--convergence 5x3 --shrink-factors 2x1 --smoothing-sigmas 1x0mm " +
        ("--output [" + prefix + "," + warped + "] ") +
        "--interpolation BSpline[3] --verbose 0"
      case ApplyTransforms(input, reference, warp, _, _, _) =>
        "isct_antsApplyTransforms -d 2 -i " + input + " -r " + reference + " -n NearestNeighbor -t " + warp + " --output " + OutputPath()
      case RemoveTree(p) => "rm -rf " + p
    }

    /** The file an application command writes: its folder followed by the
        image name or, for a segmentation, the segmentation name. */
    function OutputPath(): string
      requires ApplyTransforms?
    {
      outDir + OutputFile(name, seg)
    }
  }

  /** The recipe an output of the apply stage is named by: the serial
      loop's (lines 598-599) or the pooled worker's (lines 618-619). */
  datatype OutputName =
    | SerialName(srcFile: string, destFile: string, n: nat)
    | PooledName(srcFile: string, nSrc: nat, destFile: string, nDest: nat, imFile: string, nIm: nat)

  /** A crop line names the slice file it writes last. */
  lemma CropLineEndsWithOutput(input: string, n: nat, output: string)
    ensures EndsWith(CropSlice(input, n, output).Line(), " -o " + output)
  {
    EndsWithTail("sct_crop_image -i " + input + " -dim 2 -start " + NatToString(n) + " -end " + NatToString(n), " -o ", output);
  }

  /** Resampling writes over the path it reads. */
  lemma ResampleLineEndsWithInput(path: string)
    ensures EndsWith(Resample(path).Line(), " -o " + path)
  {
    EndsWithTail("sct_resample -i " + path + " -mm 1x1x1 -x nn", " -o ", path);
  }

  /** Reorienting writes over the path it reads. */
  lemma OrientLineEndsWithInput(path: string)
    ensures EndsWith(SetOrientRPI(path).Line(), " -o " + path)
  {
    EndsWithTail("sct_image -i " + path + " -setorient RPI", " -o ", path);
  }

  /** An application line names the file it writes last, under the output
      folder of its image or segmentation. */
  lemma ApplyLineEndsWithOutput(c: Command)
    requires c.ApplyTransforms?
    ensures EndsWith(c.Line(), " --output " + c.OutputPath())
  {
    EndsWithTail("isct_antsApplyTransforms -d 2 -i " + c.input + " -r " + c.reference + " -n NearestNeighbor -t " + c.warp, " --output ", c.OutputPath());
  }

  // ---------------------------------------------------------------------
  // Slice cache (lines 448-469 and 494-514)
  // ---------------------------------------------------------------------

  /** The per-volume cache folder `"Slices_" + file`. */
  function SliceDir(stem: string): string
  {
    "Slices_" + stem
  }

  /** The single-plane crop of the image, before the x-y crop. */
  function SlicePath(stem: string, n: nat): string
  {
    SliceDir(stem) + "/" + stem + "_slice_" + NatToString(n) + ".nii.gz"
  }

  /** The single-plane crop of the segmentation. */
  function SliceSegPath(stem: string, n: nat): string
  {
    SliceDir(stem) + "/" + stem + "_slice_" + NatToString(n) + "_seg.nii.gz"
  }

  /** The cached image slice; its existence is the cache-hit test. The key
      is the file stem and the slice index: it lies in the stem's own cache
      folder, whatever directory the volume came from. */
  function CropPath(stem: string, n: nat): (r: string)
    ensures |r| > |SliceDir(stem)| && r[..|SliceDir(stem)| + 1] == SliceDir(stem) + "/"
    ensures EndsWith(r, "_o0.nii.gz")
  {
    var r := SliceDir(stem) + "/" + stem + "_crop_" + NatToString(n) + "_o0.nii.gz";
    assert r[..|SliceDir(stem)| + 1] == SliceDir(stem) + "/";
    assert r[|r| - 10..] == "_o0.nii.gz";
    r
  }

  /** The cached segmentation slice, in the same folder. */
  function CropSegPath(stem: string, n: nat): (r: string)
    ensures |r| > |SliceDir(stem)| && r[..|SliceDir(stem)| + 1] == SliceDir(stem) + "/"
    ensures EndsWith(r, "_seg_o0.nii.gz")
  {
    var r := SliceDir(stem) + "/" + stem + "_crop_" + NatToString(n) + "_seg_o0.nii.gz";
    assert r[..|SliceDir(stem)| + 1] == SliceDir(stem) + "/";
    assert r[|r| - 14..] == "_seg_o0.nii.gz";
    r
  }

  /** Each slice index of a volume has its own cache entry, and the image
      and segmentation entries never coincide. */
  lemma CropPathsDistinct(stem: string, n: nat, m: nat)
    ensures CropPath(stem, n) != CropSegPath(stem, m)
    ensures n != m ==> CropPath(stem, n) != CropPath(stem, m) && CropSegPath(stem, n) != CropSegPath(stem, m)
  {
    var p := SliceDir(stem) + "/" + stem + "_crop_";
    if n != m {
      NumberedNamesDistinct(p, n, m, "_o0.nii.gz");
      NumberedNamesDistinct(p, n, m, "_seg_o0.nii.gz");
    }
    // Eleven characters from the end, the image name has a digit and the segmentation name the `g` of `_seg`.
    var a, b := CropPath(stem, n), CropSegPath(stem, m);
    assert a == (p + NatToString(n)) + "_o0.nii.gz";
    assert b == (p + NatToString(m)) + "_seg_o0.nii.gz";
    assert a[|a| - 11] == NatToString(n)[|NatToString(n)| - 1];
    assert b[|b| - 11] == 'g';
  }

  /** A volume as the slice workers see it: its paths and the
      `(path, file, ext)` parts `sct.extract_fname` gives for them. */
  datatype SliceSource = SliceSource(path: string, segPath: string, stem: string, ext: string, segStem: string, segExt: string)

  /** The fixed arguments of a slicing stage: the input folder and the
      `crop_x_y` parameters. */
  datatype SliceConfig = SliceConfig(folder: string, cwd: string, sizeX: int, sizeY: int, centerSeg: int)

  /** The commands a cache miss for slice `n` of `v` issues, in order: crop
      the image plane, crop the segmentation plane, then the x-y crop. */
  function MissCommands(v: SliceSource, c: SliceConfig, n: nat): (r: seq<Command>)
    ensures |r| == 3
    ensures r[2].CropXY? && r[2].outIm == c.cwd + "/" + CropPath(v.stem, n) && r[2].outSeg == c.cwd + "/" + CropSegPath(v.stem, n)
    ensures r[0].CropSlice? && r[0].index == n && r[1].CropSlice? && r[1].index == n
  {
    var fnameSlice := c.cwd + "/" + SlicePath(v.stem, n);
    var fnameSliceSeg := c.cwd + "/" + SliceSegPath(v.stem, n);
    [ CropSlice(c.folder + "/" + v.stem + v.ext, n, fnameSlice),
      CropSlice(c.folder + "/" + v.segStem + v.segExt, n, fnameSliceSeg),
      CropXY(fnameSlice, fnameSliceSeg, c.sizeX, c.sizeY, c.cwd + "/" + CropPath(v.stem, n), c.cwd + "/" + CropSegPath(v.stem, n), c.centerSeg) ]
  }

  /** The files a cache miss creates, relative to the working directory. */
  function MissOutputs(stem: string, n: nat): set<string>
  {
    {SlicePath(stem, n), SliceSegPath(stem, n), CropPath(stem, n), CropSegPath(stem, n)}
  }

  /** One cache request: the new set of files and the commands issued. A hit
      (the image crop already exists) changes nothing and issues nothing. */
  function CacheStep(files: set<string>, v: SliceSource, c: SliceConfig, n: nat): (r: (set<string>, seq<Command>))
    ensures files <= r.0
    ensures CropPath(v.stem, n) in r.0
    ensures CropPath(v.stem, n) in files <==> r.1 == []
    ensures CropPath(v.stem, n) in files ==> r.0 == files
    ensures CropPath(v.stem, n) !in files ==> r.0 == files + MissOutputs(v.stem, n) && r.1 == MissCommands(v, c, n)
  {
    if CropPath(v.stem, n) in files then (files, [])
    else (files + MissOutputs(v.stem, n), MissCommands(v, c, n))
  }

  /** A repeated request for the same volume and slice is free: no command,
      no new file. */
  lemma RepeatedRequestIsFree(files: set<string>, v: SliceSource, c: SliceConfig, n: nat)
    ensures CacheStep(CacheStep(files, v, c, n).0, v, c, n) == (CacheStep(files, v, c, n).0, [])
  {
  }

  // ---------------------------------------------------------------------
  // Preprocessing guards (lines 393-401)
  // ---------------------------------------------------------------------

  /** Voxel size in millimetres, as `Image.dim` reports it. */
  datatype Spacing = Spacing(px: real, py: real, pz: real)

  predicate IsIsotropic(s: Spacing)
  {
    s.px == 1.0 && s.py == 1.0 && s.pz == 1.0
  }

  /** The commands `worker_resized_and_crop` issues for an image whose
      spacing and orientation are given: resample both files unless the
      spacing is exactly 1x1x1, then reorient both unless already RPI. */
  function PreprocessCommands(image: string, seg: string, spacing: Spacing, orientation: string): (r: seq<Command>)
    ensures r == [] <==> IsIsotropic(spacing) && orientation == "RPI"
    ensures (Resample(image) in r) == !IsIsotropic(spacing) && (Resample(seg) in r) == !IsIsotropic(spacing)
    ensures (SetOrientRPI(image) in r) == (orientation != "RPI") && (SetOrientRPI(seg) in r) == (orientation != "RPI")
    ensures forall k :: 0 <= k < |r| ==> r[k] in {Resample(image), Resample(seg), SetOrientRPI(image), SetOrientRPI(seg)}
  {
    (if !IsIsotropic(spacing) then [Resample(image), Resample(seg)] else []) +
    (if orientation != "RPI" then [SetOrientRPI(image), SetOrientRPI(seg)] else [])
  }

  // ---------------------------------------------------------------------
  // Registration and warp fields (lines 536-587, 338-340)
  // ---------------------------------------------------------------------

  /** The preview image every registration writes. */
  const WarpedPreview := "t2_output_image_transformed.nii.gz"

  /** The forward warp field the registration for wrap `i` produces. */
  function WarpName(i: nat): string
  {
    NatToString(i) + "0Warp.nii.gz"
  }

  /** The inverse warp field the registration for wrap `i` leaves behind. */
  function InverseWarpName(i: nat): string
  {
    NatToString(i) + "0InverseWarp.nii.gz"
  }

  /** Field names are keyed by wrap position, so distinct wraps never share
      a field, even when their segmentations are the same files. */
  lemma WarpNamesDistinct(i: nat, j: nat)
    requires i != j
    ensures WarpName(i) != WarpName(j)
    ensures InverseWarpName(i) != InverseWarpName(j)
  {
    NumberedSuffixDistinct(i, j, "0Warp.nii.gz");
    NumberedSuffixDistinct(i, j, "0InverseWarp.nii.gz");
  }

  /** The registration of wrap `i`, between `srcSeg` and `destSeg`. */
  function RegisterCommand(srcSeg: string, destSeg: string, i: nat): (r: Command)
    ensures r.Register? && r.prefix + "0Warp.nii.gz" == WarpName(i)
    ensures r.destSeg == destSeg && r.srcSeg == srcSeg
  {
    Register(destSeg, srcSeg, NatToString(i), WarpedPreview)
  }

  /** The registration line of wrap `i` gives the destination segmentation
      as the fixed image and the source segmentation as the moving one, and
      `str(i)` as the output prefix beside the preview image. */
  lemma RegisterLineNames(srcSeg: string, destSeg: string, i: nat)
    ensures Contains(RegisterCommand(srcSeg, destSeg, i).Line(), "--metric MeanSquares[" + destSeg + "," + srcSeg + ", 1] ")
    ensures Contains(RegisterCommand(srcSeg, destSeg, i).Line(), "--output [" + NatToString(i) + "," + WarpedPreview + "] ")
  {
    var a := "isct_antsRegistration --dimensionality 2 --transform BSplineSyN[0.5,1,3] ";
    var m := "--metric MeanSquares[" + destSeg + "," + srcSeg + ", 1] ";
    var b := "--convergence 5x3 --shrink-factors 2x1 --smoothing-sigmas 1x0mm ";
    var o := "--output [" + NatToString(i) + "," + WarpedPreview + "] ";
    var c := "--interpolation BSpline[3] --verbose 0";
    assert RegisterCommand(srcSeg, destSeg, i).Line() == a + m + b + o + c;
    ContainsMiddle(a, m, b);
    ContainsExtend(a + m + b, o, m);
    ContainsExtend(a + m + b + o, c, m);
    ContainsMiddle(a + m + b, o, c);
  }

  /** The files the registration for wrap `i` creates. */
  function RegistrationFiles(i: nat): set<string>
  {
    {WarpName(i), InverseWarpName(i), WarpedPreview}
  }

  /** The first `k` registrations of the serial loop, in order. */
  function RegistrationLog(srcSeg: seq<string>, destSeg: seq<string>, k: nat): (r: seq<Command>)
    requires k <= |srcSeg| && k <= |destSeg|
    ensures |r| == k
    ensures forall i :: 0 <= i < k ==> r[i] == RegisterCommand(srcSeg[i], destSeg[i], i)
  {
    if k == 0 then [] else RegistrationLog(srcSeg, destSeg, k - 1) + [RegisterCommand(srcSeg[k - 1], destSeg[k - 1], k - 1)]
  }

  /** The files the first `k` registrations create. */
  function RegistrationOutputs(k: nat): (r: set<string>)
    ensures forall i :: 0 <= i < k ==> WarpName(i) in r && InverseWarpName(i) in r
    ensures k > 0 ==> WarpedPreview in r
  {
    if k == 0 then {} else RegistrationOutputs(k - 1) + RegistrationFiles(k - 1)
  }

  /** What the cleanup loop at lines 338-340 deletes after `k` iterations. */
  function CleanupTargets(warp: seq<string>, k: nat): set<string>
    requires k <= |warp|
  {
    if k == 0 then {} else CleanupTargets(warp, k - 1) + {warp[k - 1], InverseWarpName(k - 1)}
  }

  /** The paths deleted are exactly the forward field and the inverse field
      of each wrap seen. */
  lemma {:induction false} CleanupTargetsMembers(warp: seq<string>, k: nat)
    requires k <= |warp|
    ensures forall p :: p in CleanupTargets(warp, k) <==> exists i :: 0 <= i < k && (p == warp[i] || p == InverseWarpName(i))
  {
    if k > 0 {
      CleanupTargetsMembers(warp, k - 1);
    }
  }

  /** The `rm -rf` commands of the first `k` cleanup iterations. */
  function CleanupLog(warp: seq<string>, k: nat): (r: seq<Command>)
    requires k <= |warp|
    ensures |r| == 2 * k
  {
    if k == 0 then [] else CleanupLog(warp, k - 1) + [RemoveTree(warp[k - 1]), RemoveTree(InverseWarpName(k - 1))]
  }

  /** Iteration `i` of the cleanup loop removes `warp[i]`, then the inverse
      field of wrap `i`. */
  lemma {:induction false} CleanupLogAt(warp: seq<string>, k: nat, i: nat)
    requires k <= |warp| && i < k
    ensures CleanupLog(warp, k)[2 * i] == RemoveTree(warp[i])
    ensures CleanupLog(warp, k)[2 * i + 1] == RemoveTree(InverseWarpName(i))
  {
    if i < k - 1 {
      CleanupLogAt(warp, k - 1, i);
    }
  }

  /** Cleaning up after the serial registrations leaves no forward or
      inverse field of any wrap behind, and every other file in place. */
  lemma CleanupRemovesEveryField(files: set<string>, nw: nat)
    ensures forall i :: 0 <= i < nw ==>
      WarpName(i) !in files - CleanupTargets(SerialWarpNames(nw), nw) &&
      InverseWarpName(i) !in files - CleanupTargets(SerialWarpNames(nw), nw)
    ensures forall p :: p in files && (forall i :: 0 <= i < nw ==> p != WarpName(i) && p != InverseWarpName(i)) ==>
      p in files - CleanupTargets(SerialWarpNames(nw), nw)
  {
    var warp := SerialWarpNames(nw);
    CleanupTargetsMembers(warp, nw);
  }

  /** The list `warping_field` returns: one forward field per wrap, by position. */
  function SerialWarpNames(nw: nat): (r: seq<string>)
    ensures |r| == nw
    ensures forall i :: 0 <= i < nw ==> r[i] == WarpName(i)
  {
    if nw == 0 then [] else SerialWarpNames(nw - 1) + [WarpName(nw - 1)]
  }

  // ---------------------------------------------------------------------
  // Output names of the field application (lines 598-599, 618-619)
  // ---------------------------------------------------------------------

  /** An output image and its segmentation differ only in `_seg` before the extension. */
  lemma SegSibling(base: string)
    ensures EndsWith(base + ".nii.gz", ".nii.gz")
    ensures (base + ".nii.gz")[..|base|] + "_seg.nii.gz" == base + "_seg.nii.gz"
  {
    assert (base + ".nii.gz")[..|base|] == base;
  }

  /** Serial naming (lines 598-599): `transfo_<src>_<dest>_<slice>` with the
      image ending `.nii.gz` and the segmentation ending `_seg.nii.gz`. */
  function SerialOutputNames(srcFile: string, destFile: string, n: nat): (r: (string, string))
    ensures EndsWith(r.0, ".nii.gz")
    ensures r.1 == r.0[..|r.0| - 7] + "_seg.nii.gz"
    ensures |r.0| > 8 && r.0[..8] == "transfo_"
  {
    var base := "transfo_" + srcFile + "_" + destFile + "_" + NatToString(n);
    SegSibling(base);
    assert ("transfo_" + (srcFile + "_" + destFile + "_" + NatToString(n)))[..8] == "transfo_";
    (base + ".nii.gz", base + "_seg.nii.gz")
  }

  /** The image name (`seg` false) or segmentation name (`seg` true) a recipe spells. */
  function OutputFile(name: OutputName, seg: bool): string
  {
    var names := match name
      case SerialName(srcFile, destFile, n) => SerialOutputNames(srcFile, destFile, n)
      case PooledName(srcFile, nSrc, destFile, nDest, imFile, nIm) => PooledOutputNames(srcFile, nSrc, destFile, nDest, imFile, nIm);
    if seg then names.1 else names.0
  }

  /** Under either recipe the image is a `.nii.gz` file and the
      segmentation its `_seg` sibling. */
  lemma OutputFilesPair(name: OutputName)
    ensures EndsWith(OutputFile(name, false), ".nii.gz")
    ensures OutputFile(name, true) == OutputFile(name, false)[..|OutputFile(name, false)| - 7] + "_seg.nii.gz"
  {
  }

  /** The part of a stem before its first `_crop`; with no `_crop`, Python's
      `s[:-1]` drops the last character. */
  function BeforeCrop(stem: string): (r: string)
    ensures Find(stem, "_crop") >= 0 ==> r == stem[..Find(stem, "_crop")] && !Contains(r, "_crop")
    ensures Find(stem, "_crop") == -1 ==> r == stem[..if stem == [] then 0 else |stem| - 1]
  {
    var p := Find(stem, "_crop");
    if p >= 0 then PrefixBeforeFirst(stem, "_crop"); Head(stem, p) else Head(stem, p)
  }

  /** Pooled naming (lines 618-619): the source, destination and target
      stems cut before `_crop`, each followed by its slice index. */
  function PooledOutputNames(srcFile: string, nSrc: nat, destFile: string, nDest: nat, imFile: string, nIm: nat): (r: (string, string))
    ensures EndsWith(r.0, ".nii.gz")
    ensures r.1 == r.0[..|r.0| - 7] + "_seg.nii.gz"
  {
    var base := BeforeCrop(srcFile) + NatToString(nSrc) + "_" + BeforeCrop(destFile) + NatToString(nDest) + "_" +
                BeforeCrop(imFile) + NatToString(nIm);
    SegSibling(base);
    (base + ".nii.gz", base + "_seg.nii.gz")
  }
}
