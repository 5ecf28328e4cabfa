/** `extract_list_file_from_path` of dev/msct_machine_learning_svm.py: walk
    a folder and pair each image with a segmentation file of the same
    directory. */
module Pairing {
  import opened Builtins

  /** One entry `[[fname_im], [f_seg]]`; `seg` is None while no file matched. */
  datatype Entry = Entry(image: string, seg: Option<string>)

  /** File names skipped outright (line 202). */
  const IgnoreList: seq<string> := [".DS_Store"]

  /** The tests of lines 209-212: not ignored and no `seg` or `gmseg` in the name. */
  predicate IsCandidate(f: string)
  {
    f !in IgnoreList && !(Contains(f, "seg") || Contains(f, "gmseg"))
  }

  /** The `gmseg` test adds nothing: a candidate is any name other than
      `.DS_Store` without `seg` in it. */
  lemma CandidateIsSegFree(f: string)
    ensures IsCandidate(f) <==> f != ".DS_Store" && !Contains(f, "seg")
  {
    if Contains(f, "gmseg") {
      GmsegHasSeg(f);
    }
  }

  /** `fname_im[:-7]`, the image name without its last seven characters
      (`.nii.gz`); empty for names of seven characters or fewer. */
  function Key(f: string): (r: string)
    ensures |f| <= 7 ==> r == ""
    ensures |f| > 7 ==> |r| == |f| - 7
    ensures r == f[..|r|]
  {
    Head(f, -7)
  }

  /** The value of `f_seg` once the inner loop (lines 214-216) has seen
      `files`: the last name containing `key`, or None. */
  function LastMatch(files: seq<string>, key: string): (r: Option<string>)
    ensures r.None? <==> forall i :: 0 <= i < |files| ==> !Contains(files[i], key)
    ensures r.Some? ==> r.value in files && Contains(r.value, key)
    decreases |files|
  {
    if files == [] then None
    else if Contains(files[|files| - 1], key) then Some(files[|files| - 1])
    else LastMatch(files[..|files| - 1], key)
  }

  /** No later name of the listing matches: the match that stays is the last one. */
  lemma {:induction false} LastMatchIsLast(files: seq<string>, key: string)
    requires LastMatch(files, key).Some?
    ensures exists i :: 0 <= i < |files| && files[i] == LastMatch(files, key).value &&
                        (forall j :: i < j < |files| ==> !Contains(files[j], key))
    decreases |files|
  {
    var n := |files| - 1;
    if Contains(files[n], key) {
      assert files[n] == LastMatch(files, key).value;
    } else {
      LastMatchIsLast(files[..n], key);
      var i :| 0 <= i < n && files[..n][i] == LastMatch(files[..n], key).value &&
               (forall j :: i < j < n ==> !Contains(files[..n][j], key));
      assert files[i] == LastMatch(files, key).value;
      assert forall j :: i < j < |files| ==> !Contains(files[j], key) by {
        forall j | i < j < |files| ensures !Contains(files[j], key) {
          if j < n {
            assert files[j] == files[..n][j];
          }
        }
      }
    }
  }

  /** What the middle loop appends for one name `f` of the listing `files`. */
  function EntryFor(files: seq<string>, f: string): seq<Entry>
  {
    if IsCandidate(f) then [Entry(f, LastMatch(files, Key(f)))] else []
  }

  /** The entries of one directory, in listing order. */
  function DirEntries(files: seq<string>): seq<Entry>
  {
    FlatMap((f: string) => EntryFor(files, f), files)
  }

  /** The entries of the whole walk, directory by directory. */
  function PairingOf(walk: seq<seq<string>>): seq<Entry>
  {
    FlatMap(DirEntries, walk)
  }

  /** The entries built from a part `part` of listing `files`: one per
      candidate of the part, in order, each paired within `files`. */
  lemma {:induction false} PartEntries(files: seq<string>, part: seq<string>)
    ensures var r := FlatMap((f: string) => EntryFor(files, f), part);
      forall e :: e in r ==> e.image in part && IsCandidate(e.image) && e.seg == LastMatch(files, Key(e.image))
    ensures var r := FlatMap((f: string) => EntryFor(files, f), part);
      forall f :: f in part && IsCandidate(f) ==> Entry(f, LastMatch(files, Key(f))) in r
    decreases |part|
  {
    if part != [] {
      var init := part[..|part| - 1];
      PartEntries(files, init);
      assert part == init + [part[|part| - 1]];
    }
  }

  /** Every candidate of a directory has an entry, every entry is a
      candidate of that directory, and its partner is a file of that
      directory. The partner is never None: the image contains its own key. */
  lemma DirEntriesFacts(files: seq<string>)
    ensures forall e :: e in DirEntries(files) ==>
      e.image in files && IsCandidate(e.image) && e.seg == LastMatch(files, Key(e.image)) &&
      e.seg.Some? && e.seg.value in files
    ensures forall f :: f in files && IsCandidate(f) ==> Entry(f, LastMatch(files, Key(f))) in DirEntries(files)
  {
    PartEntries(files, files);
    forall e | e in DirEntries(files)
      ensures e.seg.Some?
    {
      var k := Key(e.image);
      ContainsOwnPrefix(e.image, |k|);
      var i :| 0 <= i < |files| && files[i] == e.image;
      assert Contains(files[i], k);
    }
  }

  /** Over the whole walk: no entry is `.DS_Store` or holds `seg`, every
      entry has a partner, and that partner comes from the entry's own
      directory. An empty walk gives no entries. */
  lemma {:induction false} PairingFacts(walk: seq<seq<string>>)
    ensures walk == [] ==> PairingOf(walk) == []
    ensures forall e :: e in PairingOf(walk) ==>
      e.image != ".DS_Store" && !Contains(e.image, "seg") && e.seg.Some? &&
      exists d :: 0 <= d < |walk| && e.image in walk[d] && e.seg == LastMatch(walk[d], Key(e.image))
    decreases |walk|
  {
    if walk != [] {
      var n := |walk| - 1;
      PairingFacts(walk[..n]);
      DirEntriesFacts(walk[n]);
      forall e | e in PairingOf(walk)
        ensures e.image != ".DS_Store" && !Contains(e.image, "seg") && e.seg.Some? &&
          exists d :: 0 <= d < |walk| && e.image in walk[d] && e.seg == LastMatch(walk[d], Key(e.image))
      {
        CandidateIsSegFree(e.image);
        if e in PairingOf(walk[..n]) {
          var d :| 0 <= d < n && e.image in walk[..n][d] && e.seg == LastMatch(walk[..n][d], Key(e.image));
          assert walk[d] == walk[..n][d];
        } else {
          assert e in DirEntries(walk[n]);
        }
      }
    }
  }

  /** A name of seven characters or fewer has the empty key, which every
      name contains, so its partner is the directory's last file. */
  lemma ShortNamePairsWithLast(files: seq<string>, f: string)
    requires |f| <= 7 && files != []
    ensures LastMatch(files, Key(f)) == Some(files[|files| - 1])
  {
    ContainsEmpty(files[|files| - 1]);
  }

  /** The inner loop of lines 214-216. */
  method FindPartner(files: seq<string>, fnameIm: string) returns (fSeg: Option<string>)
    ensures fSeg == LastMatch(files, Key(fnameIm))
  {
    var key := Head(fnameIm, -7);
    fSeg := None;
    var k := 0;
    while k < |files|
      invariant 0 <= k <= |files|
      invariant fSeg == LastMatch(files[..k], key)
    {
      TakeSnoc(files, k);
      assert files[..k + 1][..k] == files[..k];
      if Contains(files[k], key) {
        fSeg := Some(files[k]);
      }
      k := k + 1;
    }
    assert files[..|files|] == files;
  }

  /** The middle loop of lines 208-217 over one directory's listing. */
  method AppendDirectory(listData: seq<Entry>, files: seq<string>) returns (r: seq<Entry>)
    ensures r == listData + DirEntries(files)
  {
    r := listData;
    var i := 0;
    assert files[..0] == [];
    while i < |files|
      invariant 0 <= i <= |files|
      invariant r == listData + FlatMap((f: string) => EntryFor(files, f), files[..i])
    {
      var fnameIm := files[i];
      TakeSnoc(files, i);
      FlatMapSnoc((f: string) => EntryFor(files, f), files[..i], fnameIm);
      if fnameIm in IgnoreList {
        i := i + 1;
        continue;
      }
      if Contains(fnameIm, "seg") || Contains(fnameIm, "gmseg") {
        i := i + 1;
        continue;
      }
      var fSeg := FindPartner(files, fnameIm);
      r := r + [Entry(fnameIm, fSeg)];
      i := i + 1;
    }
    assert files[..|files|] == files;
  }

  /** `extract_list_file_from_path` (lines 201-219) over the listing `walk`
      that `os.walk` produces, one directory after the other. */
  method ExtractListFileFromPath(walk: seq<seq<string>>) returns (listData: seq<Entry>)
    ensures listData == PairingOf(walk)
  {
    listData := [];
    var d := 0;
    assert walk[..0] == [];
    while d < |walk|
      invariant 0 <= d <= |walk|
      invariant listData == PairingOf(walk[..d])
    {
      TakeSnoc(walk, d);
      FlatMapSnoc(DirEntries, walk[..d], walk[d]);
      listData := AppendDirectory(listData, walk[d]);
      d := d + 1;
    }
    assert walk[..|walk|] == walk;
  }
}
