# Spinal-cord augmentation bookkeeping, directory pairing and test-runner helpers

This project is a verified Dafny model of the bookkeeping logic of three scripts of the
Spinal Cord Toolbox repository.

- `scripts/sct_data_augmentationb.py` generates augmented 2D training samples.
  - It walks a folder of T2 volumes and builds a catalogue that interleaves each image
    with its segmentation.
  - It draws source, destination and target volumes from that catalogue and resamples
    and reorients them to 1x1x1 mm RPI.
  - It cuts one random axial slice per volume, keeping a per-volume cache folder
    `Slices_<file>`.
  - It registers source onto destination segmentations, which gives one warp field per
    wrap, and applies each field to its block of `nbre_slice` target slices.
  - It finishes by deleting the warp fields.
  - The script has a serial mode and a pooled mode. The model follows the code of both,
    including the places where the two differ. Of the pooled slicing stage it has only the
    worker and `worker_result` (see "Left out").
- `dev/msct_machine_learning_svm.py`, `extract_list_file_from_path`: pairs each image of
  each directory with the last file of the same directory that contains the image name
  minus its last seven characters.
- `scripts/sct_testing.py`:
  - the dotted progress-line padding;
  - the list of scripts under test;
  - the choice of which to run;
  - the exit code;
  - the updates to the run's `Param` object.

The files, one module each:

- `Builtins.dfy`: the parts of Python the scripts rely on, each stated once.
  - `str.find` (-1 when absent), `in` on strings and `endswith`.
  - Slicing with negative bounds and `str(n)`.
  - `'.' * n`.
  - `random.randrange` as a function of a raw random number. It is `None` where Python
    raises on an empty range.
  - Generic sequence lemmas.
- `Catalogue.dfy`: the catalogue loop and `random_list`, the random slice index, and the
  index ranges of the all-slices mode.
- `Commands.dfy`: the external commands as a `Command` datatype. `Line()` renders each one
  exactly as the script builds its shell string.
  - This file also builds every file name the script uses: slice cache, warp fields and
    outputs.
  - It states the preprocessing guards, the registration log and the cleanup targets.
- `Apply.dfy`: the command logs of the two field-application loops, and the proof that
  they read the same inputs in the same order.
- `Augmentation.dfy`: class `Workspace`, the working directory of a run.
  - Its state is the set of existing files, the set of directories, the volume headers
    and the append-only command log.
  - Its methods are the stages that change that state, each proved against the
    functions of `Commands` and `Apply`.
- `Pairing.dfy`: `extract_list_file_from_path` as the nested loops of the source, proved
  against the function `PairingOf`.
- `TestRunner.dfy`: the helpers and the `main` logic of `sct_testing.py`, with class
  `Param`.

Modelling choices:

- **External inputs:**
  - Random numbers are raw `nat` draws: `randrange(a, b)` is `a + u % (b - a)`.
  - Image dimensions, spacing and orientation are the `headers` map of the workspace.
  - The plane count after a resample is an input (`resampledNz`).
  - The `(path, file, ext)` parts of `sct.extract_fname` are inputs (`SliceSource`,
    `ApplyArgs`).
- **Directories:** `os.makedirs` guarded by `check_folder_exist` is a union into `dirs`.
- **Python 2 division:** `len(list_data) / 2` is integer division on non-negative values.
  It is written as Dafny's `/`.
- **Python exceptions:**
  - An `IndexError`, `ValueError` or `KeyError` the code can raise on the modelled paths
    becomes an `ok: bool` or `Option` result.
  - Examples: an empty catalogue in `random_list`, a volume of fewer than three planes,
    an image that cannot be opened.

Places where the code does something a reader may not expect, which the model follows:

- **Partner choice:** the pairing loop has no `break`, so the last name that matches wins
  (`Pairing.LastMatchIsLast`).
- **Missing partner:** every image name contains its own key, so the inner loop always
  finds a partner and `f_seg` is never left `None` (`Pairing.DirEntriesFacts`).
- **Output name collisions:** the serial output names leave the target out, so two targets
  of one wrap with the same slice index get the same output paths
  (`Apply.SerialNamesIgnoreTarget`).
- **Cache key:** the slice cache is keyed by file stem, not by the volume's path, so two
  volumes with the same stem in different folders share cache entries (`Commands.CropPath`).
- **Cleanup after a failure:** the error handlers call `sys.exit(2)` before the cleanup
  loop, so warp fields are removed only at the end of a run that reaches it
  (`Augmentation.Workspace.Cleanup`).

## Model

| member | source | states |
|---|---|---|
| Builtins.Find | scripts/sct_data_augmentationb.py:150-151 | `find` returns the first offset where the needle occurs, and -1 exactly when it occurs nowhere |
| Builtins.Head | dev/msct_machine_learning_svm.py:215 | `s[:k]` is the prefix of the length Python's bound normalisation gives, including negative `k` |
| Builtins.RandRange | scripts/sct_data_augmentationb.py:355 | `randrange(start, stop)` yields a value in `[start, stop)`, and fails exactly when the range is empty |
| Builtins.NatToStringInjective | scripts/sct_data_augmentationb.py:541 | distinct wrap or slice numbers print as distinct strings |
| Catalogue.SegName | scripts/sct_data_augmentationb.py:151-153 | the segmentation name holds `_seg` and is four characters longer than the image name |
| Catalogue.SegCutInRange | scripts/sct_data_augmentationb.py:151-152 | for a catalogued image, the cut `find('_t2') + 3` lies in `[2, len]`, including when `_t2` is absent |
| Catalogue.SegNameRoundTrip | scripts/sct_data_augmentationb.py:151-153 | deleting the four characters at `p+3` of the segmentation name gives back the image name, and the segmentation name never passes the image filter |
| Catalogue.ImagesAreFiltered | scripts/sct_data_augmentationb.py:150 | the images kept are exactly the walked names ending `.nii.gz` with no `_seg` |
| Catalogue.CatalogueShape | scripts/sct_data_augmentationb.py:148-155 | the catalogue is twice as long as the image list, with image `k` at `2k` and its segmentation name at `2k+1` |
| Catalogue.CatalogueEntries | scripts/sct_data_augmentationb.py:148-155 | the catalogue has even length, every even position is a walked image and every odd position is the segmentation name of the image before it |
| Catalogue.AppendListing | scripts/sct_data_augmentationb.py:149-155 | the inner loop appends the catalogue entries of one directory's names, in order |
| Catalogue.BuildCatalogue | scripts/sct_data_augmentationb.py:148-155 | the walk yields the catalogue of all names, directory by directory, with the even-length, image and partner facts |
| Catalogue.PairIndex | scripts/sct_data_augmentationb.py:355-357 | a draw picks a pair whose image and segmentation positions are inside the catalogue, and fails exactly when there is no pair |
| Catalogue.RandomList | scripts/sct_data_augmentationb.py:350-361 | both lists have `nw` entries; entry `k` is the folder plus the image or segmentation of the pair draw `k` picks; the call fails exactly when `nw > 0` and the catalogue has no pair |
| Catalogue.SliceIndex | scripts/sct_data_augmentationb.py:451 | a drawn slice index lies in `[1, nz-2]`, and the draw fails exactly when `nz < 3` |
| Catalogue.SliceIndexReachesEvery | scripts/sct_data_augmentationb.py:497 | every slice in `[1, nz-2]` is the result of some draw |
| Catalogue.Range | scripts/sct_data_augmentationb.py:186 | `range(lo, hi)` has `max(0, hi-lo)` elements and element `k` is `lo+k` |
| Catalogue.RangeMembers | scripts/sct_data_augmentationb.py:201 | the values of `range(lo, hi)` are exactly `lo..hi-1`, strictly increasing |
| Catalogue.AllSlicesVisitsEachOnce | scripts/sct_data_augmentationb.py:186 | the all-slices mode visits every slice `1..nz-1` exactly once |
| Catalogue.AllSlicesPairsAsWrittenSkipsLast | scripts/sct_data_augmentationb.py:160 | as written, the last catalogue pair is never walked, and with one pair no pair is |
| Catalogue.AllSlicesPairsCoverCatalogue | scripts/sct_data_augmentationb.py:169 | the corrected range walks every pair `k` with `2k+1` in the catalogue, once each |
| Commands.CropPath | scripts/sct_data_augmentationb.py:452 | the cached image crop lies in the stem's folder `Slices_<stem>/` and ends `_o0.nii.gz` |
| Commands.CropSegPath | scripts/sct_data_augmentationb.py:468 | the cached segmentation crop lies in the same folder and ends `_seg_o0.nii.gz` |
| Commands.CropPathsDistinct | scripts/sct_data_augmentationb.py:467-468 | image and segmentation cache entries never coincide, and distinct slice indices have distinct entries |
| Commands.MissCommands | scripts/sct_data_augmentationb.py:454-465 | a cache miss crops the image plane and the segmentation plane at index `n`, then the x-y crop writes the two cache paths |
| Commands.CacheStep | scripts/sct_data_augmentationb.py:452-469 | a request issues nothing exactly when the image crop exists, and then the file set is unchanged; a miss issues the miss commands and adds exactly the two slices and the two crops; afterwards the crop exists |
| Commands.RepeatedRequestIsFree | scripts/sct_data_augmentationb.py:498-514 | repeating a request for the same volume and slice issues no command and adds no file |
| Commands.PreprocessCommands | scripts/sct_data_augmentationb.py:393-401 | a resample is issued for both files exactly when the spacing is not 1x1x1, and a reorient exactly when the orientation is not RPI; nothing otherwise |
| Commands.WarpNamesDistinct | scripts/sct_data_augmentationb.py:554 | distinct wraps have distinct forward and inverse field names |
| Commands.RegisterCommand | scripts/sct_data_augmentationb.py:543-554 | the registration of wrap `i` compares destination with source segmentation, and its prefix names the field `str(i)+'0Warp.nii.gz'` |
| Commands.RegistrationLog | scripts/sct_data_augmentationb.py:538-553 | the serial loop issues one registration per wrap, in wrap order |
| Commands.RegistrationOutputs | scripts/sct_data_augmentationb.py:540-554 | after `k` registrations the forward and inverse fields of every wrap below `k` exist, together with the preview image |
| Commands.CleanupTargetsMembers | scripts/sct_data_augmentationb.py:338-340 | the deleted paths are exactly `warp[i]` and `str(i)+'0InverseWarp.nii.gz'` for `i` below the wrap count |
| Commands.CleanupLog | scripts/sct_data_augmentationb.py:338-340 | the cleanup loop issues two removals per wrap |
| Commands.CleanupLogAt | scripts/sct_data_augmentationb.py:339-340 | iteration `i` removes `warp[i]`, then the inverse field of wrap `i` |
| Commands.CleanupRemovesEveryField | scripts/sct_data_augmentationb.py:338-340 | after cleanup no forward or inverse field of any wrap remains, and every other file is left in place |
| Commands.SerialWarpNames | scripts/sct_data_augmentationb.py:554 | `warping_field` returns `nw` names, with name `i` being `str(i)+'0Warp.nii.gz'` |
| Commands.SerialOutputNames | scripts/sct_data_augmentationb.py:598-599 | the serial image name starts `transfo_` and ends `.nii.gz`; the segmentation name swaps `.nii.gz` for `_seg.nii.gz` |
| Commands.PooledOutputNames | scripts/sct_data_augmentationb.py:618-619 | the pooled image name ends `.nii.gz`; the segmentation name swaps `.nii.gz` for `_seg.nii.gz` |
| Commands.OutputFilesPair | scripts/sct_data_augmentationb.py:598-619 | under either naming the segmentation output is the `_seg` sibling of the image output |
| Commands.CropLineEndsWithOutput | scripts/sct_data_augmentationb.py:457-458 | a crop line ends with ` -o ` and the slice file it writes |
| Commands.ResampleLineEndsWithInput | scripts/sct_data_augmentationb.py:395-396 | a resample line ends with ` -o ` and the path it reads, so the file is rewritten in place |
| Commands.OrientLineEndsWithInput | scripts/sct_data_augmentationb.py:400-401 | a reorient line ends with ` -o ` and the path it reads, so the file is rewritten in place |
| Commands.ApplyLineEndsWithOutput | scripts/sct_data_augmentationb.py:601-602 | an application line ends with ` --output `, the output folder and the image or segmentation name |
| Commands.RegisterLineNames | scripts/sct_data_augmentationb.py:543-552 | the registration line of wrap `i` holds `--metric MeanSquares[` with the destination segmentation before the source one, and `--output [str(i),<preview>] ` |
| Commands.BeforeCrop | scripts/sct_data_augmentationb.py:612-618 | the stem is cut before its first `_crop`, leaving no `_crop`; with no `_crop`, `find` gives -1 and the cut drops the last character |
| Apply.FieldOwnsBlock | scripts/sct_data_augmentationb.py:324 | target `t` belongs to wrap `t / nbre_slice` exactly when it lies in `i*S .. i*S+S-1` |
| Apply.SerialStep | scripts/sct_data_augmentationb.py:598-602 | each serial target issues two field applications |
| Apply.SerialApplyLog | scripts/sct_data_augmentationb.py:593-603 | the serial loop issues two commands per target |
| Apply.SerialApplyLogAt | scripts/sct_data_augmentationb.py:601-602 | entries `2t` and `2t+1` of the serial log are the image and segmentation commands for target `t` |
| Apply.SerialStepRoute | scripts/sct_data_augmentationb.py:601-602 | serial target `t` warps `im[t]` or `im_seg[t]` onto `dest[t/S]` with field `wrap[t/S]` |
| Apply.SerialNamesIgnoreTarget | scripts/sct_data_augmentationb.py:598-599 | two targets of one wrap with the same slice index get the same serial output paths |
| Apply.PooledStep | scripts/sct_data_augmentationb.py:616-622 | each pooled target issues two field applications |
| Apply.PooledWorkerLog | scripts/sct_data_augmentationb.py:615-622 | a pooled worker issues two commands per target of its block |
| Apply.PooledWorkerLogAt | scripts/sct_data_augmentationb.py:621-622 | entries `2it` and `2it+1` of a worker's log are its commands for its `it`-th target |
| Apply.PooledApplyLogSnoc | scripts/sct_data_augmentationb.py:324-327 | running one more worker appends exactly its log |
| Apply.PooledApplyLog | scripts/sct_data_augmentationb.py:324-327 | the workers' logs, concatenated in wrap order, hold `2*W*S` commands |
| Apply.PooledApplyLogAt | scripts/sct_data_augmentationb.py:324 | worker `iter`'s entries follow those of all workers before it |
| Apply.PooledEntry | scripts/sct_data_augmentationb.py:324 | entry `2t+d` of the pooled run, for `t = iter*S+it`, is command `d` of worker `iter`'s `it`-th step |
| Apply.StepsAgree | scripts/sct_data_augmentationb.py:616-622 | pooled step `(iter, it)` reads the same input, reference and field as serial target `iter*S+it` |
| Apply.PooledMatchesSerial | scripts/sct_data_augmentationb.py:592-622 | the pooled and serial runs have the same length, and agree entry by entry on input, reference and field |
| Augmentation.Normalised | scripts/sct_data_augmentationb.py:393-401 | after preprocessing a volume is 1x1x1 mm and RPI, and keeps its planes when no resample was needed |
| Augmentation.PreprocessIdempotent | scripts/sct_data_augmentationb.py:394-401 | preprocessing an already normalised volume issues no command |
| Augmentation.PreprocessStep | scripts/sct_data_augmentationb.py:388-406 | it fails, changing nothing, exactly when the image cannot be opened; otherwise only that image's header changes, to 1x1x1 mm and RPI, files and folders are kept, and the guarded commands are appended to the log |
| Augmentation.PreprocessRun | scripts/sct_data_augmentationb.py:252-260 | the serial loop succeeds exactly when every image can be opened; files, folders and header keys are kept, a volume not in the list keeps its header, and on success every listed image is 1x1x1 mm and RPI |
| Augmentation.PreprocessRunFixpoint | scripts/sct_data_augmentationb.py:252-260 | over volumes that are all 1x1x1 mm and RPI the loop changes nothing and issues nothing |
| Augmentation.PreprocessRunIdempotent | scripts/sct_data_augmentationb.py:252-260 | a second run over the same list succeeds and leaves the state the first run left |
| Augmentation.Reoriented | scripts/sct_data_augmentationb.py:487-491 | the volume ends RPI with its planes and spacing kept; nothing changes when it was RPI, otherwise both reorient commands are logged; files, folders and other headers are kept |
| Augmentation.WorkerSliceStep | scripts/sct_data_augmentationb.py:439-474 | the cache folder is always made; it fails exactly on a missing image or fewer than three planes, and then nothing else changes; otherwise files and log follow one cache step for the drawn slice |
| Augmentation.SliceStep | scripts/sct_data_augmentationb.py:484-515 | it fails exactly when the volume is missing or shallower than three planes, and a missing volume changes nothing; files and folders only grow, planes and spacing are kept and RPI stays RPI; on success the drawn crop is cached, its folder exists and the volume is RPI |
| Augmentation.SliceStepIdempotent | scripts/sct_data_augmentationb.py:486-515 | slicing the same volume again with the same draw changes nothing |
| Augmentation.RandomSliceRunFrame | scripts/sct_data_augmentationb.py:479-520 | the serial loop only adds files and folders, keeps header keys, planes and spacing, and keeps RPI headers RPI |
| Augmentation.RandomSliceRunFails | scripts/sct_data_augmentationb.py:479-520 | the loop fails exactly when some volume is missing or has fewer than three planes |
| Augmentation.RandomSliceRunDraws | scripts/sct_data_augmentationb.py:479-520 | when every volume is usable the loop succeeds with one index per volume, index `i` being volume `i`'s draw |
| Augmentation.RandomSliceRunCaches | scripts/sct_data_augmentationb.py:498-515 | on success the drawn crop of every volume is cached, its folder exists and the volume is RPI |
| Augmentation.RandomSliceRunSpec | scripts/sct_data_augmentationb.py:479-520 | the frame, the failure cases and, on success, the drawn index, cached crop, folder and orientation of every volume, together |
| Augmentation.Workspace.ResizeAndCrop | scripts/sct_data_augmentationb.py:388-406 | the new state is exactly `PreprocessStep`'s: it fails exactly on an unreadable image, changing nothing; otherwise it logs the guarded commands and normalises that image's header only |
| Augmentation.Workspace.PreprocessAll | scripts/sct_data_augmentationb.py:252-260 | the new state, log included, is exactly `PreprocessRun`'s; it succeeds exactly when every image is readable, a volume not in the list keeps its header, and on success every listed image is 1x1x1 mm and RPI |
| Augmentation.Workspace.WorkerRandomSlice | scripts/sct_data_augmentationb.py:439-474 | the new state is exactly `WorkerSliceStep`'s: the cache folder is made; on success the slice is the draw in `[1, nz-2]`, the two crop paths are returned, and files and log follow one cache step |
| Augmentation.Workspace.Reorient | scripts/sct_data_augmentationb.py:487-491 | the new state is exactly `Reoriented`'s: a readable volume ends RPI, with both reorient commands logged exactly when it was not |
| Augmentation.Workspace.SliceOne | scripts/sct_data_augmentationb.py:484-515 | the new state is exactly `SliceStep`'s: a missing volume changes nothing, otherwise the reorientation and one cache step; a success returns the drawn index and the crop paths of that slice |
| Augmentation.Workspace.SliceEach | scripts/sct_data_augmentationb.py:486-518 | the loop leaves the state `RandomSliceRun` gives and collects its indices, each returned name being the crop of the index beside it |
| Augmentation.Workspace.RandomSlice | scripts/sct_data_augmentationb.py:479-520 | the new state, log included, is exactly `RandomSliceRun`'s, the `SliceStep` of each volume in turn; it succeeds exactly when all volumes are usable; then list `i` holds volume `i`'s drawn slice and crop paths, every crop is cached and every volume is RPI; no file is lost |
| Augmentation.Workspace.WorkerWarpingField | scripts/sct_data_augmentationb.py:560-578 | one registration is logged, its fields exist, and the forward field name for wrap `i` is returned |
| Augmentation.Workspace.WarpingField | scripts/sct_data_augmentationb.py:536-555 | the serial loop returns the wrap-indexed field names and logs the registrations in order |
| Augmentation.Workspace.PooledWarpingField | scripts/sct_data_augmentationb.py:300-307 | the pooled stage yields the same names, log and files as the serial loop |
| Augmentation.Workspace.ApplyOne | scripts/sct_data_augmentationb.py:598-603 | one pass logs the serial step for target `j` |
| Augmentation.Workspace.ApplyWrap | scripts/sct_data_augmentationb.py:596-603 | the slice loop of wrap `i` moves the counter from `i*S` to `i*S+S`, logging those targets |
| Augmentation.Workspace.ApplyWarpingField | scripts/sct_data_augmentationb.py:592-603 | the serial stage logs the steps for targets `0..W*S-1` in order and touches no file set |
| Augmentation.Workspace.PooledApplyOne | scripts/sct_data_augmentationb.py:616-622 | one pass logs pooled step `(iter, it)` |
| Augmentation.Workspace.WorkerApplyWarpingField | scripts/sct_data_augmentationb.py:608-622 | worker `iter` logs its block of targets starting at `iter*S` |
| Augmentation.Workspace.PooledApplyWarpingField | scripts/sct_data_augmentationb.py:324-329 | the pooled stage logs the workers' logs for wraps `0..W-1` in order |
| Augmentation.Workspace.RemoveFields | scripts/sct_data_augmentationb.py:339-340 | one pass removes a wrap's forward and inverse fields |
| Augmentation.Workspace.Cleanup | scripts/sct_data_augmentationb.py:338-340 | the loop logs the cleanup removals and deletes exactly the cleanup targets from the file set |
| Augmentation.WorkerResult | scripts/sct_data_augmentationb.py:525-531 | the three lists have the input's length, and zipping them position by position gives back the input triples |
| Augmentation.WorkerWarpingResult | scripts/sct_data_augmentationb.py:583-587 | the results are copied unchanged and in order |
| Augmentation.PreviewSurvivesCleanup | scripts/sct_data_augmentationb.py:540 | the registration preview image is not among the files the cleanup deletes |
| Augmentation.SerialPreprocessArgsAsWritten | scripts/sct_data_augmentationb.py:252-260 | as written, each wrap preprocesses its source twice, then each target once |
| Augmentation.DestinationSkippedAsWritten | scripts/sct_data_augmentationb.py:256 | with one wrap, source `a`, destination `b`, target `c`, no call preprocesses `b` |
| Augmentation.SerialPreprocessArgs | scripts/sct_data_augmentationb.py:243-245 | the corrected serial calls preprocess source `i`, destination `i`, then each target |
| Augmentation.SerialPreprocessCoversAll | scripts/sct_data_augmentationb.py:243-250 | the corrected calls cover every source, destination and target pair, and nothing else |
| Pairing.CandidateIsSegFree | dev/msct_machine_learning_svm.py:209-212 | a candidate is exactly a name other than `.DS_Store` without `seg`, so the `gmseg` test adds nothing |
| Pairing.Key | dev/msct_machine_learning_svm.py:215 | `fname_im[:-7]` is the name minus its last seven characters, and empty for short names |
| Pairing.LastMatch | dev/msct_machine_learning_svm.py:213-216 | `f_seg` is None exactly when no name contains the key; otherwise it is a listed name containing it |
| Pairing.LastMatchIsLast | dev/msct_machine_learning_svm.py:214-216 | no later name of the listing contains the key |
| Pairing.ShortNamePairsWithLast | dev/msct_machine_learning_svm.py:215 | a name of at most seven characters is paired with the directory's last file |
| Pairing.PartEntries | dev/msct_machine_learning_svm.py:208-217 | the entries of a part of a listing are its candidates, each paired within the whole listing |
| Pairing.DirEntriesFacts | dev/msct_machine_learning_svm.py:207-217 | each directory gives one entry per candidate and no other, and every partner is a file of that directory, never None |
| Pairing.PairingFacts | dev/msct_machine_learning_svm.py:206-219 | over the walk, no entry is `.DS_Store` or holds `seg`, every entry has a partner from its own directory, and an empty walk gives `[]` |
| Pairing.FindPartner | dev/msct_machine_learning_svm.py:213-216 | the inner loop leaves `f_seg` at the last match of the key |
| Pairing.AppendDirectory | dev/msct_machine_learning_svm.py:208-217 | the middle loop appends the entries of one directory, in listing order |
| Pairing.ExtractListFileFromPath | dev/msct_machine_learning_svm.py:201-219 | the walk yields the entries of each directory in turn |
| TestRunner.MakeDotLines | scripts/sct_testing.py:191-196 | a name shorter than 52 gets exactly `52-len` dots, and a longer one gets `''` |
| TestRunner.PrintLine | scripts/sct_testing.py:183-186 | the written text is the name followed by dots, of length `max(52, len)` |
| TestRunner.FillFunctions | scripts/sct_testing.py:140-178 | 31 scripts are listed, with no repeats |
| TestRunner.Param.constructor | scripts/sct_testing.py:50-62 | a new `Param` holds the defaults of `__init__` |
| TestRunner.Param.ApplyArguments | scripts/sct_testing.py:75-82 | each given option replaces its setting, and every other setting is kept |
| TestRunner.Selected | scripts/sct_testing.py:105-111 | with a requested name only entries equal to it are run, some exactly when it is listed; without one, every script in order |
| TestRunner.SelectedCount | scripts/sct_testing.py:109 | a requested name is run as often as it is listed |
| TestRunner.SelectedFromDistinct | scripts/sct_testing.py:109 | from a list without repeats, a requested name is run once when listed, otherwise not at all |
| TestRunner.SelectedRunAtMostOne | scripts/sct_testing.py:109 | with the tested list, a selected run gives at most one status |
| TestRunner.Statuses | scripts/sct_testing.py:109-111 | one status per selected script, in order |
| TestRunner.SumZero | scripts/sct_testing.py:124 | non-negative statuses sum to 0 exactly when all are 0 |
| TestRunner.ExitCode | scripts/sct_testing.py:123-128 | the exit code is 0 exactly when the statuses sum to 0, and 1 otherwise |

## Left out

- **Process pool:** `multiprocessing.Pool`, `map_async`, `terminate`, and the `KeyboardInterrupt` and `sys.exit(2)` handlers are concurrency. The pooled stages are modelled as their workers run one after the other, with results in submission order.
- **Missing barrier after pooled preprocessing (lines 246-251):** the code calls `pool.close()` without `join()`, so the slicing pool can start on volumes that are not yet resampled. Running the workers one after the other hides this race.
- **Pooled slice stage (lines 270-288):** no member composes it. Only its worker `worker_random_slice` (`Workspace.WorkerRandomSlice`) and `worker_result` (`WorkerResult`) are modelled. Unlike the serial `random_slice`, that worker does not reorient the volume.
- **`sct.run`:** every command succeeds, and its output and `printv` are not modelled. A failing external tool, and the `sys.exit` it causes, is outside the model.
- **`crop_x_y`, `Image(...)`, `get_orientation_3d`, `sct.extract_fname`, `check_folder_exist`:** these are foreign code. Their results are inputs (headers as read before any resampling or reorientation; see the `Augmentation.Reoriented` line below), `SliceSource` and `ApplyArgs` file parts, and a set union for `makedirs`.
- **`crop_segmentation` (lines 366-383):** its only call is commented out (line 402), and it uses float arithmetic.
- **All-slices mode (lines 159-202):** only its index ranges are modelled. The volumes it slices through `worker_slice_and_crop` are not.
- **Serial all-slices branch (lines 166-167):** its `TypeError` (`len(list_data/2)` on a list) and stale `iter` are not modelled, because that branch cannot run.
- **`-i`, `-d` and `-t` overrides (lines 212-232):** they index empty lists and raise, so the model takes the lists `random_list` builds.
- **`main` of the augmentation script:** the whole function, the sequence of stages from lines 117 to 345, is not one member. Each stage is a `Workspace` method.
- **CLI, timing and printing:** argument parsing, timing, elapsed-time printing and `os.makedirs` of the output folder are I/O.
- **Registration parameters:** the fixed strings are kept verbatim in `Line()`. Beyond the metric and output arguments that `Commands.RegisterLineNames` states, no property is stated about them.
- Augmentation.Workspace.ApplyWarpingField: does not add the output files to `files`. The outputs are named only in the log, through the `OutputName` recipe that `OutputFile` renders, because the external tool writes them.
- Augmentation.Workspace.PooledApplyWarpingField: does not add the output files to `files`, for the same reason.
- Augmentation.Workspace.ResizeAndCrop: the resample is modelled as keeping the orientation code, and its new plane count is an input. It does not model the image data.
- Augmentation.Reoriented: `sct_image -setorient RPI` is modelled as changing only the orientation code. The plane count and the spacing are assumed to survive, although a reorientation permutes the image axes. `Workspace.Reorient` makes the same assumption. As a result, `random_slice`, which re-reads `Image(...).dim` after reorienting (lines 489-497), is modelled with the depth from before the reorientation. This affects `SliceStep`, `RandomSliceRunFails`, `RandomSliceRunDraws` and `Workspace.RandomSlice`: for a volume that was not RPI, the `nz < 3` failure and the slice range `[1, nz-2]` are measured on that earlier depth.
- Augmentation.Normalised: "keeps its planes when no resample was needed" rests on the same assumption. The reorientation at lines 399-401 follows the `dim` read at line 393, and the model keeps that plane count through it. `Workspace.ResizeAndCrop` and `PreprocessStep` inherit this.
- Augmentation.Workspace.WorkerRandomSlice: the cache-hit test uses the relative crop path, as the code does. The crop contents written by `crop_x_y` are not modelled.
- **Spacing test:** `px == 1 and py == 1 and pz == 1` is a float comparison, modelled as an exact comparison of reals.
- **`test_function`:** it loads modules dynamically and writes DataFrames, logs and redirected output. The model takes its outcome per name as an input function.
- TestRunner.Statuses: the integer status per script follows the commented-out `test_function(function_to_test)` (lines 245-281). The live `test_function` (lines 286-386) takes a parameter object and returns it, so the calls at lines 109 and 111, which pass a name, and the `sum` at line 124 fail as written. Line 420, `param = param()`, raises `NameError` before `main` runs. The error message for a requested name that is not listed (lines 106-107) is not modelled.
- **Other `sct_testing.py` code:** `downloaddata`, `write_to_log_file`, the `abspath`, `tmp_create` and `chdir` steps of `main`, and the removal of the temporary folder are I/O.
- TestRunner.Param.ApplyArguments: `-d` and `-r` arrive already converted by `int`, so a non-numeric value, which raises in Python, is outside the model.
- **Rest of `dev/msct_machine_learning_svm.py`:** the classifier, feature and hyper-parameter classes and the script code wrap libraries, and are not part of this model.
- **Directory walk:** `os.walk` order is the input `walk`, one listing per directory.
- **install/copy_ants_binaries.py:** an installer that copies files. It is not part of this model.

## Findings

| source | as written | input that shows it | evidently intended | confidence | as-written member | corrected member |
|---|---|---|---|---|---|---|
| scripts/sct_data_augmentationb.py:256 | the serial branch builds the destination call from `fname_src[iter]`, `fname_src_seg[iter]` | one wrap with source `a`, destination `b`, target `c`: the calls are `a, a, c`, and `b` is never preprocessed | `(fname_dest[iter], fname_dest_seg[iter], v)`, as in the pooled branch (line 244) | not executed | Augmentation.DestinationSkippedAsWritten | Augmentation.SerialPreprocessCoversAll |
| scripts/sct_data_augmentationb.py:160 | the all-slices mode walks `range(0, len(list_data) / 2 - 1)` (also line 169) | a catalogue of one pair walks no pair; with `p` pairs, pair `p-1` is never sliced | `range(0, len(list_data) / 2)`, every pair | not executed | Catalogue.AllSlicesPairsAsWrittenSkipsLast | Catalogue.AllSlicesPairsCoverCatalogue |
