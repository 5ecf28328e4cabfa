/** The command logs of the two ways scripts/sct_data_augmentationb.py
    applies the warp fields to the target slices: the serial
    `apply_warping_field` (one running counter over all targets) and the
    pooled `worker_apply_warping_field` (one call per wrap, starting at
    `iter * nbre_slice`). */
module Apply {
  import opened Builtins
  import opened Commands

  /** The inputs of the stage. `im`, `imSeg`, `imFiles` and `nbreIm` hold one
      entry per target slice (`nbre_wrap * nbre_slice` of them); the other
      lists hold one entry per wrap. The `...Files` lists are the file parts
      `sct.extract_fname` gives for the matching paths. */
  datatype ApplyArgs = ApplyArgs(
    im: seq<string>, imSeg: seq<string>, imFiles: seq<string>, nbreIm: seq<nat>,
    srcFiles: seq<string>, nbreSrc: seq<nat>,
    dest: seq<string>, destFiles: seq<string>, nbreDest: seq<nat>,
    wrap: seq<string>, out: string, nbreSlice: nat, nbreWrap: nat)

  /** The number of target slices. */
  function Targets(a: ApplyArgs): nat
  {
    a.nbreWrap * a.nbreSlice
  }

  /** Every list is long enough for the indices the loops use. */
  predicate WellSized(a: ApplyArgs)
  {
    |a.im| >= Targets(a) && |a.imSeg| >= Targets(a) && |a.imFiles| >= Targets(a) && |a.nbreIm| >= Targets(a) &&
    |a.srcFiles| >= a.nbreWrap && |a.nbreSrc| >= a.nbreWrap && |a.dest| >= a.nbreWrap &&
    |a.destFiles| >= a.nbreWrap && |a.nbreDest| >= a.nbreWrap && |a.wrap| >= a.nbreWrap
  }

  /** Multiplying by a non-negative factor keeps the order. */
  lemma MulMonotone(s: nat, x: int, y: int)
    ensures x <= y ==> s * x <= s * y
  {
    if x <= y {
      assert s * y == s * x + s * (y - x);
    }
  }

  /** Doubling the block size doubles the product. */
  lemma MulTwice(k: nat, s: nat)
    ensures k * (2 * s) == 2 * (k * s)
  {
  }

  /** The next block starts one block size further on. */
  lemma MulSucc(i: nat, s: nat)
    ensures (i + 1) * s == i * s + s
  {
  }

  /** Target `i * s + k` with `k < s` lies in block `i` of blocks of size `s`. */
  lemma BlockOf(i: nat, s: nat, k: nat)
    requires k < s
    ensures (i * s + k) / s == i
    ensures (i * s + k) % s == k
  {
    var t := i * s + k;
    var q := t / s;
    assert s * q <= t < s * q + s;
    MulMonotone(s, q + 1, i);
    MulMonotone(s, i + 1, q);
    assert q == i;
  }

  /** A target below `n * s` lies in one of the `n` blocks. */
  lemma BlockBelow(t: nat, s: nat, n: nat)
    requires t < n * s
    ensures s > 0 && t / s < n
  {
    assert s != 0;
    var q := t / s;
    assert s * q <= t;
    MulMonotone(s, n, q);
  }

  /** The first target of block `i` and every offset into it stay below `n * s`. */
  lemma BlockInside(i: nat, s: nat, k: nat, n: nat)
    requires i < n && k < s
    ensures i * s + k < n * s
  {
    MulMonotone(s, i + 1, n);
  }

  /** Target `t` is warped by field `t / nbre_slice`: exactly the targets
      `i*nbre_slice .. (i+1)*nbre_slice - 1` belong to wrap `i`. */
  lemma FieldOwnsBlock(s: nat, t: nat, i: nat)
    requires s > 0
    ensures t / s == i <==> i * s <= t < i * s + s
  {
    if i * s <= t < i * s + s {
      BlockOf(i, s, t - i * s);
    }
    if t / s == i {
      assert t == s * (t / s) + t % s;
    }
  }

  /** The two commands the serial loop issues for flat target `t`. */
  function SerialStep(a: ApplyArgs, t: nat): (r: seq<Command>)
    requires WellSized(a) && t < Targets(a)
    ensures |r| == 2 && r[0].ApplyTransforms? && r[1].ApplyTransforms?
  {
    BlockBelow(t, a.nbreSlice, a.nbreWrap);
    var i := t / a.nbreSlice;
    var name := SerialName(a.srcFiles[i], a.destFiles[i], a.nbreIm[t]);
    [ApplyTransforms(a.im[t], a.dest[i], a.wrap[i], a.out, name, false),
     ApplyTransforms(a.imSeg[t], a.dest[i], a.wrap[i], a.out, name, true)]
  }

  /** The log of the first `k` targets of the serial loop. */
  function SerialApplyLog(a: ApplyArgs, k: nat): (r: seq<Command>)
    requires WellSized(a) && k <= Targets(a)
    ensures |r| == 2 * k
  {
    if k == 0 then [] else SerialApplyLog(a, k - 1) + SerialStep(a, k - 1)
  }

  /** Entries `2*t` and `2*t + 1` of the serial log are the two commands for target `t`. */
  lemma {:induction false} SerialApplyLogAt(a: ApplyArgs, k: nat, t: nat)
    requires WellSized(a) && k <= Targets(a) && t < k
    ensures SerialApplyLog(a, k)[2 * t] == SerialStep(a, t)[0]
    ensures SerialApplyLog(a, k)[2 * t + 1] == SerialStep(a, t)[1]
  {
    if t < k - 1 {
      SerialApplyLogAt(a, k - 1, t);
      AppendAtLeft(SerialApplyLog(a, k - 1), SerialStep(a, k - 1), 2 * t);
      AppendAtLeft(SerialApplyLog(a, k - 1), SerialStep(a, k - 1), 2 * t + 1);
    } else {
      AppendAtRight(SerialApplyLog(a, k - 1), SerialStep(a, k - 1), 0);
      AppendAtRight(SerialApplyLog(a, k - 1), SerialStep(a, k - 1), 1);
    }
  }

  /** The two commands pooled worker `iter` issues for its `it`-th target. */
  function PooledStep(a: ApplyArgs, iter: nat, it: nat): (r: seq<Command>)
    requires WellSized(a) && iter < a.nbreWrap && it < a.nbreSlice
    ensures |r| == 2 && r[0].ApplyTransforms? && r[1].ApplyTransforms?
  {
    BlockInside(iter, a.nbreSlice, it, a.nbreWrap);
    var t := iter * a.nbreSlice + it;
    var name := PooledName(a.srcFiles[iter], a.nbreSrc[iter], a.destFiles[iter], a.nbreDest[iter], a.imFiles[t], a.nbreIm[t]);
    [ApplyTransforms(a.im[t], a.dest[iter], a.wrap[iter], a.out, name, false),
     ApplyTransforms(a.imSeg[t], a.dest[iter], a.wrap[iter], a.out, name, true)]
  }

  /** The log of the first `k` targets of pooled worker `iter`. */
  function PooledWorkerLog(a: ApplyArgs, iter: nat, k: nat): (r: seq<Command>)
    requires WellSized(a) && iter < a.nbreWrap && k <= a.nbreSlice
    ensures |r| == 2 * k
  {
    if k == 0 then [] else PooledWorkerLog(a, iter, k - 1) + PooledStep(a, iter, k - 1)
  }

  /** Entries `2*it` and `2*it + 1` of worker `iter`'s log are its two commands for its `it`-th target. */
  lemma {:induction false} PooledWorkerLogAt(a: ApplyArgs, iter: nat, k: nat, it: nat)
    requires WellSized(a) && iter < a.nbreWrap && k <= a.nbreSlice && it < k
    ensures PooledWorkerLog(a, iter, k)[2 * it] == PooledStep(a, iter, it)[0]
    ensures PooledWorkerLog(a, iter, k)[2 * it + 1] == PooledStep(a, iter, it)[1]
  {
    if it < k - 1 {
      PooledWorkerLogAt(a, iter, k - 1, it);
      AppendAtLeft(PooledWorkerLog(a, iter, k - 1), PooledStep(a, iter, k - 1), 2 * it);
      AppendAtLeft(PooledWorkerLog(a, iter, k - 1), PooledStep(a, iter, k - 1), 2 * it + 1);
    } else {
      AppendAtRight(PooledWorkerLog(a, iter, k - 1), PooledStep(a, iter, k - 1), 0);
      AppendAtRight(PooledWorkerLog(a, iter, k - 1), PooledStep(a, iter, k - 1), 1);
    }
  }

  /** The log of pooled worker `i`; empty for an index past the last wrap. */
  function WorkerBlock(a: ApplyArgs, i: nat): seq<Command>
  {
    if WellSized(a) && i < a.nbreWrap then PooledWorkerLog(a, i, a.nbreSlice) else []
  }

  /** The logs of the pooled workers, as a function of the worker index. */
  function Workers(a: ApplyArgs): nat -> seq<Command>
  {
    (i: nat) => WorkerBlock(a, i)
  }

  /** Each pooled worker logs two commands per target of its block. */
  lemma WorkerLogsSized(a: ApplyArgs, k: nat)
    requires WellSized(a) && k <= a.nbreWrap
    ensures forall i :: 0 <= i < k ==> |Tabulate(Workers(a), k)[i]| == 2 * a.nbreSlice
  {
    var f := Workers(a);
    forall i | 0 <= i < k
      ensures |Tabulate(f, k)[i]| == 2 * a.nbreSlice
    {
      TabulateAt(f, k, i);
      assert f(i) == PooledWorkerLog(a, i, a.nbreSlice);
    }
  }

  /** The logs of pooled workers `0 .. k-1`, one after the other: two
      commands for each of the `k * nbreSlice` targets they cover. */
  function PooledApplyLog(a: ApplyArgs, k: nat): (r: seq<Command>)
    requires WellSized(a) && k <= a.nbreWrap
    ensures |r| == 2 * (k * a.nbreSlice)
  {
    WorkerLogsSized(a, k);
    ConcatLength(Tabulate(Workers(a), k), 2 * a.nbreSlice);
    MulTwice(k, a.nbreSlice);
    Concat(Tabulate(Workers(a), k))
  }

  /** Running one more worker appends its log. */
  lemma PooledApplyLogSnoc(a: ApplyArgs, k: nat)
    requires WellSized(a) && k < a.nbreWrap
    ensures PooledApplyLog(a, k + 1) == PooledApplyLog(a, k) + PooledWorkerLog(a, k, a.nbreSlice)
  {
    var f := Workers(a);
    assert Tabulate(f, k + 1) == Tabulate(f, k) + [f(k)];
    ConcatSnoc(Tabulate(f, k), f(k));
    assert f(k) == PooledWorkerLog(a, k, a.nbreSlice);
  }

  /** Where each entry of the run of pooled workers comes from: the
      entries of worker `iter` follow those of the workers before it. */
  lemma PooledApplyLogAt(a: ApplyArgs, iter: nat, j: nat, idx: nat)
    requires WellSized(a) && iter < a.nbreWrap && j < 2 * a.nbreSlice
    requires idx == |PooledApplyLog(a, iter)| + j
    ensures idx < |PooledApplyLog(a, a.nbreWrap)|
    ensures PooledApplyLog(a, a.nbreWrap)[idx] == PooledWorkerLog(a, iter, a.nbreSlice)[j]
  {
    var f := Workers(a);
    TabulateAt(f, a.nbreWrap, iter);
    assert f(iter) == PooledWorkerLog(a, iter, a.nbreSlice);
    ConcatAt(Tabulate(f, a.nbreWrap), iter, j);
  }

  /** What an application command reads: its input, its reference and its field. */
  function Route(c: Command): (string, string, string)
  {
    match c
    case ApplyTransforms(input, reference, warp, _, _, _) => (input, reference, warp)
    case _ => ("", "", "")
  }

  /** The pooled run warps the same targets, against the same references,
      with the same fields and in the same order as the serial loop; only
      the output names differ. */
  lemma PooledMatchesSerial(a: ApplyArgs, t: nat)
    requires WellSized(a) && t < Targets(a)
    ensures |PooledApplyLog(a, a.nbreWrap)| == |SerialApplyLog(a, Targets(a))|
    ensures Route(PooledApplyLog(a, a.nbreWrap)[2 * t]) == Route(SerialApplyLog(a, Targets(a))[2 * t])
    ensures Route(PooledApplyLog(a, a.nbreWrap)[2 * t + 1]) == Route(SerialApplyLog(a, Targets(a))[2 * t + 1])
  {
    var s := a.nbreSlice;
    BlockBelow(t, s, a.nbreWrap);
    var iter, it := t / s, t % s;
    assert t == iter * s + it;
    BlockOf(iter, s, it);
    PooledEntry(a, t, iter, it, 0);
    PooledEntry(a, t, iter, it, 1);
    SerialApplyLogAt(a, Targets(a), t);
    StepsAgree(a, iter, it, t);
  }

  /** Entry `2*t + d` (`d` is 0 or 1) of the pooled run, for
      `t = iter * nbre_slice + it`, is command `d` of worker `iter`'s
      `it`-th step. */
  lemma PooledEntry(a: ApplyArgs, t: nat, iter: nat, it: nat, d: nat)
    requires WellSized(a) && iter < a.nbreWrap && it < a.nbreSlice && t == iter * a.nbreSlice + it && d < 2
    ensures 2 * t + d < |PooledApplyLog(a, a.nbreWrap)|
    ensures PooledApplyLog(a, a.nbreWrap)[2 * t + d] == PooledStep(a, iter, it)[d]
  {
    assert |PooledApplyLog(a, iter)| + 2 * it + d == 2 * t + d;
    PooledApplyLogAt(a, iter, 2 * it + d, 2 * t + d);
    PooledWorkerLogAt(a, iter, a.nbreSlice, it);
  }

  /** Pooled step `(iter, it)` and serial step `iter * nbre_slice + it` read the same files. */
  lemma StepsAgree(a: ApplyArgs, iter: nat, it: nat, t: nat)
    requires WellSized(a) && iter < a.nbreWrap && it < a.nbreSlice && t == iter * a.nbreSlice + it
    ensures t < Targets(a)
    ensures Route(PooledStep(a, iter, it)[0]) == Route(SerialStep(a, t)[0])
    ensures Route(PooledStep(a, iter, it)[1]) == Route(SerialStep(a, t)[1])
  {
    BlockInside(iter, a.nbreSlice, it, a.nbreWrap);
    BlockOf(iter, a.nbreSlice, it);
  }

  /** Serial target `t` reads target `t` and the files of wrap `t / nbre_slice`. */
  lemma SerialStepRoute(a: ApplyArgs, t: nat)
    requires WellSized(a) && t < Targets(a)
    ensures a.nbreSlice > 0 && t / a.nbreSlice < a.nbreWrap
    ensures Route(SerialStep(a, t)[0]) == (a.im[t], a.dest[t / a.nbreSlice], a.wrap[t / a.nbreSlice])
    ensures Route(SerialStep(a, t)[1]) == (a.imSeg[t], a.dest[t / a.nbreSlice], a.wrap[t / a.nbreSlice])
  {
    BlockBelow(t, a.nbreSlice, a.nbreWrap);
  }

  /** The serial names leave the target out: two targets of the same wrap
      cut at the same slice index are written to the same files, the later
      one replacing the earlier. */
  lemma SerialNamesIgnoreTarget(a: ApplyArgs, t1: nat, t2: nat)
    requires WellSized(a) && t1 < Targets(a) && t2 < Targets(a)
    requires a.nbreSlice > 0 && t1 / a.nbreSlice == t2 / a.nbreSlice && a.nbreIm[t1] == a.nbreIm[t2]
    ensures SerialStep(a, t1)[0].OutputPath() == SerialStep(a, t2)[0].OutputPath()
    ensures SerialStep(a, t1)[1].OutputPath() == SerialStep(a, t2)[1].OutputPath()
  {
  }
}
