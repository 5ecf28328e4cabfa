/** The pieces of Python's string, slicing and random-number behaviour that the
    augmentation, pairing and test-runner scripts depend on, stated once. */
module Builtins {

  datatype Option<T> = None | Some(value: T)

  /** `needle` occurs in `s` at offset `i`. */
  predicate OccursAt(s: string, needle: string, i: int)
  {
    0 <= i && i + |needle| <= |s| && s[i..i + |needle|] == needle
  }

  /** `s.find(needle, i)`: the first offset at or after `i` where `needle`
      occurs, or -1. An empty needle is found at `i` itself. */
  function FindFrom(s: string, needle: string, i: nat): (r: int)
    requires i <= |s|
    decreases |s| - i
    ensures r == -1 || (i <= r && OccursAt(s, needle, r))
    ensures r == -1 ==> forall k :: i <= k <= |s| ==> !OccursAt(s, needle, k)
    ensures r != -1 ==> forall k :: i <= k < r ==> !OccursAt(s, needle, k)
  {
    if OccursAt(s, needle, i) then i
    else if i == |s| then -1
    else FindFrom(s, needle, i + 1)
  }

  /** `s.find(needle)`: the first occurrence, or -1 when there is none. */
  function Find(s: string, needle: string): (r: int)
    ensures -1 <= r <= |s|
    ensures r >= 0 <==> exists k :: OccursAt(s, needle, k)
    ensures r >= 0 ==> OccursAt(s, needle, r)
    ensures forall k :: 0 <= k < r ==> !OccursAt(s, needle, k)
  {
    FindFrom(s, needle, 0)
  }

  /** Python's `needle in s` on strings. */
  predicate Contains(s: string, needle: string)
  {
    Find(s, needle) >= 0
  }

  /** Python's `s.endswith(suffix)`. */
  predicate EndsWith(s: string, suffix: string)
  {
    |suffix| <= |s| && s[|s| - |suffix|..] == suffix
  }

  /** A line built as `x + y + z` ends with `y + z`. */
  lemma EndsWithTail(x: string, y: string, z: string)
    ensures EndsWith(x + y + z, y + z)
  {
    assert (x + y + z)[|x|..] == y + z;
  }

  /** A piece placed between two others occurs in the whole. */
  lemma ContainsMiddle(a: string, m: string, b: string)
    ensures Contains(a + m + b, m)
  {
    assert (a + m + b)[|a|..|a| + |m|] == m;
    assert OccursAt(a + m + b, m, |a|);
  }

  /** Appending to a string keeps every occurrence it already had. */
  lemma ContainsExtend(s: string, t: string, m: string)
    requires Contains(s, m)
    ensures Contains(s + t, m)
  {
    var k := Find(s, m);
    assert (s + t)[k..k + |m|] == s[k..k + |m|];
    assert OccursAt(s + t, m, k);
  }

  /** The part of `s` before the first occurrence of `needle` holds no occurrence of it. */
  lemma PrefixBeforeFirst(s: string, needle: string)
    requires needle != [] && Find(s, needle) >= 0
    ensures !Contains(s[..Find(s, needle)], needle)
  {
    var p := Find(s, needle);
    var r := s[..p];
    forall k | OccursAt(r, needle, k)
      ensures false
    {
      assert s[k..k + |needle|] == r[k..k + |needle|];
      assert OccursAt(s, needle, k) && k < p;
    }
  }

  /** Every prefix of a string occurs in it (at offset 0). */
  lemma ContainsOwnPrefix(s: string, k: nat)
    requires k <= |s|
    ensures Contains(s, s[..k])
  {
    assert OccursAt(s, s[..k], 0);
  }

  /** Any string contains the empty string (Python: `'' in s`). */
  lemma ContainsEmpty(s: string)
    ensures Contains(s, "")
  {
    assert OccursAt(s, "", 0);
  }

  /** A string holding `gmseg` holds `seg`. */
  lemma GmsegHasSeg(s: string)
    requires Contains(s, "gmseg")
    ensures Contains(s, "seg")
  {
    var r := Find(s, "gmseg");
    assert s[r..r + 5] == "gmseg";
    assert s[r + 2..r + 5] == s[r..r + 5][2..5];
    assert OccursAt(s, "seg", r + 2);
  }

  /** Python's normalisation of a slice bound `k` on a sequence of length `n`:
      negative bounds count from the end, and the result is clamped to [0, n]. */
  function SliceBound(n: nat, k: int): (r: nat)
    ensures r <= n
    ensures 0 <= k <= n ==> r == k
    ensures k > n ==> r == n
    ensures k < 0 && n + k >= 0 ==> r == n + k
    ensures n + k < 0 ==> r == 0
  {
    if k < 0 then (if n + k < 0 then 0 else n + k)
    else if k > n then n
    else k
  }

  /** Python's `s[:k]`. */
  function Head(s: string, k: int): (r: string)
    ensures |r| == SliceBound(|s|, k)
    ensures r == s[..|r|]
  {
    s[..SliceBound(|s|, k)]
  }

  /** Python's `s[k:]`. */
  function Tail(s: string, k: int): (r: string)
    ensures |r| == |s| - SliceBound(|s|, k)
    ensures r == s[|s| - |r|..]
  {
    s[SliceBound(|s|, k)..]
  }

  /** Cutting a string anywhere and gluing the two halves back together gives the string. */
  lemma HeadTail(s: string, k: int)
    ensures Head(s, k) + Tail(s, k) == s
  {
  }

  function DigitChar(d: nat): (c: char)
    requires d < 10
    ensures '0' <= c <= '9'
  {
    ('0' as int + d) as char
  }

  /** Python's `str(n)` for a non-negative integer: its decimal digits, no leading zeros. */
  function NatToString(n: nat): (r: string)
    ensures 1 <= |r|
    ensures forall i :: 0 <= i < |r| ==> '0' <= r[i] <= '9'
    ensures n < 10 <==> |r| == 1
    decreases n
  {
    if n < 10 then [DigitChar(n)] else NatToString(n / 10) + [DigitChar(n % 10)]
  }

  /** Distinct numbers print differently. */
  lemma {:induction false} NatToStringInjective(a: nat, b: nat)
    requires NatToString(a) == NatToString(b)
    ensures a == b
    decreases a
  {
    var ra, rb := NatToString(a), NatToString(b);
    if a >= 10 && b >= 10 {
      assert ra[..|ra| - 1] == NatToString(a / 10);
      assert rb[..|rb| - 1] == NatToString(b / 10);
      NatToStringInjective(a / 10, b / 10);
      assert ra[|ra| - 1] == DigitChar(a % 10);
      assert rb[|rb| - 1] == DigitChar(b % 10);
    } else {
      assert ra[0] == DigitChar(a) && rb[0] == DigitChar(b);
    }
  }

  /** A common prefix and suffix can be struck from both sides of an equation. */
  lemma CancelAround(p: string, a: string, b: string, x: string)
    requires p + a + x == p + b + x
    ensures a == b
  {
    var l := p + a + x;
    assert |a| == |b|;
    assert a == l[|p|..|p| + |a|];
    assert b == (p + b + x)[|p|..|p| + |b|];
  }

  /** `str(a) + x == str(b) + x` only when a == b. */
  lemma NumberedNamesDistinct(p: string, a: nat, b: nat, x: string)
    requires a != b
    ensures p + NatToString(a) + x != p + NatToString(b) + x
  {
    if p + NatToString(a) + x == p + NatToString(b) + x {
      CancelAround(p, NatToString(a), NatToString(b), x);
      NatToStringInjective(a, b);
    }
  }

  /** `str(a) + x == str(b) + x` only when a == b, with nothing in front. */
  lemma NumberedSuffixDistinct(a: nat, b: nat, x: string)
    requires a != b
    ensures NatToString(a) + x != NatToString(b) + x
  {
    var sa, sb := NatToString(a), NatToString(b);
    if sa + x == sb + x {
      assert sa == (sa + x)[..|sa|];
      assert sb == (sb + x)[..|sb|];
      NatToStringInjective(a, b);
    }
  }

  /** Python's `c * n` for a one-character string `c`: n copies, none when n <= 0. */
  function Repeat(c: char, n: int): (r: string)
    ensures |r| == if n <= 0 then 0 else n
    ensures forall i :: 0 <= i < |r| ==> r[i] == c
    decreases n
  {
    if n <= 0 then "" else [c] + Repeat(c, n - 1)
  }

  /** `random.randrange(start, stop)` driven by the raw random number `u`: a
      value of [start, stop), or None where Python raises ValueError because
      the range is empty. */
  function RandRange(start: int, stop: int, u: nat): (r: Option<int>)
    ensures r.Some? <==> start < stop
    ensures r.Some? ==> start <= r.value < stop
  {
    if start < stop then Some(start + u % (stop - start)) else None
  }

  /** Every value of a non-empty range is drawn by some raw random number. */
  lemma RandRangeCovers(start: int, stop: int, v: int)
    requires start <= v < stop
    ensures RandRange(start, stop, v - start) == Some(v)
  {
  }

  /** The list a loop builds by appending `f(x)` for each `x` of `s`, in order. */
  function FlatMap<T, U>(f: T -> seq<U>, s: seq<T>): (r: seq<U>)
    decreases |s|
  {
    if s == [] then [] else FlatMap(f, s[..|s| - 1]) + f(s[|s| - 1])
  }

  /** One more step of such a loop. */
  lemma FlatMapSnoc<T, U>(f: T -> seq<U>, s: seq<T>, x: T)
    ensures FlatMap(f, s + [x]) == FlatMap(f, s) + f(x)
  {
    assert (s + [x])[..|s|] == s;
  }

  /** Two such loops one after the other build the concatenation. */
  lemma {:induction false} FlatMapAppend<T, U>(f: T -> seq<U>, a: seq<T>, b: seq<T>)
    ensures FlatMap(f, a + b) == FlatMap(f, a) + FlatMap(f, b)
    decreases |b|
  {
    if b == [] {
      assert a + b == a;
    } else {
      var init, x := b[..|b| - 1], b[|b| - 1];
      calc {
        FlatMap(f, a + b);
        { assert a + b == (a + init) + [x]; }
        FlatMap(f, (a + init) + [x]);
        { FlatMapSnoc(f, a + init, x); }
        FlatMap(f, a + init) + f(x);
        { FlatMapAppend(f, a, init); }
        (FlatMap(f, a) + FlatMap(f, init)) + f(x);
        { AppendAssoc(FlatMap(f, a), FlatMap(f, init), f(x)); }
        FlatMap(f, a) + (FlatMap(f, init) + f(x));
        FlatMap(f, a) + FlatMap(f, b);
      }
    }
  }

  /** The concatenation of a list of blocks, in order. */
  function Concat<T>(bs: seq<seq<T>>): seq<T>
    decreases |bs|
  {
    if bs == [] then [] else Concat(bs[..|bs| - 1]) + bs[|bs| - 1]
  }

  /** One more block appends that block. */
  lemma ConcatSnoc<T>(bs: seq<seq<T>>, b: seq<T>)
    ensures Concat(bs + [b]) == Concat(bs) + b
  {
    assert (bs + [b])[..|bs|] == bs;
  }

  /** Element `j` of block `i` sits right after the blocks before it. */
  lemma {:induction false} ConcatAt<T>(bs: seq<seq<T>>, i: nat, j: nat)
    requires i < |bs| && j < |bs[i]|
    ensures |Concat(bs[..i])| + j < |Concat(bs)|
    ensures Concat(bs)[|Concat(bs[..i])| + j] == bs[i][j]
    decreases |bs|
  {
    var n := |bs| - 1;
    var init := bs[..n];
    assert Concat(bs) == Concat(init) + bs[n];
    if i < n {
      assert init[..i] == bs[..i];
      ConcatAt(init, i, j);
      AppendAtLeft(Concat(init), bs[n], |Concat(bs[..i])| + j);
    } else {
      AppendAtRight(Concat(init), bs[n], j);
    }
  }

  /** Blocks of `m` elements each concatenate to `|bs| * m` elements. */
  lemma {:induction false} ConcatLength<T>(bs: seq<seq<T>>, m: nat)
    requires forall i :: 0 <= i < |bs| ==> |bs[i]| == m
    ensures |Concat(bs)| == |bs| * m
    decreases |bs|
  {
    if bs != [] {
      var n := |bs| - 1;
      assert forall i :: 0 <= i < n ==> bs[..n][i] == bs[i];
      ConcatLength(bs[..n], m);
      assert |bs| * m == n * m + m;
    }
  }

  /** The list `[f(0), ..., f(k-1)]`. */
  function Tabulate<T>(f: nat -> T, k: nat): (r: seq<T>)
    ensures |r| == k
  {
    if k == 0 then [] else Tabulate(f, k - 1) + [f(k - 1)]
  }

  /** Entry `i` of the list is `f(i)`, and its first `i` entries are the list for `i`. */
  lemma {:induction false} TabulateAt<T>(f: nat -> T, k: nat, i: nat)
    requires i < k
    ensures Tabulate(f, k)[i] == f(i)
    ensures Tabulate(f, k)[..i] == Tabulate(f, i)
  {
    var init := Tabulate(f, k - 1);
    assert Tabulate(f, k) == init + [f(k - 1)];
    if i < k - 1 {
      TabulateAt(f, k - 1, i);
      assert (init + [f(k - 1)])[..i] == init[..i];
    } else {
      assert (init + [f(k - 1)])[..i] == init;
    }
  }

  /** Extending a prefix by one element. */
  lemma TakeSnoc<T>(s: seq<T>, i: nat)
    requires i < |s|
    ensures s[..i + 1] == s[..i] + [s[i]]
  {
  }

  /** Indexing into the left part of a concatenation. */
  lemma AppendAtLeft<T>(x: seq<T>, y: seq<T>, i: nat)
    requires i < |x|
    ensures i < |x + y| && (x + y)[i] == x[i]
  {
  }

  /** Indexing into the right part of a concatenation. */
  lemma AppendAtRight<T>(x: seq<T>, y: seq<T>, i: nat)
    requires i < |y|
    ensures |x| + i < |x + y| && (x + y)[|x| + i] == y[i]
  {
  }

  /** Concatenation is associative. */
  lemma AppendAssoc<T>(x: seq<T>, y: seq<T>, z: seq<T>)
    ensures (x + y) + z == x + (y + z)
  {
  }

  /** Removing two sets one after the other removes their union. */
  lemma DiffDiff<T>(a: set<T>, b: set<T>, c: set<T>)
    ensures (a - b) - c == a - (b + c)
  {
  }
}
