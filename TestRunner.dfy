/** The selection, reporting and exit-code logic of scripts/sct_testing.py.
    Running a test (`test_function`) is left to the caller: its outcome for
    each name is an input. */
module TestRunner {
  import opened Builtins

  /** The width the progress lines are padded to. */
  const LineWidth := 52

  /** `make_dot_lines` (lines 191-196): the dots that pad `s` to the line
      width, none when `s` already fills it. */
  function MakeDotLines(s: string): (r: string)
    ensures |s| < LineWidth ==> |r| == LineWidth - |s|
    ensures |s| >= LineWidth ==> r == ""
    ensures forall i :: 0 <= i < |r| ==> r[i] == '.'
  {
    if |s| < LineWidth then Repeat('.', LineWidth - |s|) else ""
  }

  /** The text `print_line` (lines 183-186) writes: `s` followed by its dots. */
  function PrintLine(s: string): (r: string)
    ensures |r| == if |s| < LineWidth then LineWidth else |s|
    ensures r[..|s|] == s
    ensures forall i :: |s| <= i < |r| ==> r[i] == '.'
  {
    var dots := MakeDotLines(s);
    assert (s + dots)[..|s|] == s;
    s + dots
  }

  /** `fill_functions` (lines 140-178): the scripts a full run tests, in order. */
  function FillFunctions(): (r: seq<string>)
    ensures |r| == 31
    ensures forall i, j :: 0 <= i < j < |r| ==> r[i] != r[j]
  {
    [ "sct_analyze_texture",
      "sct_apply_transfo",
      "sct_compute_mtr",
      "sct_concat_transfo",
      "sct_convert",
      "sct_create_mask",
      "sct_crop_image",
      "sct_dmri_compute_dti",
      "sct_dmri_create_noisemask",
      "sct_dmri_get_bvalue",
      "sct_dmri_transpose_bvecs",
      "sct_dmri_moco",
      "sct_dmri_separate_b0_and_dwi",
      "sct_documentation",
      "sct_extract_metric",
      "sct_fmri_compute_tsnr",
      "sct_fmri_moco",
      "sct_image",
      "sct_label_utils",
      "sct_label_vertebrae",
      "sct_maths",
      "sct_process_segmentation",
      "sct_propseg",
      "sct_register_graymatter",
      "sct_register_multimodal",
      "sct_register_to_template",
      "sct_resample",
      "sct_segment_graymatter",
      "sct_smooth_spinalcord",
      "sct_straighten_spinalcord",
      "sct_warp_template" ]
  }

  /** The settings of one run (class `Param`, lines 50-62). */
  class Param {
    var download: int
    var pathData: string
    var functionToTest: Option<string>
    var removeTmpFile: int
    var verbose: int
    var pathTmp: string
    var args: string
    var contrast: string
    var output: string
    var redirectStdout: int

    /** The defaults of `Param.__init__`. */
    constructor ()
      ensures download == 0 && pathData == "sct_testing_data/" && functionToTest == None && removeTmpFile == 0
      ensures verbose == 1 && pathTmp == "" && args == "" && contrast == "" && output == "" && redirectStdout == 1
    {
      download := 0;
      pathData := "sct_testing_data/";
      functionToTest := None;
      removeTmpFile := 0;
      verbose := 1;
      pathTmp := "";
      args := "";
      contrast := "";
      output := "";
      redirectStdout := 1;
    }

    /** Lines 75-82: each option given on the command line replaces its
        setting; every other setting keeps its value. */
    method ApplyArguments(a: Arguments)
      modifies this
      ensures download == (if a.download.Some? then a.download.value else old(download))
      ensures pathData == (if a.pathData.Some? then a.pathData.value else old(pathData))
      ensures functionToTest == (if a.functionToTest.Some? then a.functionToTest else old(functionToTest))
      ensures removeTmpFile == (if a.removeTmpFile.Some? then a.removeTmpFile.value else old(removeTmpFile))
      ensures verbose == old(verbose) && pathTmp == old(pathTmp) && args == old(args)
      ensures contrast == old(contrast) && output == old(output) && redirectStdout == old(redirectStdout)
    {
      if a.download.Some? {
        download := a.download.value;
      }
      if a.pathData.Some? {
        pathData := a.pathData.value;
      }
      if a.functionToTest.Some? {
        functionToTest := a.functionToTest;
      }
      if a.removeTmpFile.Some? {
        removeTmpFile := a.removeTmpFile.value;
      }
    }
  }

  /** The options `-d`, `-p`, `-f` and `-r` as the parser hands them over;
      `-d` and `-r` already converted by `int`. */
  datatype Arguments = Arguments(download: Option<int>, pathData: Option<string>, functionToTest: Option<string>, removeTmpFile: Option<int>)

  /** Python's truth value of `function_to_test`: None and the empty string are false. */
  predicate Truthy(f: Option<string>)
  {
    f.Some? && f.value != ""
  }

  /** The names `main` tests (lines 105-111): with a (truthy) requested
      name, the listed names equal to it; otherwise every listed name. */
  function Selected(functions: seq<string>, functionToTest: Option<string>): (r: seq<string>)
    ensures Truthy(functionToTest) ==> forall i :: 0 <= i < |r| ==> r[i] == functionToTest.value
    ensures Truthy(functionToTest) ==> (|r| > 0 <==> functionToTest.value in functions)
    ensures !Truthy(functionToTest) ==> r == functions
    ensures |r| <= |functions|
    decreases |functions|
  {
    if !Truthy(functionToTest) then functions
    else if functions == [] then []
    else
      var init := Selected(functions[..|functions| - 1], functionToTest);
      var last := functions[|functions| - 1];
      assert functions == functions[..|functions| - 1] + [last];
      if last == functionToTest.value then init + [last] else init
  }

  /** A name appears in the selection as often as in the list. */
  lemma {:induction false} SelectedCount(functions: seq<string>, name: string)
    requires name != ""
    ensures |Selected(functions, Some(name))| == multiset(functions)[name]
    decreases |functions|
  {
    if functions != [] {
      var init := functions[..|functions| - 1];
      SelectedCount(init, name);
      assert functions == init + [functions[|functions| - 1]];
    }
  }

  /** With the tested list, a selected run tests the requested script once
      when it is listed and not at all otherwise. */
  lemma SelectedRunAtMostOne(name: string)
    requires name != ""
    ensures |Selected(FillFunctions(), Some(name))| == if name in FillFunctions() then 1 else 0
  {
    SelectedFromDistinct(FillFunctions(), name);
  }

  /** From a list without repeats, a requested name is selected once when
      listed and not at all otherwise. */
  lemma SelectedFromDistinct(functions: seq<string>, name: string)
    requires name != ""
    requires forall i, j :: 0 <= i < j < |functions| ==> functions[i] != functions[j]
    ensures |Selected(functions, Some(name))| == if name in functions then 1 else 0
  {
    SelectedCount(functions, name);
    DistinctCountsOne(functions, name);
  }

  /** In a list without repeats, every element occurs once. */
  lemma {:induction false} DistinctCountsOne(s: seq<string>, x: string)
    requires forall i, j :: 0 <= i < j < |s| ==> s[i] != s[j]
    ensures multiset(s)[x] == if x in s then 1 else 0
    decreases |s|
  {
    if s != [] {
      var init := s[..|s| - 1];
      var last := s[|s| - 1];
      assert s == init + [last];
      DistinctCountsOne(init, x);
    }
  }

  /** The status list of lines 109 and 111: one outcome per selected name,
      in order. */
  function Statuses(functions: seq<string>, functionToTest: Option<string>, outcome: string -> int): (r: seq<int>)
    ensures |r| == |Selected(functions, functionToTest)|
    ensures forall i :: 0 <= i < |r| ==> r[i] == outcome(Selected(functions, functionToTest)[i])
  {
    var sel := Selected(functions, functionToTest);
    seq(|sel|, i requires 0 <= i < |sel| => outcome(sel[i]))
  }

  /** Python's `sum` over the statuses. */
  function Sum(s: seq<int>): int
    decreases |s|
  {
    if s == [] then 0 else Sum(s[..|s| - 1]) + s[|s| - 1]
  }

  /** Statuses that are all 0 sum to 0, and a sum of non-negative statuses is
      0 only when each is. */
  lemma {:induction false} SumZero(s: seq<int>)
    requires forall i :: 0 <= i < |s| ==> s[i] >= 0
    ensures Sum(s) >= 0
    ensures Sum(s) == 0 <==> forall i :: 0 <= i < |s| ==> s[i] == 0
    decreases |s|
  {
    if s != [] {
      var init := s[..|s| - 1];
      SumZero(init);
      assert forall i :: 0 <= i < |init| ==> init[i] == s[i];
    }
  }

  /** The exit code of lines 123-128: 0 when the statuses sum to 0, else 1. */
  method ExitCode(status: seq<int>) returns (e: int)
    ensures e == 0 <==> Sum(status) == 0
    ensures e == 0 || e == 1
  {
    e := 0;
    if Sum(status) != 0 {
      e := 1;
    }
  }
}
