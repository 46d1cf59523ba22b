/**
 * What the calibration drivers share: the run directory as a record of the files the
 * resume protocol reads and writes, the outcome of running the model, restart
 * selection, the writing of metric files, and the names of the DEM and the figure.
 */
module JobFiles {
  import opened Outcomes
  import opened Text

  /** The files of a run directory the drivers consult, each absent or with its contents:
      `fail_log.txt`, `outputs_for_analysis.txt`, and the results file named on the
      command line. */
  datatype Directory = Directory(failLog: Option<string>, outputs: Option<string>, results: Option<string>)

  /** What running the model and computing its metrics came to: the process died, or it
      produced the metric bundle, each value already formatted by `str`. */
  datatype RunOutcome = Crashed | Succeeded(bundle: seq<string>)

  /** What one submission did: whether the model ran, and the directory it left. */
  datatype Submission = Submission(ran: bool, dir: Directory)

  /** `saved_model.model`: absent, present but raising on load, or loadable. */
  datatype SavedModel<S> = Absent | Unloadable | Loadable(state: S)

  /** Restart selection: the saved model when it loads, otherwise the model built from the input file,
      whether the file is missing or loading it raised anything at all. */
  method SelectModel<S>(saved: SavedModel<S>, built: S) returns (model: S)
    ensures saved.Loadable? ==> model == saved.state
    ensures !saved.Loadable? ==> model == built
  {
    if !saved.Absent? {
      match saved
      case Loadable(state) =>
        model := state;
      case Unloadable =>
        model := built;
    } else {
      model := built;
    }
  }

  /** The loop `for metric in output_bundle: fp.write(str(metric) + '\n')` on a file that
      already holds `prior`. */
  method WriteMetrics(prior: string, bundle: seq<string>) returns (contents: string)
    ensures contents == prior + JoinLines(bundle)
  {
    contents := prior;
    for i := 0 to |bundle|
      invariant contents == prior + JoinLines(bundle[..i])
    {
      assert bundle[..i + 1][..i] == bundle[..i];
      contents := contents + bundle[i] + "\n";
    }
    assert bundle[..|bundle|] == bundle;
  }

  /** The DEM written at the end of the run:
      `output_filename + str(iteration - 1).zfill(4) + '.nc'`. The stem is four
      characters wide unless the number needs more. */
  function DemName(outputFilename: string, iteration: int): (name: string)
    ensures |name| == |outputFilename| + StemWidth(iteration - 1) + 3
    ensures name[..|outputFilename|] == outputFilename && name[|name| - 3..] == ".nc"
  {
    var stem := ZFill(Str(iteration - 1), 4);
    ThreeParts(outputFilename, stem, ".nc");
    outputFilename + stem + ".nc"
  }

  /** The width `zfill(4)` gives the decimal form of `k`: four, or more when `k` needs it. */
  function StemWidth(k: int): nat {
    if |Str(k)| >= 4 then |Str(k)| else 4
  }

  /** The DEM name is the output base name, then exactly `StemWidth(iteration - 1)`
      characters that read back as `iteration - 1` (all digits, zero-padded on the left,
      unless the number is negative), then `.nc`. */
  lemma DemNameStem(outputFilename: string, iteration: int)
    ensures var name := DemName(outputFilename, iteration);
            var stem := name[|outputFilename|..|name| - 3];
            && |stem| == StemWidth(iteration - 1)
            && ParseInt(stem) == Success(iteration - 1)
            && (iteration >= 1 ==> AllDigits(stem))
  {
    var stem := ZFill(Str(iteration - 1), 4);
    ThreeParts(outputFilename, stem, ".nc");
    ParseIntZFillStr(iteration - 1, 4);
  }

  /** The pieces of `a + b + c` are recovered by slicing at their lengths. */
  lemma ThreeParts(a: string, b: string, c: string)
    ensures var s := a + b + c;
            && |s| == |a| + |b| + |c|
            && s[..|a|] == a && s[|s| - |c|..] == c && s[|a|..|s| - |c|] == b
  {
  }

  /** `parts.index(x)`: the position of the first occurrence of `x`. */
  function IndexOf(parts: seq<string>, x: string): (i: nat)
    requires x in parts
    ensures i < |parts| && parts[i] == x
    ensures forall j :: 0 <= j < i ==> parts[j] != x
  {
    if parts[0] == x then 0 else 1 + IndexOf(parts[1..], x)
  }

  /** The path components `cwd.split('/')` with `'png'` appended. */
  function FigureParts(cwd: string): (parts: seq<string>)
    ensures forall i :: 0 <= i < |parts| ==> '/' !in parts[i]
  {
    Split(cwd, '/') + ["png"]
  }

  /** The figure name: the components from three past the first `results` (or, when
      there is none, the first `study3py`) joined with dots; a path with neither raises
      ValueError. A cut past the end leaves no components, as Python slicing does. */
  function FigureName(cwd: string): (r: Result<string, Exception>)
    ensures r.Failure? ==> r.error == ValueError
    ensures r.Success? ==> '/' !in r.value
  {
    var parts := FigureParts(cwd);
    if "results" in parts || "study3py" in parts then
      var cut := (if "results" in parts then IndexOf(parts, "results") else IndexOf(parts, "study3py")) + 3;
      var kept := if cut <= |parts| then parts[cut..] else [];
      assert forall k :: 0 <= k < |kept| ==> kept[k] == parts[cut + k];
      JoinAvoids(kept, '.', '/');
      Success(Join(kept, '.'))
    else Failure(ValueError)
  }

  /** A character in no part, other than the separator, is not in the join. */
  lemma {:induction false} JoinAvoids(parts: seq<string>, sep: char, c: char)
    requires c != sep && forall i :: 0 <= i < |parts| ==> c !in parts[i]
    ensures c !in Join(parts, sep)
    decreases |parts|
  {
    if |parts| > 1 {
      JoinAvoids(parts[1..], sep, c);
    }
  }

  /** The lookup fails exactly when no path component is `results` or `study3py`. */
  lemma FigureNameFailure(cwd: string)
    ensures FigureName(cwd).Failure? <==> "results" !in Split(cwd, '/') && "study3py" !in Split(cwd, '/')
  {
    var comps := Split(cwd, '/');
    assert FigureParts(cwd)[..|comps|] == comps;
    assert forall x :: x in FigureParts(cwd) <==> x in comps || x == "png";
  }

  /** A `results` component takes precedence over any `study3py` component. */
  lemma FigureNameResultsFirst(cwd: string)
    requires "results" in Split(cwd, '/')
    ensures var parts := FigureParts(cwd);
            var cut := IndexOf(parts, "results") + 3;
            FigureName(cwd) == Success(Join(if cut <= |parts| then parts[cut..] else [], '.'))
  {
    assert "results" in FigureParts(cwd);
  }

  /** When the cut leaves at least one component (the appended `png` is always the last),
      the name ends in `png`; when it leaves two or more, it ends in `.png`. */
  lemma FigureNameEndsWithPng(cwd: string)
    requires FigureName(cwd).Success?
    requires var parts := FigureParts(cwd);
             var at := if "results" in parts then IndexOf(parts, "results") else IndexOf(parts, "study3py");
             at + 3 < |parts|
    ensures var name := FigureName(cwd).value;
            |name| >= 3 && name[|name| - 3..] == "png"
    ensures var parts := FigureParts(cwd);
            var at := if "results" in parts then IndexOf(parts, "results") else IndexOf(parts, "study3py");
            var name := FigureName(cwd).value;
            at + 4 < |parts| ==> |name| >= 4 && name[|name| - 4..] == ".png"
  {
    var parts := FigureParts(cwd);
    var at := if "results" in parts then IndexOf(parts, "results") else IndexOf(parts, "study3py");
    var kept := parts[at + 3..];
    FigureNameKept(cwd, at);
    assert kept[|kept| - 1] == "png";
    JoinEndsWithLast(kept, '.');
    if at + 4 < |parts| {
      JoinEndsWithSepLast(kept, '.');
    }
  }

  /** A successful figure name joins the components from three past the marker. */
  lemma FigureNameKept(cwd: string, at: nat)
    requires FigureName(cwd).Success?
    requires var parts := FigureParts(cwd);
             at == (if "results" in parts then IndexOf(parts, "results") else IndexOf(parts, "study3py"))
             && at + 3 < |parts|
    ensures FigureName(cwd).value == Join(FigureParts(cwd)[at + 3..], '.')
  {
  }

  lemma {:induction false} JoinEndsWithLast(parts: seq<string>, sep: char)
    requires |parts| > 0
    ensures var j := Join(parts, sep);
            var last := parts[|parts| - 1];
            |j| >= |last| && j[|j| - |last|..] == last
    decreases |parts|
  {
    if |parts| > 1 {
      JoinEndsWithLast(parts[1..], sep);
      var j := Join(parts, sep);
      var rest := Join(parts[1..], sep);
      assert j == parts[0] + [sep] + rest;
      assert parts[1..][|parts[1..]| - 1] == parts[|parts| - 1];
    }
  }

  /** With two or more parts, the join ends with the separator and the last part. */
  lemma {:induction false} JoinEndsWithSepLast(parts: seq<string>, sep: char)
    requires |parts| > 1
    ensures var j := Join(parts, sep);
            var last := parts[|parts| - 1];
            |j| > |last| && j[|j| - |last| - 1..] == [sep] + last
    decreases |parts|
  {
    var j := Join(parts, sep);
    var rest := Join(parts[1..], sep);
    assert j == parts[0] + [sep] + rest;
    assert parts[1..][|parts[1..]| - 1] == parts[|parts| - 1];
    if |parts| == 2 {
      assert rest == parts[1];
    } else {
      JoinEndsWithSepLast(parts[1..], sep);
    }
  }
}
