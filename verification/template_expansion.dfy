/**
 The build-time template expander. One invocation takes one template file,
 a list of curve names, an output directory and the project's top-level
 directory. It rewrites the placeholder tokens `XXX` (bignum width), `YYY`
 (field variant) and `ZZZ` (curve name) in the file's text and path, writes
 the result, and prints the set of generated file names, each followed by
 `;`, for the build system.

 The filesystem is a map from path to text; a failed dictionary lookup or a
 missing template stops the run, and whatever was written before stays.
 */
module TemplateExpansion {
  import opened Wrappers
  import opened Text

  type Path = string

  /** Path to text: the files the script reads and writes. */
  type FileSystem = map<Path, string>

  const BigPattern: string := "XXX"
  const FpPattern: string := "YYY"
  const CurvePattern: string := "ZZZ"
  const IncludeMarker: string := "#include"

  const BigReplacements: map<string, string> :=
    map["BN254" := "256_56", "BN254CX" := "256_56", "BLS383" := "384_56"]

  const FpReplacements: map<string, string> :=
    map["BN254" := "BN254", "BN254CX" := "BN254CX", "BLS383" := "BLS383"]

  /** The curves both tables know. */
  const KnownCurves: set<string> := {"BN254", "BN254CX", "BLS383"}

  /** The curves whose replacement values contain none of the letters X, Y, Z. */
  const TokenFreeCurves: set<string> := {"BN254", "BLS383"}

  /** Python's `KeyError` for an unknown curve, or a template that cannot be opened. */
  datatype Error = KeyError(key: string) | FileNotFound(path: Path)

  /** The three values that replace `XXX`, `YYY` and `ZZZ` for one curve. */
  datatype Rewriting = Rewriting(big: string, fp: string, curve: string)

  /** The big-suffix lookup, then the fp-suffix lookup; a missing curve raises `KeyError`. */
  function Resolve(curve: string): (r: Result<Rewriting, Error>)
    ensures r.Ok? <==> curve in KnownCurves
    ensures r.Err? ==> r.error == KeyError(curve)
    ensures r.Ok? ==> r.value.curve == curve
  {
    if curve !in BigReplacements then Err(KeyError(curve))
    else if curve !in FpReplacements then Err(KeyError(curve))
    else Ok(Rewriting(BigReplacements[curve], FpReplacements[curve], curve))
  }

  /** The three full `replace` passes, always `XXX`, then `YYY`, then `ZZZ`. */
  function RewriteTokens(text: string, w: Rewriting): string
  {
    Replace(Replace(Replace(text, BigPattern, w.big), FpPattern, w.fp), CurvePattern, w.curve)
  }

  predicate HasToken(text: string)
  {
    Contains(text, BigPattern) || Contains(text, FpPattern) || Contains(text, CurvePattern)
  }

  /**
   `translate_file_name`: every occurrence of the top-level directory is
   replaced by the output directory, then the tokens are rewritten.
   */
  function TranslateFileName(path: Path, curve: string, outDir: Path, topDir: Path): (r: Result<Path, Error>)
    ensures r.Ok? <==> curve in KnownCurves
    ensures r.Err? ==> r.error == KeyError(curve)
  {
    var moved := Replace(path, topDir, outDir);
    match Resolve(curve)
    case Err(e) => Err(e)
    case Ok(w) => Ok(RewriteTokens(moved, w))
  }

  /** The paths the known curves of `curves` translate `path` to. */
  ghost function OutputPaths(path: Path, curves: seq<string>, outDir: Path, topDir: Path): set<Path>
  {
    set i | 0 <= i < |curves| && curves[i] in KnownCurves :: TranslateFileName(path, curves[i], outDir, topDir).value
  }

  /**
   `get_processed_file_names`: the set of translated paths, one per curve,
   duplicates collapsed; the first unknown curve in list order raises.
   */
  function FileNames(path: Path, curves: seq<string>, outDir: Path, topDir: Path): (r: Result<set<Path>, Error>)
    ensures r.Ok? <==> FirstUnknown(curves) == |curves|
    ensures r.Err? ==> r.error == KeyError(curves[FirstUnknown(curves)])
    ensures r.Ok? ==> |r.value| <= |curves|
  {
    if |curves| == 0 then Ok({})
    else
      match TranslateFileName(path, curves[0], outDir, topDir)
      case Err(e) => Err(e)
      case Ok(p) =>
        match FileNames(path, curves[1..], outDir, topDir)
        case Err(e) => Err(e)
        case Ok(rest) =>
          assert |{p} + rest| <= 1 + |rest|;
          Ok({p} + rest)
  }

  /** The printed set holds exactly the paths some curve of the list translates to. */
  lemma {:induction false} FileNamesMembers(path: Path, curves: seq<string>, outDir: Path, topDir: Path, p: Path)
    requires FileNames(path, curves, outDir, topDir).Ok?
    ensures p in FileNames(path, curves, outDir, topDir).value <==>
              exists i :: 0 <= i < |curves| && TranslateFileName(path, curves[i], outDir, topDir) == Ok(p)
    decreases |curves|
  {
    if |curves| > 0 {
      FileNamesMembers(path, curves[1..], outDir, topDir, p);
      if exists i :: 1 <= i < |curves| && TranslateFileName(path, curves[i], outDir, topDir) == Ok(p) {
        var i :| 1 <= i < |curves| && TranslateFileName(path, curves[i], outDir, topDir) == Ok(p);
        assert curves[1..][i - 1] == curves[i];
      }
      if exists i :: 0 <= i < |curves[1..]| && TranslateFileName(path, curves[1..][i], outDir, topDir) == Ok(p) {
        var i :| 0 <= i < |curves[1..]| && TranslateFileName(path, curves[1..][i], outDir, topDir) == Ok(p);
        assert curves[i + 1] == curves[1..][i];
      }
    }
  }

  /** The paths of a non-empty list: those of its first curve, if known, and those of the rest. */
  lemma OutputPathsCons(path: Path, curves: seq<string>, outDir: Path, topDir: Path)
    requires |curves| > 0
    ensures OutputPaths(path, curves, outDir, topDir) ==
              (if curves[0] in KnownCurves then {TranslateFileName(path, curves[0], outDir, topDir).value} else {}) +
              OutputPaths(path, curves[1..], outDir, topDir)
  {
    var all, rest := OutputPaths(path, curves, outDir, topDir), OutputPaths(path, curves[1..], outDir, topDir);
    forall p | p in rest
      ensures p in all
    {
      var i :| 0 <= i < |curves[1..]| && curves[1..][i] in KnownCurves &&
               p == TranslateFileName(path, curves[1..][i], outDir, topDir).value;
      assert curves[i + 1] == curves[1..][i];
    }
    forall p | p in all
      ensures p in rest || (curves[0] in KnownCurves && p == TranslateFileName(path, curves[0], outDir, topDir).value)
    {
      var i :| 0 <= i < |curves| && curves[i] in KnownCurves && p == TranslateFileName(path, curves[i], outDir, topDir).value;
      if i > 0 {
        assert curves[1..][i - 1] == curves[i];
      }
    }
  }

  /** The state the script leaves behind: the files and the error that stopped it, if any. */
  datatype Run = Run(fs: FileSystem, error: Option<Error>)

  /**
   `expand_template`: for each curve in order, read the template, rewrite
   its text and write it to the translated path. The template is read
   again on every iteration. An unknown curve or a missing template stops
   the loop; files written for earlier curves stay.
   */
  function ExpandTemplate(fs: FileSystem, input: Path, curves: seq<string>, outDir: Path, topDir: Path): (r: Run)
    ensures r.error.None? <==> |curves| == 0 || (input in fs && forall i :: 0 <= i < |curves| ==> curves[i] in KnownCurves)
    ensures fs.Keys <= r.fs.Keys
    ensures forall p :: p in r.fs ==> p in fs || p in OutputPaths(input, curves, outDir, topDir)
    ensures forall p :: p in fs && p !in OutputPaths(input, curves, outDir, topDir) ==> r.fs[p] == fs[p]
    decreases |curves|
  {
    if |curves| == 0 then Run(fs, None)
    else if input !in fs then Run(fs, Some(FileNotFound(input)))
    else
      match Resolve(curves[0])
      case Err(e) => Run(fs, Some(e))
      case Ok(w) =>
        var expanded := RewriteTokens(fs[input], w);
        var out := TranslateFileName(input, curves[0], outDir, topDir).value;
        var r := ExpandTemplate(fs[out := expanded], input, curves[1..], outDir, topDir);
        OutputPathsCons(input, curves, outDir, topDir);
        r
  }

  /** A line `generate_top_level_header` repeats per curve: an include naming any token. */
  predicate IsReplicatedLine(line: string)
  {
    Contains(line, IncludeMarker) && HasToken(line)
  }

  /** The copies of one replicated line for `curves`, in list order (all known). */
  function Copies(line: string, curves: seq<string>): (r: seq<string>)
    requires forall i :: 0 <= i < |curves| ==> curves[i] in KnownCurves
    ensures |r| == |curves|
    ensures forall i :: 0 <= i < |curves| ==> r[i] == RewriteTokens(line, Resolve(curves[i]).value)
  {
    seq(|curves|, i requires 0 <= i < |curves| => RewriteTokens(line, Resolve(curves[i]).value))
  }

  /** What the header mode emits for one line when every curve is known. */
  function EmitLine(line: string, curves: seq<string>): string
    requires forall i :: 0 <= i < |curves| ==> curves[i] in KnownCurves
  {
    if IsReplicatedLine(line) then Concat(Copies(line, curves)) else line
  }

  /** The header text for `lines` when every curve is known: each line's output in order. */
  function EmitAll(lines: seq<string>, curves: seq<string>): string
    requires forall i :: 0 <= i < |curves| ==> curves[i] in KnownCurves
  {
    if |lines| == 0 then [] else EmitLine(lines[0], curves) + EmitAll(lines[1..], curves)
  }

  lemma {:induction false} EmitAllAppend(a: seq<string>, b: seq<string>, curves: seq<string>)
    requires forall i :: 0 <= i < |curves| ==> curves[i] in KnownCurves
    ensures EmitAll(a + b, curves) == EmitAll(a, curves) + EmitAll(b, curves)
    decreases |a|
  {
    if |a| == 0 {
      assert a + b == b;
    } else {
      assert (a + b)[1..] == a[1..] + b;
      EmitAllAppend(a[1..], b, curves);
    }
  }

  /** The output for the first `i + 1` lines extends that for the first `i` by line `i`'s output. */
  lemma EmitAllSnoc(lines: seq<string>, i: nat, curves: seq<string>)
    requires i < |lines|
    requires forall j :: 0 <= j < |curves| ==> curves[j] in KnownCurves
    ensures EmitAll(lines[..i + 1], curves) == EmitAll(lines[..i], curves) + EmitLine(lines[i], curves)
  {
    var before, line := lines[..i], lines[i];
    PrefixSnoc(lines, i);
    calc {
      EmitAll(before + [line], curves);
      == { EmitAllAppend(before, [line], curves); }
      EmitAll(before, curves) + EmitAll([line], curves);
      == { EmitAllOne(line, curves); }
      EmitAll(before, curves) + EmitLine(line, curves);
    }
  }

  lemma EmitAllOne(line: string, curves: seq<string>)
    requires forall j :: 0 <= j < |curves| ==> curves[j] in KnownCurves
    ensures EmitAll([line], curves) == EmitLine(line, curves)
  {
    assert [line][1..] == [];
    var e := EmitLine(line, curves);
    assert e + [] == e;
  }

  /** Index of the first unknown curve of `curves`, or `|curves|`. */
  function FirstUnknown(curves: seq<string>): (k: nat)
    ensures k <= |curves|
    ensures forall j :: 0 <= j < k ==> curves[j] in KnownCurves
    ensures k < |curves| ==> curves[k] !in KnownCurves
  {
    if |curves| == 0 then 0
    else if curves[0] !in KnownCurves then 0
    else 1 + FirstUnknown(curves[1..])
  }

  /** Index of the first line that is repeated per curve, or `|lines|`. */
  function FirstReplicated(lines: seq<string>): (k: nat)
    ensures k <= |lines|
    ensures forall j :: 0 <= j < k ==> !IsReplicatedLine(lines[j])
    ensures k < |lines| ==> IsReplicatedLine(lines[k])
  {
    if |lines| == 0 then 0
    else if IsReplicatedLine(lines[0]) then 0
    else 1 + FirstReplicated(lines[1..])
  }

  /** The output path of the header mode: only the directory is replaced, no token is rewritten. */
  function HeaderPath(input: Path, outDir: Path, topDir: Path): Path
  {
    Replace(input, topDir, outDir)
  }

  /** The header stops at a line it must repeat when some curve is unknown. */
  predicate HeaderFails(lines: seq<string>, curves: seq<string>)
  {
    FirstUnknown(curves) < |curves| && FirstReplicated(lines) < |lines|
  }

  /**
   The text the header mode leaves in its output: every line's output while
   all curves are known; otherwise the lines before the first repeated one
   followed by its copies for the curves before the unknown one.
   */
  function HeaderText(lines: seq<string>, curves: seq<string>): string
  {
    var known := curves[..FirstUnknown(curves)];
    if HeaderFails(lines, curves) then
      EmitAll(lines[..FirstReplicated(lines)], known) + Concat(Copies(lines[FirstReplicated(lines)], known))
    else EmitAll(lines, known)
  }

  /** The inner loop of the header mode: one rewritten copy of `line` per curve, in order. */
  method WriteCopies(line: string, curves: seq<string>) returns (copies: string, err: Option<Error>)
    ensures err.None? <==> FirstUnknown(curves) == |curves|
    ensures err.Some? ==> err.value == KeyError(curves[FirstUnknown(curves)])
    ensures copies == Concat(Copies(line, curves[..FirstUnknown(curves)]))
  {
    copies := "";
    var j := 0;
    while j < |curves|
      invariant 0 <= j <= |curves|
      invariant j <= FirstUnknown(curves)
      invariant copies == Concat(Copies(line, curves[..j]))
    {
      var w := Resolve(curves[j]);
      if w.Err? {
        return copies, Some(w.error);
      }
      CopiesAppendOne(line, curves[..j], curves[j]);
      assert curves[..j + 1] == curves[..j] + [curves[j]];
      copies := copies + RewriteTokens(line, w.value);
      j := j + 1;
    }
    assert curves[..j] == curves;
    return copies, None;
  }

  /**
   `generate_top_level_header`: read the template's lines, open the output
   (replacing the directory only) and write each line once, except that an
   include line naming a token is written once per curve, rewritten for that
   curve. An unknown curve stops the writing at the first such line, leaving
   the text written so far.
   */
  method GenerateTopLevelHeader(fs: FileSystem, input: Path, curves: seq<string>, outDir: Path, topDir: Path)
    returns (r: Run)
    ensures input !in fs ==> r == Run(fs, Some(FileNotFound(input)))
    ensures input in fs ==> r.fs == fs[HeaderPath(input, outDir, topDir) := HeaderText(Lines(fs[input]), curves)]
    ensures input in fs ==> (r.error.None? <==> !HeaderFails(Lines(fs[input]), curves))
    ensures input in fs && r.error.Some? ==> r.error.value == KeyError(curves[FirstUnknown(curves)])
  {
    if input !in fs {
      return Run(fs, Some(FileNotFound(input)));
    }
    var text, err := WriteHeaderLines(Lines(fs[input]), curves);
    return Run(fs[HeaderPath(input, outDir, topDir) := text], err);
  }

  /** The line loop of the header mode, writing into one output text. */
  method WriteHeaderLines(lines: seq<string>, curves: seq<string>) returns (written: string, err: Option<Error>)
    ensures written == HeaderText(lines, curves)
    ensures err.None? <==> !HeaderFails(lines, curves)
    ensures err.Some? ==> err.value == KeyError(curves[FirstUnknown(curves)])
  {
    var known := curves[..FirstUnknown(curves)];
    written := "";
    var i := 0;
    while i < |lines|
      invariant 0 <= i <= |lines|
      invariant FirstUnknown(curves) < |curves| ==> i <= FirstReplicated(lines)
      invariant written == EmitAll(lines[..i], known)
    {
      var line := lines[i];
      EmitAllSnoc(lines, i, known);
      if IsReplicatedLine(line) {
        var copies, e := WriteCopies(line, curves);
        if e.Some? {
          return written + copies, e;
        }
        assert known == curves;
        written := written + copies;
      } else {
        written := written + line;
      }
      i := i + 1;
    }
    assert lines[..i] == lines;
    return written, None;
  }

  lemma CopiesAppendOne(line: string, curves: seq<string>, c: string)
    requires forall i :: 0 <= i < |curves| ==> curves[i] in KnownCurves
    requires c in KnownCurves
    ensures Concat(Copies(line, curves + [c])) == Concat(Copies(line, curves)) + RewriteTokens(line, Resolve(c).value)
  {
    assert Copies(line, curves + [c]) == Copies(line, curves) + [RewriteTokens(line, Resolve(c).value)];
    ConcatAppend(Copies(line, curves), [RewriteTokens(line, Resolve(c).value)]);
  }

  /** `print_file_names`: every name followed by `;`, nothing else, in the order given. */
  function PrintFileNames(order: seq<Path>): (out: string)
    ensures |order| == 0 ==> out == []
  {
    if |order| == 0 then [] else order[0] + ";" + PrintFileNames(order[1..])
  }

  /** Length of the text before the first `;`, or the whole text if there is none. */
  function FieldLength(s: string): (k: nat)
    ensures k <= |s|
    ensures k < |s| ==> s[k] == ';'
    ensures forall i :: 0 <= i < k ==> s[i] != ';'
  {
    if |s| == 0 || s[0] == ';' then 0 else 1 + FieldLength(s[1..])
  }

  /** How the build system reads the printed list back: fields terminated by `;`. */
  function SplitNames(s: string): seq<string>
    decreases |s|
  {
    if |s| == 0 then []
    else
      var k := FieldLength(s);
      if k == |s| then [s] else [s[..k]] + SplitNames(s[k + 1..])
  }

  /** The mode flags and arguments `__main__` reads. */
  datatype Args = Args(template: Path, curves: seq<string>, namesOnly: bool,
                       outDir: Path, topLevelDir: Path, topLevelHeader: bool)

  /** What an invocation leaves: the files, the name set it printed (if it got that far), the error. */
  datatype Outcome = Outcome(fs: FileSystem, printed: Option<set<Path>>, error: Option<Error>)

  /**
   The script's `__main__`: unless `--names-only`, expand the template or
   (with `--top-level-header`) generate the header; then print the set of
   per-curve translated paths. An error ends the run before printing.
   */
  method Invoke(args: Args, fs: FileSystem) returns (o: Outcome)
    ensures o.printed.Some? <==> o.error.None?
    ensures o.printed.Some? ==>
              FileNames(args.template, args.curves, args.outDir, args.topLevelDir) == Ok(o.printed.value)
    ensures args.namesOnly ==> o.fs == fs
    ensures args.namesOnly ==>
              (o.printed.Some? <==> forall i :: 0 <= i < |args.curves| ==> args.curves[i] in KnownCurves)
    ensures !args.namesOnly && !args.topLevelHeader ==>
              o.fs == ExpandTemplate(fs, args.template, args.curves, args.outDir, args.topLevelDir).fs
    ensures !args.namesOnly && !args.topLevelHeader ==>
              o.error == ExpandTemplate(fs, args.template, args.curves, args.outDir, args.topLevelDir).error
    ensures !args.namesOnly && args.topLevelHeader && args.template !in fs ==>
              o == Outcome(fs, None, Some(FileNotFound(args.template)))
    ensures !args.namesOnly && args.topLevelHeader && args.template in fs ==>
              o.fs == fs[HeaderPath(args.template, args.outDir, args.topLevelDir) :=
                           HeaderText(Lines(fs[args.template]), args.curves)]
    ensures !args.namesOnly && args.topLevelHeader && args.template in fs ==>
              (o.printed.Some? <==> forall i :: 0 <= i < |args.curves| ==> args.curves[i] in KnownCurves)
  {
    var current := fs;
    if !args.namesOnly {
      var run: Run;
      if !args.topLevelHeader {
        run := ExpandTemplate(fs, args.template, args.curves, args.outDir, args.topLevelDir);
      } else {
        run := GenerateTopLevelHeader(fs, args.template, args.curves, args.outDir, args.topLevelDir);
      }
      if run.error.Some? {
        return Outcome(run.fs, None, run.error);
      }
      current := run.fs;
    }
    var names := FileNames(args.template, args.curves, args.outDir, args.topLevelDir);
    if names.Err? {
      return Outcome(current, None, Some(names.error));
    }
    return Outcome(current, Some(names.value), None);
  }
}
