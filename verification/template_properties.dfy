/**
 What the template expander guarantees: token removal for the curves whose
 values are free of X, Y and Z, the `BN254CX` value that re-creates a token,
 pass order, name collapsing, write order, partial output after an error,
 and the printed list format.
 */
module TemplateProperties {
  import opened Wrappers
  import opened Text
  import opened TemplateExpansion

  lemma LiteralFacts()
    ensures Disjoint("256_56", "XXX") && Disjoint("256_56", "YYY") && Disjoint("256_56", "ZZZ")
    ensures Disjoint("384_56", "XXX") && Disjoint("384_56", "YYY") && Disjoint("384_56", "ZZZ")
    ensures Disjoint("BN254", "XXX") && Disjoint("BN254", "YYY") && Disjoint("BN254", "ZZZ")
    ensures Disjoint("BLS383", "XXX") && Disjoint("BLS383", "YYY") && Disjoint("BLS383", "ZZZ")
  {
  }

  /**
   For `BN254` and `BLS383` none of the three tokens survives the rewrite,
   whatever the text: no value re-creates a token and each pass removes its own.
   */
  lemma CleanCurveLeavesNoToken(text: string, curve: string)
    requires curve in TokenFreeCurves
    ensures !HasToken(RewriteTokens(text, Resolve(curve).value))
  {
    LiteralFacts();
    var w := Resolve(curve).value;
    var s1 := Replace(text, BigPattern, w.big);
    var s2 := Replace(s1, FpPattern, w.fp);
    var s3 := Replace(s2, CurvePattern, w.curve);
    ReplaceRemovesPattern(text, BigPattern, w.big);
    ReplaceRemovesPattern(s1, FpPattern, w.fp);
    ReplaceKeepsAbsent(s1, FpPattern, w.fp, BigPattern);
    ReplaceRemovesPattern(s2, CurvePattern, w.curve);
    ReplaceKeepsAbsent(s2, CurvePattern, w.curve, BigPattern);
    ReplaceKeepsAbsent(s2, CurvePattern, w.curve, FpPattern);
  }

  /** A translated path for `BN254` or `BLS383` never names a token. */
  lemma CleanCurvePathHasNoToken(path: Path, curve: string, outDir: Path, topDir: Path)
    requires curve in TokenFreeCurves
    ensures TranslateFileName(path, curve, outDir, topDir).Ok?
    ensures !HasToken(TranslateFileName(path, curve, outDir, topDir).value)
  {
    CleanCurveLeavesNoToken(Replace(path, topDir, outDir), curve);
  }

  /** Text without tokens passes through the three rewrites unchanged. */
  lemma RewriteWithoutTokens(text: string, w: Rewriting)
    requires !HasToken(text)
    ensures RewriteTokens(text, w) == text
  {
    ReplaceAbsent(text, BigPattern, w.big);
    ReplaceAbsent(text, FpPattern, w.fp);
    ReplaceAbsent(text, CurvePattern, w.curve);
  }

  lemma CurvePassOnSample()
    ensures Replace("ZZZXX", CurvePattern, "BN254CX") == "BN254CXXX"
  {
    assert StartsWith("ZZZXX", CurvePattern) && "ZZZXX"[3..] == "XX" + [];
    ReplaceCopiesHead("XX", [], CurvePattern, "BN254CX");
  }

  lemma BigPassOnSample()
    ensures Replace("ZZZXX", BigPattern, "256_56") == "ZZZXX"
  {
    assert "ZZZXX" == "ZZZ" + "XX";
    ReplaceCopiesHead("ZZZ", "XX", "XXX", "256_56");
    ReplaceAbsent("XX", "XXX", "256_56");
  }

  lemma BigPassOnRewritten()
    ensures Replace("BN254CXXX", BigPattern, "256_56") == "BN254C256_56"
  {
    assert "BN254CXXX" == "BN254C" + "XXX";
    ReplaceCopiesHead("BN254C", "XXX", "XXX", "256_56");
    ReplacePatternItself("XXX", "256_56");
  }

  lemma FpPassOnSample()
    ensures Replace("ZZZXX", FpPattern, "BN254CX") == "ZZZXX"
  {
    assert "ZZZXX" == "ZZZXX" + [];
    ReplaceCopiesHead("ZZZXX", [], FpPattern, "BN254CX");
  }

  lemma FpPassOnRewritten()
    ensures Replace("BN254CXXX", FpPattern, "BN254CX") == "BN254CXXX"
  {
    assert "BN254CXXX" == "BN254CXXX" + [];
    ReplaceCopiesHead("BN254CXXX", [], FpPattern, "BN254CX");
  }

  lemma CXTables()
    ensures Resolve("BN254CX") == Ok(Rewriting("256_56", "BN254CX", "BN254CX"))
  {
  }

  lemma CXRewriteOnSample()
    ensures RewriteTokens("ZZZXX", Rewriting("256_56", "BN254CX", "BN254CX")) == "BN254CXXX"
  {
    BigPassOnSample();
    FpPassOnSample();
    CurvePassOnSample();
  }

  /**
   The curve name `BN254CX` ends in `X`: written in front of `XX` by the
   last pass, it leaves an `XXX` in the result that no pass removes.
   */
  lemma BN254CXRecreatesBigToken()
    ensures RewriteTokens("ZZZXX", Resolve("BN254CX").value) == "BN254CXXX"
    ensures Contains(RewriteTokens("ZZZXX", Resolve("BN254CX").value), BigPattern)
  {
    CXTables();
    CXRewriteOnSample();
    assert OccursAt("BN254CXXX", BigPattern, 6);
  }

  lemma ReversedPassesOnSample()
    ensures Replace(Replace(Replace("ZZZXX", CurvePattern, "BN254CX"), FpPattern, "BN254CX"), BigPattern, "256_56")
              == "BN254C256_56"
  {
    CurvePassOnSample();
    FpPassOnRewritten();
    BigPassOnRewritten();
  }

  /**
   The order of the passes matters: rewriting `ZZZ` first and `XXX` last
   would turn the same text into `BN254C256_56`.
   */
  lemma PassOrderMatters()
    ensures var w := Resolve("BN254CX").value;
            Replace(Replace(Replace("ZZZXX", CurvePattern, w.curve), FpPattern, w.fp), BigPattern, w.big)
              == "BN254C256_56" != RewriteTokens("ZZZXX", w)
  {
    CXTables();
    CXRewriteOnSample();
    ReversedPassesOnSample();
    assert "BN254C256_56"[6] != "BN254CXXX"[6];
  }

  lemma DirectoryPassOnSample()
    ensures Replace("s/a/s/XXX", "s", "o") == "o/a/o/XXX"
  {
    assert StartsWith("s/a/s/XXX", "s") && "s/a/s/XXX"[1..] == "/a/" + "s/XXX";
    ReplaceCopiesHead("/a/", "s/XXX", "s", "o");
    assert StartsWith("s/XXX", "s") && "s/XXX"[1..] == "/XXX" + [];
    ReplaceCopiesHead("/XXX", [], "s", "o");
  }

  lemma BigPassOnPath()
    ensures Replace("o/a/o/XXX", BigPattern, "256_56") == "o/a/o/256_56"
  {
    assert "o/a/o/XXX" == "o/a/o/" + "XXX";
    ReplaceCopiesHead("o/a/o/", "XXX", "XXX", "256_56");
    ReplacePatternItself("XXX", "256_56");
  }

  lemma OtherPassesOnPath()
    ensures Replace("o/a/o/256_56", FpPattern, "BN254") == "o/a/o/256_56"
    ensures Replace("o/a/o/256_56", CurvePattern, "BN254") == "o/a/o/256_56"
  {
    assert "o/a/o/256_56" == "o/a/o/256_56" + [];
    ReplaceCopiesHead("o/a/o/256_56", [], FpPattern, "BN254");
    ReplaceCopiesHead("o/a/o/256_56", [], CurvePattern, "BN254");
  }

  lemma TokenPassesOnSample()
    ensures RewriteTokens("o/a/o/XXX", Rewriting("256_56", "BN254", "BN254")) == "o/a/o/256_56"
  {
    BigPassOnPath();
    OtherPassesOnPath();
  }

  /**
   The directory rewrite replaces every occurrence of the top-level
   directory in the path, not just a leading one.
   */
  lemma EveryDirectoryOccurrenceMoves()
    ensures TranslateFileName("s/a/s/XXX", "BN254", "o", "s") == Ok("o/a/o/256_56")
  {
    assert Resolve("BN254") == Ok(Rewriting("256_56", "BN254", "BN254"));
    DirectoryPassOnSample();
    TokenPassesOnSample();
  }

  /**
   `BN254` and `BN254CX` share the big suffix, so a path naming only `XXX`
   translates to one name for both and the printed set holds it once.
   */
  lemma SharedBigSuffixCollapses(path: Path, outDir: Path, topDir: Path)
    requires !Contains(Replace(path, topDir, outDir), FpPattern)
    requires !Contains(Replace(path, topDir, outDir), CurvePattern)
    ensures TranslateFileName(path, "BN254", outDir, topDir) == TranslateFileName(path, "BN254CX", outDir, topDir)
    ensures FileNames(path, ["BN254", "BN254CX"], outDir, topDir) == Ok({TranslateFileName(path, "BN254", outDir, topDir).value})
  {
    LiteralFacts();
    var moved := Replace(path, topDir, outDir);
    var s1 := Replace(moved, BigPattern, "256_56");
    ReplaceKeepsAbsent(moved, BigPattern, "256_56", FpPattern);
    ReplaceKeepsAbsent(moved, BigPattern, "256_56", CurvePattern);
    ReplaceAbsent(s1, FpPattern, "BN254");
    ReplaceAbsent(s1, FpPattern, "BN254CX");
    ReplaceAbsent(s1, CurvePattern, "BN254");
    ReplaceAbsent(s1, CurvePattern, "BN254CX");
    assert ["BN254", "BN254CX"][1..] == ["BN254CX"];
    assert ["BN254CX"][1..] == [];
  }

  /** The path every curve of the list translates `path` to (all curves known). */
  function Target(path: Path, curve: string, outDir: Path, topDir: Path): Path
    requires curve in KnownCurves
  {
    TranslateFileName(path, curve, outDir, topDir).value
  }

  /**
   When no curve writes over the template, the file at a translated path
   holds the expansion for the last curve of the list that maps there.
   */
  lemma {:induction false} LastWriteWins(fs: FileSystem, input: Path, curves: seq<string>, outDir: Path, topDir: Path, i: nat)
    requires input in fs
    requires FirstUnknown(curves) == |curves|
    requires forall j :: 0 <= j < |curves| ==> Target(input, curves[j], outDir, topDir) != input
    requires i < |curves|
    requires forall j :: i < j < |curves| ==> Target(input, curves[j], outDir, topDir) != Target(input, curves[i], outDir, topDir)
    ensures Target(input, curves[i], outDir, topDir) in ExpandTemplate(fs, input, curves, outDir, topDir).fs
    ensures ExpandTemplate(fs, input, curves, outDir, topDir).fs[Target(input, curves[i], outDir, topDir)]
              == RewriteTokens(fs[input], Resolve(curves[i]).value)
    decreases |curves|
  {
    var out0 := Target(input, curves[0], outDir, topDir);
    var fs1 := fs[out0 := RewriteTokens(fs[input], Resolve(curves[0]).value)];
    assert ExpandTemplate(fs, input, curves, outDir, topDir) == ExpandTemplate(fs1, input, curves[1..], outDir, topDir);
    assert fs1[input] == fs[input];
    if i == 0 {
      var p := out0;
      NoLaterWriteKeeps(fs1, input, curves[1..], outDir, topDir, p);
    } else {
      forall j | 0 <= j < |curves[1..]|
        ensures Target(input, curves[1..][j], outDir, topDir) != input
      {
        assert curves[1..][j] == curves[j + 1];
      }
      forall j | i - 1 < j < |curves[1..]|
        ensures Target(input, curves[1..][j], outDir, topDir) != Target(input, curves[1..][i - 1], outDir, topDir)
      {
        assert curves[1..][j] == curves[j + 1];
      }
      LastWriteWins(fs1, input, curves[1..], outDir, topDir, i - 1);
    }
  }

  /** A path no curve of the list translates to keeps its contents. */
  lemma NoLaterWriteKeeps(fs: FileSystem, input: Path, curves: seq<string>, outDir: Path, topDir: Path, p: Path)
    requires p in fs
    requires forall j :: 0 <= j < |curves| ==> curves[j] in KnownCurves && Target(input, curves[j], outDir, topDir) != p
    ensures p in ExpandTemplate(fs, input, curves, outDir, topDir).fs
    ensures ExpandTemplate(fs, input, curves, outDir, topDir).fs[p] == fs[p]
  {
    forall q | q in OutputPaths(input, curves, outDir, topDir)
      ensures q != p
    {
      var j :| 0 <= j < |curves| && curves[j] in KnownCurves && q == TranslateFileName(input, curves[j], outDir, topDir).value;
      assert Target(input, curves[j], outDir, topDir) == q;
    }
  }

  /**
   An unknown curve stops the expansion with a `KeyError` naming it; the
   files written for the curves before it stay, and no later curve writes.
   */
  lemma {:induction false} KeyErrorKeepsEarlierWrites(fs: FileSystem, input: Path, pre: seq<string>, bad: string, post: seq<string>,
                                                       outDir: Path, topDir: Path)
    requires input in fs
    requires FirstUnknown(pre) == |pre|
    requires bad !in KnownCurves
    ensures ExpandTemplate(fs, input, pre + [bad] + post, outDir, topDir)
              == Run(ExpandTemplate(fs, input, pre, outDir, topDir).fs, Some(KeyError(bad)))
    decreases |pre|
  {
    if |pre| == 0 {
      assert pre + [bad] + post == [bad] + post;
    } else {
      var fs1 := fs[Target(input, pre[0], outDir, topDir) := RewriteTokens(fs[input], Resolve(pre[0]).value)];
      assert (pre + [bad] + post)[0] == pre[0];
      assert (pre + [bad] + post)[1..] == pre[1..] + [bad] + post;
      KeyErrorKeepsEarlierWrites(fs1, input, pre[1..], bad, post, outDir, topDir);
    }
  }

  /** An empty curve list (`--curves` given no value) writes nothing and raises no error. */
  lemma NoCurvesNoWrites(fs: FileSystem, input: Path, outDir: Path, topDir: Path)
    ensures ExpandTemplate(fs, input, [], outDir, topDir) == Run(fs, None)
    ensures FileNames(input, [], outDir, topDir) == Ok({})
  {
  }

  /** A header whose every line is copied once: `EmitAll` reproduces the lines. */
  lemma {:induction false} EmitAllCopies(lines: seq<string>, curves: seq<string>)
    requires FirstUnknown(curves) == |curves|
    requires forall i :: 0 <= i < |lines| ==> !IsReplicatedLine(lines[i])
    ensures EmitAll(lines, curves) == Concat(lines)
    decreases |lines|
  {
    if |lines| > 0 {
      EmitAllCopies(lines[1..], curves);
    }
  }

  /** A template with no include naming a token comes out of the header mode verbatim. */
  lemma HeaderWithoutTokensIsCopy(text: string, curves: seq<string>)
    requires forall i :: 0 <= i < |Lines(text)| ==> !IsReplicatedLine(Lines(text)[i])
    ensures !HeaderFails(Lines(text), curves)
    ensures HeaderText(Lines(text), curves) == text
  {
    EmitAllCopies(Lines(text), curves[..FirstUnknown(curves)]);
  }

  /** The lines of `lines` that are written once. */
  function KeptLines(lines: seq<string>): (r: seq<string>)
    ensures forall i :: 0 <= i < |r| ==> !IsReplicatedLine(r[i])
    ensures |r| <= |lines|
  {
    if |lines| == 0 then []
    else if IsReplicatedLine(lines[0]) then KeptLines(lines[1..])
    else [lines[0]] + KeptLines(lines[1..])
  }

  /** With an empty curve list every include naming a token is dropped and the rest copied. */
  lemma {:induction false} HeaderWithoutCurves(lines: seq<string>)
    ensures !HeaderFails(lines, [])
    ensures HeaderText(lines, []) == Concat(KeptLines(lines))
    decreases |lines|
  {
    if |lines| > 0 {
      HeaderWithoutCurves(lines[1..]);
      assert Copies(lines[0], []) == [];
    }
  }

  /**
   The header mode writes to the untranslated path: when that path still
   names a token and the curves are `BN254` or `BLS383`, the printed set
   does not contain the file actually written.
   */
  lemma HeaderPathNotPrinted(input: Path, curves: seq<string>, outDir: Path, topDir: Path)
    requires forall i :: 0 <= i < |curves| ==> curves[i] in TokenFreeCurves
    requires HasToken(HeaderPath(input, outDir, topDir))
    ensures FileNames(input, curves, outDir, topDir).Ok?
    ensures HeaderPath(input, outDir, topDir) !in FileNames(input, curves, outDir, topDir).value
  {
    assert forall i :: 0 <= i < |curves| ==> curves[i] in KnownCurves;
    var h := HeaderPath(input, outDir, topDir);
    FileNamesMembers(input, curves, outDir, topDir, h);
    forall i | 0 <= i < |curves|
      ensures TranslateFileName(input, curves[i], outDir, topDir) != Ok(h)
    {
      CleanCurvePathHasNoToken(input, curves[i], outDir, topDir);
    }
  }

  lemma {:induction false} FieldLengthOfTerminated(name: string, rest: string)
    requires ';' !in name
    ensures FieldLength(name + ";" + rest) == |name|
    decreases |name|
  {
    if |name| > 0 {
      assert (name + ";" + rest)[1..] == name[1..] + ";" + rest;
      FieldLengthOfTerminated(name[1..], rest);
    }
  }

  /**
   The printed list reads back as the names in printing order, as long as
   no name contains the separator.
   */
  lemma {:induction false} PrintedNamesRoundTrip(order: seq<Path>)
    requires forall i :: 0 <= i < |order| ==> ';' !in order[i]
    ensures SplitNames(PrintFileNames(order)) == order
    decreases |order|
  {
    if |order| > 0 {
      var rest := PrintFileNames(order[1..]);
      var s := order[0] + ";" + rest;
      FieldLengthOfTerminated(order[0], rest);
      assert s[..|order[0]|] == order[0];
      assert s[|order[0]| + 1..] == rest;
      PrintedNamesRoundTrip(order[1..]);
    }
  }
}
