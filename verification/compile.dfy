/** The entry points of the source compiler (TableML/TableMLCompiler/Compiler.cs):
    `Compile(path)`, `Compile(path, compileToFilePath, compileBaseDir,
    doRealCompile)` and the path handling at the end of
    `DoCompilerExcelReader`, together with what the default configuration
    (TableML/TableMLCompiler/CompilerConfig.cs) makes of `#else`, `#if` and
    the output extension.

    `Path.GetFullPath` is taken as the identity on the paths it is given
    (they are treated as full already), except that it rejects an empty
    path; reading the source file is a parameter `read` from the reader
    kind to the grid it yields. */
module CompileFile {
  import opened Wrappers
  import Text
  import Paths
  import opened CompilerConfig
  import opened CompileResult
  import opened Compiler

  // ---------------------------------------------------------------------
  // Paths

  /** `s.Replace("\\", "/")`, character by character. */
  function Slashes(s: string): (r: string)
    ensures |r| == |s| && Text.Free(r, {'\\'})
    ensures forall i :: 0 <= i < |s| ==> r[i] == if s[i] == '\\' then '/' else s[i]
  {
    seq(|s|, i requires 0 <= i < |s| => if s[i] == '\\' then '/' else s[i])
  }

  /** One leading '/' removed, as `if (p.StartsWith("/")) p = p.Substring(1)`. */
  function DropSlash(p: string): (r: string)
    ensures p == (if Text.StartsWith(p, "/") then "/" else "") + r
  {
    if Text.StartsWith(p, "/") then p[1..] else p
  }

  /** `TabFileRelativePath` as written: with a base directory, every
      occurrence of the base (with '/' separators) is removed from the
      export path (likewise); without one, the export path is kept as it
      is; then one leading '/' goes. */
  function RelativePath(exportPath: string, baseDir: string): string {
    var base := Slashes(baseDir);
    DropSlash(if base != "" then Text.Replace(Slashes(exportPath), base, "") else exportPath)
  }

  /** The relative path as evidently intended: the base directory is
      removed where it starts the export path, and nowhere else. */
  function RelativeIntended(exportPath: string, baseDir: string): string {
    var full, base := Slashes(exportPath), Slashes(baseDir);
    DropSlash(if base != "" then (if Text.StartsWith(full, base) then full[|base|..] else full) else exportPath)
  }

  // ---------------------------------------------------------------------
  // Lemmas: paths

  /** A text with no backslash is its own `Slashes`. */
  lemma SlashesFree(s: string)
    requires Text.Free(s, {'\\'})
    ensures Slashes(s) == s
  {
  }

  /** `Slashes` is the source's `Replace("\\", "/")`. */
  lemma {:induction false} SlashesIsReplace(s: string)
    ensures Slashes(s) == Text.Replace(s, "\\", "/")
    decreases |s|
  {
    if s != [] {
      SlashesIsReplace(s[1..]);
      assert Slashes(s) == Slashes(s[..1]) + Slashes(s[1..]);
    }
  }

  /** The intended relative path of a file under the base directory is its
      path below the base, with no leading '/'. */
  lemma {:induction false} IntendedUnderBase(base: string, x: string)
    requires base != "" && Text.Free(base, {'\\'}) && Text.Free(x, {'\\'}) && !Text.StartsWith(x, "/")
    ensures RelativeIntended(base + "/" + x, base) == x
    ensures !Text.StartsWith(RelativeIntended(base + "/" + x, base), "/")
  {
    var full := base + "/" + x;
    assert Text.Free(full, {'\\'});
    SlashesFree(full);
    SlashesFree(base);
    assert full[|base|..] == "/" + x;
  }

  /** Where the base occurs only at the start, the path as written is the
      intended one. */
  lemma {:induction false} RelativeAgrees(base: string, x: string)
    requires base != "" && Text.Free(base, {'\\'}) && Text.Free(x, {'\\'}) && !Text.StartsWith(x, "/")
    requires !Text.Contains("/" + x, base)
    ensures RelativePath(base + "/" + x, base) == x == RelativeIntended(base + "/" + x, base)
  {
    WrittenUnderBase(base, x);
    IntendedUnderBase(base, x);
  }

  /** The as-written half of `RelativeAgrees`. */
  lemma {:induction false} WrittenUnderBase(base: string, x: string)
    requires base != "" && Text.Free(base, {'\\'}) && Text.Free(x, {'\\'}) && !Text.StartsWith(x, "/")
    requires !Text.Contains("/" + x, base)
    ensures RelativePath(base + "/" + x, base) == x
  {
    var tail := "/" + x;
    var full := base + tail;
    assert base + "/" + x == full;
    assert Text.Free(full, {'\\'}) by {
      Text.FreeConcat("/", x, {'\\'});
      Text.FreeConcat(base, tail, {'\\'});
    }
    SlashesFree(full);
    SlashesFree(base);
    Text.ReplaceAbsent(tail, base, "");
    ReplaceAtHead(full, base, tail);
    assert DropSlash(tail) == x;
  }

  /** `Replace` removes a leading occurrence and goes on after it. */
  lemma ReplaceAtHead(s: string, pat: string, tail: string)
    requires pat != "" && s == pat + tail
    ensures Text.Replace(s, pat, "") == Text.Replace(tail, pat, "")
  {
    assert s[..|pat|] == pat && s[|pat|..] == tail;
  }

  /** As written, the base is removed wherever it occurs. A file whose
      name starts with the base directory's own name loses that part too:
      under the base "/out", "/out/outline.tml" comes out as "line.tml"
      where "outline.tml" is meant. */
  lemma {:induction false} RelativeRemovesEveryOccurrence(dir: string, rest: string)
    requires dir != "" && Text.Free(dir, {'\\', '/'}) && Text.Free(rest, {'\\', '/'})
    ensures var base := "/" + dir;
      var full := base + "/" + (dir + rest);
      && RelativePath(full, base) == rest
      && RelativeIntended(full, base) == dir + rest
      && RelativePath(full, base) != RelativeIntended(full, base)
  {
    var base, name := "/" + dir, dir + rest;
    RelativeDropsRepeat(dir, rest);
    assert Text.Free(base, {'\\'}) by { Text.FreeConcat("/", dir, {'\\'}); }
    assert Text.Free(name, {'\\'}) by { Text.FreeConcat(dir, rest, {'\\'}); }
    assert name[0] == dir[0];
    IntendedUnderBase(base, name);
    assert |name| > |rest|;
  }

  /** The as-written half of the example above. */
  lemma {:induction false} RelativeDropsRepeat(dir: string, rest: string)
    requires dir != "" && Text.Free(dir, {'\\', '/'}) && Text.Free(rest, {'\\', '/'})
    ensures RelativePath(("/" + dir) + "/" + (dir + rest), "/" + dir) == rest
  {
    var base := "/" + dir;
    var mid := base + rest;
    var full := base + mid;
    assert base + "/" + (dir + rest) == full;
    assert Text.Free(base, {'\\'}) && Text.Free(mid, {'\\'}) && Text.Free(full, {'\\'}) by {
      Text.FreeConcat("/", dir, {'\\'});
      Text.FreeConcat(base, rest, {'\\'});
      Text.FreeConcat(base, mid, {'\\'});
    }
    SlashesFree(full);
    SlashesFree(base);
    assert Text.Free(rest, {base[0]});
    Text.NotContainsHead(rest, base);
    Text.ReplaceAbsent(rest, base, "");
    assert mid[..|base|] == base && mid[|base|..] == rest;
    assert full[..|base|] == base && full[|base|..] == mid;
    assert Text.Replace(full, base, "") == rest;
    assert !Text.StartsWith(rest, "/") by { assert rest == [] || rest[0] != '/'; }
  }

  // ---------------------------------------------------------------------
  // Compiling one file

  /** The two source readers `Compile` chooses between. */
  datatype Reader = Tsv | Excel

  /** A ".tsv" extension (compared exactly) picks the tab-separated
      reader; every other extension picks the spreadsheet reader. */
  function ReaderFor(path: string): (r: Reader) {
    if Paths.GetExtension(path) == ".tsv" then Tsv else Excel
  }

  /** Where the table goes: the given path when there is one, else the
      source's file name without extension followed by the configured
      extension. */
  function ExportPath(cfg: Config, path: string, compileTo: string): (r: string)
    ensures compileTo != "" ==> r == compileTo
    ensures compileTo == "" ==>
      |r| >= |cfg.exportTabExt| && r[|r| - |cfg.exportTabExt|..] == cfg.exportTabExt
      && Text.Free(r[..|r| - |cfg.exportTabExt|], Paths.Separators)
  {
    if compileTo != "" then compileTo
    else
      var name := Paths.GetFileNameWithoutExtension(path);
      assert (name + cfg.exportTabExt)[..|name|] == name;
      assert (name + cfg.exportTabExt)[|name|..] == cfg.exportTabExt;
      name + cfg.exportTabExt
  }

  /** What compiling one file does: where the table goes, the text written
      there (`None` when nothing is written), and the result for the code
      templates. */
  datatype Compiled = Compiled(exportPath: string, written: Option<string>, result: CompileResult)

  /** Why `Compile` throws: `Path.GetFullPath` rejects an empty path. */
  datatype CompileError = EmptyPath

  /** `DoCompilerExcelReader`: the column passes give the fields and the
      primary key, the row pass the text, which is written only when
      compiling for real; then the paths, with the relative path as
      `TabFileRelativePath` computes it. */
  function DoCompile(cfg: Config, path: string, src: Source, compileTo: string, baseDir: string, doCompile: bool): (c: Compiled)
    ensures c.written.Some? <==> doCompile
    ensures doCompile ==> c.written == Some(TableText(cfg, src, true))
    ensures c.exportPath == ExportPath(cfg, path, compileTo)
    ensures c.result.relativePath == RelativePath(c.exportPath, baseDir)
    ensures c.result.fields == FieldList(cfg, src.columns) && c.result.primaryKey == PrimaryKey(cfg, src.columns)
    ensures c.result.fullPath == Slashes(c.exportPath)
    ensures Text.Free(c.result.fullPath, {'\\'}) && |c.result.fullPath| == |c.exportPath|
    ensures baseDir == "" ==> c.exportPath == (if Text.StartsWith(c.exportPath, "/") then "/" else "") + c.result.relativePath
  {
    var exportPath := ExportPath(cfg, path, compileTo);
    Compiled(
      exportPath,
      if doCompile then Some(TableText(cfg, src, true)) else None,
      CompileResult(Slashes(exportPath), RelativePath(exportPath, baseDir), FieldList(cfg, src.columns), PrimaryKey(cfg, src.columns)))
  }

  /** `Compile(path, compileToFilePath, compileBaseDir, doRealCompile)`:
      the output path must not be empty; the source is read with the
      reader its extension picks. */
  function CompileTo(cfg: Config, path: string, read: Reader -> Source, compileTo: string, baseDir: string, doRealCompile: bool): (r: Result<Compiled, CompileError>)
    ensures r.Failure? <==> compileTo == ""
    ensures r.Success? ==> r.value.exportPath == compileTo
  {
    if compileTo == "" then Failure(EmptyPath)
    else Success(DoCompile(cfg, path, read(ReaderFor(path)), compileTo, baseDir, doRealCompile))
  }

  /** `Compile(path)`: the output sits next to the source, with the
      configured extension, and is written for real, with no base
      directory. */
  function CompileDefault(cfg: Config, path: string, read: Reader -> Source): (r: Result<Compiled, CompileError>)
    ensures path == "" ==> r == Failure(EmptyPath)
  {
    CompileTo(cfg, path, read, Paths.ChangeExtension(path, Some(cfg.exportTabExt)), "", true)
  }

  // ---------------------------------------------------------------------
  // Lemmas: compiling one file

  /** The default extension is one `ChangeExtension` appends as it is. */
  lemma DefaultExtensionPlain()
    ensures Paths.PlainExtension(Default.exportTabExt)
  {
    var e := Default.exportTabExt;
    assert e[1..] == "tml";
    Text.FreeOf("tml", Paths.Separators + {'.'});
  }

  /** With the default configuration, compiling a file writes its whole
      table to a file with the same name and the extension ".tml", and
      the relative path is that path without a leading '/'. An empty path
      is rejected. */
  lemma CompileOutputPath(path: string, read: Reader -> Source)
    ensures path == "" <==> CompileDefault(Default, path, read).Failure?
    ensures path != "" ==>
      var c := CompileDefault(Default, path, read).value;
      && Paths.GetExtension(c.exportPath) == ".tml"
      && Paths.GetFileNameWithoutExtension(c.exportPath) == Paths.GetFileNameWithoutExtension(path)
      && c.written == Some(TableText(Default, read(ReaderFor(path)), true))
      && c.exportPath == (if Text.StartsWith(c.exportPath, "/") then "/" else "") + c.result.relativePath
  {
    if path != "" {
      DefaultExtensionPlain();
      var out := Paths.ChangeExtension(path, Some(".tml"));
      Paths.ChangeExtensionThenGet(path, ".tml");
      Paths.ChangeExtensionKeepsName(path, ".tml");
      assert out != "";
    }
  }

  /** Compiling without writing produces the same result for the code
      templates as compiling for real. */
  lemma NoCompileSameResult(cfg: Config, path: string, read: Reader -> Source, compileTo: string, baseDir: string)
    ensures CompileTo(cfg, path, read, compileTo, baseDir, false).Success? ==>
      && CompileTo(cfg, path, read, compileTo, baseDir, false).value.written.None?
      && CompileTo(cfg, path, read, compileTo, baseDir, true).value.result == CompileTo(cfg, path, read, compileTo, baseDir, false).value.result
  {
  }

  /** The reader follows the extension: after changing a path's extension
      to ".tsv" the tab-separated reader is used, after changing it to
      ".xlsx" the spreadsheet reader. */
  lemma ReaderFollowsExtension(path: string)
    requires path != ""
    ensures ReaderFor(Paths.ChangeExtension(path, Some(".tsv"))) == Tsv
    ensures ReaderFor(Paths.ChangeExtension(path, Some(".xlsx"))) == Excel
  {
    assert ".tsv"[1..] == "tsv" && ".xlsx"[1..] == "xlsx";
    Text.FreeOf("tsv", Paths.Separators + {'.'});
    Text.FreeOf("xlsx", Paths.Separators + {'.'});
    Paths.ChangeExtensionThenGet(path, ".tsv");
    Paths.ChangeExtensionThenGet(path, ".xlsx");
  }

  // ---------------------------------------------------------------------
  // Lemmas: the default configuration

  /** With the default prefixes, every name starting with '#' that is not
      an `#if` or `#endif` directive is a comment: "#else", for one. */
  lemma {:induction false} DefaultHashIsComment(s: string)
    requires s != "" && s[0] == '#' && !Text.StartsWith(s, "#if") && !Text.StartsWith(s, "#endif")
    ensures CheckCellType(Default, s) == Comment
  {
    var low := Text.ToLower(s);
    assert low[0] == '#';
    var e := Text.TrimEnd(low);
    assert !Text.IsWhiteSpace(low[0]);
    assert e != "" && e[0] == '#';
    assert Text.Trim(low) == e;
    assert Text.ToLower("#") == "#";
    assert HasPrefix(s, Default.commentStartsWith[1]);
  }

  /** So an "#else" row is skipped without touching the flag: the rows
      after it are written under the same condition as those before it. */
  lemma ElseKeepsFlag(src: Source, r: nat, active: bool)
    requires FirstKept(Default, src.columns) && Text.StartsWith(CellAt(src, r, 0), "#else")
    ensures Decide(Default, src, r, active) == Decision(false, active)
  {
    var cell := CellAt(src, r, 0);
    assert cell[0] == '#' && cell[1] == 'e' && cell[2] == 'l';
    DefaultHashIsComment(cell);
  }

  /** With no condition variables configured, an `#if` row sets the flag
      exactly when it names no variable. */
  lemma IfWithoutVariables(cfg: Config, src: Source, r: nat, active: bool)
    requires cfg.conditionVars.None? && FirstKept(cfg, src.columns)
    requires CheckCellType(cfg, CellAt(src, r, 0)) == If
    ensures Decide(cfg, src, r, active).active <==> GetIfVars(CellAt(src, r, 0)) == []
    ensures !Decide(cfg, src, r, active).emit
  {
  }
}
