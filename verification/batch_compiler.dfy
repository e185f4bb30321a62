/** The batch compiler (TableML/TableMLCompiler/BatchCompiler.cs): which
    files under a source directory are compiled, copied or ignored, where
    their output goes, when an up-to-date output is skipped, the class name
    a compiled table gets, and how results sharing a class name are merged
    for the code templates.

    The file system is reduced to what each found file carries: its path,
    whether the output it would be compiled to exists, whether the two
    files' last-write times are equal, and what the source readers make of
    it. */
module BatchCompiler {
  import opened Wrappers
  import Text
  import Paths
  import Masks
  import OrderedMap
  import opened ColumnVars
  import opened CompilerConfig
  import opened CompileResult
  import Compiler
  import CompileFile

  /** The extensions of source tables. */
  const ExcelExt: set<string> := {".xls", ".xlsx", ".tsv"}

  /** The extensions of files copied as they are. */
  const CopyExt: set<string> := {".txt"}

  /** A file `Directory.GetFiles` finds under the source directory. */
  datatype SourceFile = SourceFile(
    path: string,
    outputExists: bool,
    sameTime: bool,
    content: CompileFile.Reader -> Compiler.Source)

  // ---------------------------------------------------------------------
  // Paths and the choice of action

  /** The path below the source directory as written: every occurrence of
      the directory is removed, backslashes become '/', and one leading
      '/' goes. .NET's `Replace` rejects an empty directory. */
  function SourceRelative(findDir: string, path: string): (r: string)
    requires findDir != ""
    ensures Text.Free(r, {'\\'})
  {
    var p := CompileFile.Slashes(Text.Replace(path, findDir, ""));
    var r := CompileFile.DropSlash(p);
    assert r == p[|p| - |r|..];
    r
  }

  /** The path below the source directory as evidently intended: the
      directory is removed where it starts the path, and nowhere else. */
  function SourceRelativeIntended(findDir: string, path: string): string
    requires findDir != ""
  {
    CompileFile.DropSlash(CompileFile.Slashes(if Text.StartsWith(path, findDir) then path[|findDir|..] else path))
  }

  /** A source table: one of the table extensions, and a name that does not
      start with '~' (the spreadsheet program's lock files). */
  predicate IsTable(path: string) {
    Paths.GetExtension(path) in ExcelExt && !Text.StartsWith(Paths.GetFileNameWithoutExtension(path), "~")
  }

  /** The skip test: the output exists, the run is not forced, and the two
      files were last written at the same time. */
  predicate UpToDate(f: SourceFile, forceAll: bool) {
    f.outputExists && !forceAll && f.sameTime
  }

  /** What the loop over the found files does with one of them. */
  datatype Action = CompileTable(target: string) | SkipUpToDate | CopyTo(target: string) | Ignore

  /** The body of the loop over the found files: a source table is compiled
      to `compileBaseDir/relative path` with the extension changed, unless
      its output is up to date; otherwise a ".txt" file is copied to
      `compileBaseDir/relative path`; anything else is left alone. */
  function Classify(findDir: string, baseDir: string, ext: string, forceAll: bool, f: SourceFile): (a: Action)
    requires findDir != ""
    ensures a.CompileTable? || a.SkipUpToDate? <==> IsTable(f.path)
    ensures a.CopyTo? <==> !IsTable(f.path) && Paths.GetExtension(f.path) in CopyExt
    ensures a.CompileTable? || a.CopyTo? ==> Text.StartsWith(a.target, baseDir + "/")
    ensures a.CompileTable? ==> a.target == baseDir + "/" + Paths.ChangeExtension(SourceRelative(findDir, f.path), Some(ext))
    ensures a.CopyTo? ==> a.target == baseDir + "/" + SourceRelative(findDir, f.path)
  {
    var rel := SourceRelative(findDir, f.path);
    if IsTable(f.path) then
      if UpToDate(f, forceAll) then SkipUpToDate
      else CompileTable(baseDir + "/" + Paths.ChangeExtension(rel, Some(ext)))
    else if Paths.GetExtension(f.path) in CopyExt then CopyTo(baseDir + "/" + rel)
    else Ignore
  }

  /** The compiler the batch uses: the default configuration with the
      batch's condition variables. */
  function BatchConfig(conditionVars: Option<seq<string>>): (cfg: Config)
    ensures cfg.exportTabExt == Default.exportTabExt && cfg.commentStartsWith == Default.commentStartsWith
    ensures cfg.conditionVars == conditionVars
  {
    Default.(conditionVars := conditionVars)
  }

  /** What one found file adds to the results: the compile result when it
      is compiled, nothing otherwise. */
  function Produced(cfg: Config, findDir: string, baseDir: string, ext: string, forceAll: bool, f: SourceFile): (r: Option<CompileResult>)
    requires findDir != ""
    ensures r.Some? <==> Classify(findDir, baseDir, ext, forceAll, f).CompileTable?
  {
    match Classify(findDir, baseDir, ext, forceAll, f)
    case CompileTable(target) =>
      Some(CompileFile.CompileTo(cfg, f.path, f.content, target, baseDir, true).value.result)
    case _ => None
  }

  /** Which of the found files produce a result. */
  function ProducesMask(cfg: Config, findDir: string, baseDir: string, ext: string, forceAll: bool, files: seq<SourceFile>): (m: seq<bool>)
    requires findDir != ""
    ensures |m| == |files|
    ensures forall i :: 0 <= i < |files| ==> (m[i] <==> Produced(cfg, findDir, baseDir, ext, forceAll, files[i]).Some?)
  {
    seq(|files|, i requires 0 <= i < |files| => Produced(cfg, findDir, baseDir, ext, forceAll, files[i]).Some?)
  }

  /** The results list after the loop: the results of the files that
      produce one, in the order they were found. */
  function Results(cfg: Config, findDir: string, baseDir: string, ext: string, forceAll: bool, files: seq<SourceFile>): (rs: seq<CompileResult>)
    requires findDir != ""
    ensures var p := Masks.Positions(ProducesMask(cfg, findDir, baseDir, ext, forceAll, files));
      && |rs| == |p|
      && forall k :: 0 <= k < |rs| ==> Produced(cfg, findDir, baseDir, ext, forceAll, files[p[k]]) == Some(rs[k])
  {
    var xs := seq(|files|, i requires 0 <= i < |files| => Produced(cfg, findDir, baseDir, ext, forceAll, files[i]));
    assert Masks.Present(xs) == ProducesMask(cfg, findDir, baseDir, ext, forceAll, files);
    Masks.Collect(xs)
  }

  /** Why the batch throws: `Directory.GetFiles` rejects an empty directory. */
  datatype BatchError = EmptySourcePath

  /** `CompileTableMLAll` up to the results it returns: every found file is
      classified, and the source tables that are not up to date are
      compiled with the batch's condition variables. */
  function CompileAll(conditionVars: Option<seq<string>>, sourcePath: string, compilePath: string, ext: string, forceAll: bool, files: seq<SourceFile>): (r: Result<seq<CompileResult>, BatchError>)
    ensures r.Failure? <==> sourcePath == ""
    ensures r.Success? ==> |r.value| <= |files|
    ensures r.Success? ==> r.value == Results(BatchConfig(conditionVars), sourcePath, compilePath, ext, forceAll, files)
    ensures r.Success? ==> var cfg := BatchConfig(conditionVars);
      var p := Masks.Positions(ProducesMask(cfg, sourcePath, compilePath, ext, forceAll, files));
      && |r.value| == |p|
      && forall k :: 0 <= k < |p| ==>
           && Classify(sourcePath, compilePath, ext, forceAll, files[p[k]]).CompileTable?
           && Produced(cfg, sourcePath, compilePath, ext, forceAll, files[p[k]]) == Some(r.value[k])
  {
    if sourcePath == "" then Failure(EmptySourcePath)
    else Success(Results(BatchConfig(conditionVars), sourcePath, compilePath, ext, forceAll, files))
  }

  // ---------------------------------------------------------------------
  // Lemmas: the choice of action

  /** A forced run compiles every source table; a run that is not forced
      skips exactly the tables whose output exists with the same time. */
  lemma ForceAllCompilesEveryTable(findDir: string, baseDir: string, ext: string, forceAll: bool, f: SourceFile)
    requires findDir != ""
    ensures forceAll ==> (Classify(findDir, baseDir, ext, forceAll, f).CompileTable? <==> IsTable(f.path))
    ensures Classify(findDir, baseDir, ext, forceAll, f).SkipUpToDate? <==> IsTable(f.path) && f.outputExists && !forceAll && f.sameTime
  {
  }

  /** A file whose name starts with '~' is never compiled, whatever its
      extension; if it is a ".txt" file it is copied. */
  lemma LockFilesNotCompiled(findDir: string, baseDir: string, ext: string, forceAll: bool, f: SourceFile)
    requires findDir != "" && Text.StartsWith(Paths.GetFileNameWithoutExtension(f.path), "~")
    ensures !Classify(findDir, baseDir, ext, forceAll, f).CompileTable?
    ensures !Classify(findDir, baseDir, ext, forceAll, f).SkipUpToDate?
    ensures Classify(findDir, baseDir, ext, forceAll, f).CopyTo? <==> Paths.GetExtension(f.path) == ".txt"
  {
  }

  /** `ChangeExtension` after any directory prefix gives the extension. */
  lemma {:induction false} TargetExtensionAfter(prefix: string, p: string, e: string)
    requires p != "" && Paths.PlainExtension(e)
    ensures Paths.GetExtension(prefix + Paths.ChangeExtension(p, Some(e))) == e
  {
    var stem := Paths.Stem(p);
    Paths.ChangeIsStemPlus(p, e);
    assert prefix + (stem + e) == (prefix + stem) + e;
    Paths.PlainExtensionLast(prefix + stem, e);
  }

  /** A compiled table's output carries the batch's extension whenever its
      relative path is not empty. */
  lemma CompileTargetExtension(findDir: string, baseDir: string, ext: string, forceAll: bool, f: SourceFile)
    requires findDir != "" && Paths.PlainExtension(ext) && SourceRelative(findDir, f.path) != ""
    requires Classify(findDir, baseDir, ext, forceAll, f).CompileTable?
    ensures Paths.GetExtension(Classify(findDir, baseDir, ext, forceAll, f).target) == ext
  {
    TargetExtensionAfter(baseDir + "/", SourceRelative(findDir, f.path), ext);
  }

  /** A forced run returns one result per source table, in the order the
      tables were found. */
  lemma ForcedResults(cfg: Config, findDir: string, baseDir: string, ext: string, files: seq<SourceFile>)
    requires findDir != ""
    ensures var rs := Results(cfg, findDir, baseDir, ext, true, files);
      var p := Masks.Positions(ProducesMask(cfg, findDir, baseDir, ext, true, files));
      && |rs| == |p|
      && (forall k :: 0 <= k < |p| ==> IsTable(files[p[k]].path))
      && (forall i :: 0 <= i < |files| && IsTable(files[i].path) ==> i in p)
  {
  }

  // ---------------------------------------------------------------------
  // Lemmas: the relative path

  /** As written, the source directory is removed wherever it occurs: with
      the directory "/src", the table "/src/srcmap.xlsx" gets the relative
      path "map.xlsx" where "srcmap.xlsx" is meant. */
  lemma {:induction false} SourceRelativeRemovesEveryOccurrence(dir: string, rest: string)
    requires dir != "" && Text.Free(dir, {'\\', '/'}) && Text.Free(rest, {'\\', '/'})
    ensures var base := "/" + dir;
      var full := base + "/" + (dir + rest);
      && SourceRelative(base, full) == rest
      && SourceRelativeIntended(base, full) == dir + rest
      && SourceRelative(base, full) != SourceRelativeIntended(base, full)
  {
    var base, name := "/" + dir, dir + rest;
    SourceRelativeDropsRepeat(dir, rest);
    assert Text.Free(name, {'\\'}) by { Text.FreeConcat(dir, rest, {'\\'}); }
    assert name[0] == dir[0];
    SourceRelativeIntendedUnder(base, name);
    assert |name| > |rest|;
  }

  /** The as-written half of the example above. */
  lemma {:induction false} SourceRelativeDropsRepeat(dir: string, rest: string)
    requires dir != "" && Text.Free(dir, {'\\', '/'}) && Text.Free(rest, {'\\', '/'})
    ensures SourceRelative("/" + dir, ("/" + dir) + "/" + (dir + rest)) == rest
  {
    var base := "/" + dir;
    var mid := base + rest;
    var full := base + mid;
    assert base + "/" + (dir + rest) == full;
    assert Text.Free(rest, {base[0]});
    Text.NotContainsHead(rest, base);
    Text.ReplaceAbsent(rest, base, "");
    assert mid[..|base|] == base && mid[|base|..] == rest;
    assert full[..|base|] == base && full[|base|..] == mid;
    assert Text.Replace(full, base, "") == rest;
    assert Text.Free(rest, {'\\'});
    CompileFile.SlashesFree(rest);
    assert !Text.StartsWith(rest, "/") by { assert rest == [] || rest[0] != '/'; }
  }

  /** Where the source directory occurs only at the start of a file's path,
      the relative path as written is the intended one: the path below the
      directory, without a leading '/'. */
  lemma {:induction false} SourceRelativeAgrees(findDir: string, x: string)
    requires findDir != "" && Text.Free(x, {'\\'}) && !Text.StartsWith(x, "/")
    requires !Text.Contains("/" + x, findDir)
    ensures SourceRelative(findDir, findDir + "/" + x) == x == SourceRelativeIntended(findDir, findDir + "/" + x)
  {
    var tail := "/" + x;
    var full := findDir + tail;
    assert findDir + "/" + x == full;
    Text.ReplaceAbsent(tail, findDir, "");
    CompileFile.ReplaceAtHead(full, findDir, tail);
    assert Text.Free(tail, {'\\'}) by { Text.FreeConcat("/", x, {'\\'}); }
    CompileFile.SlashesFree(tail);
    assert CompileFile.DropSlash(tail) == x;
    SourceRelativeIntendedUnder(findDir, x);
  }

  /** The intended relative path of a file under the source directory is
      its path below the directory, without a leading '/'. */
  lemma {:induction false} SourceRelativeIntendedUnder(findDir: string, x: string)
    requires findDir != "" && Text.Free(x, {'\\'}) && !Text.StartsWith(x, "/")
    ensures SourceRelativeIntended(findDir, findDir + "/" + x) == x
  {
    var full := findDir + "/" + x;
    assert full[..|findDir|] == findDir;
    var under := full[|findDir|..];
    assert under == "/" + x;
    assert Text.Free(under, {'\\'}) by { Text.FreeConcat("/", x, {'\\'}); }
    CompileFile.SlashesFree(under);
    assert under[1..] == x;
  }

  // ---------------------------------------------------------------------
  // The class name

  /** The characters a class name never holds. */
  const NotInClassName: set<char> := {'/', '\\', ' ', '_', '+', '#'}

  /** A path component with its first character upper-cased
      (`name[0].ToString().ToUpper() + name.Substring(1)`). */
  function Capitalise(w: string): (r: string)
    requires w != ""
    ensures |r| == |w| && r[1..] == w[1..] && r[0] == Text.UpperChar(w[0])
  {
    [Text.UpperChar(w[0])] + w[1..]
  }

  /** The first part of `DefaultClassNameParse`: the path without its
      extension, '/' and '\\' made '_', spaces removed, split on '_'
      dropping empty parts, each part capitalised, and all run together. */
  function Words(path: string): (r: string)
    ensures Text.Free(r, {'/', '\\', ' ', '_'})
  {
    var origin := Paths.ChangeExtension(path, None);
    var a := Text.Replace(origin, "/", "_");
    var b := Text.Replace(a, "\\", "_");
    var c := Text.Replace(b, " ", "");
    var parts := Text.SplitDrop(c, {'_'});
    var caps := CapitaliseAll(parts);
    FreeOfWords(a, b, c, origin, parts, caps);
    Text.Concat(caps)
  }

  /** Every part capitalised. */
  function CapitaliseAll(parts: seq<string>): (r: seq<string>)
    requires forall i :: 0 <= i < |parts| ==> parts[i] != ""
    ensures |r| == |parts| && forall i :: 0 <= i < |parts| ==> r[i] == Capitalise(parts[i])
  {
    seq(|parts|, i requires 0 <= i < |parts| => Capitalise(parts[i]))
  }

  /** Why `Words` holds none of its separators. */
  lemma FreeOfWords(a: string, b: string, c: string, origin: string, parts: seq<string>, caps: seq<string>)
    requires a == Text.Replace(origin, "/", "_") && b == Text.Replace(a, "\\", "_") && c == Text.Replace(b, " ", "")
    requires parts == Text.SplitDrop(c, {'_'})
    requires |caps| == |parts| && forall i :: 0 <= i < |parts| ==> caps[i] == Capitalise(parts[i])
    ensures Text.Free(Text.Concat(caps), {'/', '\\', ' ', '_'})
  {
    var cs := {'/', '\\', ' '};
    Text.ReplaceCharRemoves(origin, '/', "_");
    Text.ReplaceKeepsFree(a, "\\", "_", {'/'});
    Text.ReplaceCharRemoves(a, '\\', "_");
    Text.ReplaceKeepsFree(b, " ", "", {'/'});
    Text.ReplaceKeepsFree(b, " ", "", {'\\'});
    Text.ReplaceCharRemoves(b, ' ', "");
    assert Text.Free(c, cs) by {
      forall i | 0 <= i < |c| ensures c[i] !in cs {
        assert c[i] != '/' && c[i] != '\\' && c[i] != ' ';
      }
    }
    var split := Text.Split(c, {'_'});
    Text.SplitKeepsFree(c, {'_'}, cs);
    forall i | 0 <= i < |caps| ensures Text.Free(caps[i], cs + {'_'}) {
      assert parts[i] in split;
      var j :| 0 <= j < |split| && split[j] == parts[i];
      assert Text.Free(parts[i], cs) && Text.Free(parts[i], {'_'});
      forall k | 0 <= k < |caps[i]| ensures caps[i][k] !in cs + {'_'} {
        if k > 0 {
          assert caps[i][k] == parts[i][k];
        }
      }
    }
    Text.FreeConcatAll(caps, cs + {'_'});
    assert cs + {'_'} == {'/', '\\', ' ', '_'};
  }

  /** `DefaultClassNameParse`: the words, cut before the first '+' and then
      before the first '#'. So the name is the longest start of the words
      holding neither. */
  function DefaultClassName(path: string): (r: string)
    ensures r <= Words(path)
    ensures Text.Free(r, NotInClassName)
    ensures r == Words(path) || Words(path)[|r|] in {'+', '#'}
  {
    var w := Words(path);
    var plus := Text.CutAt(w, '+');
    var r := Text.CutAt(plus, '#');
    assert Text.Free(r, {'+'}) by {
      forall i | 0 <= i < |r| ensures r[i] != '+' { assert r[i] == plus[i]; }
    }
    assert Text.Free(r, NotInClassName) by {
      forall i | 0 <= i < |r| ensures r[i] !in NotInClassName {
        assert r[i] == w[i];
        assert r[i] != '+' && r[i] != '#';
      }
    }
    r
  }

  /** The characters a directory or file name must avoid for the class
      name to be its words run together. */
  const WordBreaks: set<char> := Paths.Separators + {'.', ' ', '_', '+', '#'}

  /** A table in one sub-directory gets the directory's name and its own
      name, each capitalised, run together. */
  lemma {:induction false} ClassNameOfPath(dir: string, name: string, ext: string)
    requires dir != "" && name != ""
    requires Text.Free(dir, WordBreaks) && Text.Free(name, WordBreaks)
    requires Text.Free(ext, Paths.Separators + {'.'})
    ensures DefaultClassName(dir + "/" + name + "." + ext) == Capitalise(dir) + Capitalise(name)
  {
    WordsOfPath(dir, name, ext);
    var w := Capitalise(dir) + Capitalise(name);
    assert Text.Free(w, {'+', '#'}) by {
      forall i | 0 <= i < |w| ensures w[i] != '+' && w[i] != '#' {
        if i < |dir| {
          if i > 0 { assert w[i] == dir[i]; }
        } else if i > |dir| {
          assert w[i] == name[i - |dir|];
        }
      }
    }
  }

  lemma {:induction false} WordsOfPath(dir: string, name: string, ext: string)
    requires dir != "" && name != ""
    requires Text.Free(dir, WordBreaks) && Text.Free(name, WordBreaks)
    requires Text.Free(ext, Paths.Separators + {'.'})
    ensures Words(dir + "/" + name + "." + ext) == Capitalise(dir) + Capitalise(name)
  {
    Paths.DroppedExtension(dir + "/" + name, ext);
    CleanedPath(dir, name);
    SplitPath(dir, name);
    var x, y := Capitalise(dir), Capitalise(name);
    assert CapitaliseAll([dir, name]) == [x, y];
    ConcatTwo(x, y);
  }

  /** Two words run together. */
  lemma ConcatTwo(x: string, y: string)
    ensures Text.Concat([x, y]) == x + y
  {
    assert [x, y][1..] == [y] && [y][1..] == [];
    assert Text.Concat([y]) == y + Text.Concat([]);
  }

  /** The separators and spaces of a directory and name become one '_'. */
  lemma {:induction false} CleanedPath(dir: string, name: string)
    requires Text.Free(dir, WordBreaks) && Text.Free(name, WordBreaks)
    ensures Text.Replace(Text.Replace(Text.Replace(dir + "/" + name, "/", "_"), "\\", "_"), " ", "") == dir + "_" + name
  {
    var a := dir + "_" + name;
    ReplaceSlash(dir, name);
    assert Text.Free(a, {'\\'}) && Text.Free(a, {' '}) by {
      assert forall i :: 0 <= i < |a| ==> a[i] == '_' || a[i] in dir || a[i] in name;
    }
    Text.FreeNotContains(a, '\\');
    Text.ReplaceAbsent(a, "\\", "_");
    Text.FreeNotContains(a, ' ');
    Text.ReplaceAbsent(a, " ", "");
  }

  /** A directory and a name joined by '_' split back into the two. */
  lemma {:induction false} SplitPath(dir: string, name: string)
    requires dir != "" && name != ""
    requires Text.Free(dir, WordBreaks) && Text.Free(name, WordBreaks)
    ensures Text.SplitDrop(dir + "_" + name, {'_'}) == [dir, name]
  {
    assert Text.Free(dir, {'_'}) && Text.Free(name, {'_'});
    Text.SplitCons(dir, '_', name, {'_'});
    Text.SplitFree(name, {'_'});
    assert dir + ['_'] + name == dir + "_" + name;
    assert Text.Split(dir + "_" + name, {'_'}) == [dir, name];
    assert [dir, name][1..] == [name] && [name][1..] == [];
    assert Text.NonEmpty([name]) == [name];
  }

  /** The '/' between a directory and a name becomes '_'. */
  lemma ReplaceSlash(dir: string, name: string)
    requires Text.Free(dir, {'/'}) && Text.Free(name, {'/'})
    ensures Text.Replace(dir + "/" + name, "/", "_") == dir + "_" + name
  {
    Text.ReplaceCharConcat(dir + "/", name, '/', "_");
    Text.ReplaceCharConcat(dir, "/", '/', "_");
    Text.FreeNotContains(dir, '/');
    Text.ReplaceAbsent(dir, "/", "_");
    Text.FreeNotContains(name, '/');
    Text.ReplaceAbsent(name, "/", "_");
    assert Text.Replace("/", "/", "_") == "_" by {
      assert "/"[..1] == "/" && "/"[1..] == "";
    }
  }

  /** For example, "sub/item.tml" gives the class "SubItem". The path's
      parts are parameters fixed by the precondition, so that the
      separators are proved absent from each part rather than from one
      literal. */
  lemma ClassNameExample(dir: string, name: string, ext: string)
    requires dir == "sub" && name == "item" && ext == "tml"
    ensures DefaultClassName(dir + "/" + name + "." + ext) == "SubItem"
  {
    ExampleFree(dir, name, ext);
    ClassNameOfPath(dir, name, ext);
    ExampleCapitals(dir, name);
  }

  /** The example's parts hold no separator. */
  lemma ExampleFree(dir: string, name: string, ext: string)
    requires dir == "sub" && name == "item" && ext == "tml"
    ensures Text.Free(dir, WordBreaks) && Text.Free(name, WordBreaks) && Text.Free(ext, Paths.Separators + {'.'})
  {
    Text.FreeOf(dir, WordBreaks);
    Text.FreeOf(name, WordBreaks);
    Text.FreeOf(ext, Paths.Separators + {'.'});
  }

  /** The example's capitalised parts. */
  lemma ExampleCapitals(dir: string, name: string)
    requires dir == "sub" && name == "item"
    ensures Capitalise(dir) + Capitalise(name) == "SubItem"
  {
    assert Capitalise(dir) == "Sub";
    assert Capitalise(name) == "Item";
  }

  // ---------------------------------------------------------------------
  // Merging by class name

  /** `TableTemplateVars`: a class name, the relative paths of the tables
      of that class, and the fields and primary key of the first of them. */
  datatype TemplateVars = TemplateVars(className: string, relativePaths: seq<string>, fields: seq<ColumnVars>, primaryKey: Option<string>)

  /** The `TableTemplateVars` constructor on one compile result. */
  function NewVars(r: CompileResult): (v: TemplateVars)
    ensures v.className == DefaultClassName(r.relativePath) && v.relativePaths == [r.relativePath]
  {
    TemplateVars(DefaultClassName(r.relativePath), [r.relativePath], r.fields, r.primaryKey)
  }

  /** The loop over `GenerateCodeFilesFilter`: the name contains one of the
      filter texts. */
  function FilteredBy(filter: seq<string>, name: string): (b: bool)
    ensures b <==> exists k :: 0 <= k < |filter| && Text.Contains(name, filter[k])
  {
    if filter == [] then false
    else if Text.Contains(name, filter[0]) then true
    else
      var b := FilteredBy(filter[1..], name);
      assert forall k :: 1 <= k < |filter| ==> filter[1..][k - 1] == filter[k];
      b
  }

  /** A class the filter excludes; `None` stands for a null filter. */
  predicate Filtered(filter: Option<seq<string>>, name: string) {
    filter.Some? && FilteredBy(filter.value, name)
  }

  /** A result the merge takes: the ignore pattern (a regular expression,
      given here as its match test) does not match its relative path, and
      the filter does not exclude its class. */
  predicate Keeps(filter: Option<seq<string>>, ignore: string -> bool, r: CompileResult) {
    !ignore(r.relativePath) && !Filtered(filter, DefaultClassName(r.relativePath))
  }

  /** One step of the merge: a new class is added with the result's vars;
      a known class only gets the result's relative path appended. */
  function AddVars(m: OrderedMap.OMap<string, TemplateVars>, r: CompileResult): OrderedMap.OMap<string, TemplateVars> {
    var v := NewVars(r);
    match OrderedMap.Get(m, v.className)
    case None => OrderedMap.Put(m, v.className, v)
    case Some(known) => OrderedMap.Put(m, v.className, known.(relativePaths := known.relativePaths + [r.relativePath]))
  }

  /** The merge loop at the end of `CompileTableMLAll` over results in
      order, into a dictionary keyed by class name. */
  function Merge(filter: Option<seq<string>>, ignore: string -> bool, rs: seq<CompileResult>): (m: OrderedMap.OMap<string, TemplateVars>)
    ensures OrderedMap.Unique(m)
    ensures forall c :: OrderedMap.Has(m, c) ==> !Filtered(filter, c)
    decreases |rs|
  {
    if rs == [] then []
    else
      var prev := Merge(filter, ignore, rs[..|rs| - 1]);
      var r := rs[|rs| - 1];
      if Keeps(filter, ignore, r) then
        var m := AddVars(prev, r);
        assert forall c :: OrderedMap.Has(m, c) ==> c == DefaultClassName(r.relativePath) || OrderedMap.Has(prev, c) by {
          forall c | OrderedMap.Has(m, c) && c != DefaultClassName(r.relativePath) ensures OrderedMap.Has(prev, c) {
            assert OrderedMap.Get(m, c) == OrderedMap.Get(prev, c);
          }
        }
        m
      else prev
  }

  // ---------------------------------------------------------------------
  // The merge's reference definition

  /** The results the merge takes, in order. */
  function KeptResults(filter: Option<seq<string>>, ignore: string -> bool, rs: seq<CompileResult>): (ks: seq<CompileResult>)
    ensures forall i :: 0 <= i < |ks| ==> ks[i] in rs && Keeps(filter, ignore, ks[i])
    decreases |rs|
  {
    if rs == [] then []
    else
      var r := rs[|rs| - 1];
      KeptResults(filter, ignore, rs[..|rs| - 1]) + (if Keeps(filter, ignore, r) then [r] else [])
  }

  /** The relative paths of the results of class c, in order. */
  function PathsOf(ks: seq<CompileResult>, c: string): seq<string>
    decreases |ks|
  {
    if ks == [] then []
    else
      var r := ks[|ks| - 1];
      PathsOf(ks[..|ks| - 1], c) + (if DefaultClassName(r.relativePath) == c then [r.relativePath] else [])
  }

  /** Which results are of class c. */
  function ClassMask(ks: seq<CompileResult>, c: string): (m: seq<bool>)
    ensures |m| == |ks|
    ensures forall i :: 0 <= i < |ks| ==> (m[i] <==> DefaultClassName(ks[i].relativePath) == c)
  {
    seq(|ks|, i requires 0 <= i < |ks| => DefaultClassName(ks[i].relativePath) == c)
  }

  /** The first result of class c. */
  function FirstOf(ks: seq<CompileResult>, c: string): (r: Option<CompileResult>)
    ensures r.None? <==> forall i :: 0 <= i < |ks| ==> DefaultClassName(ks[i].relativePath) != c
    ensures r.Some? ==> exists i :: 0 <= i < |ks| && r.value == ks[i] && DefaultClassName(ks[i].relativePath) == c &&
                                  forall j :: 0 <= j < i ==> DefaultClassName(ks[j].relativePath) != c
  {
    match Masks.FirstSet(ClassMask(ks, c))
    case None => None
    case Some(i) => Some(ks[i])
  }

  /** One more result changes the first of class c only when there was none. */
  lemma {:induction false} FirstOfSnoc(ks: seq<CompileResult>, r: CompileResult, c: string)
    ensures FirstOf(ks + [r], c) ==
      if FirstOf(ks, c).Some? then FirstOf(ks, c) else if DefaultClassName(r.relativePath) == c then Some(r) else None
  {
    var ks' := ks + [r];
    var m := ClassMask(ks, c);
    assert ClassMask(ks', c) == m + [DefaultClassName(r.relativePath) == c];
    Masks.FirstSetSnoc(m, DefaultClassName(r.relativePath) == c);
    match Masks.FirstSet(m)
    case None =>
    case Some(i) => assert ks'[i] == ks[i];
  }

  /** What the dictionary should hold for class c: nothing when no kept
      result has that class; otherwise the first one's fields and primary
      key with the relative paths of all of them. */
  function Expected(ks: seq<CompileResult>, c: string): Option<TemplateVars> {
    match FirstOf(ks, c)
    case None => None
    case Some(r) => Some(TemplateVars(c, PathsOf(ks, c), r.fields, r.primaryKey))
  }

  // ---------------------------------------------------------------------
  // Lemmas: the merge

  /** The merge holds, for every class, exactly what the reference says:
      the first kept result of the class supplies the fields and the
      primary key, and every kept result of the class adds its path. */
  lemma {:induction false} MergeIsExpected(filter: Option<seq<string>>, ignore: string -> bool, rs: seq<CompileResult>, c: string)
    ensures OrderedMap.Get(Merge(filter, ignore, rs), c) == Expected(KeptResults(filter, ignore, rs), c)
    decreases |rs|
  {
    if rs != [] {
      var init := rs[..|rs| - 1];
      var r := rs[|rs| - 1];
      var ks0 := KeptResults(filter, ignore, init);
      var prev := Merge(filter, ignore, init);
      MergeIsExpected(filter, ignore, init, c);
      if Keeps(filter, ignore, r) {
        assert Merge(filter, ignore, rs) == AddVars(prev, r);
        assert KeptResults(filter, ignore, rs) == ks0 + [r];
        AddVarsGet(prev, r, c);
        ExpectedStep(ks0, r, c);
      } else {
        assert Merge(filter, ignore, rs) == prev;
        assert KeptResults(filter, ignore, rs) == ks0;
      }
    }
  }

  /** What one merge step does to the entry of class c. */
  lemma AddVarsGet(m: OrderedMap.OMap<string, TemplateVars>, r: CompileResult, c: string)
    ensures OrderedMap.Get(AddVars(m, r), c) ==
      if DefaultClassName(r.relativePath) != c then OrderedMap.Get(m, c)
      else match OrderedMap.Get(m, c)
        case None => Some(NewVars(r))
        case Some(v) => Some(v.(relativePaths := v.relativePaths + [r.relativePath]))
  {
  }

  /** What one more kept result does to the reference entry of class c. */
  lemma {:induction false} ExpectedStep(ks: seq<CompileResult>, r: CompileResult, c: string)
    ensures Expected(ks + [r], c) ==
      if DefaultClassName(r.relativePath) != c then Expected(ks, c)
      else match Expected(ks, c)
        case None => Some(NewVars(r))
        case Some(v) => Some(v.(relativePaths := v.relativePaths + [r.relativePath]))
  {
    var ks' := ks + [r];
    assert ks'[..|ks'| - 1] == ks && ks'[|ks'| - 1] == r;
    var rc := DefaultClassName(r.relativePath);
    assert PathsOf(ks', c) == PathsOf(ks, c) + (if rc == c then [r.relativePath] else []);
    FirstOfSnoc(ks, r, c);
    if rc != c {
      assert FirstOf(ks', c) == FirstOf(ks, c);
      assert PathsOf(ks', c) == PathsOf(ks, c);
    } else if FirstOf(ks, c).None? {
      PathsOfNone(ks, c);
      assert PathsOf(ks', c) == [r.relativePath];
      assert Expected(ks', c) == Some(TemplateVars(c, [r.relativePath], r.fields, r.primaryKey));
    } else {
      var f := FirstOf(ks, c).value;
      var v := TemplateVars(c, PathsOf(ks, c), f.fields, f.primaryKey);
      assert Expected(ks, c) == Some(v);
      assert Expected(ks', c) == Some(v.(relativePaths := v.relativePaths + [r.relativePath]));
    }
  }

  /** A class with no result has no paths. */
  lemma {:induction false} PathsOfNone(ks: seq<CompileResult>, c: string)
    requires FirstOf(ks, c).None?
    ensures PathsOf(ks, c) == []
    decreases |ks|
  {
    if ks != [] {
      var init := ks[..|ks| - 1];
      assert FirstOf(init, c).None? by {
        assert forall i :: 0 <= i < |init| ==> init[i] == ks[i];
      }
      PathsOfNone(init, c);
    }
  }

  /** A class the filter excludes never reaches the dictionary; an empty
      filter text excludes every class. */
  lemma FilteredClassAbsent(filter: Option<seq<string>>, ignore: string -> bool, rs: seq<CompileResult>, c: string)
    requires Filtered(filter, c) || (filter.Some? && "" in filter.value)
    ensures !OrderedMap.Has(Merge(filter, ignore, rs), c)
  {
    if filter.Some? && "" in filter.value {
      var k :| 0 <= k < |filter.value| && filter.value[k] == "";
      assert Text.Contains(c, filter.value[k]);
    }
  }

  /** Results whose classes are all different give one entry each, in the
      order of the results, each with its own path only. */
  lemma {:induction false} MergeDistinct(filter: Option<seq<string>>, ignore: string -> bool, rs: seq<CompileResult>)
    requires forall i :: 0 <= i < |rs| ==> Keeps(filter, ignore, rs[i])
    requires forall i, j :: 0 <= i < j < |rs| ==> DefaultClassName(rs[i].relativePath) != DefaultClassName(rs[j].relativePath)
    ensures |Merge(filter, ignore, rs)| == |rs|
    ensures forall i :: 0 <= i < |rs| ==> Merge(filter, ignore, rs)[i] == OrderedMap.Entry(DefaultClassName(rs[i].relativePath), NewVars(rs[i]))
    decreases |rs|
  {
    if rs != [] {
      var init := rs[..|rs| - 1];
      var r := rs[|rs| - 1];
      MergeDistinct(filter, ignore, init);
      var prev := Merge(filter, ignore, init);
      var c := DefaultClassName(r.relativePath);
      assert !OrderedMap.Has(prev, c) by {
        forall i | 0 <= i < |prev| ensures prev[i].key != c {
          assert prev[i].key == DefaultClassName(rs[i].relativePath);
        }
      }
      assert OrderedMap.Get(prev, c).None?;
      assert Merge(filter, ignore, rs) == OrderedMap.Put(prev, c, NewVars(r));
      PutNew(prev, c, NewVars(r));
    }
  }

  /** Putting a new key appends its entry. */
  lemma PutNew(m: OrderedMap.OMap<string, TemplateVars>, k: string, v: TemplateVars)
    requires !OrderedMap.Has(m, k)
    ensures OrderedMap.Put(m, k, v) == m + [OrderedMap.Entry(k, v)]
  {
  }

  // ---------------------------------------------------------------------
  // The paths the templates see

  /** `TabFilePaths`: every relative path in double quotes, separated by
      ", ". */
  function TabFilePaths(paths: seq<string>): string {
    "\"" + Text.Join(paths, "\", \"") + "\""
  }

  /** A path in double quotes. */
  function Quote(p: string): string {
    "\"" + p + "\""
  }

  /** The paths each in quotes and joined by ", " are the text the
      property builds, as long as there is a path; with none, it is one
      empty quoted path. */
  lemma {:induction false} TabFilePathsQuoted(paths: seq<string>)
    ensures paths != [] ==> TabFilePaths(paths) == Text.Join(seq(|paths|, i requires 0 <= i < |paths| => Quote(paths[i])), ", ")
    ensures paths == [] ==> TabFilePaths(paths) == "\"\""
    decreases |paths|
  {
    var qs := seq(|paths|, i requires 0 <= i < |paths| => Quote(paths[i]));
    if |paths| >= 2 {
      var tail := paths[1..];
      TabFilePathsQuoted(tail);
      var qt := seq(|tail|, i requires 0 <= i < |tail| => Quote(tail[i]));
      assert qs[1..] == qt;
      assert Text.Join(paths, "\", \"") == paths[0] + "\", \"" + Text.Join(tail, "\", \"");
      assert TabFilePaths(paths) == Quote(paths[0]) + ", " + TabFilePaths(tail);
    }
  }
}
