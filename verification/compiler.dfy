/** The source compiler (TableML/TableMLCompiler/Compiler.cs): a source
    table, seen as a grid of named columns with a declaration per column
    and rows of cells, becomes the tab-separated text the loader reads,
    together with the field list and primary key the code templates use.

    The functions below follow `DoCompilerExcelReader`: the column pass
    (name line and fields), the statement pass (meta line), the row pass
    with its single `#if` flag, and the choice of paths. */
module Compiler {
  import opened Wrappers
  import Text
  import Paths
  import opened ColumnVars
  import opened CompilerConfig
  import opened CompileResult
  import opened TabLine
  import Masks

  /** `Compiler.CellType`. */
  datatype CellType = Value | Comment | If | Endif

  /** A comment prefix as `CheckCellType` compares it: the lower-cased,
      trimmed text starts with the lower-cased prefix. */
  predicate HasPrefix(s: string, prefix: string) {
    Text.StartsWith(Text.Trim(Text.ToLower(s)), Text.ToLower(prefix))
  }

  /** The loop over `CommentStartsWith`. */
  function MatchesComment(prefixes: seq<string>, s: string): (r: bool)
    ensures r <==> exists k :: 0 <= k < |prefixes| && HasPrefix(s, prefixes[k])
  {
    if prefixes == [] then false
    else if HasPrefix(s, prefixes[0]) then true
    else
      var r := MatchesComment(prefixes[1..], s);
      assert forall k :: 1 <= k < |prefixes| ==> prefixes[1..][k - 1] == prefixes[k];
      r
  }

  /** `CheckCellType`: "#if" and "#endif" are recognised case-sensitively
      and before anything else; then a comment prefix makes a comment; all
      else is a value. */
  function CheckCellType(cfg: Config, s: string): (r: CellType)
    ensures r == If <==> Text.StartsWith(s, "#if")
    ensures r == Endif <==> !Text.StartsWith(s, "#if") && Text.StartsWith(s, "#endif")
    ensures r == Comment <==>
      (!Text.StartsWith(s, "#if") && !Text.StartsWith(s, "#endif") && MatchesComment(cfg.commentStartsWith, s))
  {
    if Text.StartsWith(s, "#if") then If
    else if Text.StartsWith(s, "#endif") then Endif
    else if MatchesComment(cfg.commentStartsWith, s) then Comment
    else Value
  }

  /** `GetIfVars`: the words left after every "#if" is removed. */
  function GetIfVars(s: string): (r: seq<string>)
    ensures forall i :: 0 <= i < |r| ==> r[i] != "" && Text.Free(r[i], {' '})
  {
    Text.SplitDrop(Text.Trim(Text.Replace(s, "#if", "")), {' '})
  }

  /** The loop over the `#if` variables: every one of them must be among
      the configured condition variables, and a null configuration has
      none. An empty list passes. */
  function AllDefined(defined: Option<seq<string>>, vars: seq<string>): (r: bool)
    ensures r <==> forall k :: 0 <= k < |vars| ==> defined.Some? && vars[k] in defined.value
  {
    if vars == [] then true
    else if defined.None? || vars[0] !in defined.value then false
    else
      var r := AllDefined(defined, vars[1..]);
      assert r ==> forall k :: 0 <= k < |vars| ==> defined.Some? && vars[k] in defined.value by {
        if r {
          forall k | 0 <= k < |vars| ensures defined.Some? && vars[k] in defined.value {
            if k > 0 { assert vars[k] == vars[1..][k - 1]; }
          }
        }
      }
      assert !r ==> exists k :: 0 <= k < |vars| && !(defined.Some? && vars[k] in defined.value) by {
        if !r {
          var k :| 0 <= k < |vars[1..]| && !(defined.Some? && vars[1..][k] in defined.value);
          assert vars[1..][k] == vars[k + 1];
        }
      }
      r
  }

  // ---------------------------------------------------------------------
  // The source grid

  /** A source column: its name (a key of `ColName2Index`), its
      declaration (`ColName2Statement`) and its comment (`ColName2Comment`). */
  datatype Column = Column(name: string, statement: string, comment: string)

  /** `ITableSourceFile` as the compiler sees it: the columns in index
      order and the data rows, each a list of cells by column index. */
  datatype Source = Source(columns: seq<Column>, rows: seq<seq<string>>)

  /** `GetString(Index2ColName[c], r)`: a cell beyond the end of a short
      row reads as empty. */
  function CellAt(src: Source, r: nat, c: nat): string {
    if r < |src.rows| && c < |src.rows[r]| then src.rows[r][c] else ""
  }

  /** A column the column pass puts in `ignoreColumns`: named, and the name
      classifies as a comment. */
  predicate CommentColumn(cfg: Config, col: Column) {
    col.name != "" && CheckCellType(cfg, col.name) == Comment
  }

  /** The ways the passes select columns: the fields (named and not
      comments, for the name line and the field list), the kept columns
      (not comments, for the meta line and the rows), the comments, and
      the fields declaring themselves the primary key. */
  datatype Selection = Fields | Kept | Comments | Keys

  predicate Selects(cfg: Config, sel: Selection, col: Column) {
    match sel
    case Fields => col.name != "" && !CommentColumn(cfg, col)
    case Kept => !CommentColumn(cfg, col)
    case Comments => CommentColumn(cfg, col)
    case Keys => col.name != "" && !CommentColumn(cfg, col) && Declare(col.statement).pk
  }

  /** Which columns a selection takes. */
  function Mask(cfg: Config, cols: seq<Column>, sel: Selection): (m: seq<bool>)
    ensures |m| == |cols|
    ensures forall i :: 0 <= i < |cols| ==> (m[i] <==> Selects(cfg, sel, cols[i]))
  {
    seq(|cols|, i requires 0 <= i < |cols| => Selects(cfg, sel, cols[i]))
  }

  /** The indices of the selected columns, in increasing order. */
  function Where(cfg: Config, cols: seq<Column>, sel: Selection): (r: seq<nat>)
    ensures |r| <= |cols|
    ensures forall k :: 0 <= k < |r| ==> r[k] < |cols| && Selects(cfg, sel, cols[r[k]])
    ensures forall k, l :: 0 <= k < l < |r| ==> r[k] < r[l]
    ensures forall i :: 0 <= i < |cols| && Selects(cfg, sel, cols[i]) ==> i in r
  {
    Masks.Positions(Mask(cfg, cols, sel))
  }

  /** The name line's pieces: each field's index and name. */
  function NamePieces(cfg: Config, cols: seq<Column>): (r: seq<Piece>)
    ensures var f := Where(cfg, cols, Fields);
      |r| == |f| && forall k :: 0 <= k < |f| ==> r[k] == (f[k], cols[f[k]].name)
  {
    var f := Where(cfg, cols, Fields);
    seq(|f|, k requires 0 <= k < |f| => (f[k], cols[f[k]].name))
  }

  /** The meta line's pieces: each kept column's index and declaration. */
  function MetaPieces(cfg: Config, cols: seq<Column>): (r: seq<Piece>)
    ensures var f := Where(cfg, cols, Kept);
      |r| == |f| && forall k :: 0 <= k < |f| ==> r[k] == (f[k], cols[f[k]].statement)
  {
    var f := Where(cfg, cols, Kept);
    seq(|f|, k requires 0 <= k < |f| => (f[k], cols[f[k]].statement))
  }

  /** A cell as written: every newline becomes the two characters `\n`. */
  function Escape(cell: string): (r: string)
    ensures Text.Free(r, {'\n'})
  {
    Text.ReplaceCharRemoves(cell, '\n', "\\n");
    Text.Replace(cell, "\n", "\\n")
  }

  /** A row's pieces: each kept column's index and escaped cell. */
  function CellPieces(cfg: Config, src: Source, r: nat): (p: seq<Piece>)
    ensures var f := Where(cfg, src.columns, Kept);
      |p| == |f| && forall k :: 0 <= k < |f| ==> p[k] == (f[k], Escape(CellAt(src, r, f[k])))
  {
    var f := Where(cfg, src.columns, Kept);
    seq(|f|, k requires 0 <= k < |f| => (f[k], Escape(CellAt(src, r, f[k]))))
  }

  // ---------------------------------------------------------------------
  // Column pass: declarations, fields, primary key

  /** What a declaration says: type, default value, and whether the column
      is the primary key. */
  datatype Declaration = Declaration(typeName: string, defaultValue: string, pk: bool)

  /** A declaration `type|default|pk` split on '|' or '/' with empty parts
      dropped; a missing type is "string" and a missing default is empty. */
  function Declare(statement: string): (d: Declaration)
    ensures d.typeName != "" && Text.Free(d.typeName, {'|', '/'})
    ensures Text.Free(d.defaultValue, {'|', '/'})
  {
    var attrs := Text.SplitDrop(statement, {'|', '/'});
    assert Text.Free("string", {'|', '/'});
    Declaration(
      if |attrs| > 0 then attrs[0] else "string",
      if |attrs| > 1 then attrs[1] else "",
      |attrs| > 2 && attrs[2] == "pk")
  }

  /** How many comment columns come before index i. */
  function CommentsBefore(cfg: Config, cols: seq<Column>, i: nat): nat
    requires i <= |cols|
  {
    |Where(cfg, cols[..i], Comments)|
  }

  /** `FieldsInternal`: one entry per field column, in source order, whose
      `Index` is the column's index less the comment columns before it. */
  function FieldList(cfg: Config, cols: seq<Column>): (r: seq<ColumnVars>)
    ensures var f := Where(cfg, cols, Fields);
      && |r| == |f|
      && forall k :: 0 <= k < |f| ==>
           var col, d := cols[f[k]], Declare(cols[f[k]].statement);
           r[k] == ColumnVars(f[k] - CommentsBefore(cfg, cols, f[k]), d.typeName, col.name, d.defaultValue, col.comment)
  {
    var f := Where(cfg, cols, Fields);
    seq(|f|, k requires 0 <= k < |f| =>
      var col, d := cols[f[k]], Declare(cols[f[k]].statement);
      ColumnVars(f[k] - CommentsBefore(cfg, cols, f[k]), d.typeName, col.name, d.defaultValue, col.comment))
  }

  /** `PrimaryKey` after the column pass: each field declaring "pk" sets it,
      so the last one wins. */
  function PrimaryKey(cfg: Config, cols: seq<Column>): (r: Option<string>)
    ensures r.None? <==> forall i :: 0 <= i < |cols| ==> !Selects(cfg, Keys, cols[i])
    ensures r.Some? ==> exists i :: 0 <= i < |cols| && Selects(cfg, Keys, cols[i]) && r.value == cols[i].name &&
                                  forall j :: i < j < |cols| ==> !Selects(cfg, Keys, cols[j])
  {
    var m := Mask(cfg, cols, Keys);
    match Masks.LastSet(m)
    case None => None
    case Some(i) => Some(cols[i].name)
  }

  // ---------------------------------------------------------------------
  // Row pass

  /** Column 0 survives the column pass, so the row pass classifies each
      row by its first cell. */
  predicate FirstKept(cfg: Config, cols: seq<Column>) {
    |cols| > 0 && !CommentColumn(cfg, cols[0])
  }

  /** What the first cell decides about a row: whether it is written, and
      the `#if` flag afterwards. */
  datatype Decision = Decision(emit: bool, active: bool)

  /** The first-cell handling of the row loop: a comment row is skipped; an
      `#if` row sets the flag to whether all its variables are defined; an
      `#endif` row sets it back; any other row is written while the flag
      holds. With column 0 a comment column nothing is classified. */
  function Decide(cfg: Config, src: Source, r: nat, active: bool): (d: Decision)
    ensures !FirstKept(cfg, src.columns) ==> d == Decision(true, active)
    ensures d.emit ==> d.active == active
  {
    if FirstKept(cfg, src.columns) then
      var cell := CellAt(src, r, 0);
      match CheckCellType(cfg, cell)
      case Comment => Decision(false, active)
      case If => Decision(false, AllDefined(cfg.conditionVars, GetIfVars(cell)))
      case Endif => Decision(false, true)
      case Value => Decision(active, active)
    else Decision(true, active)
  }

  /** The text the row builder holds for row r once the column loop ends. */
  function RowText(cfg: Config, src: Source, r: nat, d: Decision): string {
    if d.emit then
      (if FirstKept(cfg, src.columns) && r != 0 then "\n" else "") + Tabbed(CellPieces(cfg, src, r))
    else ""
  }

  /** The state of the row loop: the rows appended so far and the flag. */
  datatype Pass = Pass(body: string, active: bool)

  /** The row loop over the first n rows: a row is appended when its text
      is not all white space. */
  function RowsPass(cfg: Config, src: Source, n: nat): Pass
    requires n <= |src.rows|
  {
    if n == 0 then Pass("", true)
    else
      var p := RowsPass(cfg, src, n - 1);
      var d := Decide(cfg, src, n - 1, p.active);
      var t := RowText(cfg, src, n - 1, d);
      Pass(if !Blank(t) then p.body + t else p.body, d.active)
  }

  /** The whole text `DoCompilerExcelReader` builds: the name line, the
      meta line, and the data rows when compiling for real. */
  function TableText(cfg: Config, src: Source, doCompile: bool): string {
    Tabbed(NamePieces(cfg, src.columns)) + "\n" +
    Tabbed(MetaPieces(cfg, src.columns)) + "\n" +
    (if doCompile then RowsPass(cfg, src, |src.rows|).body else "")
  }

  // ---------------------------------------------------------------------
  // The text as evidently intended

  /** A row as one line, built like the header lines: its kept cells,
      each behind a tab unless it is column 0. */
  function Line(cfg: Config, src: Source, r: nat): string {
    Tabbed(CellPieces(cfg, src, r))
  }

  /** Text made of white space only: what `Trim` reduces to nothing
      (`BlankIsTrimmedEmpty`). */
  predicate Blank(s: string) {
    forall i :: 0 <= i < |s| ==> Text.IsWhiteSpace(s[i])
  }

  /** The rows the loop writes: their numbers, their lines, and the flag
      afterwards. */
  datatype Emitted = Emitted(rows: seq<nat>, lines: seq<string>, active: bool)

  /** Every row as a line. */
  function Lines(cfg: Config, src: Source): (ls: seq<string>)
    ensures |ls| == |src.rows|
    ensures forall r :: 0 <= r < |src.rows| ==> ls[r] == Line(cfg, src, r)
  {
    seq(|src.rows|, r requires 0 <= r < |src.rows| => Line(cfg, src, r))
  }

  /** The same decisions as `RowsPass` over the first n rows, collecting
      each written row's line from `all`. */
  function EmittedLines(cfg: Config, src: Source, all: seq<string>, n: nat): (e: Emitted)
    requires n <= |src.rows| == |all|
    ensures |e.lines| == |e.rows| <= n
    ensures forall k :: 0 <= k < |e.rows| ==> e.rows[k] < n && e.lines[k] == all[e.rows[k]] && !Blank(e.lines[k])
  {
    if n == 0 then Emitted([], [], true)
    else
      var r: nat := n - 1;
      var p := EmittedLines(cfg, src, all, r);
      var d := Decide(cfg, src, r, p.active);
      var line := all[r];
      if d.emit && !Blank(line) then
        Emitted(p.rows + [r], p.lines + [line], d.active)
      else Emitted(p.rows, p.lines, d.active)
  }

  /** The text with a newline only between written rows; the name line,
      the meta line and each row's line are built as written. */
  function IntendedText(cfg: Config, src: Source, doCompile: bool): string {
    Tabbed(NamePieces(cfg, src.columns)) + "\n" +
    Tabbed(MetaPieces(cfg, src.columns)) + "\n" +
    (if doCompile then Text.Join(EmittedLines(cfg, src, Lines(cfg, src), |src.rows|).lines, "\n") else "")
  }

  // ---------------------------------------------------------------------
  // Lemmas: building lines

  /** The same for the columns a selection takes. */
  lemma WhereFirst(cfg: Config, cols: seq<Column>, sel: Selection)
    ensures var f := Where(cfg, cols, sel);
      && (forall k :: 1 <= k < |f| ==> f[k] > 0)
      && (cols != [] && Selects(cfg, sel, cols[0]) ==> f != [] && f[0] == 0)
      && (cols != [] && !Selects(cfg, sel, cols[0]) ==> forall k :: 0 <= k < |f| ==> f[k] > 0)
  {
    Masks.PositionsFirst(Mask(cfg, cols, sel));
  }

  /** A newline in front makes no difference to whether a row is blank. */
  lemma BlankNewline(x: string)
    ensures Blank("\n" + x) <==> Blank(x)
  {
    assert forall i :: 0 <= i < |x| ==> ("\n" + x)[i + 1] == x[i];
    assert Text.IsWhiteSpace('\n');
  }

  /** `Blank` is the loop's test: the text trims to nothing. */
  lemma BlankIsTrimmedEmpty(s: string)
    ensures Blank(s) <==> Text.Trim(s) == ""
  {
    Text.TrimEmpty(s);
  }

  // ---------------------------------------------------------------------
  // Lemmas: the row pass

  /** Every row's line is the tab-join of its kept cells, behind one tab
      when column 0 is not kept. */
  lemma {:induction false} RowPieces(cfg: Config, src: Source, r: nat)
    requires src.columns != []
    ensures Line(cfg, src, r) ==
      (if FirstKept(cfg, src.columns) || Where(cfg, src.columns, Kept) == [] then "" else "\t") + Text.Join(Texts(CellPieces(cfg, src, r)), "\t")
  {
    var p := CellPieces(cfg, src, r);
    WhereFirst(cfg, src.columns, Kept);
    TabbedIsJoin(p);
  }

  /** The newline the row loop puts in front of the first written row
      when that row is not row 0. */
  function LeadingNewline(rows: seq<nat>): string {
    if rows != [] && rows[0] != 0 then "\n" else ""
  }

  /** Appending one more written row, after all those written so far. */
  lemma {:induction false} AppendRow(body: string, rows: seq<nat>, lines: seq<string>, r: nat, line: string)
    requires |rows| == |lines|
    requires forall k :: 0 <= k < |rows| ==> rows[k] < r
    requires body == LeadingNewline(rows) + Text.Join(lines, "\n")
    ensures body + (if r != 0 then "\n" else "") + line == LeadingNewline(rows + [r]) + Text.Join(lines + [line], "\n")
  {
    Text.JoinSnoc(lines, line, "\n");
    if rows == [] {
      assert lines == [] && body == "";
    } else {
      var lead, joined := LeadingNewline(rows), Text.Join(lines, "\n");
      assert (rows + [r])[0] == rows[0];
      assert LeadingNewline(rows + [r]) == lead;
      assert rows[0] < r;
      JoinTail(lead, joined, line);
    }
  }

  lemma JoinTail(lead: string, joined: string, line: string)
    ensures lead + joined + "\n" + line == lead + (joined + "\n" + line)
  {
  }

  /** One step of both loops, for the same decision on row r, where
      `skip` says whether the row's line is blank. */
  lemma PassStep(p: Pass, e: Emitted, d: Decision, r: nat, line: string, skip: bool)
    requires |e.rows| == |e.lines| && forall k :: 0 <= k < |e.rows| ==> e.rows[k] < r
    requires p.active == e.active && p.body == LeadingNewline(e.rows) + Text.Join(e.lines, "\n")
    ensures var t := if d.emit then (if r != 0 then "\n" else "") + line else "";
            var p' := Pass(if d.emit && !skip then p.body + t else p.body, d.active);
            var e' := if d.emit && !skip then Emitted(e.rows + [r], e.lines + [line], d.active) else Emitted(e.rows, e.lines, d.active);
      p'.active == e'.active && p'.body == LeadingNewline(e'.rows) + Text.Join(e'.lines, "\n")
  {
    if d.emit && !skip {
      AppendRow(p.body, e.rows, e.lines, r, line);
    }
  }

  /** With column 0 kept, a written row is its line, behind a newline
      unless it is row 0. */
  lemma {:induction false} RowTextKept(cfg: Config, src: Source, r: nat, d: Decision)
    requires FirstKept(cfg, src.columns) && r < |src.rows|
    ensures RowText(cfg, src, r, d) == if d.emit then (if r != 0 then "\n" else "") + Lines(cfg, src)[r] else ""
  {
    assert Lines(cfg, src)[r] == Line(cfg, src, r);
  }

  /** With column 0 kept, the row loop writes the written rows' lines
      separated by newlines, behind one extra newline when row 0 is not
      among them; and its flag follows the same course. */
  lemma {:induction false} RowsAsWritten(cfg: Config, src: Source, n: nat)
    requires FirstKept(cfg, src.columns) && n <= |src.rows|
    ensures var p, e := RowsPass(cfg, src, n), EmittedLines(cfg, src, Lines(cfg, src), n);
      p.active == e.active && p.body == LeadingNewline(e.rows) + Text.Join(e.lines, "\n")
    decreases n
  {
    if n > 0 {
      var all := Lines(cfg, src);
      RowsAsWritten(cfg, src, n - 1);
      var p0, e0 := RowsPass(cfg, src, n - 1), EmittedLines(cfg, src, all, n - 1);
      var d := Decide(cfg, src, n - 1, p0.active);
      var line := all[n - 1];
      var t := RowText(cfg, src, n - 1, d);
      RowTextKept(cfg, src, n - 1, d);
      BlankNewline(line);
      assert t == if d.emit then (if n - 1 != 0 then "\n" + line else line) else "";
      assert Blank(t) <==> !d.emit || Blank(line);
      assert RowsPass(cfg, src, n) == Pass(if !Blank(t) then p0.body + t else p0.body, d.active);
      assert EmittedLines(cfg, src, all, n) ==
        if d.emit && !Blank(line) then Emitted(e0.rows + [n - 1], e0.lines + [line], d.active) else Emitted(e0.rows, e0.lines, d.active);
      PassStep(p0, e0, d, n - 1, line, Blank(line));
    }
  }

  // ---------------------------------------------------------------------
  // Lemmas: the whole text

  /** The name line as the column pass writes it: the tab-joined names,
      behind one tab when column 0 is not a field and some column is. */
  lemma {:induction false} NameLine(cfg: Config, cols: seq<Column>)
    ensures var p := NamePieces(cfg, cols);
      Tabbed(p) == (if cols != [] && !Selects(cfg, Fields, cols[0]) && p != [] then "\t" else "") + Text.Join(Texts(p), "\t")
  {
    var p := NamePieces(cfg, cols);
    WhereFirst(cfg, cols, Fields);
    assert forall k :: 1 <= k < |p| ==> p[k].0 > 0;
    TabbedIsJoin(p);
  }

  /** The meta line likewise, over the kept columns' declarations. */
  lemma {:induction false} MetaLine(cfg: Config, cols: seq<Column>)
    ensures var p := MetaPieces(cfg, cols);
      Tabbed(p) == (if cols != [] && !Selects(cfg, Kept, cols[0]) && p != [] then "\t" else "") + Text.Join(Texts(p), "\t")
  {
    var p := MetaPieces(cfg, cols);
    WhereFirst(cfg, cols, Kept);
    assert forall k :: 1 <= k < |p| ==> p[k].0 > 0;
    TabbedIsJoin(p);
  }

  /** When column 0 is kept and the first written row is row 0, the
      compiler writes exactly the intended text. */
  lemma {:induction false} AsIntended(cfg: Config, src: Source, doCompile: bool)
    requires FirstKept(cfg, src.columns)
    requires var e := EmittedLines(cfg, src, Lines(cfg, src), |src.rows|); e.rows == [] || e.rows[0] == 0
    ensures TableText(cfg, src, doCompile) == IntendedText(cfg, src, doCompile)
  {
    var e := EmittedLines(cfg, src, Lines(cfg, src), |src.rows|);
    KeptText(cfg, src, doCompile);
    SameWithoutLead(TableText(cfg, src, doCompile), IntendedText(cfg, src, doCompile),
      Tabbed(NamePieces(cfg, src.columns)), Tabbed(MetaPieces(cfg, src.columns)), LeadingNewline(e.rows), Text.Join(e.lines, "\n"), doCompile);
  }

  lemma SameWithoutLead(t: string, i: string, a: string, b: string, lead: string, joined: string, doCompile: bool)
    requires t == a + "\n" + b + "\n" + (if doCompile then lead + joined else "")
    requires i == a + "\n" + b + "\n" + (if doCompile then joined else "")
    requires lead == ""
    ensures t == i
  {
  }

  /** `ReadLines` of newline-joined lines free of newlines, the last one
      not empty, gives back those lines. */
  lemma {:induction false} ReadJoined(xs: seq<string>)
    requires xs != [] && xs[|xs| - 1] != ""
    requires forall i :: 0 <= i < |xs| ==> Text.Free(xs[i], {'\n'})
    ensures Text.ReadLines(Text.Join(xs, "\n")) == xs
  {
    Text.SplitJoin(xs, '\n');
    var parts := Text.Split(Text.Join(xs, "\n"), {'\n'});
    assert parts == xs;
    assert parts[|parts| - 1] != "";
  }

  /** Two lines in front of a newline-joined list. */
  lemma {:induction false} JoinTwoMore(a: string, b: string, ys: seq<string>)
    requires ys != []
    ensures a + "\n" + b + "\n" + Text.Join(ys, "\n") == Text.Join([a, b] + ys, "\n")
  {
    assert ([a, b] + ys)[1..] == [b] + ys;
    assert ([b] + ys)[1..] == ys;
  }

  /** The header lines hold no newline when no name or declaration does. */
  predicate HeaderText(cols: seq<Column>) {
    forall i :: 0 <= i < |cols| ==> Text.Free(cols[i].name, {'\n'}) && Text.Free(cols[i].statement, {'\n'})
  }

  /** The intended name line, meta line and data lines hold no newline. */
  lemma {:induction false} IntendedLinesFree(cfg: Config, src: Source)
    requires HeaderText(src.columns)
    ensures Text.Free(Tabbed(NamePieces(cfg, src.columns)), {'\n'})
    ensures Text.Free(Tabbed(MetaPieces(cfg, src.columns)), {'\n'})
    ensures forall r :: 0 <= r < |src.rows| ==> Text.Free(Lines(cfg, src)[r], {'\n'})
  {
    NameLineFree(cfg, src.columns);
    MetaLineFree(cfg, src.columns);
    forall r | 0 <= r < |src.rows| ensures Text.Free(Lines(cfg, src)[r], {'\n'}) {
      FreeTabbed(CellPieces(cfg, src, r), {'\n'});
    }
  }

  /** Two header lines and a newline-joined list of non-empty lines, all
      free of newlines, read back as those lines. */
  lemma {:induction false} ReadHeadAndLines(a: string, b: string, ys: seq<string>)
    requires Text.Free(a, {'\n'}) && Text.Free(b, {'\n'})
    requires forall k :: 0 <= k < |ys| ==> Text.Free(ys[k], {'\n'})
    requires ys == [] || ys[|ys| - 1] != ""
    ensures Text.ReadLines(a + "\n" + b + "\n" + Text.Join(ys, "\n")) == [a, b] + ys
  {
    if ys == [] {
      assert Text.Terminated([b]) == b + "\n" + Text.Terminated([]);
      assert Text.Terminated([a, b]) == a + "\n" + Text.Terminated([b]);
      assert a + "\n" + b + "\n" + Text.Join(ys, "\n") == Text.Terminated([a, b]);
      Text.ReadTerminated([a, b]);
      assert [a, b] + ys == [a, b];
    } else {
      JoinTwoMore(a, b, ys);
      var xs := [a, b] + ys;
      assert forall i :: 2 <= i < |xs| ==> xs[i] == ys[i - 2];
      ReadJoined(xs);
    }
  }

  /** Reading the intended text back line by line gives the name line, the
      meta line and one line per written row, in order. */
  lemma {:induction false} IntendedReadBack(cfg: Config, src: Source)
    requires HeaderText(src.columns)
    ensures var e := EmittedLines(cfg, src, Lines(cfg, src), |src.rows|);
      Text.ReadLines(IntendedText(cfg, src, true)) ==
        [Tabbed(NamePieces(cfg, src.columns)), Tabbed(MetaPieces(cfg, src.columns))] + e.lines
  {
    var all := Lines(cfg, src);
    var e := EmittedLines(cfg, src, all, |src.rows|);
    var a, b := Tabbed(NamePieces(cfg, src.columns)), Tabbed(MetaPieces(cfg, src.columns));
    IntendedLinesFree(cfg, src);
    assert IntendedText(cfg, src, true) == a + "\n" + b + "\n" + Text.Join(e.lines, "\n");
    forall k | 0 <= k < |e.lines| ensures Text.Free(e.lines[k], {'\n'}) && e.lines[k] != "" {
      assert e.lines[k] == all[e.rows[k]];
      assert !Blank(e.lines[k]);
    }
    ReadHeadAndLines(a, b, e.lines);
  }

  // ---------------------------------------------------------------------
  // Row separators as written

  /** With column 0 a comment column no row is classified and no newline is
      ever put in front of a row: every row lands on one line. */
  lemma {:induction false} CommentFirstRowsFree(cfg: Config, src: Source, n: nat)
    requires !FirstKept(cfg, src.columns) && n <= |src.rows|
    ensures Text.Free(RowsPass(cfg, src, n).body, {'\n'})
    decreases n
  {
    if n > 0 {
      var r: nat := n - 1;
      CommentFirstRowsFree(cfg, src, r);
      var p0 := RowsPass(cfg, src, r);
      var d := Decide(cfg, src, r, p0.active);
      var t := RowText(cfg, src, r, d);
      RowTextFree(cfg, src, r, d);
      var body := RowsPass(cfg, src, n).body;
      assert body == if !Blank(t) then p0.body + t else p0.body;
      FreeStep(p0.body, t, body, !Blank(t));
    }
  }

  lemma FreeStep(before: string, t: string, after: string, added: bool)
    requires Text.Free(before, {'\n'}) && Text.Free(t, {'\n'})
    requires after == if added then before + t else before
    ensures Text.Free(after, {'\n'})
  {
    Text.FreeConcat(before, t, {'\n'});
  }

  /** A row's text without the leading newline holds no newline. */
  lemma RowTextFree(cfg: Config, src: Source, r: nat, d: Decision)
    requires !FirstKept(cfg, src.columns)
    ensures Text.Free(RowText(cfg, src, r, d), {'\n'})
  {
    FreeTabbed(CellPieces(cfg, src, r), {'\n'});
  }

  /** Three lines free of newlines, the first two ending in a newline, have
      at most three lines between them. */
  lemma {:induction false} AtMostThreeLines(a: string, b: string, c: string)
    requires Text.Free(a, {'\n'}) && Text.Free(b, {'\n'}) && Text.Free(c, {'\n'})
    ensures |Text.ReadLines(a + "\n" + b + "\n" + c)| <= 3
  {
    var xs := [a, b, c];
    JoinTwoMore(a, b, [c]);
    assert Text.Join([c], "\n") == c;
    Text.JoinCount(xs, '\n');
  }

  /** ... so the compiled text has at most three lines however many rows
      are written: the name line, the meta line and one line of all rows. */
  lemma {:induction false} CommentFirstOneLine(cfg: Config, src: Source)
    requires |src.columns| > 0 && CommentColumn(cfg, src.columns[0]) && HeaderText(src.columns)
    ensures |Text.ReadLines(TableText(cfg, src, true))| <= 3
  {
    var np, mp := NamePieces(cfg, src.columns), MetaPieces(cfg, src.columns);
    NameLineFree(cfg, src.columns);
    MetaLineFree(cfg, src.columns);
    var body := RowsPass(cfg, src, |src.rows|).body;
    CommentFirstRowsFree(cfg, src, |src.rows|);
    assert TableText(cfg, src, true) == Tabbed(np) + "\n" + Tabbed(mp) + "\n" + body;
    AtMostThreeLines(Tabbed(np), Tabbed(mp), body);
  }

  /** The name line as written holds no newline when no name does. */
  lemma {:induction false} NameLineFree(cfg: Config, cols: seq<Column>)
    requires HeaderText(cols)
    ensures Text.Free(Tabbed(NamePieces(cfg, cols)), {'\n'})
  {
    var np := NamePieces(cfg, cols);
    assert forall k :: 0 <= k < |np| ==> Text.Free(np[k].1, {'\n'});
    FreeTabbed(np, {'\n'});
  }

  /** The meta line as written holds no newline when no declaration does. */
  lemma {:induction false} MetaLineFree(cfg: Config, cols: seq<Column>)
    requires HeaderText(cols)
    ensures Text.Free(Tabbed(MetaPieces(cfg, cols)), {'\n'})
  {
    var mp := MetaPieces(cfg, cols);
    assert forall k :: 0 <= k < |mp| ==> Text.Free(mp[k].1, {'\n'});
    FreeTabbed(mp, {'\n'});
  }

  /** With column 0 kept, the compiler writes the header lines and then
      the written rows' lines, behind the leading newline the loop puts
      before a first written row that is not row 0. */
  lemma {:induction false} KeptText(cfg: Config, src: Source, doCompile: bool)
    requires FirstKept(cfg, src.columns)
    ensures var e := EmittedLines(cfg, src, Lines(cfg, src), |src.rows|);
      TableText(cfg, src, doCompile) ==
        Tabbed(NamePieces(cfg, src.columns)) + "\n" +
        Tabbed(MetaPieces(cfg, src.columns)) + "\n" +
        (if doCompile then LeadingNewline(e.rows) + Text.Join(e.lines, "\n") else "")
  {
    RowsAsWritten(cfg, src, |src.rows|);
  }

  /** An empty line between the header lines and the rest. */
  lemma {:induction false} ReadBlankThenLines(a: string, b: string, ls: seq<string>)
    requires Text.Free(a, {'\n'}) && Text.Free(b, {'\n'})
    requires forall k :: 0 <= k < |ls| ==> Text.Free(ls[k], {'\n'})
    requires ls != [] && ls[|ls| - 1] != ""
    ensures Text.ReadLines(a + "\n" + b + "\n" + ("\n" + Text.Join(ls, "\n"))) == [a, b, ""] + ls
  {
    var ys := [""] + ls;
    assert ys[1..] == ls;
    assert Text.Join(ys, "\n") == "\n" + Text.Join(ls, "\n");
    assert forall k :: 1 <= k < |ys| ==> ys[k] == ls[k - 1];
    ReadHeadAndLines(a, b, ys);
    assert [a, b] + ys == [a, b, ""] + ls;
  }

  /** With column 0 kept and row 0 not written while a later row is, the
      row loop's leading newline leaves an empty line between the meta line
      and the first written row, which the loader reads as a data row. */
  lemma {:induction false} RowZeroSkipped(cfg: Config, src: Source)
    requires FirstKept(cfg, src.columns) && HeaderText(src.columns)
    requires var e := EmittedLines(cfg, src, Lines(cfg, src), |src.rows|); e.rows != [] && e.rows[0] != 0
    ensures var e := EmittedLines(cfg, src, Lines(cfg, src), |src.rows|);
      Text.ReadLines(TableText(cfg, src, true)) ==
        [Tabbed(NamePieces(cfg, src.columns)), Tabbed(MetaPieces(cfg, src.columns)), ""] + e.lines
  {
    var all := Lines(cfg, src);
    var e := EmittedLines(cfg, src, all, |src.rows|);
    KeptText(cfg, src, true);
    IntendedLinesFree(cfg, src);
    forall k | 0 <= k < |e.lines| ensures Text.Free(e.lines[k], {'\n'}) {
      assert e.lines[k] == all[e.rows[k]];
    }
    assert !Blank(e.lines[|e.lines| - 1]);
    ReadBlankThenLines(Tabbed(NamePieces(cfg, src.columns)), Tabbed(MetaPieces(cfg, src.columns)), e.lines);
  }

  // ---------------------------------------------------------------------
  // Lemmas: cells and directives

  /** An `#if` directive naming words separated by single spaces yields
      exactly those words, in order. */
  lemma {:induction false} GetIfVarsOfWords(ws: seq<string>)
    requires |ws| >= 1
    requires forall i :: 0 <= i < |ws| ==> ws[i] != "" && Text.Free(ws[i], Text.WhiteSpace + {'#'})
    ensures GetIfVars("#if " + Text.Join(ws, " ")) == ws
  {
    var j := Text.Join(ws, " ");
    var tail := " " + j;
    var s := "#if" + tail;
    assert "#if " + j == s;
    forall i | 0 <= i < |ws| ensures Text.Free(ws[i], {'#'}) && Text.Free(ws[i], {' '}) {
    }
    Text.FreeJoin(ws, " ", {'#'});
    Text.FreeConcat(" ", j, {'#'});
    Text.NotContainsHead(tail, "#if");
    Text.ReplaceAbsent(tail, "#if", "");
    assert s[..3] == "#if" && s[3..] == tail;
    assert Text.Replace(s, "#if", "") == tail;
    Text.JoinFirst(ws, " ");
    Text.JoinLast(ws, " ");
    var last := ws[|ws| - 1];
    assert last[|last| - 1] !in Text.WhiteSpace;
    assert ws[0][0] !in Text.WhiteSpace;
    Text.TrimPadded(' ', j);
    Text.SplitJoin(ws, ' ');
    Text.NonEmptyAll(ws);
  }

  /** The escaping of a cell, character by character: a newline becomes a
      backslash and an 'n', every other character stays. */
  function EscapeChars(cell: string): string {
    if cell == [] then []
    else (if cell[0] == '\n' then "\\n" else [cell[0]]) + EscapeChars(cell[1..])
  }

  /** `Escape` is the character-by-character escaping. */
  lemma {:induction false} EscapeIsPerChar(cell: string)
    ensures Escape(cell) == EscapeChars(cell)
    decreases |cell|
  {
    if cell != [] {
      EscapeIsPerChar(cell[1..]);
      if cell[0] == '\n' {
        assert cell[..1] == "\n";
      } else {
        assert cell[..1] != "\n" by { assert cell[..1][0] == cell[0]; }
      }
    }
  }

  /** The escaped cell grows by one character per newline. */
  lemma {:induction false} EscapeLength(cell: string)
    ensures |Escape(cell)| == |cell| + Text.Count(cell, {'\n'})
    decreases |cell|
  {
    EscapeIsPerChar(cell);
    EscapeCharsLength(cell);
  }

  /** The length of the character-by-character escaping. */
  lemma {:induction false} EscapeCharsLength(cell: string)
    ensures |EscapeChars(cell)| == |cell| + Text.Count(cell, {'\n'})
    decreases |cell|
  {
    if cell != [] {
      EscapeCharsLength(cell[1..]);
    }
  }

  /** A cell without a newline is written as it is. */
  lemma {:induction false} EscapeKeepsPlain(cell: string)
    requires Text.Free(cell, {'\n'})
    ensures Escape(cell) == cell
  {
    Text.FreeNotContains(cell, '\n');
    Text.ReplaceAbsent(cell, "\n", "\\n");
  }

  // ---------------------------------------------------------------------
  // Lemmas: the column pass

  /** The mask of a prefix of the columns is the prefix of the mask. */
  lemma MaskPrefix(cfg: Config, cols: seq<Column>, sel: Selection, i: nat)
    requires i <= |cols|
    ensures Mask(cfg, cols[..i], sel) == Mask(cfg, cols, sel)[..i]
  {
  }

  /** When every column is named, a field's `Index` is its position among
      the fields, so the indices run 0, 1, 2, ... without gaps. */
  lemma FieldIndexIsPosition(cfg: Config, cols: seq<Column>)
    requires forall i :: 0 <= i < |cols| ==> cols[i].name != ""
    ensures var r := FieldList(cfg, cols);
      forall k :: 0 <= k < |r| ==> r[k].index == k
  {
    var mf, mc := Mask(cfg, cols, Fields), Mask(cfg, cols, Comments);
    var f := Where(cfg, cols, Fields);
    forall k | 0 <= k < |f| ensures f[k] - CommentsBefore(cfg, cols, f[k]) == k {
      MaskPrefix(cfg, cols, Comments, f[k]);
      Masks.PositionsSplit(mf, mc, f[k]);
      Masks.PositionsRank(mf, k);
    }
  }

  /** A full declaration "type|default|pk" reads back as written. */
  lemma DeclareRoundTrip(t: string, d: string)
    requires t != "" && d != "" && Text.Free(t, {'|', '/'}) && Text.Free(d, {'|', '/'})
    ensures Declare(t + "|" + d + "|pk") == Declaration(t, d, true)
  {
    var seps := {'|', '/'};
    assert Text.Free("pk", seps);
    Text.SplitFree("pk", seps);
    Text.SplitCons(d, '|', "pk", seps);
    assert d + "|pk" == d + ['|'] + "pk";
    Text.SplitCons(t, '|', d + "|pk", seps);
    assert t + "|" + d + "|pk" == t + ['|'] + (d + "|pk");
    var parts := [t, d, "pk"];
    assert Text.Split(t + "|" + d + "|pk", seps) == parts;
    assert Text.NonEmpty(parts[2..]) == ["pk"];
    assert Text.NonEmpty(parts[1..]) == [d, "pk"];
  }

  /** An empty declaration is a string column with an empty default. */
  lemma DeclareEmpty()
    ensures Declare("") == Declaration("string", "", false)
  {
    assert Text.Split("", {'|', '/'}) == [""];
  }

  // ---------------------------------------------------------------------
  // The #if flag, stated without the loop

  /** How row r's first cell classifies. */
  function FirstType(cfg: Config, src: Source, r: nat): CellType {
    CheckCellType(cfg, CellAt(src, r, 0))
  }

  /** The rows whose first cell is an `#if` or an `#endif`. */
  function Directives(cfg: Config, src: Source): (m: seq<bool>)
    ensures |m| == |src.rows|
    ensures forall r :: 0 <= r < |src.rows| ==> (m[r] <==> FirstType(cfg, src, r) in {If, Endif})
  {
    seq(|src.rows|, r requires 0 <= r < |src.rows| => FirstType(cfg, src, r) in {If, Endif})
  }

  /** Whether a directive row leaves the flag set: an `#endif` always, an
      `#if` when all its variables are configured. */
  predicate Opens(cfg: Config, src: Source, r: nat) {
    FirstType(cfg, src, r) == Endif || AllDefined(cfg.conditionVars, GetIfVars(CellAt(src, r, 0)))
  }

  /** The flag before row n: set when no directive row comes before it,
      else as the last directive row before it left it. */
  predicate FlagBefore(cfg: Config, src: Source, n: nat)
    requires n <= |src.rows|
  {
    match Masks.LastSet(Directives(cfg, src)[..n])
    case None => true
    case Some(i) => Opens(cfg, src, i)
  }

  /** What one row does to the flag. */
  lemma {:induction false} DecideFlag(cfg: Config, src: Source, r: nat, active: bool)
    requires FirstKept(cfg, src.columns)
    ensures var d := Decide(cfg, src, r, active);
      && d.active == (if FirstType(cfg, src, r) in {If, Endif} then Opens(cfg, src, r) else active)
      && (d.emit <==> active && FirstType(cfg, src, r) == Value)
  {
  }

  /** The loop's flag after n rows is the flag the last directive row
      among them left: `#if` blocks do not nest, and comment and value
      rows leave the flag alone. */
  lemma {:induction false} FlagIsLastDirective(cfg: Config, src: Source, n: nat)
    requires FirstKept(cfg, src.columns) && n <= |src.rows|
    ensures EmittedLines(cfg, src, Lines(cfg, src), n).active == FlagBefore(cfg, src, n)
    decreases n
  {
    if n > 0 {
      var all, r: nat := Lines(cfg, src), n - 1;
      FlagIsLastDirective(cfg, src, r);
      var e0 := EmittedLines(cfg, src, all, r);
      DecideFlag(cfg, src, r, e0.active);
      FlagBeforeStep(cfg, src, r);
      assert EmittedLines(cfg, src, all, n).active == Decide(cfg, src, r, e0.active).active;
    }
  }

  /** One more row changes the flag only when it is a directive. */
  lemma {:induction false} FlagBeforeStep(cfg: Config, src: Source, r: nat)
    requires r < |src.rows|
    ensures FlagBefore(cfg, src, r + 1) ==
      if FirstType(cfg, src, r) in {If, Endif} then Opens(cfg, src, r) else FlagBefore(cfg, src, r)
  {
    var m := Directives(cfg, src);
    Masks.LastSetAppend(m, r);
    assert m[r] == (FirstType(cfg, src, r) in {If, Endif});
  }

  /** The rows written, stated without the loop: a value row (by its first
      cell) while the flag is set, whose line is not blank. */
  function WriteMask(cfg: Config, src: Source): (m: seq<bool>)
    ensures |m| == |src.rows|
    ensures forall r :: 0 <= r < |src.rows| ==>
      (m[r] <==> FirstType(cfg, src, r) == Value && FlagBefore(cfg, src, r) && !Blank(Lines(cfg, src)[r]))
  {
    var all := Lines(cfg, src);
    seq(|src.rows|, r requires 0 <= r < |src.rows| => FirstType(cfg, src, r) == Value && FlagBefore(cfg, src, r) && !Blank(all[r]))
  }

  /** One row of the loop adds it to the written rows exactly when
      `WriteMask` marks it. */
  lemma {:induction false} WrittenStep(cfg: Config, src: Source, r: nat)
    requires FirstKept(cfg, src.columns) && r < |src.rows|
    ensures var all := Lines(cfg, src);
      EmittedLines(cfg, src, all, r + 1).rows ==
        EmittedLines(cfg, src, all, r).rows + if WriteMask(cfg, src)[r] then [r] else []
  {
    var all := Lines(cfg, src);
    var e0 := EmittedLines(cfg, src, all, r);
    FlagIsLastDirective(cfg, src, r);
    DecideFlag(cfg, src, r, e0.active);
    var d := Decide(cfg, src, r, e0.active);
    assert WriteMask(cfg, src)[r] == (d.emit && !Blank(all[r]));
  }

  /** With column 0 kept, the loop writes exactly the rows `WriteMask`
      marks, in source order. */
  lemma {:induction false} WrittenRows(cfg: Config, src: Source, n: nat)
    requires FirstKept(cfg, src.columns) && n <= |src.rows|
    ensures EmittedLines(cfg, src, Lines(cfg, src), n).rows == Masks.Positions(WriteMask(cfg, src)[..n])
    decreases n
  {
    if n > 0 {
      var r: nat := n - 1;
      var m := WriteMask(cfg, src);
      WrittenRows(cfg, src, r);
      WrittenStep(cfg, src, r);
      Masks.PositionsAppend(m, r);
    }
  }

  // ---------------------------------------------------------------------
  // Lemmas: comment columns are invisible

  /** Two sources that differ only in their comment columns: the same
      columns are comments, and every other column has the same name,
      declaration, comment and cells. */
  predicate SameKept(cfg: Config, a: Source, b: Source) {
    && |a.columns| == |b.columns| && |a.rows| == |b.rows|
    && forall i :: 0 <= i < |a.columns| ==>
         && (CommentColumn(cfg, a.columns[i]) <==> CommentColumn(cfg, b.columns[i]))
         && (!CommentColumn(cfg, a.columns[i]) ==>
               a.columns[i] == b.columns[i] && forall r :: 0 <= r < |a.rows| ==> CellAt(a, r, i) == CellAt(b, r, i))
  }

  /** Every selection takes the same columns of both. */
  lemma {:induction false} MasksAgree(cfg: Config, a: Source, b: Source, sel: Selection)
    requires SameKept(cfg, a, b)
    ensures Mask(cfg, a.columns, sel) == Mask(cfg, b.columns, sel)
    ensures Where(cfg, a.columns, sel) == Where(cfg, b.columns, sel)
  {
    var ma, mb := Mask(cfg, a.columns, sel), Mask(cfg, b.columns, sel);
    forall i | 0 <= i < |a.columns| ensures ma[i] == mb[i] {
      assert Selects(cfg, sel, a.columns[i]) == Selects(cfg, sel, b.columns[i]);
    }
  }

  /** ... and so does every prefix of the columns. */
  lemma {:induction false} CommentsBeforeAgree(cfg: Config, a: Source, b: Source, i: nat)
    requires SameKept(cfg, a, b) && i <= |a.columns|
    ensures CommentsBefore(cfg, a.columns, i) == CommentsBefore(cfg, b.columns, i)
  {
    MasksAgree(cfg, a, b, Comments);
    MaskPrefix(cfg, a.columns, Comments, i);
    MaskPrefix(cfg, b.columns, Comments, i);
  }

  /** The header pieces, the fields and the key agree. */
  lemma {:induction false} HeadersAgree(cfg: Config, a: Source, b: Source)
    requires SameKept(cfg, a, b)
    ensures NamePieces(cfg, a.columns) == NamePieces(cfg, b.columns)
    ensures MetaPieces(cfg, a.columns) == MetaPieces(cfg, b.columns)
    ensures FieldList(cfg, a.columns) == FieldList(cfg, b.columns)
    ensures PrimaryKey(cfg, a.columns) == PrimaryKey(cfg, b.columns)
  {
    NamesAgree(cfg, a, b);
    MetasAgree(cfg, a, b);
    FieldsAgree(cfg, a, b);
    KeyAgrees(cfg, a, b);
  }

  lemma {:induction false} NamesAgree(cfg: Config, a: Source, b: Source)
    requires SameKept(cfg, a, b)
    ensures NamePieces(cfg, a.columns) == NamePieces(cfg, b.columns)
  {
    MasksAgree(cfg, a, b, Fields);
  }

  lemma {:induction false} MetasAgree(cfg: Config, a: Source, b: Source)
    requires SameKept(cfg, a, b)
    ensures MetaPieces(cfg, a.columns) == MetaPieces(cfg, b.columns)
  {
    MasksAgree(cfg, a, b, Kept);
  }

  lemma {:induction false} FieldsAgree(cfg: Config, a: Source, b: Source)
    requires SameKept(cfg, a, b)
    ensures FieldList(cfg, a.columns) == FieldList(cfg, b.columns)
  {
    MasksAgree(cfg, a, b, Fields);
    var f := Where(cfg, a.columns, Fields);
    forall k | 0 <= k < |f| ensures CommentsBefore(cfg, a.columns, f[k]) == CommentsBefore(cfg, b.columns, f[k]) {
      CommentsBeforeAgree(cfg, a, b, f[k]);
    }
  }

  lemma {:induction false} KeyAgrees(cfg: Config, a: Source, b: Source)
    requires SameKept(cfg, a, b)
    ensures PrimaryKey(cfg, a.columns) == PrimaryKey(cfg, b.columns)
  {
    MasksAgree(cfg, a, b, Keys);
  }

  /** Every row's pieces and first-cell decision agree. */
  lemma {:induction false} RowAgree(cfg: Config, a: Source, b: Source, r: nat, active: bool)
    requires SameKept(cfg, a, b) && r < |a.rows|
    ensures CellPieces(cfg, a, r) == CellPieces(cfg, b, r)
    ensures Decide(cfg, a, r, active) == Decide(cfg, b, r, active)
    ensures var d := Decide(cfg, a, r, active); RowText(cfg, a, r, d) == RowText(cfg, b, r, d)
  {
    PiecesAgree(cfg, a, b, r);
    assert FirstKept(cfg, a.columns) == FirstKept(cfg, b.columns);
  }

  lemma {:induction false} PiecesAgree(cfg: Config, a: Source, b: Source, r: nat)
    requires SameKept(cfg, a, b) && r < |a.rows|
    ensures CellPieces(cfg, a, r) == CellPieces(cfg, b, r)
  {
    MasksAgree(cfg, a, b, Kept);
    var f := Where(cfg, a.columns, Kept);
    assert forall k :: 0 <= k < |f| ==> CellAt(a, r, f[k]) == CellAt(b, r, f[k]);
  }

  /** The row loop agrees row by row. */
  lemma {:induction false} RowsPassAgree(cfg: Config, a: Source, b: Source, n: nat)
    requires SameKept(cfg, a, b) && n <= |a.rows|
    ensures RowsPass(cfg, a, n) == RowsPass(cfg, b, n)
    decreases n
  {
    if n > 0 {
      var r: nat := n - 1;
      RowsPassAgree(cfg, a, b, r);
      var p := RowsPass(cfg, a, r);
      RowAgree(cfg, a, b, r, p.active);
    }
  }

  /** A comment column appears nowhere in what the compiler produces: the
      text, the field list and the primary key are the same whatever the
      comment columns hold. */
  lemma {:induction false} CommentColumnsInvisible(cfg: Config, a: Source, b: Source, doCompile: bool)
    requires SameKept(cfg, a, b)
    ensures TableText(cfg, a, doCompile) == TableText(cfg, b, doCompile)
    ensures FieldList(cfg, a.columns) == FieldList(cfg, b.columns)
    ensures PrimaryKey(cfg, a.columns) == PrimaryKey(cfg, b.columns)
  {
    HeadersAgree(cfg, a, b);
    RowsPassAgree(cfg, a, b, |a.rows|);
  }
}
