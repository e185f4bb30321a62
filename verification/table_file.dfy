/** `TableFile` (TableML/TableML/TableFile.cs): the store over plain rows,
    where every cell and every key is text, with its convenience
    constructors. */
module PlainTable {
  import opened Wrappers
  import opened TableDefs
  import TableStore
  import TableRow
  import OrderedMap

  type Step = TableStore.Step

  /** `new TableFile(string[] contents)`; `global` says whether a
      process-wide handler is registered. */
  function FromContents(global: bool, contents: Option<seq<Option<string>>>): Result<Step, Error> {
    TableStore.LoadFromString(TableStore.PlainRows, global, contents)
  }

  /** `new TableFile(string content)`: the content wrapped in a one-element array. */
  function FromContent(global: bool, content: Option<string>): Result<Step, Error> {
    FromContents(global, Some([content]))
  }

  /** `TableFile.LoadFromString(params string[] content)`. */
  function LoadFromString(global: bool, contents: Option<seq<Option<string>>>): Result<Step, Error> {
    FromContents(global, contents)
  }

  /** `TableFile.LoadFromFile(path, encoding)`, the file given by its text. */
  function LoadFromFile(global: bool, text: string): Result<Step, Error> {
    TableStore.LoadFromFile(TableStore.PlainRows, global, text)
  }

  // ---------------------------------------------------------------------
  // Lemmas

  /** Building from one content is one `ParseString` on a fresh store with
      tab separators and no per-table handler. */
  lemma FromContentIsOneParse(global: bool, content: Option<string>)
    ensures FromContent(global, content) ==
      match TableStore.ParseString(TableStore.PlainRows, {'\t'}, Handlers(global, false), TableStore.Step(TableStore.Empty, []), content)
      case Success((st, _)) => Success(st)
      case Failure(e) => Failure(e)
  {
    assert SeparatorSet(DefaultSeparators) == {'\t'} by {
      DefaultSeparatorIsTab();
    }
    var h, seps, st0 := Handlers(global, false), {'\t'}, TableStore.Step(TableStore.Empty, []);
    var cfg := DefaultConfig.(contents := Some([content]));
    assert cfg.contents.GetOr([]) == [content];
    assert cfg.contentStreams.GetOr([]) == [];
    assert [content][1..] == [];
    match TableStore.ParseString(TableStore.PlainRows, seps, h, st0, content)
    case Success((st, _)) =>
      assert TableStore.ParseStrings(TableStore.PlainRows, seps, h, st0, [content]) == Success(st);
      assert TableStore.ParseStreams(TableStore.PlainRows, seps, h, st, []) == Success(st);
    case Failure(e) =>
  }

  /** A missing or empty content gives an empty store and no diagnostic. */
  lemma NoContentNoRows(global: bool, content: Option<string>)
    requires content.None? || content == Some("")
    ensures FromContent(global, content) == Success(TableStore.Step(TableStore.Empty, []))
  {
    FromContentIsOneParse(global, content);
  }

  /** A plain table's keys are the text of the owning row's first cell,
      and none of its cells is null. */
  lemma KeysAreText(global: bool, contents: Option<seq<Option<string>>>)
    requires FromContents(global, contents).Success?
    ensures var t := FromContents(global, contents).value.table;
      forall k :: k in t.keyIndex ==> k.Str? && TableStore.AllText(t.keyIndex[k])
    ensures var t := FromContents(global, contents).value.table;
      forall m :: OrderedMap.Get(t.rows, m).Some? ==> TableStore.AllText(OrderedMap.Get(t.rows, m).value)
  {
    TableStore.ConstructShaped(TableStore.PlainRows, global, DefaultConfig.(contents := contents));
  }

  /** Two tab-free texts joined by a tab split back into the two. */
  lemma SplitPair(a: string, b: string)
    requires Text.Free(a, {'\t'}) && Text.Free(b, {'\t'})
    ensures Text.Split(a + "\t" + b, {'\t'}) == [a, b]
  {
    Text.SplitCons(a, '\t', b, {'\t'});
    Text.SplitFree(b, {'\t'});
  }

  /** Two data lines with the same key under a two-column header: the
      second raises `DuplicatedKey` with the key's text, the index keeps the
      first row, and the second row number maps to that first row too. */
  lemma {:induction false} RepeatedKey(n1: string, n2: string, m1: string, m2: string, key: string, x: string, y: string)
    requires forall s :: s in [n1, n2, m1, m2, key, x, y] ==> Text.Free(s, {'\t'}) && Text.Free(s, {'\n'})
    requires n1 != n2
    ensures var r := FromContent(true, Some(Text.Terminated([n1 + "\t" + n2, m1 + "\t" + m2, key + "\t" + x, key + "\t" + y])));
      && r.Success?
      && TableStore.GetRowCount(r.value.table) == 2
      && OrderedMap.Get(r.value.table.headers, n2) == Some(HeaderInfo(1, n2, Some(m2)))
      && r.value.table.keyIndex == map[Str(key) := TableRow.Row(1, [Some(key), Some(x)])]
      && OrderedMap.Get(r.value.table.rows, 2) == Some(TableRow.Row(1, [Some(key), Some(x)]))
      && r.value.log == [Diagnostic(DuplicatedKey, [Literal(key)])]
  {
    var lines := [n1 + "\t" + n2, m1 + "\t" + m2, key + "\t" + x, key + "\t" + y];
    TabLine(n1, n2);
    TabLine(m1, m2);
    TabLine(key, x);
    TabLine(key, y);
    FromLines(true, lines);
    RepeatedKeyReader(n1, n2, m1, m2, key, x, y);
  }

  lemma RepeatedKeyReader(n1: string, n2: string, m1: string, m2: string, key: string, x: string, y: string)
    requires forall s :: s in [n1, n2, m1, m2, key, x, y] ==> Text.Free(s, {'\t'})
    requires n1 != n2
    ensures var r := TableStore.ParseReader(TableStore.PlainRows, {'\t'}, Handlers(true, false), TableStore.Step(TableStore.Empty, []),
                       [n1 + "\t" + n2, m1 + "\t" + m2, key + "\t" + x, key + "\t" + y]);
      && r.Success?
      && |r.value.0.table.rows| == 2
      && OrderedMap.Get(r.value.0.table.headers, n2) == Some(HeaderInfo(1, n2, Some(m2)))
      && r.value.0.table.keyIndex == map[Str(key) := TableRow.Row(1, [Some(key), Some(x)])]
      && OrderedMap.Get(r.value.0.table.rows, 2) == Some(TableRow.Row(1, [Some(key), Some(x)]))
      && r.value.0.log == [Diagnostic(DuplicatedKey, [Literal(key)])]
  {
    var lines := [n1 + "\t" + n2, m1 + "\t" + m2, key + "\t" + x, key + "\t" + y];
    SplitPair(n1, n2);
    SplitPair(m1, m2);
    var hs := TableStore.PutHeaders([], [n1, n2], [m1, m2], 0);
    TableStore.PutHeadersLast([], [n1, n2], [m1, m2], 0, 1);
    assert lines[2..] == [key + "\t" + x, key + "\t" + y];
    ReaderIsRows(Handlers(true, false), lines, [n1, n2], [m1, m2]);
    RepeatedKeyRows(hs, key, x, y);
  }

  /** A header pair no longer than it should be leaves the data lines to
      `ParseRows` on a store holding the new headers. */
  lemma ReaderIsRows(h: Handlers, lines: seq<string>, names: seq<string>, metas: seq<string>)
    requires |lines| >= 2
    requires Text.Split(lines[0], {'\t'}) == names && Text.Split(lines[1], {'\t'}) == metas
    requires |metas| <= |names|
    ensures TableStore.ParseReader(TableStore.PlainRows, {'\t'}, h, TableStore.Step(TableStore.Empty, []), lines) ==
      match TableStore.ParseRows(TableStore.PlainRows, {'\t'}, h,
              TableStore.Step(TableStore.Empty.(headers := TableStore.PutHeaders([], names, metas, 0), colCount := |names|), []), lines[2..])
      case Success(st) => Success((st, true))
      case Failure(e) => Failure(e)
  {
  }

  /** Reading the text of some lines is `ParseReader` on exactly those lines. */
  lemma FromLines(global: bool, lines: seq<string>)
    requires lines != []
    requires forall i :: 0 <= i < |lines| ==> Text.Free(lines[i], {'\n'})
    ensures FromContent(global, Some(Text.Terminated(lines))) ==
      match TableStore.ParseReader(TableStore.PlainRows, {'\t'}, Handlers(global, false), TableStore.Step(TableStore.Empty, []), lines)
      case Success((st, _)) => Success(st)
      case Failure(e) => Failure(e)
  {
    var text := Text.Terminated(lines);
    Text.ReadTerminated(lines);
    assert text != "";
    FromContentIsOneParse(global, Some(text));
  }

  lemma {:induction false} RepeatedKeyRows(hs: Headers, key: string, x: string, y: string)
    requires Text.Free(key, {'\t'}) && Text.Free(x, {'\t'}) && Text.Free(y, {'\t'})
    ensures var r := TableStore.ParseRows(TableStore.PlainRows, {'\t'}, Handlers(true, false),
                       TableStore.Step(TableStore.Empty.(headers := hs, colCount := 2), []), [key + "\t" + x, key + "\t" + y]);
      && r.Success?
      && r.value.table.headers == hs
      && |r.value.table.rows| == 2
      && r.value.table.keyIndex == map[Str(key) := TableRow.Row(1, [Some(key), Some(x)])]
      && OrderedMap.Get(r.value.table.rows, 2) == Some(TableRow.Row(1, [Some(key), Some(x)]))
      && r.value.log == [Diagnostic(DuplicatedKey, [Literal(key)])]
  {
    var seps, h := {'\t'}, Handlers(true, false);
    SplitPair(key, x);
    SplitPair(key, y);
    var st0 := TableStore.Step(TableStore.Empty.(headers := hs, colCount := 2), []);
    RepeatedKeyAdds(hs, key, x, y);
    var st1 := TableStore.AddRow(TableStore.PlainRows, h, st0, [key, x]);
    var st2 := TableStore.AddRow(TableStore.PlainRows, h, st1.value, [key, y]);
    var rest := [key + "\t" + x, key + "\t" + y];
    assert Text.Split(rest[0], seps) == [key, x];
    assert Text.Split(rest[1..][0], seps) == [key, y];
    TableStore.ParseRowsCons(TableStore.PlainRows, seps, h, st0, rest);
    TableStore.ParseRowsCons(TableStore.PlainRows, seps, h, st1.value, rest[1..]);
    var last := rest[1..][1..];
    assert |last| == 0;
    assert TableStore.ParseRows(TableStore.PlainRows, seps, h, st2.value, last) == st2;
  }

  /** The two rows of `RepeatedKeyRows`, added one after the other. */
  lemma {:induction false} RepeatedKeyAdds(hs: Headers, key: string, x: string, y: string)
    ensures var h := Handlers(true, false);
      var st0 := TableStore.Step(TableStore.Empty.(headers := hs, colCount := 2), []);
      var row1 := TableRow.Row(1, [Some(key), Some(x)]);
      var st1 := TableStore.AddRow(TableStore.PlainRows, h, st0, [key, x]);
      && st1.Success?
      && var st2 := TableStore.AddRow(TableStore.PlainRows, h, st1.value, [key, y]);
      && st2.Success?
      && st2.value.table.headers == hs
      && |st2.value.table.rows| == 2
      && st2.value.table.keyIndex == map[Str(key) := row1]
      && OrderedMap.Get(st2.value.table.rows, 2) == Some(row1)
      && st2.value.log == [Diagnostic(DuplicatedKey, [Literal(key)])]
  {
    var h := Handlers(true, false);
    var st0 := TableStore.Step(TableStore.Empty.(headers := hs, colCount := 2), []);
    var row1 := TableRow.Row(1, [Some(key), Some(x)]);
    assert TableRow.Cells([key, x]) == [Some(key), Some(x)];
    var st1 := TableStore.AddRow(TableStore.PlainRows, h, st0, [key, x]);
    assert st1.Success? && st1.value.table.keyIndex == map[Str(key) := row1];
    assert |st1.value.table.rows| == 1;
    assert OrderedMap.Get(st1.value.table.rows, 2) == OrderedMap.Get(st0.table.rows, 2) == None;
  }

  /** Two tab- and newline-free texts joined by a tab make a line that
      splits back into them. */
  lemma TabLine(a: string, b: string)
    requires Text.Free(a, {'\t'}) && Text.Free(b, {'\t'})
    requires Text.Free(a, {'\n'}) && Text.Free(b, {'\n'})
    ensures Text.Split(a + "\t" + b, {'\t'}) == [a, b]
    ensures Text.Free(a + "\t" + b, {'\n'})
  {
    SplitPair(a, b);
    Text.FreeConcat(a, "\t", {'\n'});
    Text.FreeConcat(a + "\t", b, {'\n'});
  }
}
