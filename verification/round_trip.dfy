/** Writing a plain table out with `TableFileWriter.ToString`
    (TableML/TableML/TableFileWriter.cs) and reading the text back with
    `new TableFile(content)` (TableML/TableML/TableFileGeneric.cs) recovers
    the headers and the rows, up to what the text cannot carry: null cells
    and metas come back as empty text, row numbers come back as 1, 2, ...
    in enumeration order, and column indices as positions. */
module RoundTrip {
  import opened Wrappers
  import OrderedMap
  import opened TableDefs
  import Text
  import TableRow
  import TableStore
  import PlainTable
  import TableWriter

  type Table = TableStore.Table

  /** Text a cell can hold and still come back as one cell of one line. */
  predicate FieldText(s: string) {
    Text.Free(s, {'\t'}) && Text.Free(s, {'\n'})
  }

  /** The tables the writer's text reads back faithfully: at least one
      header, header names pairwise distinct, no tab or newline in any
      name, meta or cell, no row without cells, and the rows' first cells
      pairwise distinct as written (so no line raises `DuplicatedKey`). */
  predicate Writable(t: Table) {
    && |t.headers| >= 1
    && (forall i, j :: 0 <= i < j < |t.headers| ==> t.headers[i].value.name != t.headers[j].value.name)
    && (forall i :: 0 <= i < |t.headers| ==> FieldText(t.headers[i].value.name) && FieldText(TableWriter.Shown(t.headers[i].value.meta)))
    && (forall j :: 0 <= j < |t.rows| ==> |t.rows[j].value.values| >= 1)
    && (forall j, i :: 0 <= j < |t.rows| && 0 <= i < |t.rows[j].value.values| ==> FieldText(TableWriter.Shown(t.rows[j].value.values[i])))
    && (forall j, k :: 0 <= j < k < |t.rows| ==>
          TableWriter.Shown(t.rows[j].value.values[0]) != TableWriter.Shown(t.rows[k].value.values[0]))
  }

  /** Every line the writer produces splits back on tabs into the fields it
      was joined from. */
  lemma WrittenFields(t: Table)
    requires Writable(t)
    ensures Text.Split(TableWriter.Lines(t)[0], {'\t'}) == TableWriter.Names(t.headers)
    ensures Text.Split(TableWriter.Lines(t)[1], {'\t'}) == TableWriter.Metas(t.headers)
    ensures forall j :: 0 <= j < |t.rows| ==> Text.Split(TableWriter.Lines(t)[j + 2], {'\t'}) == TableWriter.Cells(t.rows[j].value)
  {
    Text.SplitJoin(TableWriter.Names(t.headers), '\t');
    Text.SplitJoin(TableWriter.Metas(t.headers), '\t');
    forall j | 0 <= j < |t.rows|
      ensures Text.Split(TableWriter.Lines(t)[j + 2], {'\t'}) == TableWriter.Cells(t.rows[j].value)
    {
      Text.SplitJoin(TableWriter.Cells(t.rows[j].value), '\t');
    }
  }

  /** The cells of every stored row as the writer shows them. */
  function RowCells(t: Table): (r: seq<seq<string>>)
    ensures |r| == |t.rows|
    ensures forall j :: 0 <= j < |t.rows| ==> r[j] == TableWriter.Cells(t.rows[j].value)
  {
    seq(|t.rows|, j requires 0 <= j < |t.rows| => TableWriter.Cells(t.rows[j].value))
  }

  /** The data lines of the text split into the rows' cells, and their
      first fields are pairwise distinct. */
  lemma WrittenRows(t: Table)
    requires Writable(t)
    ensures var data, cells := TableWriter.Lines(t)[2..], RowCells(t);
      && |data| == |cells|
      && (forall j :: 0 <= j < |data| ==> Text.Split(data[j], {'\t'}) == cells[j] && cells[j] != [])
      && (forall j, k :: 0 <= j < k < |cells| ==> cells[j][0] != cells[k][0])
  {
    var data, cells := TableWriter.Lines(t)[2..], RowCells(t);
    WrittenFields(t);
    forall j | 0 <= j < |data| ensures Text.Split(data[j], {'\t'}) == cells[j] && cells[j] != [] {
      assert data[j] == TableWriter.Lines(t)[j + 2];
    }
    forall j, k | 0 <= j < k < |cells| ensures cells[j][0] != cells[k][0] {
      assert cells[j][0] == TableWriter.Shown(t.rows[j].value.values[0]);
      assert cells[k][0] == TableWriter.Shown(t.rows[k].value.values[0]);
    }
  }

  /** Data lines whose first fields are pairwise distinct parse, under any
      handler, into rows 1, 2, ... holding exactly their fields, with no
      diagnostic. */
  lemma RowsReadBack(h: Handlers, hs: Headers, c: int, data: seq<string>, cells: seq<seq<string>>)
    requires |data| == |cells|
    requires forall j :: 0 <= j < |data| ==> Text.Split(data[j], {'\t'}) == cells[j] && cells[j] != []
    requires forall j, k :: 0 <= j < k < |cells| ==> cells[j][0] != cells[k][0]
    ensures var r := TableStore.ParseRows(TableStore.PlainRows, {'\t'}, h, TableStore.Step(TableStore.Empty.(headers := hs, colCount := c), []), data);
      && r.Success?
      && r.value.log == []
      && r.value.table.headers == hs && r.value.table.colCount == c
      && |r.value.table.rows| == |data|
      && (forall j :: 0 <= j < |data| ==> OrderedMap.Get(r.value.table.rows, j + 1) == Some(TableRow.Row(j + 1, TableRow.Cells(cells[j]))))
  {
    var seps, kind := {'\t'}, TableStore.PlainRows;
    var st0 := TableStore.Step(TableStore.Empty.(headers := hs, colCount := c), []);
    assert TableStore.Wf(kind, st0.table);
    assert forall j :: 0 <= j < |data| ==> TableStore.LineKey(kind, Text.Split(data[j], seps)) == Str(cells[j][0]);
    TableStore.ParseRowsDistinct(kind, seps, h, st0, data);
    var t' := TableStore.ParseRows(kind, seps, h, st0, data).value.table;
    forall j | 0 <= j < |data|
      ensures OrderedMap.Get(t'.rows, j + 1) == Some(TableRow.Row(j + 1, TableRow.Cells(cells[j])))
    {
      TableStore.ParseRowsSlots(kind, seps, h, st0, data, j, 1 + j);
      TableStore.ParseRowsFirstOwner(kind, seps, h, st0, data, j, 1 + j);
    }
  }

  /** The headers the writer's text declares read back as written: each
      name at its position, with its meta as text. */
  lemma HeadersReadBack(h: Handlers, t: Table)
    requires Writable(t)
    ensures var names, metas := TableWriter.Names(t.headers), TableWriter.Metas(t.headers);
      forall i :: 0 <= i < |t.headers| ==>
        OrderedMap.Get(TableStore.PutHeaders([], names, metas, 0), names[i]) ==
          Some(HeaderInfo(i, t.headers[i].value.name, Some(TableWriter.Shown(t.headers[i].value.meta))))
  {
    var names, metas := TableWriter.Names(t.headers), TableWriter.Metas(t.headers);
    forall i | 0 <= i < |t.headers|
      ensures OrderedMap.Get(TableStore.PutHeaders([], names, metas, 0), names[i]) ==
          Some(HeaderInfo(i, t.headers[i].value.name, Some(TableWriter.Shown(t.headers[i].value.meta))))
    {
      TableStore.PutHeadersLast([], names, metas, 0, i);
    }
  }

  /** The round trip: re-reading the written text gives a store with one
      header per column at its position with the same name and its meta as
      text, the same number of rows, row j + 1 holding the j-th stored
      row's cells (a null cell read back as empty text), and no diagnostic. */
  lemma {:induction false} WriteThenRead(global: bool, t: Table)
    requires Writable(t)
    ensures var r := PlainTable.FromContent(global, Some(TableWriter.Serialized(t)));
      && r.Success?
      && r.value.log == []
      && r.value.table.colCount == |t.headers|
      && (forall i :: 0 <= i < |t.headers| ==>
            OrderedMap.Get(r.value.table.headers, t.headers[i].value.name) ==
              Some(HeaderInfo(i, t.headers[i].value.name, Some(TableWriter.Shown(t.headers[i].value.meta)))))
      && TableStore.GetRowCount(r.value.table) == |t.rows|
      && (forall j :: 0 <= j < |t.rows| ==>
            OrderedMap.Get(r.value.table.rows, j + 1) ==
              Some(TableRow.Row(j + 1, TableRow.Cells(TableWriter.Cells(t.rows[j].value)))))
  {
    var lines := TableWriter.Lines(t);
    var h := Handlers(global, false);
    var names, metas := TableWriter.Names(t.headers), TableWriter.Metas(t.headers);
    TableWriter.LinesReadBack(t);
    WrittenFields(t);
    PlainTable.FromLines(global, lines);
    PlainTable.ReaderIsRows(h, lines, names, metas);
    var data, cells := lines[2..], RowCells(t);
    WrittenRows(t);
    var hs := TableStore.PutHeaders([], names, metas, 0);
    RowsReadBack(h, hs, |names|, data, cells);
    HeadersReadBack(h, t);
  }

  /** When no cell or meta is null, the rows come back cell for cell. */
  lemma WriteThenReadCells(global: bool, t: Table, j: int)
    requires Writable(t)
    requires 0 <= j < |t.rows| && TableStore.AllText(t.rows[j].value)
    ensures var r := PlainTable.FromContent(global, Some(TableWriter.Serialized(t)));
      r.Success? && OrderedMap.Get(r.value.table.rows, j + 1) == Some(TableRow.Row(j + 1, t.rows[j].value.values))
  {
    WriteThenRead(global, t);
    var row := t.rows[j].value;
    assert TableRow.Cells(TableWriter.Cells(row)) == row.values;
  }
}
