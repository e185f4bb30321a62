/** `TableFileWriter` (TableML/TableML/TableFileWriter.cs): renders a plain
    table back to tab-separated text and edits its rows and columns. The
    writer holds the table it was given; every edit here returns the
    edited table. */
module TableWriter {
  import opened Wrappers
  import OrderedMap
  import opened TableDefs
  import TableRow
  import TableStore
  import Text

  type Table = TableStore.Table
  type Row = TableRow.Row

  /** `StringBuilder.Append(string)`: a null string appends nothing. */
  function Shown(v: Option<string>): (r: string)
    ensures v.Some? ==> r == v.value
    ensures v.None? ==> r == ""
  {
    v.GetOr("")
  }

  /** The header names, in the headers' enumeration order. */
  function Names(hs: Headers): (r: seq<string>)
    ensures |r| == |hs|
    ensures forall i :: 0 <= i < |hs| ==> r[i] == hs[i].value.name
  {
    seq(|hs|, i requires 0 <= i < |hs| => hs[i].value.name)
  }

  /** The header metas as appended, a null meta showing as nothing. */
  function Metas(hs: Headers): (r: seq<string>)
    ensures |r| == |hs|
    ensures forall i :: 0 <= i < |hs| ==> r[i] == Shown(hs[i].value.meta)
  {
    seq(|hs|, i requires 0 <= i < |hs| => Shown(hs[i].value.meta))
  }

  /** A row's cells as appended. */
  function Cells(row: Row): (r: seq<string>)
    ensures |r| == |row.values|
    ensures forall i :: 0 <= i < |r| ==> r[i] == Shown(row.values[i])
  {
    seq(|row.values|, i requires 0 <= i < |row.values| => Shown(row.values[i]))
  }

  /** The lines the writer produces: the names, the metas, and one line per
      stored row in enumeration order, each a tab-join of its fields. */
  function Lines(t: Table): (r: seq<string>)
    ensures |r| == |t.rows| + 2
    ensures r[0] == Text.Join(Names(t.headers), "\t")
    ensures r[1] == Text.Join(Metas(t.headers), "\t")
    ensures forall j :: 0 <= j < |t.rows| ==> r[j + 2] == Text.Join(Cells(t.rows[j].value), "\t")
  {
    [Text.Join(Names(t.headers), "\t"), Text.Join(Metas(t.headers), "\t")]
      + seq(|t.rows|, j requires 0 <= j < |t.rows| => Text.Join(Cells(t.rows[j].value), "\t"))
  }

  /** The text `ToString` builds: every line ends with "\n". */
  function Serialized(t: Table): string {
    Text.Terminated(Lines(t))
  }

  /** One of the `StringBuilder` loops: append each field, and a tab after
      every field but the last. */
  method AppendFields(sb: string, xs: seq<string>) returns (r: string)
    ensures r == sb + Text.Join(xs, "\t")
  {
    r := sb;
    var index := 0;
    while index < |xs|
      invariant 0 <= index <= |xs|
      invariant r == sb + Text.Join(xs[..index], "\t") + (if 0 < index < |xs| then "\t" else "")
    {
      Text.JoinSnoc(xs[..index], xs[index], "\t");
      assert xs[..index + 1] == xs[..index] + [xs[index]];
      r := r + xs[index];
      index := index + 1;
      if index != |xs| {
        r := r + "\t";
      }
    }
    assert xs[..index] == xs;
  }

  /** `ToString()`: the name line, the meta line, then each stored row. */
  method ToString(t: Table) returns (s: string)
    ensures s == Serialized(t)
  {
    var lines := Lines(t);
    s := AppendFields("", Names(t.headers));
    s := s + "\n";
    s := AppendFields(s, Metas(t.headers));
    s := s + "\n";
    assert lines[..2] == [lines[0]] + [lines[1]];
    Text.TerminatedSnoc([lines[0]], lines[1]);
    var k := 0;
    while k < |t.rows|
      invariant 0 <= k <= |t.rows|
      invariant s == Text.Terminated(lines[..k + 2])
    {
      var prev := s;
      s := AppendFields(s, Cells(t.rows[k].value));
      s := s + "\n";
      assert s == prev + lines[k + 2] + "\n";
      TerminatedStep(lines, k + 2);
      k := k + 1;
    }
    assert lines[..k + 2] == lines;
  }

  /** One more line of a prefix adds that line and its newline. */
  lemma TerminatedStep(xs: seq<string>, i: nat)
    requires i < |xs|
    ensures Text.Terminated(xs[..i + 1]) == Text.Terminated(xs[..i]) + xs[i] + "\n"
  {
    Text.TerminatedSnoc(xs[..i], xs[i]);
    assert xs[..i + 1] == xs[..i] + [xs[i]];
  }

  /** `new TableFileWriter()`: an empty table. */
  const NewWriter: Table := TableStore.Empty

  /** `NewRow()`: a row numbered one past the current row count, with one
      null cell per header, added under that number; `Dictionary.Add`
      throws when the number is taken. The key index and the row counter
      are not touched. */
  function NewRow(t: Table): (r: Result<(Table, Row), Error>)
    ensures r.Failure? <==> OrderedMap.Has(t.rows, |t.rows| + 1)
    ensures r.Failure? ==> r.error == DuplicateDictionaryKey
    ensures r.Success? ==> var (t', row) := r.value;
      && row.number == |t.rows| + 1
      && |row.values| == |t.headers|
      && (forall i :: 0 <= i < |row.values| ==> row.values[i].None?)
      && OrderedMap.Get(t'.rows, row.number) == Some(row)
      && (forall n :: n != row.number ==> OrderedMap.Get(t'.rows, n) == OrderedMap.Get(t.rows, n))
      && |t'.rows| == |t.rows| + 1
      && t' == t.(rows := t'.rows)
  {
    var number := |t.rows| + 1;
    if OrderedMap.Has(t.rows, number) then Failure(DuplicateDictionaryKey)
    else
      var row := TableRow.Ctor(number, t.headers);
      var rows := OrderedMap.Put(t.rows, number, row);
      assert |OrderedMap.Keys(rows)| == |OrderedMap.Keys(t.rows)| + 1;
      Success((t.(rows := rows), row))
  }

  /** `RemoveRow(row)`: true exactly when the number was present; only that
      entry goes. */
  function RemoveRow(t: Table, number: int): (r: (Table, bool))
    ensures r.1 <==> OrderedMap.Has(t.rows, number)
    ensures OrderedMap.Unique(t.rows) ==> OrderedMap.Get(r.0.rows, number) == None
    ensures forall n :: n != number ==> OrderedMap.Get(r.0.rows, n) == OrderedMap.Get(t.rows, n)
    ensures r.1 ==> |r.0.rows| == |t.rows| - 1
    ensures r.0 == t.(rows := r.0.rows)
  {
    var (rows, removed) := OrderedMap.Remove(t.rows, number);
    (t.(rows := rows), removed)
  }

  /** The writer's `GetRow(row)`: `TryGetValue`, null on a miss. */
  function GetRow(t: Table, number: int): (r: Option<Row>)
    ensures r.Some? <==> OrderedMap.Has(t.rows, number)
    ensures r.Some? ==> OrderedMap.Entry(number, r.value) in t.rows
  {
    OrderedMap.Get(t.rows, number)
  }

  /** Filling a cell of a row the writer handed out, `GetRow(number)[index]
      = value`: a missing row is a null reference, an index out of range
      fails as the row's setter does; otherwise the row is stored back
      under its number with that one cell changed. */
  function SetCell(t: Table, number: int, index: int, value: Option<string>): (r: Result<Table, Error>)
    ensures !OrderedMap.Has(t.rows, number) ==> r == Failure(NullReference)
    ensures r.Success? <==> OrderedMap.Has(t.rows, number) && 0 <= index < |GetRow(t, number).value.values|
    ensures r.Success? ==> OrderedMap.Has(r.value.rows, number)
    ensures r.Success? ==> var row, row' := GetRow(t, number).value, GetRow(r.value, number).value;
      && row'.number == row.number && |row'.values| == |row.values|
      && row'.values[index] == value
      && (forall j :: 0 <= j < |row.values| && j != index ==> row'.values[j] == row.values[j])
      && (forall n :: n != number ==> OrderedMap.Get(r.value.rows, n) == OrderedMap.Get(t.rows, n))
      && OrderedMap.Keys(r.value.rows) == OrderedMap.Keys(t.rows)
      && r.value == t.(rows := r.value.rows)
  {
    match GetRow(t, number)
    case None => Failure(NullReference)
    case Some(row) =>
      match TableRow.SetAt(row, index, value)
      case Failure(e) => Failure(e)
      case Success(row') => Success(t.(rows := OrderedMap.Put(t.rows, number, row')))
  }

  /** `NewColumn(colName, defineStr)`: a null or empty name throws, a name
      already present makes `Dictionary.Add` throw; otherwise the header is
      added at the next position and the incremented column count is
      returned. Existing rows keep their length. */
  function NewColumn(t: Table, name: Option<string>, define: Option<string>): (r: Result<(Table, int), Error>)
    ensures (name.None? || name == Some("")) ==> r == Failure(NullColName(name.GetOr("")))
    ensures name.Some? && name.value != "" && OrderedMap.Has(t.headers, name.value) ==> r == Failure(DuplicateDictionaryKey)
    ensures r.Success? <==> name.Some? && name.value != "" && !OrderedMap.Has(t.headers, name.value)
    ensures r.Success? ==> var (t', count) := r.value;
      && count == t.colCount + 1 == t'.colCount
      && OrderedMap.Get(t'.headers, name.value) == Some(HeaderInfo(|t.headers|, name.value, define))
      && (forall n :: n != name.value ==> OrderedMap.Get(t'.headers, n) == OrderedMap.Get(t.headers, n))
      && OrderedMap.Keys(t'.headers) == OrderedMap.Keys(t.headers) + [name.value]
      && t'.rows == t.rows && t'.keyIndex == t.keyIndex && t'.rowIndex == t.rowIndex
  {
    if name.None? || name.value == "" then Failure(NullColName(name.GetOr("")))
    else if OrderedMap.Has(t.headers, name.value) then Failure(DuplicateDictionaryKey)
    else
      var info := HeaderInfo(|t.headers|, name.value, define);
      var t' := t.(headers := OrderedMap.Put(t.headers, name.value, info), colCount := t.colCount + 1);
      Success((t', t'.colCount))
  }

  /** `NewColumn(colName)`: the declaration is empty text. */
  function NewColumnNamed(t: Table, name: Option<string>): (r: Result<(Table, int), Error>)
    ensures r.Success? <==> name.Some? && name.value != "" && !OrderedMap.Has(t.headers, name.value)
    ensures r.Success? ==> OrderedMap.Get(r.value.0.headers, name.value) == Some(HeaderInfo(|t.headers|, name.value, Some("")))
  {
    NewColumn(t, name, Some(""))
  }

  /** `Dispose()`: the table is cleared. */
  function Dispose(t: Table): (r: Table)
    ensures r.headers == [] && r.rows == [] && r.keyIndex == map[]
  {
    TableStore.Dispose(t)
  }

  // ---------------------------------------------------------------------
  // Lemmas

  /** A cell filled in a row of the writer shows in that row's line of the
      text, and no other line changes. */
  lemma SetCellShows(t: Table, number: int, index: int, value: Option<string>)
    requires SetCell(t, number, index, value).Success?
    ensures var t' := SetCell(t, number, index, value).value;
      && |Lines(t')| == |Lines(t)| && Lines(t')[0] == Lines(t)[0] && Lines(t')[1] == Lines(t)[1]
      && Cells(GetRow(t', number).value)[index] == Shown(value)
      && forall j :: 0 <= j < |t.rows| && t.rows[j].key != number ==> Lines(t')[j + 2] == Lines(t)[j + 2]
  {
    var t' := SetCell(t, number, index, value).value;
    var i := OrderedMap.Find(t.rows, number).value;
    var row' := TableRow.SetAt(t.rows[i].value, index, value).value;
    assert t'.rows == t.rows[i := OrderedMap.Entry(number, row')];
    forall j | 0 <= j < |t.rows| && t.rows[j].key != number ensures Lines(t')[j + 2] == Lines(t)[j + 2] {
      assert t'.rows[j] == t.rows[j];
    }
  }

  /** With k tab-free headers, the name and meta lines each hold k - 1
      tabs; a row of v tab-free cells holds v - 1; every line of the text
      is newline-free, so each ends at its own "\n". */
  lemma TabCounts(t: Table)
    requires |t.headers| >= 1
    requires forall i :: 0 <= i < |t.headers| ==> Text.Free(t.headers[i].value.name, {'\t'}) && Text.Free(Shown(t.headers[i].value.meta), {'\t'})
    ensures Text.Count(Lines(t)[0], {'\t'}) == |t.headers| - 1
    ensures Text.Count(Lines(t)[1], {'\t'}) == |t.headers| - 1
  {
    Text.JoinCount(Names(t.headers), '\t');
    Text.JoinCount(Metas(t.headers), '\t');
  }

  /** A row of v >= 1 tab-free cells renders with v - 1 tabs. */
  lemma RowTabCount(row: Row)
    requires |row.values| >= 1
    requires forall i :: 0 <= i < |row.values| ==> Text.Free(Shown(row.values[i]), {'\t'})
    ensures Text.Count(Text.Join(Cells(row), "\t"), {'\t'}) == |row.values| - 1
  {
    Text.JoinCount(Cells(row), '\t');
  }

  /** With no newline in any name, meta or cell, the text holds exactly one
      "\n" per line and reads back as those lines. */
  lemma LinesReadBack(t: Table)
    requires forall i :: 0 <= i < |t.headers| ==> Text.Free(t.headers[i].value.name, {'\n'}) && Text.Free(Shown(t.headers[i].value.meta), {'\n'})
    requires forall j, i :: 0 <= j < |t.rows| && 0 <= i < |t.rows[j].value.values| ==> Text.Free(Shown(t.rows[j].value.values[i]), {'\n'})
    ensures forall i :: 0 <= i < |Lines(t)| ==> Text.Free(Lines(t)[i], {'\n'})
    ensures Text.ReadLines(Serialized(t)) == Lines(t)
  {
    var ls := Lines(t);
    Text.FreeJoin(Names(t.headers), "\t", {'\n'});
    Text.FreeJoin(Metas(t.headers), "\t", {'\n'});
    forall i | 2 <= i < |ls| ensures Text.Free(ls[i], {'\n'}) {
      Text.FreeJoin(Cells(t.rows[i - 2].value), "\t", {'\n'});
    }
    Text.ReadTerminated(ls);
  }

  /** Removing a row other than the last-numbered one makes the next
      `NewRow` collide: the count drops back onto a number still in use. */
  lemma NewRowAfterRemoveCollides(t: Table, m: int)
    requires OrderedMap.Unique(t.rows)
    requires OrderedMap.Has(t.rows, m) && OrderedMap.Has(t.rows, |t.rows|) && m != |t.rows|
    ensures NewRow(RemoveRow(t, m).0) == Failure(DuplicateDictionaryKey)
  {
    var t' := RemoveRow(t, m).0;
    assert OrderedMap.Get(t'.rows, |t.rows|) == OrderedMap.Get(t.rows, |t.rows|);
  }

  /** A fresh writer takes rows 1, 2, ... in turn. */
  lemma NewRowsOnFreshWriter()
    ensures NewRow(NewWriter).Success? && NewRow(NewWriter).value.1.number == 1
    ensures var t1 := NewRow(NewWriter).value.0;
      NewRow(t1).Success? && NewRow(t1).value.1.number == 2
  {
    var t1 := NewRow(NewWriter).value.0;
    assert |t1.rows| == 1;
    assert t1.rows[0].key == 1;
    assert !OrderedMap.Has(t1.rows, 2);
  }

  /** The writer's `GetRow` finds what the store's `GetRow` finds, but a
      miss is silent where the store raises `NotFoundRow`. */
  lemma GetRowIsSilent(h: Handlers, st: TableStore.Step, number: int)
    requires h.Any()
    ensures TableStore.GetRow(h, st, number).Success?
    ensures TableStore.GetRow(h, st, number).value.0 == GetRow(st.table, number)
    ensures GetRow(st.table, number).None? ==>
      TableStore.GetRow(h, st, number).value.1 == st.log + [Diagnostic(NotFoundRow, [Literal(Text.IntToString(number))])]
  {
  }

  /** Two columns added in turn sit at positions k and k + 1, and the
      column count grows by two. */
  lemma TwoColumns(t: Table, a: string, b: string, da: Option<string>, db: Option<string>)
    requires a != "" && b != "" && a != b
    requires !OrderedMap.Has(t.headers, a) && !OrderedMap.Has(t.headers, b)
    ensures NewColumn(t, Some(a), da).Success?
    ensures var t1 := NewColumn(t, Some(a), da).value.0;
      && NewColumn(t1, Some(b), db).Success?
      && var t2 := NewColumn(t1, Some(b), db).value.0;
      && OrderedMap.Get(t2.headers, a) == Some(HeaderInfo(|t.headers|, a, da))
      && OrderedMap.Get(t2.headers, b) == Some(HeaderInfo(|t.headers| + 1, b, db))
      && t2.colCount == t.colCount + 2
  {
    var t1 := NewColumn(t, Some(a), da).value.0;
    assert |t1.headers| == |OrderedMap.Keys(t1.headers)| == |t.headers| + 1;
  }
}
