/** `TableFile<T>` (TableML/TableML/TableFileGeneric.cs): the table store.
    It reads one or more texts, each a name line, a meta line and data
    lines, into headers, numbered rows and a primary-key index.

    The row type `T` is a `RowKind`: plain rows keep every cell as text,
    numeric rows (`TableObjectRow`) key by number when the first cell
    parses. Neither overrides `IsAutoParse`, so `Parse`, a no-op, is what
    the loader calls; `AutoParse` is modelled on its own below. */
module TableStore {
  import opened Wrappers
  import OrderedMap
  import opened TableDefs
  import TableRow
  import ObjectRow
  import Text

  type Row = TableRow.Row

  datatype RowKind = PlainRows | ObjectRows(culture: Culture)

  /** The store's state: `_colCount`, `Headers`, `TabInfo`, `Rows`,
      `PrimaryKey2Row` and the row counter `_rowIndex`. */
  datatype Table = Table(
    colCount: int,
    headers: Headers,
    tabInfo: map<int, seq<string>>,
    rows: OrderedMap.OMap<int, Row>,
    keyIndex: map<Obj, Row>,
    rowIndex: int)

  /** A freshly constructed store, before any text is read. */
  const Empty: Table := Table(0, [], map[], [], map[], 1)

  /** The store together with the diagnostics handed to the handlers so far. */
  datatype Step = Step(table: Table, log: seq<Diagnostic>)

  /** `GetPrimaryKey()` of the row type. */
  function KeyOf(kind: RowKind, row: Row): Result<Obj, Error> {
    match kind
    case PlainRows => TableRow.PrimaryKey(row)
    case ObjectRows(c) => ObjectRow.PrimaryKey(c, row)
  }

  /** The key a data line's fields produce. */
  function LineKey(kind: RowKind, fields: seq<string>): Obj {
    if fields == [] then Null
    else match kind
      case PlainRows => Str(fields[0])
      case ObjectRows(c) => ObjectRow.Coerce(c, Some(fields[0]))
  }

  /** The meta field for column `i`: null past the end of the meta line,
      which is what copying a short meta array into a longer one leaves. */
  function MetaAt(metas: seq<string>, i: int): Option<string> {
    if 0 <= i < |metas| then Some(metas[i]) else None
  }

  /** The header loop: `Headers[name_i] = HeaderInfo(i, name_i, meta_i)`
      for i = `from` .. |names| - 1. */
  function PutHeaders(hs: Headers, names: seq<string>, metas: seq<string>, from: nat): Headers
    requires from <= |names|
    decreases |names| - from
  {
    if from == |names| then hs
    else PutHeaders(OrderedMap.Put(hs, names[from], HeaderInfo(from, names[from], MetaAt(metas, from))), names, metas, from + 1)
  }

  /** One data line: a new row numbered by the counter, registered under
      its key unless the key is taken, in which case the row that owns the
      key is stored in the new slot and `DuplicatedKey` is raised. */
  function AddRow(kind: RowKind, h: Handlers, st: Step, fields: seq<string>): (r: Result<Step, Error>)
    ensures r.Success? ==> var t, t' := st.table, r.value.table;
      && t'.rowIndex == t.rowIndex + 1
      && t'.tabInfo == t.tabInfo[t.rowIndex := fields]
      && t'.headers == t.headers && t'.colCount == t.colCount
      && (forall m :: m != t.rowIndex ==> OrderedMap.Get(t'.rows, m) == OrderedMap.Get(t.rows, m))
      && (forall k :: k in t.keyIndex ==> k in t'.keyIndex && t'.keyIndex[k] == t.keyIndex[k])
      && (OrderedMap.Has(t.rows, t.rowIndex) ==> |t'.rows| == |t.rows|)
      && (!OrderedMap.Has(t.rows, t.rowIndex) ==> |t'.rows| == |t.rows| + 1)
      && (OrderedMap.Unique(t.rows) ==> OrderedMap.Unique(t'.rows))
    ensures fields != [] ==> var t, k := st.table, LineKey(kind, fields);
      && (r.Success? <==> (k !in t.keyIndex || (h.Any() && KeyOf(kind, t.keyIndex[k]).Success?)))
      && (r.Success? ==> var t' := r.value.table;
           && k in t'.keyIndex
           && OrderedMap.Get(t'.rows, t.rowIndex) == Some(t'.keyIndex[k])
           && (k !in t.keyIndex ==>
                 t'.keyIndex == t.keyIndex[k := TableRow.Row(t.rowIndex, TableRow.Cells(fields))]
                 && r.value.log == st.log)
           && (k in t.keyIndex ==>
                 t'.keyIndex == t.keyIndex
                 && r.value.log == st.log + [Diagnostic(DuplicatedKey, [ArgOf(KeyOf(kind, t.keyIndex[k]).value)])]))
  {
    var t := st.table;
    var n := t.rowIndex;
    var newRow := TableRow.Row(n, TableRow.Cells(fields));
    var tab := t.tabInfo[n := fields];
    var key :- KeyOf(kind, newRow);
    assert fields != [] ==> key == LineKey(kind, fields);
    if key == Null then
      Success(Step(t.(tabInfo := tab, rows := OrderedMap.Put(t.rows, n, newRow), rowIndex := n + 1), st.log))
    else if key !in t.keyIndex then
      Success(Step(t.(tabInfo := tab, rows := OrderedMap.Put(t.rows, n, newRow),
                      keyIndex := t.keyIndex[key := newRow], rowIndex := n + 1), st.log))
    else
      var earlier := t.keyIndex[key];
      var earlierKey :- KeyOf(kind, earlier);
      var log :- Report(h, st.log, Diagnostic(DuplicatedKey, [ArgOf(earlierKey)]));
      Success(Step(t.(tabInfo := tab, rows := OrderedMap.Put(t.rows, n, earlier), rowIndex := n + 1), log))
  }

  /** The data-line loop of `ParseReader`. */
  function ParseRows(kind: RowKind, seps: set<char>, h: Handlers, st: Step, lines: seq<string>): (r: Result<Step, Error>)
    ensures r.Success? ==> var t, t' := st.table, r.value.table;
      && t'.headers == t.headers && t'.colCount == t.colCount
      && t'.rowIndex == t.rowIndex + |lines|
      && (forall m :: (m < t.rowIndex || m >= t'.rowIndex) ==> OrderedMap.Get(t'.rows, m) == OrderedMap.Get(t.rows, m))
      && (forall k :: k in t.keyIndex ==> k in t'.keyIndex && t'.keyIndex[k] == t.keyIndex[k])
      && (forall m :: m < t.rowIndex ==> (m in t'.tabInfo <==> m in t.tabInfo))
      && (forall m :: m < t.rowIndex && m in t.tabInfo ==> t'.tabInfo[m] == t.tabInfo[m])
    decreases |lines|
  {
    if lines == [] then Success(st)
    else
      var st' :- AddRow(kind, h, st, Text.Split(lines[0], seps));
      ParseRows(kind, seps, h, st', lines[1..])
  }

  /** `ParseReader`: the two header lines, then every data line. Returns
      whether the header lines were there. */
  function ParseReader(kind: RowKind, seps: set<char>, h: Handlers, st: Step, lines: seq<string>): (r: Result<(Step, bool), Error>)
    ensures |lines| == 0 ==>
      r == (if h.Any() then Success((Step(st.table, st.log + [Diagnostic(HeadLineNull, [])]), false))
            else Failure(Unhandled(Diagnostic(HeadLineNull, []))))
    ensures |lines| == 1 ==>
      r == (if h.Any() then Success((Step(st.table, st.log + [Diagnostic(MetaLineNull, [])]), false))
            else Failure(Unhandled(Diagnostic(MetaLineNull, []))))
    ensures |lines| >= 2 && |Text.Split(lines[1], seps)| > |Text.Split(lines[0], seps)| ==>
      r == Failure(MetaLineTooLong(|Text.Split(lines[1], seps)|, |Text.Split(lines[0], seps)|))
    ensures r.Success? && |lines| >= 2 ==> r.value.1 && r.value.0.table.colCount == |Text.Split(lines[0], seps)|
  {
    if |lines| == 0 then
      var log :- Report(h, st.log, Diagnostic(HeadLineNull, []));
      Success((Step(st.table, log), false))
    else if |lines| == 1 then
      var log :- Report(h, st.log, Diagnostic(MetaLineNull, []));
      Success((Step(st.table, log), false))
    else
      var names := Text.Split(lines[0], seps);
      var metas := Text.Split(lines[1], seps);
      if |metas| > |names| then Failure(MetaLineTooLong(|metas|, |names|))
      else
        var t := st.table.(headers := PutHeaders(st.table.headers, names, metas, 0), colCount := |names|);
        var st' :- ParseRows(kind, seps, h, Step(t, st.log), lines[2..]);
        Success((st', true))
  }

  /** `ParseString`: null and empty contents are skipped. */
  function ParseString(kind: RowKind, seps: set<char>, h: Handlers, st: Step, content: Option<string>): (r: Result<(Step, bool), Error>)
    ensures content.None? || content == Some("") ==> r == Success((st, false))
    ensures content.Some? && content != Some("") && r.Success? ==> r.value.1
  {
    if content.None? || content.value == "" then Success((st, false))
    else
      var (st', _) :- ParseReader(kind, seps, h, st, Text.ReadLines(content.value));
      Success((st', true))
  }

  /** `ParseStream`: a null stream is skipped, an empty one reads no line. */
  function ParseStream(kind: RowKind, seps: set<char>, h: Handlers, st: Step, stream: Option<string>): (r: Result<(Step, bool), Error>)
    ensures stream.None? ==> r == Success((st, false))
  {
    if stream.None? then Success((st, false))
    else
      var (st', _) :- ParseReader(kind, seps, h, st, Text.ReadLines(stream.value));
      Success((st', true))
  }

  /** `ParseStringsArray`. */
  function ParseStrings(kind: RowKind, seps: set<char>, h: Handlers, st: Step, contents: seq<Option<string>>): Result<Step, Error>
    decreases |contents|
  {
    if contents == [] then Success(st)
    else
      var (st', _) :- ParseString(kind, seps, h, st, contents[0]);
      ParseStrings(kind, seps, h, st', contents[1..])
  }

  /** `ParseStreamsArray`. */
  function ParseStreams(kind: RowKind, seps: set<char>, h: Handlers, st: Step, streams: seq<Option<string>>): Result<Step, Error>
    decreases |streams|
  {
    if streams == [] then Success(st)
    else
      var (st', _) :- ParseStream(kind, seps, h, st, streams[0]);
      ParseStreams(kind, seps, h, st', streams[1..])
  }

  /** The constructor `TableFile<T>(TableFileConfig)`: `ParseAll` from an
      empty store, strings first, then streams. `global` says whether a
      process-wide handler is registered. */
  function Construct(kind: RowKind, global: bool, cfg: Config): Result<Step, Error> {
    var h := Handlers(global, cfg.onException);
    var seps := SeparatorSet(cfg.separators);
    var st :- ParseStrings(kind, seps, h, Step(Empty, []), cfg.contents.GetOr([]));
    ParseStreams(kind, seps, h, st, cfg.contentStreams.GetOr([]))
  }

  /** `TableFile<T>(string[] contents)` and `LoadFromString(params string[])`. */
  function LoadFromString(kind: RowKind, global: bool, contents: Option<seq<Option<string>>>): Result<Step, Error> {
    Construct(kind, global, DefaultConfig.(contents := contents))
  }

  /** `LoadFromFile(path)`, with the file given by its decoded text. */
  function LoadFromFile(kind: RowKind, global: bool, text: string): Result<Step, Error> {
    Construct(kind, global, DefaultConfig.(contentStreams := Some([Some(text)])))
  }

  // ---------------------------------------------------------------------
  // Queries

  /** `GetRowCount()`. */
  function GetRowCount(t: Table): nat {
    |t.rows|
  }

  /** `GetColumnCount()` and `GetWidth()`. */
  function GetColumnCount(t: Table): int {
    t.colCount
  }

  /** `HasColumn(colName)`. */
  predicate HasColumn(t: Table, name: string) {
    OrderedMap.Has(t.headers, name)
  }

  /** `GetAll()`: the stored rows in enumeration order. */
  function GetAll(t: Table): seq<Row> {
    OrderedMap.Values(t.rows)
  }

  /** `GetRow(row)`: a missing number raises `NotFoundRow` and gives null. */
  function GetRow(h: Handlers, st: Step, number: int): (r: Result<(Option<Row>, seq<Diagnostic>), Error>)
    ensures OrderedMap.Has(st.table.rows, number) ==>
      r == Success((OrderedMap.Get(st.table.rows, number), st.log))
    ensures !OrderedMap.Has(st.table.rows, number) ==>
      var d := Diagnostic(NotFoundRow, [Literal(Text.IntToString(number))]);
      r == (if h.Any() then Success((None, st.log + [d])) else Failure(Unhandled(d)))
  {
    match OrderedMap.Get(st.table.rows, number)
    case Some(row) => Success((Some(row), st.log))
    case None =>
      var log :- Report(h, st.log, Diagnostic(NotFoundRow, [Literal(Text.IntToString(number))]));
      Success((None, log))
  }

  /** `HasPrimaryKey(key)`; a null key makes the dictionary throw. */
  function HasPrimaryKey(t: Table, key: Obj): (r: Result<bool, Error>)
    ensures key.Null? <==> r.Failure?
    ensures r.Success? ==> (r.value <==> key in t.keyIndex)
  {
    if key.Null? then Failure(NullArgument) else Success(key in t.keyIndex)
  }

  /** `FindByPrimaryKey(key, throwError)` of the generic store. */
  function FindByPrimaryKey(h: Handlers, st: Step, key: Obj, throwError: bool): (r: Result<(Option<Row>, seq<Diagnostic>), Error>)
    ensures key.Null? ==> r == Failure(NullArgument)
    ensures !key.Null? && key in st.table.keyIndex ==> r == Success((Some(st.table.keyIndex[key]), st.log))
    ensures !key.Null? && key !in st.table.keyIndex && !throwError ==> r == Success((None, st.log))
    ensures !key.Null? && key !in st.table.keyIndex && throwError ==>
      var d := Diagnostic(NotFoundPrimaryKey, [ArgOf(key)]);
      r == (if h.Any() then Success((None, st.log + [d])) else Failure(Unhandled(d)))
  {
    if key.Null? then Failure(NullArgument)
    else if key in st.table.keyIndex then Success((Some(st.table.keyIndex[key]), st.log))
    else if throwError then
      var log :- Report(h, st.log, Diagnostic(NotFoundPrimaryKey, [ArgOf(key)]));
      Success((None, log))
    else Success((None, st.log))
  }

  /** `Dispose()`: the four dictionaries are cleared; the column count and
      the row counter are left as they were. */
  function Dispose(t: Table): (r: Table)
    ensures r.headers == [] && r.rows == [] && r.tabInfo == map[] && r.keyIndex == map[]
    ensures r.colCount == t.colCount && r.rowIndex == t.rowIndex
  {
    t.(headers := [], tabInfo := map[], rows := [], keyIndex := map[])
  }

  // ---------------------------------------------------------------------
  // AutoParse, over an explicit field list instead of reflection

  /** A field of the row class: its name and the name of its type. */
  datatype FieldDecl = FieldDecl(name: string, typeName: string)

  /** One converter call `Get_<type>(cell, default)` bound to a field. */
  datatype Binding = Binding(field: string, converter: string, cell: string, defaultValue: string)

  /** The default value a meta string declares: its second non-empty
      comma-separated segment, or "" when there is none. */
  function DefaultValue(meta: Option<string>): (r: string)
    ensures meta.None? || meta == Some("") ==> r == ""
    ensures r != "" ==> Text.Free(r, {','}) && r in Text.Split(meta.value, {','})
  {
    if meta.None? || meta.value == "" then ""
    else
      var defs := Text.SplitDrop(meta.value, {','});
      if |defs| >= 2 then defs[1] else ""
  }

  /** The fields that have a column, in declaration order. */
  function Present(headers: Headers, fields: seq<FieldDecl>): (r: seq<FieldDecl>)
    ensures forall i :: 0 <= i < |r| ==> OrderedMap.Has(headers, r[i].name) && r[i] in fields
  {
    if fields == [] then []
    else if OrderedMap.Has(headers, fields[0].name) then [fields[0]] + Present(headers, fields[1..])
    else Present(headers, fields[1..])
  }

  /** The `NotFoundHeader` diagnostics for the fields without a column, in
      declaration order. */
  function MissingDiags(headers: Headers, rowType: string, fields: seq<FieldDecl>): (r: seq<Diagnostic>)
    ensures forall i :: 0 <= i < |r| ==> r[i].kind == NotFoundHeader
    ensures |r| + |Present(headers, fields)| == |fields|
  {
    if fields == [] then []
    else if OrderedMap.Has(headers, fields[0].name) then MissingDiags(headers, rowType, fields[1..])
    else [Diagnostic(NotFoundHeader, [Literal(rowType), Literal(fields[0].name)])] + MissingDiags(headers, rowType, fields[1..])
  }

  /** The first loop of `AutoParse`: report every field without a column
      and keep the others. */
  function CheckFields(h: Handlers, headers: Headers, log: seq<Diagnostic>, rowType: string, fields: seq<FieldDecl>): (r: Result<(seq<FieldDecl>, seq<Diagnostic>), Error>)
    ensures r.Success? <==> (h.Any() || MissingDiags(headers, rowType, fields) == [])
    ensures r.Success? ==> r.value == (Present(headers, fields), log + MissingDiags(headers, rowType, fields))
    ensures r.Failure? ==> r.error == Unhandled(MissingDiags(headers, rowType, fields)[0])
    decreases |fields|
  {
    if fields == [] then assert log + [] == log; Success(([], log))
    else if !OrderedMap.Has(headers, fields[0].name) then
      var d := Diagnostic(NotFoundHeader, [Literal(rowType), Literal(fields[0].name)]);
      var log' :- Report(h, log, d);
      assert log' + MissingDiags(headers, rowType, fields[1..]) == log + MissingDiags(headers, rowType, fields);
      CheckFields(h, headers, log', rowType, fields[1..])
    else
      var (ok, log') :- CheckFields(h, headers, log, rowType, fields[1..]);
      Success(([fields[0]] + ok, log'))
  }

  /** What a binding promises: a converter that exists, and the cell and
      default of the field's own column. */
  predicate BoundFrom(headers: Headers, converters: set<string>, cells: seq<string>, b: Binding) {
    && b.converter in converters
    && OrderedMap.Has(headers, b.field)
    && var info := OrderedMap.Get(headers, b.field).value;
       0 <= info.columnIndex < |cells| && b.cell == cells[info.columnIndex] && b.defaultValue == DefaultValue(info.meta)
  }

  /** The converter a field's type asks for, `Get_<type>`. */
  function ConverterName(f: FieldDecl): string {
    "Get_" + f.typeName
  }

  /** The fields whose type has a converter, in order. */
  function WithConverter(ok: seq<FieldDecl>, converters: set<string>): (r: seq<FieldDecl>)
    ensures |r| <= |ok|
    ensures forall k :: 0 <= k < |r| ==> r[k] in ok && ConverterName(r[k]) in converters
  {
    if ok == [] then []
    else (if ConverterName(ok[0]) in converters then [ok[0]] else []) + WithConverter(ok[1..], converters)
  }

  /** One `NotFoundGetMethod` per field whose type has no converter, in order. */
  function MethodDiags(ok: seq<FieldDecl>, converters: set<string>): (r: seq<Diagnostic>)
    ensures forall k :: 0 <= k < |r| ==> r[k].kind == NotFoundGetMethod
    ensures |r| + |WithConverter(ok, converters)| == |ok|
  {
    if ok == [] then []
    else
      (if ConverterName(ok[0]) in converters then [] else [Diagnostic(NotFoundGetMethod, [Literal(ConverterName(ok[0]))])])
        + MethodDiags(ok[1..], converters)
  }

  /** A field the source can read: it has a column, and the row has a cell
      at that column's index. */
  predicate Readable(headers: Headers, cells: seq<string>, f: FieldDecl) {
    OrderedMap.Has(headers, f.name) && 0 <= OrderedMap.Get(headers, f.name).value.columnIndex < |cells|
  }

  /** The call the source makes for a readable field with a converter. */
  function BindingOf(headers: Headers, cells: seq<string>, f: FieldDecl): Binding
    requires Readable(headers, cells, f)
  {
    var info := OrderedMap.Get(headers, f.name).value;
    Binding(f.name, ConverterName(f), cells[info.columnIndex], DefaultValue(info.meta))
  }

  /** Every field with a converter is readable. */
  predicate AllReadable(headers: Headers, cells: seq<string>, fs: seq<FieldDecl>) {
    forall k :: 0 <= k < |fs| ==> Readable(headers, cells, fs[k])
  }

  /** The second loop of `AutoParse`: every kept field whose type has a
      converter is bound to the cell of its column and the default its
      meta declares; the others raise `NotFoundGetMethod`. A field whose
      cell index lies past the row's cells throws. */
  function BindFields(h: Handlers, headers: Headers, log: seq<Diagnostic>, ok: seq<FieldDecl>, converters: set<string>, cells: seq<string>): (r: Result<(seq<Binding>, seq<Diagnostic>), Error>)
    ensures r.Success? <==>
      (h.Any() || MethodDiags(ok, converters) == []) && AllReadable(headers, cells, WithConverter(ok, converters))
    ensures !h.Any() && MethodDiags(ok, converters) != [] && AllReadable(headers, cells, WithConverter(ok, converters)) ==>
      r == Failure(Unhandled(MethodDiags(ok, converters)[0]))
    ensures r.Success? ==> r.value.1 == log + MethodDiags(ok, converters)
    ensures r.Success? ==> var c := WithConverter(ok, converters);
      && |r.value.0| == |c|
      && forall k :: 0 <= k < |c| ==> Readable(headers, cells, c[k]) && r.value.0[k] == BindingOf(headers, cells, c[k])
    ensures r.Success? ==> forall b :: b in r.value.0 ==> BoundFrom(headers, converters, cells, b)
    decreases |ok|
  {
    if ok == [] then assert log + [] == log; Success(([], log))
    else
      var f := ok[0];
      var conv := ConverterName(f);
      FilterStep(ok, converters);
      if conv in converters then
        ReadableCons(headers, cells, f, WithConverter(ok[1..], converters));
        match OrderedMap.Get(headers, f.name)
        case None => Failure(HeaderNotFound(f.name))
        case Some(info) =>
          if 0 <= info.columnIndex < |cells| then
            var b := Binding(f.name, conv, cells[info.columnIndex], DefaultValue(info.meta));
            var (bs, log') :- BindFields(h, headers, log, ok[1..], converters, cells);
            BoundCons(headers, cells, f, WithConverter(ok[1..], converters), b, bs);
            Success(([b] + bs, log'))
          else Failure(IndexOutOfRange(info.columnIndex))
      else
        var d := Diagnostic(NotFoundGetMethod, [Literal(conv)]);
        var log1 :- Report(h, log, d);
        var (bs, log') :- BindFields(h, headers, log1, ok[1..], converters, cells);
        assert log1 + MethodDiags(ok[1..], converters) == log + MethodDiags(ok, converters);
        Success((bs, log'))
  }

  /** How one field splits between the converted fields and the missing
      converters. */
  lemma FilterStep(ok: seq<FieldDecl>, converters: set<string>)
    requires ok != []
    ensures var f, rest := ok[0], WithConverter(ok[1..], converters);
      && (ConverterName(f) in converters ==>
            WithConverter(ok, converters) == [f] + rest && MethodDiags(ok, converters) == MethodDiags(ok[1..], converters))
      && (ConverterName(f) !in converters ==>
            && WithConverter(ok, converters) == rest
            && MethodDiags(ok, converters) == [Diagnostic(NotFoundGetMethod, [Literal(ConverterName(f))])] + MethodDiags(ok[1..], converters))
  {
    var f := ok[0];
    if ConverterName(f) in converters {
      assert [] + MethodDiags(ok[1..], converters) == MethodDiags(ok[1..], converters);
    } else {
      assert [] + WithConverter(ok[1..], converters) == WithConverter(ok[1..], converters);
    }
  }

  /** One more field in front is readable throughout exactly when it and
      the others are. */
  lemma ReadableCons(headers: Headers, cells: seq<string>, f: FieldDecl, rest: seq<FieldDecl>)
    ensures AllReadable(headers, cells, [f] + rest) <==> Readable(headers, cells, f) && AllReadable(headers, cells, rest)
  {
    var c := [f] + rest;
    if Readable(headers, cells, f) && AllReadable(headers, cells, rest) {
      forall k | 0 <= k < |c| ensures Readable(headers, cells, c[k]) {
        if k > 0 { assert c[k] == rest[k - 1]; }
      }
    }
    if AllReadable(headers, cells, c) {
      assert Readable(headers, cells, c[0]);
      forall k | 0 <= k < |rest| ensures Readable(headers, cells, rest[k]) {
        assert c[k + 1] == rest[k];
      }
    }
  }

  /** Binding one more readable field in front of the others. */
  lemma BoundCons(headers: Headers, cells: seq<string>, f: FieldDecl, rest: seq<FieldDecl>, b: Binding, bs: seq<Binding>)
    requires |bs| == |rest| && forall k :: 0 <= k < |rest| ==> Readable(headers, cells, rest[k]) && bs[k] == BindingOf(headers, cells, rest[k])
    requires Readable(headers, cells, f) && b == BindingOf(headers, cells, f)
    ensures var c, bs' := [f] + rest, [b] + bs;
      |bs'| == |c| && forall k :: 0 <= k < |c| ==> Readable(headers, cells, c[k]) && bs'[k] == BindingOf(headers, cells, c[k])
  {
    var c, bs' := [f] + rest, [b] + bs;
    forall k | 0 <= k < |c| ensures Readable(headers, cells, c[k]) && bs'[k] == BindingOf(headers, cells, c[k]) {
      if k > 0 {
        assert c[k] == rest[k - 1] && bs'[k] == bs[k - 1];
      }
    }
  }

  /** `AutoParse(tableRow, cellStrs)` for a row class `rowType` with the
      given fields and converters: every missing column is reported before
      any field is converted, and then the fields that have a column are
      bound. */
  function AutoParse(h: Handlers, headers: Headers, log: seq<Diagnostic>, rowType: string, fields: seq<FieldDecl>, converters: set<string>, cells: seq<string>): (r: Result<(seq<Binding>, seq<Diagnostic>), Error>)
    ensures r.Success? ==>
      r.value.1 == log + MissingDiags(headers, rowType, fields) + MethodDiags(Present(headers, fields), converters)
    ensures r.Success? ==> var c := WithConverter(Present(headers, fields), converters);
      && |r.value.0| == |c|
      && forall k :: 0 <= k < |c| ==> Readable(headers, cells, c[k]) && r.value.0[k] == BindingOf(headers, cells, c[k])
    ensures r.Success? ==> forall b :: b in r.value.0 ==> BoundFrom(headers, converters, cells, b)
    ensures r.Success? <==>
      && (h.Any() || (MissingDiags(headers, rowType, fields) == [] && MethodDiags(Present(headers, fields), converters) == []))
      && AllReadable(headers, cells, WithConverter(Present(headers, fields), converters))
    ensures !h.Any() && MissingDiags(headers, rowType, fields) != [] ==>
      r == Failure(Unhandled(MissingDiags(headers, rowType, fields)[0]))
  {
    var (ok, log1) :- CheckFields(h, headers, log, rowType, fields);
    BindFields(h, headers, log1, ok, converters, cells)
  }

  // ---------------------------------------------------------------------
  // Well-formedness

  /** What parsing keeps true of a store: rows are keyed once each and
      below the counter, and every indexed row really has the key it is
      indexed under. */
  predicate Wf(kind: RowKind, t: Table) {
    && OrderedMap.Unique(t.rows)
    && (forall i :: 0 <= i < |t.rows| ==> t.rows[i].key < t.rowIndex)
    && (forall k :: k in t.keyIndex ==> KeyOf(kind, t.keyIndex[k]) == Success(k))
  }

  // ---------------------------------------------------------------------
  // Lemmas

  /** A split line always has a key: it is never null, so every data line
      takes part in the duplicate check. */
  lemma LineKeyNotNull(kind: RowKind, fields: seq<string>)
    requires fields != []
    ensures LineKey(kind, fields) != Null
    ensures KeyOf(kind, TableRow.Row(0, TableRow.Cells(fields))) == Success(LineKey(kind, fields))
  {
  }

  lemma {:induction false} PutHeadersOther(hs: Headers, names: seq<string>, metas: seq<string>, from: nat, n: string)
    requires from <= |names|
    requires forall k :: from <= k < |names| ==> names[k] != n
    ensures OrderedMap.Get(PutHeaders(hs, names, metas, from), n) == OrderedMap.Get(hs, n)
    decreases |names| - from
  {
    if from < |names| {
      var hs' := OrderedMap.Put(hs, names[from], HeaderInfo(from, names[from], MetaAt(metas, from)));
      PutHeadersOther(hs', names, metas, from + 1, n);
    }
  }

  lemma {:induction false} PutHeadersLast(hs: Headers, names: seq<string>, metas: seq<string>, from: nat, j: nat)
    requires from <= j < |names|
    requires forall k :: j < k < |names| ==> names[k] != names[j]
    ensures OrderedMap.Get(PutHeaders(hs, names, metas, from), names[j]) == Some(HeaderInfo(j, names[j], MetaAt(metas, j)))
    decreases j - from
  {
    var hs' := OrderedMap.Put(hs, names[from], HeaderInfo(from, names[from], MetaAt(metas, from)));
    if from == j {
      PutHeadersOther(hs', names, metas, from + 1, names[j]);
    } else {
      PutHeadersLast(hs', names, metas, from + 1, j);
    }
  }

  /** The header lines: header j is (j, name j, meta j) for the last
      occurrence of each name, the meta being null past the end of the meta
      line; names the line does not mention keep whatever an earlier
      content left; the column count is the number of name fields. */
  lemma ParseReaderHeaders(kind: RowKind, seps: set<char>, h: Handlers, st: Step, lines: seq<string>)
    requires |lines| >= 2
    requires ParseReader(kind, seps, h, st, lines).Success?
    ensures var names, metas := Text.Split(lines[0], seps), Text.Split(lines[1], seps);
      var t' := ParseReader(kind, seps, h, st, lines).value.0.table;
      && |metas| <= |names|
      && t'.colCount == |names|
      && (forall j :: 0 <= j < |names| && (forall k :: j < k < |names| ==> names[k] != names[j]) ==>
            OrderedMap.Get(t'.headers, names[j]) == Some(HeaderInfo(j, names[j], if j < |metas| then Some(metas[j]) else None)))
      && (forall n :: n !in names ==> OrderedMap.Get(t'.headers, n) == OrderedMap.Get(st.table.headers, n))
  {
    var names, metas := Text.Split(lines[0], seps), Text.Split(lines[1], seps);
    forall j | 0 <= j < |names| && (forall k :: j < k < |names| ==> names[k] != names[j])
      ensures OrderedMap.Get(PutHeaders(st.table.headers, names, metas, 0), names[j]) == Some(HeaderInfo(j, names[j], MetaAt(metas, j)))
    {
      PutHeadersLast(st.table.headers, names, metas, 0, j);
    }
    forall n | n !in names
      ensures OrderedMap.Get(PutHeaders(st.table.headers, names, metas, 0), n) == OrderedMap.Get(st.table.headers, n)
    {
      PutHeadersOther(st.table.headers, names, metas, 0, n);
    }
  }

  /** One step of the data-line loop. */
  lemma ParseRowsCons(kind: RowKind, seps: set<char>, h: Handlers, st: Step, lines: seq<string>)
    requires lines != [] && AddRow(kind, h, st, Text.Split(lines[0], seps)).Success?
    ensures ParseRows(kind, seps, h, st, lines) == ParseRows(kind, seps, h, AddRow(kind, h, st, Text.Split(lines[0], seps)).value, lines[1..])
  {
  }

  /** Every data line j becomes row number n = `rowIndex + j`: its split
      fields, one more than its separators, are cached under n, and slot n
      holds the row that owns the line's key. */
  lemma {:induction false} ParseRowsSlots(kind: RowKind, seps: set<char>, h: Handlers, st: Step, lines: seq<string>, j: nat, n: int)
    requires ParseRows(kind, seps, h, st, lines).Success?
    requires j < |lines| && n == st.table.rowIndex + j
    ensures var f, t' := Text.Split(lines[j], seps), ParseRows(kind, seps, h, st, lines).value.table;
      && n in t'.tabInfo && t'.tabInfo[n] == f
      && |f| == Text.Count(lines[j], seps) + 1
      && LineKey(kind, f) in t'.keyIndex
      && OrderedMap.Get(t'.rows, n) == Some(t'.keyIndex[LineKey(kind, f)])
    decreases |lines|
  {
    var st1 := AddRow(kind, h, st, Text.Split(lines[0], seps)).value;
    if j > 0 {
      ParseRowsSlots(kind, seps, h, st1, lines[1..], j - 1, n);
      assert lines[1..][j - 1] == lines[j];
    }
  }

  /** The first line j (row number n) carrying a key the index does not
      hold yet owns that key for good: later lines with the same key do
      not displace it. */
  lemma {:induction false} ParseRowsFirstOwner(kind: RowKind, seps: set<char>, h: Handlers, st: Step, lines: seq<string>, j: nat, n: int)
    requires ParseRows(kind, seps, h, st, lines).Success?
    requires j < |lines| && n == st.table.rowIndex + j
    requires LineKey(kind, Text.Split(lines[j], seps)) !in st.table.keyIndex
    requires forall i :: 0 <= i < j ==> LineKey(kind, Text.Split(lines[i], seps)) != LineKey(kind, Text.Split(lines[j], seps))
    ensures var f, t' := Text.Split(lines[j], seps), ParseRows(kind, seps, h, st, lines).value.table;
      LineKey(kind, f) in t'.keyIndex && t'.keyIndex[LineKey(kind, f)] == TableRow.Row(n, TableRow.Cells(f))
    decreases |lines|
  {
    var f0 := Text.Split(lines[0], seps);
    var st1 := AddRow(kind, h, st, f0).value;
    if j > 0 {
      FirstKeyShift(kind, seps, lines, j);
      ParseRowsFirstOwner(kind, seps, h, st1, lines[1..], j - 1, n);
    }
  }

  lemma FirstKeyShift(kind: RowKind, seps: set<char>, lines: seq<string>, j: nat)
    requires 0 < j < |lines|
    requires forall i :: 0 <= i < j ==> LineKey(kind, Text.Split(lines[i], seps)) != LineKey(kind, Text.Split(lines[j], seps))
    ensures LineKey(kind, Text.Split(lines[0], seps)) != LineKey(kind, Text.Split(lines[j], seps))
    ensures lines[1..][j - 1] == lines[j]
    ensures forall i :: 0 <= i < j - 1 ==> LineKey(kind, Text.Split(lines[1..][i], seps)) != LineKey(kind, Text.Split(lines[1..][j - 1], seps))
  {
    forall i | 0 <= i < j - 1
      ensures LineKey(kind, Text.Split(lines[1..][i], seps)) != LineKey(kind, Text.Split(lines[1..][j - 1], seps))
    {
      assert lines[1..][i] == lines[i + 1];
    }
  }

  /** A line whose key is already indexed raises `DuplicatedKey` carrying
      that key's text and stores the earlier row in its own slot; the
      index itself does not change. */
  lemma DuplicateKeepsEarlierRow(kind: RowKind, h: Handlers, st: Step, fields: seq<string>)
    requires Wf(kind, st.table) && h.Any()
    requires fields != [] && LineKey(kind, fields) in st.table.keyIndex
    ensures AddRow(kind, h, st, fields).Success?
    ensures var k, r := LineKey(kind, fields), AddRow(kind, h, st, fields).value;
      && r.log == st.log + [Diagnostic(DuplicatedKey, [ArgOf(k)])]
      && r.table.keyIndex == st.table.keyIndex
      && OrderedMap.Get(r.table.rows, st.table.rowIndex) == Some(st.table.keyIndex[k])
  {
  }

  /** In a declaration such as "int,5" or ",int,,5" the default is the
      second non-empty segment: leading and repeated commas do not count. */
  lemma {:induction false} DefaultIsSecondSegment(xs: seq<string>, i: nat, j: nat)
    requires i < j < |xs|
    requires forall k :: 0 <= k < |xs| ==> Text.Free(xs[k], {','})
    requires xs[i] != "" && xs[j] != ""
    requires forall k :: 0 <= k < j && k != i ==> xs[k] == ""
    ensures DefaultValue(Some(Text.Join(xs, ","))) == xs[j]
  {
    var s := Text.Join(xs, ",");
    Text.SplitJoin(xs, ',');
    assert Text.Split(s, {','}) == xs;
    assert s != "" by {
      assert Text.Split("", {','}) == [""];
    }
    SecondNonEmpty(xs, i, j);
  }

  /** The non-empty entries of xs start with xs[i] and xs[j] when every
      other entry before xs[j] is empty. */
  lemma {:induction false} SecondNonEmpty(xs: seq<string>, i: nat, j: nat)
    requires i < j < |xs|
    requires xs[i] != "" && xs[j] != ""
    requires forall k :: 0 <= k < j && k != i ==> xs[k] == ""
    ensures |Text.NonEmpty(xs)| >= 2 && Text.NonEmpty(xs)[0] == xs[i] && Text.NonEmpty(xs)[1] == xs[j]
  {
    Text.NonEmptySkip(xs, i);
    var rest := xs[i..];
    var tail := rest[1..];
    assert Text.NonEmpty(rest) == [xs[i]] + Text.NonEmpty(tail);
    var d: nat := j - i - 1;
    Text.NonEmptySkip(tail, d);
    assert tail[d..] == xs[j..];
    assert Text.NonEmpty(xs[j..]) == [xs[j]] + Text.NonEmpty(xs[j + 1..]);
  }

  /** One data line keeps the store well formed and, with a handler or a
      key not seen before, always succeeds and adds exactly one row. */
  lemma AddRowWf(kind: RowKind, h: Handlers, st: Step, fields: seq<string>)
    requires Wf(kind, st.table) && fields != []
    requires h.Any() || LineKey(kind, fields) !in st.table.keyIndex
    ensures AddRow(kind, h, st, fields).Success?
    ensures Wf(kind, AddRow(kind, h, st, fields).value.table)
    ensures |AddRow(kind, h, st, fields).value.table.rows| == |st.table.rows| + 1
  {
    var t := st.table;
    var t' := AddRow(kind, h, st, fields).value.table;
    var k := LineKey(kind, fields);
    LineKeyNotNull(kind, fields);
    assert !OrderedMap.Has(t.rows, t.rowIndex);
    var ks := OrderedMap.Keys(t'.rows);
    assert ks == OrderedMap.Keys(t.rows) + [t.rowIndex];
    forall i | 0 <= i < |t'.rows| ensures t'.rows[i].key < t'.rowIndex {
      assert ks[i] == t'.rows[i].key;
      if i < |t.rows| {
        assert OrderedMap.Keys(t.rows)[i] == t.rows[i].key;
      }
    }
    if k !in t.keyIndex {
      assert KeyOf(kind, TableRow.Row(t.rowIndex, TableRow.Cells(fields))) == Success(k);
    }
  }

  /** With a handler, parsing N data lines from a well-formed store
      succeeds, adds exactly N rows and leaves the store well formed. */
  lemma {:induction false} ParseRowsCount(kind: RowKind, seps: set<char>, h: Handlers, st: Step, lines: seq<string>)
    requires Wf(kind, st.table) && h.Any()
    ensures ParseRows(kind, seps, h, st, lines).Success?
    ensures Wf(kind, ParseRows(kind, seps, h, st, lines).value.table)
    ensures GetRowCount(ParseRows(kind, seps, h, st, lines).value.table) == GetRowCount(st.table) + |lines|
    decreases |lines|
  {
    if lines != [] {
      var f0 := Text.Split(lines[0], seps);
      AddRowWf(kind, h, st, f0);
      ParseRowsCount(kind, seps, h, AddRow(kind, h, st, f0).value, lines[1..]);
    }
  }

  /** Data lines whose keys are pairwise distinct and new to the index
      parse without a diagnostic, handler or not, and add one row each. */
  lemma {:induction false} ParseRowsDistinct(kind: RowKind, seps: set<char>, h: Handlers, st: Step, lines: seq<string>)
    requires Wf(kind, st.table)
    requires forall i :: 0 <= i < |lines| ==> LineKey(kind, Text.Split(lines[i], seps)) !in st.table.keyIndex
    requires forall i, j :: 0 <= i < j < |lines| ==> LineKey(kind, Text.Split(lines[i], seps)) != LineKey(kind, Text.Split(lines[j], seps))
    ensures ParseRows(kind, seps, h, st, lines).Success?
    ensures ParseRows(kind, seps, h, st, lines).value.log == st.log
    ensures Wf(kind, ParseRows(kind, seps, h, st, lines).value.table)
    ensures GetRowCount(ParseRows(kind, seps, h, st, lines).value.table) == GetRowCount(st.table) + |lines|
    decreases |lines|
  {
    if lines != [] {
      var f0 := Text.Split(lines[0], seps);
      AddRowWf(kind, h, st, f0);
      var st1 := AddRow(kind, h, st, f0).value;
      DistinctShift(kind, seps, st.table.keyIndex, st1.table.keyIndex, lines);
      ParseRowsDistinct(kind, seps, h, st1, lines[1..]);
    }
  }

  lemma DistinctShift(kind: RowKind, seps: set<char>, ki: map<Obj, Row>, ki1: map<Obj, Row>, lines: seq<string>)
    requires lines != []
    requires ki1.Keys == ki.Keys + {LineKey(kind, Text.Split(lines[0], seps))}
    requires forall i :: 0 <= i < |lines| ==> LineKey(kind, Text.Split(lines[i], seps)) !in ki
    requires forall i, j :: 0 <= i < j < |lines| ==> LineKey(kind, Text.Split(lines[i], seps)) != LineKey(kind, Text.Split(lines[j], seps))
    ensures forall i :: 0 <= i < |lines[1..]| ==> LineKey(kind, Text.Split(lines[1..][i], seps)) !in ki1
    ensures forall i, j :: 0 <= i < j < |lines[1..]| ==> LineKey(kind, Text.Split(lines[1..][i], seps)) != LineKey(kind, Text.Split(lines[1..][j], seps))
  {
    forall i | 0 <= i < |lines[1..]| ensures LineKey(kind, Text.Split(lines[1..][i], seps)) !in ki1 {
      assert lines[1..][i] == lines[i + 1];
    }
    forall i, j | 0 <= i < j < |lines[1..]|
      ensures LineKey(kind, Text.Split(lines[1..][i], seps)) != LineKey(kind, Text.Split(lines[1..][j], seps))
    {
      assert lines[1..][i] == lines[i + 1] && lines[1..][j] == lines[j + 1];
    }
  }

  /** A content of two header lines and N data lines raises the row count
      by exactly N when a handler is present. */
  lemma ParseReaderCount(kind: RowKind, seps: set<char>, h: Handlers, st: Step, lines: seq<string>)
    requires Wf(kind, st.table) && h.Any()
    requires |lines| >= 2 && |Text.Split(lines[1], seps)| <= |Text.Split(lines[0], seps)|
    ensures ParseReader(kind, seps, h, st, lines).Success?
    ensures Wf(kind, ParseReader(kind, seps, h, st, lines).value.0.table)
    ensures GetRowCount(ParseReader(kind, seps, h, st, lines).value.0.table) == GetRowCount(st.table) + |lines| - 2
  {
    var names, metas := Text.Split(lines[0], seps), Text.Split(lines[1], seps);
    var t := st.table.(headers := PutHeaders(st.table.headers, names, metas, 0), colCount := |names|);
    ParseRowsCount(kind, seps, h, Step(t, st.log), lines[2..]);
  }

  /** An empty stream reads no line at all, so it raises `HeadLineNull`,
      whereas the same empty text given as a string is skipped silently. */
  lemma EmptyStreamVersusEmptyString(kind: RowKind, seps: set<char>, h: Handlers, st: Step)
    ensures ParseString(kind, seps, h, st, Some("")) == Success((st, false))
    ensures ParseStream(kind, seps, h, st, Some("")) ==
      (if h.Any() then Success((Step(st.table, st.log + [Diagnostic(HeadLineNull, [])]), true))
       else Failure(Unhandled(Diagnostic(HeadLineNull, []))))
  {
    assert Text.ReadLines("") == [];
  }

  /** A fresh store is well formed and a disposed one stays so. */
  lemma EmptyAndDisposedWf(kind: RowKind, t: Table)
    ensures Wf(kind, Empty)
    ensures Wf(kind, Dispose(t))
    ensures Empty.rowIndex == 1 && GetRowCount(Empty) == 0
  {
  }

  // ---------------------------------------------------------------------
  // The shape of what a row type stores

  /** The keys a row type produces: plain rows key by text, numeric rows
      by a number or, only for text that does not parse, by text. */
  predicate KeyShape(kind: RowKind, k: Obj) {
    match kind
    case PlainRows => k.Str?
    case ObjectRows(c) => (k.Str? && c.parseNumber(k.s).None?) || k.Dbl?
  }

  /** No cell of the row is null. */
  predicate AllText(row: Row) {
    forall i :: 0 <= i < |row.values| ==> row.values[i].Some?
  }

  /** Every key has the row type's shape and every stored row is all text. */
  ghost predicate Shaped(kind: RowKind, t: Table) {
    && (forall k :: k in t.keyIndex ==> KeyShape(kind, k) && AllText(t.keyIndex[k]))
    && (forall m :: OrderedMap.Get(t.rows, m).Some? ==> AllText(OrderedMap.Get(t.rows, m).value))
  }

  lemma AddRowShaped(kind: RowKind, h: Handlers, st: Step, fields: seq<string>)
    requires Shaped(kind, st.table)
    requires AddRow(kind, h, st, fields).Success?
    ensures Shaped(kind, AddRow(kind, h, st, fields).value.table)
  {
    assert fields != [];
    var t, t' := st.table, AddRow(kind, h, st, fields).value.table;
    var k := LineKey(kind, fields);
    assert AllText(TableRow.Row(t.rowIndex, TableRow.Cells(fields)));
    assert KeyShape(kind, k);
    forall m | OrderedMap.Get(t'.rows, m).Some? ensures AllText(OrderedMap.Get(t'.rows, m).value) {
      if m != t.rowIndex {
        assert OrderedMap.Get(t'.rows, m) == OrderedMap.Get(t.rows, m);
      }
    }
  }

  lemma {:induction false} ParseRowsShaped(kind: RowKind, seps: set<char>, h: Handlers, st: Step, lines: seq<string>)
    requires Shaped(kind, st.table)
    requires ParseRows(kind, seps, h, st, lines).Success?
    ensures Shaped(kind, ParseRows(kind, seps, h, st, lines).value.table)
    decreases |lines|
  {
    if lines != [] {
      var f0 := Text.Split(lines[0], seps);
      AddRowShaped(kind, h, st, f0);
      ParseRowsShaped(kind, seps, h, AddRow(kind, h, st, f0).value, lines[1..]);
    }
  }

  lemma ParseReaderShaped(kind: RowKind, seps: set<char>, h: Handlers, st: Step, lines: seq<string>)
    requires Shaped(kind, st.table)
    requires ParseReader(kind, seps, h, st, lines).Success?
    ensures Shaped(kind, ParseReader(kind, seps, h, st, lines).value.0.table)
  {
    if |lines| >= 2 {
      var names, metas := Text.Split(lines[0], seps), Text.Split(lines[1], seps);
      var t := st.table.(headers := PutHeaders(st.table.headers, names, metas, 0), colCount := |names|);
      ParseRowsShaped(kind, seps, h, Step(t, st.log), lines[2..]);
    }
  }

  lemma {:induction false} ParseStringsShaped(kind: RowKind, seps: set<char>, h: Handlers, st: Step, contents: seq<Option<string>>)
    requires Shaped(kind, st.table)
    requires ParseStrings(kind, seps, h, st, contents).Success?
    ensures Shaped(kind, ParseStrings(kind, seps, h, st, contents).value.table)
    decreases |contents|
  {
    if contents != [] {
      var st' := ParseString(kind, seps, h, st, contents[0]).value.0;
      if contents[0].Some? && contents[0].value != "" {
        ParseReaderShaped(kind, seps, h, st, Text.ReadLines(contents[0].value));
      }
      ParseStringsShaped(kind, seps, h, st', contents[1..]);
    }
  }

  lemma {:induction false} ParseStreamsShaped(kind: RowKind, seps: set<char>, h: Handlers, st: Step, streams: seq<Option<string>>)
    requires Shaped(kind, st.table)
    requires ParseStreams(kind, seps, h, st, streams).Success?
    ensures Shaped(kind, ParseStreams(kind, seps, h, st, streams).value.table)
    decreases |streams|
  {
    if streams != [] {
      var st' := ParseStream(kind, seps, h, st, streams[0]).value.0;
      if streams[0].Some? {
        ParseReaderShaped(kind, seps, h, st, Text.ReadLines(streams[0].value));
      }
      ParseStreamsShaped(kind, seps, h, st', streams[1..]);
    }
  }

  /** Whatever a store is built from, its keys have the row type's shape
      (text for plain rows; a number, or text that does not parse, for
      numeric rows) and none
      of its stored cells is null. */
  lemma ConstructShaped(kind: RowKind, global: bool, cfg: Config)
    requires Construct(kind, global, cfg).Success?
    ensures Shaped(kind, Construct(kind, global, cfg).value.table)
  {
    var h := Handlers(global, cfg.onException);
    var seps := SeparatorSet(cfg.separators);
    ParseStringsShaped(kind, seps, h, Step(Empty, []), cfg.contents.GetOr([]));
    var st := ParseStrings(kind, seps, h, Step(Empty, []), cfg.contents.GetOr([])).value;
    ParseStreamsShaped(kind, seps, h, st, cfg.contentStreams.GetOr([]));
  }
}
