/** `TableObjectRow` (TableML/TableML/TableObjectRow.cs): a row whose cells
    read as numbers whenever they parse as one, and whose primary key is
    normalised the same way. Nothing is cached: every read parses again. */
module ObjectRow {
  import opened Wrappers
  import OrderedMap
  import opened TableDefs
  import TableRow

  type Row = TableRow.Row

  /** How a stored cell reads: null stays null, a number is a `double`,
      anything else is the raw text. */
  function Coerce(c: Culture, cell: Option<string>): (r: Obj)
    ensures cell.None? ==> r == Null
    ensures cell.Some? && c.parseNumber(cell.value).Some? ==> r == Dbl(c.parseNumber(cell.value).value)
    ensures cell.Some? && c.parseNumber(cell.value).None? ==> r == Str(cell.value)
  {
    match cell
    case None => Null
    case Some(s) =>
      match c.parseNumber(s)
      case Some(d) => Dbl(d)
      case None => Str(s)
  }

  /** `GetPrimaryKey`: the base key (the raw first cell, read through the
      hidden base `Get`), turned into a `double` when it is a string that parses. */
  function PrimaryKey(c: Culture, row: Row): (r: Result<Obj, Error>)
    ensures r.Success? <==> TableRow.PrimaryKey(row).Success?
    ensures r.Success? ==> r.value == Coerce(c, row.values[0])
  {
    var key :- TableRow.PrimaryKey(row);
    if key.Str? && c.parseNumber(key.s).Some? then Success(Dbl(c.parseNumber(key.s).value))
    else Success(key)
  }

  /** The getter `this[int index]` (and `Get(int)`): the same range check as
      the plain row, then a fresh parse of the stored text. */
  function Read(c: Culture, row: Row, index: int): (r: Result<Obj, Error>)
    ensures r.Success? <==> 0 <= index < |row.values|
    ensures r.Failure? ==> r == Failure(if index == |row.values| then IndexOutOfRange(index) else Overflow(index))
    ensures r.Success? ==> r.value == Coerce(c, row.values[index])
  {
    if index > |row.values| || index < 0 then Failure(Overflow(index))
    else if index == |row.values| then Failure(IndexOutOfRange(index))
    else Success(Coerce(c, row.values[index]))
  }

  /** The setter `this[int index]`: stores `value.ToString()`. */
  function Write(c: Culture, row: Row, index: int, value: Obj): (r: Result<Row, Error>)
    ensures value.Null? ==> r == Failure(NullReference)
    ensures !value.Null? ==> (r.Success? <==> 0 <= index < |row.values|)
    ensures r.Success? ==> r.value == row.(values := row.values[index := ObjToString(c, value)])
  {
    var text := ObjToString(c, value);
    if text.None? then Failure(NullReference)
    else TableRow.SetAt(row, index, text)
  }

  /** The getter `this[string headerName]`. */
  function ReadByName(c: Culture, headers: Headers, row: Row, name: string): (r: Result<Obj, Error>)
    ensures !OrderedMap.Has(headers, name) ==> r == Failure(HeaderNotFound(name))
    ensures OrderedMap.Has(headers, name) ==> r == Read(c, row, OrderedMap.Get(headers, name).value.columnIndex)
  {
    match OrderedMap.Get(headers, name)
    case None => Failure(HeaderNotFound(name))
    case Some(info) => Read(c, row, info.columnIndex)
  }

  /** The setter `this[string headerName]`. */
  function WriteByName(c: Culture, headers: Headers, row: Row, name: string, value: Obj): (r: Result<Row, Error>)
    ensures !OrderedMap.Has(headers, name) ==> r == Failure(HeaderNotFound(name))
    ensures OrderedMap.Has(headers, name) ==> r == Write(c, row, OrderedMap.Get(headers, name).value.columnIndex, value)
  {
    match OrderedMap.Get(headers, name)
    case None => Failure(HeaderNotFound(name))
    case Some(info) => Write(c, row, info.columnIndex, value)
  }

  // ---------------------------------------------------------------------
  // Lemmas

  /** A numeric row reads exactly what a plain row reads, passed through
      the coercion: the two row types fail on the same indices. */
  lemma ReadAgreesWithPlainRow(c: Culture, row: Row, index: int)
    ensures Read(c, row, index).Success? <==> TableRow.Get(row, index).Success?
    ensures Read(c, row, index).Success? ==> Read(c, row, index).value == Coerce(c, TableRow.Get(row, index).value)
    ensures Read(c, row, index).Failure? ==> Read(c, row, index).error == TableRow.Get(row, index).error
  {
  }

  /** Storing a string and reading it back parses it afresh; the other
      cells are untouched. */
  lemma WriteThenRead(c: Culture, row: Row, index: int, s: string, other: int)
    requires 0 <= index < |row.values|
    ensures Write(c, row, index, Str(s)).Success?
    ensures Read(c, Write(c, row, index, Str(s)).value, index) == Success(Coerce(c, Some(s)))
    ensures other != index ==> Read(c, Write(c, row, index, Str(s)).value, other) == Read(c, row, other)
  {
  }

  /** The key of a numeric row is the coerced first cell, so a first cell
      that parses yields a `double` key and any other text stays a string. */
  lemma KeyIsCoercedFirstCell(c: Culture, row: Row)
    requires |row.values| > 0 && row.values[0].Some?
    ensures c.parseNumber(row.values[0].value).Some? ==> PrimaryKey(c, row) == Success(Dbl(c.parseNumber(row.values[0].value).value))
    ensures c.parseNumber(row.values[0].value).None? ==> PrimaryKey(c, row) == TableRow.PrimaryKey(row)
  {
  }
}
