/** `TableFileRow` (TableML/TableML/TableFileRow.cs): one row's cells as
    strings. A row keeps no copy of the header map: the map is shared with
    its table, so lookups by name take the table's current headers. */
module TableRow {
  import opened Wrappers
  import OrderedMap
  import opened TableDefs

  /** `RowNumber` and `Values`; a cell is null until something stores text in it. */
  datatype Row = Row(number: int, values: seq<Option<string>>)

  /** The cells of a split line: all present. */
  function Cells(fields: seq<string>): (r: seq<Option<string>>)
    ensures |r| == |fields|
    ensures forall i :: 0 <= i < |r| ==> r[i] == Some(fields[i])
  {
    seq(|fields|, i requires 0 <= i < |fields| => Some(fields[i]))
  }

  /** `Ctor(rowNumber, headerInfos)`: one null cell per header. */
  function Ctor(number: int, headers: Headers): (r: Row)
    ensures r.number == number
    ensures |r.values| == |headers|
    ensures forall i :: 0 <= i < |r.values| ==> r.values[i].None?
  {
    Row(number, seq(|headers|, _ => None))
  }

  /** `IsAutoParse`: plain rows are never bound by reflection. */
  const IsAutoParse: bool := false

  /** `Get(int)`: the explicit check lets `index == Values.Length` through
      to the array access, which then fails. */
  function Get(row: Row, index: int): (r: Result<Option<string>, Error>)
    ensures r.Success? <==> 0 <= index < |row.values|
    ensures r.Success? ==> r.value == row.values[index]
    ensures index == |row.values| ==> r == Failure(IndexOutOfRange(index))
    ensures (index < 0 || index > |row.values|) ==> r == Failure(Overflow(index))
  {
    if index > |row.values| || index < 0 then Failure(Overflow(index))
    else if index == |row.values| then Failure(IndexOutOfRange(index))
    else Success(row.values[index])
  }

  /** `GetPrimaryKey`: the first cell as it is (null stays null). */
  function PrimaryKey(row: Row): (r: Result<Obj, Error>)
    ensures r.Success? <==> |row.values| > 0
    ensures r.Success? && row.values[0].Some? ==> r.value == Str(row.values[0].value)
    ensures r.Success? && row.values[0].None? ==> r.value == Null
  {
    var cell :- Get(row, 0);
    Success(if cell.Some? then Str(cell.value) else Null)
  }

  /** The getter `this[string headerName]`. */
  function GetByName(headers: Headers, row: Row, name: string): (r: Result<Option<string>, Error>)
    ensures !OrderedMap.Has(headers, name) ==> r == Failure(HeaderNotFound(name))
    ensures OrderedMap.Has(headers, name) ==> r == Get(row, OrderedMap.Get(headers, name).value.columnIndex)
  {
    match OrderedMap.Get(headers, name)
    case None => Failure(HeaderNotFound(name))
    case Some(info) => Get(row, info.columnIndex)
  }

  /** The setter `this[int index]`: a plain array store. */
  function SetAt(row: Row, index: int, value: Option<string>): (r: Result<Row, Error>)
    ensures r.Success? <==> 0 <= index < |row.values|
    ensures r.Failure? ==> r.error == IndexOutOfRange(index)
    ensures r.Success? ==> r.value.number == row.number && |r.value.values| == |row.values|
    ensures r.Success? ==> r.value.values[index] == value
    ensures r.Success? ==> forall j :: 0 <= j < |row.values| && j != index ==> r.value.values[j] == row.values[j]
  {
    if 0 <= index < |row.values| then Success(row.(values := row.values[index := value]))
    else Failure(IndexOutOfRange(index))
  }

  /** The setter `this[string headerName]`. */
  function SetByName(headers: Headers, row: Row, name: string, value: Option<string>): (r: Result<Row, Error>)
    ensures !OrderedMap.Has(headers, name) ==> r == Failure(HeaderNotFound(name))
    ensures OrderedMap.Has(headers, name) ==> r == SetAt(row, OrderedMap.Get(headers, name).value.columnIndex, value)
  {
    match OrderedMap.Get(headers, name)
    case None => Failure(HeaderNotFound(name))
    case Some(info) => SetAt(row, info.columnIndex, value)
  }

  // ---------------------------------------------------------------------
  // Lemmas

  /** Reading back a cell just stored by name gives the stored value, and
      every other column reads as before. */
  lemma SetThenGetByName(headers: Headers, row: Row, name: string, value: Option<string>, other: int)
    requires SetByName(headers, row, name, value).Success?
    ensures GetByName(headers, SetByName(headers, row, name, value).value, name) == Success(value)
    ensures other != OrderedMap.Get(headers, name).value.columnIndex ==>
      Get(SetByName(headers, row, name, value).value, other) == Get(row, other)
  {
  }
}
