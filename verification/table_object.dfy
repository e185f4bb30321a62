/** `TableObject` (TableML/TableML/TableObject.cs): the store over numeric
    rows, whose lookups turn a boxed number of another type into a
    `double` before consulting the key index. */
module NumericTable {
  import opened Wrappers
  import opened TableDefs
  import TableStore
  import TableRow

  type Step = TableStore.Step

  /** `new TableObject(string[] contents)`. */
  function FromContents(c: Culture, global: bool, contents: Option<seq<Option<string>>>): Result<Step, Error> {
    TableStore.LoadFromString(TableStore.ObjectRows(c), global, contents)
  }

  /** `new TableObject(string content)`. */
  function FromContent(c: Culture, global: bool, content: Option<string>): Result<Step, Error> {
    FromContents(c, global, Some([content]))
  }

  /** `TableObject.LoadFromString(params string[] content)`. */
  function LoadFromString(c: Culture, global: bool, contents: Option<seq<Option<string>>>): Result<Step, Error> {
    FromContents(c, global, contents)
  }

  /** `TableObject.LoadFromFile(path, encoding)`, the file given by its text. */
  function LoadFromFile(c: Culture, global: bool, text: string): Result<Step, Error> {
    TableStore.LoadFromFile(TableStore.ObjectRows(c), global, text)
  }

  /** The key types the override converts: `short`, `int`, `long`,
      `decimal`, `uint`, `ulong`, `ushort`, `float` and `bool`. `byte`,
      `sbyte`, `double` and strings are not among them. */
  predicate Converted(key: Obj) {
    match key
    case Integral(kind, _) => kind in {Int16, Int32, Int64, UInt16, UInt32, UInt64}
    case Sgl(_) => true
    case Dec(_) => true
    case Bool(_) => true
    case _ => false
  }

  /** `Convert.ChangeType(key, typeof(double))` for a converted key. */
  function ToDouble(key: Obj): (r: Obj)
    requires Converted(key)
    ensures r.Dbl?
    ensures key.Integral? ==> r.d == key.i as real
    ensures key.Bool? ==> r.d == (if key.b then 1.0 else 0.0)
  {
    match key
    case Integral(_, i) => Dbl(i as real)
    case Sgl(f) => Dbl(f)
    case Dec(m) => Dbl(m)
    case Bool(b) => Dbl(if b then 1.0 else 0.0)
  }

  /** The `FindByPrimaryKey` override: a converted key is looked up as a
      `double` with `throwError` forced off; any other key goes to the
      base lookup as it is. */
  function FindByPrimaryKey(h: Handlers, st: Step, key: Obj, throwError: bool): (r: Result<(Option<TableRow.Row>, seq<Diagnostic>), Error>)
    ensures Converted(key) ==> r == TableStore.FindByPrimaryKey(h, st, ToDouble(key), false)
    ensures !Converted(key) ==> r == TableStore.FindByPrimaryKey(h, st, key, throwError)
  {
    if Converted(key) then TableStore.FindByPrimaryKey(h, st, ToDouble(key), false)
    else TableStore.FindByPrimaryKey(h, st, key, throwError)
  }

  // ---------------------------------------------------------------------
  // Lemmas

  /** A numeric lookup never raises: it always returns, with the log as it
      was, the row indexed under the `double` or nothing. */
  lemma NumericLookupNeverRaises(h: Handlers, st: Step, key: Obj, throwError: bool)
    requires Converted(key)
    ensures FindByPrimaryKey(h, st, key, throwError).Success?
    ensures FindByPrimaryKey(h, st, key, throwError).value.1 == st.log
    ensures FindByPrimaryKey(h, st, key, throwError).value.0 ==
      (if ToDouble(key) in st.table.keyIndex then Some(st.table.keyIndex[ToDouble(key)]) else None)
  {
  }

  /** Any other key behaves exactly as in the base store, including the
      `NotFoundPrimaryKey` diagnostic on a miss when asked for. */
  lemma OtherKeysUnchanged(h: Handlers, st: Step, key: Obj, throwError: bool)
    requires !Converted(key) && !key.Null?
    requires key !in st.table.keyIndex && throwError
    ensures var d := Diagnostic(NotFoundPrimaryKey, [ArgOf(key)]);
      FindByPrimaryKey(h, st, key, throwError) == (if h.Any() then Success((None, st.log + [d])) else Failure(Unhandled(d)))
  {
  }

  /** An integral key and the `double` of the same value find the same row. */
  lemma IntegralMeetsDouble(h: Handlers, st: Step, kind: IntKind, i: int)
    requires kind != Byte && kind != SByte
    ensures FindByPrimaryKey(h, st, Integral(kind, i), true) == TableStore.FindByPrimaryKey(h, st, Dbl(i as real), false)
  {
  }

  /** In a table built from text, a string key is looked up as it is: a
      text that parses as a number (say "7") finds no row, because the row
      whose first cell is "7" sits under the `double` 7; and a `byte` key,
      left unconverted, finds nothing at all. */
  lemma StringKeyNotNormalised(c: Culture, global: bool, contents: Option<seq<Option<string>>>, s: string, b: int)
    requires FromContents(c, global, contents).Success?
    requires c.parseNumber(s).Some?
    ensures var st := FromContents(c, global, contents).value;
      FindByPrimaryKey(Handlers(global, false), st, Str(s), false) == Success((None, st.log))
    ensures var st := FromContents(c, global, contents).value;
      FindByPrimaryKey(Handlers(global, false), st, Integral(Byte, b), false) == Success((None, st.log))
  {
    TableStore.ConstructShaped(TableStore.ObjectRows(c), global, DefaultConfig.(contents := contents));
  }

  /** `TableObject(content)` is `TableObject(new[] { content })`. */
  lemma OneContentIsArrayOfOne(c: Culture, global: bool, content: Option<string>)
    ensures FromContent(c, global, content) == LoadFromString(c, global, Some([content]))
  {
  }
}
