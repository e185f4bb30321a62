/** The shared vocabulary of the table loader (TableML/TableML/TableFile.cs):
    the diagnostic kinds, the column header record, the loader
    configuration, boxed cell and key values, and the exception hook. */
module TableDefs {
  import opened Wrappers
  import opened OrderedMap
  import Text

  /** `TableFileExceptionType`, including the misspelt `NotFoundHeadzer`
      that nothing raises. */
  datatype ExceptionType =
    | DuplicatedKey
    | NotFoundHeader
    | HeadLineNull
    | MetaLineNull
    | NotFoundHeadzer
    | NotFoundGetMethod
    | NotFoundPrimaryKey
    | NotFoundRow

  const AllExceptionTypes: seq<ExceptionType> :=
    [DuplicatedKey, NotFoundHeader, HeadLineNull, MetaLineNull,
     NotFoundHeadzer, NotFoundGetMethod, NotFoundPrimaryKey, NotFoundRow]

  /** `HeaderInfo`: a column's position, name and declaration text; the
      declaration is null when the meta line was shorter than the name line. */
  datatype HeaderInfo = HeaderInfo(columnIndex: int, name: string, meta: Option<string>)

  /** `Dictionary<string, HeaderInfo>`, shared by a table and all its rows. */
  type Headers = OMap<string, HeaderInfo>

  /** The boxed integral types a key argument can have. */
  datatype IntKind = Int16 | Int32 | Int64 | UInt16 | UInt32 | UInt64 | Byte | SByte

  /** A boxed .NET value as cells, keys and key arguments carry it. Two boxed
      values are `Equals` only when they have the same runtime type, which
      the distinct constructors (and the `IntKind` tag) reproduce. */
  datatype Obj =
    | Null
    | Str(s: string)
    | Dbl(d: real)
    | Integral(kind: IntKind, i: int)
    | Sgl(f: real)
    | Dec(m: real)
    | Bool(b: bool)

  /** The culture-dependent number services: `double.TryParse` and
      `double.ToString()`. Neither is interpreted by the model. */
  datatype Culture = Culture(parseNumber: string -> Option<real>, formatNumber: real -> string)

  /** `o.ToString()`, or `None` where .NET would dereference null. */
  function ObjToString(c: Culture, o: Obj): (r: Option<string>)
    ensures r.None? <==> o.Null?
    ensures o.Str? ==> r == Some(o.s)
  {
    match o
    case Null => None
    case Str(s) => Some(s)
    case Dbl(d) => Some(c.formatNumber(d))
    case Integral(_, i) => Some(Text.IntToString(i))
    case Sgl(f) => Some(c.formatNumber(f))
    case Dec(m) => Some(c.formatNumber(m))
    case Bool(b) => Some(if b then "True" else "False")
  }

  /** A diagnostic argument: literal text, or the `ToString()` of a
      non-string value, whose culture-dependent rendering is not modelled. */
  datatype Arg = Literal(s: string) | Shown(o: Obj)

  function ArgOf(o: Obj): (r: Arg)
    ensures o.Str? ==> r == Literal(o.s)
  {
    if o.Str? then Literal(o.s) else Shown(o)
  }

  datatype Diagnostic = Diagnostic(kind: ExceptionType, args: seq<Arg>)

  /** What makes an operation throw instead of returning. */
  datatype Error =
    | Unhandled(diagnostic: Diagnostic)        // OnException with no handler
    | MetaLineTooLong(metaFields: int, nameFields: int)  // Array.Copy overflow
    | IndexOutOfRange(index: int)              // array access past the end
    | Overflow(index: int)                     // "Overflow index `{0}`"
    | HeaderNotFound(name: string)             // "not found header: " + name
    | DuplicateDictionaryKey                   // Dictionary.Add on a present key
    | NullColName(name: string)                // "Null Col Name : " + name
    | NullArgument                             // a null dictionary key
    | NullReference                            // ToString() of null

  /** The two places an exception can be delivered to. */
  datatype Sink = GlobalSink | ConfigSink

  /** Which of the two handlers are registered: the process-wide
      `GlobalExceptionEvent` and the per-table `OnExceptionEvent`. */
  datatype Handlers = Handlers(global: bool, local: bool) {
    predicate Any() {
      global || local
    }
  }

  /** `OnException`: the sinks notified, in order, or the exception thrown
      when nobody listens. */
  function OnException(h: Handlers, d: Diagnostic): (r: Result<seq<Sink>, Error>)
    ensures r.Failure? <==> !h.global && !h.local
    ensures r.Failure? ==> r.error == Unhandled(d)
    ensures r.Success? ==> (GlobalSink in r.value <==> h.global)
    ensures r.Success? ==> (ConfigSink in r.value <==> h.local)
    ensures r.Success? ==> |r.value| <= 2 && (|r.value| == 2 ==> r.value == [GlobalSink, ConfigSink])
  {
    if !h.global && !h.local then Failure(Unhandled(d))
    else Success((if h.global then [GlobalSink] else []) + (if h.local then [ConfigSink] else []))
  }

  /** `OnException` seen from the loader: with a handler the diagnostic is
      recorded and work goes on; without one it becomes the failure. */
  function Report(h: Handlers, log: seq<Diagnostic>, d: Diagnostic): (r: Result<seq<Diagnostic>, Error>)
    ensures r.Success? <==> OnException(h, d).Success?
    ensures r.Success? ==> r.value == log + [d]
    ensures r.Failure? ==> r.error == Unhandled(d)
  {
    if h.Any() then Success(log + [d]) else Failure(Unhandled(d))
  }

  /** `TableFileConfig`: texts are modelled by their decoded contents. */
  datatype Config = Config(
    contentStreams: Option<seq<Option<string>>>,
    contents: Option<seq<Option<string>>>,
    separators: seq<char>,
    onException: bool)

  const DefaultSeparators: seq<char> := ['\t']

  /** `new TableFileConfig()`. */
  const DefaultConfig: Config := Config(None, None, DefaultSeparators, false)

  /** The characters `Split(char[], StringSplitOptions)` splits on: the
      given ones, or white space when none are given. */
  function SeparatorSet(seps: seq<char>): (r: set<char>)
    ensures seps != [] ==> forall c :: c in r <==> c in seps
    ensures seps == [] ==> r == Text.WhiteSpace
  {
    if seps == [] then Text.WhiteSpace else set c | c in seps
  }

  // ---------------------------------------------------------------------
  // Lemmas

  /** The diagnostic kinds are exactly eight distinct values. */
  lemma ExceptionTypesClosed()
    ensures |AllExceptionTypes| == 8
    ensures forall k: ExceptionType :: k in AllExceptionTypes
    ensures forall i, j :: 0 <= i < j < |AllExceptionTypes| ==> AllExceptionTypes[i] != AllExceptionTypes[j]
  {
    forall k: ExceptionType ensures k in AllExceptionTypes {
      match k
      case DuplicatedKey => assert AllExceptionTypes[0] == k;
      case NotFoundHeader => assert AllExceptionTypes[1] == k;
      case HeadLineNull => assert AllExceptionTypes[2] == k;
      case MetaLineNull => assert AllExceptionTypes[3] == k;
      case NotFoundHeadzer => assert AllExceptionTypes[4] == k;
      case NotFoundGetMethod => assert AllExceptionTypes[5] == k;
      case NotFoundPrimaryKey => assert AllExceptionTypes[6] == k;
      case NotFoundRow => assert AllExceptionTypes[7] == k;
    }
  }

  /** A default configuration splits on the tab character alone. */
  lemma DefaultSeparatorIsTab()
    ensures SeparatorSet(DefaultConfig.separators) == {'\t'}
    ensures DefaultConfig.contents.None? && DefaultConfig.contentStreams.None? && !DefaultConfig.onException
  {
    assert forall c :: c in SeparatorSet(DefaultConfig.separators) <==> c == '\t';
  }
}
