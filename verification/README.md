# TableML in Dafny

TableML turns spreadsheets into tab-separated table files, which games
then load at run time. This project models the TableML core as pure
Dafny functions and proves properties of that model. The core has two
halves.

**The loader** (`TableML/TableML`) turns tab-separated text into a
table. The table holds:

- a header per column: name, position and declaration;
- a cache of split lines;
- numbered rows;
- a primary-key index built from each row's first cell.

Lookups go by row number, header name and key. Errors go to an exception
hook. The numeric variant (`TableObject`, `TableObjectRow`) boxes cells
that parse as numbers as `double`s. It also converts numeric key
arguments before looking them up. `TableFileWriter` writes a table back
as text and edits it row by row and column by column.

**The compiler** (`TableML/TableMLCompiler`) turns one source sheet into
such a text:

- It classifies header and row cells as comment, `#if`, `#endif` or
  value.
- It drops comment columns and comment rows.
- It honours `#if` blocks against the configured condition variables.
- It escapes newlines inside cells and skips blank rows.
- It collects the field list and the primary key for the code templates.
- It works out the export path and the path relative to a base
  directory.

The batch compiler then:

- walks a directory and decides per file whether to compile, skip or copy;
- derives a class name from each relative path;
- merges results that share a class name into template variables.

How the model is built:

- **Dictionaries** are association lists in insertion order
  (`OrderedMap`), because the source's `Dictionary` iteration order is
  observable in the written text. A removed entry's position is not
  reused: .NET's `Dictionary` puts the next added entry into the freed
  slot, so after `RemoveRow` and then `NewRow` the real enumeration order
  can differ from the model's.
- **Exceptions** become `Result` failures. The exception hook becomes a
  pair of flags, `Handlers`: whether a global handler and whether a
  per-table handler is set. Diagnostics that a handler swallows are kept
  in a log.
- **Culture-dependent number services** (`double.TryParse`,
  `double.ToString`) are the uninterpreted function fields of `Culture`.
- **Spreadsheet readers** are a `Source` value: columns with name,
  declaration and comment, plus rows of cells. The reader choice is a
  parameter.
- **The file system** is left out: directory listings, timestamps and
  writes. What the file system would decide reaches the model as
  booleans, and the text that would be written is returned.

## Model

| member | source | states |
|---|---|---|
| TableDefs.ExceptionTypesClosed | TableML/TableML/TableFile.cs:11-21 | The loader reports exactly eight distinct kinds of diagnostic, the misspelt `NotFoundHeadzer` included. |
| TableDefs.DefaultSeparatorIsTab | TableML/TableML/TableFile.cs:39-51 | A default loader configuration has no contents and no streams. It has no per-table handler, and it splits on the tab character alone. |
| TableDefs.SeparatorSet | TableML/TableML/TableFileGeneric.cs:164-168 | A line splits on exactly the configured separator characters. An empty separator list means white space. |
| TableDefs.OnException | TableML/TableML/TableFileGeneric.cs:333-356 | A diagnostic is an exception exactly when neither a global nor a per-table handler is set. Otherwise it reaches each handler that is set, the global handler first. |
| TableDefs.Report | TableML/TableML/TableFileGeneric.cs:333-356 | A handled diagnostic is appended to the log. An unhandled one fails with that diagnostic. |
| TableDefs.ObjToString | TableML/TableML/TableObjectRow.cs:65-68 | `ToString` of a boxed value fails only on null and gives a string back unchanged. |
| TableRow.Ctor | TableML/TableML/TableFileRow.cs:40-51 | A new row carries its number and one null cell per header. |
| TableRow.Get | TableML/TableML/TableFileRow.cs:71-79 | Reading cell i succeeds exactly for 0 <= i < count. An index equal to the count fails with index-out-of-range, because the guard lets it through to the array. Any other out-of-range index fails with "Overflow". |
| TableRow.PrimaryKey | TableML/TableML/TableFileRow.cs:59-68 | The key is the first cell as a string, null when that cell is null. A row with no cells has no key. |
| TableRow.GetByName | TableML/TableML/TableFileRow.cs:97-109 | An unknown header name fails with "not found header". A known one reads the cell at the header's column index. |
| TableRow.SetAt | TableML/TableML/TableFileRow.cs:88-95 | Writing cell i succeeds exactly in range. It changes that cell alone and keeps the row number and the length. |
| TableRow.SetByName | TableML/TableML/TableFileRow.cs:110-119 | An unknown header name fails. A known one writes at the header's column index. |
| TableRow.SetThenGetByName | TableML/TableML/TableFileRow.cs:97-119 | Reading a cell back by name returns what was written by name. Every other column is unchanged. |
| ObjectRow.Coerce | TableML/TableML/TableObjectRow.cs:51-63 | A cell that parses as a number reads as that `double`, any other text reads as itself, and null reads as null. |
| ObjectRow.PrimaryKey | TableML/TableML/TableObjectRow.cs:19-29 | The numeric row's key exists exactly when the plain row's key does, and it is the coerced first cell. |
| ObjectRow.Read | TableML/TableML/TableObjectRow.cs:42-64 | An index read succeeds exactly in range and gives the coerced cell. It fails with index-out-of-range at the count and with "Overflow" beyond it. |
| ObjectRow.Write | TableML/TableML/TableObjectRow.cs:65-68 | Writing null fails. Writing any other value in range stores its `ToString` in that cell. |
| ObjectRow.ReadByName | TableML/TableML/TableObjectRow.cs:72-83 | An unknown header name fails. A known one reads at the header's column index. |
| ObjectRow.WriteByName | TableML/TableML/TableObjectRow.cs:85-94 | An unknown header name fails. A known one writes at the header's column index. |
| ObjectRow.ReadAgreesWithPlainRow | TableML/TableML/TableObjectRow.cs:42-64 | The numeric row fails exactly where the plain row fails, with the same error. Where it succeeds it returns the plain cell coerced. |
| ObjectRow.WriteThenRead | TableML/TableML/TableObjectRow.cs:42-68 | Text written to a cell reads back coerced. Every other cell reads as before. |
| ObjectRow.KeyIsCoercedFirstCell | TableML/TableML/TableObjectRow.cs:19-29 | A first cell that parses becomes a `double` key. Any other first cell is the plain string key. |
| TableStore.AddRow | TableML/TableML/TableFileGeneric.cs:193-234 | A data line becomes the row numbered by the counter, and its split fields are cached. If the line's key is new, the key is indexed to this row. If the key is taken, the row that owns it fills the new slot and `DuplicatedKey` is reported with that key. Nothing else changes. |
| TableStore.ParseRows | TableML/TableML/TableFileGeneric.cs:189-236 | The data-line loop leaves the headers alone and advances the row counter by the number of lines. Rows outside the new numbers, indexed keys and cached lines are kept. |
| TableStore.ParseReader | TableML/TableML/TableFileGeneric.cs:145-239 | A missing name line reports `HeadLineNull` and a missing meta line reports `MetaLineNull`. Each returns false. A meta line longer than the name line fails. Otherwise the column count is the number of names. |
| TableStore.ParseString | TableML/TableML/TableFileGeneric.cs:128-141 | Null or empty content is skipped with false. Other content is read. |
| TableStore.ParseStream | TableML/TableML/TableFileGeneric.cs:99-111 | A null stream is skipped with false. |
| TableStore.GetRow | TableML/TableML/TableFileGeneric.cs:375-385 | A present row is returned. A missing one reports `NotFoundRow` with the number and gives null. |
| TableStore.HasPrimaryKey | TableML/TableML/TableFileGeneric.cs:401-404 | A null key fails. Any other key is found exactly when it is indexed. |
| TableStore.FindByPrimaryKey | TableML/TableML/TableFileGeneric.cs:407-419 | A null key fails and an indexed key returns its row. A missing key gives null. With `throwError` it also reports `NotFoundPrimaryKey`. |
| TableStore.Dispose | TableML/TableML/TableFileGeneric.cs:387-393 | Dispose clears headers, cache, rows and index, and keeps the counters. |
| TableStore.DefaultValue | TableML/TableML/TableFileGeneric.cs:301-309 | A field's default is the second non-empty comma segment of the declaration. It is empty otherwise. |
| TableStore.MissingDiags | TableML/TableML/TableFileGeneric.cs:272-282 | One `NotFoundHeader` per declared field without a column. Missing and present fields together make up all fields. |
| TableStore.CheckFields | TableML/TableML/TableFileGeneric.cs:272-282 | The field check fails exactly when a field is missing and no handler is set. Otherwise it keeps the present fields and logs the missing ones. |
| TableStore.BindFields | TableML/TableML/TableFileGeneric.cs:284-323 | The bindings are exactly the fields whose type has a `Get_` converter, in order, each reading the cell at its column with the default its declaration gives. The log gains one `NotFoundGetMethod` per field without a converter, in order. It succeeds exactly when a handler is set or no converter is missing, and every converted field's column index lies within the row; with no handler and every converted field's cell present, it fails on the first missing converter. |
| TableStore.AutoParse | TableML/TableML/TableFileGeneric.cs:267-325 | Automatic parsing logs every missing column, then every missing converter among the present fields, and binds the present fields that have a converter, in order, to their cells and defaults. It fails on the first missing column when no handler is set, and succeeds exactly when the handlers admit every diagnostic and every converted field's cell exists. |
| TableStore.LineKeyNotNull | TableML/TableML/TableFileGeneric.cs:212 | A parsed line's key is never null. |
| TableStore.ParseReaderHeaders | TableML/TableML/TableFileGeneric.cs:163-187 | Header j is named by the j-th name and carries the j-th meta, or null past the meta line's end. Other names keep their headers. |
| TableStore.ParseRowsSlots | TableML/TableML/TableFileGeneric.cs:193-234 | Data line j becomes row number `rowIndex + j`. Its fields, one more than its separators, are cached, and the slot holds the row that owns the line's key. |
| TableStore.ParseRowsFirstOwner | TableML/TableML/TableFileGeneric.cs:212-230 | The first line that carries a key keeps it for good. Later lines with that key do not displace it. |
| TableStore.DuplicateKeepsEarlierRow | TableML/TableML/TableFileGeneric.cs:220-229 | A repeated key is reported with the key's text and leaves the index unchanged. The new slot holds the earlier row. |
| TableStore.DefaultIsSecondSegment | TableML/TableML/TableFileGeneric.cs:303-309 | With empty segments skipped, the default is the second segment of a comma list. |
| TableStore.AddRowWf | TableML/TableML/TableFileGeneric.cs:196-234 | Adding a row keeps the table well formed and adds exactly one row. |
| TableStore.ParseRowsCount | TableML/TableML/TableFileGeneric.cs:189-236 | With a handler set, every data line adds one row, and the table stays well formed. |
| TableStore.ParseRowsDistinct | TableML/TableML/TableFileGeneric.cs:189-236 | Lines with distinct new keys need no handler. They log nothing and add one row each. |
| TableStore.ParseReaderCount | TableML/TableML/TableFileGeneric.cs:145-239 | Reading n >= 2 lines adds n - 2 rows. |
| TableStore.EmptyStreamVersusEmptyString | TableML/TableML/TableFileGeneric.cs:99-141 | An empty string is skipped. An empty stream is read and reports `HeadLineNull`. |
| TableStore.EmptyAndDisposedWf | TableML/TableML/TableFileGeneric.cs:387-393 | A fresh table starts counting rows at 1 and holds none. It is well formed, and so is a disposed one. |
| TableStore.ParseReaderShaped | TableML/TableML/TableFileGeneric.cs:145-239 | Every key read from text has its row kind's shape. Every stored row is all text. |
| TableStore.ConstructShaped | TableML/TableML/TableFileGeneric.cs:38-96 | Any table built from contents and streams has only shaped keys and all-text rows. |
| PlainTable.FromContentIsOneParse | TableML/TableML/TableFile.cs:56-57 | `TableFile(content)` is one `ParseString` on a fresh table with tab separators. |
| PlainTable.NoContentNoRows | TableML/TableML/TableFileGeneric.cs:128-141 | Null or empty content gives an empty table and no diagnostic. |
| PlainTable.KeysAreText | TableML/TableML/TableFileGeneric.cs:196-218 | A plain table's keys are the text of the owning row's first cell. No stored cell is null. |
| PlainTable.RepeatedKey | TableML/TableML/TableFileGeneric.cs:212-234 | Two data lines with one key give two rows. Row 2 holds row 1, the index maps the key to row 1, and one `DuplicatedKey` is logged. |
| NumericTable.ToDouble | TableML/TableML/TableObject.cs:24-29 | Integral, decimal and single keys convert to their value as a `double`. A bool key converts to 1 or 0. |
| NumericTable.FindByPrimaryKey | TableML/TableML/TableObject.cs:22-35 | Numeric keys are converted and looked up without raising. Strings and other keys go to the base lookup as given. |
| NumericTable.NumericLookupNeverRaises | TableML/TableML/TableObject.cs:24-30 | A numeric-key lookup always succeeds, logs nothing and finds the row under the converted key. |
| NumericTable.OtherKeysUnchanged | TableML/TableML/TableObject.cs:32-33 | A missing non-numeric key with `throwError` reports `NotFoundPrimaryKey`, as the base lookup does. |
| NumericTable.IntegralMeetsDouble | TableML/TableML/TableObject.cs:24-30 | An `int` key finds the row stored under the equal `double`. |
| NumericTable.StringKeyNotNormalised | TableML/TableML/TableObject.cs:22-35 | In a table built from text, a string key that parses as a number finds nothing, because the row sits under the number. A `byte` key, left unconverted, finds nothing either. |
| NumericTable.OneContentIsArrayOfOne | TableML/TableML/TableObject.cs:9-13 | `TableObject(content)` is `TableObject(new[] { content })`. |
| TableWriter.Lines | TableML/TableML/TableFileWriter.cs:23-67 | The text has one line of tab-joined names, one line of tab-joined metas and one line per row, in row order. A null value shows as empty. |
| TableWriter.ToString | TableML/TableML/TableFileWriter.cs:23-67 | The string-builder loop produces each line followed by a newline. |
| TableWriter.AppendFields | TableML/TableML/TableFileWriter.cs:57-62 | The cell loop appends the cells with a tab between each two. |
| TableWriter.NewRow | TableML/TableML/TableFileWriter.cs:95-103 | The new row is numbered one past the row count, with one null cell per header. It fails with a duplicate-key error when that number is taken. |
| TableWriter.RemoveRow | TableML/TableML/TableFileWriter.cs:105-108 | Removal returns true exactly when the number was present. Only that entry goes. |
| TableWriter.GetRow | TableML/TableML/TableFileWriter.cs:110-119 | The writer's row lookup returns the stored row, or null with no diagnostic. |
| TableWriter.SetCell | TableML/TableML/TableFileWriter.cs:110-119 | Filling cell i of a row the writer returns fails on a missing row and on an index out of range. Otherwise it changes that cell of that row alone, and every other row is unchanged. |
| TableWriter.SetCellShows | TableML/TableML/TableFileWriter.cs:23-67 | A filled cell shows in its row's written line. The header lines and every other row's line stay as they were. |
| TableWriter.NewColumn | TableML/TableML/TableFileWriter.cs:127-143 | A null or empty name fails and a taken name fails. Otherwise the header goes at the next position and the incremented column count is returned. Rows are untouched. |
| TableWriter.NewColumnNamed | TableML/TableML/TableFileWriter.cs:121-124 | A column added by name alone has an empty declaration. |
| TableWriter.Dispose | TableML/TableML/TableFileWriter.cs:145-148 | Disposing the writer clears the table. |
| TableWriter.TabCounts | TableML/TableML/TableFileWriter.cs:27-50 | The header lines carry one tab fewer than there are headers. |
| TableWriter.RowTabCount | TableML/TableML/TableFileWriter.cs:53-64 | A row line carries one tab fewer than there are cells. |
| TableWriter.LinesReadBack | TableML/TableML/TableFileWriter.cs:23-67 | Text without embedded newlines reads back line by line as written. |
| TableWriter.NewRowAfterRemoveCollides | TableML/TableML/TableFileWriter.cs:95-108 | After removing any row but the last-numbered one, the next `NewRow` collides with a number still in use. |
| TableWriter.NewRowsOnFreshWriter | TableML/TableML/TableFileWriter.cs:95-103 | A fresh writer numbers rows 1, 2, and so on. |
| TableWriter.GetRowIsSilent | TableML/TableML/TableFileWriter.cs:110-119 | The writer finds what the table's `GetRow` finds, but a miss is silent where the table reports `NotFoundRow`. |
| TableWriter.TwoColumns | TableML/TableML/TableFileWriter.cs:127-143 | Two columns added in turn sit at positions k and k + 1. |
| RoundTrip.WrittenFields | TableML/TableML/TableFileWriter.cs:27-64 | Each written line splits on tabs into exactly the names, metas or cells it was made of. |
| RoundTrip.WriteThenRead | TableML/TableML/TableFileWriter.cs:23-67 | Loading the written text of a tab- and newline-free table with distinct first cells gives the same headers with metas as text and the same number of rows. Row j + 1 holds the j-th row's cells, and nothing is logged. |
| RoundTrip.WriteThenReadCells | TableML/TableML/TableFileWriter.cs:53-64 | A row with no null cell comes back cell for cell. |
| ColumnVars.TypeMethod | TableML/TableMLCompiler/TableColumnVars.cs:12-15 | The method-name form of a type contains no '<', '>' or ','. |
| ColumnVars.TypeMethodFixed | TableML/TableMLCompiler/TableColumnVars.cs:12-15 | The method-name form changes a type exactly when the type has "[]", '<', '>' or ','. |
| ColumnVars.TypeMethodOfArray | TableML/TableMLCompiler/TableColumnVars.cs:11-15 | An array type `t[]` becomes `t_array` (as `int[]` becomes `int_array`) when `t` holds no bracket and no `<`, `>` or `,`. |
| ColumnVars.FormatTypeIsDeclared | TableML/TableMLCompiler/TableColumnVars.cs:17-23 | `FormatType` is the declared type. It differs from `TypeMethod` on every array type. |
| Compiler.MatchesComment | TableML/TableMLCompiler/Compiler.cs:248-254 | A text is a comment exactly when, lower-cased and trimmed, it starts with some lower-cased comment prefix. |
| Compiler.CheckCellType | TableML/TableMLCompiler/Compiler.cs:241-257 | "#if" wins, then "#endif", then a comment prefix, then value. Each holds exactly under its condition. |
| Compiler.GetIfVars | TableML/TableMLCompiler/Compiler.cs:235-238 | The condition variables are non-empty, space-free words. |
| Compiler.GetIfVarsOfWords | TableML/TableMLCompiler/Compiler.cs:235-238 | "#if" followed by words separated by single spaces gives exactly those words, in order, when no word holds white space or '#'. |
| Compiler.AllDefined | TableML/TableMLCompiler/Compiler.cs:152-162 | An `#if` holds exactly when condition variables are configured and every variable is among them. |
| Compiler.Where | TableML/TableMLCompiler/Compiler.cs:51-106 | The selected columns, in ascending order, are exactly those that match. |
| Compiler.Escape | TableML/TableMLCompiler/Compiler.cs:185 | An escaped cell has no newline. |
| Compiler.EscapeIsPerChar | TableML/TableMLCompiler/Compiler.cs:185 | Escaping replaces each newline with a backslash and an 'n' and keeps every other character, in order. |
| Compiler.EscapeLength | TableML/TableMLCompiler/Compiler.cs:185 | An escaped cell is longer than the cell by the number of its newlines. |
| Compiler.EscapeKeepsPlain | TableML/TableMLCompiler/Compiler.cs:185 | A cell without a newline is written unchanged. |
| Compiler.Declare | TableML/TableMLCompiler/Compiler.cs:69-94 | The declared type is never empty. Type and default contain neither '\|' nor '/'. |
| Compiler.DeclareRoundTrip | TableML/TableMLCompiler/Compiler.cs:73-94 | "type\|default\|pk" declares that type, that default and a primary key. |
| Compiler.DeclareEmpty | TableML/TableMLCompiler/Compiler.cs:69-70 | An empty declaration is a `string` with an empty default. |
| Compiler.FieldList | TableML/TableMLCompiler/Compiler.cs:51-106 | There is one field per named non-comment column, in column order. It has the declared type and default, the comment, and the column index less the comment columns before it. |
| Compiler.FieldIndexIsPosition | TableML/TableMLCompiler/Compiler.cs:98 | When every column is named, field indices run 0, 1, 2, and so on. |
| Compiler.PrimaryKey | TableML/TableMLCompiler/Compiler.cs:88-94 | The primary key is the last field declaring "pk", or none when no field does. |
| Compiler.Decide | TableML/TableMLCompiler/Compiler.cs:142-178 | A written row leaves the `#if` flag alone. With column 0 a comment column, every row is written. |
| Compiler.DecideFlag | TableML/TableMLCompiler/Compiler.cs:142-178 | With column 0 kept, a row is written exactly when the flag is set and its first cell is a value. Only directive rows move the flag. |
| Compiler.FlagIsLastDirective | TableML/TableMLCompiler/Compiler.cs:126-169 | The flag after n rows is the one the last `#if` or `#endif` row left, or set when there was none. Blocks do not nest. |
| Compiler.WrittenRows | TableML/TableMLCompiler/Compiler.cs:130-194 | With column 0 kept, the rows written are exactly the value rows the `#if` flag admits whose text is not blank, in source order. |
| Compiler.RowsAsWritten | TableML/TableMLCompiler/Compiler.cs:130-194 | With column 0 kept, the row loop's output is the non-blank written lines joined by newlines. A newline goes in front when the first written row is not row 0. |
| Compiler.RowPieces | TableML/TableMLCompiler/Compiler.cs:135-186 | A row's line is its kept cells, escaped and joined by tabs, behind one tab when column 0 is not kept. |
| Compiler.KeptText | TableML/TableMLCompiler/Compiler.cs:50-195 | With column 0 kept, the text is the name line, the meta line and the written rows' lines joined by newlines. One more newline goes in front when the first written row is not row 0. |
| Compiler.AsIntended | TableML/TableMLCompiler/Compiler.cs:50-195 | With column 0 kept and row 0 written first, the compiler writes exactly the intended text. |
| Compiler.IntendedReadBack | TableML/TableMLCompiler/Compiler.cs:107-194 | The intended text reads back as the name line, the meta line and one line per written row. |
| Compiler.BlankIsTrimmedEmpty | TableML/TableMLCompiler/Compiler.cs:192 | A row counts as blank exactly when trimming leaves nothing. |
| Compiler.CommentColumnsInvisible | TableML/TableMLCompiler/Compiler.cs:56-137 | Comment columns do not affect the text, the field list or the primary key. |
| Compiler.CommentFirstRowsFree | TableML/TableMLCompiler/Compiler.cs:137-177 | When column 0 is not kept (a comment column, or no column at all), no row is classified and the rows are never separated by a newline. |
| Compiler.CommentFirstOneLine | TableML/TableMLCompiler/Compiler.cs:137-177 | With column 0 a comment column, the compiled text has at most three lines however many rows there are. |
| Compiler.RowZeroSkipped | TableML/TableMLCompiler/Compiler.cs:176-177 | When row 0 is not written but a later row is, an empty line follows the meta line, and the loader reads it as a row. |
| CompileFile.Slashes | TableML/TableMLCompiler/Compiler.cs:219 | Backslashes become slashes, and nothing else changes. |
| CompileFile.SlashesIsReplace | TableML/TableMLCompiler/Compiler.cs:219 | `Slashes` is `Replace("\\", "/")`. |
| CompileFile.DropSlash | TableML/TableMLCompiler/Compiler.cs:225-226 | One leading slash is removed, if there is one. |
| CompileFile.IntendedUnderBase | TableML/TableMLCompiler/Compiler.cs:220-226 | A path "base/x" is "x" relative to base. |
| CompileFile.RelativeAgrees | TableML/TableMLCompiler/Compiler.cs:220-226 | When the base occurs only as the prefix, the computed relative path is the intended one. |
| CompileFile.RelativeRemovesEveryOccurrence | TableML/TableMLCompiler/Compiler.cs:223 | The relative path deletes the base wherever it occurs: "/d/d…" relative to "/d" loses both copies. |
| CompileFile.ExportPath | TableML/TableMLCompiler/Compiler.cs:197-206 | The export path is the target when one is given. Otherwise it is the file name plus the configured extension. |
| CompileFile.DoCompile | TableML/TableMLCompiler/Compiler.cs:35-232 | Text is written exactly when `doCompile` is set, and it is the compiled table text. The export path is `ExportPath`, the fields and primary key are those of the column pass, and the relative path is computed from the export path and the base. The full path is the export path with every backslash made a slash. With no base, the relative path is the export path less a leading slash. |
| CompileFile.CompileTo | TableML/TableMLCompiler/Compiler.cs:267-288 | An empty target fails in `GetFullPath`. Otherwise the export path is the target. |
| CompileFile.CompileDefault | TableML/TableMLCompiler/Compiler.cs:260-264 | An empty path fails. |
| CompileFile.CompileOutputPath | TableML/TableMLCompiler/Compiler.cs:260-264 | `Compile(path)` fails exactly on an empty path. Otherwise it writes the compiled text of the sheet read by the reader the extension picks, to a file with the same name and the extension ".tml". |
| CompileFile.DefaultExtensionPlain | TableML/TableMLCompiler/CompilerConfig.cs:7 | The default export extension is a plain extension. |
| CompileFile.NoCompileSameResult | TableML/TableMLCompiler/Compiler.cs:213-214 | Without real compilation nothing is written, but the result is the same. |
| CompileFile.ReaderFollowsExtension | TableML/TableMLCompiler/Compiler.cs:276-282 | ".tsv" picks the TSV reader, and any other extension such as ".xlsx" picks the Excel reader. |
| CompileFile.DefaultHashIsComment | TableML/TableMLCompiler/CompilerConfig.cs:10 | Under the defaults, a cell starting with '#' that is not a directive is a comment. |
| CompileFile.ElseKeepsFlag | TableML/TableMLCompiler/Compiler.cs:144-146 | "#else" is only a comment row: it is skipped and does not flip the flag. |
| CompileFile.IfWithoutVariables | TableML/TableMLCompiler/Compiler.cs:151-163 | With no condition variables configured, an `#if` holds exactly when it names no variable. |
| BatchCompiler.SourceRelative | TableML/TableMLCompiler/BatchCompiler.cs:116-118 | The relative source path contains no backslash. |
| BatchCompiler.SourceRelativeAgrees | TableML/TableMLCompiler/BatchCompiler.cs:116-118 | When the source directory occurs only as the prefix, the file "dir/x" is "x" relative to dir, as intended. |
| BatchCompiler.Classify | TableML/TableMLCompiler/BatchCompiler.cs:112-171 | A file is compiled or skipped exactly when it is a table, copied exactly when it is a ".txt" that is not a table, and ignored otherwise. A compiled table goes to the output directory plus its relative source path with the extension changed; a copied file goes to the output directory plus its relative source path. |
| BatchCompiler.BatchConfig | TableML/TableMLCompiler/BatchCompiler.cs:92 | The batch compiler uses the default configuration with the given condition variables. |
| BatchCompiler.Produced | TableML/TableMLCompiler/BatchCompiler.cs:145-158 | A file yields a result exactly when it is compiled. |
| BatchCompiler.Results | TableML/TableMLCompiler/BatchCompiler.cs:108-158 | The results are those of the compiled files, in directory order. |
| BatchCompiler.CompileAll | TableML/TableMLCompiler/BatchCompiler.cs:88-158 | An empty source directory fails. Otherwise the results are those of `Results`: one per compiled table, in the order the files were found, each the result of compiling that file. |
| BatchCompiler.ForceAllCompilesEveryTable | TableML/TableMLCompiler/BatchCompiler.cs:133-143 | A table is skipped exactly when its output exists with the same time and the run is not forced. A forced run compiles every table. |
| BatchCompiler.LockFilesNotCompiled | TableML/TableMLCompiler/BatchCompiler.cs:120-160 | Excel lock files starting with "~" are never compiled. They are copied only when they end in ".txt". |
| BatchCompiler.CompileTargetExtension | TableML/TableMLCompiler/BatchCompiler.cs:125 | A compile target carries the requested extension. |
| BatchCompiler.ForcedResults | TableML/TableMLCompiler/BatchCompiler.cs:133-153 | A forced run returns one result per table file. |
| BatchCompiler.SourceRelativeRemovesEveryOccurrence | TableML/TableMLCompiler/BatchCompiler.cs:116 | The source-relative path deletes the source directory wherever it occurs, not only as the prefix. |
| BatchCompiler.SourceRelativeIntendedUnder | TableML/TableMLCompiler/BatchCompiler.cs:116-118 | A file "dir/x" is "x" relative to dir. |
| BatchCompiler.Capitalise | TableML/TableMLCompiler/BatchCompiler.cs:335 | A word keeps everything but its upper-cased first letter. |
| BatchCompiler.Words | TableML/TableMLCompiler/BatchCompiler.cs:328-336 | The capitalised words hold no slash, backslash, space or underscore. |
| BatchCompiler.DefaultClassName | TableML/TableMLCompiler/BatchCompiler.cs:325-346 | The class name is the longest prefix of the capitalised words before a '+' or '#'. It holds none of the separators. |
| BatchCompiler.ClassNameOfPath | TableML/TableMLCompiler/BatchCompiler.cs:325-346 | "dir/name.ext" gives `Capitalise(dir) + Capitalise(name)`. |
| BatchCompiler.ClassNameExample | TableML/TableMLCompiler/BatchCompiler.cs:325-346 | "sub/item.tml" gives "SubItem". |
| BatchCompiler.NewVars | TableML/TableMLCompiler/BatchCompiler.cs:302-318 | New template variables take the class name from the relative path, which is their only path. |
| BatchCompiler.FilteredBy | TableML/TableMLCompiler/BatchCompiler.cs:203-215 | A class is filtered exactly when its name contains some filter entry. |
| BatchCompiler.Merge | TableML/TableMLCompiler/BatchCompiler.cs:187-226 | The merge holds each class name once and no filtered class. |
| BatchCompiler.MergeIsExpected | TableML/TableMLCompiler/BatchCompiler.cs:187-226 | Each class maps to the variables of its first kept result, with the relative paths of all its kept results in order, and to nothing when no kept result has it. |
| BatchCompiler.FilteredClassAbsent | TableML/TableMLCompiler/BatchCompiler.cs:203-216 | A filtered class never appears. An empty filter entry filters everything. |
| BatchCompiler.MergeDistinct | TableML/TableMLCompiler/BatchCompiler.cs:216-219 | Kept results with distinct class names give one entry each, in order. |
| BatchCompiler.TabFilePathsQuoted | TableML/TableMLCompiler/BatchCompiler.cs:270-277 | The path list is each path quoted, joined by ", ". An empty list gives `""`. |
| Paths.GetExtension | TableML/TableMLCompiler/BatchCompiler.cs:112 | The extension is a suffix of the path: empty, or a dot with no separator or dot after it. |
| Paths.GetFileNameWithoutExtension | TableML/TableMLCompiler/BatchCompiler.cs:114 | The bare file name is separator-free and a prefix of the file name. |
| Paths.ChangeExtensionThenGet | TableML/TableMLCompiler/Compiler.cs:262 | After changing the extension to a plain e, the extension is e. |
| Paths.ChangeExtensionKeepsName | TableML/TableMLCompiler/Compiler.cs:262 | Changing the extension keeps the bare file name. |
| Paths.ChangeExtensionIdempotent | TableML/TableMLCompiler/BatchCompiler.cs:125 | Changing the extension twice is changing it once. |

## Left out

- File system: directory creation, writing and copying files, listing
  directories, file timestamps and `GetFullPath`. The file to write is
  returned instead. "Output exists" and "same time" are booleans per
  file. `GetFullPath` is the identity on the paths given, apart from
  failing on an empty path.
- `SimpleExcelFile` and `SimpleTSVFile` are not part of this model. A
  sheet is a `Source` value, and the reader choice is a parameter.
- The `ExcelFile` field of the result is left out. So are `Hash`, DotLiquid templates, `GenerateCode`, Console output and
  `Program.cs`. They are rendering and I/O.
- `settingCodeIgnorePattern` is a regular expression. It is modelled as
  an `ignore` predicate on the relative path, because regular-expression
  matching is not modelled.
- `CustomExtraString` and `CustomClassNameFunc` are user callbacks. The
  model uses the default class name.
- Encodings and byte-order marks: contents are decoded strings, and lines
  are split on '\n' only (no '\r').
- `double.TryParse` and `double.ToString` are uninterpreted. Converting
  a `decimal` or `long` to `double` is exact: rounding is not modelled.
- Culture-sensitive `StartsWith`, `ToLower` and `ToUpper` are ordinal and
  ASCII.
- Reflection in `AutoParse`: the declared fields and the types that have
  a `Get_` converter are parameters.
- Enumerators, `GetWidth`, `Close` and `GetByPrimaryKey` are thin
  aliases of members that are modelled.
- `lock` and thread safety in `Save` are left out. `Save` itself is
  `ToString` plus a file write.
- A null `compileToFilePath` or path string is not modelled. An empty one
  is.
- CompileFile.DoCompile: with an empty target, `GetDirectoryName("")`
  throws. That case cannot arise through `Compile`, because
  `GetFullPath("")` throws first, so it is not modelled.
- Compiler.Declare: uses `Split` with `RemoveEmptyEntries` as written. The
  stricter claim that the default is the declaration's second field is not
  stated.
- Rows are values, not shared objects. The source hands out `TableFileRow`
  references that callers fill in place through `NewRow` and `GetRow`;
  the model has `TableWriter.SetCell` store the edited row back instead.
  A repeated key's slot holds the same object as the earlier row in the
  source, so editing one edits both; the model copies the row, and that
  sharing is not modelled.
- TableDefs.ObjToString: `float` and `decimal` values are formatted
  through the culture's `double` formatter. Real `decimal.ToString` keeps
  the scale ("1.50") and `float.ToString` rounds differently. Parsing
  yields a `real`, so the `NaN` and infinities that `double.TryParse`
  accepts are not modelled.

## Findings

| source | as written | input that shows it | evidently intended | confidence | as-written member | corrected member |
|---|---|---|---|---|---|---|
| TableML/TableMLCompiler/Compiler.cs:137-177 | Rows are classified, and separated by "\n", only while handling column 0. When column 0 is a comment column, neither happens. | columns `#c`, `A` and rows `[x,1]`, `[y,2]` give one line of all rows | every written row on its own line | not executed | Compiler.CommentFirstOneLine | Compiler.IntendedReadBack |
| TableML/TableMLCompiler/Compiler.cs:176-177 | The newline goes in front of each row whose source index is not 0. If row 0 is not written, the first written row is preceded by an empty line. | rows `[#note,x]`, `[1,2]` give an empty third line, which loads as a data row | newlines between written rows only | not executed | Compiler.RowZeroSkipped | Compiler.AsIntended |
| TableML/TableMLCompiler/Compiler.cs:223 | The relative path is `Replace(base, "")`, which deletes every occurrence of the base. | base `/out`, file `/out/outline.tml` gives `line.tml` | remove the base as a prefix only | not executed | CompileFile.RelativeRemovesEveryOccurrence | CompileFile.IntendedUnderBase |
| TableML/TableMLCompiler/BatchCompiler.cs:116 | The relative source path is `Replace(findDir, "")`, with the same defect. | directory `/src`, file `/src/srcmap.xlsx` gives `map.xlsx` | remove the directory as a prefix only | not executed | BatchCompiler.SourceRelativeRemovesEveryOccurrence | BatchCompiler.SourceRelativeIntendedUnder |
