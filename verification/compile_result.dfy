/** `TableCompileResult` (TableML/TableMLCompiler/TableCompileResult.cs):
    what compiling one source table produces for the code templates. The
    source grid it also keeps a reference to is not part of this model. */
module CompileResult {
  import opened Wrappers
  import opened ColumnVars

  /** The full and relative paths of the written table, the kept columns
      in source order, and the primary key column's name (`None` while no
      column declared "pk"). */
  datatype CompileResult = CompileResult(
    fullPath: string,
    relativePath: string,
    fields: seq<ColumnVars>,
    primaryKey: Option<string>)
}
