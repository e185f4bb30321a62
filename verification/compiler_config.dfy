/** `CompilerConfig` (TableML/TableMLCompiler/CompilerConfig.cs): what the
    compiler is told about its output and about comments. */
module CompilerConfig {
  import opened Wrappers

  /** The extension given to compiled tables, the prefixes that mark a
      comment (compared case-insensitively), and the variables `#if` rows
      may test; `None` stands for a null array. */
  datatype Config = Config(exportTabExt: string, commentStartsWith: seq<string>, conditionVars: Option<seq<string>>)

  /** `new CompilerConfig()`. */
  const Default: Config := Config(".tml", ["Comment", "#"], None)
}
