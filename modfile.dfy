/**
 * The parsed go.mod file as golang.org/x/mod/modfile hands it to the
 * analyzer: only the parts that the analyzer reads, and the comment lists
 * that it deliberately does not read.
 */
module ModFile {
  import opened Wrappers

  /** One comment token, with its "//" marker, as written in the file. */
  datatype Comment = Comment(token: string)

  /** Comments attached to a line: the lines just before it, the one after it on the same line, and those after it. */
  datatype Comments = Comments(before: seq<Comment>, suffix: seq<Comment>, after: seq<Comment>)

  /** The `module` directive: the declared module path and its syntax line. */
  datatype ModuleStmt = ModuleStmt(path: string, syntax: Comments)

  /** A `retract` directive: the inclusive interval [low, high] and its rationale. */
  datatype Retract = Retract(low: string, high: string, rationale: string)

  /** A parsed go.mod file; `moduleStmt` is None when the file has no module directive. */
  datatype File = File(moduleStmt: Option<ModuleStmt>, retract: seq<Retract>)
}
