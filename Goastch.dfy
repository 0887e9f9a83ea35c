/**
 * The external pattern compiler and matcher (the goastch library), seen as
 * opaque handles and total functions that may fail.
 */
module Goastch {
  import opened Wrappers
  import opened Ast

  /** A parsed pattern (parser.ParseGer's result). */
  datatype GerNode = GerNode(id: nat)
  /** A compiled matcher (a goastcher.Goastcher). */
  datatype Ger = Ger(id: nat)

  /** parser.ParseGer followed by gen.Ger. */
  datatype Compiler = Compiler(parse: string -> Result<GerNode, string>, gen: GerNode -> Result<Ger, string>)

  /** What goastch.Find returns: the bound node lists and an error, either of which may be empty. */
  datatype Found = Found(binds: seq<seq<Bound>>, err: Option<string>)

  /** goastch.Find(node, info, ger). */
  type Matcher = (Node, Info, Ger) -> Found

  /** (*token.FileSet).Position: where a token.Pos lies. */
  type Locator = (FileSet, nat) -> Position
}
