/**
 * What the core sees of Go's go/ast, go/token and go/types data, which the
 * source frontend owns: opaque handles, plus token.Position and its String
 * method, which the report prints.
 */
module Ast {
  import opened Wrappers

  /** A *types.Info of one loaded package. */
  datatype Info = Info(id: nat)
  /** A *token.FileSet of one loaded package. */
  datatype FileSet = FileSet(id: nat)
  /** A parsed *ast.File. */
  datatype AstFile = AstFile(id: nat)

  /**
   * The ast.Node a check runs on: one file (a *ast.File that may be a nil
   * pointer, which is still a non-nil interface value) or a package assembled
   * from files, keyed by file name.
   */
  datatype Node =
    | FileNode(file: Option<AstFile>)
    | PackageNode(name: string, files: map<string, Option<AstFile>>)

  /** A node bound by a matcher, known by its token.Pos. */
  datatype Bound = Bound(pos: nat)

  /** token.Position. */
  datatype Position = Position(filename: string, offset: int, line: int, column: int)

  /** The zero token.Position, recorded when there is no node. */
  const NoPosition := Position("", 0, 0, 0)

  /** The decimal digits of `n`. */
  function Digits(n: nat): (s: string)
    ensures s != [] && forall k :: 0 <= k < |s| ==> '0' <= s[k] <= '9'
    decreases n
  {
    var d := ['0' + (n % 10) as char];
    if n < 10 then d else Digits(n / 10) + d
  }

  /** The value of a string of decimal digits. */
  function DecimalValue(s: string): nat
    requires forall k :: 0 <= k < |s| ==> '0' <= s[k] <= '9'
    decreases |s|
  {
    if s == [] then 0 else DecimalValue(s[..|s| - 1]) * 10 + (s[|s| - 1] - '0') as nat
  }

  /** Reading the digits back gives the number. */
  lemma {:induction false} DigitsRoundTrip(n: nat)
    ensures DecimalValue(Digits(n)) == n
    decreases n
  {
    var s := Digits(n);
    if n >= 10 {
      DigitsRoundTrip(n / 10);
      assert s[..|s| - 1] == Digits(n / 10);
    }
  }

  /** strconv.Itoa. */
  function Itoa(n: int): (s: string)
    ensures n >= 0 ==> s == Digits(n)
    ensures n < 0 ==> s == "-" + Digits(-n)
  {
    if n < 0 then "-" + Digits(-n) else Digits(n)
  }

  /**
   * token.Position.String: "file:line:column", where the file and the column
   * are omitted when empty or zero, the line and column are omitted when the
   * line is not positive, and "-" stands for a position with nothing to show.
   */
  function PositionString(p: Position): (s: string)
    ensures s != []
    ensures p.line <= 0 && p.filename == "" ==> s == "-"
    ensures p.line <= 0 && p.filename != "" ==> s == p.filename
  {
    var s0 := p.filename;
    var s1 := if p.line > 0 then
                (if s0 != "" then s0 + ":" else s0) + Itoa(p.line) + (if p.column != 0 then ":" + Itoa(p.column) else "")
              else s0;
    if s1 == "" then "-" else s1
  }

  /**
   * A position with a line renders as "file:line" or "line", followed by
   * ":column" when the column is set; the line is printed in decimal.
   */
  lemma PositionWithLine(p: Position)
    requires p.line > 0
    ensures PositionString(p) ==
      (if p.filename != "" then p.filename + ":" else "") + Digits(p.line) + (if p.column != 0 then ":" + Itoa(p.column) else "")
    ensures DecimalValue(Digits(p.line)) == p.line
  {
    DigitsRoundTrip(p.line);
  }
}
