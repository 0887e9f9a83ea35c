/**
 * The findings side of vet/vet.go: the stream of errors that running the
 * schedule produces, the ErrorLimit budget that appendError enforces on it,
 * and what fatal prints before the process exits.
 */
module Report {
  import opened Wrappers
  import opened Paths
  import opened Ast
  import opened Goastch
  import opened Schedule

  /** One finding: where, and the message. */
  datatype Error = Error(pos: Position, msg: string)

  /** How a run ends: normally with nothing to report, or with exit status 1 after printing the lines. */
  datatype Exit =
    | Clean
    | Findings(lines: seq<string>)    // the schedule ran to its end
    | Choked(lines: seq<string>)      // the error budget was spent
    | Panicked                        // make with a negative capacity: a negative ErrorLimit

  /** Why absorbing a stream of errors stopped. */
  datatype Halt = Done | OverBudget | Crashed

  /** The position appendError records: the node's position in the file set, or the zero position without a node. */
  function PositionOf(node: Option<Bound>, fset: Option<FileSet>, locate: Locator): (p: Position)
    requires node.Some? ==> fset.Some?
    ensures node.None? ==> p == NoPosition
    ensures node.Some? ==> p == locate(fset.value, node.value.pos)
  {
    if node.Some? then locate(fset.value, node.value.pos) else NoPosition
  }

  /** The entries of one bind list, in list order, each with the check's message. */
  function ListErrors(list: seq<Bound>, fset: FileSet, msg: string, locate: Locator): (r: seq<Error>)
    ensures |r| == |list|
    ensures forall i :: 0 <= i < |list| ==> r[i] == Error(locate(fset, list[i].pos), msg)
    decreases |list|
  {
    if list == [] then []
    else [Error(locate(fset, list[0].pos), msg)] + ListErrors(list[1..], fset, msg, locate)
  }

  /** The entries of all bind lists, list after list. */
  function BindErrors(binds: seq<seq<Bound>>, fset: FileSet, msg: string, locate: Locator): seq<Error>
    decreases |binds|
  {
    if binds == [] then []
    else ListErrors(binds[0], fset, msg, locate) + BindErrors(binds[1..], fset, msg, locate)
  }

  /** The entries one check contributes: the matcher's error first, without a position, then its binds. */
  function CheckErrors(c: Check, find: Matcher, locate: Locator): seq<Error> {
    var found := find(c.node, c.info, c.ger);
    (if found.err.Some? then [Error(NoPosition, found.err.value)] else [])
      + BindErrors(found.binds, c.fset, c.message, locate)
  }

  /** The entries the whole schedule contributes, check after check. */
  function ScheduleErrors(s: seq<Check>, find: Matcher, locate: Locator): seq<Error>
    decreases |s|
  {
    if s == [] then [] else CheckErrors(s[0], find, locate) + ScheduleErrors(s[1..], find, locate)
  }

  /** How many entries one bind list contributes in total. */
  function BoundCount(binds: seq<seq<Bound>>): nat
    decreases |binds|
  {
    if binds == [] then 0 else |binds[0]| + BoundCount(binds[1..])
  }

  /** Every node of every bind list gives exactly one entry. */
  lemma {:induction false} BindErrorsLength(binds: seq<seq<Bound>>, fset: FileSet, msg: string, locate: Locator)
    ensures |BindErrors(binds, fset, msg, locate)| == BoundCount(binds)
    ensures forall k :: 0 <= k < |BindErrors(binds, fset, msg, locate)| ==> BindErrors(binds, fset, msg, locate)[k].msg == msg
    decreases |binds|
  {
    if binds != [] {
      BindErrorsLength(binds[1..], fset, msg, locate);
    }
  }

  /**
   * appendError applied to each entry of the stream in turn: an append onto
   * no entries with a negative limit crashes; an append onto at least `limit`
   * entries, and at least one, stops the run without appending.
   */
  function Absorb(errors: seq<Error>, stream: seq<Error>, limit: int): (seq<Error>, Halt)
    decreases |stream|
  {
    if stream == [] then (errors, Done)
    else if errors == [] && limit < 0 then (errors, Crashed)
    else if |errors| >= limit && |errors| > 0 then (errors, OverBudget)
    else Absorb(errors + [stream[0]], stream[1..], limit)
  }

  /** Absorbing an entry at the front of a stream: crash, stop, or append it and go on with the rest. */
  lemma AbsorbCons(errors: seq<Error>, e: Error, rest: seq<Error>, limit: int)
    ensures Absorb(errors, [e] + rest, limit) ==
      if errors == [] && limit < 0 then (errors, Crashed)
      else if |errors| >= limit && |errors| > 0 then (errors, OverBudget)
      else Absorb(errors + [e], rest, limit)
  {
    assert ([e] + rest)[0] == e && ([e] + rest)[1..] == rest;
  }

  /** The number of entries a limit admits: the limit, but at least one. */
  function Cap(limit: int): (n: nat)
    ensures n >= 1 && n >= limit
    ensures limit >= 1 ==> n == limit
  {
    if limit < 1 then 1 else limit
  }

  /**
   * The budget in closed form: entries are appended in stream order until the
   * cap is reached; the run stops exactly when the stream holds more entries
   * than fit.
   */
  lemma {:induction false} AbsorbClosedForm(errors: seq<Error>, stream: seq<Error>, limit: int)
    requires limit >= 0 && |errors| <= Cap(limit)
    ensures |errors| + |stream| > Cap(limit) ==> Absorb(errors, stream, limit) == ((errors + stream)[..Cap(limit)], OverBudget)
    ensures |errors| + |stream| <= Cap(limit) ==> Absorb(errors, stream, limit) == (errors + stream, Done)
    decreases |stream|
  {
    if stream == [] {
      assert errors + stream == errors;
    } else if |errors| >= limit && |errors| > 0 {
      assert (errors + stream)[..Cap(limit)] == errors;
    } else {
      assert (errors + [stream[0]]) + stream[1..] == errors + stream;
      AbsorbClosedForm(errors + [stream[0]], stream[1..], limit);
    }
  }

  /** A run never records more entries than the budget admits, and keeps the first ones in order. */
  lemma BudgetRespected(stream: seq<Error>, limit: int)
    requires limit >= 0
    ensures |Absorb([], stream, limit).0| <= Cap(limit) && |Absorb([], stream, limit).0| <= |stream|
    ensures Absorb([], stream, limit).0 == stream[..|Absorb([], stream, limit).0|]
    ensures Absorb([], stream, limit).1 == OverBudget <==> |stream| > Cap(limit)
  {
    AbsorbClosedForm([], stream, limit);
    assert [] + stream == stream;
  }

  /** With a zero limit the first entry is still recorded, because fatal returns on an empty list. */
  lemma ZeroLimitKeepsOne(stream: seq<Error>)
    requires stream != []
    ensures Absorb([], stream, 0).0 == [stream[0]]
    ensures Absorb([], stream, 0).1 == (if |stream| > 1 then OverBudget else Done)
  {
    AbsorbClosedForm([], stream, 0);
    assert [] + stream == stream;
  }

  /** A negative limit crashes on the first entry and records nothing. */
  lemma NegativeLimitCrashes(stream: seq<Error>, limit: int)
    requires limit < 0 && stream != []
    ensures Absorb([], stream, limit) == ([], Crashed)
  {
  }

  /** With a limit of two and five findings, the first two are kept and the run stops. */
  lemma FiveFindingsOverTwo(stream: seq<Error>)
    requires |stream| == 5
    ensures Absorb([], stream, 2) == (stream[..2], OverBudget)
  {
    AbsorbClosedForm([], stream, 2);
    assert [] + stream == stream;
  }

  /** One printed line: ".", the position with the package path prefix dropped, a tab, the message. */
  function Line(e: Error, pkgPath: string): string {
    "." + TrimPrefix(PositionString(e.pos), pkgPath) + ":\t" + e.msg
  }

  /** A position under the package path prints relative to it. */
  lemma LineRelative(e: Error, pkgPath: string, rel: string)
    requires pkgPath + rel == PositionString(e.pos)
    ensures Line(e, pkgPath) == "." + rel + ":\t" + e.msg
  {
    assert HasPrefix(PositionString(e.pos), pkgPath) by {
      assert PositionString(e.pos)[..|pkgPath|] == pkgPath;
    }
    assert PositionString(e.pos)[|pkgPath|..] == rel;
  }

  /** An entry without a position prints as ".-", whatever the package path other than "-" itself. */
  lemma NoPositionLine(msg: string, pkgPath: string)
    requires pkgPath != "-"
    ensures Line(Error(NoPosition, msg), pkgPath) == ".-:\t" + msg
  {
  }

  /** The lines fatal prints, one per entry, in accumulation order. */
  function Render(errors: seq<Error>, pkgPath: string): (lines: seq<string>)
    ensures |lines| == |errors|
    ensures forall i :: 0 <= i < |errors| ==> lines[i] == Line(errors[i], pkgPath)
  {
    seq(|errors|, i requires 0 <= i < |errors| => Line(errors[i], pkgPath))
  }

  /** The outcome of a run that absorbed its whole error stream. */
  function Outcome(errors: seq<Error>, halt: Halt, pkgPath: string): (exit: Exit)
    ensures exit == Clean <==> halt == Done && errors == []
    ensures exit.Findings? || exit.Choked? ==> exit.lines == Render(errors, pkgPath)
    ensures exit.Choked? <==> halt == OverBudget
    ensures exit == Panicked <==> halt == Crashed
  {
    match halt
    case Crashed => Panicked
    case OverBudget => Choked(Render(errors, pkgPath))
    case Done => if errors == [] then Clean else Findings(Render(errors, pkgPath))
  }
}
