/**
 * The Vet object of vet/vet.go: the schedule of checks it grows from the
 * directory tree, the errors it accumulates under the ErrorLimit budget, and
 * the run that ends in fatal.
 */
module Vet {
  import opened Wrappers
  import opened Paths
  import opened Ast
  import opened Goastch
  import opened Policy
  import opened Config
  import opened Schedule
  import opened Report

  class Vet {
    var ErrorLimit: int
    var Schedule: seq<Check>
    var Errors: seq<Error>
    var pkgPath: string

    /**
     * New: the budget and package path come from the configuration, and the
     * schedule is grown from the tree listed at the configuration's path.
     */
    constructor (c: Config, tree: seq<Entry>, fe: Frontend)
      requires WellNamed(tree)
      ensures ErrorLimit == c.Choke && pkgPath == c.Path && Errors == []
      ensures exists orders :: Ordered(Plan(c.Policy(), c.Path, tree), orders) && Schedule == Expansion(Plan(c.Policy(), c.Path, tree), orders, fe)
    {
      ErrorLimit := c.Choke;
      pkgPath := c.Path;
      Schedule := [];
      Errors := [];
      new;
      ghost var orders := GrowSchedule(c.Policy(), c.Path, tree, fe);
      ghost var plan := Plan(c.Policy(), c.Path, tree);
      assert [] + Expansion(plan, orders, fe) == Expansion(plan, orders, fe);
      assert Ordered(plan, orders) && Schedule == Expansion(plan, orders, fe);
    }

    /**
     * fatal, up to printing and exiting: nothing when there are no errors,
     * otherwise the lines it prints before exiting with status 1.
     */
    method Fatal() returns (lines: Option<seq<string>>)
      ensures lines == if Errors == [] then None else Some(Render(Errors, pkgPath))
    {
      if |Errors| == 0 {
        return None;
      }
      var out: seq<string> := [];
      for i := 0 to |Errors|
        invariant |out| == i
        invariant forall k :: 0 <= k < i ==> out[k] == Line(Errors[k], pkgPath)
      {
        var err := Errors[i];
        var s := TrimPrefix(PositionString(err.pos), pkgPath);
        out := out + ["." + s + ":\t" + err.msg];
      }
      assert out == Render(Errors, pkgPath);
      return Some(out);
    }

    /**
     * appendError: a first append with a negative limit crashes; an append
     * onto at least ErrorLimit entries, and at least one, ends the run
     * without appending; otherwise exactly one entry is appended.
     */
    method AppendError(node: Option<Bound>, fset: Option<FileSet>, msg: string, locate: Locator) returns (stop: Option<Exit>)
      requires node.Some? ==> fset.Some?
      modifies this`Errors
      ensures old(Errors) == [] && ErrorLimit < 0 ==> stop == Some(Panicked) && Errors == old(Errors)
      ensures old(Errors) != [] && |old(Errors)| >= ErrorLimit ==> stop == Some(Choked(Render(Errors, pkgPath))) && Errors == old(Errors)
      ensures (old(Errors) == [] && ErrorLimit >= 0) || |old(Errors)| < ErrorLimit ==>
        stop == None && Errors == old(Errors) + [Error(PositionOf(node, fset, locate), msg)]
    {
      if |Errors| == 0 && ErrorLimit < 0 {
        return Some(Panicked);
      }
      if |Errors| >= ErrorLimit {
        var lines := Fatal();
        if lines.Some? {
          return Some(Choked(lines.value));
        }
      }
      var pos := NoPosition;
      if node.Some? {
        pos := locate(fset.value, node.value.pos);
      }
      Errors := Errors + [Error(pos, msg)];
      return None;
    }

    /**
     * appendCheck: nothing for no node; otherwise one check per checker, on
     * the given node, info and file set, in an order that `order` records.
     */
    method AppendCheck(node: Option<Node>, info: Info, fset: FileSet, checkers: Registry) returns (ghost order: seq<string>)
      modifies this`Schedule
      ensures node.None? ==> Schedule == old(Schedule)
      ensures node.Some? ==> Enumerates(order, checkers.Keys) && Schedule == old(Schedule) + Batch(node.value, info, fset, checkers, order)
    {
      order := [];
      if node.None? {
        return;
      }
      var rest := checkers.Keys;
      while rest != {}
        invariant rest <= checkers.Keys
        invariant forall i, j :: 0 <= i < j < |order| ==> order[i] != order[j]
        invariant forall i :: 0 <= i < |order| ==> order[i] in checkers && order[i] !in rest
        invariant |order| + |rest| == |checkers.Keys|
        invariant Schedule == old(Schedule) + Batch(node.value, info, fset, checkers, order)
        decreases rest
      {
        var name :| name in rest;
        var checker := checkers[name];
        Schedule := Schedule + [Check(info, node.value, fset, checker.ger, checker.message)];
        order := order + [name];
        rest := rest - {name};
      }
    }

    /** getPackage: the package of the given files, none for no files. */
    method GetPackage(filenames: seq<string>, fe: Frontend) returns (pkg: Option<Node>)
      ensures pkg == PackageOf(filenames, fe)
    {
      if |filenames| == 0 {
        return None;
      }
      var dir := Paths.Dir(filenames[0]);
      var name := if dir in fe then fe[dir].name else "";
      var files: map<string, Option<AstFile>> := map[];
      for i := 0 to |filenames|
        invariant files == map f | f in filenames[..i] :: FileIn(fe, dir, f)
      {
        assert filenames[..i + 1] == filenames[..i] + [filenames[i]];
        files := files[filenames[i] := FileIn(fe, dir, filenames[i])];
      }
      assert filenames[..|filenames|] == filenames;
      return Some(PackageNode(name, files));
    }

    /**
     * growSchedule: walks the listing of `dir`, recursing into
     * subdirectories, and appends exactly the batches of the units that Plan
     * gives for it, in order, each unit's checkers in the order `orders` records.
     */
    method GrowSchedule(t: Table, dir: string, entries: seq<Entry>, fe: Frontend) returns (ghost orders: seq<seq<string>>)
      requires WellNamed(entries)
      modifies this`Schedule
      ensures Ordered(Plan(t, dir, entries), orders)
      ensures Schedule == old(Schedule) + Expansion(Plan(t, dir, entries), orders, fe)
      decreases entries, 2
    {
      ghost var units, listed;
      var filenames;
      filenames, units, listed := VisitAll(t, dir, entries, fe);
      ghost var sealed := AppendPackage(t, dir, filenames, fe);
      PlanExpands(t, dir, entries, units, filenames, listed, sealed, fe);
      Regroup(old(Schedule), Expansion(units, listed, fe), Expansion(Seal(t, dir, filenames), sealed, fe));
      orders := listed + sealed;
    }

    /**
     * growSchedule's loop over the listing of `dir`: the walk of the listing
     * gives the units scheduled so far and the plain files kept for the
     * package, and the schedule grows by exactly those units' batches.
     */
    method VisitAll(t: Table, dir: string, entries: seq<Entry>, fe: Frontend)
      returns (filenames: seq<string>, ghost units: seq<Unit>, ghost orders: seq<seq<string>>)
      requires WellNamed(entries)
      modifies this`Schedule
      ensures Scan(t, dir, Walk([], []), entries) == Walk(units, filenames)
      ensures Ordered(units, orders)
      ensures Schedule == old(Schedule) + Expansion(units, orders, fe)
      decreases entries, 1
    {
      units, orders, filenames := [], [], [];
      ghost var walk := Scan(t, dir, Walk([], []), entries);
      assert entries[0..] == entries;
      for i := 0 to |entries|
        invariant Scan(t, dir, Walk(units, filenames), entries[i..]) == walk
        invariant Ordered(units, orders)
        invariant Schedule == old(Schedule) + Expansion(units, orders, fe)
      {
        var file := entries[i];
        ScanFrom(t, dir, Walk(units, filenames), entries, i);
        ghost var more, sub;
        filenames, more, sub := Visit(t, dir, file, fe, filenames, units);
        ExpansionAppend(units, orders, more, sub, fe);
        Regroup(old(Schedule), Expansion(units, orders, fe), Expansion(more, sub, fe));
        units := units + more;
        orders := orders + sub;
      }
      assert entries[|entries|..] == [];
    }

    /**
     * The tail of growSchedule: nothing when no plain file remains, otherwise
     * one batch on the package of those files, with the directory's override
     * or else the globally enabled checkers.
     */
    method AppendPackage(t: Table, dir: string, filenames: seq<string>, fe: Frontend) returns (ghost sealed: seq<seq<string>>)
      modifies this`Schedule
      ensures Ordered(Seal(t, dir, filenames), sealed)
      ensures Schedule == old(Schedule) + Expansion(Seal(t, dir, filenames), sealed, fe)
    {
      sealed := [];
      if |filenames| == 0 {
        return;
      }
      var pkg := GetPackage(filenames, fe);
      var info := InfoOf(fe, dir);
      var fset := FsetOf(fe, dir);
      var enabled: Registry;
      if dir in t.override {
        enabled := t.override[dir];
      } else {
        enabled := t.enabled;
      }
      ghost var order := AppendCheck(pkg, info, fset, enabled);
      UnitBatchIsBatch(PackageUnit(dir, filenames, enabled), order, fe);
      ExpansionOne(PackageUnit(dir, filenames, enabled), order, fe);
      sealed := [order];
    }

    /**
     * One iteration of growSchedule's loop over the listing of `dir`: skips
     * the entry, or recurses into it and then, for a source file, appends its
     * override checks or keeps it for the package. Its effect is one Step of
     * the walk.
     */
    method Visit(t: Table, dir: string, file: Entry, fe: Frontend, filenames: seq<string>, ghost units: seq<Unit>)
      returns (plain: seq<string>, ghost more: seq<Unit>, ghost orders: seq<seq<string>>)
      requires IsElement(file.name) && (file.Dir? ==> WellNamed(file.children))
      modifies this`Schedule
      ensures Step(t, dir, Walk(units, filenames), file) == Walk(units + more, plain)
      ensures Ordered(more, orders)
      ensures Schedule == old(Schedule) + Expansion(more, orders, fe)
      decreases file, 0
    {
      plain, more, orders := filenames, [], [];
      assert units + more == units;
      var path := Join(dir, file.name);
      if path in t.ignored {
        return;
      }
      var hidden := IsHidden(dir, file.name);
      if hidden {
        return;
      }
      if file.Dir? {
        if file.name == "vendor" {
          return;
        }
        orders := GrowSchedule(t, path, file.children, fe);
        more := Plan(t, path, file.children);
      }
      var goFile := IsGoFile(path);
      if !goFile {
        return;
      }
      if HasSuffix(path, "_test.go") {
        return;
      }
      if path in t.override {
        var enabled := t.override[path];
        var node := FileOf(file.name, fe);
        var info := InfoOf(fe, dir);
        var fset := FsetOf(fe, dir);
        ghost var order := AppendCheck(Some(node), info, fset, enabled);
        ghost var u := FileUnit(dir, path, file.name, enabled);
        UnitBatchIsBatch(u, order, fe);
        ExtendByUnit(more, orders, u, order, fe);
        Regroup(old(Schedule), Expansion(more, orders, fe), UnitBatch(u, order, fe));
        Regroup(units, more, [u]);
        more := more + [u];
        orders := orders + [order];
      } else {
        plain := plain + [path];
      }
    }

    /** growSchedule's hidden-entry test: the base name of the entry's joined path starts with '.'. */
    method IsHidden(dir: string, name: string) returns (hidden: bool)
      requires IsElement(name)
      ensures hidden == HasPrefix(name, ".")
    {
      BaseOfJoin(dir, name);
      hidden := HasPrefix(Base(Join(dir, name)), ".");
    }

    /** growSchedule's extension test: filepath.Ext of the path is ".go". */
    method IsGoFile(path: string) returns (goFile: bool)
      ensures goFile == HasSuffix(path, ".go")
    {
      ExtIsGo(path);
      goFile := Ext(path) == ".go";
    }

    /** The run has ended, after absorbing `stream` onto `start`, with the current errors and `exit`. */
    ghost predicate Ended(start: seq<Error>, stream: seq<Error>, exit: Exit)
      reads this
    {
      var (errs, halt) := Absorb(start, stream, ErrorLimit);
      Errors == errs && exit == Outcome(errs, halt, pkgPath)
    }

    /**
     * One call of appendError, seen as the first step of absorbing its entry
     * followed by `rest`: either the run goes on with `rest`, or it has ended.
     */
    method Emit(node: Option<Bound>, fset: Option<FileSet>, msg: string, locate: Locator, ghost rest: seq<Error>) returns (stop: Option<Exit>)
      requires node.Some? ==> fset.Some?
      modifies this`Errors
      ensures stop.None? ==> Absorb(Errors, rest, ErrorLimit) == Absorb(old(Errors), [Error(PositionOf(node, fset, locate), msg)] + rest, ErrorLimit)
      ensures stop.Some? ==> Ended(old(Errors), [Error(PositionOf(node, fset, locate), msg)] + rest, stop.value)
    {
      AbsorbCons(Errors, Error(PositionOf(node, fset, locate), msg), rest, ErrorLimit);
      stop := AppendError(node, fset, msg, locate);
    }

    /** Do's innermost loop: one entry per node of a bind list, in list order, followed by `after`. */
    method RunList(list: seq<Bound>, fset: FileSet, msg: string, locate: Locator, ghost after: seq<Error>) returns (stop: Option<Exit>)
      modifies this`Errors
      ensures stop.None? ==> Absorb(Errors, after, ErrorLimit) == Absorb(old(Errors), ListErrors(list, fset, msg, locate) + after, ErrorLimit)
      ensures stop.Some? ==> Ended(old(Errors), ListErrors(list, fset, msg, locate) + after, stop.value)
    {
      ghost var target := Absorb(Errors, ListErrors(list, fset, msg, locate) + after, ErrorLimit);
      assert list[0..] == list;
      for j := 0 to |list|
        invariant Absorb(Errors, ListErrors(list[j..], fset, msg, locate) + after, ErrorLimit) == target
      {
        ghost var tail := ListErrors(list[j + 1..], fset, msg, locate) + after;
        assert ListErrors(list[j..], fset, msg, locate) + after == [Error(locate(fset, list[j].pos), msg)] + tail by {
          assert list[j..][0] == list[j] && list[j..][1..] == list[j + 1..];
          Regroup([Error(locate(fset, list[j].pos), msg)], ListErrors(list[j + 1..], fset, msg, locate), after);
        }
        stop := Emit(Some(list[j]), Some(fset), msg, locate, tail);
        if stop.Some? {
          return;
        }
      }
      assert ListErrors(list[|list|..], fset, msg, locate) + after == after;
      stop := None;
    }

    /** Do's loop over the bind lists of one check, list after list, followed by `later`. */
    method RunBinds(binds: seq<seq<Bound>>, fset: FileSet, msg: string, locate: Locator, ghost later: seq<Error>) returns (stop: Option<Exit>)
      modifies this`Errors
      ensures stop.None? ==> Absorb(Errors, later, ErrorLimit) == Absorb(old(Errors), BindErrors(binds, fset, msg, locate) + later, ErrorLimit)
      ensures stop.Some? ==> Ended(old(Errors), BindErrors(binds, fset, msg, locate) + later, stop.value)
    {
      ghost var target := Absorb(Errors, BindErrors(binds, fset, msg, locate) + later, ErrorLimit);
      assert binds[0..] == binds;
      for i := 0 to |binds|
        invariant Absorb(Errors, BindErrors(binds[i..], fset, msg, locate) + later, ErrorLimit) == target
      {
        ghost var after := BindErrors(binds[i + 1..], fset, msg, locate) + later;
        assert BindErrors(binds[i..], fset, msg, locate) + later == ListErrors(binds[i], fset, msg, locate) + after by {
          assert binds[i..][0] == binds[i] && binds[i..][1..] == binds[i + 1..];
          Regroup(ListErrors(binds[i], fset, msg, locate), BindErrors(binds[i + 1..], fset, msg, locate), later);
        }
        stop := RunList(binds[i], fset, msg, locate, after);
        if stop.Some? {
          return;
        }
      }
      assert BindErrors(binds[|binds|..], fset, msg, locate) + later == later;
      stop := None;
    }

    /** The body of Do's loop: match one check, then append its error and its bound nodes, followed by `later`. */
    method RunCheck(check: Check, find: Matcher, locate: Locator, ghost later: seq<Error>) returns (stop: Option<Exit>)
      modifies this`Errors
      ensures stop.None? ==> Absorb(Errors, later, ErrorLimit) == Absorb(old(Errors), CheckErrors(check, find, locate) + later, ErrorLimit)
      ensures stop.Some? ==> Ended(old(Errors), CheckErrors(check, find, locate) + later, stop.value)
    {
      var found := find(check.node, check.info, check.ger);
      ghost var rest := BindErrors(found.binds, check.fset, check.message, locate) + later;
      if found.err.Some? {
        Regroup([Error(NoPosition, found.err.value)], BindErrors(found.binds, check.fset, check.message, locate), later);
        stop := Emit(None, None, found.err.value, locate, rest);
        if stop.Some? {
          return;
        }
      } else {
        assert CheckErrors(check, find, locate) + later == rest;
      }
      stop := RunBinds(found.binds, check.fset, check.message, locate, later);
    }

    /**
     * Do: runs every check of the schedule in order and appends its entries
     * (the matcher's error, then each bound node) until the budget stops the
     * run; then reports. The errors and the outcome are those of absorbing
     * the schedule's whole error stream.
     */
    method Do(find: Matcher, locate: Locator) returns (exit: Exit)
      modifies this`Errors
      ensures var (errs, halt) := Absorb(old(Errors), ScheduleErrors(Schedule, find, locate), ErrorLimit);
        Errors == errs && exit == Outcome(errs, halt, pkgPath)
    {
      ghost var target := Absorb(Errors, ScheduleErrors(Schedule, find, locate), ErrorLimit);
      assert Schedule[0..] == Schedule;
      for k := 0 to |Schedule|
        invariant Absorb(Errors, ScheduleErrors(Schedule[k..], find, locate), ErrorLimit) == target
      {
        ghost var later := ScheduleErrors(Schedule[k + 1..], find, locate);
        assert ScheduleErrors(Schedule[k..], find, locate) == CheckErrors(Schedule[k], find, locate) + later by {
          assert Schedule[k..][0] == Schedule[k] && Schedule[k..][1..] == Schedule[k + 1..];
        }
        var stop := RunCheck(Schedule[k], find, locate, later);
        if stop.Some? {
          return stop.value;
        }
      }
      assert ScheduleErrors(Schedule[|Schedule|..], find, locate) == [];
      var lines := Fatal();
      if lines.None? {
        return Clean;
      }
      return Findings(lines.value);
    }
  }
}
