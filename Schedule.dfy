/**
 * What growSchedule (vet/vet.go) schedules, as functions of the directory
 * tree and the resolved policy: the walk decides, entry by entry, which files
 * get their own checks (overridden files) and which are grouped into the
 * directory's package batch; each such unit then expands into one check per
 * checker of its table, in an order the source does not fix.
 */
module Schedule {
  import opened Wrappers
  import opened Paths
  import opened Ast
  import opened Goastch
  import opened Policy

  /** A directory entry as buildutil.ReadDir lists it; a directory carries its own listing. */
  datatype Entry = File(name: string) | Dir(name: string, children: seq<Entry>)

  /**
   * What one call of growSchedule schedules for one path: an overridden file
   * (checked with its override table) or the package formed by the plain files
   * of a directory (checked with the directory's override or the global table).
   */
  datatype Unit =
    | FileUnit(dir: string, path: string, name: string, checkers: Registry)
    | PackageUnit(dir: string, filenames: seq<string>, checkers: Registry)

  /** The walk of one directory so far: the units scheduled and the plain files kept for the package. */
  datatype Walk = Walk(units: seq<Unit>, plain: seq<string>)

  /** One scheduled check. */
  datatype Check = Check(info: Info, node: Node, fset: FileSet, ger: Ger, message: string)

  /** A package as load records it: its name, type information, file set, and parsed files by file name. */
  datatype PackageInfo = PackageInfo(name: string, typesInfo: Info, fset: FileSet, files: map<string, AstFile>)

  /** The loaded packages by directory (the pkgInfos table), which the source frontend fills. */
  type Frontend = map<string, PackageInfo>

  /** getInfo: the type information loaded for a directory (a fixed handle for a directory nothing was loaded for). */
  function InfoOf(fe: Frontend, dir: string): Info {
    if dir in fe then fe[dir].typesInfo else Info(0)
  }

  /** getFset: the file set loaded for a directory (a fixed handle for a directory nothing was loaded for). */
  function FsetOf(fe: Frontend, dir: string): FileSet {
    if dir in fe then fe[dir].fset else FileSet(0)
  }

  /** A file of a directory's package by name: nil (None) when the package holds no such file. */
  function FileIn(fe: Frontend, dir: string, name: string): Option<AstFile> {
    if dir in fe && name in fe[dir].files then Some(fe[dir].files[name]) else None
  }

  /**
   * Entry names as a directory listing gives them: non-empty, not "." or ".."
   * and free of '/', so that an entry's joined path has the entry's name as
   * its base name.
   */
  predicate WellNamed(es: seq<Entry>) {
    forall k :: 0 <= k < |es| ==>
      && IsElement(es[k].name)
      && (es[k].Dir? ==> WellNamed(es[k].children))
  }

  /**
   * An entry the walk skips with everything beneath it: its joined path is
   * ignored, its (base) name starts with '.', or it is a vendor directory.
   */
  predicate Excluded(t: Table, dir: string, e: Entry) {
    Join(dir, e.name) in t.ignored || HasPrefix(e.name, ".") || (e.Dir? && e.name == "vendor")
  }

  /** A Go source file that is not a test file: extension ".go", no "_test.go" suffix. */
  predicate IsSource(path: string) {
    HasSuffix(path, ".go") && !HasSuffix(path, "_test.go")
  }

  /** An entry that goes into its directory's package: not skipped, a source file, not overridden. */
  predicate Plain(t: Table, dir: string, e: Entry) {
    var path := Join(dir, e.name);
    !Excluded(t, dir, e) && IsSource(path) && path !in t.override
  }

  /**
   * One entry of the walk: a directory is walked first, then every entry
   * (a directory whose name ends in ".go" too) goes through the file tests.
   */
  function Step(t: Table, dir: string, w: Walk, e: Entry): Walk
    decreases e, 0
  {
    var path := Join(dir, e.name);
    if Excluded(t, dir, e) then w
    else
      var units := if e.Dir? then w.units + Plan(t, path, e.children) else w.units;
      if !IsSource(path) then Walk(units, w.plain)
      else if path in t.override then Walk(units + [FileUnit(dir, path, e.name, t.override[path])], w.plain)
      else Walk(units, w.plain + [path])
  }

  /** The walk of a listing, entry by entry. */
  function Scan(t: Table, dir: string, w: Walk, es: seq<Entry>): Walk
    decreases es, 1
  {
    if es == [] then w else Scan(t, dir, Step(t, dir, w, es[0]), es[1..])
  }

  /** The package batch of a directory, scheduled only when plain files remain. */
  function Seal(t: Table, dir: string, plain: seq<string>): (r: seq<Unit>)
    ensures plain == [] <==> r == []
  {
    if plain == [] then []
    else [PackageUnit(dir, plain, if dir in t.override then t.override[dir] else t.enabled)]
  }

  /** Everything growSchedule schedules for a directory, in order. */
  function Plan(t: Table, dir: string, es: seq<Entry>): seq<Unit>
    decreases es, 2
  {
    var w := Scan(t, dir, Walk([], []), es);
    w.units + Seal(t, dir, w.plain)
  }

  /** Walking `a + b` is walking `a`, then `b`. */
  lemma {:induction false} ScanAppend(t: Table, dir: string, w: Walk, a: seq<Entry>, b: seq<Entry>)
    ensures Scan(t, dir, w, a + b) == Scan(t, dir, Scan(t, dir, w, a), b)
    decreases |a|
  {
    if a == [] {
      assert a + b == b;
    } else {
      assert (a + b)[0] == a[0] && (a + b)[1..] == a[1..] + b;
      ScanAppend(t, dir, Step(t, dir, w, a[0]), a[1..], b);
    }
  }

  /** Walking the rest of a listing from entry `i` is one Step on that entry, then the rest after it. */
  lemma ScanFrom(t: Table, dir: string, w: Walk, es: seq<Entry>, i: nat)
    requires i < |es|
    ensures Scan(t, dir, w, es[i..]) == Scan(t, dir, Step(t, dir, w, es[i]), es[i + 1..])
  {
    assert es[i..][0] == es[i] && es[i..][1..] == es[i + 1..];
  }

  /** A directory's plan is the walk of its whole listing, sealed. */
  lemma PlanOfWalk(t: Table, dir: string, es: seq<Entry>, w: Walk)
    requires Scan(t, dir, Walk([], []), es) == w
    ensures Plan(t, dir, es) == w.units + Seal(t, dir, w.plain)
  {
  }

  /** The expansion of a directory's walk followed by that of its package unit is the expansion of its plan. */
  lemma PlanExpands(t: Table, dir: string, es: seq<Entry>, units: seq<Unit>, plain: seq<string>,
                    listed: seq<seq<string>>, sealed: seq<seq<string>>, fe: Frontend)
    requires Scan(t, dir, Walk([], []), es) == Walk(units, plain)
    requires Ordered(units, listed) && Ordered(Seal(t, dir, plain), sealed)
    ensures Ordered(Plan(t, dir, es), listed + sealed)
    ensures Expansion(Plan(t, dir, es), listed + sealed, fe) == Expansion(units, listed, fe) + Expansion(Seal(t, dir, plain), sealed, fe)
  {
    PlanOfWalk(t, dir, es, Walk(units, plain));
    ExpansionAppend(units, listed, Seal(t, dir, plain), sealed, fe);
  }

  /** An excluded entry contributes nothing, wherever it stands in the listing. */
  lemma ExcludedIsInert(t: Table, dir: string, w: Walk, a: seq<Entry>, e: Entry, b: seq<Entry>)
    requires Excluded(t, dir, e)
    ensures Scan(t, dir, w, a + [e] + b) == Scan(t, dir, w, a + b)
  {
    ScanAppend(t, dir, w, a, [e] + b);
    ScanAppend(t, dir, w, a, b);
    assert a + [e] + b == a + ([e] + b);
    assert ([e] + b)[0] == e && ([e] + b)[1..] == b;
  }

  /** The walk keeps exactly the joined paths of the plain entries, after the files it already had. */
  lemma PlainFiles(t: Table, dir: string, w: Walk, es: seq<Entry>)
    ensures forall p :: p in Scan(t, dir, w, es).plain <==>
      p in w.plain || exists k :: 0 <= k < |es| && Plain(t, dir, es[k]) && Join(dir, es[k].name) == p
    ensures |Scan(t, dir, w, es).plain| >= |w.plain| && Scan(t, dir, w, es).plain[..|w.plain|] == w.plain
  {
    PlainInOrder(t, dir, w, es);
    PlainPathsMembers(t, dir, es);
    var extra := PlainPaths(t, dir, es);
    assert (w.plain + extra)[..|w.plain|] == w.plain;
  }

  /** The joined paths of the plain entries of a listing, in listing order. */
  function PlainPaths(t: Table, dir: string, es: seq<Entry>): seq<string>
    decreases |es|
  {
    if es == [] then []
    else (if Plain(t, dir, es[0]) then [Join(dir, es[0].name)] else []) + PlainPaths(t, dir, es[1..])
  }

  /** The walk appends to the kept files exactly the plain entries' paths, in listing order. */
  lemma {:induction false} PlainInOrder(t: Table, dir: string, w: Walk, es: seq<Entry>)
    ensures Scan(t, dir, w, es).plain == w.plain + PlainPaths(t, dir, es)
    decreases |es|
  {
    if es == [] {
      assert w.plain + [] == w.plain;
    } else {
      var w' := Step(t, dir, w, es[0]);
      var here := if Plain(t, dir, es[0]) then [Join(dir, es[0].name)] else [];
      assert w'.plain == w.plain + here;
      PlainInOrder(t, dir, w', es[1..]);
      Regroup(w.plain, here, PlainPaths(t, dir, es[1..]));
    }
  }

  /** The plain paths are exactly the joined paths of the plain entries. */
  lemma {:induction false} PlainPathsMembers(t: Table, dir: string, es: seq<Entry>)
    ensures forall p :: p in PlainPaths(t, dir, es) <==>
      exists k :: 0 <= k < |es| && Plain(t, dir, es[k]) && Join(dir, es[k].name) == p
    decreases |es|
  {
    if es != [] {
      var rest := es[1..];
      var here := if Plain(t, dir, es[0]) then [Join(dir, es[0].name)] else [];
      PlainPathsMembers(t, dir, rest);
      assert PlainPaths(t, dir, es) == here + PlainPaths(t, dir, rest);
      forall p | p in PlainPaths(t, dir, es)
        ensures exists k :: 0 <= k < |es| && Plain(t, dir, es[k]) && Join(dir, es[k].name) == p
      {
        if p in here {
          assert Plain(t, dir, es[0]) && Join(dir, es[0].name) == p;
        } else {
          var k :| 0 <= k < |rest| && Plain(t, dir, rest[k]) && Join(dir, rest[k].name) == p;
          assert es[k + 1] == rest[k];
        }
      }
      forall k | 0 <= k < |es| && Plain(t, dir, es[k])
        ensures Join(dir, es[k].name) in PlainPaths(t, dir, es)
      {
        if k > 0 {
          assert rest[k - 1] == es[k];
        }
      }
    }
  }

  /** The conditions every scheduled unit meets. */
  predicate Sound(t: Table, u: Unit) {
    match u
    case FileUnit(_, path, _, checkers) =>
      path in t.override && checkers == t.override[path] && IsSource(path) && path !in t.ignored
    case PackageUnit(dir, filenames, checkers) =>
      && filenames != []
      && checkers == (if dir in t.override then t.override[dir] else t.enabled)
      && forall k :: 0 <= k < |filenames| ==> IsSource(filenames[k]) && filenames[k] !in t.override && filenames[k] !in t.ignored
  }

  /** A walk whose units are sound and whose plain files may join a package. */
  predicate SoundWalk(t: Table, w: Walk) {
    && (forall k :: 0 <= k < |w.units| ==> Sound(t, w.units[k]))
    && (forall k :: 0 <= k < |w.plain| ==> IsSource(w.plain[k]) && w.plain[k] !in t.override && w.plain[k] !in t.ignored)
  }

  lemma {:induction false} StepSound(t: Table, dir: string, w: Walk, e: Entry)
    requires SoundWalk(t, w)
    ensures SoundWalk(t, Step(t, dir, w, e))
    decreases e, 0
  {
    if !Excluded(t, dir, e) && e.Dir? {
      PlanSound(t, Join(dir, e.name), e.children);
    }
  }

  lemma {:induction false} ScanSound(t: Table, dir: string, w: Walk, es: seq<Entry>)
    requires SoundWalk(t, w)
    ensures SoundWalk(t, Scan(t, dir, w, es))
    decreases es, 1
  {
    if es != [] {
      StepSound(t, dir, w, es[0]);
      ScanSound(t, dir, Step(t, dir, w, es[0]), es[1..]);
    }
  }

  /**
   * Everything scheduled for a directory follows the policy: overridden files
   * are checked with their own table; packages are non-empty, use the
   * directory's override or else the global table, and hold only source files
   * that are neither overridden nor ignored.
   */
  lemma {:induction false} PlanSound(t: Table, dir: string, es: seq<Entry>)
    ensures forall k :: 0 <= k < |Plan(t, dir, es)| ==> Sound(t, Plan(t, dir, es)[k])
    decreases es, 2
  {
    ScanSound(t, dir, Walk([], []), es);
  }

  /** An overridden source file of the listing gets a unit of its own with its override table. */
  lemma OverriddenFileScheduled(t: Table, dir: string, es: seq<Entry>, k: nat)
    requires k < |es| && !Excluded(t, dir, es[k]) && IsSource(Join(dir, es[k].name)) && Join(dir, es[k].name) in t.override
    ensures FileUnit(dir, Join(dir, es[k].name), es[k].name, t.override[Join(dir, es[k].name)]) in Plan(t, dir, es)
  {
    var e := es[k];
    assert es == es[..k] + [e] + es[k + 1..];
    var w0 := Scan(t, dir, Walk([], []), es[..k]);
    ScanAppend(t, dir, Walk([], []), es[..k] + [e], es[k + 1..]);
    ScanAppend(t, dir, Walk([], []), es[..k], [e]);
    assert Scan(t, dir, w0, [e]) == Step(t, dir, w0, e);
    UnitsGrow(t, dir, Step(t, dir, w0, e), es[k + 1..]);
  }

  /** The walk only appends units. */
  lemma {:induction false} UnitsGrow(t: Table, dir: string, w: Walk, es: seq<Entry>)
    ensures |Scan(t, dir, w, es).units| >= |w.units| && Scan(t, dir, w, es).units[..|w.units|] == w.units
    decreases |es|
  {
    if es != [] {
      var w' := Step(t, dir, w, es[0]);
      assert |w'.units| >= |w.units| && w'.units[..|w.units|] == w.units;
      UnitsGrow(t, dir, w', es[1..]);
      var u := Scan(t, dir, w', es[1..]).units;
      assert u[..|w'.units|][..|w.units|] == u[..|w.units|];
    }
  }

  /**
   * The package batch, when there is one, is the last unit of its directory:
   * it follows everything scheduled for the subdirectories and the overridden
   * files.
   */
  lemma PackageLast(t: Table, dir: string, es: seq<Entry>)
    ensures var w := Scan(t, dir, Walk([], []), es);
      w.plain != [] ==>
        Plan(t, dir, es) == w.units + [PackageUnit(dir, w.plain, if dir in t.override then t.override[dir] else t.enabled)]
    ensures Scan(t, dir, Walk([], []), es).plain == [] <==>
      forall k :: 0 <= k < |es| ==> !Plain(t, dir, es[k])
  {
    PlainFiles(t, dir, Walk([], []), es);
    var w := Scan(t, dir, Walk([], []), es);
    if w.plain != [] {
      assert w.plain[0] in w.plain;
    } else {
      forall k | 0 <= k < |es| ensures !Plain(t, dir, es[k]) {
        assert Join(dir, es[k].name) !in w.plain;
      }
    }
  }

  /** The file a getFile lookup by name finds: the one recorded for the name's directory. */
  function FileOf(name: string, fe: Frontend): Node {
    FileNode(FileIn(fe, Paths.Dir(name), name))
  }

  /**
   * getPackage: no package for no files; otherwise a package named after the
   * first file's directory that holds each file under its own name, as
   * recorded for that directory.
   */
  function PackageOf(filenames: seq<string>, fe: Frontend): (r: Option<Node>)
    ensures r.None? <==> filenames == []
    ensures r.Some? ==>
      && r.value.PackageNode?
      && (Paths.Dir(filenames[0]) in fe ==> r.value.name == fe[Paths.Dir(filenames[0])].name)
      && (forall f :: f in r.value.files <==> f in filenames)
      && (forall f :: f in r.value.files ==> r.value.files[f] == FileIn(fe, Paths.Dir(filenames[0]), f))
  {
    if filenames == [] then None
    else
      var dir := Paths.Dir(filenames[0]);
      Some(PackageNode(if dir in fe then fe[dir].name else "", map f | f in filenames :: FileIn(fe, dir, f)))
  }

  /** The node a unit's checks run on. */
  function UnitNode(u: Unit, fe: Frontend): Option<Node> {
    match u
    case FileUnit(_, _, name, _) => Some(FileOf(name, fe))
    case PackageUnit(_, filenames, _) => PackageOf(filenames, fe)
  }

  /** `order` lists keys without repeats, as many as there are keys: every key exactly once. */
  predicate Enumerates(order: seq<string>, keys: set<string>) {
    && (forall i, j :: 0 <= i < j < |order| ==> order[i] != order[j])
    && (forall i :: 0 <= i < |order| ==> order[i] in keys)
    && |order| == |keys|
  }

  /** An enumeration lists every key. */
  lemma {:induction false} EnumerationCovers(order: seq<string>, keys: set<string>)
    requires Enumerates(order, keys)
    ensures forall n :: n in keys ==> n in order
    decreases |order|
  {
    if order == [] {
      assert keys == {};
    } else {
      var last := order[|order| - 1];
      var init := order[..|order| - 1];
      assert Enumerates(init, keys - {last});
      EnumerationCovers(init, keys - {last});
      forall n | n in keys ensures n in order {
        if n != last {
          assert n in keys - {last};
          var k :| 0 <= k < |init| && init[k] == n;
          assert order[k] == n;
        }
      }
    }
  }

  /** One check per listed checker, each on the given node, info and file set, with that checker's matcher and message. */
  function Batch(node: Node, info: Info, fset: FileSet, checkers: Registry, order: seq<string>): (b: seq<Check>)
    requires forall i :: 0 <= i < |order| ==> order[i] in checkers
    ensures |b| == |order|
    ensures forall i :: 0 <= i < |order| ==>
      b[i] == Check(info, node, fset, checkers[order[i]].ger, checkers[order[i]].message)
  {
    seq(|order|, i requires 0 <= i < |order| => Check(info, node, fset, checkers[order[i]].ger, checkers[order[i]].message))
  }

  /**
   * How many checks a unit expands into: one per checker, none for a package
   * without files. (In Go, getPackage then returns a typed nil that is a
   * non-nil ast.Node; growSchedule never schedules such a package, so the
   * case does not arise.)
   */
  function Width(u: Unit): nat {
    if u.PackageUnit? && u.filenames == [] then 0 else |u.checkers.Keys|
  }

  /** The checks a unit expands into when its checkers are taken in `order`: none when it has no node. */
  function UnitBatch(u: Unit, order: seq<string>, fe: Frontend): seq<Check>
    requires forall i :: 0 <= i < |order| ==> order[i] in u.checkers
    decreases |order|
  {
    if order == [] then []
    else match UnitNode(u, fe)
      case None => []
      case Some(node) =>
        var c := u.checkers[order[0]];
        [Check(InfoOf(fe, u.dir), node, FsetOf(fe, u.dir), c.ger, c.message)] + UnitBatch(u, order[1..], fe)
  }

  /** A unit's checks are the batch appendCheck appends on its node, and none without a node. */
  lemma {:induction false} UnitBatchIsBatch(u: Unit, order: seq<string>, fe: Frontend)
    requires forall i :: 0 <= i < |order| ==> order[i] in u.checkers
    ensures UnitNode(u, fe).None? ==> UnitBatch(u, order, fe) == []
    ensures UnitNode(u, fe).Some? ==> UnitBatch(u, order, fe) == Batch(UnitNode(u, fe).value, InfoOf(fe, u.dir), FsetOf(fe, u.dir), u.checkers, order)
    decreases |order|
  {
    if order != [] {
      UnitBatchIsBatch(u, order[1..], fe);
    }
  }

  /** `orders` holds one enumeration of its checkers for each unit. */
  ghost predicate Ordered(units: seq<Unit>, orders: seq<seq<string>>)
    decreases |units|
  {
    && |orders| == |units|
    && (units != [] ==> Enumerates(orders[0], units[0].checkers.Keys) && Ordered(units[1..], orders[1..]))
  }

  /** The checks the units expand into, unit after unit, each unit's checkers in its order. */
  ghost function Expansion(units: seq<Unit>, orders: seq<seq<string>>, fe: Frontend): seq<Check>
    requires Ordered(units, orders)
    decreases |units|
  {
    if units == [] then [] else UnitBatch(units[0], orders[0], fe) + Expansion(units[1..], orders[1..], fe)
  }

  /** Appending in two steps is appending the two parts at once. */
  lemma Regroup<T>(a: seq<T>, b: seq<T>, c: seq<T>)
    ensures a + b + c == a + (b + c)
  {
  }

  /** Expansions concatenate. */
  lemma {:induction false} ExpansionAppend(u1: seq<Unit>, o1: seq<seq<string>>, u2: seq<Unit>, o2: seq<seq<string>>, fe: Frontend)
    requires Ordered(u1, o1) && Ordered(u2, o2)
    ensures Ordered(u1 + u2, o1 + o2)
    ensures Expansion(u1 + u2, o1 + o2, fe) == Expansion(u1, o1, fe) + Expansion(u2, o2, fe)
    decreases |u1|
  {
    if u1 == [] {
      assert u1 + u2 == u2 && o1 + o2 == o2;
    } else {
      assert (u1 + u2)[1..] == u1[1..] + u2 && (o1 + o2)[1..] == o1[1..] + o2;
      assert (u1 + u2)[0] == u1[0] && (o1 + o2)[0] == o1[0];
      ExpansionAppend(u1[1..], o1[1..], u2, o2, fe);
      Regroup(UnitBatch(u1[0], o1[0], fe), Expansion(u1[1..], o1[1..], fe), Expansion(u2, o2, fe));
    }
  }

  /** A single unit expands into its batch. */
  lemma ExpansionOne(u: Unit, order: seq<string>, fe: Frontend)
    requires Enumerates(order, u.checkers.Keys)
    ensures Ordered([u], [order])
    ensures Expansion([u], [order], fe) == UnitBatch(u, order, fe)
  {
    assert [u][1..] == [] && [order][1..] == [];
  }

  /** Appending one unit's batch extends an expansion. */
  lemma ExtendByUnit(units: seq<Unit>, orders: seq<seq<string>>, u: Unit, order: seq<string>, fe: Frontend)
    requires Ordered(units, orders) && Enumerates(order, u.checkers.Keys)
    ensures Ordered(units + [u], orders + [order])
    ensures Expansion(units + [u], orders + [order], fe) == Expansion(units, orders, fe) + UnitBatch(u, order, fe)
  {
    ExpansionOne(u, order, fe);
    ExpansionAppend(units, orders, [u], [order], fe);
  }

  /** A unit expands into one check per checker, and none for a package without files. */
  lemma UnitBatchWidth(u: Unit, order: seq<string>, fe: Frontend)
    requires Enumerates(order, u.checkers.Keys)
    ensures |UnitBatch(u, order, fe)| == Width(u)
  {
    UnitBatchIsBatch(u, order, fe);
  }

  /** The number of checks the units expand into. */
  function TotalWidth(units: seq<Unit>): nat
    decreases |units|
  {
    if units == [] then 0 else Width(units[0]) + TotalWidth(units[1..])
  }

  /** An expansion holds exactly one check per checker of each unit with files, whatever the orders. */
  lemma {:induction false} ExpansionLength(units: seq<Unit>, orders: seq<seq<string>>, fe: Frontend)
    requires Ordered(units, orders)
    ensures |Expansion(units, orders, fe)| == TotalWidth(units)
    decreases |units|
  {
    if units != [] {
      UnitBatchWidth(units[0], orders[0], fe);
      ExpansionLength(units[1..], orders[1..], fe);
    }
  }
}
