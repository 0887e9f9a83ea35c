/**
 * Policy resolution of config/config.go as functions of the raw configuration:
 * the module path chosen by GO111MODULE, the checker registry, the ignore set,
 * the globally enabled checkers and the per-path override table. The Config
 * class (Config.dfy) fills its fields with loops that are proved to compute
 * exactly these functions.
 */
module Policy {
  import opened Wrappers
  import opened Paths
  import GoMod
  import opened Goastch

  /** A compiled checker: its matcher and the message reported for each match. */
  datatype Checker = Checker(ger: Ger, message: string)

  /** Checkers by name. */
  type Registry = map<string, Checker>

  /** One `checkers` entry of the configuration file. */
  datatype CheckerConf = CheckerConf(name: string, goastch: string, message: string)

  /** One `override` entry; an empty package or file is unset, an absent list is None. */
  datatype OverrideConf = OverrideConf(pkg: string, file: string, enabled: Option<seq<string>>, disabled: Option<seq<string>>)

  /**
   * The configuration keys as read; an absent `enabled` or `disabled` list is
   * None, and so is an empty one, since an empty list reads back as nil.
   */
  datatype RawConfig = RawConfig(
    choke: int,
    checkers: seq<CheckerConf>,
    ignored: seq<string>,
    enabled: Option<seq<string>>,
    disabled: Option<seq<string>>,
    override: seq<OverrideConf>)

  /**
   * What resolution reads from the process: the working directory, the value of
   * GO111MODULE, the bytes of the working directory's go.mod (None when it does
   * not exist) and the set of paths for which os.Stat does not report "not exist".
   */
  datatype Env = Env(wd: string, goModule: string, goMod: Option<seq<GoMod.byte>>, present: set<string>)

  /** The resolved policy that scheduling reads. */
  datatype Table = Table(ignored: set<string>, enabled: Registry, override: map<string, Registry>)

  /**
   * A table filled in place by a loop with early error returns: what the table
   * holds when the loop stops, and the error it stopped on, if any.
   */
  datatype Filled<T> = Filled(table: T, err: Option<string>)

  const NoGoMod := "not exist go.mod"
  const DuplicateChecker := "Duplicate checker"
  const ExclusiveLists := "Only one can be used for 'enabled' and 'disabled'"
  const ExclusiveTargets := "Only one can be used for 'package' and 'file'"
  const MissingTarget := "Requred 'package' or 'file' for a override"
  const MissingPath := "Path does not exist"
  const FileMissingPrefix := "File does not exist "
  /** The prefix stripped from override targets before they are joined to the root. */
  const RepoPrefix := "github.com/helloyi/"

  /** Go's string(bytes): one character per byte. */
  function ToString(bs: seq<GoMod.byte>): (s: string)
    ensures |s| == |bs| && forall k :: 0 <= k < |bs| ==> s[k] as int == bs[k] as int
  {
    seq(|bs|, k requires 0 <= k < |bs| => (bs[k] as int) as char)
  }

  /**
   * The module path chosen by GO111MODULE: "on" demands a go.mod, "off"
   * ignores it, and any other value reads it when it exists.
   */
  function SelectModulePath(goModule: string, goMod: Option<seq<GoMod.byte>>): (r: Result<string, string>)
    requires goModule != "off" && goMod.Some? ==> GoMod.Readable(goMod.value)
    ensures r.Err? <==> goModule == "on" && goMod.None?
    ensures r.Err? ==> r.error == NoGoMod
    ensures r.Ok? && (goModule == "off" || goMod.None?) ==> r.value == ""
    ensures goModule != "off" && goMod.Some? ==> r == Ok(ToString(GoMod.ModulePath(goMod.value)))
  {
    if goModule == "on" then
      if goMod.None? then Err(NoGoMod) else Ok(ToString(GoMod.ModulePath(goMod.value)))
    else if goModule == "off" then Ok("")
    else if goMod.Some? then Ok(ToString(GoMod.ModulePath(goMod.value)))
    else Ok("")
  }

  /** parser.ParseGer followed by gen.Ger: the first error of the two, or the matcher. */
  function Compile(source: string, comp: Compiler): Result<Ger, string> {
    match comp.parse(source)
    case Err(e) => Err(e)
    case Ok(node) => comp.gen(node)
  }

  /**
   * The checker registry built from `acc` and the entries in order: a name
   * already registered fails with DuplicateChecker before its pattern is
   * compiled; a compile error fails with that error.
   */
  function Register(acc: Registry, confs: seq<CheckerConf>, comp: Compiler): Result<Registry, string>
    decreases |confs|
  {
    if confs == [] then Ok(acc)
    else
      var conf := confs[0];
      if conf.name in acc then Err(DuplicateChecker)
      else match Compile(conf.goastch, comp)
        case Err(e) => Err(e)
        case Ok(ger) => Register(acc[conf.name := Checker(ger, conf.message)], confs[1..], comp)
  }

  /** Every entry has a name new to `acc` and to the entries before it, and compiles. */
  predicate Admissible(acc: Registry, confs: seq<CheckerConf>, comp: Compiler) {
    && (forall i :: 0 <= i < |confs| ==> confs[i].name !in acc && Compile(confs[i].goastch, comp).Ok?)
    && (forall i, j :: 0 <= i < j < |confs| ==> confs[i].name != confs[j].name)
  }

  /** Entry `i` repeats a name registered before it. */
  predicate Repeats(acc: Registry, confs: seq<CheckerConf>, i: int)
    requires 0 <= i < |confs|
  {
    confs[i].name in acc || exists j :: 0 <= j < i && confs[j].name == confs[i].name
  }

  /** The names of the entries. */
  function Names(confs: seq<CheckerConf>): set<string> {
    set c | c in confs :: c.name
  }

  lemma NamesCons(confs: seq<CheckerConf>)
    requires confs != []
    ensures Names(confs) == {confs[0].name} + Names(confs[1..])
  {
    assert confs == [confs[0]] + confs[1..];
    forall n | n in Names(confs) ensures n in {confs[0].name} + Names(confs[1..]) {
      var c :| c in confs && c.name == n;
    }
  }

  /** Registration succeeds exactly on admissible entries. */
  lemma {:induction false} RegisterSucceeds(acc: Registry, confs: seq<CheckerConf>, comp: Compiler)
    ensures Register(acc, confs, comp).Ok? <==> Admissible(acc, confs, comp)
    decreases |confs|
  {
    if confs != [] {
      var conf := confs[0];
      var rest := confs[1..];
      if conf.name !in acc && Compile(conf.goastch, comp).Ok? {
        var acc' := acc[conf.name := Checker(Compile(conf.goastch, comp).value, conf.message)];
        RegisterSucceeds(acc', rest, comp);
        assert forall i :: 0 < i < |confs| ==> confs[i] == rest[i - 1];
        if Admissible(acc, confs, comp) {
          assert Admissible(acc', rest, comp);
        }
        if Admissible(acc', rest, comp) {
          assert Admissible(acc, confs, comp);
        }
      }
    }
  }

  /**
   * An accepted registry holds `acc` and exactly the entries' names, each
   * mapped to its own compiled matcher and message.
   */
  lemma {:induction false} RegisterContents(acc: Registry, confs: seq<CheckerConf>, comp: Compiler)
    requires Admissible(acc, confs, comp)
    ensures Register(acc, confs, comp).Ok?
    ensures Register(acc, confs, comp).value.Keys == acc.Keys + Names(confs)
    ensures forall n :: n in acc ==> Register(acc, confs, comp).value[n] == acc[n]
    ensures forall i :: 0 <= i < |confs| ==>
      Register(acc, confs, comp).value[confs[i].name] == Checker(Compile(confs[i].goastch, comp).value, confs[i].message)
    decreases |confs|
  {
    if confs != [] {
      var conf := confs[0];
      var rest := confs[1..];
      var acc' := acc[conf.name := Checker(Compile(conf.goastch, comp).value, conf.message)];
      assert forall i :: 0 < i < |confs| ==> confs[i] == rest[i - 1];
      assert Admissible(acc', rest, comp);
      RegisterContents(acc', rest, comp);
      NamesCons(confs);
    }
  }

  /**
   * A repeated name fails the whole registration with DuplicateChecker, however
   * its own pattern and every later entry would compile.
   */
  lemma {:induction false} DuplicateRejected(acc: Registry, confs: seq<CheckerConf>, comp: Compiler, i: nat)
    requires i < |confs| && Admissible(acc, confs[..i], comp) && Repeats(acc, confs, i)
    ensures Register(acc, confs, comp) == Err(DuplicateChecker)
    decreases i
  {
    if i > 0 {
      var conf := confs[0];
      assert confs[..i][0] == conf;
      var acc' := acc[conf.name := Checker(Compile(conf.goastch, comp).value, conf.message)];
      var rest := confs[1..];
      assert rest[..i - 1] == confs[1..i];
      assert Admissible(acc', rest[..i - 1], comp);
      assert Repeats(acc', rest, i - 1) by {
        if confs[i].name !in acc {
          var j :| 0 <= j < i && confs[j].name == confs[i].name;
          if j > 0 { assert rest[j - 1].name == rest[i - 1].name; }
        }
      }
      DuplicateRejected(acc', rest, comp, i - 1);
    }
  }

  /** The first entry whose pattern does not compile fails registration with that error. */
  lemma {:induction false} CompileErrorRejected(acc: Registry, confs: seq<CheckerConf>, comp: Compiler, i: nat)
    requires i < |confs| && Admissible(acc, confs[..i], comp) && !Repeats(acc, confs, i)
    requires Compile(confs[i].goastch, comp).Err?
    ensures Register(acc, confs, comp) == Err(Compile(confs[i].goastch, comp).error)
    decreases i
  {
    if i > 0 {
      var conf := confs[0];
      assert confs[..i][0] == conf;
      var acc' := acc[conf.name := Checker(Compile(conf.goastch, comp).value, conf.message)];
      var rest := confs[1..];
      assert rest[..i - 1] == confs[1..i];
      assert Admissible(acc', rest[..i - 1], comp);
      assert rest[i - 1] == confs[i];
      assert confs[i].name != conf.name;
      assert forall j :: 0 <= j < i - 1 ==> rest[j] == confs[j + 1];
      CompileErrorRejected(acc', rest, comp, i - 1);
    }
  }

  /** An ignored path relative to the module: the module path prefix dropped, joined to the working directory. */
  function Resolve(path: string, modulePath: string, wd: string): string {
    Join(wd, TrimPrefix(path, modulePath))
  }
  /**
   * Because Join cleans, an ignored directory may be written module-qualified,
   * with a leading "./" or with a trailing '/': each resolves to the path the
   * walk builds for the directory's entry.
   */
  lemma ResolveSpellings(modulePath: string, wd: string, name: string)
    requires wd != "" && IsElement(name)
    ensures Resolve(modulePath + "/" + name, modulePath, wd) == Join(wd, name)
    ensures (modulePath == "" || !HasPrefix(name, modulePath)) ==> Resolve(name, modulePath, wd) == Join(wd, name)
    ensures (modulePath == "" || !HasPrefix("./" + name, modulePath)) ==> Resolve("./" + name, modulePath, wd) == Join(wd, name)
    ensures (modulePath == "" || !HasPrefix(name + "/", modulePath)) ==> Resolve(name + "/", modulePath, wd) == Join(wd, name)
  {
    var q := modulePath + "/" + name;
    assert HasPrefix(q, modulePath) by { assert q[..|modulePath|] == modulePath; }
    assert TrimPrefix(q, modulePath) == "/" + name by { assert q[|modulePath|..] == "/" + name; }
    JoinLeadingSlash(wd, name);
    JoinLeadingDot(wd, name);
    JoinTrailingSlash(wd, name);
  }

  /**
   * The ignore set filled from `acc`: an absolute path fails with the path
   * itself, a resolved path that does not exist fails naming it.
   */
  function IgnoreFrom(acc: set<string>, paths: seq<string>, modulePath: string, wd: string, present: set<string>): Filled<set<string>>
    decreases |paths|
  {
    if paths == [] then Filled(acc, None)
    else
      var p := paths[0];
      if IsAbs(p) then Filled(acc, Some(p))
      else
        var abs := Resolve(p, modulePath, wd);
        if abs !in present then Filled(acc, Some(FileMissingPrefix + abs))
        else IgnoreFrom(acc + {abs}, paths[1..], modulePath, wd, present)
  }

  /**
   * The ignore set is accepted exactly when every path is relative and resolves
   * to an existing path; it then holds exactly the resolved paths.
   */
  lemma {:induction false} IgnoredSucceeds(acc: set<string>, paths: seq<string>, modulePath: string, wd: string, present: set<string>)
    ensures IgnoreFrom(acc, paths, modulePath, wd, present).err.None? <==>
      forall i :: 0 <= i < |paths| ==> !IsAbs(paths[i]) && Resolve(paths[i], modulePath, wd) in present
    ensures IgnoreFrom(acc, paths, modulePath, wd, present).err.None? ==>
      IgnoreFrom(acc, paths, modulePath, wd, present).table == acc + (set p | p in paths :: Resolve(p, modulePath, wd))
    decreases |paths|
  {
    if paths != [] {
      var rest := paths[1..];
      var abs := Resolve(paths[0], modulePath, wd);
      assert forall i :: 0 < i < |paths| ==> paths[i] == rest[i - 1];
      if !IsAbs(paths[0]) && abs in present {
        IgnoredSucceeds(acc + {abs}, rest, modulePath, wd, present);
        assert (set p | p in paths :: Resolve(p, modulePath, wd)) == {abs} + (set p | p in rest :: Resolve(p, modulePath, wd));
      }
    }
  }

  /** Filling from `a + b` is filling from `a`, then, unless that failed, from `b`. */
  lemma {:induction false} IgnoreAppend(acc: set<string>, a: seq<string>, b: seq<string>, modulePath: string, wd: string, present: set<string>)
    ensures IgnoreFrom(acc, a + b, modulePath, wd, present) ==
      var f := IgnoreFrom(acc, a, modulePath, wd, present);
      if f.err.Some? then f else IgnoreFrom(f.table, b, modulePath, wd, present)
    decreases |a|
  {
    if a != [] {
      assert (a + b)[0] == a[0] && (a + b)[1..] == a[1..] + b;
      var abs := Resolve(a[0], modulePath, wd);
      if !IsAbs(a[0]) && abs in present {
        IgnoreAppend(acc + {abs}, a[1..], b, modulePath, wd, present);
      }
    } else {
      assert a + b == b;
    }
  }

  /**
   * The first bad path stops the fill with its own error; the set then holds
   * what the paths before it added.
   */
  lemma IgnoredFirstError(paths: seq<string>, modulePath: string, wd: string, present: set<string>, i: nat)
    requires i < |paths| && IgnoreFrom({}, paths[..i], modulePath, wd, present).err.None?
    requires IsAbs(paths[i]) || Resolve(paths[i], modulePath, wd) !in present
    ensures IgnoreFrom({}, paths, modulePath, wd, present) == Filled(
      IgnoreFrom({}, paths[..i], modulePath, wd, present).table,
      Some(if IsAbs(paths[i]) then paths[i] else FileMissingPrefix + Resolve(paths[i], modulePath, wd)))
  {
    assert paths == paths[..i] + paths[i..];
    IgnoreAppend({}, paths[..i], paths[i..], modulePath, wd, present);
    assert paths[i..][0] == paths[i];
  }

  /** The first name that is not in the registry. */
  function UnknownName(names: seq<string>, reg: Registry): (r: Option<string>)
    ensures r.None? <==> forall k :: 0 <= k < |names| ==> names[k] in reg
    ensures r.Some? ==> exists k :: 0 <= k < |names| && names[k] == r.value && r.value !in reg && forall j :: 0 <= j < k ==> names[j] in reg
    decreases |names|
  {
    if names == [] then None
    else if names[0] !in reg then Some(names[0])
    else
      var r := UnknownName(names[1..], reg);
      assert forall k :: 0 < k < |names| ==> names[k] == names[1..][k - 1];
      assert r.Some? ==> exists k :: 0 <= k < |names| && names[k] == r.value && r.value !in reg && forall j :: 0 <= j < k ==> names[j] in reg by {
        if r.Some? {
          var k :| 0 <= k < |names[1..]| && names[1..][k] == r.value && r.value !in reg && forall j :: 0 <= j < k ==> names[1..][j] in reg;
          assert names[k + 1] == r.value;
          assert forall j :: 0 < j < k + 1 ==> names[j] == names[1..][j - 1];
        }
      }
      r
  }

  /** The registry entries with the given names. */
  function Select(reg: Registry, names: seq<string>): (r: Registry)
    requires forall k :: 0 <= k < |names| ==> names[k] in reg
    ensures forall n :: n in r <==> n in names
    ensures forall n :: n in r ==> r[n] == reg[n]
  {
    map n | n in names :: reg[n]
  }

  /** The registry entries whose names are not skipped. */
  function Without(reg: Registry, skip: set<string>): (r: Registry)
    ensures r.Keys == reg.Keys - skip
    ensures forall n :: n in r ==> r[n] == reg[n]
  {
    map n | n in reg && n !in skip :: reg[n]
  }

  /**
   * The globally enabled checkers: `enabled` and `disabled` together fail; an
   * `enabled` name missing from the registry fails naming it; otherwise the
   * registry without the `disabled` names, or the whole registry when there is
   * no `disabled` list (an `enabled` list is then only validated).
   */
  function EnabledTable(enabled: Option<seq<string>>, disabled: Option<seq<string>>, reg: Registry): (r: Result<Registry, string>)
    ensures enabled.Some? && disabled.Some? ==> r == Err(ExclusiveLists)
    ensures r.Err? <==> (enabled.Some? && disabled.Some?) || (enabled.Some? && UnknownName(enabled.value, reg).Some?)
    ensures r.Err? && disabled.None? ==> r.error == "'" + UnknownName(enabled.value, reg).value + "' checker not exist"
    ensures r.Ok? ==> forall n :: n in r.value ==> n in reg && r.value[n] == reg[n]
    ensures r.Ok? && disabled.Some? ==> forall n :: n in reg ==> (n in r.value <==> n !in disabled.value)
    ensures r.Ok? && disabled.None? ==> r.value == reg
  {
    if enabled.Some? && disabled.Some? then Err(ExclusiveLists)
    else match UnknownName(enabled.GetOr([]), reg)
      case Some(n) => Err("'" + n + "' checker not exist")
      case None => Ok(if disabled.Some? then Without(reg, set n | n in disabled.value) else reg)
  }

  /** The path an override entry targets: its package or its file, the repository prefix dropped, joined to the root. */
  function TargetPath(o: OverrideConf, root: string): string {
    Join(root, TrimPrefix(if o.pkg != "" then o.pkg else o.file, RepoPrefix))
  }

  /** An override entry that passes the first three checks: at most one list and exactly one target. */
  predicate Targeted(o: OverrideConf) {
    !(o.enabled.Some? && o.disabled.Some?) && (o.pkg == "") != (o.file == "")
  }

  /**
   * One override entry, checked in the source's order: both lists, both
   * targets, no target, a missing path, an unknown `enabled` name (with an
   * empty message). It yields its path and either exactly its `enabled`
   * checkers or the registry without its `disabled` ones.
   */
  function OverrideEntry(o: OverrideConf, reg: Registry, root: string, present: set<string>): (r: Result<(string, Registry), string>)
    ensures o.enabled.Some? && o.disabled.Some? ==> r == Err(ExclusiveLists)
    ensures !(o.enabled.Some? && o.disabled.Some?) && o.pkg != "" && o.file != "" ==> r == Err(ExclusiveTargets)
    ensures !(o.enabled.Some? && o.disabled.Some?) && o.pkg == "" && o.file == "" ==> r == Err(MissingTarget)
    ensures Targeted(o) && TargetPath(o, root) !in present ==> r == Err(MissingPath)
    ensures Targeted(o) && TargetPath(o, root) in present && o.enabled.Some? && UnknownName(o.enabled.value, reg).Some? ==>
      r == Err("")
    ensures r.Ok? <==>
      && !(o.enabled.Some? && o.disabled.Some?)
      && (o.pkg == "") != (o.file == "")
      && TargetPath(o, root) in present
      && (o.enabled.Some? ==> forall k :: 0 <= k < |o.enabled.value| ==> o.enabled.value[k] in reg)
    ensures r.Ok? ==> r.value.0 == TargetPath(o, root)
    ensures r.Ok? ==> forall n :: n in r.value.1 ==> n in reg && r.value.1[n] == reg[n]
    ensures r.Ok? && o.enabled.Some? ==> forall n :: n in r.value.1 <==> n in o.enabled.value
    ensures r.Ok? && o.enabled.None? ==> forall n :: n in reg ==> (n in r.value.1 <==> n !in o.disabled.GetOr([]))
  {
    if o.enabled.Some? && o.disabled.Some? then Err(ExclusiveLists)
    else if o.pkg != "" && o.file != "" then Err(ExclusiveTargets)
    else if o.pkg == "" && o.file == "" then Err(MissingTarget)
    else
      var path := TargetPath(o, root);
      if path !in present then Err(MissingPath)
      else if o.enabled.Some? then
        if UnknownName(o.enabled.value, reg).Some? then Err("")
        else Ok((path, Select(reg, o.enabled.value)))
      else Ok((path, Without(reg, set n | n in o.disabled.GetOr([]))))
  }

  /** The override table filled from `acc`, entry by entry; a later entry for the same path replaces an earlier one. */
  function OverrideFrom(acc: map<string, Registry>, entries: seq<OverrideConf>, reg: Registry, root: string, present: set<string>): Filled<map<string, Registry>>
    decreases |entries|
  {
    if entries == [] then Filled(acc, None)
    else match OverrideEntry(entries[0], reg, root, present)
      case Err(e) => Filled(acc, Some(e))
      case Ok(entry) => OverrideFrom(acc[entry.0 := entry.1], entries[1..], reg, root, present)
  }

  /** Filling from `a + b` is filling from `a`, then, unless that failed, from `b`. */
  lemma {:induction false} OverrideAppend(acc: map<string, Registry>, a: seq<OverrideConf>, b: seq<OverrideConf>, reg: Registry, root: string, present: set<string>)
    ensures OverrideFrom(acc, a + b, reg, root, present) ==
      var f := OverrideFrom(acc, a, reg, root, present);
      if f.err.Some? then f else OverrideFrom(f.table, b, reg, root, present)
    decreases |a|
  {
    if a != [] {
      assert (a + b)[0] == a[0] && (a + b)[1..] == a[1..] + b;
      var r := OverrideEntry(a[0], reg, root, present);
      if r.Ok? {
        OverrideAppend(acc[r.value.0 := r.value.1], a[1..], b, reg, root, present);
      }
    } else {
      assert a + b == b;
    }
  }

  /** The first bad entry stops the fill with its own error; the table then holds what the entries before it wrote. */
  lemma OverrideFirstError(acc: map<string, Registry>, entries: seq<OverrideConf>, reg: Registry, root: string, present: set<string>, i: nat)
    requires i < |entries| && OverrideFrom(acc, entries[..i], reg, root, present).err.None?
    requires OverrideEntry(entries[i], reg, root, present).Err?
    ensures OverrideFrom(acc, entries, reg, root, present) ==
      Filled(OverrideFrom(acc, entries[..i], reg, root, present).table, Some(OverrideEntry(entries[i], reg, root, present).error))
  {
    assert entries == entries[..i] + entries[i..];
    OverrideAppend(acc, entries[..i], entries[i..], reg, root, present);
    assert entries[i..][0] == entries[i];
  }

  /** The target paths of the entries. */
  function Targets(entries: seq<OverrideConf>, root: string): set<string> {
    set o | o in entries :: TargetPath(o, root)
  }

  lemma TargetsCons(entries: seq<OverrideConf>, root: string)
    requires entries != []
    ensures Targets(entries, root) == {TargetPath(entries[0], root)} + Targets(entries[1..], root)
  {
    assert entries == [entries[0]] + entries[1..];
    forall p | p in Targets(entries, root) ensures p in {TargetPath(entries[0], root)} + Targets(entries[1..], root) {
      var o :| o in entries && TargetPath(o, root) == p;
    }
  }

  /** The override table is accepted exactly when every entry is. */
  lemma {:induction false} OverrideSucceeds(acc: map<string, Registry>, entries: seq<OverrideConf>, reg: Registry, root: string, present: set<string>)
    ensures OverrideFrom(acc, entries, reg, root, present).err.None? <==>
      forall i :: 0 <= i < |entries| ==> OverrideEntry(entries[i], reg, root, present).Ok?
    decreases |entries|
  {
    if entries != [] {
      var rest := entries[1..];
      var r := OverrideEntry(entries[0], reg, root, present);
      if r.Ok? {
        var acc' := acc[r.value.0 := r.value.1];
        OverrideSucceeds(acc', rest, reg, root, present);
        assert OverrideFrom(acc, entries, reg, root, present) == OverrideFrom(acc', rest, reg, root, present);
        assert (forall i :: 0 <= i < |rest| ==> OverrideEntry(rest[i], reg, root, present).Ok?) ==>
          forall i :: 0 <= i < |entries| ==> OverrideEntry(entries[i], reg, root, present).Ok?
        by {
          forall i | 0 < i < |entries| ensures entries[i] == rest[i - 1] { }
        }
      } else {
        assert OverrideFrom(acc, entries, reg, root, present).err.Some?;
      }
    }
  }

  /** An accepted override table holds the paths of `acc` and of the entries, and keeps the paths no entry targets. */
  lemma {:induction false} OverrideKeys(acc: map<string, Registry>, entries: seq<OverrideConf>, reg: Registry, root: string, present: set<string>)
    requires forall i :: 0 <= i < |entries| ==> OverrideEntry(entries[i], reg, root, present).Ok?
    ensures OverrideFrom(acc, entries, reg, root, present).table.Keys == acc.Keys + Targets(entries, root)
    ensures forall p :: p in acc && p !in Targets(entries, root) ==> OverrideFrom(acc, entries, reg, root, present).table[p] == acc[p]
    decreases |entries|
  {
    if entries != [] {
      var rest := entries[1..];
      var r := OverrideEntry(entries[0], reg, root, present);
      assert forall i :: 0 <= i < |rest| ==> rest[i] == entries[i + 1];
      OverrideKeys(acc[r.value.0 := r.value.1], rest, reg, root, present);
      TargetsCons(entries, root);
    }
  }

  /**
   * An accepted override table maps each target path to the checker set of the
   * LAST entry with that path.
   */
  lemma {:induction false} OverrideLastWins(acc: map<string, Registry>, entries: seq<OverrideConf>, reg: Registry, root: string, present: set<string>)
    requires forall i :: 0 <= i < |entries| ==> OverrideEntry(entries[i], reg, root, present).Ok?
    ensures forall i :: 0 <= i < |entries| && TargetPath(entries[i], root) !in Targets(entries[i + 1..], root) ==>
      && TargetPath(entries[i], root) in OverrideFrom(acc, entries, reg, root, present).table
      && OverrideFrom(acc, entries, reg, root, present).table[TargetPath(entries[i], root)] == OverrideEntry(entries[i], reg, root, present).value.1
    decreases |entries|
  {
    if entries != [] {
      var rest := entries[1..];
      var r := OverrideEntry(entries[0], reg, root, present);
      var acc' := acc[r.value.0 := r.value.1];
      assert forall i :: 0 <= i < |rest| ==> rest[i] == entries[i + 1];
      OverrideLastWins(acc', rest, reg, root, present);
      OverrideKeys(acc', rest, reg, root, present);
      forall i | 0 <= i < |entries| && TargetPath(entries[i], root) !in Targets(entries[i + 1..], root)
        ensures TargetPath(entries[i], root) in OverrideFrom(acc, entries, reg, root, present).table
        ensures OverrideFrom(acc, entries, reg, root, present).table[TargetPath(entries[i], root)] == OverrideEntry(entries[i], reg, root, present).value.1
      {
        if i > 0 {
          assert entries[i + 1..] == rest[i..];
        }
      }
    }
  }
}
