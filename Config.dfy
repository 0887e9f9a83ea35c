/**
 * The configuration object of config/config.go: parse runs four stages that
 * fill the fields in place and stop at the first error. Each stage is proved
 * to leave exactly the state that the policy functions of module Policy
 * describe.
 */
module Config {
  import opened Wrappers
  import opened Paths
  import GoMod
  import opened Goastch
  import opened Policy

  class Config {
    var Choke: int
    var Root: string
    var Path: string
    var ModulePath: string
    var Enabled: Registry
    var Ignored: set<string>
    var Override: map<string, Registry>
    var Checkers: Registry

    /** A configuration whose tables are all empty; `root` is where override targets are resolved. */
    constructor (root: string)
      ensures Root == root && Choke == 0 && Path == "" && ModulePath == ""
      ensures Enabled == map[] && Ignored == {} && Override == map[] && Checkers == map[]
    {
      Root := root;
      Choke := 0;
      Path := "";
      ModulePath := "";
      Enabled := map[];
      Ignored := {};
      Override := map[];
      Checkers := map[];
    }

    /** The policy as resolved so far. */
    function Policy(): Table
      reads this
    {
      Table(Ignored, Enabled, Override)
    }

    /**
     * parseBasic: the choke limit is always stored; a failed module-path lookup
     * returns before the working directory and module path are stored; a failed
     * registration returns before the registry is stored.
     */
    method ParseBasic(raw: RawConfig, env: Env, comp: Compiler) returns (err: Option<string>)
      requires env.goModule != "off" && env.goMod.Some? ==> GoMod.Readable(env.goMod.value)
      modifies this
      ensures Choke == raw.choke
      ensures Root == old(Root) && Enabled == old(Enabled) && Ignored == old(Ignored) && Override == old(Override)
      ensures SelectModulePath(env.goModule, env.goMod).Err? ==>
        err == Some(NoGoMod) && Path == old(Path) && ModulePath == old(ModulePath) && Checkers == old(Checkers)
      ensures SelectModulePath(env.goModule, env.goMod).Ok? ==>
        && Path == env.wd
        && ModulePath == SelectModulePath(env.goModule, env.goMod).value
        && (match Register(map[], raw.checkers, comp)
            case Err(e) => err == Some(e) && Checkers == old(Checkers)
            case Ok(reg) => err == None && Checkers == reg)
    {
      Choke := raw.choke;
      var mpath: string;
      if env.goModule == "on" {
        if env.goMod.None? {
          return Some(NoGoMod);
        }
        mpath := ToString(GoMod.ModulePath(env.goMod.value));
      } else if env.goModule == "off" {
        mpath := "";
      } else if env.goMod.Some? {
        mpath := ToString(GoMod.ModulePath(env.goMod.value));
      } else {
        mpath := "";
      }
      ModulePath := mpath;
      Path := env.wd;

      var checkers: Registry := map[];
      for i := 0 to |raw.checkers|
        invariant Register(checkers, raw.checkers[i..], comp) == Register(map[], raw.checkers, comp)
      {
        var conf := raw.checkers[i];
        assert raw.checkers[i..][0] == conf && raw.checkers[i..][1..] == raw.checkers[i + 1..];
        if conf.name in checkers {
          return Some(DuplicateChecker);
        }
        var node := comp.parse(conf.goastch);
        if node.Err? {
          return Some(node.error);
        }
        var ger := comp.gen(node.value);
        if ger.Err? {
          return Some(ger.error);
        }
        checkers := checkers[conf.name := Checker(ger.value, conf.message)];
      }
      Checkers := checkers;
      return None;
    }

    /** parseIgnored: the ignore set is cleared, then filled path by path until the first bad path. */
    method ParseIgnored(paths: seq<string>, present: set<string>) returns (err: Option<string>)
      modifies this`Ignored
      ensures Filled(Ignored, err) == IgnoreFrom({}, paths, ModulePath, Path, present)
    {
      Ignored := {};
      for i := 0 to |paths|
        invariant IgnoreFrom(Ignored, paths[i..], ModulePath, Path, present) == IgnoreFrom({}, paths, ModulePath, Path, present)
      {
        var path := paths[i];
        assert paths[i..][0] == path && paths[i..][1..] == paths[i + 1..];
        if IsAbs(path) {
          return Some(path);
        }
        var subPath := TrimPrefix(path, ModulePath);
        var absPath := Join(Path, subPath);
        if absPath !in present {
          return Some(FileMissingPrefix + absPath);
        }
        Ignored := Ignored + {absPath};
      }
      return None;
    }

    /**
     * The registered checkers with the given names, in a fresh table; the
     * first name that is not registered, if any.
     */
    method Pick(names: seq<string>) returns (picked: Registry, missing: Option<string>)
      ensures missing == UnknownName(names, Checkers)
      ensures missing.None? ==> picked == Select(Checkers, names)
    {
      picked := map[];
      for i := 0 to |names|
        invariant forall k :: 0 <= k < i ==> names[k] in Checkers
        invariant picked == Select(Checkers, names[..i])
      {
        var name := names[i];
        if name !in Checkers {
          var r := UnknownName(names, Checkers);
          assert r.Some?;
          var k :| 0 <= k < |names| && names[k] == r.value && r.value !in Checkers && forall j :: 0 <= j < k ==> names[j] in Checkers;
          assert k == i;
          return picked, Some(name);
        }
        assert names[..i + 1] == names[..i] + [name];
        picked := picked[name := Checkers[name]];
      }
      assert names[..|names|] == names;
      return picked, None;
    }

    /** `into`, with every registered checker whose name is not skipped added to it. */
    method Merge(into: Registry, skip: set<string>) returns (merged: Registry)
      ensures merged == into + Without(Checkers, skip)
    {
      merged := into;
      var rest := Checkers.Keys;
      while rest != {}
        invariant rest <= Checkers.Keys
        invariant merged.Keys == into.Keys + (Checkers.Keys - skip - rest)
        invariant forall n :: n in merged ==> merged[n] == if n in Checkers && n !in skip && n !in rest then Checkers[n] else into[n]
        decreases rest
      {
        var name :| name in rest;
        rest := rest - {name};
        if name !in skip {
          merged := merged[name := Checkers[name]];
        }
      }
      assert rest == {};
    }

    /**
     * parseEnabled: the global checker table, stored only when both lists are
     * not given together and every `enabled` name is registered.
     */
    method ParseEnabled(enabled: Option<seq<string>>, disabled: Option<seq<string>>) returns (err: Option<string>)
      modifies this`Enabled
      ensures match EnabledTable(enabled, disabled, Checkers)
        case Err(e) => err == Some(e) && Enabled == old(Enabled)
        case Ok(t) => err == None && Enabled == t
    {
      if enabled.Some? && disabled.Some? {
        return Some(ExclusiveLists);
      }
      var picked, missing := Pick(enabled.GetOr([]));
      if missing.Some? {
        return Some("'" + missing.value + "' checker not exist");
      }
      var table: Registry;
      if disabled.Some? {
        table := Merge(picked, set n | n in disabled.value);
        assert picked == map[];
        assert map[] + Without(Checkers, set n | n in disabled.value) == Without(Checkers, set n | n in disabled.value);
      } else {
        table := Merge(picked, {});
        assert table == Checkers;
      }
      Enabled := table;
      return None;
    }

    /**
     * parseOverride: entry by entry, each accepted entry stores its checker
     * table under its target path, until the first bad entry.
     */
    method ParseOverride(entries: seq<OverrideConf>, present: set<string>) returns (err: Option<string>)
      modifies this`Override
      ensures Filled(Override, err) == OverrideFrom(old(Override), entries, Checkers, Root, present)
    {
      for i := 0 to |entries|
        invariant OverrideFrom(Override, entries[i..], Checkers, Root, present) == OverrideFrom(old(Override), entries, Checkers, Root, present)
      {
        var check := entries[i];
        assert entries[i..][0] == check && entries[i..][1..] == entries[i + 1..];
        if check.enabled.Some? && check.disabled.Some? {
          return Some(ExclusiveLists);
        }
        if check.pkg != "" && check.file != "" {
          return Some(ExclusiveTargets);
        }
        var fname := "";
        if check.pkg != "" {
          fname := check.pkg;
        } else if check.file != "" {
          fname := check.file;
        } else {
          return Some(MissingTarget);
        }
        var p := TrimPrefix(fname, RepoPrefix);
        var path := Join(Root, p);
        if path !in present {
          return Some(MissingPath);
        }
        var enabled: Registry;
        if check.enabled.Some? {
          var missing;
          enabled, missing := Pick(check.enabled.value);
          if missing.Some? {
            return Some("");
          }
        } else {
          enabled := Merge(map[], set n | n in check.disabled.GetOr([]));
          assert map[] + Without(Checkers, set n | n in check.disabled.GetOr([])) == Without(Checkers, set n | n in check.disabled.GetOr([]));
        }
        Override := Override[path := enabled];
      }
      return None;
    }

    /**
     * parse: the four stages in order, each run only when the ones before it
     * succeeded; the error is the first stage's error.
     */
    method Parse(raw: RawConfig, env: Env, comp: Compiler) returns (err: Option<string>)
      requires env.goModule != "off" && env.goMod.Some? ==> GoMod.Readable(env.goMod.value)
      modifies this
      ensures Choke == raw.choke && Root == old(Root)
      ensures SelectModulePath(env.goModule, env.goMod).Err? ==>
        err == Some(NoGoMod) && Policy() == old(Policy()) && Checkers == old(Checkers)
        && Path == old(Path) && ModulePath == old(ModulePath)
      ensures SelectModulePath(env.goModule, env.goMod).Ok? ==>
        && Path == env.wd
        && ModulePath == SelectModulePath(env.goModule, env.goMod).value
        && match Register(map[], raw.checkers, comp)
          case Err(e) => err == Some(e) && Policy() == old(Policy()) && Checkers == old(Checkers)
          case Ok(reg) =>
            && Checkers == reg
            && var ig := IgnoreFrom({}, raw.ignored, ModulePath, Path, env.present);
            && Ignored == ig.table
            && if ig.err.Some? then err == ig.err && Enabled == old(Enabled) && Override == old(Override) else
              match EnabledTable(raw.enabled, raw.disabled, reg)
              case Err(e) => err == Some(e) && Enabled == old(Enabled) && Override == old(Override)
              case Ok(en) =>
                && Enabled == en
                && Filled(Override, err) == OverrideFrom(old(Override), raw.override, reg, Root, env.present)
    {
      err := ParseBasic(raw, env, comp);
      if err.Some? {
        return;
      }
      err := ParseIgnored(raw.ignored, env.present);
      if err.Some? {
        return;
      }
      err := ParseEnabled(raw.enabled, raw.disabled);
      if err.Some? {
        return;
      }
      err := ParseOverride(raw.override, env.present);
    }
  }
}
