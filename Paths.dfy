/**
 * The parts of Go's `strings` and `path/filepath` packages that the core uses,
 * for a Unix file system ('/' is the only separator and there are no volume names).
 * Go strings are byte strings; a `char` here stands for one byte.
 */
module Paths {

  predicate HasPrefix(s: string, prefix: string) {
    |prefix| <= |s| && s[..|prefix|] == prefix
  }

  predicate HasSuffix(s: string, suffix: string) {
    |suffix| <= |s| && s[|s| - |suffix|..] == suffix
  }

  predicate NoSlash(s: string) {
    forall k :: 0 <= k < |s| ==> s[k] != '/'
  }

  /** strings.TrimPrefix: drops one leading occurrence of `prefix`, if there is one. */
  function TrimPrefix(s: string, prefix: string): (r: string)
    ensures HasPrefix(s, prefix) ==> prefix + r == s
    ensures !HasPrefix(s, prefix) ==> r == s
  {
    if HasPrefix(s, prefix) then s[|prefix|..] else s
  }

  /** filepath.IsAbs on Unix. */
  predicate IsAbs(path: string) {
    HasPrefix(path, "/")
  }

  /** Index of the last '/' in `s`, or -1. */
  function LastSlash(s: string): (i: int)
    ensures -1 <= i < |s|
    ensures i >= 0 ==> s[i] == '/'
    decreases |s|
  {
    if s == [] then -1
    else if s[|s| - 1] == '/' then |s| - 1
    else LastSlash(s[..|s| - 1])
  }

  /** No '/' follows the one LastSlash finds. */
  lemma {:induction false} LastSlashIsLast(s: string)
    ensures forall k :: LastSlash(s) < k < |s| ==> s[k] != '/'
    decreases |s|
  {
    if s != [] && s[|s| - 1] != '/' {
      LastSlashIsLast(s[..|s| - 1]);
    }
  }

  /** A name a directory listing can give: non-empty, not "." or "..", free of '/'. */
  predicate IsElement(name: string) {
    name != "" && name != "." && name != ".." && NoSlash(name)
  }

  /** The '/'-separated elements of a path, empty ones included ("a//b" has three). */
  function Split(s: string): (elems: seq<string>)
    ensures elems != []
    decreases |s|
  {
    var i := LastSlash(s);
    if i < 0 then [s] else Split(s[..i]) + [s[i + 1..]]
  }

  /**
   * One element of Clean's pass over a path: empty and "." elements vanish,
   * ".." removes the element before it when there is one that is not itself
   * "..", is dropped at the root of a rooted path and is kept otherwise.
   */
  function Push(kept: seq<string>, e: string, rooted: bool): seq<string> {
    if e == "" || e == "." then kept
    else if e != ".." then kept + [e]
    else if kept != [] && kept[|kept| - 1] != ".." then kept[..|kept| - 1]
    else if rooted then kept
    else kept + [".."]
  }

  /** The elements Clean keeps of a path's elements, none of them empty or ".". */
  function Normal(elems: seq<string>, rooted: bool): (kept: seq<string>)
    ensures forall k :: 0 <= k < |kept| ==> kept[k] != "" && kept[k] != "."
    decreases |elems|
  {
    if elems == [] then []
    else Push(Normal(elems[..|elems| - 1], rooted), elems[|elems| - 1], rooted)
  }

  /** strings.Join(elems, "/"). */
  function Unsplit(elems: seq<string>): (s: string)
    ensures elems != [] && elems[|elems| - 1] != "" ==> s != ""
    ensures |elems| == 1 ==> s == elems[0]
    ensures |elems| > 1 && elems[|elems| - 1] != "" ==> |s| >= 2
    decreases |elems|
  {
    if elems == [] then ""
    else if |elems| == 1 then elems[0]
    else Unsplit(elems[..|elems| - 1]) + "/" + elems[|elems| - 1]
  }

  /** The path Clean writes for the kept elements: '/'-led when rooted, "." when nothing is left. */
  function Spell(kept: seq<string>, rooted: bool): (r: string)
    requires forall k :: 0 <= k < |kept| ==> kept[k] != "" && kept[k] != "."
    ensures r != ""
    ensures kept == [] ==> r == (if rooted then "/" else ".")
    ensures kept != [] ==> r != "." && (rooted ==> r != "/")
  {
    var body := Unsplit(kept);
    if rooted then "/" + body else if body == "" then "." else body
  }

  /**
   * filepath.Clean: repeated separators, "." elements and ".." elements
   * together with the element they cancel are removed; "." for an empty result.
   */
  function Clean(path: string): (r: string)
    ensures r != ""
  {
    if path == "" then "."
    else Spell(Normal(Split(path), path[0] == '/'), path[0] == '/')
  }

  /**
   * filepath.Join of two elements: the elements from the first non-empty one
   * on, separated by '/', then cleaned; "" when both are empty.
   */
  function Join(dir: string, name: string): string {
    if dir != "" then Clean(dir + "/" + name)
    else if name != "" then Clean(name)
    else ""
  }

  /** Keeping one more listed name writes it after the path kept so far. */
  lemma SpellSnoc(kept: seq<string>, name: string, rooted: bool)
    requires forall k :: 0 <= k < |kept| ==> kept[k] != "" && kept[k] != "."
    requires IsElement(name)
    ensures Push(kept, name, rooted) == kept + [name]
    ensures Spell(kept + [name], rooted) ==
      if kept == [] then (if rooted then "/" + name else name) else Spell(kept, rooted) + "/" + name
  {
    var longer := kept + [name];
    assert longer[..|kept|] == kept && longer[|kept|] == name;
    assert forall k :: 0 <= k < |longer| ==> longer[k] != "" && longer[k] != "." by {
      forall k | 0 <= k < |longer| ensures longer[k] != "" && longer[k] != "." {
        if k < |kept| { assert longer[k] == kept[k]; }
      }
    }
    if kept != [] {
      var u := Unsplit(kept);
      assert Unsplit(longer) == u + "/" + name;
      if rooted {
        assert "/" + (u + "/" + name) == "/" + u + "/" + name;
      }
    }
  }

  /** Splitting `a + "/" + e` splits `a`, then adds `e`; the first character is `a`'s. */
  lemma SplitSnoc(a: string, e: string)
    requires NoSlash(e)
    ensures Split(a + "/" + e) == Split(a) + [e]
    ensures a != "" ==> (a + "/" + e)[0] == a[0]
  {
    var p := a + "/" + e;
    assert p[|a|] == '/';
    assert forall k :: |a| < k < |p| ==> p[k] == e[k - |a| - 1];
    LastSlashIsLast(p);
    assert LastSlash(p) == |a|;
    assert p[..|a|] == a && p[|a| + 1..] == e;
  }

  /** Cleaning `a + "/" + e` is Clean's pass over `a`, then one more element. */
  lemma CleanSnoc(a: string, e: string)
    requires a != "" && NoSlash(e)
    ensures Normal(Split(a + "/" + e), a[0] == '/') == Push(Normal(Split(a), a[0] == '/'), e, a[0] == '/')
    ensures Clean(a + "/" + e) == Spell(Push(Normal(Split(a), a[0] == '/'), e, a[0] == '/'), a[0] == '/')
  {
    SplitSnoc(a, e);
    var es := Split(a);
    assert (es + [e])[..|es|] == es;
  }

  /** A listed name is already clean. */
  lemma CleanElement(name: string)
    requires IsElement(name)
    ensures Clean(name) == name
  {
    LastSlashIsLast(name);
    assert LastSlash(name) == -1;
    assert Split(name) == [name];
    assert [name][..0] == [];
    assert Normal([name], false) == [name];
  }

  /**
   * Joining a clean directory and a listed name: the directory, one '/', then
   * the name, except that "/" needs no separator and "." is dropped.
   */
  lemma JoinParts(dir: string, name: string)
    requires dir != "" && Clean(dir) == dir && IsElement(name)
    ensures Join(dir, name) == if dir == "/" then "/" + name else if dir == "." then name else dir + "/" + name
  {
    var rooted := dir[0] == '/';
    var kept := Normal(Split(dir), rooted);
    CleanSnoc(dir, name);
    SpellSnoc(kept, name, rooted);
  }

  /** A listed name joined to a clean directory gives a clean path, so a walk from a clean root stays clean. */
  lemma JoinIsClean(dir: string, name: string)
    requires dir != "" && Clean(dir) == dir && IsElement(name)
    ensures Clean(Join(dir, name)) == Join(dir, name)
  {
    JoinParts(dir, name);
    if dir == "/" {
      SplitSnoc("", name);
      assert "" + "/" + name == "/" + name;
      assert Split("") == [""];
      assert ([""] + [name])[..1] == [""];
      assert Normal([""], true) == [];
    } else if dir == "." {
      CleanElement(name);
    }
  }

  /** Appending an empty or "." element to a non-empty path leaves Clean's pass unchanged. */
  lemma NormalSkips(a: string, e: string)
    requires a != "" && (e == "" || e == ".")
    ensures Normal(Split(a + "/" + e), a[0] == '/') == Normal(Split(a), a[0] == '/')
    ensures a + "/" + e != "" && (a + "/" + e)[0] == a[0]
  {
    CleanSnoc(a, e);
  }

  /** A leading '/' on a listed name does not change where Join puts it. */
  lemma JoinLeadingSlash(dir: string, name: string)
    requires dir != "" && IsElement(name)
    ensures Join(dir, "/" + name) == Join(dir, name)
  {
    var rooted := dir[0] == '/';
    var kept := Normal(Split(dir), rooted);
    var a := dir + "/" + "";
    var p := dir + "/" + ("/" + name);
    assert p == a + "/" + name;
    assert Join(dir, "/" + name) == Clean(p);
    assert Clean(a + "/" + name) == Spell(Push(kept, name, rooted), rooted) by {
      NormalSkips(dir, "");
      CleanSnoc(a, name);
    }
    assert Join(dir, name) == Spell(Push(kept, name, rooted), rooted) by {
      CleanSnoc(dir, name);
    }
  }

  /** A leading "./" on a listed name does not change where Join puts it. */
  lemma JoinLeadingDot(dir: string, name: string)
    requires dir != "" && IsElement(name)
    ensures Join(dir, "./" + name) == Join(dir, name)
  {
    var rooted := dir[0] == '/';
    var kept := Normal(Split(dir), rooted);
    var b := dir + "/" + ".";
    var p := dir + "/" + ("./" + name);
    assert p == b + "/" + name;
    assert Join(dir, "./" + name) == Clean(p);
    assert Clean(b + "/" + name) == Spell(Push(kept, name, rooted), rooted) by {
      NormalSkips(dir, ".");
      CleanSnoc(b, name);
    }
    assert Join(dir, name) == Spell(Push(kept, name, rooted), rooted) by {
      CleanSnoc(dir, name);
    }
  }

  /** A trailing '/' on a listed name does not change where Join puts it. */
  lemma JoinTrailingSlash(dir: string, name: string)
    requires dir != "" && IsElement(name)
    ensures Join(dir, name + "/") == Join(dir, name)
  {
    var c := dir + "/" + name;
    NormalSkips(c, "");
    assert dir + "/" + (name + "/") == c + "/" + "";
  }

  /** `s` without its trailing slashes. */
  function TrimTrailingSlashes(s: string): (r: string)
    ensures HasPrefix(s, r)
    ensures r == [] || r[|r| - 1] != '/'
    ensures |s| > 0 && s[|s| - 1] != '/' ==> r == s
    decreases |s|
  {
    if s != [] && s[|s| - 1] == '/' then TrimTrailingSlashes(s[..|s| - 1]) else s
  }

  /** filepath.Base: the last element of the path; "." for "", "/" for a path of slashes only. */
  function Base(path: string): (r: string)
    ensures r != []
    ensures NoSlash(r) || r == "/"
  {
    if path == "" then "."
    else
      var q := TrimTrailingSlashes(path);
      LastSlashIsLast(q);
      var b := q[LastSlash(q) + 1..];
      if b == "" then "/" else b
  }

  /**
   * filepath.Ext: the suffix of the last element that starts at its final '.',
   * or "" when that element has no '.'.
   */
  function Ext(path: string): (r: string)
    ensures r == "" || (HasSuffix(path, r) && r[0] == '.' && NoSlash(r))
    decreases |path|
  {
    if path == [] then ""
    else
      var last := path[|path| - 1];
      if last == '/' then ""
      else if last == '.' then "."
      else
        var e := Ext(path[..|path| - 1]);
        if e == "" then "" else e + [last]
  }

  /** filepath.Dir: the path up to and including its last '/', cleaned ("." when there is no '/'). */
  function Dir(path: string): (r: string)
    ensures r != []
  {
    Clean(path[..LastSlash(path) + 1])
  }

  /** The base name of a path that ends in '/' + `name`, or is `name`, is `name`. */
  lemma BaseOfTail(pre: string, name: string)
    requires (pre == "" || pre[|pre| - 1] == '/') && name != "" && NoSlash(name)
    ensures Base(pre + name) == name
  {
    var p := pre + name;
    assert TrimTrailingSlashes(p) == p;
    assert forall k :: |pre| <= k < |p| ==> p[k] == name[k - |pre|];
    if pre != "" {
      assert p[|pre| - 1] == '/';
    }
    LastSlashIsLast(p);
    assert LastSlash(p) == |pre| - 1;
    assert p[|pre|..] == name;
  }

  /** The base name of a listed name's joined path is the name itself, whatever the directory. */
  lemma BaseOfJoin(dir: string, name: string)
    requires IsElement(name)
    ensures Base(Join(dir, name)) == name
  {
    if dir == "" {
      CleanElement(name);
      BaseOfTail("", name);
    } else {
      var rooted := dir[0] == '/';
      var kept := Normal(Split(dir), rooted);
      CleanSnoc(dir, name);
      SpellSnoc(kept, name, rooted);
      if kept == [] {
        if rooted {
          BaseOfTail("/", name);
        } else {
          BaseOfTail("", name);
        }
      } else {
        var r := Spell(kept, rooted);
        BaseOfTail(r + "/", name);
      }
    }
  }

  /** The directory of `pre + "/" + name` is `pre + "/"` cleaned. */
  lemma DirOfTail(pre: string, name: string)
    requires NoSlash(name)
    ensures Dir(pre + "/" + name) == Clean(pre + "/")
  {
    var p := pre + "/" + name;
    assert p[|pre|] == '/';
    assert forall k :: |pre| < k < |p| ==> p[k] == name[k - |pre| - 1];
    LastSlashIsLast(p);
    assert LastSlash(p) == |pre|;
    assert p[..|pre| + 1] == pre + "/";
  }

  /** A non-empty path with a trailing '/' cleans as the path does. */
  lemma CleanTrailingSlash(a: string)
    requires a != ""
    ensures Clean(a + "/") == Clean(a)
  {
    NormalSkips(a, "");
    assert a + "/" + "" == a + "/";
  }

  /** The root is clean. */
  lemma CleanRoot()
    ensures Clean("/") == "/"
  {
    SplitSnoc("", "");
    assert "" + "/" + "" == "/";
    assert Split("") == [""];
    assert Split("/") == ["", ""];
    assert ["", ""][..1] == [""] && [""][..0] == [];
    assert Normal([""], true) == [];
    assert Normal(["", ""], true) == [];
  }

  /** A listed name's joined path lies in the (clean) directory that was walked. */
  lemma DirOfJoin(dir: string, name: string)
    requires dir != "" && Clean(dir) == dir && IsElement(name)
    ensures Dir(Join(dir, name)) == dir
  {
    JoinParts(dir, name);
    if dir == "/" {
      assert Dir("/" + name) == "/" by {
        DirOfTail("", name);
        assert "" + "/" + name == "/" + name;
        CleanRoot();
      }
    } else if dir == "." {
      assert Dir(name) == "." by {
        LastSlashIsLast(name);
        assert name[..0] == "";
      }
    } else {
      assert Dir(dir + "/" + name) == dir by {
        DirOfTail(dir, name);
        CleanTrailingSlash(dir);
      }
    }
  }

  /** filepath.Ext(p) == ".go" exactly when `p` ends in ".go". */
  lemma {:induction false} ExtIsGo(path: string)
    ensures Ext(path) == ".go" <==> HasSuffix(path, ".go")
  {
    if HasSuffix(path, ".go") {
      var p1 := path[..|path| - 1];
      var p2 := p1[..|p1| - 1];
      assert p2[|p2| - 1] == '.';
      assert Ext(p2) == ".";
      assert Ext(p1) == ".g";
    }
  }
}
