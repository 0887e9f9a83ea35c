/**
 * The byte-level reader of a `go.mod` text that the configuration uses to find
 * the module path (config/config.go, modulePath), with the two pieces of Go's
 * `bytes` package it relies on: Index and Fields.
 */
module GoMod {
  import opened Wrappers

  newtype byte = b: int | 0 <= b < 256

  /** The bytes of "module". */
  const ModuleWord: seq<byte> := [109, 111, 100, 117, 108, 101]
  /** The byte '\n'. */
  const Newline: seq<byte> := [10]
  /** The byte ' '. */
  const Space: byte := 32

  /** `pat` occurs in `s` at offset `k`. */
  predicate OccursAt(s: seq<byte>, pat: seq<byte>, k: int) {
    0 <= k && k + |pat| <= |s| && s[k..k + |pat|] == pat
  }

  /** bytes.Index: the offset of the first occurrence of `pat` in `s`, or -1. */
  function Index(s: seq<byte>, pat: seq<byte>): (r: int)
    ensures r == -1 || OccursAt(s, pat, r)
    ensures forall k :: 0 <= k && (r == -1 || k < r) ==> !OccursAt(s, pat, k)
    decreases |s|
  {
    if |s| < |pat| then -1
    else if s[..|pat|] == pat then 0
    else
      var k := Index(s[1..], pat);
      assert forall j :: 1 <= j ==> (OccursAt(s, pat, j) <==> OccursAt(s[1..], pat, j - 1)) by {
        forall j | 1 <= j ensures OccursAt(s, pat, j) <==> OccursAt(s[1..], pat, j - 1) {
          if j + |pat| <= |s| {
            assert s[1..][j - 1..j - 1 + |pat|] == s[j..j + |pat|];
          }
        }
      }
      if k < 0 then -1 else k + 1
  }

  /** The ASCII white space that bytes.Fields separates on. */
  predicate IsSpace(b: byte) {
    b == 32 || b == 9 || b == 10 || b == 11 || b == 12 || b == 13
  }

  predicate NoSpace(s: seq<byte>) {
    forall k :: 0 <= k < |s| ==> !IsSpace(s[k])
  }

  /** Length of the run of non-space bytes that starts `s`. */
  function WordLength(s: seq<byte>): (n: nat)
    ensures n <= |s| && NoSpace(s[..n])
    ensures n == |s| || IsSpace(s[n])
    decreases |s|
  {
    if s == [] || IsSpace(s[0]) then 0
    else
      var n := WordLength(s[1..]);
      assert s[..n + 1] == [s[0]] + s[1..][..n];
      n + 1
  }

  /** bytes.Fields: the maximal runs of non-space bytes, in order. */
  function Fields(s: seq<byte>): (fs: seq<seq<byte>>)
    ensures forall i :: 0 <= i < |fs| ==> fs[i] != [] && NoSpace(fs[i])
    decreases |s|
  {
    if s == [] then []
    else if IsSpace(s[0]) then Fields(s[1..])
    else
      var n := WordLength(s);
      [s[..n]] + Fields(s[n..])
  }

  /** The words separated by single spaces: the text Fields reads back. */
  function Unfields(fs: seq<seq<byte>>): seq<byte>
    decreases |fs|
  {
    if fs == [] then [] else if |fs| == 1 then fs[0] else fs[0] + [Space] + Unfields(fs[1..])
  }

  /** A word followed by anything that starts with a space is split after the word. */
  lemma {:induction false} WordLengthOfWord(w: seq<byte>, rest: seq<byte>)
    requires w != [] && NoSpace(w)
    requires rest == [] || IsSpace(rest[0])
    ensures WordLength(w + rest) == |w|
    decreases |w|
  {
    assert (w + rest)[1..] == w[1..] + rest;
    if |w| > 1 {
      WordLengthOfWord(w[1..], rest);
    }
  }

  /** Fields inverts Unfields on non-empty words without white space. */
  lemma {:induction false} FieldsOfUnfields(fs: seq<seq<byte>>)
    requires forall i :: 0 <= i < |fs| ==> fs[i] != [] && NoSpace(fs[i])
    ensures Fields(Unfields(fs)) == fs
    decreases |fs|
  {
    if fs == [] {
    } else if |fs| == 1 {
      var w := fs[0];
      WordLengthOfWord(w, []);
      assert w + [] == w;
      assert w[|w|..] == [];
    } else {
      var w := fs[0];
      var rest := [Space] + Unfields(fs[1..]);
      var s := w + rest;
      assert Unfields(fs) == s;
      WordLengthOfWord(w, rest);
      assert s[..|w|] == w;
      assert s[|w|..] == rest;
      assert rest[1..] == Unfields(fs[1..]);
      FieldsOfUnfields(fs[1..]);
      assert fs == [w] + fs[1..];
    }
  }

  /** The line from the first "module" up to (not including) the next newline, if any. */
  function ModuleLine(mod: seq<byte>): Option<seq<byte>>
  {
    var i := Index(mod, ModuleWord);
    if i < 0 then None
    else
      var bs := mod[i..];
      var j := Index(bs, Newline);
      if j < 0 then None else Some(bs[..j])
  }

  /**
   * The inputs on which modulePath does not index out of range: when a line
   * starting at the first "module" is found, it must hold at least two fields.
   */
  predicate Readable(mod: seq<byte>) {
    match ModuleLine(mod)
    case None => true
    case Some(line) => |Fields(line)| >= 2
  }

  /**
   * config.go's modulePath: the second field of the text between the first
   * "module" and the newline after it, or empty when either is missing.
   */
  function ModulePath(mod: seq<byte>): (r: seq<byte>)
    requires Readable(mod)
    ensures r == [] <==> ModuleLine(mod).None?
    ensures NoSpace(r)
    ensures ModuleLine(mod).Some? ==> r == Fields(ModuleLine(mod).value)[1]
  {
    match ModuleLine(mod)
    case None => []
    case Some(line) => Fields(line)[1]
  }

  /** A go.mod that opens with the `module` directive yields the path it names. */
  lemma ModulePathOfDirective(path: seq<byte>, rest: seq<byte>)
    requires path != [] && NoSpace(path)
    ensures Readable(ModuleWord + [Space] + path + Newline + rest)
    ensures ModulePath(ModuleWord + [Space] + path + Newline + rest) == path
  {
    var line := ModuleWord + [Space] + path;
    var mod := line + Newline + rest;
    assert OccursAt(mod, ModuleWord, 0) by { assert mod[..6] == ModuleWord; }
    assert Index(mod, ModuleWord) == 0;
    assert mod[0..] == mod;
    var n := |line|;
    assert OccursAt(mod, Newline, n) by { assert mod[n..n + 1] == Newline; }
    forall k | 0 <= k < n ensures !OccursAt(mod, Newline, k) {
      assert mod[k..k + 1] == [line[k]];
      if k >= 7 { assert line[k] == path[k - 7]; }
    }
    assert Index(mod, Newline) == n;
    assert mod[..n] == line;
    assert Unfields([ModuleWord, path]) == line;
    FieldsOfUnfields([ModuleWord, path]);
  }
}
