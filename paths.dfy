/**
 * The parts of `System.IO.Path` the core uses, with Windows conventions: both `\` and `/`
 * separate directories and `Path.Combine` inserts `\`.
 */
module Paths {
  import opened Text

  const DirectorySeparatorChar: char := '\\'

  predicate IsSeparator(c: char) {
    c == '\\' || c == '/'
  }

  predicate HasNoSeparator(s: string) {
    forall i | 0 <= i < |s| :: !IsSeparator(s[i])
  }

  /** Position of the last directory separator in `path`, or -1. */
  function LastSeparator(path: string): (k: int)
    ensures -1 <= k < |path|
  {
    if |path| == 0 then -1
    else if IsSeparator(path[|path| - 1]) then |path| - 1
    else LastSeparator(path[..|path| - 1])
  }

  /** `LastSeparator` is a separator and none follows it. */
  lemma {:induction false} LastSeparatorFacts(path: string)
    ensures var k := LastSeparator(path);
      && (k >= 0 ==> IsSeparator(path[k]))
      && (forall j | k < j < |path| :: !IsSeparator(path[j]))
  {
    if |path| > 0 && !IsSeparator(path[|path| - 1]) {
      var p := path[..|path| - 1];
      LastSeparatorFacts(p);
      assert forall j | 0 <= j < |p| :: p[j] == path[j];
    }
  }

  /** `Path.GetFileName`: the text after the last separator. */
  function GetFileName(path: string): string {
    path[LastSeparator(path) + 1..]
  }

  /**
   * The file name is a suffix of the path free of separators, preceded by a separator
   * unless it is the whole path; a path without separators is its own file name.
   */
  lemma GetFileNameFacts(path: string)
    ensures |GetFileName(path)| <= |path|
    ensures GetFileName(path) == path[|path| - |GetFileName(path)|..]
    ensures HasNoSeparator(GetFileName(path))
    ensures |GetFileName(path)| < |path| ==> IsSeparator(path[|path| - |GetFileName(path)| - 1])
    ensures HasNoSeparator(path) ==> GetFileName(path) == path
  {
    LastSeparatorFacts(path);
    GetFileNameIsSuffix(path);
    GetFileNameHasNoSeparator(path);
  }

  lemma GetFileNameIsSuffix(path: string)
    ensures |path| - |GetFileName(path)| == LastSeparator(path) + 1
    ensures GetFileName(path) == path[|path| - |GetFileName(path)|..]
  {
  }

  lemma GetFileNameHasNoSeparator(path: string)
    ensures HasNoSeparator(GetFileName(path))
  {
    LastSeparatorFacts(path);
    SuffixHasNoSeparator(path, LastSeparator(path));
  }

  lemma SuffixHasNoSeparator(s: string, k: int)
    requires -1 <= k < |s|
    requires forall j | k < j < |s| :: !IsSeparator(s[j])
    ensures HasNoSeparator(s[k + 1..])
  {
    var r := s[k + 1..];
    forall j | 0 <= j < |r| ensures !IsSeparator(r[j]) {
      assert r[j] == s[k + 1 + j];
    }
  }

  /** A position that holds a separator (or -1) with none after it is the last separator. */
  lemma LastSeparatorIs(path: string, k: int)
    requires -1 <= k < |path|
    requires k >= 0 ==> IsSeparator(path[k])
    requires forall j | k < j < |path| :: !IsSeparator(path[j])
    ensures LastSeparator(path) == k
  {
    LastSeparatorFacts(path);
  }

  /** `Path.GetFileNameWithoutExtension`: the file name cut at its last `.`. */
  function GetFileNameWithoutExtension(path: string): string {
    var name := GetFileName(path);
    var dot := LastIndexOf(name, '.');
    if dot < 0 then name else name[..dot]
  }

  /** The name without extension is the file name, or its part before the last `.`. */
  lemma NoExtensionFacts(path: string)
    ensures var name := GetFileName(path); var r := GetFileNameWithoutExtension(path);
      |r| <= |name| && r == name[..|r|] &&
      (r == name || (name[|r|] == '.' && '.' !in name[|r| + 1..]))
  {
    LastIndexOfFacts(GetFileName(path), '.');
  }

  /**
   * `Path.GetExtension`: from the last `.` of the file name to its end, or empty when the
   * name has no `.` or ends with it.
   */
  function GetExtension(path: string): (r: string)
    ensures var name := GetFileName(path);
      |r| <= |name| && r == name[|name| - |r|..] &&
      (r == [] || (|r| >= 2 && r[0] == '.' && '.' !in r[1..]))
  {
    var name := GetFileName(path);
    var dot := LastIndexOf(name, '.');
    LastIndexOfFacts(name, '.');
    if dot < 0 || dot == |name| - 1 then "" else
      assert name[dot..][1..] == name[dot + 1..];
      name[dot..]
  }

  /**
   * The file name is its stem followed by its extension, except that a trailing `.` is
   * dropped from the stem and absent from the extension.
   */
  lemma StemAndExtension(path: string)
    ensures var name := GetFileName(path);
      if |name| > 0 && name[|name| - 1] == '.' then
        GetFileNameWithoutExtension(path) + "." == name && GetExtension(path) == ""
      else
        GetFileNameWithoutExtension(path) + GetExtension(path) == name
  {
    var name := GetFileName(path);
    var dot := LastIndexOf(name, '.');
    if dot >= 0 && dot < |name| - 1 {
      assert name == name[..dot] + name[dot..];
    }
  }

  /**
   * Inserting text `x` free of dots and separators between the stem and a real extension `e`
   * keeps the extension and extends the stem by `x`.
   */
  lemma {:induction false} InsertBeforeExtension(stem: string, x: string, e: string)
    requires HasNoSeparator(stem) && HasNoSeparator(x) && HasNoSeparator(e)
    requires '.' !in x
    requires |e| >= 2 && e[0] == '.' && '.' !in e[1..]
    ensures GetExtension(stem + x + e) == e
    ensures GetFileNameWithoutExtension(stem + x + e) == stem + x
  {
    var t := stem + x + e;
    ConcatHasNoSeparator(stem, x);
    ConcatHasNoSeparator(stem + x, e);
    GetFileNameFacts(t);
    assert GetFileName(t) == t;
    var d := |stem| + |x|;
    assert t[d] == '.';
    assert t[d + 1..] == e[1..];
    LastIndexOfIs(t, '.', d);
    assert t[..d] == stem + x;
    assert t[d..] == e;
  }

  lemma ConcatHasNoSeparator(a: string, b: string)
    requires HasNoSeparator(a) && HasNoSeparator(b)
    ensures HasNoSeparator(a + b)
  {
    var t := a + b;
    forall i | 0 <= i < |t| ensures !IsSeparator(t[i]) {
      if i < |a| { assert t[i] == a[i]; } else { assert t[i] == b[i - |a|]; }
    }
  }

  /** A slice of a text free of separators is free of them. */
  lemma SliceHasNoSeparator(s: string, i: nat, j: nat)
    requires HasNoSeparator(s) && i <= j <= |s|
    ensures HasNoSeparator(s[i..j])
  {
    assert forall k | 0 <= k < j - i :: s[i..j][k] == s[i + k];
  }

  /** `Path.Combine(directory, name)` for a relative `name`. */
  function Combine(directory: string, name: string): (r: string)
    ensures |r| >= |name| && r[|r| - |name|..] == name
    ensures directory == "" ==> r == name
    ensures directory != "" ==> |r| > |name| && |r| >= |directory| && IsSeparator(r[|r| - |name| - 1]) && r[..|directory|] == directory
  {
    if directory == "" then name
    else if IsSeparator(directory[|directory| - 1]) then directory + name
    else directory + [DirectorySeparatorChar] + name
  }

  /**
   * `Path.Combine(Path.GetDirectoryName(path) ?? "", name)`: the path of a file called `name`
   * in the directory holding `path`.
   */
  function SiblingPath(path: string, name: string): string {
    var k := LastSeparator(path);
    if k < 0 then name else path[..k + 1] + name
  }

  /**
   * The sibling of `path` called `name` (a name free of separators) has file name `name` and
   * shares the directory part of `path`.
   */
  lemma SiblingPathFacts(path: string, name: string)
    requires HasNoSeparator(name)
    ensures GetFileName(SiblingPath(path, name)) == name
    ensures var r := SiblingPath(path, name);
      r[..|r| - |name|] == path[..|path| - |GetFileName(path)|]
  {
    GetFileNameIsSuffix(path);
    var k := LastSeparator(path);
    if k < 0 {
      GetFileNameFacts(name);
    } else {
      LastSeparatorFacts(path);
      SiblingLastSeparator(path[..k + 1], name);
    }
  }

  /** A directory part ending in a separator, followed by a plain name: the separator is the last one. */
  lemma SiblingLastSeparator(dir: string, name: string)
    requires |dir| > 0 && IsSeparator(dir[|dir| - 1]) && HasNoSeparator(name)
    ensures LastSeparator(dir + name) == |dir| - 1
    ensures GetFileName(dir + name) == name
  {
    var r := dir + name;
    assert forall j | |dir| <= j < |r| :: r[j] == name[j - |dir|];
    LastSeparatorIs(r, |dir| - 1);
    assert r[|dir|..] == name;
  }
}
