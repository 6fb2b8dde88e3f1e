/**
 * File paths as strings with "/" as the separator, and the two URL
 * operations the iOS plugin uses on them: `appendingPathComponent` and
 * `lastPathComponent` of a file URL.
 */
module Paths {

  type Path = string

  /** A single path component: not empty and without a separator. */
  predicate IsName(n: string)
  {
    |n| > 0 && '/' !in n
  }

  /** `dir` with `name` appended as one more component. */
  function Join(dir: Path, name: string): (p: Path)
    ensures |p| == |dir| + 1 + |name|
  {
    dir + "/" + name
  }

  /** True when p names an entry directly inside dir. */
  predicate InDirectory(p: Path, dir: Path)
  {
    |p| > |dir| + 1 && p[..|dir| + 1] == dir + "/" && IsName(p[|dir| + 1..])
  }

  function DropTrailingSlashes(p: Path): (t: Path)
    ensures |t| <= |p| && t == p[..|t|]
    ensures t != [] ==> t[|t| - 1] != '/'
  {
    if p != [] && p[|p| - 1] == '/' then DropTrailingSlashes(p[..|p| - 1]) else p
  }

  /** The characters after the last "/" of p (all of p when it has none). */
  function AfterLastSlash(p: Path): (n: string)
    ensures '/' !in n
    ensures |n| <= |p| && n == p[|p| - |n|..]
  {
    if p == [] || p[|p| - 1] == '/' then [] else AfterLastSlash(p[..|p| - 1]) + [p[|p| - 1]]
  }

  /**
   * The last component of a file URL made from p: trailing separators are
   * ignored, and a path made only of separators has "/" as its last component.
   */
  function LastPathComponent(p: Path): (n: string)
    ensures n == "/" || '/' !in n
  {
    var t := DropTrailingSlashes(p);
    if t == [] then (if p == [] then [] else "/") else AfterLastSlash(t)
  }

  lemma {:induction false} AfterLastSlashOfJoin(dir: Path, name: string)
    requires '/' !in name
    ensures AfterLastSlash(dir + "/" + name) == name
    decreases |name|
  {
    if name != [] {
      var p := dir + "/" + name;
      var init := name[..|name| - 1];
      assert p[..|p| - 1] == dir + "/" + init;
      assert '/' !in init by {
        forall i | 0 <= i < |init| ensures init[i] != '/' {
          assert init[i] == name[i];
        }
      }
      AfterLastSlashOfJoin(dir, init);
      assert init + [name[|name| - 1]] == name;
    } else {
      assert (dir + "/" + name)[|dir|] == '/';
    }
  }

  /** The last component of a path that ends in a name is that name. */
  lemma {:induction false} LastPathComponentOfJoin(dir: Path, name: string)
    requires IsName(name)
    ensures LastPathComponent(Join(dir, name)) == name
  {
    var p := Join(dir, name);
    assert p[|p| - 1] == name[|name| - 1];
    assert DropTrailingSlashes(p) == p;
    AfterLastSlashOfJoin(dir, name);
  }

  /** A path has one last separator. */
  lemma LastSlashUnique(p: string, i: int, j: int)
    requires 0 <= i < |p| && 0 <= j < |p| && p[i] == '/' && p[j] == '/'
    requires forall k :: i < k < |p| ==> p[k] != '/'
    requires forall k :: j < k < |p| ==> p[k] != '/'
    ensures i == j
  {
  }

  /** A name joined to a directory is an entry of that directory, and of no other. */
  lemma {:induction false} JoinInDirectory(dir: Path, name: string, other: Path)
    requires IsName(name)
    ensures InDirectory(Join(dir, name), dir)
    ensures InDirectory(Join(dir, name), other) ==> other == dir
  {
    var p := Join(dir, name);
    assert p[..|dir| + 1] == dir + "/";
    assert p[|dir| + 1..] == name;
    if InDirectory(p, other) {
      forall k | |other| < k < |p|
        ensures p[k] != '/'
      {
        assert p[k] == p[|other| + 1..][k - |other| - 1];
      }
      forall k | |dir| < k < |p|
        ensures p[k] != '/'
      {
        assert p[k] == name[k - |dir| - 1];
      }
      LastSlashUnique(p, |other|, |dir|);
      assert other == (other + "/")[..|other|] == p[..|other|];
      assert dir == (dir + "/")[..|dir|] == p[..|dir|];
    }
  }
}
