/** Paths of the host filesystem, written as the sequence of their names from the root. */
module Paths {
  type Name = string

  /** An absolute path; `[]` is the root directory. */
  type Path = seq<Name>

  /** `p` is `dir` itself or lies somewhere beneath it. */
  predicate Under(p: Path, dir: Path) {
    |dir| <= |p| && p[..|dir|] == dir
  }

  /** Neither tree contains the other. */
  predicate Disjoint(a: Path, b: Path) {
    !Under(a, b) && !Under(b, a)
  }

  /** `Path.GetDirectoryName`: the folder that holds `p` (the root has none). */
  function Parent(p: Path): (r: Path)
    requires p != []
    ensures |r| == |p| - 1 && Under(p, r)
  {
    p[..|p| - 1]
  }

  /** `Path.Combine(dir, name)`. */
  function Combine(dir: Path, name: Name): (r: Path)
    ensures r != [] && Parent(r) == dir && Under(r, dir) && r[|dir|] == name
  {
    dir + [name]
  }

  lemma UnderTransitive(a: Path, b: Path, c: Path)
    requires Under(a, b) && Under(b, c)
    ensures Under(a, c)
  {
    assert a[..|c|] == a[..|b|][..|c|];
  }

  /** Two folders above the same path are one above the other. */
  lemma UnderComparable(p: Path, a: Path, b: Path)
    requires Under(p, a) && Under(p, b)
    ensures Under(a, b) || Under(b, a)
  {
    if |a| <= |b| {
      assert b[..|a|] == p[..|b|][..|a|];
    } else {
      assert a[..|b|] == p[..|a|][..|b|];
    }
  }

  /** What lies beneath `Combine(dir, n)` lies beneath `dir`, one level down at `n`. */
  lemma UnderChild(p: Path, dir: Path, n: Name)
    requires Under(p, Combine(dir, n))
    ensures Under(p, dir) && |p| > |dir| && p[|dir|] == n
  {
    UnderTransitive(p, Combine(dir, n), dir);
  }
}
