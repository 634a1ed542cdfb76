/**
 * Relative file-system paths as sequences of name segments, with the three
 * component-wise operations the targets command uses: startsWith, resolve and
 * subpath.
 */
module Paths {

  /** A relative path, one string per name segment ("a/b/c.txt" is ["a", "b", "c.txt"]). */
  type Path = seq<string>

  /** Component-wise prefix test: "a/bc" does not start with "a/b", "a/b/c" does. */
  predicate StartsWith(p: Path, prefix: Path) {
    prefix <= p
  }

  /** Appends the segments of `other` to `base`. */
  function Resolve(base: Path, other: Path): (r: Path)
    ensures StartsWith(r, base) && r[|base|..] == other
  {
    base + other
  }

  /** The segments of `p` from index `from` (inclusive) to `to` (exclusive). */
  function Subpath(p: Path, from: nat, to: nat): (r: Path)
    requires from <= to <= |p|
    ensures |r| == to - from
    ensures forall i :: 0 <= i < |r| ==> r[i] == p[from + i]
  {
    p[from..to]
  }
}
