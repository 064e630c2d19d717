/**
 * Paths as sequences of names, and the one derivation the synchronizer uses
 * to address the replica: a source-side path is made relative to the source
 * root and the result is appended to the replica root.
 */
module Paths {

  type Name = string

  /** A path is the sequence of names leading to an entry. */
  type Path = seq<Name>

  /** The directory that holds `p` (what Path.GetDirectoryName answers). */
  function Parent(p: Path): (q: Path)
    requires p != []
    ensures q < p && |q| == |p| - 1
  {
    p[..|p| - 1]
  }

  /** `p` is an immediate entry of the directory `dir`. */
  predicate IsChild(dir: Path, p: Path)
  {
    |p| == |dir| + 1 && dir < p
  }

  /** The directory that holds an entry of `dir` is `dir`. */
  lemma ChildParent(dir: Path, p: Path)
    requires IsChild(dir, p)
    ensures Parent(p) == dir
  {
    assert p[..|dir|] == dir;
  }

  /** `p` relative to `root` (what Path.GetRelativePath answers for a path under `root`). */
  function Relative(root: Path, p: Path): (rel: Path)
    requires root <= p
    ensures root + rel == p
    ensures |rel| == |p| - |root|
  {
    p[|root|..]
  }

  /** `rel` resolved against `root` (what Path.Combine answers for a relative `rel`). */
  function Combine(root: Path, rel: Path): (p: Path)
    ensures root <= p
    ensures Relative(root, p) == rel
  {
    root + rel
  }

  /** The replica-side counterpart of the source-side path `p`. */
  function ToReplica(sourceRoot: Path, replicaRoot: Path, p: Path): (dest: Path)
    requires sourceRoot <= p
    ensures replicaRoot <= dest
    ensures |dest| - |replicaRoot| == |p| - |sourceRoot|
  {
    Combine(replicaRoot, Relative(sourceRoot, p))
  }

  /** Mapping a source path to the replica and back gives the path itself. */
  lemma ToReplicaRoundTrip(sourceRoot: Path, replicaRoot: Path, p: Path)
    requires sourceRoot <= p
    ensures Combine(sourceRoot, Relative(replicaRoot, ToReplica(sourceRoot, replicaRoot, p))) == p
  {
  }

  /** Distinct source paths have distinct replica counterparts. */
  lemma ToReplicaInjective(sourceRoot: Path, replicaRoot: Path, p: Path, q: Path)
    requires sourceRoot <= p && sourceRoot <= q
    requires ToReplica(sourceRoot, replicaRoot, p) == ToReplica(sourceRoot, replicaRoot, q)
    ensures p == q
  {
    var rp := Relative(sourceRoot, p);
    var rq := Relative(sourceRoot, q);
    assert rp == Relative(replicaRoot, ToReplica(sourceRoot, replicaRoot, p));
    assert rq == Relative(replicaRoot, ToReplica(sourceRoot, replicaRoot, q));
  }

  /**
   * The directory of a replica-side path is the replica-side counterpart of
   * the directory of the source-side path, so "create the parent of the
   * destination" creates the image of the source parent.
   */
  lemma ToReplicaParent(sourceRoot: Path, replicaRoot: Path, p: Path)
    requires sourceRoot < p
    ensures sourceRoot <= Parent(p)
    ensures Parent(ToReplica(sourceRoot, replicaRoot, p)) == ToReplica(sourceRoot, replicaRoot, Parent(p))
  {
    var rel := Relative(sourceRoot, p);
    assert rel != [];
    assert Parent(p) == sourceRoot + rel[..|rel| - 1];
    assert Relative(sourceRoot, Parent(p)) == rel[..|rel| - 1];
  }

  /**
   * The directory of a combined path, taken relative to the root again, is
   * the directory of the relative path (what creating the destination's
   * directory creates).
   */
  lemma CombineParent(root: Path, rel: Path)
    requires rel != []
    ensures root <= Parent(Combine(root, rel))
    ensures Relative(root, Parent(Combine(root, rel))) == Parent(rel)
  {
    assert Parent(Combine(root, rel)) == root + Parent(rel);
  }

  /** The entry of `dir` through which `q` lies below `dir`. */
  function EntryOf(dir: Path, q: Path): (c: Path)
    requires dir < q
    ensures IsChild(dir, c) && c <= q
  {
    q[..|dir| + 1]
  }

  /** Being below a directory is transitive. */
  lemma PrefixTransitive(a: Path, b: Path, c: Path)
    requires a <= b && b <= c
    ensures a <= c
  {
    assert c[..|a|] == b[..|a|];
  }
}
