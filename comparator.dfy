/**
 * The content comparator of a full pass: two files have the same content
 * when their lengths agree and, only then, their digests agree. The digest
 * (MD5 in the program) is a parameter; nothing is assumed about it except
 * where a lemma says so.
 */
module Comparator {
  import opened FileSystem

  type Digest = seq<Byte>

  /** A digest algorithm: any function from file bytes to a digest. */
  type Hash = Bytes -> Digest

  /** No two different byte strings of the same length share a digest. */
  ghost predicate CollisionFree(digest: Hash)
  {
    forall a: Bytes, b: Bytes :: |a| == |b| && digest(a) == digest(b) ==> a == b
  }

  /** HasSameContentAsync: reject on length, otherwise compare the two digests. */
  function SameContent(digest: Hash, a: Bytes, b: Bytes): (same: bool)
    ensures a == b ==> same
    ensures |a| != |b| ==> !same
    ensures same <==> |a| == |b| && digest(a) == digest(b)
    ensures CollisionFree(digest) ==> (same <==> a == b)
  {
    if |a| != |b| then false else digest(a) == digest(b)
  }

  /** Two entries hold the same thing as far as the comparator can tell. */
  predicate Equivalent(digest: Hash, x: Entry, y: Entry)
  {
    match x
    case Dir => y.Dir?
    case File(a) => y.File? && SameContent(digest, a, y.data)
  }

  /** Equivalence is equality for a collision-free digest. */
  lemma EquivalentIsEqual(digest: Hash, x: Entry, y: Entry)
    requires CollisionFree(digest) && Equivalent(digest, x, y)
    ensures x == y
  {
    if x.File? {
      assert x.data == y.data;
    }
  }

  /**
   * Without collision freedom the comparator can accept different bytes of
   * equal length: with a digest that ignores its input, [0] and [1] compare
   * as the same content.
   */
  lemma ComparatorTrustsDigest()
    ensures var constant: Hash := _ => [];
            var a: Bytes, b: Bytes := [0], [1];
            a != b && SameContent(constant, a, b)
  {
  }
}
