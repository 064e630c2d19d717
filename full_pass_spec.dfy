/**
 * What a full pass does to the replica, as functions of the source tree and
 * the replica tree it starts from. Mirror overlays the source on the
 * replica; Cleanup keeps only the replica entries the source also has.
 */
module FullPassSpec {
  import opened Paths
  import opened FileSystem
  import opened Comparator

  /**
   * Mirror copies the source file at `q` unless the replica already holds a
   * file there that the comparator calls the same content.
   */
  predicate NeedsCopy(digest: Hash, src: Tree, r: Tree, q: Path): (b: bool)
    requires FileExists(src, q)
    ensures !FileExists(r, q) ==> b
    ensures FileExists(r, q) && r[q] == src[q] ==> !b
    ensures CollisionFree(digest) ==> (b <==> !(FileExists(r, q) && r[q] == src[q]))
  {
    !(FileExists(r, q) && SameContent(digest, src[q].data, r[q].data))
  }

  /** The replica after mirroring the entries of `src` onto `r`. */
  function Mirrored(digest: Hash, src: Tree, r: Tree): (m: Tree)
    ensures m.Keys == r.Keys + src.Keys
    ensures forall q :: q in src ==> Equivalent(digest, src[q], m[q])
    ensures forall q :: q in r && q !in src ==> m[q] == r[q]
    ensures CollisionFree(digest) ==> forall q :: q in src ==> m[q] == src[q]
    ensures forall q :: FileExists(src, q) && NeedsCopy(digest, src, r, q) ==> m[q] == src[q]
    ensures forall q :: FileExists(src, q) && !NeedsCopy(digest, src, r, q) ==> m[q] == r[q]
    ensures forall q :: DirectoryExists(src, q) ==> m[q] == Dir
  {
    var m := map q | q in r.Keys + src.Keys ::
      if q in src && (src[q].Dir? || NeedsCopy(digest, src, r, q)) then src[q] else r[q];
    assert CollisionFree(digest) ==> forall q :: q in src ==> m[q] == src[q] by {
      if CollisionFree(digest) {
        forall q | q in src ensures m[q] == src[q] {
          EquivalentIsEqual(digest, src[q], m[q]);
        }
      }
    }
    m
  }

  /** The source files Mirror copies. */
  function Stale(digest: Hash, src: Tree, r: Tree): (s: set<Path>)
    ensures forall q :: q in s <==> FileExists(src, q) && NeedsCopy(digest, src, r, q)
  {
    set q | q in src && src[q].File? && NeedsCopy(digest, src, r, q)
  }

  /** No path is a file on one side and a directory on the other. */
  ghost predicate Compatible(src: Tree, r: Tree)
  {
    forall q :: q in src && q in r ==> (src[q].Dir? <==> r[q].Dir?)
  }

  /**
   * The replica entry at `q` has a source entry of the same kind: Cleanup's
   * File.Exists test for a replica file, its Directory.Exists test for a
   * replica directory.
   */
  predicate Matches(src: Tree, r: Tree, q: Path): (b: bool)
    requires q in r
    ensures b <==> if DirectoryExists(r, q) then DirectoryExists(src, q) else FileExists(src, q)
  {
    q in src && (src[q].Dir? <==> r[q].Dir?)
  }

  /** The replica after removing, strictly below `dir`, every entry the source lacks. */
  function Pruned(src: Tree, r: Tree, dir: Path): (p: Tree)
    ensures forall q :: q in p ==> q in r && p[q] == r[q]
    ensures forall q :: q in r && !(dir < q) ==> q in p
    ensures forall q :: q in r && Matches(src, r, q) ==> q in p
    ensures forall q :: q in p && dir < q ==> Matches(src, r, q)
    ensures Valid(src) && Valid(r) ==> Valid(p)
  {
    var p := map q | q in r && (!(dir < q) || Matches(src, r, q)) :: r[q];
    assert Valid(src) && Valid(r) ==> Valid(p) by {
      if Valid(src) && Valid(r) {
        forall q | q in p && q != [] ensures Parent(q) in p && p[Parent(q)].Dir? {
          if dir < Parent(q) {
            PrefixTransitive(dir, Parent(q), q);
            MatchImpliesAncestorMatches(src, r, q, Parent(q));
          }
        }
      }
    }
    p
  }

  /** An entry that matches the source lies in directories that match it too. */
  lemma MatchImpliesAncestorMatches(src: Tree, r: Tree, q: Path, a: Path)
    requires Valid(src) && Valid(r) && q in r && Matches(src, r, q) && a < q
    ensures a in r && Matches(src, r, a)
  {
    AncestorIsDir(src, q, a);
    AncestorIsDir(r, q, a);
  }

  /** Mirroring a tree compatible with the replica keeps the replica valid. */
  lemma MirroredValid(digest: Hash, src: Tree, r: Tree)
    requires Valid(src) && Valid(r) && Compatible(src, r)
    ensures Valid(Mirrored(digest, src, r))
  {
    var m := Mirrored(digest, src, r);
    forall q | q in m && q != [] ensures Parent(q) in m && m[Parent(q)].Dir? {
      if q in src {
        assert Equivalent(digest, src[Parent(q)], m[Parent(q)]);
      } else {
        if Parent(q) in src {
          assert Equivalent(digest, src[Parent(q)], m[Parent(q)]);
        }
      }
    }
  }

  /** `a` and `b` share only directories. */
  predicate OverlapInDirs(a: Tree, b: Tree)
  {
    forall q :: q in a && q in b ==> a[q] == Dir && b[q] == Dir
  }

  /**
   * Mirroring `a` and then `b` is mirroring both at once when they overlap
   * only in directories, and the copies made are those of the two steps.
   */
  lemma MirroredCompose(digest: Hash, a: Tree, b: Tree, r: Tree)
    requires OverlapInDirs(a, b)
    ensures Mirrored(digest, b, Mirrored(digest, a, r)) == Mirrored(digest, a + b, r)
    ensures Stale(digest, a + b, r) == Stale(digest, a, r) + Stale(digest, b, Mirrored(digest, a, r))
    ensures Compatible(a + b, r) <==> Compatible(a, r) && Compatible(b, Mirrored(digest, a, r))
  {
    MirroredComposeTree(digest, a, b, r);
    MirroredComposeStale(digest, a, b, r);
    MirroredComposeCompatible(digest, a, b, r);
  }

  lemma MirroredComposeTree(digest: Hash, a: Tree, b: Tree, r: Tree)
    requires OverlapInDirs(a, b)
    ensures Mirrored(digest, b, Mirrored(digest, a, r)) == Mirrored(digest, a + b, r)
  {
    var ma := Mirrored(digest, a, r);
    var lhs := Mirrored(digest, b, ma);
    var rhs := Mirrored(digest, a + b, r);
    forall q | q in lhs ensures lhs[q] == rhs[q] {
      if q in b && q !in a {
        assert FileExists(ma, q) <==> FileExists(r, q);
      }
    }
    assert lhs == rhs;
  }

  lemma MirroredComposeStale(digest: Hash, a: Tree, b: Tree, r: Tree)
    requires OverlapInDirs(a, b)
    ensures Stale(digest, a + b, r) == Stale(digest, a, r) + Stale(digest, b, Mirrored(digest, a, r))
  {
    var ma := Mirrored(digest, a, r);
    var s1 := Stale(digest, a + b, r);
    var s2 := Stale(digest, a, r) + Stale(digest, b, ma);
    forall q ensures q in s1 <==> q in s2 {
      if q in b && q !in a {
        assert FileExists(ma, q) <==> FileExists(r, q);
      }
    }
    assert s1 == s2;
  }

  lemma MirroredComposeCompatible(digest: Hash, a: Tree, b: Tree, r: Tree)
    requires OverlapInDirs(a, b)
    ensures Compatible(a + b, r) <==> Compatible(a, r) && Compatible(b, Mirrored(digest, a, r))
  {
    var ma := Mirrored(digest, a, r);
    if Compatible(a + b, r) {
      forall q | q in b && q in ma ensures (b[q].Dir? <==> ma[q].Dir?) {
        if q in a {
          assert Equivalent(digest, a[q], ma[q]);
        } else {
          assert ma[q] == r[q];
        }
      }
    }
    if Compatible(a, r) && Compatible(b, ma) {
      forall q | q in a + b && q in r ensures ((a + b)[q].Dir? <==> r[q].Dir?) {
        if q !in a {
          assert ma[q] == r[q];
        }
      }
    }
  }

  /** Mirroring a directory the replica already holds changes nothing. */
  lemma MirroredExistingDir(digest: Hash, p: Path, r: Tree)
    requires DirectoryExists(r, p)
    ensures Mirrored(digest, map[p := Dir], r) == r
    ensures Stale(digest, map[p := Dir], r) == {}
  {
    var m := Mirrored(digest, map[p := Dir], r);
    assert m.Keys == r.Keys;
    assert m == r;
  }

  /** Compatibility with a larger tree implies compatibility with a part of it. */
  lemma CompatibleSubset(a: Tree, b: Tree, r: Tree)
    requires Compatible(b, r)
    requires forall q :: q in a ==> q in b && a[q] == b[q]
    ensures Compatible(a, r)
  {
  }

  /**
   * A full pass (Mirror of the whole source, then Cleanup from the root)
   * leaves exactly the source's paths, each holding what the comparator
   * calls the source's content; with a collision-free digest the replica
   * equals the source.
   */
  lemma FullPassConverges(digest: Hash, src: Tree, r: Tree)
    requires Valid(src) && Valid(r) && DirectoryExists(src, []) && Compatible(src, r)
    ensures var t := Pruned(src, Mirrored(digest, src, r), []);
            && t.Keys == src.Keys
            && (forall q :: q in src ==> Equivalent(digest, src[q], t[q]))
            && (CollisionFree(digest) ==> t == src)
  {
    var m := Mirrored(digest, src, r);
    var t := Pruned(src, m, []);
    forall q | q in src ensures q in t {
      assert Equivalent(digest, src[q], m[q]);
      assert Matches(src, m, q);
    }
    forall q | q in t ensures q in src {
      if q != [] {
        assert [] < q;
      }
    }
    assert t.Keys == src.Keys;
    if CollisionFree(digest) {
      forall q | q in t ensures t[q] == src[q] {
        EquivalentIsEqual(digest, src[q], t[q]);
      }
      assert t == src;
    }
  }

  /**
   * Once the replica is what a full pass produced, the next full pass over
   * the unchanged source copies nothing, deletes nothing and leaves the
   * replica as it is, whatever the digest.
   */
  lemma SecondPassChangesNothing(digest: Hash, src: Tree, r: Tree)
    requires Valid(src) && Valid(r) && DirectoryExists(src, []) && Compatible(src, r)
    ensures var t := Pruned(src, Mirrored(digest, src, r), []);
            && Compatible(src, t)
            && Stale(digest, src, t) == {}
            && Mirrored(digest, src, t) == t
            && Pruned(src, t, []) == t
  {
    var m := Mirrored(digest, src, r);
    var t := Pruned(src, m, []);
    FullPassConverges(digest, src, r);
    forall q | q in src ensures FileExists(src, q) ==> !NeedsCopy(digest, src, t, q) {
      assert Equivalent(digest, src[q], t[q]);
    }
    assert Stale(digest, src, t) == {};
    var m2 := Mirrored(digest, src, t);
    forall q | q in m2 ensures m2[q] == t[q] {
      assert Equivalent(digest, src[q], t[q]);
    }
    assert m2 == t;
    var t2 := Pruned(src, t, []);
    forall q | q in t ensures q in t2 {
      assert Equivalent(digest, src[q], t[q]);
    }
    assert t2 == t;
  }
}
