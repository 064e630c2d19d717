/**
 * The bookkeeping of the two recursive walks: how much of a directory a
 * walk has handled after some of its entries, and the facts that carry one
 * step of a loop to the next.
 */
module Walks {
  import opened Paths
  import opened FileSystem
  import opened Comparator
  import opened FullPassSpec

  /** Outside `sub` the tree is as it was, and nothing was removed anywhere. */
  ghost predicate UnchangedOutside(before: Tree, after: Tree, sub: Tree)
  {
    && before.Keys <= after.Keys
    && (forall q :: q in after && q !in sub ==> q in before && after[q] == before[q])
  }

  /** `a` is a part of `b`. */
  ghost predicate Submap(a: Tree, b: Tree)
  {
    forall q :: q in a ==> q in b && a[q] == b[q]
  }

  lemma UnchangedOutsideTrans(r0: Tree, r1: Tree, r2: Tree, s1: Tree, s2: Tree)
    requires UnchangedOutside(r0, r1, s1) && UnchangedOutside(r1, r2, s2) && Submap(s2, s1)
    ensures UnchangedOutside(r0, r2, s1)
  {
  }

  lemma MirroredUnchangedOutside(digest: Hash, a: Tree, sub: Tree, r: Tree)
    requires Submap(a, sub)
    ensures UnchangedOutside(r, Mirrored(digest, a, r), sub)
  {
  }

  /** The subtree of a path below `dir` is a part of the subtree of `dir`. */
  lemma SubtreeNested(src: Tree, dir: Path, c: Path)
    requires dir <= c
    ensures Submap(Subtree(src, c), Subtree(src, dir))
  {
    forall q | q in Subtree(src, c) ensures dir <= q {
      PrefixTransitive(dir, c, q);
    }
  }

  /** The entries of `src` at `dir` and below the children of `dir` listed in `done`. */
  ghost function Handled(src: Tree, dir: Path, done: set<Path>): (h: Tree)
    ensures Submap(h, Subtree(src, dir))
  {
    map q | q in src && dir <= q && (q == dir || EntryOf(dir, q) in done) :: src[q]
  }

  lemma HandledNothing(src: Tree, dir: Path)
    requires DirectoryExists(src, dir)
    ensures Handled(src, dir, {}) == map[dir := Dir]
  {
    assert Handled(src, dir, {}).Keys == {dir};
  }

  /** Handling a file entry of `dir` adds just that file. */
  lemma HandledFile(src: Tree, dir: Path, done: set<Path>, c: Path)
    requires Valid(src) && IsChild(dir, c) && FileExists(src, c) && c !in done
    ensures c !in Handled(src, dir, done)
    ensures Handled(src, dir, done + {c}) == Handled(src, dir, done) + map[c := src[c]]
  {
    var h := Handled(src, dir, done);
    var h' := Handled(src, dir, done + {c});
    forall q | q in h' ensures q in h || q == c {
      if q != dir && EntryOf(dir, q) == c && q != c {
        assert c < q;
        FileHasNoChildren(src, c, q);
      }
    }
    assert c[..|dir| + 1] == c;
    assert h' == h + map[c := src[c]];
  }

  /** Handling a directory entry of `dir` adds that directory's whole subtree. */
  lemma HandledDir(src: Tree, dir: Path, done: set<Path>, c: Path)
    requires IsChild(dir, c) && DirectoryExists(src, c) && c !in done
    ensures forall q :: q in Handled(src, dir, done) ==> q !in Subtree(src, c)
    ensures Handled(src, dir, done + {c}) == Handled(src, dir, done) + Subtree(src, c)
  {
    var h := Handled(src, dir, done);
    var h' := Handled(src, dir, done + {c});
    var sc := Subtree(src, c);
    forall q | q in sc ensures dir <= q && EntryOf(dir, q) == c && q != dir {
      PrefixTransitive(dir, c, q);
    }
    forall q | q in h' && q !in h ensures q in sc {
      assert EntryOf(dir, q) == c;
    }
    assert h' == h + sc;
  }

  /** Once every entry of `dir` is handled, all of `dir`'s subtree is. */
  lemma HandledAll(src: Tree, dir: Path, done: set<Path>)
    requires Valid(src) && DirectoryExists(src, dir)
    requires forall c :: c in src && IsChild(dir, c) ==> c in done
    ensures Handled(src, dir, done) == Subtree(src, dir)
  {
    var h := Handled(src, dir, done);
    forall q | q in Subtree(src, dir) ensures q in h {
      if q != dir {
        var c := EntryOf(dir, q);
        assert IsChild(dir, c);
        if c != q { AncestorIsDir(src, q, c); }
      }
    }
  }

  /** Mirroring a new directory into a directory that does not hold that name adds it. */
  lemma MirroredNewDir(digest: Hash, p: Path, r: Tree)
    requires !FileExists(r, p)
    ensures Mirrored(digest, map[p := Dir], r) == r[p := Dir]
    ensures Stale(digest, map[p := Dir], r) == {}
  {
    var m := Mirrored(digest, map[p := Dir], r);
    assert m.Keys == r[p := Dir].Keys;
    assert m == r[p := Dir];
  }

  /** Mirroring one file is copying it exactly when the comparator asks for it. */
  lemma MirroredFile(digest: Hash, src: Tree, p: Path, r: Tree)
    requires FileExists(src, p)
    ensures var one := map[p := src[p]];
            && Mirrored(digest, one, r) == (if NeedsCopy(digest, src, r, p) then r[p := src[p]] else r)
            && Stale(digest, one, r) == (if NeedsCopy(digest, src, r, p) then {p} else {})
  {
    var one := map[p := src[p]];
    var m := Mirrored(digest, one, r);
    assert NeedsCopy(digest, one, r, p) == NeedsCopy(digest, src, r, p);
    if NeedsCopy(digest, src, r, p) {
      assert m.Keys == r[p := src[p]].Keys;
      assert m == r[p := src[p]];
    } else {
      assert m.Keys == r.Keys;
      assert m == r;
    }
  }

  /**
   * One directory step of Mirror: the directory was created (or was there)
   * and its subtree mirrored onto that; together this is mirroring the
   * subtree onto the replica as it was before the step.
   */
  lemma MirrorDirStep(digest: Hash, src: Tree, c: Path, r0: Tree, r1: Tree)
    requires DirectoryExists(src, c) && !FileExists(r0, c) && r1 == r0[c := Dir]
    ensures Mirrored(digest, Subtree(src, c), r1) == Mirrored(digest, Subtree(src, c), r0)
    ensures Stale(digest, Subtree(src, c), r1) == Stale(digest, Subtree(src, c), r0)
    ensures Compatible(Subtree(src, c), r1) <==> Compatible(Subtree(src, c), r0)
  {
    var one := map[c := Dir];
    var sc := Subtree(src, c);
    MirroredNewDir(digest, c, r0);
    MirroredCompose(digest, one, sc, r0);
    assert one + sc == sc;
  }

  /**
   * One file step of Mirror in terms of what has been handled: the file is
   * copied exactly when the comparator asks for it, and the step conflicts
   * exactly when the replica holds a directory there.
   */
  lemma MirrorFileHandled(digest: Hash, src: Tree, dir: Path, done: set<Path>, c: Path, r0: Tree, r: Tree)
    requires Valid(src) && IsChild(dir, c) && FileExists(src, c) && c !in done
    requires r == Mirrored(digest, Handled(src, dir, done), r0)
    ensures Mirrored(digest, Handled(src, dir, done + {c}), r0)
            == if NeedsCopy(digest, src, r, c) then r[c := src[c]] else r
    ensures Stale(digest, Handled(src, dir, done + {c}), r0)
            == Stale(digest, Handled(src, dir, done), r0) + if NeedsCopy(digest, src, r, c) then {c} else {}
    ensures Compatible(Handled(src, dir, done + {c}), r0)
            <==> Compatible(Handled(src, dir, done), r0) && !DirectoryExists(r, c)
  {
    HandledFile(src, dir, done, c);
    MirrorFileStep(digest, Handled(src, dir, done), src, c, r0, r);
  }

  /** Mirroring one more file on top of a part that does not hold it. */
  lemma MirrorFileStep(digest: Hash, h: Tree, src: Tree, c: Path, r0: Tree, r: Tree)
    requires FileExists(src, c) && c !in h && r == Mirrored(digest, h, r0)
    ensures Mirrored(digest, h + map[c := src[c]], r0) == if NeedsCopy(digest, src, r, c) then r[c := src[c]] else r
    ensures Stale(digest, h + map[c := src[c]], r0) == Stale(digest, h, r0) + if NeedsCopy(digest, src, r, c) then {c} else {}
    ensures Compatible(h + map[c := src[c]], r0) <==> Compatible(h, r0) && !DirectoryExists(r, c)
  {
    var one := map[c := src[c]];
    MirroredCompose(digest, h, one, r0);
    MirroredFile(digest, src, c, r);
    assert c in one;
  }

  /**
   * One directory step of Mirror in terms of what has been handled: it
   * mirrors the subdirectory's subtree onto the replica as it stands.
   */
  lemma MirrorDirHandled(digest: Hash, src: Tree, dir: Path, done: set<Path>, c: Path, r0: Tree, r: Tree)
    requires IsChild(dir, c) && DirectoryExists(src, c) && c !in done
    requires r == Mirrored(digest, Handled(src, dir, done), r0)
    ensures Mirrored(digest, Handled(src, dir, done + {c}), r0) == Mirrored(digest, Subtree(src, c), r)
    ensures Stale(digest, Handled(src, dir, done + {c}), r0)
            == Stale(digest, Handled(src, dir, done), r0) + Stale(digest, Subtree(src, c), r)
    ensures Compatible(Handled(src, dir, done + {c}), r0)
            <==> Compatible(Handled(src, dir, done), r0) && Compatible(Subtree(src, c), r)
  {
    var h := Handled(src, dir, done);
    HandledDir(src, dir, done, c);
    MirroredCompose(digest, h, Subtree(src, c), r0);
  }

  /** A conflict in a handled part is a conflict in the whole subtree. */
  lemma HandledConflict(src: Tree, dir: Path, done: set<Path>, r0: Tree)
    requires !Compatible(Handled(src, dir, done), r0)
    ensures !Compatible(Subtree(src, dir), r0)
  {
    if Compatible(Subtree(src, dir), r0) {
      CompatibleSubset(Handled(src, dir, done), Subtree(src, dir), r0);
    }
  }

  /** The entries of `r` after Cleanup has handled the entries of `dir` listed in `done`. */
  ghost function PrunedPart(src: Tree, r: Tree, dir: Path, done: set<Path>): Tree
  {
    map q | q in r && (!(dir < q) || EntryOf(dir, q) !in done || Matches(src, r, q)) :: r[q]
  }

  lemma PrunedNothing(src: Tree, r: Tree, dir: Path)
    ensures PrunedPart(src, r, dir, {}) == r
  {
  }

  /** Once every entry of `dir` is handled, Cleanup has pruned all of `dir`. */
  lemma PrunedAll(src: Tree, r: Tree, dir: Path, done: set<Path>)
    requires Valid(r)
    requires forall c :: c in r && IsChild(dir, c) ==> c in done
    ensures PrunedPart(src, r, dir, done) == Pruned(src, r, dir)
  {
    var a := PrunedPart(src, r, dir, done);
    var b := Pruned(src, r, dir);
    forall q | q in r && dir < q ensures EntryOf(dir, q) in done {
      var c := EntryOf(dir, q);
      assert IsChild(dir, c);
      if c != q { AncestorIsDir(r, q, c); }
    }
    assert a.Keys == b.Keys;
    assert a == b;
  }

  /** A file entry that the source also has as a file stays. */
  lemma PrunedKeepFile(src: Tree, r: Tree, dir: Path, done: set<Path>, c: Path)
    requires Valid(r) && IsChild(dir, c) && FileExists(r, c) && FileExists(src, c)
    ensures PrunedPart(src, r, dir, done + {c}) == PrunedPart(src, r, dir, done)
  {
    var a := PrunedPart(src, r, dir, done + {c});
    var b := PrunedPart(src, r, dir, done);
    forall q | q in b ensures q in a {
      if dir < q && EntryOf(dir, q) == c && q != c {
        assert c < q;
        FileHasNoChildren(r, c, q);
      }
    }
    assert a == b;
  }

  /** A file entry that the source lacks as a file is deleted. */
  lemma PrunedDeleteFile(src: Tree, r: Tree, dir: Path, done: set<Path>, c: Path)
    requires Valid(r) && IsChild(dir, c) && FileExists(r, c) && !FileExists(src, c) && c !in done
    ensures PrunedPart(src, r, dir, done + {c}) == PrunedPart(src, r, dir, done) - {c}
  {
    var a := PrunedPart(src, r, dir, done + {c});
    var b := PrunedPart(src, r, dir, done) - {c};
    assert EntryOf(dir, c) == c;
    assert c !in a;
    forall q | q in r && q != c ensures q in a <==> q in b {
      if dir < q && EntryOf(dir, q) == c {
        FileHasNoChildren(r, c, q);
      }
    }
    assert a.Keys == b.Keys;
    assert a == b;
  }

  /** Below a directory entry the source lacks as a directory, nothing matches. */
  lemma NothingBelowMatches(src: Tree, r: Tree, dir: Path, c: Path, q: Path)
    requires Valid(src) && Valid(r) && IsChild(dir, c) && DirectoryExists(r, c) && !DirectoryExists(src, c)
    requires q in r && c <= q
    ensures dir < q && EntryOf(dir, q) == c && !Matches(src, r, q)
  {
    PrefixTransitive(dir, c, q);
    assert q[..|dir| + 1] == c[..|dir| + 1];
    if Matches(src, r, q) && c != q {
      MatchImpliesAncestorMatches(src, r, q, c);
    }
  }

  /** A directory entry that the source lacks as a directory goes with its whole subtree. */
  lemma PrunedDeleteDir(src: Tree, r: Tree, dir: Path, done: set<Path>, c: Path)
    requires Valid(src) && Valid(r) && IsChild(dir, c) && DirectoryExists(r, c) && !DirectoryExists(src, c)
    requires c !in done
    ensures DirectoryExists(PrunedPart(src, r, dir, done), c)
    ensures PrunedPart(src, r, dir, done + {c}) == RemoveSubtree(PrunedPart(src, r, dir, done), c)
  {
    var part := PrunedPart(src, r, dir, done);
    assert EntryOf(dir, c) == c;
    var a := PrunedPart(src, r, dir, done + {c});
    var b := RemoveSubtree(part, c);
    forall q | q in r ensures q in a <==> q in b {
      if c <= q {
        NothingBelowMatches(src, r, dir, c, q);
      } else if dir < q {
        assert EntryOf(dir, q) != c;
      }
    }
    assert a.Keys == b.Keys;
    assert a == b;
  }

  /** A directory entry that the source also has as a directory is pruned recursively. */
  lemma PrunedRecurse(src: Tree, r: Tree, dir: Path, done: set<Path>, c: Path)
    requires IsChild(dir, c) && DirectoryExists(r, c) && DirectoryExists(src, c) && c !in done
    ensures PrunedPart(src, r, dir, done + {c}) == Pruned(src, PrunedPart(src, r, dir, done), c)
  {
    var part := PrunedPart(src, r, dir, done);
    var a := PrunedPart(src, r, dir, done + {c});
    var b := Pruned(src, part, c);
    forall q | q in r && c <= q ensures dir < q && EntryOf(dir, q) == c && q in part && part[q] == r[q] {
      PrefixTransitive(dir, c, q);
    }
    forall q | q in a ensures q in b {
      if dir < q && EntryOf(dir, q) == c && q != c {
        assert c < q;
      }
    }
    forall q | q in b ensures q in a {
      if dir < q && EntryOf(dir, q) == c && q != c {
        assert c < q;
      }
    }
    assert a == b;
  }
}
