/**
 * An abstract directory tree and the .NET file-system operations the
 * synchronizer calls on it. A tree maps each path (relative to the tree's
 * root; the root itself is []) to a file with its bytes or a directory.
 * Each operation returns None exactly where the library call would throw,
 * and then the tree is left as it was.
 */
module FileSystem {
  import opened Wrappers
  import opened Paths

  newtype Byte = x: int | 0 <= x < 256

  type Bytes = seq<Byte>

  datatype Entry = File(data: Bytes) | Dir

  type Tree = map<Path, Entry>

  /** Every entry other than the root lies in a directory of the tree. */
  ghost predicate Valid(fs: Tree)
  {
    forall p {:trigger Parent(p)} :: p in fs && p != [] ==> Parent(p) in fs && fs[Parent(p)].Dir?
  }

  /** What Directory.Exists answers. In a valid tree a directory lies in a directory. */
  predicate DirectoryExists(fs: Tree, p: Path): (b: bool)
    ensures b ==> p in fs
    ensures b && Valid(fs) && p != [] ==> Parent(p) in fs && fs[Parent(p)].Dir?
  {
    p in fs && fs[p].Dir?
  }

  /** What File.Exists answers: true exactly for an entry that is not a directory. */
  predicate FileExists(fs: Tree, p: Path): (b: bool)
    ensures b <==> p in fs && !DirectoryExists(fs, p)
    ensures b && Valid(fs) && p != [] ==> DirectoryExists(fs, Parent(p))
  {
    p in fs && fs[p].File?
  }

  /** `p` and all the directories above it. */
  function Prefixes(p: Path): (s: set<Path>)
    ensures forall a :: a in s <==> a <= p
  {
    var s := set k | 0 <= k <= |p| :: p[..k];
    assert forall a :: a <= p ==> a == p[..|a|];
    s
  }

  /** The entries at `p` and below it. */
  function Subtree(fs: Tree, p: Path): (sub: Tree)
    ensures forall q :: q in sub <==> q in fs && p <= q
    ensures forall q :: q in sub ==> sub[q] == fs[q]
  {
    map q | q in fs && p <= q :: fs[q]
  }

  /** The paths strictly below `p`: the measure of the recursive walks. */
  function Below(fs: Tree, p: Path): (s: set<Path>)
    ensures forall q :: q in s <==> q in fs && p < q
  {
    set q | q in fs && p < q
  }

  /** Every directory above an entry is a directory of the tree. */
  lemma {:induction false} AncestorIsDir(fs: Tree, p: Path, a: Path)
    requires Valid(fs) && p in fs && a < p
    ensures DirectoryExists(fs, a)
    decreases |p|
  {
    var q := Parent(p);
    assert q in fs && fs[q].Dir?;
    if a != q {
      assert a == q[..|a|];
      AncestorIsDir(fs, q, a);
    }
  }

  /** Descending into a child directory strictly shrinks what lies below. */
  lemma BelowShrinks(fs: Tree, dir: Path, c: Path)
    requires c in fs && dir < c
    ensures Below(fs, c) < Below(fs, dir)
  {
    forall q | q in Below(fs, c) ensures q in Below(fs, dir) {
      PrefixTransitive(dir, c, q);
    }
    assert c in Below(fs, dir) && c !in Below(fs, c);
  }

  /** A file has nothing below it. */
  lemma FileHasNoChildren(fs: Tree, p: Path, q: Path)
    requires Valid(fs) && FileExists(fs, p) && q in fs
    ensures !(p < q)
  {
    if p < q {
      AncestorIsDir(fs, q, p);
    }
  }

  /** True when Directory.CreateDirectory(p) throws: some prefix of `p` is a file. */
  predicate Blocked(fs: Tree, p: Path)
  {
    exists a :: a in Prefixes(p) && FileExists(fs, a)
  }

  /** Nothing can exist below a path that CreateDirectory would throw on. */
  lemma BlockedBelow(fs: Tree, p: Path, q: Path)
    requires Valid(fs) && Blocked(fs, p) && p < q
    ensures q !in fs
  {
    var a :| a in Prefixes(p) && FileExists(fs, a);
    if q in fs {
      PrefixTransitive(a, p, q);
      AncestorIsDir(fs, q, a);
    }
  }

  /**
   * Directory.CreateDirectory(p): creates `p` and every missing directory
   * above it; throws when one of them is a file.
   */
  function CreateDirectory(fs: Tree, p: Path): (r: Option<Tree>)
    ensures r.None? <==> Blocked(fs, p)
    ensures r.Some? ==> r.value.Keys == fs.Keys + Prefixes(p)
    ensures r.Some? ==> forall a :: a <= p ==> DirectoryExists(r.value, a)
    ensures r.Some? ==> forall q :: q in fs ==> r.value[q] == fs[q]
    ensures r.Some? && Valid(fs) ==> Valid(r.value)
  {
    if Blocked(fs, p) then None
    else
      var t := map q | q in fs.Keys + Prefixes(p) :: if q in fs then fs[q] else Dir;
      forall a | a <= p ensures DirectoryExists(t, a) {
        assert a in Prefixes(p);
        assert !FileExists(fs, a);
        assert a in t;
      }
      assert Valid(fs) ==> Valid(t) by {
        if Valid(fs) {
          forall q | q in t && q != [] ensures Parent(q) in t && t[Parent(q)].Dir? {
            if q !in fs {
              PrefixTransitive(Parent(q), q, p);
            }
          }
        }
      }
      Some(t)
  }

  /** Creating a directory that exists, in a valid tree, changes nothing. */
  lemma CreateExistingDirectory(fs: Tree, p: Path)
    requires Valid(fs) && DirectoryExists(fs, p)
    ensures CreateDirectory(fs, p) == Some(fs)
  {
    forall a | a in Prefixes(p) ensures DirectoryExists(fs, a) {
      if a != p { AncestorIsDir(fs, p, a); }
    }
    assert !Blocked(fs, p);
    var t := CreateDirectory(fs, p).value;
    assert t.Keys == fs.Keys;
    assert t == fs;
  }

  /**
   * In a directory that exists, CreateDirectory of an entry throws only if
   * that entry is a file, and otherwise adds just that one directory.
   */
  lemma CreateChildDirectory(fs: Tree, p: Path)
    requires Valid(fs) && p != [] && DirectoryExists(fs, Parent(p))
    ensures CreateDirectory(fs, p) == if FileExists(fs, p) then None else Some(fs[p := Dir])
  {
    forall a | a in Prefixes(p) && a != p ensures DirectoryExists(fs, a) {
      if a != Parent(p) {
        assert a < Parent(p);
        AncestorIsDir(fs, Parent(p), a);
      }
    }
    if !FileExists(fs, p) {
      assert !Blocked(fs, p);
      var t := CreateDirectory(fs, p).value;
      assert t.Keys == (fs[p := Dir]).Keys;
      assert t == fs[p := Dir];
    } else {
      assert p in Prefixes(p);
    }
  }

  /** CreateDirectory of the root throws only if the root is a file, and otherwise adds just the root. */
  lemma CreateRootDirectory(fs: Tree)
    ensures CreateDirectory(fs, []) == if FileExists(fs, []) then None else Some(fs[[] := Dir])
  {
    assert Prefixes([]) == {[]};
    if !FileExists(fs, []) {
      var t := CreateDirectory(fs, []).value;
      assert t.Keys == (fs[[] := Dir]).Keys;
      assert t == fs[[] := Dir];
    }
  }

  /** CreateDirectory is idempotent. */
  lemma CreateDirectoryIdempotent(fs: Tree, p: Path)
    requires CreateDirectory(fs, p).Some?
    ensures CreateDirectory(CreateDirectory(fs, p).value, p) == CreateDirectory(fs, p)
  {
    var t := CreateDirectory(fs, p).value;
    assert !Blocked(t, p);
    var u := CreateDirectory(t, p).value;
    assert u.Keys == t.Keys;
    assert u == t;
  }

  /**
   * File.Copy(from, p, overwrite: true) with the bytes of the source file:
   * throws when the destination's directory is missing or the destination
   * is a directory; otherwise the destination holds exactly those bytes.
   */
  function CopyFile(fs: Tree, p: Path, data: Bytes): (r: Option<Tree>)
    ensures r.Some? <==> p != [] && DirectoryExists(fs, Parent(p)) && !DirectoryExists(fs, p)
    ensures r.Some? ==> r.value.Keys == fs.Keys + {p} && r.value[p] == File(data)
    ensures r.Some? ==> forall q :: q in fs && q != p ==> r.value[q] == fs[q]
    ensures r.Some? && Valid(fs) ==> Valid(r.value)
  {
    if p == [] || !DirectoryExists(fs, Parent(p)) || DirectoryExists(fs, p) then None
    else Some(fs[p := File(data)])
  }

  /**
   * File.Delete(p): removes a file. It throws on a directory, and on a path
   * whose directory does not exist (a missing directory, or a file).
   * A missing file in an existing directory is nothing to do.
   */
  function DeleteFile(fs: Tree, p: Path): (r: Option<Tree>)
    ensures r.None? <==> DirectoryExists(fs, p) || (p != [] && !DirectoryExists(fs, Parent(p)))
    ensures r.Some? && p !in fs ==> r.value == fs
    ensures r.Some? ==> p !in r.value && r.value.Keys == fs.Keys - {p}
    ensures r.Some? ==> forall q :: q in r.value ==> r.value[q] == fs[q]
    ensures r.Some? && Valid(fs) ==> Valid(r.value)
  {
    if DirectoryExists(fs, p) || (p != [] && !DirectoryExists(fs, Parent(p))) then None
    else
      var t := fs - {p};
      assert Valid(fs) ==> Valid(t) by {
        if Valid(fs) {
          forall q | q in t && q != [] ensures Parent(q) in t && t[Parent(q)].Dir? {
            assert Parent(q) != p || !(p in fs);
          }
        }
      }
      Some(t)
  }

  /** The tree without `p` and everything below it. */
  function RemoveSubtree(fs: Tree, p: Path): (r: Tree)
    ensures forall q :: q in r <==> q in fs && !(p <= q)
    ensures forall q :: q in r ==> r[q] == fs[q]
    ensures Valid(fs) ==> Valid(r)
  {
    var t := map q | q in fs && !(p <= q) :: fs[q];
    assert Valid(fs) ==> Valid(t) by {
      if Valid(fs) {
        forall q | q in t && q != [] ensures Parent(q) in t && t[Parent(q)].Dir? {
          if p <= Parent(q) { PrefixTransitive(p, Parent(q), q); }
        }
      }
    }
    t
  }

  /**
   * Directory.Delete(p, recursive: true): throws unless `p` is a directory;
   * otherwise removes `p` and everything below it.
   */
  function DeleteDirectory(fs: Tree, p: Path): (r: Option<Tree>)
    ensures r.None? <==> !DirectoryExists(fs, p)
    ensures r.Some? ==> forall q :: q in r.value <==> q in fs && !(p <= q)
    ensures r.Some? ==> forall q :: q in r.value ==> r.value[q] == fs[q]
    ensures r.Some? && Valid(fs) ==> Valid(r.value)
  {
    if DirectoryExists(fs, p) then Some(RemoveSubtree(fs, p)) else None
  }

  /** The entries at and below `from`, re-rooted at `to`. */
  function Relocated(fs: Tree, from: Path, to: Path): (m: Tree)
    ensures forall s :: to + s in m <==> from + s in fs
    ensures forall s :: to + s in m ==> m[to + s] == fs[from + s]
    ensures forall q :: q in m ==> to <= q
  {
    var image := set q | q in fs && from <= q :: to + q[|from|..];
    var m := map p | p in image && to <= p && from + p[|to|..] in fs :: fs[from + p[|to|..]];
    forall s | from + s in fs ensures to + s in m {
      var q := from + s;
      assert q[|from|..] == s;
      assert to + s in image;
      assert (to + s)[|to|..] == s;
    }
    forall s | to + s in m ensures from + s in fs && m[to + s] == fs[from + s] {
      assert (to + s)[|to|..] == s;
    }
    m
  }

  /**
   * Directory.Move(from, to): moves a file or a directory with its contents.
   * It throws unless `from` exists, `to` does not exist, `to` is not inside
   * `from` and the directory of `to` exists; otherwise the whole subtree is
   * re-rooted at `to`.
   */
  function MoveDirectory(fs: Tree, from: Path, to: Path): (r: Option<Tree>)
    requires Valid(fs)
    ensures r.Some? <==>
              from in fs && to !in fs && !(from <= to) && to != [] && DirectoryExists(fs, Parent(to))
    ensures r.Some? ==> forall q :: from <= q ==> q !in r.value
    ensures r.Some? ==> forall s :: to + s in r.value <==> from + s in fs
    ensures r.Some? ==> forall s :: from + s in fs ==> r.value[to + s] == fs[from + s]
    ensures r.Some? ==> forall q :: !(from <= q) && !(to <= q) ==> (q in r.value <==> q in fs)
    ensures r.Some? ==> forall q :: q in fs && !(from <= q) && !(to <= q) ==> r.value[q] == fs[q]
    ensures r.Some? ==> Valid(r.value)
  {
    if from !in fs || to in fs || from <= to || to == [] || !DirectoryExists(fs, Parent(to)) then None
    else Some(MovedTree(fs, from, to))
  }

  /** The tree after a Directory.Move that does not throw. */
  function MovedTree(fs: Tree, from: Path, to: Path): (t: Tree)
    requires Valid(fs)
    requires from in fs && to !in fs && !(from <= to) && to != [] && DirectoryExists(fs, Parent(to))
    ensures forall q :: from <= q ==> q !in t
    ensures forall s :: to + s in t <==> from + s in fs
    ensures forall s :: from + s in fs ==> t[to + s] == fs[from + s]
    ensures forall q :: !(from <= q) && !(to <= q) ==> (q in t <==> q in fs)
    ensures forall q :: q in fs && !(from <= q) && !(to <= q) ==> t[q] == fs[q]
    ensures Valid(t)
  {
    var kept := RemoveSubtree(fs, from);
    var moved := Relocated(fs, from, to);
    MovedOutsideSource(fs, from, to, moved);
    KeptDisjoint(fs, from, to, kept);
    MoveKeepsValid(fs, from, to, kept, moved);
    kept + moved
  }

  /** Nothing moved lands at or below its old place. */
  lemma MovedOutsideSource(fs: Tree, from: Path, to: Path, moved: Tree)
    requires Valid(fs) && from in fs && to !in fs && !(from <= to)
    requires moved == Relocated(fs, from, to)
    ensures forall q :: q in moved ==> !(from <= q)
  {
    forall q | q in moved ensures !(from <= q) {
      if from <= q {
        assert to <= q;
        if to < from { AncestorIsDir(fs, from, to); }
      }
    }
  }

  /** Nothing that stays in place lies at or below the destination. */
  lemma KeptDisjoint(fs: Tree, from: Path, to: Path, kept: Tree)
    requires Valid(fs) && to !in fs
    requires kept == RemoveSubtree(fs, from)
    ensures forall q :: q in kept ==> !(to <= q)
  {
    forall q | q in kept ensures !(to <= q) {
      if to <= q && to != q { AncestorIsDir(fs, q, to); }
    }
  }

  lemma MoveKeepsValid(fs: Tree, from: Path, to: Path, kept: Tree, moved: Tree)
    requires Valid(fs) && from in fs && to != [] && DirectoryExists(fs, Parent(to))
    requires !(from <= to) && to !in fs
    requires kept == RemoveSubtree(fs, from) && moved == Relocated(fs, from, to)
    requires forall q :: q in kept ==> !(to <= q)
    ensures Valid(kept + moved)
  {
    var t := kept + moved;
    forall q | q in t && q != [] ensures Parent(q) in t && t[Parent(q)].Dir? {
      if q in moved {
        MovedParent(fs, from, to, kept, moved, q);
      }
    }
  }

  lemma MovedParent(fs: Tree, from: Path, to: Path, kept: Tree, moved: Tree, q: Path)
    requires Valid(fs) && from in fs && to != [] && DirectoryExists(fs, Parent(to))
    requires !(from <= to) && to !in fs
    requires kept == RemoveSubtree(fs, from) && moved == Relocated(fs, from, to)
    requires q in moved
    ensures Parent(q) in kept + moved && (kept + moved)[Parent(q)].Dir?
  {
    if q == to {
      MovedRootParent(fs, from, to, kept, moved);
    } else {
      MovedInnerParent(fs, from, to, moved, q);
    }
  }

  /** The directory receiving the moved subtree stays where it is. */
  lemma MovedRootParent(fs: Tree, from: Path, to: Path, kept: Tree, moved: Tree)
    requires from in fs && to != [] && DirectoryExists(fs, Parent(to))
    requires !(from <= to)
    requires kept == RemoveSubtree(fs, from) && moved == Relocated(fs, from, to)
    ensures Parent(to) in kept + moved && (kept + moved)[Parent(to)].Dir?
  {
    if from <= Parent(to) { PrefixTransitive(from, Parent(to), to); }
    assert Parent(to) in kept;
    assert !(to <= Parent(to));
  }

  /** Below the destination, each moved entry's directory moved with it. */
  lemma MovedInnerParent(fs: Tree, from: Path, to: Path, moved: Tree, q: Path)
    requires Valid(fs)
    requires moved == Relocated(fs, from, to)
    requires q in moved && q != to
    ensures Parent(q) in moved && moved[Parent(q)].Dir?
  {
    var s := q[|to|..];
    assert q == to + s;
    var ps := s[..|s| - 1];
    assert Parent(q) == to + ps;
    assert from + s in fs;
    assert Parent(from + s) == from + ps;
  }

  /**
   * File.Move(from, to): throws unless `from` is a file, `to` does not
   * exist and the directory of `to` exists; otherwise the bytes move.
   */
  function MoveFile(fs: Tree, from: Path, to: Path): (r: Option<Tree>)
    ensures r.Some? <==> FileExists(fs, from) && to !in fs && to != [] && DirectoryExists(fs, Parent(to))
    ensures r.Some? ==> from !in r.value && to in r.value && r.value[to] == fs[from]
    ensures r.Some? ==> r.value.Keys == fs.Keys - {from} + {to}
    ensures r.Some? ==> forall q :: q in fs && q != from ==> r.value[q] == fs[q]
    ensures r.Some? && Valid(fs) ==> Valid(r.value)
  {
    if !FileExists(fs, from) || to in fs || to == [] || !DirectoryExists(fs, Parent(to)) then None
    else
      var t := (fs - {from})[to := fs[from]];
      assert Valid(fs) ==> Valid(t) by {
        if Valid(fs) {
          forall q | q in t && q != [] ensures Parent(q) in t && t[Parent(q)].Dir? {
            if q != to {
              assert Parent(q) != from;
            }
          }
        }
      }
      Some(t)
  }
}
