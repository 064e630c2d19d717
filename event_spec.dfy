/**
 * What each change-event handler does to the replica, as functions of the
 * source tree, the event's path relative to the source root, and the
 * replica tree it starts from. A library call that throws ends the handler
 * (the handler catches it), so the replica keeps whatever the calls before
 * it had done.
 */
module EventSpec {
  import opened Wrappers
  import opened Paths
  import opened FileSystem

  /** Ensure the destination's directory exists, then File.Copy with overwrite. */
  function AfterCopy(data: Bytes, rel: Path, r: Tree): (t: Tree)
    requires rel != [] && Valid(r)
    ensures Valid(t)
  {
    match CreateDirectory(r, Parent(rel))
    case None => r
    case Some(withParent) =>
      match CopyFile(withParent, rel, data)
      case None => withParent
      case Some(copied) => copied
  }

  /** OnCreated: a new source directory is created in the replica, a new source file copied there. */
  function AfterCreated(source: Tree, rel: Path, r: Tree): (t: Tree)
    requires rel != [] && Valid(r)
    ensures Valid(t)
  {
    if DirectoryExists(source, rel) then
      match CreateDirectory(r, rel)
      case None => r
      case Some(created) => created
    else if FileExists(source, rel) then AfterCopy(source[rel].data, rel, r)
    else r
  }

  /** OnChanged: a changed source file is copied again; anything else is ignored. */
  function AfterChanged(source: Tree, rel: Path, r: Tree): (t: Tree)
    requires rel != [] && Valid(r)
    ensures Valid(t)
  {
    if FileExists(source, rel) then AfterCopy(source[rel].data, rel, r) else r
  }

  /** OnDeleted: whatever the replica holds at the path goes, with everything below it. */
  function AfterDeleted(rel: Path, r: Tree): (t: Tree)
    requires Valid(r)
    ensures Valid(t)
  {
    if DirectoryExists(r, rel) then DeleteDirectory(r, rel).value
    else if FileExists(r, rel) then DeleteFile(r, rel).value
    else r
  }

  /** OnRenamed: the replica entry at the old path moves to the new path. */
  function AfterRenamed(oldRel: Path, newRel: Path, r: Tree): (t: Tree)
    requires newRel != [] && Valid(r)
    ensures Valid(t)
  {
    if DirectoryExists(r, oldRel) then
      match MoveDirectory(r, oldRel, newRel)
      case None => r
      case Some(moved) => moved
    else if FileExists(r, oldRel) then
      match CreateDirectory(r, Parent(newRel))
      case None => r
      case Some(withParent) =>
        match MoveFile(withParent, oldRel, newRel)
        case None => withParent
        case Some(moved) => moved
    else r
  }

  /**
   * When nothing in the way is a file and the destination is not a
   * directory, the copy puts the bytes at `rel`, makes every directory
   * above it exist, and changes nothing else.
   */
  lemma CopyPlacesFile(data: Bytes, rel: Path, r: Tree)
    requires rel != [] && Valid(r)
    requires !Blocked(r, Parent(rel)) && !DirectoryExists(r, rel)
    ensures var t := AfterCopy(data, rel, r);
            && t.Keys == r.Keys + Prefixes(rel)
            && t[rel] == File(data)
            && (forall a :: a < rel ==> DirectoryExists(t, a))
            && (forall q :: q in r && q != rel ==> t[q] == r[q])
  {
    var withParent := CreateDirectory(r, Parent(rel)).value;
    assert rel !in Prefixes(Parent(rel));
    forall a | a in Prefixes(rel) && a != rel ensures a in Prefixes(Parent(rel)) {
      assert a == Parent(rel)[..|a|];
    }
    forall a | a in Prefixes(Parent(rel)) ensures a in Prefixes(rel) {
      assert a == rel[..|a|];
    }
    assert Prefixes(rel) == Prefixes(Parent(rel)) + {rel};
  }

  /** The copy of one event, applied again, changes nothing more. */
  lemma {:induction false} CopyIdempotent(data: Bytes, rel: Path, r: Tree)
    requires rel != [] && Valid(r)
    ensures AfterCopy(data, rel, AfterCopy(data, rel, r)) == AfterCopy(data, rel, r)
  {
    var t := AfterCopy(data, rel, r);
    match CreateDirectory(r, Parent(rel))
    case None =>
    case Some(withParent) =>
      CreateDirectoryIdempotent(r, Parent(rel));
      CreateExistingDirectory(t, Parent(rel));
      match CopyFile(withParent, rel, data)
      case None =>
      case Some(copied) =>
        assert copied[rel := File(data)] == copied;
  }

  /** Applying the same Created event twice gives the replica that applying it once does. */
  lemma CreatedIdempotent(source: Tree, rel: Path, r: Tree)
    requires rel != [] && Valid(r)
    ensures AfterCreated(source, rel, AfterCreated(source, rel, r)) == AfterCreated(source, rel, r)
  {
    if DirectoryExists(source, rel) {
      if CreateDirectory(r, rel).Some? { CreateDirectoryIdempotent(r, rel); }
    } else if FileExists(source, rel) {
      CopyIdempotent(source[rel].data, rel, r);
    }
  }

  /** Applying the same Changed event twice gives the replica that applying it once does. */
  lemma ChangedIdempotent(source: Tree, rel: Path, r: Tree)
    requires rel != [] && Valid(r)
    ensures AfterChanged(source, rel, AfterChanged(source, rel, r)) == AfterChanged(source, rel, r)
  {
    if FileExists(source, rel) {
      CopyIdempotent(source[rel].data, rel, r);
    }
  }

  /** For a source file, Created and Changed have the same effect; Changed ignores directories. */
  lemma ChangedIsCreatedForFiles(source: Tree, rel: Path, r: Tree)
    requires rel != [] && Valid(r)
    ensures FileExists(source, rel) ==> AfterChanged(source, rel, r) == AfterCreated(source, rel, r)
    ensures !FileExists(source, rel) ==> AfterChanged(source, rel, r) == r
  {
  }

  /**
   * A Created event for a source directory leaves that directory, and all
   * directories above it, in the replica unless one of them is a file; it
   * adds only those directories and keeps every other entry as it was.
   */
  lemma CreatedDirectoryExists(source: Tree, rel: Path, r: Tree)
    requires rel != [] && Valid(r) && DirectoryExists(source, rel)
    ensures !Blocked(r, rel) ==> forall a :: a <= rel ==> DirectoryExists(AfterCreated(source, rel, r), a)
    ensures !Blocked(r, rel) ==> AfterCreated(source, rel, r).Keys == r.Keys + Prefixes(rel)
    ensures !Blocked(r, rel) ==> forall q :: q in r ==> AfterCreated(source, rel, r)[q] == r[q]
    ensures Blocked(r, rel) ==> AfterCreated(source, rel, r) == r
  {
  }

  /**
   * After a Deleted event nothing is left at or below the path, and every
   * other entry is as it was.
   */
  lemma DeletedRemovesSubtree(rel: Path, r: Tree)
    requires Valid(r)
    ensures var t := AfterDeleted(rel, r);
            && (forall q :: rel <= q ==> q !in t)
            && (forall q :: q in r && !(rel <= q) ==> q in t && t[q] == r[q])
            && (forall q :: q in t ==> q in r)
  {
    if !DirectoryExists(r, rel) {
      forall q | rel <= q ensures q !in AfterDeleted(rel, r) {
        if q != rel && q in r { AncestorIsDir(r, q, rel); }
      }
    }
  }

  /** A second Deleted event for the same path changes nothing. */
  lemma DeletedIdempotent(rel: Path, r: Tree)
    requires Valid(r)
    ensures AfterDeleted(rel, AfterDeleted(rel, r)) == AfterDeleted(rel, r)
  {
    DeletedRemovesSubtree(rel, r);
    var t := AfterDeleted(rel, r);
    assert rel !in t;
  }

  /**
   * A Renamed event whose old path holds a directory moves the whole subtree
   * to the new path, when Directory.Move accepts it; with nothing at the
   * old path the replica is left alone.
   */
  lemma RenamedMovesDirectory(oldRel: Path, newRel: Path, r: Tree)
    requires newRel != [] && Valid(r) && DirectoryExists(r, oldRel)
    requires newRel !in r && !(oldRel <= newRel) && DirectoryExists(r, Parent(newRel))
    ensures var t := AfterRenamed(oldRel, newRel, r);
            && (forall q :: oldRel <= q ==> q !in t)
            && (forall s :: newRel + s in t <==> oldRel + s in r)
            && (forall s :: oldRel + s in r ==> t[newRel + s] == r[oldRel + s])
            && (forall q :: !(oldRel <= q) && !(newRel <= q) ==> (q in t <==> q in r) && (q in r ==> t[q] == r[q]))
  {
  }

  /** A Renamed event whose old path holds a directory that Directory.Move refuses to move changes nothing. */
  lemma RenamedDirectoryRefused(oldRel: Path, newRel: Path, r: Tree)
    requires newRel != [] && Valid(r) && DirectoryExists(r, oldRel)
    requires newRel in r || oldRel <= newRel || !DirectoryExists(r, Parent(newRel))
    ensures AfterRenamed(oldRel, newRel, r) == r
  {
  }

  /** A Renamed event whose old path holds nothing in the replica changes nothing. */
  lemma RenamedMissingIsNoOp(oldRel: Path, newRel: Path, r: Tree)
    requires newRel != [] && Valid(r) && oldRel !in r
    ensures AfterRenamed(oldRel, newRel, r) == r
  {
  }

  /**
   * A Renamed event whose old path holds a file, with the new path free and
   * no file above it, moves the bytes and removes the old entry.
   */
  lemma RenamedMovesFile(oldRel: Path, newRel: Path, r: Tree)
    requires newRel != [] && Valid(r) && FileExists(r, oldRel)
    requires newRel !in r && !Blocked(r, Parent(newRel))
    ensures var t := AfterRenamed(oldRel, newRel, r);
            && oldRel !in t
            && t[newRel] == r[oldRel]
            && t.Keys == r.Keys + Prefixes(Parent(newRel)) - {oldRel} + {newRel}
            && (forall q :: q in r && q != oldRel ==> q in t && t[q] == r[q])
  {
    var withParent := CreateDirectory(r, Parent(newRel)).value;
    assert newRel !in Prefixes(Parent(newRel));
    assert oldRel !in Prefixes(Parent(newRel));
  }
}
