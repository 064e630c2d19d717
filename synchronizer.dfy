/**
 * The synchronizer: the replica directory is the mutable state, the source
 * directory a snapshot handed to each operation. A full pass mirrors the
 * source onto the replica and then cleans the replica up; the change-event
 * handlers apply the library calls of their event to the replica (for a
 * file, creating its directory and then copying or moving it).
 *
 * Both trees are keyed by paths relative to their roots (the source tree by
 * paths below `sourceRoot`, the replica tree by paths below `replicaRoot`),
 * so the source-side directory `sourceRoot + rel` and the replica-side
 * directory `replicaRoot + rel` that the walks visit together share the key
 * `rel`.
 */
module Synchronization {
  import opened Wrappers
  import opened Paths
  import opened FileSystem
  import opened Comparator
  import opened FullPassSpec
  import opened EventSpec
  import opened Walks

  /** How a full pass ends. */
  datatype SyncOutcome =
    | Synchronized   // both walks ran to the end
    | SourceNotFound // DirectoryNotFoundException before anything is touched
    | IoFailure      // creating the replica root or a library call of Mirror threw; Cleanup never ran

  /** How a handler ends: it did its work, found nothing to do, or caught and logged an exception. */
  datatype Status = Applied | Ignored | Failed

  class Synchronizer {
    const sourceRoot: Path
    const replicaRoot: Path
    /** The digest the comparator uses (MD5 in the program). */
    const digest: Hash
    /** The replica directory's contents, relative to `replicaRoot`. */
    var replica: Tree

    constructor(sourceRoot: Path, replicaRoot: Path, digest: Hash, replica: Tree)
      requires Valid(replica)
      ensures this.sourceRoot == sourceRoot && this.replicaRoot == replicaRoot
      ensures this.digest == digest && this.replica == replica
    {
      this.sourceRoot := sourceRoot;
      this.replicaRoot := replicaRoot;
      this.digest := digest;
      this.replica := replica;
    }

    /**
     * MirrorAsync(sourceRoot + dir, replicaRoot + dir): copy the files of
     * `dir` that the comparator finds missing or different, then create each
     * subdirectory and mirror it. It throws (ok is false) exactly when a
     * source path meets a replica entry of the other kind; then everything
     * outside the source's subtree is still as it was.
     */
    method Mirror(source: Tree, dir: Path) returns (ok: bool, copied: set<Path>)
      requires Valid(source) && Valid(replica)
      requires DirectoryExists(source, dir) && DirectoryExists(replica, dir)
      modifies this
      decreases Below(source, dir), 1
      ensures Valid(replica)
      ensures ok <==> Compatible(Subtree(source, dir), old(replica))
      ensures ok ==> replica == Mirrored(digest, Subtree(source, dir), old(replica))
      ensures ok ==> copied == Stale(digest, Subtree(source, dir), old(replica))
      ensures UnchangedOutside(old(replica), replica, Subtree(source, dir))
    {
      ghost var r0 := replica;
      ghost var whole := Subtree(source, dir);
      ghost var done: set<Path> := {};
      HandledNothing(source, dir);
      MirroredExistingDir(digest, dir, r0);
      copied := {};

      var files := set c | c in source && IsChild(dir, c) && source[c].File?;
      var todo := files;
      while todo != {}
        invariant todo <= files && done <= files && done !! todo
        invariant forall c :: c in source && IsChild(dir, c) && source[c].File? && c !in todo ==> c in done
        invariant Valid(replica) && DirectoryExists(replica, dir)
        invariant replica == Mirrored(digest, Handled(source, dir, done), r0)
        invariant copied == Stale(digest, Handled(source, dir, done), r0)
        invariant Compatible(Handled(source, dir, done), r0)
        decreases todo
      {
        var c :| c in todo;
        todo := todo - {c};
        MirrorFileHandled(digest, source, dir, done, c, r0, replica);
        ChildParent(dir, c);
        var copiedOne, copiedFile := CopyIfChanged(source, c);
        if !copiedOne {
          HandledConflict(source, dir, done + {c}, r0);
          MirroredUnchangedOutside(digest, Handled(source, dir, done), whole, r0);
          return false, copied;
        }
        copied := copied + if copiedFile then {c} else {};
        done := done + {c};
      }

      var dirs := set c | c in source && IsChild(dir, c) && source[c].Dir?;
      todo := dirs;
      while todo != {}
        invariant todo <= dirs && done !! todo
        invariant forall c :: c in source && IsChild(dir, c) && c !in todo ==> c in done
        invariant Valid(replica) && DirectoryExists(replica, dir)
        invariant replica == Mirrored(digest, Handled(source, dir, done), r0)
        invariant copied == Stale(digest, Handled(source, dir, done), r0)
        invariant Compatible(Handled(source, dir, done), r0)
        decreases todo
      {
        var c :| c in todo;
        todo := todo - {c};
        MirrorDirHandled(digest, source, dir, done, c, r0, replica);
        MirroredUnchangedOutside(digest, Handled(source, dir, done), whole, r0);
        ChildParent(dir, c);
        SubtreeNested(source, dir, c);
        BelowShrinks(source, dir, c);
        ghost var rb := replica;
        var okSub, copiedSub := MirrorSubdirectory(source, c);
        UnchangedOutsideTrans(r0, rb, replica, whole, Subtree(source, c));
        if !okSub {
          HandledConflict(source, dir, done + {c}, r0);
          return false, copied;
        }
        copied := copied + copiedSub;
        done := done + {c};
      }
      HandledAll(source, dir, done);
      MirroredUnchangedOutside(digest, whole, whole, r0);
      ok := true;
    }

    /**
     * One directory of MirrorAsync's second loop: create the replica
     * directory `c` and mirror the source directory `c` into it. Creating it
     * throws exactly when the replica holds a file there.
     */
    method MirrorSubdirectory(source: Tree, c: Path) returns (ok: bool, copied: set<Path>)
      requires Valid(source) && Valid(replica) && c != []
      requires DirectoryExists(source, c) && DirectoryExists(replica, Parent(c))
      modifies this
      decreases Below(source, Parent(c)), 0
      ensures Valid(replica)
      ensures ok <==> Compatible(Subtree(source, c), old(replica))
      ensures ok ==> replica == Mirrored(digest, Subtree(source, c), old(replica))
      ensures ok ==> copied == Stale(digest, Subtree(source, c), old(replica))
      ensures UnchangedOutside(old(replica), replica, Subtree(source, c))
    {
      ghost var sc := Subtree(source, c);
      CreateChildDirectory(replica, c);
      match CreateDirectory(replica, c)
      case None =>
        assert c in sc;
        return false, {};
      case Some(t) =>
        ghost var r0 := replica;
        replica := t;
        MirrorDirStep(digest, source, c, r0, replica);
        BelowShrinks(source, Parent(c), c);
        ok, copied := Mirror(source, c);
        UnchangedOutsideTrans(r0, t, replica, sc, sc);
    }

    /**
     * One file of MirrorAsync's first loop: copy the source file at `c`
     * unless the replica holds a file there with the same content (as the
     * comparator tells). The copy throws (ok is false) exactly when the
     * replica holds a directory at `c`, and then nothing has changed.
     */
    method CopyIfChanged(source: Tree, c: Path) returns (ok: bool, copiedFile: bool)
      requires Valid(replica) && FileExists(source, c) && c != [] && DirectoryExists(replica, Parent(c))
      modifies this
      ensures Valid(replica)
      ensures ok <==> !DirectoryExists(old(replica), c)
      ensures copiedFile <==> ok && NeedsCopy(digest, source, old(replica), c)
      ensures ok ==> replica == if NeedsCopy(digest, source, old(replica), c) then old(replica)[c := source[c]] else old(replica)
      ensures !ok ==> replica == old(replica)
    {
      ok, copiedFile := true, false;
      if !FileExists(replica, c) || !SameContent(digest, source[c].data, replica[c].data) {
        CreateExistingDirectory(replica, Parent(c));
        replica := CreateDirectory(replica, Parent(c)).value;
        match CopyFile(replica, c, source[c].data)
        case None =>
          ok := false;
        case Some(t) =>
          assert t == replica[c := source[c]];
          replica := t;
          copiedFile := true;
      }
    }

    /**
     * Cleanup(sourceRoot + dir, replicaRoot + dir): delete each file of the
     * replica's `dir` that is not a file in the source, then delete each
     * subdirectory that is not a directory in the source and clean up the
     * others. It only removes entries strictly below `dir`, and removes
     * exactly those with no counterpart of the same kind in the source.
     */
    method Cleanup(source: Tree, dir: Path)
      requires Valid(source) && Valid(replica)
      requires DirectoryExists(source, dir) && DirectoryExists(replica, dir)
      modifies this
      decreases Below(source, dir)
      ensures replica == Pruned(source, old(replica), dir)
    {
      ghost var r0 := replica;
      ghost var done: set<Path> := {};
      PrunedNothing(source, r0, dir);

      var files := set c | c in replica && IsChild(dir, c) && replica[c].File?;
      var todo := files;
      while todo != {}
        invariant todo <= files && done <= files && done !! todo
        invariant forall c :: c in files && c !in todo ==> c in done
        invariant Valid(replica)
        invariant replica == PrunedPart(source, r0, dir, done)
        decreases todo
      {
        var c :| c in todo;
        todo := todo - {c};
        if !FileExists(source, c) {
          PrunedDeleteFile(source, r0, dir, done, c);
          replica := DeleteFile(replica, c).value;
        } else {
          PrunedKeepFile(source, r0, dir, done, c);
        }
        done := done + {c};
      }

      var dirs := set c | c in replica && IsChild(dir, c) && replica[c].Dir?;
      forall c | c in r0 && IsChild(dir, c) ensures c in files + dirs {
        assert EntryOf(dir, c) == c;
      }
      todo := dirs;
      while todo != {}
        invariant todo <= dirs && done <= files + dirs && done !! todo
        invariant forall c :: c in files + dirs && c !in todo ==> c in done
        invariant forall c :: c in r0 && IsChild(dir, c) ==> c in files + dirs
        invariant Valid(replica)
        invariant replica == PrunedPart(source, r0, dir, done)
        decreases todo
      {
        var c :| c in todo;
        todo := todo - {c};
        if !DirectoryExists(source, c) {
          PrunedDeleteDir(source, r0, dir, done, c);
          replica := DeleteDirectory(replica, c).value;
        } else {
          PrunedRecurse(source, r0, dir, done, c);
          BelowShrinks(source, dir, c);
          Cleanup(source, c);
        }
        done := done + {c};
      }
      PrunedAll(source, r0, dir, done);
    }

    /**
     * SynchronizeAsync: a missing source root throws before the replica is
     * touched; otherwise the replica root is created, the source mirrored
     * onto the replica, and the replica cleaned up. A mirror that throws
     * ends the pass before Cleanup, leaving every replica path that the
     * source lacks as it was.
     */
    method Synchronize(source: Tree) returns (outcome: SyncOutcome, copied: set<Path>)
      requires Valid(source) && Valid(replica)
      modifies this
      ensures Valid(replica)
      ensures outcome == SourceNotFound <==> !DirectoryExists(source, [])
      ensures outcome == SourceNotFound ==> replica == old(replica)
      ensures outcome == Synchronized <==> DirectoryExists(source, []) && Compatible(source, old(replica))
      ensures outcome == Synchronized ==> replica == Pruned(source, Mirrored(digest, source, old(replica)), [])
      ensures outcome == Synchronized ==> copied == Stale(digest, source, old(replica))
      ensures outcome == Synchronized ==>
                replica.Keys == source.Keys && forall q :: q in source ==> Equivalent(digest, source[q], replica[q])
      ensures outcome == Synchronized && CollisionFree(digest) ==> replica == source
      ensures outcome == IoFailure ==> UnchangedOutside(old(replica), replica, source)
    {
      copied := {};
      if !DirectoryExists(source, []) {
        return SourceNotFound, copied;
      }
      ghost var r0 := replica;
      assert Subtree(source, []) == source;
      CreateRootDirectory(replica);
      match CreateDirectory(replica, [])
      case None =>
        assert [] in source && [] in r0;
        return IoFailure, copied;
      case Some(t) =>
        replica := t;
        MirrorDirStep(digest, source, [], r0, replica);
        var ok;
        ok, copied := Mirror(source, []);
        if !ok {
          UnchangedOutsideTrans(r0, t, replica, source, source);
          return IoFailure, copied;
        }
        Cleanup(source, []);
        FullPassConverges(digest, source, r0);
        outcome := Synchronized;
    }

    /** The replica-side key of a source-side event path. */
    function ReplicaKey(path: Path): (key: Path)
      requires sourceRoot <= path
      reads this
      ensures key == Relative(sourceRoot, path)
    {
      Relative(replicaRoot, ToReplica(sourceRoot, replicaRoot, path))
    }

    /**
     * OnCreated: a new source directory is created in the replica, a new
     * source file copied there after creating its directory. The handler
     * ends normally whatever the library calls do.
     */
    method OnCreated(source: Tree, path: Path) returns (status: Status)
      requires Valid(replica) && sourceRoot < path
      modifies this
      ensures replica == AfterCreated(source, Relative(sourceRoot, path), old(replica))
      ensures var rel := Relative(sourceRoot, path);
              && (status == Ignored <==> rel !in source)
              && (status == Applied <==> rel in source && rel in replica && replica[rel] == source[rel])
    {
      var rel := Relative(sourceRoot, path);
      var key := ReplicaKey(path);
      if DirectoryExists(source, rel) {
        if DirectoryExists(replica, key) { CreateExistingDirectory(replica, key); }
        match CreateDirectory(replica, key)
        case None =>
          status := Failed;
        case Some(t) =>
          replica := t;
          status := Applied;
      } else if FileExists(source, rel) {
        status := CopyIn(source[rel].data, key);
      } else {
        status := Ignored;
      }
    }

    /** OnChanged: a changed source file is copied again; a directory is ignored. */
    method OnChanged(source: Tree, path: Path) returns (status: Status)
      requires Valid(replica) && sourceRoot < path
      modifies this
      ensures replica == AfterChanged(source, Relative(sourceRoot, path), old(replica))
      ensures var rel := Relative(sourceRoot, path);
              && (status == Ignored <==> !FileExists(source, rel))
              && (status == Applied <==> FileExists(source, rel) && rel in replica && replica[rel] == source[rel])
    {
      var rel := Relative(sourceRoot, path);
      var key := ReplicaKey(path);
      if FileExists(source, rel) {
        status := CopyIn(source[rel].data, key);
      } else {
        status := Ignored;
      }
    }

    /**
     * The copy both OnCreated and OnChanged make: create the destination's
     * directory, then File.Copy with overwrite. Applied exactly when the
     * bytes landed.
     */
    method CopyIn(data: Bytes, key: Path) returns (status: Status)
      requires Valid(replica) && key != []
      modifies this
      ensures replica == AfterCopy(data, key, old(replica))
      ensures status != Ignored
      ensures status == Applied <==> key in replica && replica[key] == File(data)
    {
      var dest := Combine(replicaRoot, key);
      CombineParent(replicaRoot, key);
      match CreateDirectory(replica, Relative(replicaRoot, Parent(dest)))
      case None =>
        BlockedBelow(replica, Parent(key), key);
        status := Failed;
      case Some(withParent) =>
        replica := withParent;
        match CopyFile(replica, key, data)
        case None =>
          status := Failed;
        case Some(t) =>
          replica := t;
          status := Applied;
    }

    /** OnDeleted: whatever the replica holds at the path goes, with everything below it. */
    method OnDeleted(path: Path) returns (status: Status)
      requires Valid(replica) && sourceRoot < path
      modifies this
      ensures replica == AfterDeleted(Relative(sourceRoot, path), old(replica))
      ensures status != Failed
      ensures status == Ignored <==> Relative(sourceRoot, path) !in old(replica)
    {
      var key := ReplicaKey(path);
      if DirectoryExists(replica, key) {
        replica := DeleteDirectory(replica, key).value;
        status := Applied;
      } else if FileExists(replica, key) {
        replica := DeleteFile(replica, key).value;
        status := Applied;
      } else {
        status := Ignored;
      }
    }

    /**
     * OnRenamed: the replica entry at the old path moves to the new path (a
     * file after creating the new path's directory). Applied exactly when
     * the entry left the old path and arrived at the new one.
     */
    method OnRenamed(oldPath: Path, path: Path) returns (status: Status)
      requires Valid(replica) && sourceRoot < oldPath && sourceRoot < path
      modifies this
      ensures replica == AfterRenamed(Relative(sourceRoot, oldPath), Relative(sourceRoot, path), old(replica))
      ensures var oldRel, newRel := Relative(sourceRoot, oldPath), Relative(sourceRoot, path);
              && (status == Ignored <==> oldRel !in old(replica))
              && (status == Applied <==>
                    oldRel in old(replica) && oldRel !in replica && newRel in replica
                    && replica[newRel] == old(replica)[oldRel])
    {
      var oldKey := ReplicaKey(oldPath);
      var newKey := ReplicaKey(path);
      if DirectoryExists(replica, oldKey) {
        match MoveDirectory(replica, oldKey, newKey)
        case None =>
          status := Failed;
        case Some(t) =>
          assert oldKey + [] == oldKey && newKey + [] == newKey;
          replica := t;
          status := Applied;
      } else if FileExists(replica, oldKey) {
        var newDest := Combine(replicaRoot, newKey);
        CombineParent(replicaRoot, newKey);
        match CreateDirectory(replica, Relative(replicaRoot, Parent(newDest)))
        case None =>
          status := Failed;
        case Some(withParent) =>
          replica := withParent;
          match MoveFile(replica, oldKey, newKey)
          case None =>
            status := Failed;
          case Some(t) =>
            replica := t;
            status := Applied;
      } else {
        status := Ignored;
      }
    }
  }
}
