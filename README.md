# Folders_Sync in Dafny

A model of the synchronizer of Folders_Sync. The program keeps a replica
directory identical to a source directory in two ways:

- a periodic full pass (`SynchronizeAsync`). It mirrors every source file the
  replica lacks or holds with different content, then cleans up every replica
  entry the source lacks;
- file-system change events (`OnCreated`, `OnChanged`, `OnDeleted`,
  `OnRenamed`). Each applies the library calls for the event to the mapped
  replica path: one call for a directory or a deletion, and for a file the
  creation of its directory followed by the copy or the move.

The model also covers the command-line validation in `Config.Parse`.

Directories are modelled as trees: `FileSystem.Tree` maps each path, taken
relative to the tree's root, to a file (its bytes) or a directory. `Valid`
says every entry lies in a directory of the tree. The .NET calls the
synchronizer makes each become a function that answers `None` exactly where
the call throws:

- `Directory.CreateDirectory`;
- `File.Copy` with overwrite;
- `File.Delete`;
- `Directory.Delete` (recursive);
- `Directory.Move`;
- `File.Move`.

`Synchronization.Synchronizer` is a class:

- `replica` is its mutable state;
- the source tree is a snapshot passed to each operation;
- the two walks are methods with loops over the entries of a directory, and
  they recurse into subdirectories.

Each walk is proved against a specification function:

- `FullPassSpec.Mirrored` and `Stale` for MirrorAsync;
- `FullPassSpec.Pruned` for Cleanup;
- `EventSpec.After*` for the handlers.

The properties are lemmas about those functions: convergence, idempotence,
and what stays unchanged.

The comparator `HasSameContentAsync` compares MD5 digests. In the model the
digest is an arbitrary function `Comparator.Hash`. Without more, a full pass
only guarantees "same length and same digest" (`Comparator.Equivalent`).
Under `CollisionFree(digest)` it guarantees byte equality
(`Synchronize`, `FullPassConverges`). `ComparatorTrustsDigest` shows that
the assumption is needed.

A path that is a file on one side and a directory on the other is a kind
conflict. `File.Copy` or `Directory.CreateDirectory` then throws inside
MirrorAsync, and the exception ends the pass before Cleanup. `Mirror`
returns `ok == false` exactly when such a conflict exists
(`FullPassSpec.Compatible`). `Synchronize` then reports `IoFailure` and
leaves every replica path the source lacks untouched.

## Model

| member | source | states |
|---|---|---|
| Paths.Relative | Synchronizer.cs:58 | The relative path appended to the root gives the path back, and its length is the difference of the two lengths. |
| Paths.Combine | Synchronizer.cs:59 | The combined path lies under the root, and taking it relative to the root gives back the relative part. |
| Paths.ToReplicaRoundTrip | Synchronizer.cs:58-59 | Mapping a source path to the replica and back gives the source path. |
| Paths.ToReplicaInjective | Synchronizer.cs:124-127 | Two distinct source paths, such as the old and new paths of a rename, map to distinct replica paths. |
| Paths.ToReplicaParent | Synchronizer.cs:135 | The directory of the replica path is the replica image of the directory of the source path. |
| Paths.CombineParent | Synchronizer.cs:67 | `GetDirectoryName(dest)`, taken relative to the replica root, is the directory of the relative path. |
| FileSystem.DirectoryExists | Synchronizer.cs:180 | Directory.Exists is true only for a path in the tree, and in a valid tree an existing directory (other than the root) lies in an existing directory. |
| FileSystem.FileExists | Synchronizer.cs:171 | File.Exists is true exactly for an entry that is not a directory, and in a valid tree such a file (other than the root) lies in an existing directory. |
| FileSystem.CreateDirectory | Synchronizer.cs:161 | Directory.CreateDirectory throws iff some prefix of the path is a file. Otherwise it adds exactly the missing prefixes, as directories. All earlier entries are kept, and the tree stays valid. |
| FileSystem.CreateExistingDirectory | Synchronizer.cs:153 | Creating a directory that exists changes nothing. |
| FileSystem.CreateChildDirectory | Synchronizer.cs:161 | Inside an existing directory, creating an entry throws iff it is a file. Otherwise it adds only that directory. |
| FileSystem.CreateRootDirectory | Synchronizer.cs:26 | Creating the replica root throws iff the root is a file. Otherwise it adds only the root. |
| FileSystem.CreateDirectoryIdempotent | Synchronizer.cs:62 | Creating the same directory twice has the effect of creating it once. |
| FileSystem.BlockedBelow | Synchronizer.cs:67-68 | When creating a directory throws, nothing exists below that directory. |
| FileSystem.CopyFile | Synchronizer.cs:154 | File.Copy with overwrite succeeds iff the destination's directory exists and the destination is not a directory. It then adds or replaces just the destination, with the given bytes, and keeps the tree valid. |
| FileSystem.DeleteFile | Synchronizer.cs:173 | File.Delete throws iff the path is a directory or its directory does not exist (missing, or a file). Otherwise it removes that path only, which is a no-op when the path is missing. |
| FileSystem.DeleteDirectory | Synchronizer.cs:182 | Directory.Delete with recursion throws iff the path is not a directory. Otherwise it removes the path and everything below it, keeps all else, and keeps the tree valid. |
| FileSystem.MoveDirectory | Synchronizer.cs:130 | Directory.Move, which moves a file or a directory, succeeds iff: the source exists, the target is absent and not inside the source, and the target's directory exists. The whole subtree is then re-rooted at the target, nothing else changes, and the tree stays valid. |
| FileSystem.MoveFile | Synchronizer.cs:136 | File.Move succeeds iff the source is a file, the target is absent and the target's directory exists. The bytes then move, and all else is kept. |
| Comparator.SameContent | Synchronizer.cs:189-200 | Different lengths give false, and identical bytes give true. The answer is true exactly when the lengths and the digests are equal. With a collision-free digest, the answer is byte equality. |
| Comparator.EquivalentIsEqual | Synchronizer.cs:199 | With a collision-free digest, entries the comparator cannot tell apart are equal. |
| Comparator.ComparatorTrustsDigest | Synchronizer.cs:193-199 | With a digest that ignores its input, different bytes of equal length compare as the same content. |
| FullPassSpec.Mirrored | Synchronizer.cs:146-164 | Mirroring keeps every replica path and adds every source path. Each source path then holds an entry equivalent to the source's, and every other replica path is unchanged. With a collision-free digest, each source path holds the source's entry exactly. Mirroring writes only what the comparator calls stale: such a source file gets the source's bytes, a source file the comparator accepts keeps the replica's bytes, and a source directory is a directory afterwards. |
| FullPassSpec.NeedsCopy | Synchronizer.cs:151 | A source file is copied whenever the replica has no file there, and never when the replica holds identical bytes. With a collision-free digest it is copied exactly when the replica lacks a file with the same bytes. |
| FullPassSpec.Stale | Synchronizer.cs:151 | The files copied are exactly the source files whose replica copy is missing or compares different. |
| FullPassSpec.Pruned | Synchronizer.cs:166-187 | Cleanup only removes. It keeps everything not strictly below the directory, and every entry whose source counterpart has the same kind. It removes every other entry below the directory, and keeps the tree valid. |
| FullPassSpec.Matches | Synchronizer.cs:171-180 | A replica entry survives Cleanup's test iff: for a replica directory, Directory.Exists holds for the source path; for a replica file, File.Exists holds for it. |
| FullPassSpec.MatchImpliesAncestorMatches | Synchronizer.cs:180-185 | A replica entry with a same-kind source counterpart lies in directories that also have source directories. So recursion into surviving directories reaches every entry Cleanup keeps. |
| FullPassSpec.MirroredValid | Synchronizer.cs:146-164 | Mirroring a conflict-free source onto a valid replica gives a valid replica. |
| FullPassSpec.MirroredCompose | Synchronizer.cs:148-163 | Mirroring two parts one after the other is mirroring them together, when they share only directories. The copies made and the conflicts found add up. |
| FullPassSpec.MirroredExistingDir | Synchronizer.cs:153 | Mirroring a directory the replica already holds changes nothing and copies nothing. |
| FullPassSpec.FullPassConverges | Synchronizer.cs:21-30 | Given no kind conflicts, Mirror then Cleanup leaves exactly the source's paths. Each holds content the comparator calls the source's, and with a collision-free digest the replica equals the source. |
| FullPassSpec.SecondPassChangesNothing | Synchronizer.cs:151-156 | After a full pass, a second pass over the unchanged source copies nothing and deletes nothing, whatever the digest. |
| Walks.MirrorFileHandled | Synchronizer.cs:148-157 | One file step of MirrorAsync extends the mirrored part by that file. It copies exactly when the comparator asks, and it conflicts exactly when the replica holds a directory there. |
| Walks.MirrorDirHandled | Synchronizer.cs:158-163 | One directory step of MirrorAsync extends the mirrored part by that directory's whole subtree. |
| Walks.PrunedKeepFile | Synchronizer.cs:171 | A replica file whose source counterpart is a file survives Cleanup. |
| Walks.PrunedDeleteFile | Synchronizer.cs:171-175 | A replica file without a source file at that path is the only entry the step removes. |
| Walks.PrunedDeleteDir | Synchronizer.cs:180-183 | A replica directory without a source directory at that path goes with its whole subtree. |
| Walks.PrunedRecurse | Synchronizer.cs:185 | A directory on both sides is cleaned up recursively, and that is the whole effect of the step. |
| EventSpec.AfterCopy | Synchronizer.cs:67-68 | Creating the destination's directory and copying keeps the replica valid, whichever call throws. |
| EventSpec.AfterCreated | Synchronizer.cs:54-76 | OnCreated keeps the replica valid. |
| EventSpec.AfterChanged | Synchronizer.cs:78-95 | OnChanged keeps the replica valid. |
| EventSpec.AfterDeleted | Synchronizer.cs:97-118 | OnDeleted keeps the replica valid. |
| EventSpec.AfterRenamed | Synchronizer.cs:120-144 | OnRenamed keeps the replica valid. |
| EventSpec.CopyPlacesFile | Synchronizer.cs:67-68 | When nothing in the way is a file and the destination is not a directory, the copy does three things. It puts the bytes at the path, makes every directory above it exist, and changes nothing else. |
| EventSpec.CopyIdempotent | Synchronizer.cs:67-68 | Copying the same bytes to the same path twice equals copying once. |
| EventSpec.CreatedIdempotent | Synchronizer.cs:54-76 | Applying OnCreated twice gives the replica that applying it once gives. |
| EventSpec.ChangedIdempotent | Synchronizer.cs:78-95 | Applying OnChanged twice gives the replica that applying it once gives. |
| EventSpec.ChangedIsCreatedForFiles | Synchronizer.cs:84-87 | For a source file, OnChanged has the effect of OnCreated. For anything else, it does nothing. |
| EventSpec.CreatedDirectoryExists | Synchronizer.cs:60-63 | OnCreated for a source directory makes the directory and all directories above it exist, unless one of them is a file. In that case the replica is unchanged. Otherwise it adds exactly the missing directories and keeps every other entry as it was. |
| EventSpec.DeletedRemovesSubtree | Synchronizer.cs:103-112 | After OnDeleted, nothing is at or below the path, and everything else is as it was. |
| EventSpec.DeletedIdempotent | Synchronizer.cs:97-118 | A second OnDeleted for the same path changes nothing. |
| EventSpec.RenamedMovesDirectory | Synchronizer.cs:128-131 | A renamed directory's whole subtree moves to the new path, and nothing is left at the old one. Every entry outside the old and new subtrees is unchanged. |
| EventSpec.RenamedDirectoryRefused | Synchronizer.cs:128-130 | When Directory.Move refuses the move, the replica is unchanged. That happens when the target exists, lies inside the directory, or has no parent directory. |
| EventSpec.RenamedMissingIsNoOp | Synchronizer.cs:128-138 | With nothing at the old path, OnRenamed leaves the replica alone. |
| EventSpec.RenamedMovesFile | Synchronizer.cs:133-137 | A renamed file's bytes move to the new path, and the old entry goes. The only keys added are the new path and the missing directories above it, and all else is kept. |
| Synchronization.Synchronizer.constructor | Synchronizer.cs:15-19 | It records the two roots, the digest and the replica's initial contents. |
| Synchronization.Synchronizer.Mirror | Synchronizer.cs:146-164 | MirrorAsync throws iff the source subtree conflicts in kind with the replica. On success, the replica is `Mirrored` and the files copied are `Stale`. In every case the replica is valid and unchanged outside the source subtree. |
| Synchronization.Synchronizer.CopyIfChanged | Synchronizer.cs:150-156 | One file is copied iff the comparator finds it missing or different. The copy throws iff the replica holds a directory there, and then nothing changed. |
| Synchronization.Synchronizer.MirrorSubdirectory | Synchronizer.cs:160-162 | Creating the replica directory throws iff a file is there. Otherwise the subtree is mirrored, with the same contract as `Mirror`. |
| Synchronization.Synchronizer.Cleanup | Synchronizer.cs:166-187 | The replica afterwards is `Pruned`: only entries strictly below the directory without a same-kind source counterpart are gone. |
| Synchronization.Synchronizer.Synchronize | Synchronizer.cs:21-30 | A missing source throws before the replica is touched. The pass completes iff nothing conflicts in kind, and then it leaves exactly the source's paths with equivalent contents. With a collision-free digest, the replica then equals the source. On a failure, every path the source lacks is untouched. |
| Synchronization.Synchronizer.ReplicaKey | Synchronizer.cs:58-59 | The replica key of an event path is its replica counterpart, taken relative to the replica root. That is the path relative to the source root. |
| Synchronization.Synchronizer.OnCreated | Synchronizer.cs:54-76 | The replica becomes `AfterCreated`. The handler is Ignored iff the source has nothing at the path, and Applied iff the replica then holds the source's entry there. |
| Synchronization.Synchronizer.OnChanged | Synchronizer.cs:78-95 | The replica becomes `AfterChanged`. The handler is Ignored iff the source path is not a file, and Applied iff the replica then holds the source's bytes there. |
| Synchronization.Synchronizer.CopyIn | Synchronizer.cs:86-87 | The replica becomes `AfterCopy`. The copy is Applied iff the bytes landed at the path. |
| Synchronization.Synchronizer.OnDeleted | Synchronizer.cs:97-118 | The replica becomes `AfterDeleted`. The handler never fails, and it is Ignored iff nothing was at the path. |
| Synchronization.Synchronizer.OnRenamed | Synchronizer.cs:120-144 | The replica becomes `AfterRenamed`. The handler is Ignored iff nothing was at the old path, and Applied iff the entry left the old path and arrived unchanged at the new one. |
| CommandLine.TryParseInt32 | Config.cs:34 | A parsed value always fits in 32 bits. |
| CommandLine.ParseIntAccepts | Config.cs:34 | White space, an optional `+` or `-`, at least one digit, then white space: such a string is read as its signed value when that fits in 32 bits, and rejected otherwise. |
| CommandLine.ParseIntShape | Config.cs:34 | Every accepted string has that shape, and the value read is the signed value of its digits. With `ParseIntAccepts`, this makes the accepted strings exactly those of that shape. |
| CommandLine.ParseIntChars | Config.cs:34 | An accepted string holds only white space, digits and signs. |
| CommandLine.ParseIntRoundTrip | Config.cs:34 | Every 32-bit integer written in decimal, with any white space around it, parses back to itself. |
| CommandLine.ParseIntExact | Config.cs:34 | The decimal form of an integer parses back to the integer when it fits in 32 bits, and is rejected otherwise. |
| CommandLine.ParseIntNeedsDigit | Config.cs:34 | A string without a digit is rejected. |
| CommandLine.DigitsRoundTrip | Config.cs:34 | Reading back the decimal digits of a number gives the number. |
| CommandLine.TrimAround | Config.cs:34 | The parser's trimming removes exactly the white space around the number. |
| CommandLine.Parse | Config.cs:27-38 | Parsing succeeds iff there are at least four arguments and the third is a positive 32-bit integer. The fields are then the first, second, parsed third and fourth arguments. Otherwise the result is the usage line with exit code 1. |
| CommandLine.ParseRoundTrip | Config.cs:32-37 | Four arguments with a positive interval parse to exactly those values. |
| CommandLine.ParseRejectsShort | Config.cs:29-30 | Fewer than four arguments give the usage line and exit code 1. |
| CommandLine.ParseRejectsNonPositive | Config.cs:34-35 | An interval of zero or less gives the usage line and exit code 1. |
| CommandLine.ParseIgnoresExtra | Config.cs:29-37 | Arguments after the fourth make no difference. |

## Left out

- Program.cs is not part of this model: the periodic loop, `Task.Delay`, the cancellation token and the Ctrl+C handler. Neither is Logger.cs: console and file output, the lock and the timestamps. What the log would record shows up only as the handlers' `Status` and the `copied` set of a full pass.
- `StartWatching`/`StopWatching` and the `_watcher` field (Synchronizer.cs:32-52) subscribe to operating-system notifications. The handlers are plain methods called with an event's paths.
- Concurrency is not modelled. Each full pass and each handler runs atomically, and the source does not change during an operation.
- `async` is not modelled. The awaits only wrap reads, and each operation runs sequentially.
- `Path.GetFullPath` (Synchronizer.cs:17-18) is not modelled. The roots are given as canonical paths.
- File names are compared exactly, as on a case-sensitive file system. On a case-insensitive one, a replica `a.txt` facing a source `A.txt` is compared and overwritten in place and survives Cleanup under its own name. The equalities `replica == source` in `FullPassConverges` and `Synchronize` hold only for case-sensitive names.
- The source and replica are modelled as two independent trees. A replica root inside the source root, or a source root inside the replica root, is not modelled. In the program, Cleanup would then delete parts of the source, or MirrorAsync would walk into the replica it is writing.
- Event paths outside the source root are not modelled, since `GetRelativePath` would produce `..` segments. The handlers require paths strictly below the source root.
- Directories above the replica root are not modelled. Neither is a failure of `Directory.CreateDirectory(_replica)` caused by a file above the root.
- I/O failures other than kind conflicts are left out: permissions, locked files, a full disk, and entries vanishing while a walk runs. Cleanup therefore never fails in the model.
- The order in which `EnumerateFiles` and `EnumerateDirectories` list entries is not modelled. The loops take entries in an arbitrary order, and the proved results do not depend on it.
- MD5 itself is not modelled. The digest is a parameter, and collision freedom is assumed only where a lemma says so.
- Comparator.SameContent: its contract does not state that no digest is computed when the lengths differ. A function has no notion of work done.
- Synchronization.Synchronizer.Mirror: when it fails, the contract states only that the replica is valid and unchanged outside the source subtree. It does not say which copies happened before the exception.
- Synchronization.Synchronizer.OnCreated, OnChanged and OnRenamed: after a caught exception, the replica may keep a directory created before the failing call. The contract describes that state only through the `After*` functions.
- CommandLine.TryParseInt32 follows int.TryParse with the integer style and the invariant culture's signs. It does not model culture-specific sign symbols, or the trailing NUL characters that .NET also accepts.
- `Environment.Exit(1)` and `Console.WriteLine` are not modelled as effects. They become the `UsageError` result with its message and exit code.
