# One-way folder synchronisation, modelled in Dafny

The modelled program mirrors a source folder onto a replica folder. One
pass, `sync_folders`, lists both folders once. It then walks the source
listing: a directory the replica lacks is deep-copied, a directory both sides
have is synchronised recursively, and a file that is missing or whose MD5
digest differs is copied. Finally it walks the replica listing taken at the
start and removes every name the source listing lacks. Each mutation is
logged: "Directory created", "File copied/updated", "Directory removed" or
"File removed".

The model has three modules:

- `Files` (`files.dfy`): an in-memory directory tree. A `Node` is a file
  holding bytes or a directory mapping names to nodes. `Lookup` reads the
  entry at a path. `Graft` writes one: it inserts, replaces or removes that
  entry, as `copytree`, `copy2`, `rmtree` and `remove` do. Some lemmas say
  how grafts compose.
- `Sync` (`sync.dfy`): the pass itself. `Synchronizer` is a class holding
  the replica tree and the log (a `seq<Op>`). `SyncFolders` is the
  recursive method, with `Reconcile` and `Prune` for its two loops. Each
  loop visits the names of its listing in an arbitrary order (`:|`), as
  Python's set iteration does. The method's contract ties what it does to
  two specification predicates. `Planned` is the set of operations a pass
  performs, defined entry by entry. `Clash` says when the pass raises.
- `Properties` (`properties.dfy`): what follows from those predicates.
  This covers idempotence, minimality, one log entry per created or pruned
  subtree, and removals never undoing a copy. It also has the worked example
  and the failure cases.

Main things the `SyncFolders` contract states (each replica path is relative
to the replica root):

- the pass succeeds exactly when no `Clash` is present;
- after a successful pass the replica directory equals the source tree, so
  every source name is there with the same kind and content, and no other
  name is. Nothing outside that directory changes;
- every logged operation is a planned one. On success, every planned
  operation is logged. No operation is logged twice. Within each directory,
  all removals come after all creations and copies.

The code has no dedicated error for a file on one side and a directory on
the other. It fails inside `listdir` (a directory in the source, a file in
the replica) or inside `open` while hashing (a file in the source, a
directory in the replica). The model follows the code and raises
`ReplicaNotADirectory` or `ReplicaIsADirectory` at those two points, without
changing the replica entry involved.

## Model

| member | source | states |
|---|---|---|
| `Sync.Read` | Main.py:16 | one `read(4096)` returns the next bytes of the file, 4096 of them or all that remain, so it is empty exactly at the end |
| `Sync.CalculateMd5` | Main.py:9-18 | reading chunk after chunk until an empty read absorbs the whole file, so the (collision-free) digests of two files are equal exactly when their contents are; hashing a directory raises |
| `Sync.Synchronizer.LogOperation` | Main.py:20-29 | a log entry is appended after the earlier ones, which stay as they were |
| `Sync.Synchronizer.SyncFolders` | Main.py:31-67 | raises exactly when `Fails` holds; otherwise the replica directory becomes the source tree and nothing else changes; on failure only that directory may have changed; every logged operation is planned, each is logged once and removals come last within each directory; on success every planned operation is logged |
| `Sync.Synchronizer.Reconcile` | Main.py:41-54 | visiting the source listing in any order: raises exactly when some source entry clashes; otherwise the replica directory holds the source entries laid over its original ones; the log is exactly the planned operations for the source names |
| `Sync.Synchronizer.ReconcileItem` | Main.py:42-54 | for one source entry: a missing directory is deep-copied with one `DirCreated`; a directory present on both sides is recursed into; a file that is missing or has different content is copied with one `FileCopied`; an equal file is left alone and nothing is logged; a kind mismatch raises without touching the entry |
| `Sync.Synchronizer.Prune` | Main.py:57-67 | visiting the replica listing taken before reconciliation, in any order: afterwards the replica directory is exactly the source tree; only removals are logged, each for a name the source listing lacks, and every such name gets one |
| `Sync.Synchronizer.PruneItem` | Main.py:58-67 | a stale entry is removed with all it holds; one `DirRemoved` or `FileRemoved` is logged, depending on its kind |
| `Sync.AppendEntryLog` | Main.py:41-54 | joining the logs of two different source entries keeps every operation logged once and keeps removals after creations and copies in each directory |
| `Sync.AppendRemovals` | Main.py:57-67 | adding the pruning removals after the reconciliation log keeps every operation logged once and keeps removals last in each directory |
| `Properties.NothingPlannedOnCopy` | Main.py:33-34 | a pass over a replica that is already an exact copy plans no operation at any depth |
| `Properties.CopyNeverClashes` | Main.py:33-34 | a pass over a replica that is already an exact copy does not raise |
| `Properties.Idempotent` | Main.py:41-67 | right after a successful pass, a second pass over the unchanged source raises nothing and performs and logs nothing |
| `Properties.PassTwice` | Main.py:87-88 | two passes in a row from the scheduling loop: if the first succeeds, the replica equals the source and the second pass succeeds, changes nothing and logs nothing |
| `Properties.SameEntryUntouched` | Main.py:52-54 | an entry identical on both sides (a file with an equal digest, say) is not copied or removed, and nothing is done below it |
| `Properties.ChangedFileCopied` | Main.py:52-54 | a file whose replica content differs, even by one byte, is copied |
| `Properties.NewDirLoggedOnce` | Main.py:46-48 | a source directory missing from the replica gets exactly one operation, its creation, and none for anything inside it |
| `Properties.StaleEntryLoggedOnce` | Main.py:61-67 | a replica entry the source lacks gets exactly one operation: the removal of the directory with its whole subtree, or the removal of the file |
| `Properties.RemovalsSpareCopies` | Main.py:37-38 | no planned removal is of an entry the same pass creates or copies, or of a directory above one |
| `Properties.DirOverFileFails` | Main.py:50 | a source directory facing a replica file of the same name makes the pass raise |
| `Properties.FileOverDirFails` | Main.py:52 | a source file facing a replica directory of the same name makes the pass raise |
| `Properties.Example` | Main.py:41-67 | source {a.txt = "hello", sub/b.txt = "x"} over replica {a.txt = "hello", c.txt = "old"}: no failure, and exactly two operations, the creation of `sub` and the removal of `c.txt` |

## Left out

- `main` (Main.py:69-96) is not modelled: argument parsing, the `while True` loop with `time.sleep`, and the `KeyboardInterrupt` exit. `PassTwice` only shows two consecutive passes.
- `log_operation` records an `Op` and nothing else. Timestamps, console output and the log-file append are I/O. The log line's path is `os.path.join(replica, item)`; the model's path is that path with the fixed replica root removed.
- Sync.CalculateMd5: the digest is the absorbed byte stream, not MD5. That is, the hash is taken to be collision-free. With a real MD5 collision the program would skip a copy that the model performs.
- Sync.CalculateMd5: hashing the source entry is modelled as always succeeding. The source entry comes from the source listing and is not a directory; read errors are OS-level.
- The source is a value the pass receives, so it cannot be modified. A replica placed inside the source folder (the two trees aliasing) is not modelled.
- File metadata copied by `shutil.copy2` (times, permission bits) is not modelled. Neither are symbolic links or OS errors such as permissions or a full disk. Only the errors the logic itself runs into are: listing something that is missing or is not a directory, and hashing a directory.
- The two loops of `sync_folders` are the methods `Reconcile` and `Prune`, and their bodies are `ReconcileItem` and `PruneItem`. This keeps each proof small. The order of the steps is that of the code.
- Sync.Synchronizer.SyncFolders: after a pass that raises, the contract says that only the replica directory of the pass changed and that what was logged was planned. It does not describe the partial contents of that directory.
