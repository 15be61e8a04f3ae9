/**
 * One-way folder synchronisation (`sync_folders` in Main.py): a pass over a
 * source directory and a replica directory that copies what is new or
 * changed, recurses into directories present on both sides and then prunes
 * what the source no longer has, logging every mutation of the replica.
 *
 * The source tree is a value the pass only reads. The replica is the state
 * of a `Synchronizer` object: a tree rooted at the replica folder, changed
 * in place, and the log of operations appended so far.
 */
module Sync {
  import opened Files

  /** One logged mutation; the path is that of the replica entry it touched. */
  datatype Op =
    | DirCreated(path: Path)
    | FileCopied(path: Path)
    | DirRemoved(path: Path)
    | FileRemoved(path: Path)

  /** The exceptions a pass can raise; each carries the replica path it was raised at. */
  datatype Error =
    | SourceNotADirectory(path: Path)   // listing the source fails
    | ReplicaMissing(path: Path)        // listing the replica fails: nothing there
    | ReplicaNotADirectory(path: Path)  // listing the replica fails: it is a file
    | ReplicaIsADirectory(path: Path)   // hashing the replica entry opens a directory

  datatype Outcome = Pass | Fail(error: Error)

  datatype Result<+T> = Ok(value: T) | Err(error: Error)

  /** Bytes requested per read while hashing a file. */
  const ChunkSize: nat := 4096

  predicate IsRemoval(op: Op) {
    op.DirRemoved? || op.FileRemoved?
  }

  /** The directory that holds the entry at `p`. */
  function Parent(p: Path): Path {
    if p == [] then [] else p[..|p| - 1]
  }

  /** The entry of directory `at` that `op` is about (meaningful when `op` lies below `at`). */
  function NameBelow(op: Op, at: Path): Name {
    if |op.path| > |at| then op.path[|at|] else ""
  }

  /**
   * The mutation a pass over the directory pair `src`/`rep` performs for the
   * entry `n` itself: a directory missing from the replica is created, a file
   * missing from the replica or with other content is copied, and an entry
   * the source lacks is removed. Entries of different kinds on the two sides
   * get no operation (the pass fails on them instead).
   */
  predicate LevelOp(src: map<Name, Node>, rep: map<Name, Node>, n: Name, op: Op) {
    match op
    case DirCreated(_) => n in src && src[n].Dir? && n !in rep
    case FileCopied(_) =>
      n in src && src[n].File? && (n !in rep || (rep[n].File? && rep[n].content != src[n].content))
    case DirRemoved(_) => n !in src && n in rep && rep[n].Dir?
    case FileRemoved(_) => n !in src && n in rep && rep[n].File?
  }

  /**
   * `op` is one that a pass over source `src` and replica `rep`, found at
   * replica path `at`, performs: a mutation of an entry of `at` itself, or
   * one performed by the recursive pass into a directory both sides have.
   */
  predicate Planned(src: Node, rep: Node, at: Path, op: Op)
    decreases src
  {
    && src.Dir? && rep.Dir?
    && |op.path| > |at| && op.path[..|at|] == at
    && var n := op.path[|at|];
       if |op.path| == |at| + 1 then LevelOp(src.children, rep.children, n, op)
       else n in src.children && n in rep.children && src.children[n].Dir?
            && Planned(src.children[n], rep.children[n], at + [n], op)
  }

  /** `Planned`, for a replica path that may hold nothing. */
  predicate PlannedAt(src: Node, rep: Option<Node>, at: Path, op: Op) {
    rep.Some? && Planned(src, rep.value, at, op)
  }

  /**
   * A pass over `src` and `rep` raises: one of them is not a directory, or
   * some entry both have is of different kinds, or is a directory on both
   * sides whose own pass raises.
   */
  predicate Clash(src: Node, rep: Node)
    decreases src, 1
  {
    src.File? || rep.File? || exists n :: n in src.children && ClashBelow(src, rep, n)
  }

  /** The entry `n` of the directory pair `src`/`rep` makes the pass raise. */
  predicate ClashBelow(src: Node, rep: Node, n: Name)
    requires src.Dir? && rep.Dir?
    decreases src, 0
  {
    n in src.children && n in rep.children &&
    if src.children[n].Dir? then Clash(src.children[n], rep.children[n])
    else rep.children[n].Dir?
  }

  /** A pass over `src` and whatever is at the replica path raises. */
  predicate Fails(src: Node, rep: Option<Node>) {
    rep.None? || Clash(src, rep.value)
  }

  /** Every operation is logged at most once. */
  predicate Distinct(ops: seq<Op>) {
    forall i, j :: 0 <= i < j < |ops| ==> ops[i] != ops[j]
  }

  /**
   * Within one directory, every removal is logged after every creation and
   * copy: no creation or copy follows a removal with the same parent.
   */
  predicate RemovalsLast(ops: seq<Op>) {
    forall i, j :: 0 <= i < j < |ops| && IsRemoval(ops[i]) && !IsRemoval(ops[j]) ==>
      Parent(ops[i].path) != Parent(ops[j].path)
  }

  /** What one `read(4096)` returns: the next bytes, as many as there are up to the chunk size. */
  function Read(data: Bytes, pos: nat): (chunk: Bytes)
    requires pos <= |data|
    ensures pos + |chunk| <= |data| && chunk == data[pos..pos + |chunk|]
    ensures |chunk| == if |data| - pos < ChunkSize then |data| - pos else ChunkSize
  {
    if |data| - pos < ChunkSize then data[pos..] else data[pos..pos + ChunkSize]
  }

  /**
   * The digest of an entry, read in chunks until a read comes back empty.
   * The digest is ideal (collision-free): it is the byte stream absorbed, so
   * two digests are equal exactly when the contents are. Hashing a directory
   * raises.
   */
  method CalculateMd5(f: Node, path: Path) returns (r: Result<Bytes>)
    ensures f.Dir? ==> r == Err(ReplicaIsADirectory(path))
    ensures f.File? ==> r == Ok(f.content)
  {
    if f.Dir? {
      return Err(ReplicaIsADirectory(path));
    }
    var data := f.content;
    var absorbed: Bytes := [];
    var pos := 0;
    var chunk := Read(data, pos);
    while chunk != []
      invariant pos <= |data|
      invariant absorbed == data[..pos]
      invariant chunk == Read(data, pos)
      decreases |data| - pos
    {
      absorbed := absorbed + chunk;
      pos := pos + |chunk|;
      chunk := Read(data, pos);
    }
    assert absorbed == data;
    return Ok(absorbed);
  }

  /** A prefix of a path determines the names it is made of. */
  lemma PrefixName(p: Path, at: Path, n: Name)
    requires |p| > |at| + 1 && p[..|at| + 1] == at + [n]
    ensures p[..|at|] == at && p[|at|] == n
  {
    assert p[..|at|] == p[..|at| + 1][..|at|];
  }

  /** A path one name longer than `at` that starts with `at` is `at` extended by that name. */
  lemma LevelPath(p: Path, at: Path, n: Name)
    requires |p| > |at| && p[..|at|] == at && p[|at|] == n
    ensures |p| == |at| + 1 ==> p == at + [n]
  {
  }

  /** Appending the log of one entry's work to the log of the entries before it. */
  lemma {:induction false} AppendEntryLog(ops: seq<Op>, more: seq<Op>, at: Path, done: set<Name>, n: Name)
    requires Distinct(ops) && RemovalsLast(ops) && Distinct(more) && RemovalsLast(more)
    requires forall op :: op in ops ==> |op.path| > |at| && NameBelow(op, at) in done
    requires forall op :: op in ops && IsRemoval(op) ==> |op.path| > |at| + 1
    requires forall op :: op in more ==> |op.path| > |at| && NameBelow(op, at) == n
    requires n !in done
    ensures Distinct(ops + more) && RemovalsLast(ops + more)
  {
    var all := ops + more;
    forall i, j | 0 <= i < j < |all|
      ensures all[i] != all[j]
      ensures IsRemoval(all[i]) && !IsRemoval(all[j]) ==> Parent(all[i].path) != Parent(all[j].path)
    {
      if j >= |ops| {
        assert all[j] == more[j - |ops|] && all[j] in more;
        if i < |ops| {
          assert all[i] == ops[i] && all[i] in ops;
          assert NameBelow(all[i], at) != NameBelow(all[j], at);
          if IsRemoval(all[i]) {
            var p, q := Parent(all[i].path), Parent(all[j].path);
            assert |p| > |at| && p[|at|] == NameBelow(all[i], at);
            assert |q| == |at| || q[|at|] == NameBelow(all[j], at);
          }
        } else {
          assert all[i] == more[i - |ops|];
        }
      } else {
        assert all[i] == ops[i] && all[j] == ops[j];
      }
    }
  }

  /**
   * `ops` is the log of the work on entry `n` of the directory pair: only
   * planned operations on entries at or below `n`, each once, removals last
   * within each directory, and removals only strictly below `n` (a
   * reconciled entry is never itself removed).
   */
  predicate EntryLog(src: Node, rep: Node, at: Path, n: Name, ops: seq<Op>) {
    && (forall op :: op in ops ==> Planned(src, rep, at, op) && |op.path| > |at| && NameBelow(op, at) == n)
    && (forall op :: op in ops && IsRemoval(op) ==> |op.path| > |at| + 1)
    && Distinct(ops) && RemovalsLast(ops)
  }

  /** `ops` is the log of the work on the entries `names` of the directory pair. */
  predicate PhaseLog(src: Node, rep: Node, at: Path, names: set<Name>, ops: seq<Op>) {
    && (forall op :: op in ops ==> Planned(src, rep, at, op) && |op.path| > |at| && NameBelow(op, at) in names)
    && (forall op :: op in ops && IsRemoval(op) ==> |op.path| > |at| + 1)
    && Distinct(ops) && RemovalsLast(ops)
  }

  /** Every operation planned for the entries `names` is in `ops`. */
  ghost predicate Complete(src: Node, rep: Node, at: Path, names: set<Name>, ops: seq<Op>) {
    forall op :: Planned(src, rep, at, op) && NameBelow(op, at) in names ==> op in ops
  }

  /** The log of the entries visited so far, extended by the log of one more. */
  lemma ExtendPhaseLog(src: Node, rep: Node, at: Path, names: set<Name>, ops: seq<Op>, n: Name, more: seq<Op>)
    requires PhaseLog(src, rep, at, names, ops) && EntryLog(src, rep, at, n, more) && n !in names
    ensures PhaseLog(src, rep, at, names + {n}, ops + more)
    ensures Complete(src, rep, at, names, ops) && Complete(src, rep, at, {n}, more) ==>
              Complete(src, rep, at, names + {n}, ops + more)
  {
    AppendEntryLog(ops, more, at, names, n);
  }

  /**
   * Appending the removals of the pruning phase, which concern entries the
   * reconciliation phase logged nothing for.
   */
  lemma AppendRemovals(ops: seq<Op>, more: seq<Op>, at: Path, done: set<Name>)
    requires Distinct(ops) && RemovalsLast(ops) && Distinct(more)
    requires forall op :: op in ops ==> NameBelow(op, at) in done
    requires forall op :: op in more ==> IsRemoval(op) && NameBelow(op, at) !in done
    ensures Distinct(ops + more) && RemovalsLast(ops + more)
  {
    var all := ops + more;
    forall i, j | 0 <= i < j < |all|
      ensures all[i] != all[j]
      ensures IsRemoval(all[i]) && !IsRemoval(all[j]) ==> Parent(all[i].path) != Parent(all[j].path)
    {
      if j >= |ops| {
        assert all[j] == more[j - |ops|] && all[j] in more;
        if i < |ops| {
          assert all[i] == ops[i] && all[i] in ops;
        } else {
          assert all[i] == more[i - |ops|];
        }
      } else {
        assert all[i] == ops[i] && all[j] == ops[j];
      }
    }
  }

  /** The replica directory after the source entries `done` were reconciled over `rep`. */
  function Overlay(src: Node, rep: Node, done: set<Name>): map<Name, Node>
    requires src.Dir? && rep.Dir? && done <= src.children.Keys
  {
    rep.children + map n | n in done :: src.children[n]
  }

  /**
   * The state of the reconciliation phase at replica path `at` after the
   * source entries `done` were visited without raising: the replica `tree`
   * differs from `tree0` only in those entries, which now hold the source's,
   * and `ops` is their complete log.
   */
  ghost predicate Reconciled(src: Node, rep: Node, at: Path, tree0: Node, done: set<Name>, tree: Node, ops: seq<Op>)
  {
    && src.Dir? && rep.Dir? && done <= src.children.Keys
    && Lookup(tree0, at) == Some(rep)
    && tree == Graft(tree0, at, Some(Dir(Overlay(src, rep, done))))
    && (forall n :: n in done ==> !ClashBelow(src, rep, n))
    && PhaseLog(src, rep, at, done, ops) && Complete(src, rep, at, done, ops)
  }

  lemma ReconciledStart(src: Node, rep: Node, at: Path, tree0: Node)
    requires src.Dir? && rep.Dir? && Lookup(tree0, at) == Some(rep)
    ensures Reconciled(src, rep, at, tree0, {}, tree0, [])
  {
    assert Overlay(src, rep, {}) == rep.children;
    GraftLookup(tree0, at);
  }

  /** An entry not visited yet still holds what the replica originally had. */
  lemma ReconciledUnvisited(src: Node, rep: Node, at: Path, tree0: Node, done: set<Name>, tree: Node, ops: seq<Op>, n: Name)
    requires Reconciled(src, rep, at, tree0, done, tree, ops) && n !in done
    ensures Lookup(tree, at + [n]) == Lookup(rep, [n])
  {
    LookupGraft(tree0, at, Dir(Overlay(src, rep, done)), [n]);
  }

  lemma ReconciledStep(src: Node, rep: Node, at: Path, tree0: Node, done: set<Name>, tree: Node, ops: seq<Op>,
                       n: Name, tree': Node, more: seq<Op>)
    requires Reconciled(src, rep, at, tree0, done, tree, ops) && n !in done && n in src.children
    requires tree' == Graft(tree, at + [n], Some(src.children[n])) && !ClashBelow(src, rep, n)
    requires EntryLog(src, rep, at, n, more) && Complete(src, rep, at, {n}, more)
    ensures Reconciled(src, rep, at, tree0, done + {n}, tree', ops + more)
  {
    var cur := Overlay(src, rep, done);
    GraftChild(tree0, at, cur, n, Some(src.children[n]));
    OverlayStep(src, rep, done, n);
    ExtendPhaseLog(src, rep, at, done, ops, n, more);
  }

  lemma OverlayStep(src: Node, rep: Node, done: set<Name>, n: Name)
    requires src.Dir? && rep.Dir? && done <= src.children.Keys && n in src.children
    ensures Assign(Overlay(src, rep, done), n, Some(src.children[n])) == Overlay(src, rep, done + {n})
  {
    assert Overlay(src, rep, done)[n := src.children[n]] == Overlay(src, rep, done + {n});
  }

  lemma ReconciledFail(src: Node, rep: Node, at: Path, tree0: Node, done: set<Name>, tree: Node, ops: seq<Op>,
                       n: Name, tree': Node, more: seq<Op>)
    requires Reconciled(src, rep, at, tree0, done, tree, ops) && n !in done && n in src.children
    requires tree' == Graft(tree, at + [n], Lookup(tree', at + [n]))
    requires EntryLog(src, rep, at, n, more)
    ensures tree' == Graft(tree0, at, Lookup(tree', at))
    ensures PhaseLog(src, rep, at, src.children.Keys, ops + more)
  {
    var cur := Overlay(src, rep, done);
    var v := Lookup(tree', at + [n]);
    GraftChild(tree0, at, cur, n, v);
    LookupGraft(tree0, at, Dir(Assign(cur, n, v)), []);
    assert at + [] == at;
    ExtendPhaseLog(src, rep, at, done, ops, n, more);
  }

  lemma ReconciledEnd(src: Node, rep: Node, at: Path, tree0: Node, done: set<Name>, tree: Node, ops: seq<Op>)
    requires src.Dir? && done == src.children.Keys
    requires Reconciled(src, rep, at, tree0, done, tree, ops)
    ensures tree == Graft(tree0, at, Some(Dir(rep.children + src.children)))
    ensures !Clash(src, rep)
    ensures PhaseLog(src, rep, at, src.children.Keys, ops) && Complete(src, rep, at, src.children.Keys, ops)
  {
    assert Overlay(src, rep, src.children.Keys) == rep.children + src.children;
  }

  /**
   * The state of the pruning phase at replica path `at` after the replica
   * entries `seen` were visited: the reconciled directory found at `at` in
   * `tree0` has lost exactly the visited names the source lacks, and `ops`
   * is the complete log of their removals.
   */
  ghost predicate Pruned(src: Node, rep: Node, at: Path, tree0: Node, seen: set<Name>, tree: Node, ops: seq<Op>)
  {
    && src.Dir? && rep.Dir? && seen <= rep.children.Keys
    && Lookup(tree0, at) == Some(Dir(rep.children + src.children))
    && tree == Graft(tree0, at, Some(Dir((rep.children + src.children) - (seen - src.children.Keys))))
    && (forall op :: op in ops ==>
          Planned(src, rep, at, op) && IsRemoval(op) && NameBelow(op, at) in seen - src.children.Keys)
    && Complete(src, rep, at, seen - src.children.Keys, ops)
    && Distinct(ops)
  }

  lemma PrunedStart(src: Node, rep: Node, at: Path, tree0: Node)
    requires src.Dir? && rep.Dir? && Lookup(tree0, at) == Some(Dir(rep.children + src.children))
    ensures Pruned(src, rep, at, tree0, {}, tree0, [])
  {
    assert (rep.children + src.children) - ({} - src.children.Keys) == rep.children + src.children;
    GraftLookup(tree0, at);
  }

  /** A replica entry the source lacks and that was not visited yet is still there. */
  lemma PrunedUnvisited(src: Node, rep: Node, at: Path, tree0: Node, seen: set<Name>, tree: Node, ops: seq<Op>, n: Name)
    requires Pruned(src, rep, at, tree0, seen, tree, ops)
    requires n in rep.children && n !in src.children && n !in seen
    ensures Lookup(tree, at + [n]) == Some(rep.children[n])
  {
    LookupGraft(tree0, at, Dir((rep.children + src.children) - (seen - src.children.Keys)), [n]);
  }

  lemma PrunedKeep(src: Node, rep: Node, at: Path, tree0: Node, seen: set<Name>, tree: Node, ops: seq<Op>, n: Name)
    requires Pruned(src, rep, at, tree0, seen, tree, ops)
    requires n in rep.children && n in src.children
    ensures Pruned(src, rep, at, tree0, seen + {n}, tree, ops)
  {
    assert (seen + {n}) - src.children.Keys == seen - src.children.Keys;
  }

  lemma PrunedStep(src: Node, rep: Node, at: Path, tree0: Node, seen: set<Name>, tree: Node, ops: seq<Op>,
                   n: Name, tree': Node, op: Op)
    requires Pruned(src, rep, at, tree0, seen, tree, ops)
    requires n in rep.children && n !in src.children && n !in seen
    requires tree' == Graft(tree, at + [n], None)
    requires Planned(src, rep, at, op) && IsRemoval(op) && NameBelow(op, at) == n
    requires forall o :: Planned(src, rep, at, o) && NameBelow(o, at) == n ==> o == op
    ensures Pruned(src, rep, at, tree0, seen + {n}, tree', ops + [op])
  {
    var cur := (rep.children + src.children) - (seen - src.children.Keys);
    GraftChild(tree0, at, cur, n, None);
    assert cur - {n} == (rep.children + src.children) - ((seen + {n}) - src.children.Keys);
    var all := ops + [op];
    forall i, j | 0 <= i < j < |all|
      ensures all[i] != all[j]
    {
      if j == |ops| {
        assert all[i] == ops[i] && all[i] in ops;
      } else {
        assert all[i] == ops[i] && all[j] == ops[j];
      }
    }
  }

  lemma PrunedEnd(src: Node, rep: Node, at: Path, tree0: Node, seen: set<Name>, tree: Node, ops: seq<Op>)
    requires rep.Dir? && seen == rep.children.Keys
    requires Pruned(src, rep, at, tree0, seen, tree, ops)
    ensures tree == Graft(tree0, at, Some(src))
    ensures forall op :: Planned(src, rep, at, op) && NameBelow(op, at) !in src.children.Keys ==> op in ops
  {
    assert (rep.children + src.children) - (seen - src.children.Keys) == src.children;
  }

  class Synchronizer {
    /** The tree rooted at the replica folder. */
    var replica: Node
    /** The operations logged so far, oldest first. */
    var log: seq<Op>

    constructor (replica: Node)
      ensures this.replica == replica && log == []
    {
      this.replica := replica;
      log := [];
    }

    /** Records one operation (the timestamped line written to the console and the log file). */
    method LogOperation(op: Op)
      modifies this`log
      ensures log == old(log) + [op]
    {
      log := log + [op];
    }

    /**
     * One pass over `source` and the replica directory at path `at`. It
     * raises exactly when `Fails` says so. When it does not raise, the
     * directory at `at` becomes `source` and nothing else in the replica
     * changes; when it raises, the replica outside `at` is still unchanged.
     * Either way the operations it logs are performed ones (`Planned`), each
     * logged once, removals last within each directory; when it does not
     * raise, every planned operation is logged.
     */
    method SyncFolders(source: Node, at: Path) returns (outcome: Outcome)
      modifies this
      decreases source, 2
      ensures outcome.Pass? <==> !Fails(source, Lookup(old(replica), at))
      ensures outcome.Pass? ==> replica == Graft(old(replica), at, Some(source))
      ensures outcome.Fail? ==> replica == Graft(old(replica), at, Lookup(replica, at))
      ensures |old(log)| <= |log| && log[..|old(log)|] == old(log)
      ensures forall op :: op in log[|old(log)|..] ==> PlannedAt(source, Lookup(old(replica), at), at, op)
      ensures outcome.Pass? ==>
                forall op :: PlannedAt(source, Lookup(old(replica), at), at, op) ==> op in log[|old(log)|..]
      ensures Distinct(log[|old(log)|..]) && RemovalsLast(log[|old(log)|..])
    {
      GraftLookup(replica, at);
      assert log[|log|..] == [];
      if !source.Dir? {
        return Fail(SourceNotADirectory(at));
      }
      var here := Lookup(replica, at);
      if here.None? {
        return Fail(ReplicaMissing(at));
      }
      if here.value.File? {
        return Fail(ReplicaNotADirectory(at));
      }
      var sourceFiles := source.children.Keys;
      var replicaFiles := here.value.children.Keys;
      ghost var rep, tree0, log0 := here.value, replica, log;

      outcome := Reconcile(source, rep, at, sourceFiles);
      if outcome.Fail? {
        return;
      }
      ghost var log1 := log;
      ghost var merged := rep.children + source.children;
      LookupGraft(tree0, at, Dir(merged), []);
      assert at + [] == at;
      Prune(source, rep, at, sourceFiles, replicaFiles);
      GraftTwice(tree0, at, Dir(merged), source);
      assert log[|log0|..] == log1[|log0|..] + log[|log1|..];
      AppendRemovals(log1[|log0|..], log[|log1|..], at, sourceFiles);
      forall op | Planned(source, rep, at, op)
        ensures op in log[|log0|..]
      {
        if NameBelow(op, at) in sourceFiles {
          assert op in log1[|log0|..];
        } else {
          assert op in log[|log1|..];
        }
      }
    }

    /**
     * The reconciliation phase over the source listing `sourceFiles`, visited
     * in any order: entry by entry, while the replica directory at `at` still
     * has the original entries for the names not yet visited. It raises
     * exactly when some source entry clashes; when it does not, the replica
     * directory at `at` holds the source entries over the original ones.
     */
    method Reconcile(source: Node, ghost rep: Node, at: Path, sourceFiles: set<Name>)
      returns (outcome: Outcome)
      requires source.Dir? && rep.Dir? && sourceFiles == source.children.Keys
      requires Lookup(replica, at) == Some(rep)
      modifies this
      decreases source, 1
      ensures outcome.Pass? <==> !Clash(source, rep)
      ensures outcome.Pass? ==> replica == Graft(old(replica), at, Some(Dir(rep.children + source.children)))
      ensures outcome.Fail? ==> replica == Graft(old(replica), at, Lookup(replica, at))
      ensures |old(log)| <= |log| && log[..|old(log)|] == old(log)
      ensures PhaseLog(source, rep, at, sourceFiles, log[|old(log)|..])
      ensures outcome.Pass? ==> Complete(source, rep, at, sourceFiles, log[|old(log)|..])
    {
      ghost var tree0, log0 := replica, log;
      ReconciledStart(source, rep, at, tree0);
      var todo := sourceFiles;
      ghost var done: set<Name> := {};
      ghost var ops: seq<Op> := [];
      while todo != {}
        invariant todo <= sourceFiles && done == sourceFiles - todo
        invariant log == log0 + ops
        invariant Reconciled(source, rep, at, tree0, done, replica, ops)
        decreases todo
      {
        var item :| item in todo;
        ReconciledUnvisited(source, rep, at, tree0, done, replica, ops, item);
        ghost var tree, before := replica, log;
        outcome := ReconcileItem(source, rep, at, item);
        ghost var added := log[|before|..];
        assert log == log0 + (ops + added);
        if outcome.Fail? {
          ReconciledFail(source, rep, at, tree0, done, tree, ops, item, replica, added);
          assert log[|log0|..] == ops + added;
          return;
        }
        ReconciledStep(source, rep, at, tree0, done, tree, ops, item, replica, added);
        ops := ops + added;
        done := done + {item};
        todo := todo - {item};
      }
      assert done == sourceFiles;
      ReconciledEnd(source, rep, at, tree0, done, replica, ops);
      assert log[|log0|..] == ops;
      return Pass;
    }

    /**
     * The pruning phase over the replica listing `replicaFiles` taken before
     * reconciliation, visited in any order: every name the source listing
     * `sourceFiles` lacks is removed, with one removal logged for it, and
     * nothing else is touched.
     */
    method Prune(ghost source: Node, ghost rep: Node, at: Path, sourceFiles: set<Name>, replicaFiles: set<Name>)
      requires source.Dir? && rep.Dir?
      requires sourceFiles == source.children.Keys && replicaFiles == rep.children.Keys
      requires Lookup(replica, at) == Some(Dir(rep.children + source.children))
      modifies this
      ensures replica == Graft(old(replica), at, Some(source))
      ensures |old(log)| <= |log| && log[..|old(log)|] == old(log)
      ensures forall op :: op in log[|old(log)|..] ==>
                Planned(source, rep, at, op) && IsRemoval(op) && NameBelow(op, at) !in sourceFiles
      ensures forall op :: Planned(source, rep, at, op) && NameBelow(op, at) !in sourceFiles ==> op in log[|old(log)|..]
      ensures Distinct(log[|old(log)|..])
    {
      ghost var tree0, log0 := replica, log;
      PrunedStart(source, rep, at, tree0);
      var rest := replicaFiles;
      ghost var seen: set<Name> := {};
      ghost var ops: seq<Op> := [];
      while rest != {}
        invariant rest <= replicaFiles && seen == replicaFiles - rest
        invariant log == log0 + ops
        invariant Pruned(source, rep, at, tree0, seen, replica, ops)
        decreases rest
      {
        var item :| item in rest;
        if item !in sourceFiles {
          PrunedUnvisited(source, rep, at, tree0, seen, replica, ops, item);
          ghost var tree := replica;
          PruneItem(source, rep, at, item);
          PrunedStep(source, rep, at, tree0, seen, tree, ops, item, replica, log[|log| - 1]);
          ops := ops + [log[|log| - 1]];
        } else {
          PrunedKeep(source, rep, at, tree0, seen, replica, ops, item);
        }
        seen := seen + {item};
        rest := rest - {item};
      }
      PrunedEnd(source, rep, at, tree0, seen, replica, ops);
      assert log[|log0|..] == ops;
    }

    /**
     * The reconciliation of one source entry `item` of the directory pair
     * `source`/`rep`, while the replica entry at `at + [item]` is still the
     * original one: a directory is created by a deep copy or recursed into,
     * and a file is copied if missing or if its digest differs.
     */
    method ReconcileItem(source: Node, ghost rep: Node, at: Path, item: Name) returns (outcome: Outcome)
      requires source.Dir? && rep.Dir? && item in source.children
      requires Lookup(replica, at + [item]) == Lookup(rep, [item])
      modifies this
      decreases source, 0
      ensures outcome.Pass? <==> !ClashBelow(source, rep, item)
      ensures outcome.Pass? ==> replica == Graft(old(replica), at + [item], Some(source.children[item]))
      ensures outcome.Fail? ==> replica == Graft(old(replica), at + [item], Lookup(replica, at + [item]))
      ensures |old(log)| <= |log| && log[..|old(log)|] == old(log)
      ensures EntryLog(source, rep, at, item, log[|old(log)|..])
      ensures outcome.Pass? ==> Complete(source, rep, at, {item}, log[|old(log)|..])
    {
      var itemPath := at + [item];
      var s := source.children[item];
      GraftLookup(replica, itemPath);
      var existing := Lookup(replica, itemPath);
      if s.Dir? {
        if existing.None? {
          replica := Graft(replica, itemPath, Some(s));
          LogOperation(DirCreated(itemPath));
          assert Planned(source, rep, at, DirCreated(itemPath));
          forall op | Planned(source, rep, at, op) && NameBelow(op, at) == item
            ensures op == DirCreated(itemPath)
          {
            LevelPath(op.path, at, item);
          }
        } else {
          assert log[|log|..] == [];
          outcome := SyncFolders(s, itemPath);
          ghost var added := log[|old(log)|..];
          forall op | op in added
            ensures Planned(source, rep, at, op) && |op.path| > |at| && NameBelow(op, at) == item
          {
            PrefixName(op.path, at, item);
          }
          return;
        }
      } else {
        var digestsDiffer := false;
        if existing.Some? {
          var sourceDigest := CalculateMd5(s, itemPath);
          var replicaDigest := CalculateMd5(existing.value, itemPath);
          if replicaDigest.Err? {
            return Fail(replicaDigest.error);
          }
          digestsDiffer := sourceDigest != replicaDigest;
        }
        if existing.None? || digestsDiffer {
          replica := Graft(replica, itemPath, Some(s));
          LogOperation(FileCopied(itemPath));
          assert Planned(source, rep, at, FileCopied(itemPath));
          forall op | Planned(source, rep, at, op) && NameBelow(op, at) == item
            ensures op == FileCopied(itemPath)
          {
            LevelPath(op.path, at, item);
          }
        } else {
          assert existing == Some(s);
        }
      }
      return Pass;
    }

    /**
     * The pruning of one replica entry `item` the source does not have: a
     * directory is removed with everything below it, a file is removed, and
     * one operation is logged for it.
     */
    method PruneItem(ghost source: Node, ghost rep: Node, at: Path, item: Name)
      requires source.Dir? && rep.Dir? && item !in source.children && item in rep.children
      requires Lookup(replica, at + [item]) == Some(rep.children[item])
      modifies this
      ensures replica == Graft(old(replica), at + [item], None)
      ensures |log| == |old(log)| + 1 && log[..|old(log)|] == old(log)
      ensures IsRemoval(log[|old(log)|]) && Planned(source, rep, at, log[|old(log)|])
      ensures NameBelow(log[|old(log)|], at) == item
      ensures forall op :: Planned(source, rep, at, op) && NameBelow(op, at) == item ==> op == log[|old(log)|]
    {
      var itemPath := at + [item];
      var op;
      if Lookup(replica, itemPath).value.Dir? {
        op := DirRemoved(itemPath);
      } else {
        op := FileRemoved(itemPath);
      }
      replica := Graft(replica, itemPath, None);
      LogOperation(op);
      assert Planned(source, rep, at, op);
      forall o | Planned(source, rep, at, o) && NameBelow(o, at) == item
        ensures o == op
      {
        LevelPath(o.path, at, item);
      }
    }
  }
}
