/**
 * What a synchronisation pass promises, stated over its plan (`Planned`)
 * and its failure condition (`Clash`): the `SyncFolders` contract ties the
 * log and the outcome of every pass to these two.
 */
module Properties {
  import opened Files
  import opened Sync

  /** A pass over a directory and an exact copy of it plans nothing. */
  lemma {:induction false} NothingPlannedOnCopy(s: Node, at: Path, op: Op)
    ensures !Planned(s, s, at, op)
    decreases s
  {
    if Planned(s, s, at, op) && |op.path| > |at| + 1 {
      var n := op.path[|at|];
      NothingPlannedOnCopy(s.children[n], at + [n], op);
    }
  }

  /** A pass over a directory and an exact copy of it does not raise. */
  lemma {:induction false} CopyNeverClashes(s: Node)
    requires s.Dir?
    ensures !Clash(s, s)
    decreases s
  {
    forall n | n in s.children
      ensures !ClashBelow(s, s, n)
    {
      if s.children[n].Dir? {
        CopyNeverClashes(s.children[n]);
      }
    }
  }

  /**
   * Idempotence: right after a pass that did not raise, the replica is the
   * source, so a second pass raises nothing and logs nothing.
   */
  lemma Idempotent(s: Node, at: Path)
    requires s.Dir?
    ensures !Fails(s, Some(s))
    ensures forall op :: !PlannedAt(s, Some(s), at, op)
  {
    CopyNeverClashes(s);
    forall op
      ensures !PlannedAt(s, Some(s), at, op)
    {
      NothingPlannedOnCopy(s, at, op);
    }
  }

  /**
   * An entry that is the same on both sides, in particular a file whose
   * digest matches, is neither copied nor removed, and nothing is done below
   * it.
   */
  lemma SameEntryUntouched(s: Node, r: Node, at: Path, n: Name, op: Op)
    requires s.Dir? && r.Dir? && n in s.children && n in r.children
    requires s.children[n] == r.children[n]
    ensures !(Planned(s, r, at, op) && NameBelow(op, at) == n)
  {
    if Planned(s, r, at, op) && NameBelow(op, at) == n && |op.path| > |at| + 1 {
      NothingPlannedOnCopy(s.children[n], at + [n], op);
    }
  }

  /** A file whose content differs in the replica, by as little as one byte, is copied. */
  lemma ChangedFileCopied(s: Node, r: Node, at: Path, n: Name)
    requires s.Dir? && r.Dir? && n in s.children && n in r.children
    requires s.children[n].File? && r.children[n].File?
    requires s.children[n].content != r.children[n].content
    ensures Planned(s, r, at, FileCopied(at + [n]))
  {
    assert (at + [n])[..|at|] == at;
  }

  /**
   * A source directory missing from the replica gets exactly one operation,
   * its creation; nothing is logged for what it contains.
   */
  lemma NewDirLoggedOnce(s: Node, r: Node, at: Path, n: Name, op: Op)
    requires s.Dir? && r.Dir? && n in s.children && s.children[n].Dir? && n !in r.children
    ensures Planned(s, r, at, op) && NameBelow(op, at) == n <==> op == DirCreated(at + [n])
  {
    assert (at + [n])[..|at|] == at;
    if Planned(s, r, at, op) && NameBelow(op, at) == n {
      LevelPath(op.path, at, n);
    }
  }

  /**
   * A replica entry the source lacks gets exactly one operation: the
   * removal of a directory with all it holds, or the removal of a file.
   */
  lemma StaleEntryLoggedOnce(s: Node, r: Node, at: Path, n: Name, op: Op)
    requires s.Dir? && r.Dir? && n !in s.children && n in r.children
    ensures Planned(s, r, at, op) && NameBelow(op, at) == n <==>
              op == if r.children[n].Dir? then DirRemoved(at + [n]) else FileRemoved(at + [n])
  {
    assert (at + [n])[..|at|] == at;
    if Planned(s, r, at, op) && NameBelow(op, at) == n {
      LevelPath(op.path, at, n);
    }
  }

  /**
   * Nothing a pass creates or copies is removed by the same pass: no
   * planned removal is of the created entry or of a directory above it.
   */
  lemma {:induction false} RemovalsSpareCopies(s: Node, r: Node, at: Path, c: Op, d: Op)
    requires Planned(s, r, at, c) && !IsRemoval(c)
    requires Planned(s, r, at, d) && IsRemoval(d)
    ensures !(|d.path| <= |c.path| && c.path[..|d.path|] == d.path)
    decreases s
  {
    if |d.path| <= |c.path| && c.path[..|d.path|] == d.path {
      var n := d.path[|at|];
      assert c.path[|at|] == c.path[..|d.path|][|at|] == n;
      if |d.path| > |at| + 1 {
        RemovalsSpareCopies(s.children[n], r.children[n], at + [n], c, d);
      }
    }
  }

  /** A source directory against a replica file of the same name makes the pass raise. */
  lemma DirOverFileFails(s: Node, r: Node, n: Name)
    requires s.Dir? && r.Dir? && n in s.children && n in r.children
    requires s.children[n].Dir? && r.children[n].File?
    ensures Clash(s, r)
  {
    assert ClashBelow(s, r, n);
  }

  /** A source file against a replica directory of the same name makes the pass raise. */
  lemma FileOverDirFails(s: Node, r: Node, n: Name)
    requires s.Dir? && r.Dir? && n in s.children && n in r.children
    requires s.children[n].File? && r.children[n].Dir?
    ensures Clash(s, r)
  {
    assert ClashBelow(s, r, n);
  }

  /**
   * The worked example: source {a.txt = "hello", sub/b.txt = "x"} and
   * replica {a.txt = "hello", c.txt = "old"}. The pass does not raise and
   * performs exactly two operations: it creates `sub` and removes `c.txt`.
   */
  lemma Example(op: Op)
    ensures var hello: Bytes := [0x68, 0x65, 0x6c, 0x6c, 0x6f];
            var source := Dir(map["a.txt" := File(hello), "sub" := Dir(map["b.txt" := File([0x78])])]);
            var replica := Dir(map["a.txt" := File(hello), "c.txt" := File([0x6f, 0x6c, 0x64])]);
            && !Clash(source, replica)
            && (Planned(source, replica, [], op) <==> op == DirCreated(["sub"]) || op == FileRemoved(["c.txt"]))
  {
    var hello: Bytes := [0x68, 0x65, 0x6c, 0x6c, 0x6f];
    var source := Dir(map["a.txt" := File(hello), "sub" := Dir(map["b.txt" := File([0x78])])]);
    var replica := Dir(map["a.txt" := File(hello), "c.txt" := File([0x6f, 0x6c, 0x64])]);
    forall n | n in source.children
      ensures !ClashBelow(source, replica, n)
    {
      assert n == "a.txt" || n == "sub";
    }
    SameEntryUntouched(source, replica, [], "a.txt", op);
    NewDirLoggedOnce(source, replica, [], "sub", op);
    StaleEntryLoggedOnce(source, replica, [], "c.txt", op);
  }

  lemma HeadIsElement(ops: seq<Op>)
    ensures |ops| > 0 ==> ops[0] in ops
  {
  }

  /**
   * Two passes in a row over an unchanged source, as the scheduling loop
   * makes them: when the first does not raise, the replica is the source
   * and the second pass neither raises, nor changes it, nor logs anything.
   */
  method PassTwice(sync: Synchronizer, source: Node) returns (first: Outcome, second: Outcome, ghost afterFirst: seq<Op>)
    modifies sync
    ensures first.Pass? ==> second.Pass? && sync.replica == source && sync.log == afterFirst
  {
    first := sync.SyncFolders(source, []);
    afterFirst := sync.log;
    ghost var replicaAfterFirst := sync.replica;
    second := sync.SyncFolders(source, []);
    if first.Pass? {
      assert replicaAfterFirst == source;
      Idempotent(source, []);
      ghost var more := sync.log[|afterFirst|..];
      HeadIsElement(more);
    }
  }
}
