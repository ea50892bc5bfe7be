/** `sync_folders`, `files_are_equal` and `get_file_checksum` of
    folder_sync_gui.py, running against the FileSystem model and logging to a
    Logger. */
module FolderSync {
  import opened FileTree
  import Comparator
  import opened Logging
  import opened Mirror
  import opened Host

  /** The block size `get_file_checksum` reads with. */
  const ChunkSize := 4096

  /** `get_file_checksum`: the file is read in blocks of `ChunkSize` bytes
      until a read comes back empty, and every block is fed to the digest.
      The digest is the parameter `md5` applied to everything fed to it
      (what `hexdigest()` returns after the `update` calls); `fed` is that
      stream. */
  method GetFileChecksum(fs: FileSystem, md5: Comparator.Hasher, file: Path) returns (digest: Comparator.Digest)
    requires IsFileAt(fs.root, file) && md5.requires(fs.Contents(file))
    ensures digest == md5(fs.Contents(file))
  {
    ghost var data := fs.Contents(file);
    var fed: seq<byte> := [];
    var offset := 0;
    var chunk := fs.Read(file, offset, ChunkSize);
    while chunk != []
      invariant offset + |chunk| <= |data|
      invariant fed == data[..offset] && chunk == data[offset..offset + |chunk|]
      invariant chunk == [] ==> offset == |data|
      decreases |data| - offset
    {
      fed := fed + chunk;
      offset := offset + |chunk|;
      chunk := fs.Read(file, offset, ChunkSize);
    }
    assert fed == data;
    digest := md5(fed);
  }

  /** `files_are_equal`: sizes first, then the checksums of the two files. The
      checksums are computed only when the sizes agree, so the digest need
      only be defined on equal-size contents. */
  method FilesAreEqual(fs: FileSystem, md5: Comparator.Hasher, file1: Path, file2: Path) returns (r: bool)
    requires IsFileAt(fs.root, file1) && IsFileAt(fs.root, file2)
    requires |fs.Contents(file1)| == |fs.Contents(file2)| ==>
      md5.requires(fs.Contents(file1)) && md5.requires(fs.Contents(file2))
    ensures r == Comparator.FilesAreEqual(md5, fs.Contents(file1), fs.Contents(file2))
  {
    var size1 := fs.GetSize(file1);
    var size2 := fs.GetSize(file2);
    if size1 != size2 {
      return false;
    }
    var digest1 := GetFileChecksum(fs, md5, file1);
    var digest2 := GetFileChecksum(fs, md5, file2);
    r := digest1 == digest2;
  }

  lemma SeparateChildren(p: Path, q: Path, k: Name)
    requires Separate(p, q)
    ensures Separate(p + [k], q) && Separate(p, q + [k]) && Separate(p + [k], q + [k])
  {
    assert forall a: Path, b: Path :: a <= b + [k] && |a| <= |b| ==> a <= b;
  }

  /** While a pass over the replica directory `replica` is under way it holds
      `cur`; the entry of the name `k` below it is `cur`'s. */
  lemma ReplicaHolds(root0: Node, replica: Path, cur: map<Name, Node>, k: Name)
    requires IsDirAt(root0, replica) && replica != []
    ensures IsDirAt(Write(root0, replica, Some(Dir(cur))), replica)
    ensures ListingAt(Write(root0, replica, Some(Dir(cur))), replica) == cur
    ensures Lookup(Write(root0, replica, Some(Dir(cur))), replica + [k])
         == if k in cur then Some(cur[k]) else None
  {
    ExistsUnderDir(root0, replica);
    LookupWritten(root0, replica, Some(Dir(cur)));
    LookupChild(Write(root0, replica, Some(Dir(cur))), replica, k);
  }

  /** ... and the source directory, apart from it, is as it was. */
  lemma SourceKept(root0: Node, source: Path, replica: Path, cur: map<Name, Node>)
    requires IsDirAt(root0, source) && Separate(source, replica)
    ensures IsDirAt(Write(root0, replica, Some(Dir(cur))), source)
    ensures ListingAt(Write(root0, replica, Some(Dir(cur))), source) == ListingAt(root0, source)
  {
    LookupUnwritten(root0, replica, Some(Dir(cur)), source);
  }

  /** A log that grew twice grew once. */
  lemma Appended(log0: seq<Event>, log1: seq<Event>, log2: seq<Event>)
    requires |log0| <= |log1| && log1[..|log0|] == log0
    requires |log1| <= |log2| && log2[..|log1|] == log1
    ensures |log0| <= |log2| && log2[..|log0|] == log0
    ensures multiset(log2[|log0|..]) == multiset(log1[|log0|..]) + multiset(log2[|log1|..])
  {
    assert log2[|log0|..] == log1[|log0|..] + log2[|log1|..];
  }

  /** The replica listing while the first loop is under way: the names in
      `done` are reconciled, the others are as listed at the start. */
  ghost function Copying(md5: seq<byte> -> Comparator.Digest, S: map<Name, Node>, R: map<Name, Node>, done: set<Name>): map<Name, Node>
    requires Compatible(S, R) && done <= S.Keys
  {
    map k | k in R.Keys + done :: if k in done then Entry(md5, S, R, k) else R[k]
  }

  /** The invariant of the first loop, started on the disk `root0` and the
      log `log0`: the names in `done` are reconciled and their events logged. */
  ghost predicate CopiedSoFar(md5: seq<byte> -> Comparator.Digest, S: map<Name, Node>, R: map<Name, Node>, replica: Path,
                              done: set<Name>, root0: Node, log0: seq<Event>, root: Node, log: seq<Event>)
  {
    && Compatible(S, R) && done <= S.Keys && replica != []
    && root == Write(root0, replica, Some(Dir(Copying(md5, S, R, done))))
    && |log0| <= |log| && log[..|log0|] == log0
    && multiset(log[|log0|..]) == multiset(ActionsOver(md5, S, R, replica, done))
  }

  /** Before the first loop nothing is reconciled and nothing is logged. */
  lemma CopyStart(md5: seq<byte> -> Comparator.Digest, S: map<Name, Node>, R: map<Name, Node>, replica: Path,
                  root0: Node, log0: seq<Event>)
    requires Compatible(S, R) && replica != [] && IsDirAt(root0, replica) && ListingAt(root0, replica) == R
    ensures CopiedSoFar(md5, S, R, replica, S.Keys - S.Keys, root0, log0, root0, log0)
  {
    assert S.Keys - S.Keys == {};
    assert Copying(md5, S, R, {}) == R;
    WriteSame(root0, replica);
    ActionsOverNone(md5, S, R, replica);
  }

  /** The log line `sync_folders` writes when it deletes the replica entry
      `n` at `p`. */
  function Deletion(n: Node, p: Path): Event {
    Event(if n.Dir? then DeletedFolder else DeletedFile, p)
  }

  /** The lines logged while the names `gone` of the listing `cur` of the
      directory at `at` are deleted. */
  ghost function Removals(cur: map<Name, Node>, gone: set<Name>, at: Path): set<Event> {
    set k | k in gone && k in cur :: Deletion(cur[k], at + [k])
  }

  /** One iteration of the first loop keeps its invariant. */
  lemma CopyAdvance(md5: seq<byte> -> Comparator.Digest, S: map<Name, Node>, R: map<Name, Node>, replica: Path,
                    done: set<Name>, item: Name, root0: Node, root1: Node, root2: Node,
                    log0: seq<Event>, log1: seq<Event>, log2: seq<Event>)
    requires Compatible(S, R) && done <= S.Keys && item in S && item !in done
    requires replica != [] && IsDirAt(root0, replica)
    requires root1 == Write(root0, replica, Some(Dir(Copying(md5, S, R, done))))
    requires root2 == Write(root1, replica + [item], Some(Entry(md5, S, R, item)))
    requires |log0| <= |log1| && log1[..|log0|] == log0
    requires multiset(log1[|log0|..]) == multiset(ActionsOver(md5, S, R, replica, done))
    requires |log1| <= |log2| && log2[..|log1|] == log1
    requires multiset(log2[|log1|..]) == multiset(EntryActions(md5, S, R, replica, item))
    ensures root2 == Write(root0, replica, Some(Dir(Copying(md5, S, R, done + {item}))))
    ensures |log0| <= |log2| && log2[..|log0|] == log0
    ensures multiset(log2[|log0|..]) == multiset(ActionsOver(md5, S, R, replica, done + {item}))
  {
    assert Put(Copying(md5, S, R, done), item, Some(Entry(md5, S, R, item))) == Copying(md5, S, R, done + {item});
    WriteBelow(root0, replica, Copying(md5, S, R, done), item, Some(Entry(md5, S, R, item)));
    Appended(log0, log1, log2);
    ActionsOverStep(md5, S, R, replica, done, item);
  }

  /** One iteration of the second loop keeps its invariant. */
  lemma DeleteAdvance(cur: map<Name, Node>, replica: Path, gone: set<Name>, item: Name,
                      root0: Node, root1: Node, root2: Node, log0: seq<Event>, log1: seq<Event>, log2: seq<Event>)
    requires item in cur && item !in gone
    requires replica != [] && IsDirAt(root0, replica)
    requires root1 == Write(root0, replica, Some(Dir(cur - gone)))
    requires root2 == Write(root1, replica + [item], None)
    requires |log0| <= |log1| && log1[..|log0|] == log0
    requires multiset(log1[|log0|..]) == multiset(Removals(cur, gone, replica))
    requires log2 == log1 + [Deletion(cur[item], replica + [item])]
    ensures root2 == Write(root0, replica, Some(Dir(cur - (gone + {item}))))
    ensures |log0| <= |log2| && log2[..|log0|] == log0
    ensures multiset(log2[|log0|..]) == multiset(Removals(cur, gone + {item}, replica))
  {
    assert Put(cur - gone, item, None) == cur - (gone + {item});
    WriteBelow(root0, replica, cur - gone, item, None);
    assert log2[|log1|..] == [Deletion(cur[item], replica + [item])];
    Appended(log0, log1, log2);
    var e := Deletion(cur[item], replica + [item]);
    forall k | k in gone && k in cur ensures Deletion(cur[k], replica + [k]) != e {
      assert (replica + [k])[|replica|] == k;
    }
    assert Removals(cur, gone + {item}, replica) == Removals(cur, gone, replica) + {e};
  }

  /** The two loops together make one pass: the listing the first leaves,
      less the orphans, is `Reconcile`, and the lines of the two loops are the
      events of `Actions`. */
  lemma PhasesCompose(md5: seq<byte> -> Comparator.Digest, S: map<Name, Node>, R: map<Name, Node>, replica: Path)
    requires Compatible(S, R)
    ensures Copying(md5, S, R, S.Keys) - (R.Keys - S.Keys) == Reconcile(md5, S, R)
    ensures multiset(ActionsOver(md5, S, R, replica, S.Keys))
          + multiset(Removals(Copying(md5, S, R, S.Keys), R.Keys - S.Keys, replica))
         == multiset(Actions(md5, S, R, replica))
  {
    var orphans := R.Keys - S.Keys;
    var cur := Copying(md5, S, R, S.Keys);
    assert Removals(cur, orphans, replica) == ActionsOver(md5, S, R, replica, orphans) by {
      forall e | e in ActionsOver(md5, S, R, replica, orphans) ensures e in Removals(cur, orphans, replica) {
        EventOwner(md5, S, R, replica, orphans, e);
      }
      forall k | k in orphans ensures EntryActions(md5, S, R, replica, k) == {Deletion(cur[k], replica + [k])} {
      }
    }
    ActionsOverUnion(md5, S, R, replica, S.Keys, orphans);
    assert S.Keys + orphans == S.Keys + R.Keys;
  }

  /** One reconciliation pass over the directory pair (`source`, `replica`):
      the replica directory becomes `Reconcile` of the two listings taken at the
      start, nothing outside it changes, and the lines the pass appends to the
      log are, in some order, exactly the events of `Actions`, each once. */
  method SyncFolders(fs: FileSystem, log: Logger, md5: seq<byte> -> Comparator.Digest, source: Path, replica: Path)
    requires IsDirAt(fs.root, source) && IsDirAt(fs.root, replica) && Separate(source, replica)
    requires Compatible(ListingAt(fs.root, source), ListingAt(fs.root, replica))
    modifies fs, log
    ensures fs.root == Write(old(fs.root), replica,
      Some(Dir(Reconcile(md5, old(ListingAt(fs.root, source)), old(ListingAt(fs.root, replica))))))
    ensures forall q :: Separate(q, replica) ==> Lookup(fs.root, q) == old(Lookup(fs.root, q))
    ensures IsDirAt(fs.root, source) && ListingAt(fs.root, source) == old(ListingAt(fs.root, source))
    ensures |old(log.events)| <= |log.events| && log.events[..|old(log.events)|] == old(log.events)
    ensures multiset(log.events[|old(log.events)|..])
         == multiset(Actions(md5, old(ListingAt(fs.root, source)), old(ListingAt(fs.root, replica)), replica))
    decreases Dir(ListingAt(fs.root, source)), 2
  {
    ghost var root0, log0 := fs.root, log.events;
    ghost var S, R := ListingAt(fs.root, source), ListingAt(fs.root, replica);
    var sourceItems := fs.ListDir(source);
    var replicaItems := fs.ListDir(replica);

    // Copy new and updated entries from source to replica
    CopyPhase(fs, log, md5, source, replica, sourceItems, S, R);
    ghost var log1 := log.events;
    ReplicaHolds(root0, replica, Copying(md5, S, R, S.Keys), "");

    // Delete entries that are not in source
    DeletePhase(fs, log, replica, replicaItems - sourceItems);
    Appended(log0, log1, log.events);
    WriteTwice(root0, replica, Some(Dir(Copying(md5, S, R, S.Keys))),
      Some(Dir(Copying(md5, S, R, S.Keys) - (R.Keys - S.Keys))));
    PhasesCompose(md5, S, R, replica);
    forall q | Separate(q, replica) ensures Lookup(fs.root, q) == Lookup(root0, q) {
      LookupUnwritten(root0, replica, Some(Dir(Reconcile(md5, S, R))), q);
    }
    SourceKept(root0, source, replica, Reconcile(md5, S, R));
  }

  /** The first loop of `sync_folders`, over the source names `names`. */
  method CopyPhase(fs: FileSystem, log: Logger, md5: seq<byte> -> Comparator.Digest, source: Path, replica: Path,
                   names: set<Name>, ghost S: map<Name, Node>, ghost R: map<Name, Node>)
    requires IsDirAt(fs.root, source) && IsDirAt(fs.root, replica) && Separate(source, replica)
    requires ListingAt(fs.root, source) == S && ListingAt(fs.root, replica) == R && names == S.Keys
    requires Compatible(S, R)
    modifies fs, log
    ensures fs.root == Write(old(fs.root), replica, Some(Dir(Copying(md5, S, R, S.Keys))))
    ensures |old(log.events)| <= |log.events| && log.events[..|old(log.events)|] == old(log.events)
    ensures multiset(log.events[|old(log.events)|..]) == multiset(ActionsOver(md5, S, R, replica, S.Keys))
    decreases Dir(S), 1
  {
    ghost var root0, log0 := fs.root, log.events;
    var todo := names;
    CopyStart(md5, S, R, replica, root0, log0);
    while todo != {}
      invariant todo <= S.Keys
      invariant CopiedSoFar(md5, S, R, replica, S.Keys - todo, root0, log0, fs.root, log.events)
      decreases todo
    {
      var item :| item in todo;
      CopyStep(fs, log, md5, source, replica, item, S, R, todo, root0, log0);
      todo := todo - {item};
    }
    assert S.Keys - todo == S.Keys;
  }

  /** One iteration of the first loop: the entry `item` is reconciled. */
  method CopyStep(fs: FileSystem, log: Logger, md5: seq<byte> -> Comparator.Digest, source: Path, replica: Path, item: Name,
                  ghost S: map<Name, Node>, ghost R: map<Name, Node>, ghost todo: set<Name>, ghost root0: Node, ghost log0: seq<Event>)
    requires IsDirAt(root0, source) && IsDirAt(root0, replica) && Separate(source, replica)
    requires ListingAt(root0, source) == S && item in todo && todo <= S.Keys
    requires CopiedSoFar(md5, S, R, replica, S.Keys - todo, root0, log0, fs.root, log.events)
    modifies fs, log
    ensures CopiedSoFar(md5, S, R, replica, S.Keys - (todo - {item}), root0, log0, fs.root, log.events)
    decreases Dir(S), 0
  {
    ghost var done := S.Keys - todo;
    assert S.Keys - (todo - {item}) == done + {item};
    ghost var root1, log1 := fs.root, log.events;
    ReplicaHolds(root0, replica, Copying(md5, S, R, done), item);
    SourceKept(root0, source, replica, Copying(md5, S, R, done));
    SyncEntry(fs, log, md5, source, replica, item, S, R);
    CopyAdvance(md5, S, R, replica, done, item, root0, root1, fs.root, log0, log1, log.events);
  }

  /** The second loop of `sync_folders`, over the orphan names `orphans` of
      the replica directory. */
  method DeletePhase(fs: FileSystem, log: Logger, replica: Path, orphans: set<Name>)
    requires replica != [] && IsDirAt(fs.root, replica) && orphans <= ListingAt(fs.root, replica).Keys
    modifies fs, log
    ensures fs.root == Write(old(fs.root), replica, Some(Dir(old(ListingAt(fs.root, replica)) - orphans)))
    ensures |old(log.events)| <= |log.events| && log.events[..|old(log.events)|] == old(log.events)
    ensures multiset(log.events[|old(log.events)|..])
         == multiset(Removals(old(ListingAt(fs.root, replica)), orphans, replica))
  {
    ghost var root0, log0 := fs.root, log.events;
    ghost var cur := ListingAt(fs.root, replica);
    var todo := orphans;
    ghost var gone: set<Name> := {};
    assert cur - {} == cur;
    WriteSame(root0, replica);
    while todo != {}
      invariant todo !! gone && todo + gone == orphans
      invariant fs.root == Write(root0, replica, Some(Dir(cur - gone)))
      invariant |log0| <= |log.events| && log.events[..|log0|] == log0
      invariant multiset(log.events[|log0|..]) == multiset(Removals(cur, gone, replica))
      decreases todo
    {
      var item :| item in todo;
      ghost var root1, log1 := fs.root, log.events;
      ReplicaHolds(root0, replica, cur - gone, item);
      DeleteEntry(fs, log, replica, item);
      DeleteAdvance(cur, replica, gone, item, root0, root1, fs.root, log0, log1, log.events);
      todo := todo - {item};
      gone := gone + {item};
    }
  }

  /** The body of the second loop of `sync_folders`: the orphan `item` is
      removed, with all its contents when it is a directory, and one line of
      the matching kind is logged. */
  method DeleteEntry(fs: FileSystem, log: Logger, replica: Path, item: Name)
    requires Lookup(fs.root, replica + [item]).Some?
    modifies fs, log
    ensures fs.root == Write(old(fs.root), replica + [item], None)
    ensures log.events == old(log.events) + [Deletion(old(Lookup(fs.root, replica + [item])).value, replica + [item])]
  {
    var replicaPath := replica + [item];
    var isDir := fs.IsDir(replicaPath);
    if isDir {
      fs.RmTree(replicaPath);
      log.Info(Event(DeletedFolder, replicaPath));
    } else {
      fs.Remove(replicaPath);
      log.Info(Event(DeletedFile, replicaPath));
    }
  }

  /** The body of the first loop of `sync_folders` for the source name `item`:
      a directory missing from the replica is copied whole, one present is
      reconciled recursively, a file is copied when missing or different. The
      listings `S` and `R` taken at the start of the pass decide what is done;
      `R` still describes the replica entry of this name. */
  method SyncEntry(fs: FileSystem, log: Logger, md5: seq<byte> -> Comparator.Digest, source: Path, replica: Path,
                   item: Name, ghost S: map<Name, Node>, ghost R: map<Name, Node>)
    requires IsDirAt(fs.root, source) && IsDirAt(fs.root, replica) && Separate(source, replica)
    requires ListingAt(fs.root, source) == S && item in S && Compatible(S, R)
    requires Lookup(fs.root, replica + [item]) == if item in R then Some(R[item]) else None
    modifies fs, log
    ensures fs.root == Write(old(fs.root), replica + [item], Some(Entry(md5, S, R, item)))
    ensures |old(log.events)| <= |log.events| && log.events[..|old(log.events)|] == old(log.events)
    ensures multiset(log.events[|old(log.events)|..]) == multiset(EntryActions(md5, S, R, replica, item))
    decreases S[item], 3
  {
    var sourcePath := source + [item];
    var replicaPath := replica + [item];
    LookupChild(fs.root, source, item);
    SeparateChildren(source, replica, item);
    assert replicaPath[..|replicaPath| - 1] == replica;
    var isDir := fs.IsDir(sourcePath);
    if isDir {
      var present := fs.Exists(replicaPath);
      if !present {
        fs.CopyTree(sourcePath, replicaPath);
        log.Info(Event(CopiedFolder, replicaPath));
      } else {
        SyncFolders(fs, log, md5, sourcePath, replicaPath);
      }
    } else {
      var present := fs.Exists(replicaPath);
      var same := false;
      if present {
        same := FilesAreEqual(fs, md5, sourcePath, replicaPath);
      }
      if !same {
        fs.Copy2(sourcePath, replicaPath);
        log.Info(Event(CopiedFile, replicaPath));
      } else {
        WriteSame(fs.root, replicaPath);
      }
    }
  }
}
