/** What one reconciliation pass of `sync_folders` does to a replica directory,
    as values: the new listing (`Reconcile`) and the set of logged actions
    (`Actions`). The imperative pass in module FolderSync is proved to produce
    exactly these; the lemmas here state what they guarantee. */
module Mirror {
  import opened FileTree
  import opened Comparator
  import opened Logging

  /** No name is a directory on one side and a file on the other, at any level
      the pass recurses into. The program does not handle such a collision
      (listing a file, or copying a file onto a directory), so every pass
      below requires it. */
  ghost predicate Compatible(src: map<Name, Node>, rep: map<Name, Node>)
    decreases Dir(src)
  {
    forall k :: k in src && k in rep ==>
      && src[k].Dir? == rep[k].Dir?
      && (src[k].Dir? ==> Compatible(src[k].entries, rep[k].entries))
  }

  /** A source file is copied when the replica has no entry of its name or
      the comparison reports a difference. */
  predicate NeedsCopy(md5: seq<byte> -> Digest, src: map<Name, Node>, rep: map<Name, Node>, k: Name)
    requires k in src && src[k].File?
    requires k in rep ==> rep[k].File?
  {
    k !in rep || !FilesAreEqual(md5, src[k].data, rep[k].data)
  }

  /** The replica entry for the source name `k` after the pass. */
  ghost function Entry(md5: seq<byte> -> Digest, src: map<Name, Node>, rep: map<Name, Node>, k: Name): Node
    requires k in src && Compatible(src, rep)
    decreases Dir(src), 0
  {
    match src[k]
    case Dir(se) =>
      if k !in rep then src[k] else Dir(Reconcile(md5, se, rep[k].entries))
    case File(_) =>
      if NeedsCopy(md5, src, rep, k) then src[k] else rep[k]
  }

  /** The replica listing after the pass over the listings `src` and `rep`. */
  ghost function Reconcile(md5: seq<byte> -> Digest, src: map<Name, Node>, rep: map<Name, Node>): map<Name, Node>
    requires Compatible(src, rep)
    decreases Dir(src), 1
  {
    map k | k in src :: Entry(md5, src, rep, k)
  }

  /** The log events due to the name `k` of either listing, for a replica
      directory at path `at`. */
  ghost function EntryActions(md5: seq<byte> -> Digest, src: map<Name, Node>, rep: map<Name, Node>, at: Path, k: Name): set<Event>
    requires Compatible(src, rep)
    decreases Dir(src), 0
  {
    if k in src then
      match src[k]
      case Dir(se) =>
        if k !in rep then {Event(CopiedFolder, at + [k])}
        else Actions(md5, se, rep[k].entries, at + [k])
      case File(_) =>
        if NeedsCopy(md5, src, rep, k) then {Event(CopiedFile, at + [k])} else {}
    else if k in rep then
      {Event(if rep[k].Dir? then DeletedFolder else DeletedFile, at + [k])}
    else {}
  }

  /** The events due to the names in `names`. */
  ghost function ActionsOver(md5: seq<byte> -> Digest, src: map<Name, Node>, rep: map<Name, Node>, at: Path, names: set<Name>): set<Event>
    requires Compatible(src, rep)
    decreases Dir(src), 1
  {
    set k, e | k in names && e in EntryActions(md5, src, rep, at, k) :: e
  }

  /** Every event a pass over the replica directory at `at` logs. */
  ghost function Actions(md5: seq<byte> -> Digest, src: map<Name, Node>, rep: map<Name, Node>, at: Path): set<Event>
    requires Compatible(src, rep)
    decreases Dir(src), 2
  {
    ActionsOver(md5, src, rep, at, src.Keys + rep.Keys)
  }

  /** `rep` is a mirror of `src`: the same names at every level, of the same
      kind, and every pair of files compares equal. */
  ghost predicate Mirrors(md5: seq<byte> -> Digest, src: map<Name, Node>, rep: map<Name, Node>)
    decreases Dir(src)
  {
    && src.Keys == rep.Keys
    && forall k :: k in src ==>
      && src[k].Dir? == rep[k].Dir?
      && (src[k].Dir? ==> Mirrors(md5, src[k].entries, rep[k].entries))
      && (src[k].File? ==> FilesAreEqual(md5, src[k].data, rep[k].data))
  }

  /** Every event due to the name `k` of the directory at `at` names a path
      inside `at + [k]`. */
  lemma {:induction false} EventsBelowEntry(md5: seq<byte> -> Digest, src: map<Name, Node>, rep: map<Name, Node>, at: Path, k: Name)
    requires Compatible(src, rep)
    ensures forall e :: e in EntryActions(md5, src, rep, at, k) ==>
      |at| < |e.path| && e.path[..|at| + 1] == at + [k]
    decreases Dir(src)
  {
    if k in src && src[k].Dir? && k in rep {
      var se, re := src[k].entries, rep[k].entries;
      assert EntryActions(md5, src, rep, at, k) == Actions(md5, se, re, at + [k]);
      forall e | e in EntryActions(md5, src, rep, at, k)
        ensures |at| < |e.path| && e.path[..|at| + 1] == at + [k]
      {
        assert e in ActionsOver(md5, se, re, at + [k], se.Keys + re.Keys);
        var j :| j in se.Keys + re.Keys && e in EntryActions(md5, se, re, at + [k], j);
        EventsBelowEntry(md5, se, re, at + [k], j);
        assert e.path[..|at| + 1] == e.path[..|at| + 2][..|at| + 1];
      }
    }
  }

  /** Every event of a pass over the names `names` of the directory at `at`
      lies below `at`, under one of those names, and is due to that name. */
  lemma EventOwner(md5: seq<byte> -> Digest, src: map<Name, Node>, rep: map<Name, Node>, at: Path, names: set<Name>, e: Event)
    requires Compatible(src, rep) && e in ActionsOver(md5, src, rep, at, names)
    ensures |at| < |e.path| && e.path[..|at|] == at
    ensures e.path[|at|] in names && e in EntryActions(md5, src, rep, at, e.path[|at|])
  {
    var k :| k in names && e in EntryActions(md5, src, rep, at, k);
    EventsBelowEntry(md5, src, rep, at, k);
    assert e.path[..|at|] == e.path[..|at| + 1][..|at|];
    assert e.path[|at|] == e.path[..|at| + 1][|at|];
  }

  /** Adding one more name to a pass adds its events, none of which was there
      before, so the log of the pass grows by exactly those events. */
  lemma ActionsOverStep(md5: seq<byte> -> Digest, src: map<Name, Node>, rep: map<Name, Node>, at: Path, names: set<Name>, k: Name)
    requires Compatible(src, rep) && k !in names
    ensures multiset(ActionsOver(md5, src, rep, at, names + {k}))
         == multiset(ActionsOver(md5, src, rep, at, names)) + multiset(EntryActions(md5, src, rep, at, k))
  {
    var before := ActionsOver(md5, src, rep, at, names);
    var added := EntryActions(md5, src, rep, at, k);
    var after := ActionsOver(md5, src, rep, at, names + {k});
    forall e | e in after ensures e in before + added {
      EventOwner(md5, src, rep, at, names + {k}, e);
    }
    EventsBelowEntry(md5, src, rep, at, k);
    forall e | e in added ensures e.path[|at|] == k {
      assert e.path[|at|] == e.path[..|at| + 1][|at|];
    }
    forall e | e in before ensures e !in added {
      EventOwner(md5, src, rep, at, names, e);
    }
    assert after == before + added;
  }

  /** A pass over no names logs nothing. */
  lemma ActionsOverNone(md5: seq<byte> -> Digest, src: map<Name, Node>, rep: map<Name, Node>, at: Path)
    requires Compatible(src, rep)
    ensures ActionsOver(md5, src, rep, at, {}) == {}
  {
  }

  /** Passes over two disjoint sets of names log disjoint sets of events,
      which together are the events of a pass over both. */
  lemma ActionsOverUnion(md5: seq<byte> -> Digest, src: map<Name, Node>, rep: map<Name, Node>, at: Path, a: set<Name>, b: set<Name>)
    requires Compatible(src, rep) && a !! b
    ensures multiset(ActionsOver(md5, src, rep, at, a)) + multiset(ActionsOver(md5, src, rep, at, b))
         == multiset(ActionsOver(md5, src, rep, at, a + b))
  {
    var x, y := ActionsOver(md5, src, rep, at, a), ActionsOver(md5, src, rep, at, b);
    forall e | e in ActionsOver(md5, src, rep, at, a + b) ensures e in x + y {
      EventOwner(md5, src, rep, at, a + b, e);
    }
    forall e | e in x ensures |at| < |e.path| && e.path[|at|] in a {
      EventOwner(md5, src, rep, at, a, e);
    }
    forall e | e in y ensures |at| < |e.path| && e.path[|at|] in b {
      EventOwner(md5, src, rep, at, b, e);
    }
    assert ActionsOver(md5, src, rep, at, a + b) == x + y;
  }

  /** A source directory with no replica entry of its name becomes a copy of
      the whole source subtree, logged as one "Copied folder" line and nothing
      else below it: the pass does not recurse into it. */
  lemma FreshDirCopiedWhole(md5: seq<byte> -> Digest, src: map<Name, Node>, rep: map<Name, Node>, at: Path, k: Name)
    requires Compatible(src, rep) && k in src && src[k].Dir? && k !in rep
    ensures k in Reconcile(md5, src, rep) && Reconcile(md5, src, rep)[k] == src[k]
    ensures Event(CopiedFolder, at + [k]) in Actions(md5, src, rep, at)
    ensures forall e :: e in Actions(md5, src, rep, at) && at + [k] <= e.path ==> e == Event(CopiedFolder, at + [k])
  {
    assert Event(CopiedFolder, at + [k]) in EntryActions(md5, src, rep, at, k);
    forall e | e in Actions(md5, src, rep, at) && at + [k] <= e.path
      ensures e == Event(CopiedFolder, at + [k])
    {
      EventOwner(md5, src, rep, at, src.Keys + rep.Keys, e);
      assert e.path[|at|] == (at + [k])[|at|];
    }
  }

  /** A source file is copied, and logged as one "Copied file" line, exactly
      when the replica has no entry of its name or the comparison reports a
      difference; otherwise the replica file is left as it was. */
  lemma FileCopiedIff(md5: seq<byte> -> Digest, src: map<Name, Node>, rep: map<Name, Node>, at: Path, k: Name)
    requires Compatible(src, rep) && k in src && src[k].File?
    ensures Event(CopiedFile, at + [k]) in Actions(md5, src, rep, at)
        <==> k !in rep || !FilesAreEqual(md5, src[k].data, rep[k].data)
    ensures k in Reconcile(md5, src, rep)
    ensures Reconcile(md5, src, rep)[k]
         == if k !in rep || !FilesAreEqual(md5, src[k].data, rep[k].data) then src[k] else rep[k]
  {
    var e := Event(CopiedFile, at + [k]);
    if e in Actions(md5, src, rep, at) {
      EventOwner(md5, src, rep, at, src.Keys + rep.Keys, e);
      assert e.path[|at|] == k;
    }
    if NeedsCopy(md5, src, rep, k) {
      assert e in EntryActions(md5, src, rep, at, k);
    }
  }

  /** A source directory that the replica also has is reconciled recursively:
      its replica entry becomes the pass over the two sub-listings, and the
      lines logged below it are those of that pass. */
  lemma CommonDirRecursed(md5: seq<byte> -> Digest, src: map<Name, Node>, rep: map<Name, Node>, at: Path, k: Name)
    requires Compatible(src, rep) && k in src && src[k].Dir? && k in rep
    ensures rep[k].Dir? && Compatible(src[k].entries, rep[k].entries)
    ensures k in Reconcile(md5, src, rep)
    ensures Reconcile(md5, src, rep)[k] == Dir(Reconcile(md5, src[k].entries, rep[k].entries))
    ensures forall e ::
              (e in Actions(md5, src, rep, at) && at + [k] <= e.path)
              <==> e in Actions(md5, src[k].entries, rep[k].entries, at + [k])
  {
    var sub := Actions(md5, src[k].entries, rep[k].entries, at + [k]);
    assert EntryActions(md5, src, rep, at, k) == sub;
    forall e | e in Actions(md5, src, rep, at) && at + [k] <= e.path ensures e in sub {
      EventOwner(md5, src, rep, at, src.Keys + rep.Keys, e);
      assert e.path[|at|] == (at + [k])[|at|];
    }
    EventsBelowEntry(md5, src, rep, at, k);
    forall e | e in sub ensures e in Actions(md5, src, rep, at) && at + [k] <= e.path {
      assert e.path[..|at| + 1] == at + [k];
    }
  }

  /** Every replica name absent from the source listing is removed, a
      directory with all its contents, and logged as one line of the
      matching kind; no name of the source listing is removed. */
  lemma OrphanDeleted(md5: seq<byte> -> Digest, src: map<Name, Node>, rep: map<Name, Node>, at: Path, k: Name)
    requires Compatible(src, rep) && k in rep
    ensures k in Reconcile(md5, src, rep) <==> k in src
    ensures k !in src ==>
      Event(if rep[k].Dir? then DeletedFolder else DeletedFile, at + [k]) in Actions(md5, src, rep, at)
    ensures k !in src ==>
      forall e :: e in Actions(md5, src, rep, at) && at + [k] <= e.path
        ==> e == Event(if rep[k].Dir? then DeletedFolder else DeletedFile, at + [k])
  {
    if k !in src {
      var d := Event(if rep[k].Dir? then DeletedFolder else DeletedFile, at + [k]);
      assert d in EntryActions(md5, src, rep, at, k);
      forall e | e in Actions(md5, src, rep, at) && at + [k] <= e.path ensures e == d {
        EventOwner(md5, src, rep, at, src.Keys + rep.Keys, e);
        assert e.path[|at|] == (at + [k])[|at|];
      }
    }
  }

  /** Each path is logged at most once in a pass: no entry is both copied and
      deleted, or copied twice. */
  lemma {:induction false} OneLinePerPath(md5: seq<byte> -> Digest, src: map<Name, Node>, rep: map<Name, Node>, at: Path)
    requires Compatible(src, rep)
    ensures forall e1, e2 ::
              e1 in Actions(md5, src, rep, at) && e2 in Actions(md5, src, rep, at) && e1.path == e2.path
              ==> e1 == e2
    decreases Dir(src)
  {
    forall e1, e2 | e1 in Actions(md5, src, rep, at) && e2 in Actions(md5, src, rep, at) && e1.path == e2.path
      ensures e1 == e2
    {
      EventOwner(md5, src, rep, at, src.Keys + rep.Keys, e1);
      EventOwner(md5, src, rep, at, src.Keys + rep.Keys, e2);
      var k := e1.path[|at|];
      if k in src && src[k].Dir? && k in rep {
        assert EntryActions(md5, src, rep, at, k) == Actions(md5, src[k].entries, rep[k].entries, at + [k]);
        OneLinePerPath(md5, src[k].entries, rep[k].entries, at + [k]);
      }
    }
  }

  lemma {:induction false} MirrorsSelf(md5: seq<byte> -> Digest, m: map<Name, Node>)
    ensures Mirrors(md5, m, m)
    decreases Dir(m)
  {
    forall k | k in m && m[k].Dir? ensures Mirrors(md5, m[k].entries, m[k].entries) {
      MirrorsSelf(md5, m[k].entries);
    }
  }

  /** Convergence: after a pass the replica mirrors the source at every
      level; in particular every replica name absent from the source is gone. */
  lemma {:induction false} Converges(md5: seq<byte> -> Digest, src: map<Name, Node>, rep: map<Name, Node>)
    requires Compatible(src, rep)
    ensures Mirrors(md5, src, Reconcile(md5, src, rep))
    decreases Dir(src)
  {
    var r := Reconcile(md5, src, rep);
    assert r.Keys == src.Keys;
    forall k | k in src
      ensures src[k].Dir? == r[k].Dir?
      ensures src[k].Dir? ==> Mirrors(md5, src[k].entries, r[k].entries)
      ensures src[k].File? ==> FilesAreEqual(md5, src[k].data, r[k].data)
    {
      assert r[k] == Entry(md5, src, rep, k);
      if src[k].Dir? {
        if k in rep {
          Converges(md5, src[k].entries, rep[k].entries);
        } else {
          MirrorsSelf(md5, src[k].entries);
        }
      }
    }
  }

  /** A replica that already mirrors the source is left as it is and the pass
      logs nothing. */
  lemma {:induction false} InSyncIsQuiet(md5: seq<byte> -> Digest, src: map<Name, Node>, rep: map<Name, Node>, at: Path)
    requires Mirrors(md5, src, rep)
    ensures Compatible(src, rep)
    ensures Reconcile(md5, src, rep) == rep
    ensures Actions(md5, src, rep, at) == {}
    decreases Dir(src)
  {
    forall k | k in src && src[k].Dir?
      ensures Compatible(src[k].entries, rep[k].entries)
      ensures Reconcile(md5, src[k].entries, rep[k].entries) == rep[k].entries
      ensures Actions(md5, src[k].entries, rep[k].entries, at + [k]) == {}
    {
      InSyncIsQuiet(md5, src[k].entries, rep[k].entries, at + [k]);
    }
    assert Compatible(src, rep);
    var r := Reconcile(md5, src, rep);
    forall k | k in src ensures r[k] == rep[k] {
      assert r[k] == Entry(md5, src, rep, k);
    }
    forall e | e in Actions(md5, src, rep, at) ensures false {
      EventOwner(md5, src, rep, at, src.Keys + rep.Keys, e);
    }
  }

  /** Idempotence: a second pass with an unchanged source copies nothing,
      deletes nothing and logs nothing. */
  lemma Idempotent(md5: seq<byte> -> Digest, src: map<Name, Node>, rep: map<Name, Node>, at: Path)
    requires Compatible(src, rep)
    ensures Compatible(src, Reconcile(md5, src, rep))
    ensures Reconcile(md5, src, Reconcile(md5, src, rep)) == Reconcile(md5, src, rep)
    ensures Actions(md5, src, Reconcile(md5, src, rep), at) == {}
  {
    Converges(md5, src, rep);
    InSyncIsQuiet(md5, src, Reconcile(md5, src, rep), at);
  }

  /** With a collision-free digest the replica ends up identical to the source. */
  lemma {:induction false} ExactCopy(md5: seq<byte> -> Digest, src: map<Name, Node>, rep: map<Name, Node>)
    requires CollisionFree(md5) && Compatible(src, rep)
    ensures Reconcile(md5, src, rep) == src
    decreases Dir(src)
  {
    var r := Reconcile(md5, src, rep);
    forall k | k in src ensures r[k] == src[k] {
      assert r[k] == Entry(md5, src, rep, k);
      match src[k]
      case Dir(se) =>
        if k in rep {
          ExactCopy(md5, se, rep[k].entries);
        }
      case File(d) =>
        if !NeedsCopy(md5, src, rep, k) {
          EqualIffIdentical(md5, d, rep[k].data);
        }
    }
  }
}
