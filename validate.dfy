/** `FolderSyncApp.validate_inputs`: the checks made before a synchronisation
    is started from the window, in their order, with the one side effect
    (creating a missing replica folder). The message boxes become the verdict. */
module Validation {
  import opened FileTree
  import opened Host

  /** The outcome of the checks: accepted, or the first check that failed. */
  datatype Verdict =
    | Accepted
    | SourceMissing        // "Source folder does not exist."
    | ReplicaNotCreated    // "Failed to create replica folder: ..."
    | IntervalNotPositive  // "Synchronization interval must be greater than zero."
    | LogNameMissing       // "Please enter a log file name."

  /** The verdict and the disk after the checks, for the disk `disk` before
      them. `granted` is the depth down to which the system lets `os.makedirs`
      make folders. The checks run in order and stop at the first failure. A
      replica folder created by the second check stays even when a later check
      fails, and so do the folders above the replica that a failed
      `os.makedirs` made before it raised. */
  function Validate(disk: Node, source: Path, replica: Path, interval: int, logName: string, granted: nat): (r: (Verdict, Node))
    ensures r.0 == SourceMissing <==> Lookup(disk, source).None?
    ensures r.0 == ReplicaNotCreated <==>
      Lookup(disk, source).Some? && Lookup(disk, replica).None? && !MakeDirsWithin(disk, replica, granted).0
    ensures r.0 == IntervalNotPositive <==>
      Lookup(disk, source).Some? && Lookup(r.1, replica).Some? && interval <= 0
    ensures r.0 == LogNameMissing <==>
      Lookup(disk, source).Some? && Lookup(r.1, replica).Some? && interval > 0 && logName == []
    ensures r.0 == Accepted <==>
      Lookup(disk, source).Some? && Lookup(r.1, replica).Some? && interval > 0 && logName != []
    ensures Lookup(disk, source).None? || Lookup(disk, replica).Some? ==> r.1 == disk
    ensures Lookup(disk, source).Some? && Lookup(disk, replica).None? && r.0 != ReplicaNotCreated ==>
      Lookup(r.1, replica) == Some(Dir(map[]))
    ensures r.0 == ReplicaNotCreated ==> Lookup(r.1, replica).None?
    ensures r.0 == ReplicaNotCreated && MakeDirs(disk, replica).Some? ==>
      granted < |replica| && IsDirAt(r.1, replica[..granted])
    ensures r.0 == ReplicaNotCreated && MakeDirs(disk, replica).Some? ==>
      forall i :: granted < i <= |replica| ==> Lookup(r.1, replica[..i]) == Lookup(disk, replica[..i])
    ensures forall q :: Separate(q, replica) ==> Lookup(r.1, q) == Lookup(disk, q)
  {
    if Lookup(disk, source).None? then (SourceMissing, disk)
    else
      var after := if Lookup(disk, replica).None? then MakeDirsWithin(disk, replica, granted).1 else disk;
      if Lookup(after, replica).None? then (ReplicaNotCreated, after)
      else if interval <= 0 then (IntervalNotPositive, after)
      else if logName == [] then (LogNameMissing, after)
      else (Accepted, after)
  }

  /** `validate_inputs` on the disk `fs`; it returns True exactly when the
      verdict is `Accepted`. */
  method ValidateInputs(fs: FileSystem, source: Path, replica: Path, interval: int, logName: string, granted: nat)
    returns (v: Verdict)
    modifies fs
    ensures (v, fs.root) == Validate(old(fs.root), source, replica, interval, logName, granted)
  {
    var present := fs.Exists(source);
    if !present {
      return SourceMissing;
    }
    present := fs.Exists(replica);
    if !present {
      var made := fs.MakeDirectories(replica, granted);
      if !made {
        return ReplicaNotCreated;
      }
    }
    if interval <= 0 {
      return IntervalNotPositive;
    }
    if logName == [] {
      return LogNameMissing;
    }
    return Accepted;
  }
}
