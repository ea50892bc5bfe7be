# folder_sync_gui: one-way folder mirroring, modelled in Dafny

The program keeps a replica folder identical to a source folder. One pass of
`sync_folders(source, replica)` does three things:

- it lists both folders;
- for each source name it copies a folder missing from the replica whole (`shutil.copytree`), recurses into a folder the replica also has, and copies a file (`shutil.copy2`) when the replica copy is missing or differs;
- it deletes every replica name that the source listing lacks (`shutil.rmtree` for folders, `os.remove` for files).

Each copy or deletion is logged as one line. Two files are compared by size first, and only when the sizes agree by an MD5 digest of their contents (`files_are_equal`, `get_file_checksum`). The window checks its inputs before it starts (`validate_inputs`). Run with `--sync source replica interval logfile`, the program synchronises in a loop instead of opening the window (`main`).

The model has seven modules:

- **FileTree** (`tree.dfy`): the disk as a value. `Node = File(data) | Dir(entries)`, a path is a sequence of names, and `Lookup` and `Write` read and replace the node at a path.
- **Host** (`filesystem.dfy`): a `FileSystem` class holding the whole disk in one field. Its methods are the `os` and `shutil` calls the program makes, each stating the new disk through `Write`. `MakeDirs` describes `os.makedirs` with its default `exist_ok=False`, which raises on an existing path.
- **Logging** (`logging.dfy`): a `Logger` class whose `events` sequence receives one `Event(action, path)` per `logging.info` line.
- **Comparator** (`comparator.dfy`): `files_are_equal` on file contents. The digest is a parameter.
- **Mirror** (`mirror.dfy`): what a pass does, as values. `Reconcile` is the replica listing afterwards and `Actions` the set of logged events. The lemmas here are the convergence, idempotence and per-entry properties.
- **FolderSync** (`sync.dfy`): `sync_folders` as an imperative, recursive method. It has the program's two loops over name sets, runs against a `FileSystem` and a `Logger`, and is proved to produce exactly `Reconcile` and `Actions`.
- **Validation** (`validate.dfy`) and **CommandLine** (`cli.dfy`): `validate_inputs` and the `--sync` argument handling of `main`, including Python's `int()` on the interval string and `str()` on the window's interval, with CPython's limit of 4300 decimal digits on both.

The loops run over Python sets, whose iteration order is unspecified (it follows string hashing, which varies from one process to the next). The loops pick any remaining name. The log is therefore specified as a multiset: the lines of a pass are, in some order, exactly the events of `Actions`, each once.

## Model

| member | source | states |
|---|---|---|
| FolderSync.SyncFolders | folder_sync_gui.py:11-39 | The replica folder becomes `Reconcile` of the two listings taken at the start. Every path outside the replica, and in particular the whole source tree, is unchanged. The log keeps its old lines and gains exactly the events of `Actions`, each once. |
| FolderSync.CopyPhase | folder_sync_gui.py:15-29 | After the first loop, every source name holds its reconciled entry and every other replica name is untouched. The lines logged are the events due to the source names. |
| FolderSync.CopyStep | folder_sync_gui.py:16-29 | One iteration of the first loop keeps the loop invariant: one more source name is reconciled, and its events are added to the log. |
| FolderSync.SyncEntry | folder_sync_gui.py:17-29 | For one source name, the replica entry becomes `Mirror.Entry` of that name: a copy of a new folder, a recursive pass into an existing folder, a copied file or the untouched file. The log gains that name's events. |
| FolderSync.DeletePhase | folder_sync_gui.py:31-39 | After the second loop the replica listing is the listing before it minus the orphan names. One deletion line of the matching kind is logged per orphan. |
| FolderSync.DeleteEntry | folder_sync_gui.py:33-39 | An orphan entry is removed, a folder with everything below it, and one line saying "Deleted folder" or "Deleted file" is logged for its path. |
| FolderSync.PhasesCompose | folder_sync_gui.py:12-39 | The listing left by the first loop, less the names missing from the original source listing, is `Reconcile`. The lines of the two loops together are the events of `Actions`. |
| FolderSync.FilesAreEqual | folder_sync_gui.py:41-43 | Comparing two files on the disk gives `Comparator.FilesAreEqual` of their contents. The checksums are computed only when the sizes agree, so the digest need only be defined on equal-size contents. |
| FolderSync.GetFileChecksum | folder_sync_gui.py:45-50 | Reading the file in blocks of 4096 bytes until an empty read feeds the digest exactly the file's bytes, in order, so the checksum is the digest of the whole contents. |
| Comparator.FilesAreEqual | folder_sync_gui.py:41-43 | Files of different sizes never compare equal, and the digest is not needed for them. Byte-identical contents always compare equal. |
| Comparator.EqualIffIdentical | folder_sync_gui.py:41-50 | With a collision-free digest, the comparison holds exactly when the contents are identical. |
| Mirror.Converges | folder_sync_gui.py:11-39 | After a pass the replica mirrors the source at every level: the same names, the same kinds, and file pairs that compare equal. |
| Mirror.InSyncIsQuiet | folder_sync_gui.py:16-39 | When the replica already mirrors the source, a pass leaves it as it is and logs nothing. |
| Mirror.Idempotent | folder_sync_gui.py:11-39 | A second pass with an unchanged source changes nothing and logs nothing. |
| Mirror.ExactCopy | folder_sync_gui.py:11-50 | With a collision-free digest the replica ends up identical to the source tree. |
| Mirror.FreshDirCopiedWhole | folder_sync_gui.py:20-23 | A source folder absent from the replica becomes a copy of the whole source subtree. Its "Copied folder" line is the only line logged at or below that path, so there is no recursion into it. |
| Mirror.CommonDirRecursed | folder_sync_gui.py:20-25 | A source folder that the replica also has becomes the pass over the two sub-listings, and the lines logged below it are those of that pass. |
| Mirror.FileCopiedIff | folder_sync_gui.py:26-29 | A "Copied file" line is logged exactly when the replica entry is missing or compares unequal. In that case the replica file takes the source contents; otherwise it is left untouched. |
| Mirror.OrphanDeleted | folder_sync_gui.py:12-39 | A replica name survives the pass exactly when it is in the source listing taken at the start, so entries created earlier in the pass are never deleted. An orphan name is deleted and logged once, as a folder or a file according to its kind, and nothing else is logged at or below it. |
| Mirror.OneLinePerPath | folder_sync_gui.py:16-39 | No path is logged twice in a pass. |
| Host.MakeDirs | folder_sync_gui.py:139 | `os.makedirs` raises exactly when the path already exists (the root included) or a step on the way is a file. On success the path is a new, empty folder, and nothing off the path's line of ancestors changes. |
| Host.FileSystem.ListDir | folder_sync_gui.py:12-13 | Listing a folder gives the set of its names. |
| Host.FileSystem.IsDir | folder_sync_gui.py:20 | `os.path.isdir` is true exactly for a path holding a folder. |
| Host.FileSystem.Exists | folder_sync_gui.py:21 | `os.path.exists` is true exactly for a path holding a file or a folder. |
| Host.FileSystem.GetSize | folder_sync_gui.py:42 | `os.path.getsize` of a file is the number of its bytes. |
| Host.FileSystem.Contents | folder_sync_gui.py:47 | The bytes of a file are the data of the file node at its path. |
| Host.FileSystem.Read | folder_sync_gui.py:48 | `f.read(count)` at an offset returns the next bytes of the file, at most `count` of them. It returns fewer only at the end of the file, and nothing only there. |
| Host.FileSystem.CopyTree | folder_sync_gui.py:22 | The destination becomes a copy of the whole source folder. |
| Host.FileSystem.Copy2 | folder_sync_gui.py:28 | The destination becomes a file with the source's bytes, created or overwritten. |
| Host.FileSystem.RmTree | folder_sync_gui.py:35 | The folder and everything below it are gone. |
| Host.FileSystem.Remove | folder_sync_gui.py:38 | The file is gone. |
| Host.MakeDirsWithin | folder_sync_gui.py:139 | On a system that refuses `mkdir` below a given depth, `os.makedirs` returns exactly when `MakeDirs` succeeds within that depth, and then leaves the disk `MakeDirs` gives. Otherwise it raises. When the refusal is what stops it, the folders down to the refused level remain made, and no level below it, the path included, changes. Nothing off the path's line of ancestors changes. |
| Host.FileSystem.MakeDirectories | folder_sync_gui.py:139 | The call's outcome and the disk after it are those of `MakeDirsWithin`. |
| Logging.Logger.Info | folder_sync_gui.py:23 | A logging call appends exactly one line. |
| Validation.Validate | folder_sync_gui.py:133-149 | The checks run in their order: the source is missing; the replica is absent and cannot be created; the interval is at most 0; the log name is empty. The verdict names the first failing check, each stated as an if-and-only-if. A replica folder created by the second check is new and empty, and stays even when a later check fails. When the creation fails, the replica stays absent. The folders above it that `os.makedirs` made before the refusal stay, and no level below the refusal is made. The disk changes only when the second check calls `os.makedirs`, and nothing off the replica path changes. |
| Validation.ValidateInputs | folder_sync_gui.py:133-149 | The imperative checks return the verdict of `Validate` and leave the disk that `Validate` describes. |
| CommandLine.ParseArgs | folder_sync_gui.py:186-195 | Without `--sync` the window opens. With too few values after the first `--sync`, the arguments are invalid. |
| CommandLine.SyncRoundTrip | folder_sync_gui.py:186-192 | Whenever `str(interval)` succeeds, a command line holding `--sync`, source, replica, `str(interval)` and the log name, as the window builds it (lines 154-166), parses back to the same four values, whatever precedes or follows it. |
| CommandLine.BadIntervalRejected | folder_sync_gui.py:191-195 | An interval string that `int()` refuses makes the arguments invalid. |
| CommandLine.ParseIntToString | folder_sync_gui.py:191 | `int(str(n)) == n` for every integer `n` that `str()` can print. |
| CommandLine.ParseInt | folder_sync_gui.py:191 | Every number `int()` returns has fewer than 4301 digits, so `str()` can print it back. |
| CommandLine.IntToString | folder_sync_gui.py:154 | `str(n)` raises exactly when abs(n) is at least 10^4300. |
| CommandLine.SeparatorNotStripped | folder_sync_gui.py:191 | `int()` does not strip the separator 0x1C before digits, so an interval such as "\x1C60" is refused. |
| CommandLine.TooManyDigitsRejected | folder_sync_gui.py:191 | `int()` refuses a string of more than 4300 digits, such as "1" followed by 4300 zeros. With `BadIntervalRejected`, such an interval makes the arguments invalid. |
| CommandLine.ParseIntNeedsDigits | folder_sync_gui.py:191 | `int()` of a string without a digit raises. |

## Left out

- The tkinter window: its widgets, browse dialogs, status label, start and stop buttons and closing handler. The message boxes of `validate_inputs` are reduced to the `Verdict` value.
- `run_sync_process`, which spawns a console process on Windows only. Only the shape of the command line it builds is used, in `CommandLine.SyncRoundTrip`.
- The `while True` loop of `main` with `time.sleep(interval)` and the `KeyboardInterrupt` handler. A run is a sequence of `SyncFolders` calls, and `Mirror.Idempotent` covers what a repeated call does. The command-line path does not check that the interval is positive. A negative interval would make `time.sleep` raise after the first pass; that is outside this model.
- The logging configuration (file and console handlers, timestamps, levels, the text layout) and the start and stop lines. A log line is its action kind and the replica path.
- `check_existing_log_file`: it depends on the order of `os.listdir`.
- FolderSync.GetFileChecksum: MD5 itself is not modelled. The digest is a parameter `md5`, an arbitrary function of all the bytes fed to it, so no property of MD5 is used. The reading in 4096-byte blocks is modelled.
- FolderSync.SyncFolders: it requires that no name is a folder on one side and a file on the other, at any level (`Mirror.Compatible`). The program does not handle such a collision. A source folder over a replica file makes the recursive `os.listdir` raise. A source file over a replica folder is usually compared unequal by size, because `os.path.getsize` gives the folder's own size (0 on Windows). `shutil.copy2` then copies the file into the folder, as `replica/name/name`, and logs "Copied file" on every pass. The program raises only when the sizes agree and the folder is opened for its checksum.
- FolderSync.SyncFolders: names match only when they are identical, as on a case-sensitive disk. Windows, the only platform the program starts a synchronisation on, ignores letter case. There `os.path.exists` at lines 21 and 27 finds a replica entry whose name differs from the source name only in case. The set difference at line 32 does not match them, so the same pass reconciles that entry and then deletes it. On such disks `Mirror.Converges`, `Mirror.Idempotent` and `Mirror.ExactCopy` do not describe the program for such names.
- FolderSync.SyncFolders: it requires the source and replica paths to be separate, so that neither lies inside the other. It also requires both to be folders, which `validate_inputs` does not fully ensure: it checks only that the source exists.
- Paths are sequences of names. `os.path.join`, `os.path.abspath`, drive letters, symbolic links and the string form of a path are not modelled.
- Host.FileSystem.Copy2: file metadata (times, permissions) that `copy2` also copies is not modelled.
- I/O errors, permission failures and concurrent changes to the disk during a pass are not modelled. The one exception is the failure of `os.makedirs` in `validate_inputs`, which arrives as the parameter `granted`: the depth down to which the system lets folders be made.
- CommandLine.ParseInt: `int()` also accepts non-ASCII decimal digits and strips non-ASCII whitespace. Only ASCII strings are modelled. The separators 0x1C to 0x1F are never stripped, in any string.
- CommandLine.ParseInt: the digit limit is CPython's default of 4300. It applies from Python 3.11 and in the security releases of 3.7 to 3.10. A limit changed through `sys.set_int_max_str_digits`, `-X int_max_str_digits` or `PYTHONINTMAXSTRDIGITS` is not modelled, and neither are older versions without a limit. `CommandLine.IntToString`, `CommandLine.ParseIntToString` and `CommandLine.SyncRoundTrip` use the same limit.
- CommandLine.IntToString: when `str()` raises in the window, `run_sync_process` fails before it builds a command line. That failure is not modelled further.
- The interval from the window (`tk.IntVar.get()`) is taken as an integer. The error an unparsable entry would raise is not modelled.
