# Filesystem toolkit of `core/` — a verified Dafny model

The `core` package of this home-lab tool copies files and directory trees,
checks that two files or two directories match, offers small file helpers
(line counting, guarded reading, entry counts, directory sizes, create and
remove), validates the TOML configuration record, and packs files and
directory trees into a tar stream. This project models those operations over
an in-memory filesystem and proves what they promise.

* `paths.dfy` (`Paths`): a path is a sequence of non-empty names, the root
  being the empty path; `Within(q, p)` means `q` is `p` or lies below it;
  directory listings come in lexicographic name order (`SortedNames`).
* `fs.dfy` (`FsModel`): the operating system the package calls. A tree maps
  paths to `File(data, perm, uid, gid)`, `Dir(perm, uid, gid)` or
  `Symlink(target, uid, gid)` nodes. An environment `Env` says which system
  calls are refused on which paths, at which byte offset a file's reads fail,
  and the uid and gid of the process. `FileSystem` is a class holding the
  tree, updated in place by the modelled operations; `stat`, `open`,
  `create`, `chmod`, `chown`, `mkdir`, `MkdirAll`, `remove`, `RemoveAll`,
  `ReadDir` and `filepath.Walk` are functions over the tree and environment.
* `copy.dfy` (`Copy`), `check.dfy` (`Check`), `file.dfy` (`Files`),
  `config.dfy` (`Configuration`), `archive.dfy` (`Archive`): the five source
  files. Every operation that changes the filesystem, or loops, is a method
  proved equal to a specification function; the lemmas state what those
  functions mean.
* `wrappers.dfy`: `Option`, `Result` and `Outcome` (an error or success
  without a value).

Behaviour kept as the code has it:

* `CopyFile` onto itself (the same path, or the directory holding the
  source) truncates the file before reading it, so the file ends up empty
  and the copy reports 0 bytes (`Copy.CopyFileOntoItself`).
* `CopyDirectory` gives each new directory the source's mode but leaves it
  owned by the process; files keep mode and owner. It stops at the first
  failure and leaves what it already copied (`Copy.CopyEntriesAborts`).
* `CheckIfDirectoriesMatch` is shallow: it never compares bytes
  (`Check.ShapeIsEnough`).
* `addToArchive` returns success without writing anything when `os.Stat`
  fails after `os.Open` succeeded; a symbolic link's header records the
  link's own name as its target, because `tar.FileInfoHeader` is passed
  `info.Name()`.
* Below the root directory input, an archive member's name is the walked
  path itself, because `filepath.Base("/")` is `"/"`.

## Model

| member | source | states |
|---|---|---|
| Copy.CopyTarget | core/copy.go:49-57 | The target is `dst` joined with the source's base name exactly when `dst` stats as a directory, and `dst` itself otherwise (missing, or not a directory). |
| Copy.CopyFileSpec | core/copy.go:28-89 | The tree stays well formed and only the resolved target may change; a source that cannot be stat-ed, is a directory or is not regular gives that error and leaves the tree untouched. |
| Copy.Transfer | core/copy.go:64-85 | Copying the bytes, then `Chmod`, then `Chown` keeps the tree well formed and changes at most the target. |
| Copy.TransferSuccess | core/copy.go:64-88 | A transfer that succeeds onto an emptied target read the source to the end and leaves there the source's bytes with the given mode and owner, reporting the source's length. |
| Copy.CopyFile | core/copy.go:28-89 | The method updates the filesystem exactly as `CopyFileSpec` prescribes and returns its byte count or error. |
| Copy.CopyFileSuccess | core/copy.go:28-89 | A successful copy to a target other than the source makes the target an exact copy of the source file (bytes, mode, uid, gid), changes nothing else, and returns the source's length. |
| Copy.CopyFileCreates | core/copy.go:30-62 | A successful copy had a regular-file source, created the target, and then ran the transfer on the created tree. |
| Copy.CopyFileOntoItself | core/copy.go:42-68 | A successful copy whose target is the source itself leaves the source empty, keeping its mode and owner, and reports 0 bytes. |
| Copy.CopyFileThenFilesMatch | core/copy.go:28-89 | After a successful copy to another path, `CheckIfFilesMatch` accepts source and target, provided neither is refused a stat or open and neither has a read fault. |
| Copy.CopyDirSpec | core/copy.go:91-152 | The tree stays well formed and never loses an entry; unless the source is a directory and the destination is missing, the tree is unchanged and the result is an error; success implies the source was a directory and the destination did not exist. |
| Copy.CopyEntriesSpec | core/copy.go:127-148 | The entry loop keeps the tree well formed and never removes an entry. |
| Copy.CopyEntrySpec | core/copy.go:128-147 | One loop turn keeps the tree well formed and never removes an entry. |
| Copy.CopyDirectory | core/copy.go:91-152 | The method updates the filesystem exactly as `CopyDirSpec` prescribes and returns its outcome. |
| Copy.CopyEntries | core/copy.go:127-148 | The loop updates the filesystem exactly as `CopyEntriesSpec` prescribes, entry by entry in listing order, stopping at the first failure. |
| Copy.CopyEntry | core/copy.go:128-147 | One turn updates the filesystem as `CopyEntrySpec` prescribes: recursion for a directory, nothing for a link, `CopyFile` otherwise. |
| Copy.Copy | core/copy.go:154-167 | A stat failure is returned with the tree untouched; a directory goes to `CopyDirectory`, a regular file to `CopyFile` (its error becomes the outcome); anything else is refused with the tree untouched. |
| Copy.CopyFileEntryFacts | core/copy.go:143-146 | Copying a regular-file entry to a fresh name changes no existing entry, adds nothing but that name, and on success leaves an exact copy there. |
| Copy.CopyEntryFacts | core/copy.go:128-147 | One turn changes no existing entry, adds only below the entry's own destination name and never for a link, and on success leaves there a copy of the entry. |
| Copy.CopyEntriesFacts | core/copy.go:127-148 | The loop changes no existing entry, adds only under names of copied (non-link) entries, and on success leaves a copy of every entry but the links. |
| Copy.CopyEntriesAborts | core/copy.go:127-148 | When the loop fails at some entry, every entry before it keeps its copy (no rollback) and nothing was added for entries after it. |
| Copy.CopyDirFacts | core/copy.go:91-152 | With the destination not inside the source: no existing entry changes, new entries lie only at, above or below the destination, and on success the destination holds a copy of the source's subtree without its links (files exact, directories with the source's mode and the process's owner). |
| Copy.DirImageForward | core/copy.go:115-148 | Every non-link entry below the source reappears at the same relative path below the destination, copied. |
| Copy.DirImageBackward | core/copy.go:115-148 | Everything below the destination is the copy of a non-link entry at the same relative path below the source. |
| Copy.CopyHasSameShape | core/copy.go:115-148 | A copy of a link-free source has the source's shape: the same names, kinds and sizes at the same relative paths. |
| Copy.CopyThenDirectoriesMatch | core/copy.go:91-152 | A successful `CopyDirectory` of a link-free source (destination not inside it, no stat or listing refused) passes `CheckIfDirectoriesMatch`. |
| Copy.ImageThenDirectoriesMatch | core/check.go:128-170 | Any tree that grew only around the destination and holds there a copy of a link-free source directory passes `CheckIfDirectoriesMatch`. |
| Files.GetHash | core/file.go:30-43 | A digest is returned exactly when the file opens and reads to the end, and it is the hash of the file's bytes. |
| Check.CheckIfIsFile | core/check.go:25-34 | The result is `true` exactly when the path stats as a regular file, and never `false` without an error. |
| Check.CheckIfIsFileCases | core/check.go:25-34 | A regular file gives `true`, any other existing node a not-regular error, a missing path a stat error. |
| Check.CheckHash | core/check.go:36-54 | Success exactly when both files read to the end and their digests are equal. |
| Check.SameBytesSameHash | core/check.go:36-54 | Two readable files with identical bytes pass, whatever the hash function. |
| Check.CheckOwner | core/check.go:56-80 | Success exactly when both stat and uid and gid agree; a uid mismatch is reported exactly when the uids differ; a gid mismatch exactly when the uids agree and the gids differ. |
| Check.CheckPermissions | core/check.go:82-98 | Success exactly when both stat and their whole modes, type bits included, are equal; a failure after both stats is a mode mismatch. |
| Check.PermissionsSeeType | core/check.go:91-97 | A file and a directory with the same permission bits still fail the mode comparison. |
| Check.FirstNonFile | core/check.go:103-108 | No error exactly when every path of the list is a regular file. |
| Check.CheckIfFilesMatch | core/check.go:100-126 | A success is always `true`. |
| Check.FilesMatchMeaning | core/check.go:100-126 | `(true, nil)` exactly when both are regular files and the hash, owner and mode checks pass; otherwise the error is that of the first failing check, in the order source file, destination file, hash, owner, permissions. |
| Check.CheckIfDirectoriesMatch | core/check.go:128-170 | A pass exactly when both paths stat as directories, both listings succeed with equal numbers of direct entries, and both directory sizes are computed and equal; whatever the files hold and however the subtrees differ in shape. |
| Check.DirectoriesMatchOrder | core/check.go:130-166 | A failure is the error of the first failing step: stat of the source, stat of the destination, the directory test, the two listings, the entry-count comparison, the two size computations, the size comparison. |
| Check.WalkSizesAgree | core/check.go:152-168 | Fault-free walks of two same-shaped subtrees both finish and add up to the same size. |
| Check.ShapeIsEnough | core/check.go:128-170 | Two fault-free directories of the same shape pass, whatever bytes their files hold: the check is shallow. |
| Files.Newlines | core/file.go:56 | The number of newline bytes never exceeds the length. |
| Files.NewlinesCountsOccurrences | core/file.go:51-59 | The count is the number of occurrences of `'\n'` in the bytes, independent of how they were chunked. |
| Files.CountLinesInFile | core/file.go:45-64 | The method returns the newline count of the bytes its reads delivered and the error that stopped them; without an error the count is the number of `'\n'` in the whole file. |
| Files.CountChunks | core/file.go:54-63 | The 32 KiB read loop fails exactly when a read fault lies inside the file; then it returns the newlines of the chunks delivered before the fault, otherwise those of the whole data. |
| Files.PartialCountBounded | core/file.go:54-62 | A count cut short by a read error never exceeds the file's full newline count. |
| Files.ReadFile | core/file.go:66-80 | The method returns what `ReadFileSpec` prescribes. |
| Files.ReadFileLimit | core/file.go:66-80 | A readable file is returned whole exactly when it has at most 10000 newlines; beyond that the error carries its line count. |
| Files.GetNumberOfFiles | core/file.go:157-163 | A count is returned exactly when the listing succeeds, and it is the number of direct children. |
| Files.NumberOfFilesIgnoresGrandchildren | core/file.go:157-163 | Adding an entry deeper than a direct child does not change the count. |
| Files.GetDirectorySize | core/file.go:165-180 | The walk loop adds the sizes of the non-directories it reaches, or returns the error that stopped the walk. |
| Files.WalkVisitsSubtree | core/file.go:167-175 | A fault-free walk finishes and visits every entry below the path exactly once, so the directory size is the total over the whole subtree. |
| Files.RemoveSpec | core/file.go:86-106 | The tree stays well formed. |
| Files.Remove | core/file.go:86-106 | The method updates the filesystem exactly as `RemoveSpec` prescribes. |
| Files.RemoveByKind | core/file.go:86-106 | A directory other than the root goes with its whole subtree, a regular file alone, and a link is refused with nothing deleted. |
| Files.CreateFileSpec | core/file.go:108-127 | On success the path holds an empty file with the requested mode and owner and nothing else changed. |
| Files.CreateFile | core/file.go:108-127 | The method updates the filesystem exactly as `CreateFileSpec` prescribes. |
| Files.WriteToFileSpec | core/file.go:82-84 | On success the path holds a file whose bytes are the content; an existing file keeps its mode and owner and nothing else changes. |
| Files.CreateFileWithMessageSpec | core/file.go:129-139 | On success the path holds a file with exactly the message, the requested mode and owner, and nothing else changed. |
| Files.CreateFileWithMessage | core/file.go:129-139 | The method updates the filesystem exactly as `CreateFileWithMessageSpec` prescribes. |
| Files.MessageReadsBack | core/file.go:66-80 | Reading back a successfully written message within the line limit gives the message. |
| Files.CreateDirectorySpec | core/file.go:141-155 | On success the path did not exist and now holds a directory with the requested mode and owner, nothing else changed. |
| Files.CreateDirectory | core/file.go:141-155 | The method updates the filesystem exactly as `CreateDirectorySpec` prescribes. |
| Files.RemoveUndoesCreateFile | core/file.go:86-127 | `Remove` after a successful `CreateFile` of a new path gives back the original tree. |
| Files.RemoveUndoesCreateDirectory | core/file.go:86-155 | `Remove` after a successful `CreateDirectory` gives back the original tree. |
| Configuration.TrimLeftMeaning | core/core.go:86-88 | Left trimming drops a run of white space from the front and stops at the first other character. |
| Configuration.TrimRightMeaning | core/core.go:86-88 | Right trimming drops a run of white space from the back and stops at the last other character. |
| Configuration.StringIsEmptyMeaning | core/core.go:86-88 | A string is empty exactly when every character is white space. |
| Configuration.FirstEmpty | core/core.go:98-148 | The reference for first-failure order: nothing exactly when no field is empty, otherwise an empty field all of whose predecessors are filled. |
| Configuration.FirstBlankIsFirstEmpty | core/core.go:101-105 | The string-key loop reports the first blank field of its key list. |
| Configuration.FirstZeroIsFirstEmpty | core/core.go:106-110 | The integer-key loop reports the first zero field of its key list. |
| Configuration.CheckHostInOrder | core/core.go:119-130 | A node's checks report its first empty field: the five strings, then the firewall rules, then the backup list. |
| Configuration.CheckConfigInOrder | core/core.go:98-148 | `CheckConfig` reports the first empty field in the order Common strings, Common integers, Common backup, Mars, Phobos. |
| Configuration.CheckConfigFirst | core/core.go:98-148 | `nil` exactly when no required field is empty; otherwise the reported field is empty and every field checked before it is filled. |
| Configuration.HostFieldsMeaning | core/core.go:116-144 | A node passes all its checks exactly when its five strings are non-blank and both its lists are non-empty. |
| Configuration.CommonFieldsMeaning | core/core.go:100-113 | The Common checks all pass exactly when the six strings are non-blank, both integers are non-zero and the backup list is non-empty. |
| Configuration.CheckConfigMeaning | core/core.go:98-148 | `CheckConfig` returns `nil` exactly when the configuration is complete, field by field. |
| Configuration.CheckConfigIgnoresLogToFile | core/core.go:50 | Changing `LogToFile` never changes the result of `CheckConfig`. |
| Archive.TarWriter.constructor | core/archive.go:94 | A new tar writer holds no members. |
| Archive.TarWriter.WriteHeader | core/archive.go:62 | Writing a header appends a new, empty member. |
| Archive.TarWriter.Write | core/archive.go:75 | Writing bytes appends them to the content of the last member and leaves the others as they were. |
| Archive.EntryNameRoundTrip | core/archive.go:42-60 | Joining the input's parent directory and a member's name gives back the walked path. |
| Archive.EntryNameInjective | core/archive.go:42-60 | Two walked paths never get the same member name. |
| Archive.Visit | core/archive.go:49-77 | The callback appends to the writer exactly the member `VisitSpec` prescribes and returns its outcome. |
| Archive.VisitAll | core/archive.go:48-78 | The callback runs over the walked paths in order, stopping at the first failure; the writer ends with exactly the members `VisitsSpec` prescribes. |
| Archive.AddToArchive | core/archive.go:29-79 | The writer gains exactly the members `AddSpec` prescribes, and the outcome is its outcome. |
| Archive.CreateArchive | core/archive.go:81-105 | The tree, the members written and the outcome are those of `CreateArchiveSpec`. |
| Archive.VisitMeaning | core/archive.go:49-77 | One callback writes exactly one member whose content never exceeds its header's size; it succeeds exactly for a directory, or a regular file that opens and reads to the end; on success the member has the path's header and content (a directory none). |
| Archive.VisitsPassIff | core/archive.go:48-78 | The callbacks succeed exactly when each one does. |
| Archive.VisitsDescribe | core/archive.go:48-78 | A successful run writes one member per walked path, in walk order, each archiving its path. |
| Archive.VisitsFit | core/archive.go:70-76 | No member carries more bytes than its header announces. |
| Archive.VisitsFailFirst | core/archive.go:48-78 | A failed run returns the error of the first failing callback; all before it succeeded. |
| Archive.AddPassIff | core/archive.go:29-79 | `addToArchive` succeeds exactly when the input opens and then either its stat fails or the walk ends cleanly with every callback succeeding; when the stat fails after the open, nothing is written and the result is success. |
| Archive.AddFits | core/archive.go:29-79 | No member `addToArchive` writes exceeds its header's size. |
| Archive.ArchivableVisitsPass | core/archive.go:49-77 | Without faults below the input, every callback succeeds. |
| Archive.AddArchivesSubtree | core/archive.go:29-79 | Without faults, `addToArchive` succeeds and writes one member per entry below the input, each exactly once, in walk order, each with its path's header and content. |
| Archive.AddNamesDistinct | core/archive.go:42-60 | Without faults, no two members of one input share a name. |
| Archive.AddAllPassIff | core/archive.go:98-103 | Adding the inputs succeeds exactly when every input is added without error. |
| Archive.AddAllFailFirst | core/archive.go:98-103 | A failure names the first input that could not be added and wraps its error; every earlier input was added. |
| Archive.CreateArchiveMeaning | core/archive.go:81-105 | `CreateArchive` changes nothing but the archive file, which it creates or truncates; it succeeds exactly when the archive can be created and every input is added. |
| Paths.SortedNames | core/copy.go:121 | A directory listing holds each name once, all of them, in strictly increasing order. |
| Paths.RebaseRoundTrip | core/copy.go:128-129 | Moving a path from the source to the destination and back gives the original path. |

## Left out

- SHA-256 is not modelled: the digest function is a parameter, so only "equal bytes give equal digests" is used; the converse is collision resistance.
- The gzip and tar byte encodings, `tar.FileInfoHeader`'s other header fields (times, user names, type flag) and the bytes of the archive file are not modelled: the archive file is left empty in the tree, and the members are returned as a sequence of records.
- The tar writer's "write too long" error is not modelled; `Archive.VisitsFit` shows a member never gets more bytes than its header announces.
- The deferred `Close` calls, and any error they would report, are not modelled.
- Header-write errors from `tarWriter.WriteHeader` cannot occur in the model; open, stat, listing and read errors can.
- The process umask applied by `os.Create`, `os.Mkdir` and `os.MkdirAll` is not modelled: permissions are stored as requested. Refused `chown`, `chmod` and similar calls are modelled through the environment's set of refused calls.
- Symbolic links are never followed: `os.Stat` and `os.Open` see the link itself, as `os.Lstat` would.
- `filepath.Clean`, `filepath.Join` and `filepath.Base` on strings are not modelled: paths are already component sequences.
- Error messages are structured values, not formatted strings; the message of `CheckHash` that names the source path for a destination failure is therefore not reproduced.
- `GetConfig` (TOML decoding), `init` (config loading, host name, git, `.env`), logging, Telegram and the `host` package are not part of this model.
- `IntegerIsEmpty`, `ListIsEmpty`: they are the predicates `i == 0` and `|l| == 0`; their meaning appears in `Configuration.CheckConfigMeaning` rather than in lemmas of their own.
- `CheckConfig` reads only: as a function it cannot modify the configuration, so no separate property is stated.
- `Configuration.TrimLeftMeaning`, `Configuration.TrimRightMeaning`: strings are sequences of code points; the byte-level decoding of invalid UTF-8 by `strings.TrimSpace` is not modelled.
- Integer widths: `int64` byte counts and sizes and the `int64` of `IntegerIsEmpty` are unbounded integers; overflow cannot occur in the model.
- `Copy.CopyDirFacts`, `Copy.CopyEntriesAborts`, `Copy.CopyThenDirectoriesMatch`: they assume the destination is not inside the source; copying a directory into itself is modelled (it terminates through the path-length limit) but nothing is proved about it.
- `Copy.CopyThenDirectoriesMatch`: it assumes a source without links, as the directory check counts links in the source that the copy skips.
- `os.RemoveAll` on the root path removes everything below it and then fails; a `RemoveAll` interrupted by a fault part-way is not modelled (it succeeds or fails as a whole).
- `Files.RemoveByKind`: the root directory is excluded, because removing it fails after emptying it.
