# juju-utils core, modelled in Dafny

This project models the core of the juju `utils` Go library and proves properties of the model:

- **tar helper.** `TarFiles` archives a list of files and hashes the archive. `UntarFiles` extracts an archive. `FindFile` finds one entry.
- **OSEnv.** An ordered environment-variable set.
- **exec CommandInfo.** A command description: its string form and its validation.
- **filestorage.** File metadata, set-once documents and an in-memory document store.
- **fs.** The in-memory file handle, node modes, and the FileTracker handler.
- **pathhandler.** Routing of a file to one handler method by its mode; the path-handling call sequence; the tree handler's path extraction.
- **Signalling.** Optional-capability dispatch for Interrupt and Kill.
- **CloseAll.** Closes every closer and aggregates the errors into one bulk error.

## How the model is built

- Each core Go file is its own Dafny module. These modules are shared:
  - `wrappers.dfy` holds Option, Result and byte.
  - `strings.dfy` holds the small parts of `strings` and `strconv` that are needed.
  - `filemodes.dfy` holds the `os.FileMode` bits.
  - `os.dfy` holds the source and destination file systems.
  - `tar_format.dfy` holds archive/tar's Writer and Reader.
- Go code that updates state in place is Dafny classes with `modifies` clauses: OSEnv, FileMetadata, Doc, docStorage, FileData, NodeInfo and FileTracker. So are the tar Writer and Reader.
- Loops stay loops: Unset, Update, EmptyNames, Reduce, AsList, filtersAnd, Read, ListDocs, FindFile, UntarFiles, the Readdirnames batches of writeContents, and both loops of CloseAll. Each loop is proved against a specification function.
- Pure Go code is functions and lemmas: SplitEnvVar, CommandInfo, HandleFile, handlePath, ExtractPath and Signal.
- The tar encoding is not modelled byte by byte. A `Codec` supplies header bytes, padding, the end-of-archive block and decoding as uninterpreted functions.
  - The archive's bytes are `ArchiveBytes(codec, entries)`.
  - The round-trip lemma assumes `codec.decode` inverts that encoding.
- SHA-1 and base64 are function parameters.
- The source file tree is a `Node` datatype.
- The destination file system is the `Disk` class. A fault oracle says which operations the system refuses.
- `errors.Trace` and `errors.Annotate` are modelled as the identity on the cause.
- The time of `time.Now` and the generated UUID are parameters.
- Go `error` values are `Option`s of an error datatype, with one constructor per message the source builds.

The archiving side is specified by a pure pre-order walk, `Tar.Walk` with `Tar.WalkChildren`. `Tar.Archive` is that walk over the root list.

- The imperative `WriteContents`, `TarAndHashFiles` and `TarFiles` are proved to produce, into a target with unlimited capacity, exactly `ArchiveBytes(codec, Archive(...).entries)` and `Archive(...).err`.
- When the target has limited capacity, the methods guarantee only the error kind and the hash/target agreement. That agreement rests on a target that takes a write entirely or not at all (see Left out).
- The walk is related to the tree in `tar_walk.dfy`:
  - it succeeds exactly when every reached node can be opened;
  - it lists every reachable node;
  - it lists nothing else.
- `tar_extract.dfy` relates extraction to archiving. Extracting the archive of a healthy tree into a fresh destination restores every reachable node at `Join(out, EntryName(path, strip))`, with its content and the permission bits of its mode. The destination must already hold the directories on the way to each file or link that no earlier directory entry makes: os.Create and os.Symlink make none, and the model reports ENOENT as they do.

The model follows the Go code where the code and its documentation differ:

- `signal` ignores its `recognized` parameter (see Findings).
- `filtersAnd` with no filters is false, so `Reduce()` with no filters returns an empty environment.
- `HandleFile` routes a character device to `HandleRegular`, because `os.ModeType` includes `ModeCharDevice`.
- CommandInfo's `Context.ValidateRendered` (exec/context.go) always returns nil; `ExecCommand.ValidateContext` models exactly that.

## Model

| member | source | states |
|---|---|---|
| Strings.TrimPrefix | tar/tar.go:155 | strings.TrimPrefix removes the prefix once when it is a literal prefix, and otherwise returns the string unchanged |
| Strings.IndexOf | osenv.go:188 | the position of the first occurrence of a character; None exactly when the character is absent |
| Strings.Itoa | closers.go:35 | the decimal text of a number: at least one character, all digits |
| Strings.ItoaInjective | closers.go:35 | different numbers print differently |
| Os.Lookup | tar/tar.go:132-140 | a root path missing from the tree cannot be opened ("no such file or directory"); otherwise its node |
| Os.Join | tar/tar.go:218 | filepath.Join of clean pieces: one "/" between them, and an empty piece dropped |
| Os.SysMode | tar/tar.go:198 | the mode word the system is given for os.FileMode(hdr.Mode): below 0o10000, with the header mode's nine permission bits |
| Os.NamesOf | tar/tar.go:170 | the names of a directory's children, in listing order |
| Os.Readdirnames | tar/tar.go:169-178 | Readdirnames(100) gives a batch of 1..100 further names while any remain; then the listing error if there is one, and io.EOF otherwise |
| Os.MkdirAll | tar/tar.go:220 | MkdirAll makes the path and every missing ancestor as directories with SysMode of the header mode, and keeps existing entries; below a regular file it fails with ENOTDIR naming that file, and it fails on an existing non-directory |
| Os.FileAncestor | tar/tar.go:189-226 | the first proper ancestor of a path, from the root, that is a regular file of the destination; None exactly when there is none |
| Os.MakeSymlink | tar/tar.go:226 | a symlink to the target is created exactly when the path is non-empty and free, not below a regular file (ENOTDIR), every directory on its way exists (otherwise ENOENT) and the system allows it; nothing changes on failure |
| Os.Create | tar/tar.go:189 | os.Create makes a new empty file, or truncates an existing one and keeps its mode; it fails with ENOTDIR below a regular file, with ENOENT for an empty path or a missing directory on the way, and on a directory or link; nothing changes on failure |
| Os.WriteData | tar/tar.go:194 | the data is appended to the file just created; a failed write is taken as all-or-nothing, so on a fault nothing changes (see "## Left out") |
| Os.Chmod | tar/tar.go:198 | the file's mode becomes SysMode of the header mode, with its content unchanged; on a fault nothing changes |
| Os.Disk.constructor | tar/tar.go:207 | the destination starts with the given nodes and fault oracle |
| Os.Disk.MkdirAllAt | tar/tar.go:220 | the disk changes as MkdirAll says |
| Os.Disk.SymlinkAt | tar/tar.go:226 | the disk changes as MakeSymlink says |
| Os.Disk.CreateAt | tar/tar.go:189 | the disk changes as Create says; on success there is an empty file at the path |
| Os.Disk.WriteAt | tar/tar.go:194 | the disk changes as WriteData says |
| Os.Disk.ChmodAt | tar/tar.go:198 | the disk changes as Chmod says |
| TarFormat.ContentSize | tar/tar.go:151-163 | directory and symlink headers carry no content; a regular header carries its size |
| TarFormat.PadAfterCons | tar/tar.go:156 | the padding owed after a list of entries is the padding owed after its last entry |
| TarFormat.StreamBytesAppend | tar/tar.go:156-165 | the bytes for two runs of entries are the bytes of the first run, then the second run's bytes starting from the padding the first run leaves |
| TarFormat.Sink.constructor | tar/tar.go:118 | a byte sink starts with the given bytes and capacity |
| TarFormat.Sink.Write | tar/tar.go:118 | a write succeeds exactly when the bytes fit, and appends them; a failed write changes nothing (a writer that takes all of a write or none) |
| TarFormat.AppendContent | tar/tar.go:163 | adding content to the current entry keeps the number of entries |
| TarFormat.HeaderBytes | tar/tar.go:156 | WriteHeader first sends the padding owed for the previous entry, then the header; afterwards the new entry's padding is owed |
| TarFormat.ContentBytes | tar/tar.go:163 | content written to an entry is sent as it is, and changes no padding |
| TarFormat.TarWriter.constructor | tar/tar.go:118-119 | tar.NewWriter over io.MultiWriter(target, hash) starts with no error, no entry and nothing sent |
| TarFormat.TarWriter.Emit | tar/tar.go:118 | io.MultiWriter sends the bytes to the target, and to the hash only if the target accepted them; a full target fails with no space |
| TarFormat.TarWriter.Flush | tar/tar.go:156 | the content still owed is reported as missed; otherwise the owed padding is sent; an earlier error comes back unchanged |
| TarFormat.TarWriter.WriteHeader | tar/tar.go:156 | WriteHeader flushes the previous entry, then sends the header and starts a new entry; an earlier error comes back unchanged |
| TarFormat.TarWriter.Write | tar/tar.go:163 | Write sends content up to what the header announced and reports a write that is too long; an earlier error comes back unchanged |
| TarFormat.TarWriter.Close | tar/tar.go:112-120 | Close flushes and then sends the two end blocks; afterwards every write fails with WriteAfterClose; a second Close returns nil |
| TarFormat.TarReader.constructor | tar/tar.go:208 | tar.NewReader over a byte stream decodes it and is placed before its first entry |
| TarFormat.TarReader.Next | tar/tar.go:210 | Next yields the next header and makes its content readable, with the read error due after it when the stream breaks off inside that entry; at the end it yields io.EOF, or the stream's read error |
| TarFormat.ContentErr | tar/tar.go:194 | a read error follows the content of an entry exactly when the stream breaks off inside that entry, which is its last |
| TarFormat.TarReader.ReadAll | tar/tar.go:194 | reading the current entry yields exactly its remaining content, then the read error of an entry the stream breaks off in (io.ErrUnexpectedEOF); that error stays the answer |
| Tar.EntryName | tar/tar.go:155 | the stored name is the path with strip removed once, only when strip is a literal prefix; otherwise the whole path |
| Tar.HeaderMode | tar/tar.go:151 | FileInfoHeader's mode field: below 0o10000, with the FileMode's nine permission bits |
| Tar.SpecialBitsDropped | tar/tar.go:198-220 | a mode FileInfoHeader stored and UntarFiles hands back through os.FileMode keeps only its permission bits: setuid, setgid and sticky are lost |
| Tar.SelfEntry | tar/tar.go:141-158 | a node's own entry: regular files carry their content, symlinks the resolved target as link name, directories nothing; the content length matches the header |
| Tar.WriteContents | tar/tar.go:131-186 | writeContents appends to the archive exactly the entries and error of the pre-order walk of the node; an earlier writer error makes it fail |
| Tar.CopyContent | tar/tar.go:162-166 | io.Copy of a regular file writes its content into the entry just started; a read error after the content is reported as a copy failure |
| Tar.WriteChildren | tar/tar.go:169-184 | the Readdirnames loop archives every child in listing order, then reports the listing error; the first child failure stops it |
| Tar.WriteBatch | tar/tar.go:179-183 | one batch of names archives those children in order and stops at the first failure |
| Tar.WriteChild | tar/tar.go:180-182 | one child is archived at Join(path, name) |
| Tar.WalkChildrenStep | tar/tar.go:179-183 | after one child, the walk goes on with the next child unless that child failed |
| Tar.WalkExtends | tar/tar.go:131-186 | the walk only appends to the archive it starts from |
| Tar.WalkChildrenExtends | tar/tar.go:169-184 | the walk over the children only appends to the archive it starts from |
| Tar.ArchiveStep | tar/tar.go:121-125 | the root loop walks the next root, and stops with "write to tar file failed" on that root's error |
| Tar.Walk | tar/tar.go:131-183 | the reference for writeContents: a pre-order walk that adds a node's entry, then its children's in listing order, stopping at the first failure; the TarWalk lemmas state its properties |
| Tar.WalkChildren | tar/tar.go:160-183 | the reference for the Readdirnames loop: the children's walks in order, ending with the listing's own error |
| Tar.Archive | tar/tar.go:121-125 | the reference for the root loop of tarAndHashFiles: each root's walk in order, the first failure wrapped as a write failure |
| Tar.WriteRoots | tar/tar.go:121-126 | the root loop produces Archive's entries and error; errors are wrapped as write failures |
| Tar.TarAndHashFiles | tar/tar.go:111-127 | the target grows by ArchiveBytes of the archived entries; the hash receives exactly the bytes the target accepts, for a target that takes all of a write or none; the writer is always closed, and a close error is reported only when no root failed |
| Tar.TarFiles | tar/tar.go:102-109 | on success the result is base64(sha1(bytes written to target)); on failure it is "" and the error |
| Tar.FirstNamed | tar/tar.go:29-41 | the position of the first entry with exactly this name; None exactly when there is none |
| Tar.FindFile | tar/tar.go:27-44 | the first entry named filename, in stream order, with the reader at its content; a read error met first is returned as it is; at the end of the stream the result is errors.NotFoundf(filename) |
| Tar.Fill | tar/tar.go:188-203 | createAndFill: create, copy, chmod; the first failure stops it; a content read error comes after the bytes that are there are written, and stops it before the chmod; on success the file holds exactly the content and SysMode of the header mode |
| Tar.CreateAndFill | tar/tar.go:188-203 | the method changes the disk as Fill says, with the content and the read error of the reader's current entry |
| Tar.UntarFiles | tar/tar.go:207-237 | directories become MkdirAll, symlinks Symlink to the link name verbatim, all other entries createAndFill, in stream order; the first error stops it, including a content read error of a broken-off entry; a clean end returns nil |
| Tar.ApplyEntry | tar/tar.go:218-233 | one UntarFiles step, as the reference UntarFiles is proved against: MkdirAll for a directory entry, Symlink for a link, createAndFill otherwise, each failure wrapped as the source words it |
| Tar.Extract | tar/tar.go:207-236 | the reference for the UntarFiles loop: the entries applied in stream order, the first failure ending it, then the stream's own end error |
| Tar.ArchivedFileClose | tar/tar.go:83-93 | both errors give a "multiple errors" error; one error is returned as it is; none gives nil |
| TarWalk.WalkSucceedsIffHealthy | tar/tar.go:131-186 | writeContents fails exactly when some reached node cannot be opened, resolved, read or listed |
| TarWalk.WalkChildrenSucceedsIff | tar/tar.go:169-184 | the children loop succeeds exactly when every remaining child is healthy and the listing has no error |
| TarWalk.WalkLeaf | tar/tar.go:141-167 | a file or symlink makes exactly one entry; a symlink is never descended into |
| TarWalk.WalkDirOrder | tar/tar.go:151-184 | a directory's header comes first, then its children's entries |
| TarWalk.WalkChildrenOrder | tar/tar.go:179-183 | the children are archived in listing order, each child's whole subtree before the next child |
| TarWalk.WalkSound | tar/tar.go:131-186 | every entry is the own entry of a node reachable from the root, at its path |
| TarWalk.WalkChildrenSound | tar/tar.go:169-184 | every entry of the children loop is the own entry of a node reachable from one of those children |
| TarWalk.WalkCovers | tar/tar.go:131-186 | under a healthy root, every reachable node gets its own entry |
| TarWalk.ChildInWalk | tar/tar.go:179-183 | an entry of a later child is an entry of the children loop |
| TarWalk.WalkWellFormed | tar/tar.go:151-166 | every entry's content length matches its header |
| TarWalk.ArchiveExtends | tar/tar.go:121-125 | the root loop only appends to the archive it starts from |
| TarWalk.ArchiveOrder | tar/tar.go:121-125 | the first root's entries come first, then the rest; when the first root fails, only its entries are kept and its error is wrapped |
| TarWalk.ArchiveSucceedsIff | tar/tar.go:121-126 | tarAndHashFiles' loop succeeds exactly when every root is healthy |
| TarWalk.ArchiveFirstFailure | tar/tar.go:121-125 | the error returned is the wrapped error of the first failing root; all earlier roots are healthy |
| TarWalk.ArchiveCovers | tar/tar.go:121-125 | with healthy roots, every node reachable from any root has its entry in the archive |
| TarWalk.ArchiveSound | tar/tar.go:121-125 | every archived entry is the own entry of a node reachable from some root |
| TarExtract.ApplyEntryRestores | tar/tar.go:218-233 | extracting one entry at a fresh path not below a regular file, whose directories all exist when it is a file or link, puts back its directory, link or file; it keeps what was there, adds only directories on the way, and after a directory entry every directory on its way exists |
| TarExtract.ExtractRestores | tar/tar.go:207-237 | extracting a complete stream of fresh entries restores each entry, keeps the old nodes, and ends with the stream's own error; every other new path lies on the way to some target and is a directory; fresh means non-nested paths not below a regular file, and each file or link has its directories present or made by an earlier directory entry |
| TarExtract.FreshAfter | tar/tar.go:207-236 | once the first of some fresh entries is applied, it is restored, nothing old changes, every new path lies on the way to its target and is a directory unless it is the target, and the rest are fresh in the new destination |
| TarExtract.FrameStep | tar/tar.go:207-236 | one entry followed by the rest adds up: every entry restored, old nodes kept, and every new path on the way to some target, a directory unless it is one |
| TarExtract.NoFileAfter | tar/tar.go:189-226 | applying the first entry puts no regular file on the way to a later target |
| TarExtract.ReadyAllAfter | tar/tar.go:220 | every later file or link entry still has its directories once the first entry is applied |
| TarExtract.ReadyAfter | tar/tar.go:220 | a directory present, or made by an earlier directory entry, for one entry stays so once the first entry is applied |
| TarExtract.NotUnderFileAfter | tar/tar.go:218-233 | applying an entry creates no regular file on the way to a later target |
| TarExtract.ExtractBelowFile | tar/tar.go:189-226 | when `out` is a regular file, the first entry fails with ENOTDIR and nothing changes |
| TarExtract.ExtractIntoMissingDir | tar/tar.go:189-226 | a file or link entry whose directory is missing fails with ENOENT and nothing changes: only directory entries make directories |
| TarExtract.ExtractNoParents | tar/tar.go:207-233 | a file stored as "work/readme.txt" extracted into an empty "dst" fails at os.Create with "no such file or directory" |
| TarExtract.ExtractTruncatedFile | tar/tar.go:194-197 | a file entry broken off in its content, at a path whose directories exist, leaves the file created with the bytes that were there and os.Create's mode, and UntarFiles fails reading tar contents |
| TarExtract.ArchiveThenExtract | tar/tar.go:102-237 | archiving a healthy tree and extracting it into a fresh destination succeeds; every reachable node reappears at Join(out, its entry name) with its content and its permission bits (setuid, setgid and sticky are lost), or as a link to its resolved target |
| TarExtract.RestoredSelf | tar/tar.go:151-155 | a node's own entry is extracted at Join(out, name) as the node it describes, with the permission bits of its mode |
| OsEnv.PutEffect | osenv.go:65-73 | Set keeps names and vars in one-to-one correspondence; it sets the one value and leaves the other values alone; a new name is appended and an existing name keeps its place |
| OsEnv.SplitEnvVar | osenv.go:187-193 | the split is at the first '=': (whole, "") without one, otherwise a name without '=' that gives back the whole with "=" and the value |
| OsEnv.JoinEnvVar | osenv.go:196-198 | "name=value"; OsEnv.SplitJoin and OsEnv.JoinSplit state it inverts SplitEnvVar |
| OsEnv.SplitJoin | osenv.go:187-198 | SplitEnvVar(JoinEnvVar(n, v)) == (n, v) when n has no '=' |
| OsEnv.JoinSplit | osenv.go:187-198 | JoinEnvVar of the halves gives back a string that has an '=' |
| OsEnv.UpdateConsistent | osenv.go:104-112 | Update keeps names and vars in one-to-one correspondence |
| OsEnv.UpdateOrder | osenv.go:104-112 | Update appends only names that are new, each once, in order of first occurrence; existing names keep their places |
| OsEnv.UpdateLastWins | osenv.go:104-112 | after Update a name holds the value of its last occurrence |
| OsEnv.UpdateUntouched | osenv.go:104-112 | a name not mentioned keeps its value, or stays unset |
| OsEnv.RemoveFirstAt | osenv.go:91-96 | the splice at the first match removes exactly that occurrence |
| OsEnv.Keep | osenv.go:91-96 | the filtered names are exactly those not dropped, with no duplicates |
| OsEnv.KeepTwice | osenv.go:77-84 | removing names one request after another is removing all of them at once |
| OsEnv.RemoveFirstKeeps | osenv.go:91-96 | with no duplicate names, the splice keeps all other names in order |
| OsEnv.KeepNone | osenv.go:77-99 | dropping names that are absent changes nothing |
| OsEnv.RemoveEffect | osenv.go:86-99 | unset removes the name from both structures, keeps the other names in order and keeps the correspondence |
| OsEnv.UnsetVars | osenv.go:77-84 | after Unset, exactly the requested names are gone from the values |
| OsEnv.UnsetNames | osenv.go:77-84 | after Unset, the other names remain in their relative order, consistent with the values |
| OsEnv.UnsetValuesAt | osenv.go:77-84 | Unset returns one value per requested name, in request order: the old value, or "" when absent or already removed |
| OsEnv.EmptyOfExact | osenv.go:46-54 | EmptyNames lists exactly the names whose value is "" |
| OsEnv.FiltersAnd | osenv.go:127-136 | filtersAnd is true exactly when there is at least one filter and every filter accepts the name |
| OsEnv.PassingExact | osenv.go:116-136 | Reduce keeps exactly the names that pass every filter, without duplicates; with no filters it keeps none |
| OsEnv.RestrictAll | osenv.go:141-164 | restricting an environment to all its names gives it back |
| OsEnv.RestrictStep | osenv.go:116-125 | Set of the next kept name extends the restricted environment by that name |
| OsEnv.ReduceStep | osenv.go:116-125 | one more name in the Reduce loop adds it to the result exactly when it passes |
| OsEnv.Rebuild | osenv.go:141-164 | updating with the rest of AsList's strings completes the copy |
| OsEnv.CopyRestores | osenv.go:141-164 | NewOSEnv(AsList()...) reproduces the same ordered names and values when no name contains '=' |
| OsEnv.OSEnv.constructor | osenv.go:21-27 | NewOSEnv is the empty environment updated with the initial strings |
| OsEnv.OSEnv.Names | osenv.go:38-42 | Names lists each set name once |
| OsEnv.OSEnv.Get | osenv.go:58-61 | Get returns the value, or "" for an unset name |
| OsEnv.OSEnv.Set | osenv.go:65-73 | Set returns the previous value or "" and changes the state as PutEffect states |
| OsEnv.OSEnv.Unset1 | osenv.go:86-99 | unset returns the old value or "" and removes the name as RemoveEffect states |
| OsEnv.OSEnv.Unset | osenv.go:77-84 | Unset changes the state and returns the values as UnsetVars, UnsetNames and UnsetValuesAt state |
| OsEnv.OSEnv.Update | osenv.go:104-112 | Update applies the strings in order, as the Update lemmas state |
| OsEnv.OSEnv.EmptyNames | osenv.go:46-54 | the loop returns EmptyOf, the names with an empty value in names order |
| OsEnv.OSEnv.Reduce | osenv.go:116-125 | a fresh environment holding, in order and with their values, the names that pass every filter |
| OsEnv.OSEnv.AsList | osenv.go:156-164 | "name=value" for every name, in names order |
| OsEnv.OSEnv.AsMap | osenv.go:146-152 | a map with exactly the set names and their values |
| OsEnv.OSEnv.Copy | osenv.go:141-143 | a fresh environment equal to the original when no name contains '=' |
| ExecCommand.NewCommandInfo | exec/command.go:71-77 | Path is the path, Args is [path] followed by args, and no context is set |
| ExecCommand.String | exec/command.go:80-90 | with no Path, the Args joined by spaces; with a Path and no Args, the Path |
| ExecCommand.StringReplacesName | exec/command.go:88-89 | otherwise String is the Args joined by spaces, with Args[0] replaced by Path |
| ExecCommand.StringOfNew | exec/command.go:71-90 | the string of a new CommandInfo is the path, then the arguments |
| ExecCommand.ValidateRendered | exec/command.go:109-126 | a missing Path is checked first, then missing Args; the result is NotValid exactly when Base(Path) != Args[0]; otherwise it is the context result, nil |
| ExecCommand.ValidateContext | exec/context.go:40-43 | Context.ValidateRendered checks nothing: nil for every context |
| ExecCommand.ValidateIncompleteIgnoresRenderer | exec/command.go:110-115 | with Path or Args missing, the renderer is not consulted |
| ExecCommand.ValidateNew | exec/command.go:109-126 | a new CommandInfo is valid exactly when its path is non-empty and is its own base name |
| ExecCommand.NewCommand | exec/command.go:33-40 | Exec.Command is given NewCommandInfo(path, args...), and its command or error is returned |
| FileStorageMetadata.FileInfoError | filestorage/metadata.go:133-141 | missing size is checked first, then checksum, then format; nil exactly when all three are present |
| FileStorageMetadata.FileMetadata.constructor | filestorage/metadata.go:55-63 | the ID is empty, there is no file info, stored is false, and the timestamp is the given one or now |
| FileStorageMetadata.FileMetadata.ID | filestorage/metadata.go:65-67 | the ID set so far, "" before SetID |
| FileStorageMetadata.FileMetadata.Timestamp | filestorage/metadata.go:90-92 | the timestamp given at construction |
| FileStorageMetadata.FileMetadata.Stored | filestorage/metadata.go:94-96 | whether SetStored has been called |
| FileStorageMetadata.FileMetadata.Size | filestorage/metadata.go:69-74 | 0 before SetFile, then the recorded size |
| FileStorageMetadata.FileMetadata.Checksum | filestorage/metadata.go:76-81 | "" before SetFile, then the recorded checksum |
| FileStorageMetadata.FileMetadata.ChecksumFormat | filestorage/metadata.go:83-88 | "" before SetFile, then the recorded format |
| FileStorageMetadata.FileMetadata.CheckComplete | filestorage/metadata.go:98-106 | "missing ID" is reported first, then missing file info; nil exactly when both are set |
| FileStorageMetadata.FileMetadata.Doc | filestorage/metadata.go:108-110 | the document is the metadata itself |
| FileStorageMetadata.FileMetadata.SetID | filestorage/metadata.go:112-118 | the ID is set once: an unset ID takes the id and false is returned; a set ID returns true and is kept |
| FileStorageMetadata.FileMetadata.SetFile | filestorage/metadata.go:128-150 | "already complete" if file info exists, else the field checks; on error nothing changes; on success the getters return the given values |
| FileStorageMetadata.FileMetadata.SetStored | filestorage/metadata.go:152-154 | Stored() is true afterwards |
| Document.RawDoc.constructor | document/document.go:7-10 | a raw document with the given ID |
| Document.Doc.constructor | document/document.go:14-17 | a document over the given raw document |
| Document.Doc.ID | document/document.go:20-22 | the raw document's ID |
| Document.Doc.SetID | document/document.go:26-32 | the ID is set once: an empty ID takes the id and false is returned; a set ID returns true and is kept |
| Document.Doc.Copy | document/document.go:36-40 | a fresh document with its own fresh raw document carrying the given id; the original is untouched |
| DocStore.DocStorage.constructor | filestorage/basic/docstore.go:18-23 | an empty store |
| DocStore.DocStorage.LookUp | filestorage/basic/docstore.go:25-31 | the stored document, or NotFound for an unknown id |
| DocStore.DocStorage.GetDoc | filestorage/basic/docstore.go:34-40 | Doc gives NotFound for an unknown id; otherwise a fresh copy carrying the id, not the stored document |
| DocStore.DocStorage.ListDocs | filestorage/basic/docstore.go:43-52 | every non-nil stored document, once each, in some order; never an error |
| DocStore.DocStorage.AddDoc | filestorage/basic/docstore.go:55-69 | a document with an ID is rejected with AlreadyExists; a UUID failure is returned; otherwise a copy is stored under the new id, which is returned, and the caller's document keeps its empty ID |
| DocStore.DocStorage.RemoveDoc | filestorage/basic/docstore.go:72-78 | NotFound, with nothing changed, for an unknown id; otherwise exactly that id is deleted |
| DocStore.DocStorage.Close | filestorage/basic/docstore.go:81-83 | Close always succeeds |
| FsFile.File.constructor | fs/file.go:28-31 | a file with the given information and bytes |
| FsFile.OverwriteEffect | fs/file.go:145-156 | a write keeps the bytes before the position, puts the data at the position, keeps the bytes beyond it, and never shrinks the file |
| FsFile.FileData.constructor | fs/file.go:101-106 | a new handle is open at position 0, with current equal to the whole data |
| FsFile.FileData.Read | fs/file.go:115-135 | min(len(buf), remaining) bytes are copied from the position, which advances by that count; EOF exactly when fewer than len(buf) were copied; an empty buf gives (0, nil); after Close, "already closed" and nothing changes |
| FsFile.FileData.Write | fs/file.go:138-161 | the data is written at the position, which advances by len(data); (len(data), nil) is returned and the size becomes the data length; after Close, "already closed" and nothing changes |
| FsFile.FileData.Close | fs/file.go:164-171 | the first Close succeeds; later ones report "already closed"; nothing else changes |
| FsNode.KindMode | fs/node.go:87-91 | the table mode of a known kind; ModeUnknown for any other kind |
| FsNode.KindModeTypes | fs/node.go:26-35 | kind modes carry only type bits, and only "dir" is a directory |
| FsNode.WithPermissions | fs/node.go:116 | the permission bits come from perm and every other bit from the old mode |
| FsNode.WithPermissionsIdempotent | fs/node.go:116 | setting the same permissions twice is setting them once |
| FsNode.WithPermissionsIgnoresOtherBits | fs/node.go:116 | the non-permission bits of perm have no effect |
| FsNode.WithPermissionsOverrides | fs/node.go:115-117 | the last SetPermissions wins |
| FsNode.NodeInfo.constructor | fs/node.go:87-97 | newNode: the mode comes from the kind table, all times are now, and size, owner and group are zero |
| FsNode.NodeInfo.Touch | fs/node.go:108-112 | the modification and access times become now; now is returned |
| FsNode.NodeInfo.SetPermissions | fs/node.go:115-117 | the mode becomes WithPermissions(old mode, perm) |
| FsNode.NodeInfo.Info | fs/node.go:100-105 | a FileInfo with the name and a copy of the node's values |
| FsNode.FileInfo.IsDir | fs/node.go:146-148 | true exactly when the ModeDir bit is set |
| FsWalk.Record | fs/walk.go:67-95 | a HandleRegular call records path to finfo in Regular only; any other call records in Irregular only; re-handling a path overwrites its entry |
| FsWalk.Answer | fs/walk.go:67-95 | every FileTracker handler returns nil |
| FsWalk.HandleFileTracks | fs/walk.go:67-95 | through HandleFile, a file lands in Regular exactly when its mode routes to HandleRegular, and otherwise in Irregular |
| FsWalk.PathsExact | fs/walk.go:67-95 | the paths of the calls of one kind are exactly the paths those calls name |
| FsWalk.RecordAllKeys | fs/walk.go:67-95 | after a sequence of calls, Regular holds the paths of the HandleRegular calls and Irregular the paths of the others, plus what they held before |
| FsWalk.RecordAllLastWins | fs/walk.go:72-95 | the final call's path holds the final call's info, in the map of its kind |
| FsWalk.RecordAllUntouched | fs/walk.go:72-95 | calls that name other paths leave both maps at a path as they were |
| FsWalk.RecordAllLastNamed | fs/walk.go:72-95 | the last call that names a path decides what the map of that call's kind holds for it |
| FsWalk.FileTracker.constructor | fs/walk.go:59-65 | NewFileTracker starts with both maps empty |
| FsWalk.FileTracker.HandleRegular | fs/walk.go:67-70 | records in Regular as Record states and returns nil |
| FsWalk.FileTracker.HandleDir | fs/walk.go:72-75 | records in Irregular as Record states and returns nil |
| FsWalk.FileTracker.HandleSymlink | fs/walk.go:77-80 | records in Irregular as Record states and returns nil |
| FsWalk.FileTracker.HandleNamedPipe | fs/walk.go:82-85 | records in Irregular as Record states and returns nil |
| FsWalk.FileTracker.HandleSocket | fs/walk.go:87-90 | records in Irregular as Record states and returns nil |
| FsWalk.FileTracker.HandleDevice | fs/walk.go:92-95 | records in Irregular as Record states and returns nil |
| PathHandlerFile.Route | pathhandler/file.go:29-42 | the masked type Dir, Symlink, NamedPipe, Socket or Device routes to its own handler method, in both directions |
| PathHandlerFile.RouteRegular | pathhandler/file.go:40-41 | no type bit, or several (a character device), routes to HandleRegular; routing depends only on the type bits |
| PathHandlerFile.RouteIgnoresPermissions | pathhandler/file.go:29 | the permission bits have no effect on routing |
| PathHandlerFile.HandleFile | pathhandler/file.go:28-43 | exactly one routed call, with path and finfo unchanged; its error is returned unchanged |
| PathHandlerFile.NopFileHandler | pathhandler/file.go:19-26 | every NopFileHandler method returns nil |
| PathHandlerFile.HandleFileNop | pathhandler/file.go:21-43 | HandleFile with NopFileHandler returns nil |
| PathHandlerPath.HandlePathWith | pathhandler/path.go:22-36 | NotifyPath is called first, then ProcessError, even for a nil error; a ProcessError error is returned without calling ProcessPath; otherwise ProcessPath's result is returned |
| PathHandlerPath.HandlePath | pathhandler/path.go:50-56 | ExtractPath is applied once, and that relative path goes to all three calls |
| PathHandlerPath.NopPathHandler | pathhandler/path.go:16-20 | every NopPathHandler method returns nil |
| PathHandlerPath.NopRawPathHandler | pathhandler/path.go:43-48 | NopRawPathHandler.ExtractPath is the identity |
| PathHandlerPath.HandlePathNop | pathhandler/path.go:16-56 | the nop handlers see the path unchanged and return nil |
| PathHandlerTree.NewTreeHandler | pathhandler/tree.go:20-31 | the default NormalizePath is Clean(ToSlash(p)), with "/" as the separator |
| PathHandlerTree.ExtractPath | pathhandler/tree.go:33-38 | the root is trimmed once at the start, by characters, and then the separator once |
| PathHandlerTree.ExtractUnderRoot | pathhandler/tree.go:35-37 | root, separator and a relative path give the relative path |
| PathHandlerTree.ExtractOutsideRoot | pathhandler/tree.go:36-37 | a path outside the root is kept, less one leading separator |
| PathHandlerTree.ExtractAtRoot | pathhandler/tree.go:36-37 | a path that normalises to the root gives "" |
| PathHandlerTree.ExtractMatchesCharacters | pathhandler/tree.go:36 | the root matches by characters, not path segments: under "/a", "/ab" gives "b" |
| PathHandlerTree.AsRaw | pathhandler/tree.go:12-18 | a TreeHandler is a RawPathHandler with its own ExtractPath |
| PathHandlerTree.HandleThroughTree | pathhandler/tree.go:33-38 | handling a path through a TreeHandler handles its extracted path |
| Signal.Invoke | signal.go:24-50 | a missing method gives (false, nil) and no call; a present method is called once, giving (true, its error) |
| Signal.NotSupportedSignal | signal.go:81 | errors.NotSupportedf("signal %v", sig): "signal <name> not supported" |
| Signal.Interrupt | signal.go:24-33 | interrupt calls Interrupt() exactly when the value has it |
| Signal.Kill | signal.go:41-50 | kill calls Kill() exactly when the value has it |
| Signal.KillIfSupported | signal.go:53-58 | nil and no call without a Kill method; otherwise one Kill call and its error |
| Signal.SignalAsWritten | signal.go:78-89 | as written, the lookup uses the package table: unknown signals give (false, NotSupported) and no call |
| Signal.SignalAsWrittenIgnoresTable | signal.go:78-79 | with an empty table, the code as written still dispatches os.Interrupt; the corrected version reports NotSupported |
| Signal.SignalWith | signal.go:78-89 | signal through the given table: unknown signals give (false, NotSupported) and no call; known ones go to their function |
| Signal.SignalWithPackageTable | signal.go:70-89 | through the package table, the corrected and the as-written versions agree |
| Signal.Signal | signal.go:70-76 | os.Interrupt uses interrupt and os.Kill uses kill; any other signal gives (false, NotSupported "signal <name> not supported") and no call |
| Signal.SignalCallsAtMostOne | signal.go:60-89 | at most one method is called, and supported is true exactly when one was |
| Signal.SignalIgnoresOtherMethod | signal.go:60-63 | only the method the signal names is consulted |
| Closers.NewCloser | closers.go:18-27 | NewCloser keeps closeFunc without calling it; Close returns closeFunc's result |
| Closers.Close | closers.go:25-27 | wrappingCloser.Close answers what its function answers, as NewCloser's contract states |
| Closers.Ids | closers.go:34-36 | the ids are "closer k/n" for k = 1..n, in order |
| Closers.IdInjective | closers.go:35 | the ids of different closers differ |
| Closers.CloseAll | closers.go:32-54 | every closer is closed once, in order, even after a failure; the result is nil exactly when every Close is nil; otherwise it is the bulk error over the ids and the failures; handleErr, when set, receives exactly the failures in order |
| Closers.FailingExact | closers.go:39-48 | the failing closers, in increasing order, are exactly those whose Close errs |
| Closers.HandledAreFailures | closers.go:40-47 | handleErr gets one call per failing closer, in order, with its id and raw error |
| Closers.ErrsAt | closers.go:37-48 | the bulk error holds each failing closer's error under its id, and no entry for succeeding closers |
| Closers.ErrsKeys | closers.go:37-48 | every key of the bulk error is the id of a failing closer |

## Left out

- ReadOSEnv, PushOSEnv and PushOSEnvFresh (osenv.go:31-35, 167-184): they read or change the process environment.
- ExtractArchivedFile (tar/tar.go:59-80): gzip decompression is not modelled. Its error combination on close is modelled as Tar.ArchivedFileClose.
- The rest of the repository is not part of this model: tar/archive.go, the exec package beyond command.go (process running and waiting), wait.go, the fs file-system and directory types beyond file.go, node.go and walk.go, pathhandler/fs.go, and hash/. Command's Context.ValidateRendered (exec/context.go) is taken as the constant nil (ExecCommand.ValidateContext).
- CommandInfo.Validate (exec/command.go:96-105) builds a renderer through filepath.NewRenderer, which is not part of this model. ValidateRendered takes the renderer's Base as a parameter. Cmd.Info and the Stdio embedding are not modelled.
- The tar container encoding (headers, block padding, end blocks), SHA-1 and base64 are uninterpreted functions. So are filepath.Clean, filepath.ToSlash and, in the tree handler, the normaliser. filepath.EvalSymlinks is given by the tree as each link's resolved target.
- Os.Join: filepath.Join is modelled only for clean path pieces, with no "." or ".." elements and no doubled separators.
- Os.Create: a symlink at the path is an error rather than followed. Extraction into a destination that already holds links is not modelled. Os.MkdirAll, Os.Create and Os.MakeSymlink do not resolve a symlink on the way to the path: the link itself counts as an existing directory, and a path below it is looked up in the map as it is written.
- Os.MkdirAll, Os.Create: the process umask is not modelled; it is taken as zero. So a new directory keeps every permission bit SysMode gives it, and a new file starts with mode 0o666. How the kernel treats the setuid and setgid bits passed to mkdir is not modelled either.
- Os.WriteData, Tar.Fill, Tar.CreateAndFill, Tar.UntarFiles: a failed write is all-or-nothing in the model. io.Copy writes in chunks, and write(2) may take part of a buffer before it fails, so in Go a failed copy can leave a prefix of the content in the new file. The model leaves the file as os.Create made it: empty, with mode 0o666. So on a write fault these members state an empty file where Go promises only some prefix of the content.
- TarExtract.ArchiveThenExtract: the restored permission bits are those of a process whose umask is zero. A nonzero umask would clear bits of the restored directories, which get no chmod after os.MkdirAll. Files are chmodded after creation, so they are not affected.
- Special files (devices, pipes, sockets) in the archived tree are not modelled: the Node datatype has regular files, directories and symlinks.
- Tar.WriteContents, Tar.TarAndHashFiles, Tar.TarFiles: when the target has limited capacity and a write fails, the contract states only the error kind and the hash/target agreement, not the exact bytes sent before the failure.
- TarFormat.Sink.Write: a target that takes only part of a write and then fails (a short write) is not modelled; a sink takes all of a write or none of it. io.MultiWriter returns before the hash sees a short write, so with such a target the hash input would only be a prefix of the bytes added to the target. The hash/target agreement of Tar.TarAndHashFiles holds only for all-or-nothing targets.
- Tar.CopyContent: a file whose content is shorter than its Lstat size (it changed during archiving) is not modelled. The content read is the content in the tree.
- TarFormat.TarWriter: the padding owed is not part of the invariant after an error, and the writer's own errors (write too long, missed writing) are modelled only as far as writeContents can meet them.
- Integer widths: int64 sizes, uint64 positions and 32-bit file modes are unbounded; no overflow is modelled. FileModes uses 32-bit vectors for the mode bits.
- Message formatting: %q quoting and %v of nested errors are not modelled. Errors are constructors that carry their parts.
- Tar.FindFile: errors.NotFoundf uses the file name as its format string, so format verbs in the name are expanded in the message. The model's NotFound error carries the name as it was given and does not render the message.
- FsFile.File.Open (fs/file.go:71-72) has an empty body, which does not compile. It is left out; FileData is built by its constructor, which models newFileData. File.Sys and FileInfo.Sys return nil and are left out.
- FsFile.FileData: only one handle per file is modelled, as the source's comments assume. Another handle resizing the same File is not modelled.
- FsNode.NodeInfo.Touch: the source (fs/node.go:108-112) sets both times but lacks the return statement its signature needs, so it does not compile. The model returns the time it set, as newNode expects. The current time is a parameter.
- fs/file.go and fs/node.go both declare a type named FileInfo in package fs, which does not compile. The model keeps the two as FsFile.FileInfo and FsNode.FileInfo. The plain getters of File and FileInfo (Name, Size, Mode, ModTime) carry no contract of their own.
- DirWalker, NewTreeReader and TreeReader (fs/walk.go:14-51): NewTreeReader assigns a field DirWalker does not have, which does not compile. filepath.Walk is not modelled. FileTracker is modelled with its handlers.
- DocStore.DocStorage.GetDoc requires that the document stored under the id asked for is not nil, which AddDoc ensures. The unguarded nil dereference in Doc for such an entry is not modelled.
- NewUUID and time.Now are inputs. errors.Trace and errors.Annotate wrapping is the identity on the cause.

## Findings

| source | as written | input that shows it | evidently intended | confidence | as-written member | corrected member |
|---|---|---|---|---|---|---|
| signal.go:78-79 | `signal` looks the signal up in the package-level `recognizedSignals`, ignoring its `recognized` parameter | `signal(v, os.Interrupt, map[])` where v has Interrupt(): dispatches and returns (true, nil) | the lookup uses the `recognized` table that is passed in, giving (false, NotSupported) for an empty table | not executed; high that the parameter is unused, and no visible effect through `Signal`, which passes the package table | Signal.SignalAsWritten (Signal.SignalAsWrittenIgnoresTable) | Signal.SignalWith (Signal.SignalWithPackageTable, Signal.Signal) |
