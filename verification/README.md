# gomodfs in Dafny

gomodfs serves Go modules from a git repository, or from another gomodfs, as a
read-only file system. This project models six of its parts and proves what each
is for.

- **Caches.** `Lru.dfy` is the linked ring of internal/lru, with its index and
  running size updated in place; `LruSpec.dfy` says what it means, a sequence of
  bindings, most recently used first. `ReadCache.dfy` stacks two such caches and a
  reference count, as the NFS read cache does; `ReadCacheSpec.dfy` says what can be
  served after any run.
- **Trees and indexes.** `TreeBuilder.dfy` compiles a flat file map to git objects
  (`GitObjects.dfy`); `TreeMeaning.dfy` reads them back. `LsTree.dfy` and
  `GitStore.dfy` list a tree and index the listing, `PackSender.dfy` sends objects to
  git, `PutModule.dfy` joins the steps, and `GitMetaFiles.dfy` reads and writes metadata files.
  `RemoteStore.dfy` and `DirMapBuilder.dfy` flatten a handle and index it again on the
  client; `ModIndex.dfy` says when a handle is right for a file set.
- **NFS handles.** `ModNames.dfy`, `GmPaths.dfy`, `GmSources.dfy` and
  `GmAncestors.dfy` are the parser and printers of mount paths; `AllowedNames.dfy` and
  `ParseCases.dfy` say which paths parse as what. `HandleSpec.dfy` says which handle a
  path has and what a handle gives back, and `HandleRestart.dfy` when that is the path
  it was made for. `DirIndex.dfy` and `NfsHandles.dfy` are the server
  that does it, one critical section a method, and `HandleRuns.dfy` its runs with many
  goroutines. `ReadFile.dfy` goes on from a path to the bytes in git, `ReadAlone.dfy`
  from a handle, and `ReadRuns.dfy` has many readers at once.
- **Directory paging.** `DirPaging.dfy`: READDIR and READDIRPLUS (sections 3.3.16 and
  3.3.17 of RFC 1813) and a client that reads a directory to its end.
- **The cat-file queue.** `BatchQueue.dfy`: a state machine over the critical sections
  and channel operations of callers and workers. `BatchDrain.dfy`: which requests get
  answered. `CatFileLines.dfy`: which answer each gets.
- **Wire and file formats.** `RecordMarking.dfy`: RPC record marking (section 11 of
  RFC 5531). `PackFile.dfy`: the git pack. `Refs.dfy`: ref names and URL paths.

`Strings.dfy`, `Sorting.dfy`, `Paths.dfy` and `Wrappers.dfy` hold the library functions
used throughout.

## How things are modelled

Digests are constructors applied to what was hashed, so that different inputs have
different digests; the zero-padded names that stand beside path digests in a handle
are never one. A critical section is one step; `NfsHandles.FS.Resolve`, `FromHandle`,
`ReadCache.FS.GetFileContents` and `ReadAlone.GetFileContents` are several in a row,
and `HandleRuns.Serve`, `ReadCache.FS.Replay` and `ReadRuns.Take` take them one by one
in any order. The fields of the FS struct
are divided between `ReadCache.FS` (the NFS read cache) and `NfsHandles.FS` (handles
and indexes). A Go string is a sequence of chars, one for a byte. Iteration over a Go
map picks keys in any order. Files are clean relative paths none of which is a
directory on the way to another (`ValidFiles`): `TreeBuilder.ValidIffNoClash` and
`DirMapBuilder.ClimbEndsIffRelative` say that this is what the code needs, the one to
avoid a panic, the other to avoid an endless loop.

## Where the code does not do what it is for

- A dot file of a toolchain that a client reached by its module path
  (`github.com/tailscale/go@tsgo-...`) is lost on restart
  (`HandleRestart.DotFileIsLost`), and a recovery that ends late takes it away again
  from a client that has just found it (`HandleRuns.Overwritten`).
  `HandleRestart.AnswerLeadsBack` and `HandleRuns.SameSession` have the exact
  conditions.
- The branches of `noteCatFileBatchDone` are the wrong way round: a worker that leaves
  an empty queue is replaced, one that leaves requests behind is not
  (`BatchQueue.LeavingWorker`, `BatchQueue.RequestLeftBehind`). Those requests wait for
  a later one, and not for any (`BatchDrain.StartWorksOffIff`).
- A module that the store has is not always read: `getZipRoot` refuses a version
  `tsgo-...` of Tailscale's Go with too few parts, and takes a Go toolchain without
  src/go.mod for missing unless the server is read-only (`ReadFile.FetchesPlace`,
  `ReadFile.ShortVersionExample`, `ReadFile.OldToolchainExample`).
- `GetModFile` never finds the mod file that `PutModule` stored
  (`GitMetaFiles.ReadersAfterPut`).
- A rev with a newline shifts all later answers of a worker
  (`CatFileLines.OwnAnswer`, `CatFileLines.TwoLineExample`).
- Different listings may have one cookie verifier, since names are joined without a
  separator (`DirPaging.VerifierTells`, `DirPaging.SameVerifierExample`).
- `packWriter.Close` never reports that it was called before, since it tests the digest
  and not the flag (`PackFile.CloseTwice`).
- A READDIRPLUS listing with a name of more than DirCount - 20 bytes is cut short or
  never ends: `DirPaging.ReadAllPlus` says which, `DirPaging.LongNameExample` is a case.
- Readdir of a path that is no directory lists nothing in the git store and fails in
  the remote store (`ModIndex.ReaddirAgrees`).

## Model

| member | source | states |
|---|---|---|
| Lru.Cache.Set | internal/lru/lru.go:71-87 | the ring's bindings become: the new pair, then the old ones without its key, cut to the longest prefix that fits MaxSize; the ring, index and running size stay consistent, also when one entry alone is too big |
| Lru.Cache.EvictOldest | internal/lru/lru.go:200-202 | removes the least recently used binding and nothing else; called on a ring that is not empty, so head is never nil |
| Lru.Cache.GetOk | internal/lru/lru.go:115-125 | returns the value bound to the key, and moves exactly that binding to the front |
| Lru.Cache.PeekOk | internal/lru/lru.go:130-136 | returns the value bound to the key and changes nothing |
| Lru.Cache.Delete | internal/lru/lru.go:141-145 | removes the key's binding and keeps the order of the others |
| Lru.Cache.DeleteOldest | internal/lru/lru.go:151-158 | removes and returns the last binding of the sequence, nothing on an empty cache |
| Lru.Cache.Clear | internal/lru/lru.go:90-94 | leaves an empty, consistent cache |
| Lru.Cache.NewAtFront | internal/lru/lru.go:170-182 | a fresh entry becomes the head of the ring: one doubly linked ring again, with the new binding first |
| Lru.Cache.MoveToFront | internal/lru/lru.go:187-198 | relinks one entry as head: the same entries, index and size, in the order with that entry first |
| Lru.Cache.DeleteElement | internal/lru/lru.go:206-218 | takes one entry out of ring, index and running size together |
| Lru.Cache.ForEach | internal/lru/lru.go:222-234 | visits every binding once, most recently used first, and ends |
| Lru.Cache.Len | internal/lru/lru.go:162 | the size of the index is the number of bindings in the ring |
| Lru.Cache.Size | internal/lru/lru.go:166 | the running size is the sum of the entries' sizes |
| LruSpec.FitIsLongestPrefix | internal/lru/lru.go:83-86 | eviction leaves a prefix that fits a non-negative limit, and every longer prefix is too big |
| LruSpec.FitIsTheOnlyLongestPrefix | internal/lru/lru.go:83-86 | no other prefix has that property |
| LruSpec.PutProperties | internal/lru/lru.go:66-87 | after Set no binding is invented or altered, the total is within the limit, and the new binding is present exactly if it fits alone |
| LruSpec.TouchProperties | internal/lru/lru.go:115-125 | a read reorders the cache and changes no lookup |
| LruSpec.RemoveProperties | internal/lru/lru.go:139-145 | a deletion takes away one key's binding and no other lookup |
| LruSpec.NegativeLimitNeverFits | internal/lru/lru.go:83-86 | with a negative MaxSize even the empty cache is over the limit: the loop would evict from an empty ring |
| ReadCache.FS.SetReadCache | nfs.go:593-637 | the files that can be served become: the new one, then the others without its handle, cut to the longest prefix whose contents, each counted once, fit; entCache, blobCache and blobCount stay balanced |
| ReadCache.FS.DecrBlobCount | nfs.go:580-591 | one use less of a blob; its contents leave blobCache with the last use |
| ReadCache.FS.Evict | nfs.go:630-636 | one eviction drops the least recently used entry and its use of a blob |
| ReadCache.FS.Get | nfs.go:543-554 | a handle in entCache also hits in blobCache: the lookup returns exactly the file stored for it |
| ReadCache.FS.GetFileContents | nfs.go:543-578 | a hit returns the stored file, a miss stores and returns what was fetched |
| ReadCache.FS.Replay | nfs.go:543-637 | every interleaving of lookups and fills on the two caches answers as the run on the sequence of files does |
| ReadCache.FS.InUse | nfs.go:580-584 | in every valid state the blob of an entry is counted: "bogus decrement" is unreachable |
| ReadCacheSpec.EvictsShortestTail | nfs.go:626-636 | eviction removes the shortest least recently used tail that brings the shared size within the limit |
| ReadCacheSpec.SizeStaysWithinLimit | nfs.go:626-636 | the limit holds after every run |
| ReadCacheSpec.HitsReturnTheLatestFill | nfs.go:543-578 | after every run a hit returns what the latest fill of that handle stored, whatever other handles share |
| ReadCacheSpec.FillIsServedIffItFits | nfs.go:593-637 | a file just stored can be served if and only if its contents alone fit the limit |
| ReadCacheSpec.TotalIsBlobBytes | nfs.go:606-610 | the size blobCache reports is the number of distinct bytes it holds |
| GitObjects.ParseEncode | store/gitstore/gitstore.go:375-406 | reading the entries of an encoded tree gives back the entries |
| GitObjects.EncodeParse | store/gitstore/gitstore.go:375-406 | a tree that reads as some entries is their only encoding |
| TreeBuilder.Builder.AddHash | store/gitstore/gitstore.go:359-371 | an object is filed once under its own name and appended to hashes only if new, after all it refers to |
| TreeBuilder.Builder.AddFile | store/gitstore/gitstore.go:335-357 | the file is bound to its contents, mode and blob, which is filed; a read error changes nothing |
| TreeBuilder.Builder.DirEnts | store/gitstore/gitstore.go:594-623 | for clean files in any order: it panics if and only if some name in the directory is both file and directory; else the entries are exactly its first path segments with the right kinds, and any two stand in git's order: at the first place where the names differ the lower byte comes first, and a directory's name goes on with a slash |
| TreeBuilder.ValidIffNoClash | store/gitstore/gitstore.go:609-612 | for clean paths, what callers must rule out is exactly such a name in some directory |
| TreeBuilder.SortKeysDiffer | store/gitstore/gitstore.go:602-608 | different names have different sort keys, whether files or directories |
| GitObjects.KeysInGitOrder | store/gitstore/gitstore.go:602-608 | comparing sort keys is git's comparison of names, byte by byte, with a directory's name going on with a slash |
| GitObjects.TreesInGitOrder | store/gitstore/gitstore.go:594-623 | the entries of any tree of files, also of each directory in it, stand in that order |
| Strings.LessIsByteOrder | store/gitstore/gitstore.go:618-622 | cmp.Compare puts a string first if and only if it is a proper prefix or has the lower byte where the two first differ |
| TreeBuilder.Builder.BuildTree | store/gitstore/gitstore.go:373-406 | terminates; succeeds if and only if no name holds a NUL; the object returned is a tree of exactly the files below the directory, with its entries in git's order, and all its objects are filed |
| TreeBuilder.Builder.BuildRoot | store/gitstore/gitstore.go:373-406 | the same for the whole file set |
| TreeMeaning.ResolveIsExact | store/gitstore/gitstore.go:373-406 | looking any clean path up in the object table finds the stored blob and executable bit of a file, the tree of a directory, and nothing elsewhere |
| TreeMeaning.RootNameIsCanonical | store/gitstore/gitstore.go:373-406 | two file sets have the same root hash if and only if they have the same paths, contents and executable bits |
| TreeMeaning.TreesOfSameFiles | store/gitstore/gitstore.go:594-623 | equal file sets compile to equal trees, whatever the order of insertion and iteration |
| TreeMeaning.TreeDeterminesFile | store/gitstore/gitstore.go:373-406 | one tree stands for one file set |
| LsTree.ListIsExact | store/gitstore/gitstore.go:873-890 | listing a tree recursively, with directories, gives one line for each file and directory, with the right mode, size and hash, and no other |
| GitStore.NewModHandle | store/gitstore/gitstore.go:873-959 | fails if and only if a line has no proper size; else the blobs are those of the lines and each directory has the entries of its lines in order |
| GitStore.DirsAreIndexed | store/gitstore/gitstore.go:893-953 | over a listing of a file set, those directory entries index it exactly: each directory, each child once, right kind, size and mode |
| GitStore.BlobsAreFiles | store/gitstore/gitstore.go:893-953 | over a listing of a file set, the blobs are exactly its files |
| GitStore.ModesAgree | store/gitstore/gitstore.go:838-852 | reading back the octal mode written for an entry keeps its kind and executable bit |
| PackSender.BatchCheck | store/gitstore/gitstore.go:416-448 | the names git lacks, as they occur in hashes, each once, after all they refer to |
| PackSender.SendToGit | store/gitstore/gitstore.go:415-494 | what git has once it has read the pack is what it had and all objects, unless more are missing than 32 bits count; each goes once, and whatever part git has taken in, it holds everything its objects refer to |
| PackSender.FiledIs | store/gitstore/gitstore.go:326-333 | the objects that git reads from the pack get the names they had |
| PackSender.PackObjects | store/gitstore/gitstore.go:461-482 | the loop packs the objects in order; neither of its errors can occur |
| PutModule.Put | store/gitstore/gitstore.go:971-1017 | which of the error cases occurs, exactly, also when sendToGit fails and is passed over; on success git holds a tree of the metadata and the zip's files, the version's ref points at it and no other ref changed, and the handle returned indexes those files; a module without files fails after its ref is set |
| PutModule.GetZipRoot | store/gitstore/gitstore.go:854-871 | finds the handle of the stored files by the version's ref, or which error it returns |
| PutModule.PutThenGet | store/gitstore/gitstore.go:854-1017 | a module version that was put is found again, with the same files |
| GitMetaFiles.ReadersAfterPut | store/gitstore/gitstore.go:749-796 | after PutModule: the info file is the one stored, else what the "(info)" ref had; the zip hash is the one stored; the mod file is what the "(mod)" ref had before, whatever was stored |
| GitMetaFiles.PutThenRead | store/gitstore/gitstore.go:749-1017 | PutModule and then the three readers; the mod file is in the version's tree, where none of them looks |
| GitMetaFiles.PutModFile | store/gitstore/gitstore.go:798-816 | which of its steps fails, exactly; else the blob is filed and the ref named like the version's with (mod) behind it points at it, and no other ref changes |
| GitMetaFiles.PutInfoFile | store/gitstore/gitstore.go:818-836 | the same with (info) |
| GitMetaFiles.ReadersAfterPutMod | store/gitstore/gitstore.go:749-816 | after a blob is put at the (mod) ref, GetModFile returns its bytes; the info file, and both files of every other version, are as before |
| GitMetaFiles.ReadersAfterPutInfo | store/gitstore/gitstore.go:749-836 | after a blob is put at the (info) ref, GetInfoFile returns the info file of the version's tree if it has one, else those bytes; the mod file, and both files of every other version, are as before |
| GitMetaFiles.NothingStored | store/gitstore/gitstore.go:749-796 | without any of a version's refs, both readers miss; for an invalid version they fail |
| GitMetaFiles.RefsDiffer | store/gitstore/gitstore.go:637-663 | the three refs of all module versions are different |
| PutModule.GetFileIsExact | store/gitstore/gitstore.go:685-706 | reading any clean path through the handle gives the stored contents, "is a directory", or "not found", as the file set says |
| PutModule.MetaFileIsExact | store/gitstore/gitstore.go:985-996 | a metadata file is in the stored tree if and only if it was given, with its contents and mode |
| PutModule.Mirror | store/remotestore/handler.go:63-133 | storing, walking, re-indexing on the client and walking again: the remote handle indexes the same files as the git handle, and both walks return the same flat map |
| RemoteStore.WalkFiles | store/remotestore/handler.go:199-218 | adds exactly the files below the directory to the map; fails only on a remote directory that does not exist |
| DirMapBuilder.BuildDirMap | store/remotestore/remotestore.go:363-411 | for any iteration order: a directory is listed if and only if it is a proper ancestor of a file, with each child once and the right kind, size and mode |
| DirMapBuilder.ClimbEndsIffRelative | store/remotestore/remotestore.go:388-408 | the walk up ends exactly on relative paths; on an absolute path it never does |
| ModIndex.StatIsExact | store/gitstore/gitstore.go:708-747 | Stat through a handle of a file set: a directory has its last path segment ("." for the root), kind directory and mode 0755 in git, no permission bits remotely; a file has its last segment, size and mode; all else does not exist |
| ModIndex.StatAgrees | store/remotestore/remotestore.go:194-215 | Stat of the remote and of the git handle agree on every path, kind included, up to directory permission bits |
| ModIndex.ReaddirAgrees | store/remotestore/remotestore.go:218-228 | Readdir agrees on every directory, up to order and directory permission bits; on other paths git lists nothing and the remote store fails |
| ModIndex.GetFileCheckIsExact | store/remotestore/remotestore.go:231-240 | the check before a fetch answers "is a directory", "not found" or goes on, as the file set says |
| ModNames.UnescapeEscape | path.go:217-235 | unescaping inverts escaping |
| ModNames.EscapeUnescape | path.go:217-235 | escaping inverts unescaping, where that succeeds |
| ModNames.EscapedNamesComeBack | path.go:217-235 | a valid module version survives escaping and unescaping with all checks |
| AllowedNames.ModulesAreAllowed | path.go:217-226 | a module path has an escaped form if and only if it is made of slash-separated elements of letters of both cases, digits and -._~ with no dot at their ends, of which the first has a dot, no upper-case letter, '_' or '~', and no dash in front |
| AllowedNames.VersionsAreAllowed | path.go:227-235 | a version has one if and only if it is of letters, digits and a list of marks without '!' and '/', and does not end in a dot |
| AllowedNames.MetaPathParses | path.go:96-126 | the path of a metadata file exists if and only if the two names in it are written for some allowed module and version, which has no dot in front, and then it parses as the file of these |
| AllowedNames.ZipPathParses | path.go:128-146 | so does every path in a module's zip, with a slash at its end or not, if the text before the '@' starts with neither tsgo- nor cache/download/ |
| AllowedNames.UpperCaseExample | path.go:96-126 | cache/download/github.com/!burnt!sushi/toml/@v/v1.4.0.info is the info file of github.com/BurntSushi/toml v1.4.0 |
| ModNames.UnescapedNamesGoBack | path.go:217-235 | whatever unescapes is a valid module version and escapes to the same text |
| GmPaths.ParseCdPath | gomodfs.go:777-781 | the path printed for a metadata file of a valid module version parses as that file, except that it is taken for missing if and only if the version starts with a dot |
| GmPaths.ParseZipPath | gomodfs.go:794-807 | every path below an ordinary module's zip root parses as that module version and inner path |
| GmPaths.ParseTsgoZip | path.go:153-192 | a path below a toolchain's zip root parses as that toolchain and inner path if and only if its version names a known system and a 40-digit hash and the file is no dot file |
| GmPaths.ParseTsgoExtracted | path.go:172-188 | the marker of a toolchain parses as such |
| GmPaths.ParseStatus | path.go:73-77 | .gomodfs-status parses as the status file |
| ParseCases.ToolchainParses | path.go:153-192 | tsgo-<os>-<arch>/<name> and all below it: missing unless the system is one of the six, the name 40 hexadecimal digits, with .extracted behind them or not, and the file no dot file; then it is the toolchain's zip path or its marker |
| ParseCases.TsgoDirParses | path.go:153-165 | tsgo-<anything> without a slash is plain |
| ParseCases.TsgoNoSystemParses | path.go:84-95 | below such a directory without a second dash everything is plain but dot files, which are missing |
| ParseCases.OrdinaryParses | path.go:128-136 | a path without '@', outside the two special directories, is plain, and missing if and only if its last segment starts with a dot |
| ParseCases.DownloadDirParses | path.go:96-106 | so is a path below cache/download/ without '@' |
| ParseCases.DownloadFileParses | path.go:96-120 | in an @v directory, a dot file is missing, another file without an extension plain, and one with an extension other than the three missing |
| GmPaths.TripleIsVersion | tsgo.go:62-81 | a version that isTSGoModule accepts is the one tsGoVersion prints for what it found |
| GmPaths.JoinSplit | gomodfs.go:783-792 | joining the segments of a path gives the path |
| GmSources.ParsedTsgo | path.go:153-192 | what parses as a toolchain's path has a known system and hash, and is no dot file |
| GmSources.ParsedDownload | path.go:96-126 | what parses as a metadata file is of a valid module version that does not start with a dot |
| GmSources.ParsedZip | path.go:128-146 | what parses as a zip path is of a valid module version whose module is not named tsgo-... |
| GmSources.ParsedShape | path.go:73-147 | every result of parsePath is one of: missing, plain, status file, zip path, metadata file, toolchain marker |
| GmAncestors.AncestorIsBelow | gomodfs.go:745-756 | the directories path.Dir climbs through are the proper ancestors |
| GmAncestors.ParseAboveCd | path.go:96-112 | a directory above a metadata file parses as a plain directory |
| GmAncestors.ParseAboveModule | path.go:128-136 | a directory above a zip root does so if and only if it does not have the form of a toolchain's path |
| HandleSpec.HashMVInjective | gomodfs.go:169-176 | the text hashed for a module version determines it |
| HandleSpec.HandlesAreNames | nfs.go:294-346 | two paths have the same handle if and only if they lead to the same place |
| HandleRestart.NameExact | nfs.go:386-472 | the path printed for a stored thing has that thing's handle if and only if its name is canonical: no version starting with a dot, no tsgo-... module, a known toolchain, no dot file below it |
| HandleRestart.RestartExact | nfs.go:386-472 | a fresh server over the same store recovers a path from its handle if and only if it is the path printed for a stored file or directory with a canonical name |
| HandleRestart.AnswerLeadsBack | nfs.go:294-472 | whatever path a handle was made for, the answer of a fresh server leads to the same place if and only if the path is not a toolchain's file named by its module path that has no path of its own |
| HandleRestart.DotFileIsLost | nfs.go:448-469 | for such a path, a dot file of a toolchain, the fresh server answers with a path that parsePath takes for missing |
| HandleRestart.DotFileStored | nfs.go:448-469 | a store of one toolchain with one dot file is such a case |
| HandleRestart.DotFileExample | path.go:84-95 | there is such a toolchain and file name |
| NfsHandles.FS.AddParentPaths | gomodfs.go:745-756 | terminates and registers exactly the directories above the path, but for the three known ones |
| NfsHandles.FS.AddModuleVersionPaths | gomodfs.go:728-743 | registers exactly the directories above a version's metadata files and zip root |
| NfsHandles.FS.InitHandleMaps | gomodfs.go:674-706 | on first use indexes exactly the cached module versions, their directories and the fixed ones; later does nothing |
| NfsHandles.FS.SetZipRootCache | gomodfs.go:453-474 | keeps a built index exact for one more module version |
| NfsHandles.WalkFor | gomodfs.go:607-638 | the walk through a module's files meets the wanted path hash if and only if it is of the directory or of something below it, and ends |
| NfsHandles.FS.FindModule | gomodfs.go:662-672 | finds the cached module version of a hash if and only if there is one, building the index first if need be |
| NfsHandles.FS.FindDir | gomodfs.go:711-724 | finds the registered directory of a path hash, or answers "stale" |
| NfsHandles.FS.RecoverInModule | nfs.go:434-472 | which path of the module version the second half of the handle stands for, if any |
| NfsHandles.FS.Remember | nfs.go:404-415 | files the path found over whatever entry is there; the path is of a thing with that handle and never empty, so the panic is unreachable |
| NfsHandles.FS.Resolve | nfs.go:386-472 | with no request in between: answers from the table, else what the index and the store alone determine, and files it |
| NfsHandles.FS.ToHandle | nfs.go:294-346 | returns the handle of the segments and remembers them, unless it has others for that handle |
| NfsHandles.FS.FromHandle | nfs.go:352-376 | with no request in between: the same answer as segments, and the answers for missing files and for handles of a wrong length |
| HandleRuns.Serve | nfs.go:294-472 | every step of every goroutine keeps the server and the recoveries in flight sound, and its reply is sound |
| HandleRuns.AnswerLeadsTo | nfs.go:294-472 | an answer to the handle of a path leads to the same place if and only if it is not one that a recovery filed for a toolchain's file named by its module path that has no path of its own |
| HandleRuns.SameSession | nfs.go:294-472 | whatever requests were under way and come in between, step by step in any order: a handle given for a path is answered, and the answer leads to the same place if and only if no recovery has filed that handle or the path is not one of those; all replies in between lead back but to those paths |
| HandleRuns.Overwritten | nfs.go:396-415 | such a run: a recovery overwrites the entry that ToHandle made in the meantime, and the same handle leads first to the dot file and then to a missing path |
| HandleRuns.AfterRestart | nfs.go:294-472 | a new server over the same store returns exactly the segments of a canonical stored path |
| ReadFile.SplitsInFour | gomodfs.go:493-503 | the version of a Tailscale toolchain splits in four parts if and only if isTSGoModule accepts it, and the parts are put together as it was |
| ReadFile.FromRootIsExact | nfs.go:696-723 | through the root of a stored module, a file is read with its contents and its mode in git, a directory is an error, and so is every path that the module lacks |
| ReadFile.FetchesPlace | nfs.go:645-723 | any path of a stored module is fetched so if and only if the root is cached or the module served: a Tailscale toolchain with a version of four parts, a Go toolchain with src/go.mod or on a read-only server, any other module |
| ReadFile.ShortVersionExample | gomodfs.go:493-503 | a valid version of the Tailscale module that is never served |
| ReadFile.OldToolchainExample | gomodfs.go:508-515 | a Go toolchain stored without src/go.mod is served on a read-only server only |
| ReadRuns.Advance | nfs.go:543-578 | every section of a reader keeps server, cache and reader right and brings the reader nearer its end; one that ends it for a file or directory of a module that is known and served gives what is there |
| ReadRuns.ReadRun | nfs.go:543-637 | whatever readers and other requests do, section by section in any order: what is read by the handle of a canonical name in a stored module is the file of that name, by the handle of a directory or of an absent path nothing is, and so for every file in the cache; what a module has that was known at the start and is served is never refused |
| ReadRuns.ReadAmong | nfs.go:543-637 | one reader to its end, whatever other readers and requests do between its sections: it ends after at most ten, and in a module that is known and served it gets exactly the file, or that the place is a directory |
| ReadAlone.GetFileContents | nfs.go:543-578 | for every handle, with no request in between: what is cached, else what the path it stands for gives, which is cached too, or that it is unknown. In a module that the server can know: a file is read and a directory refused if and only if the file or its root is cached or the module served; a path that the module lacks is not found, or its handle unknown if it was never given |
| ReadAlone.Fetch | nfs.go:645-723 | which of its cases each path takes, and which root it leaves cached |
| ReadAlone.ReadAfterRestart | nfs.go:543-578 | a client with the handle of a path in a stored module reads by it from a new server over the same store exactly that file, or is told that it is a directory, if and only if the module is served; the handle of a path that the module lacks is unknown |
| DirPaging.SortSorts | temp-dev-fork/willscott/go-nfs/nfs_onreaddir.go:177-179 | sorting a listing with distinct names gives the same entries in strictly increasing order of names |
| DirPaging.SortOfSame | temp-dev-fork/willscott/go-nfs/nfs_onreaddir.go:167-179 | the sorted listing does not depend on the order in which the store lists |
| DirPaging.ReversedTwice | temp-dev-fork/willscott/go-nfs/nfs_onreaddir.go:31-42 | reversing a verifier's bytes twice changes nothing, so the comparison is symmetric |
| DirPaging.AcceptsExactly | temp-dev-fork/willscott/go-nfs/nfs_onreaddir.go:31-42 | of 64-bit verifiers, the comparison accepts the listing's, the one whose eight bytes are its bytes in reverse order, and no other |
| DirPaging.ResumeTells | temp-dev-fork/willscott/go-nfs/nfs_onreaddir.go:65-67 | a client that resumes with the verifier of an earlier listing, in either byte order, is served if and only if the joined names are the same text, unless digests collide or mirror each other |
| DirPaging.VerifierTells | temp-dev-fork/willscott/go-nfs/nfs_onreaddir.go:191-204 | unless digests collide, two listings have one verifier if and only if their names joined are one text; if the names have the same lengths, if and only if they are the same |
| DirPaging.SameVerifierExample | temp-dev-fork/willscott/go-nfs/nfs_onreaddir.go:191-204 | two listings of other names with one verifier |
| DirPaging.ReadDir | temp-dev-fork/willscott/go-nfs/nfs_onreaddir.go:44-115 | which error is returned, exactly: a resumed listing is refused if and only if the client's verifier is not zero and is neither the listing's nor that with its eight bytes reversed; else a page with as many entries after the cookie as fit, their names and cookies, and eof if and only if none is left |
| DirPaging.ReadDirPlus | temp-dev-fork/willscott/go-nfs/nfs_onreaddirplus.go:35-122 | the same with both byte limits, and for each entry the handle of its path |
| DirPaging.FirstFits | temp-dev-fork/willscott/go-nfs/nfs_onreaddirplus.go:99-106 | with legal counts, a page has room for its first entry if and only if the name by itself fits DirCount |
| DirPaging.PageAdvances | temp-dev-fork/willscott/go-nfs/nfs_onreaddirplus.go:84-122 | with legal counts a page makes progress if and only if all were sent or the next name fits, and its last cookie stands for the last entry sent |
| DirPaging.NoProgress | temp-dev-fork/willscott/go-nfs/nfs_onreaddirplus.go:99-106 | a page without an entry: if and only if all were sent or the next one does not fit |
| DirPaging.DotDotCookieEndsTheListing | temp-dev-fork/willscott/go-nfs/nfs_onreaddirplus.go:92-122 | a client that goes on from the cookie of ".." is told that the listing has ended |
| DirPaging.ReadAll | temp-dev-fork/willscott/go-nfs/nfs_onreaddir.go:61-115 | a READDIR client that resumes from the last cookie gets every entry once, in order, and ends, even if the store lists in another order each time |
| DirPaging.PageStopsAtLong | temp-dev-fork/willscott/go-nfs/nfs_onreaddirplus.go:92-122 | no page reaches past a name that is too long, and one that starts before it moves on |
| DirPaging.ReadAllPlus | temp-dev-fork/willscott/go-nfs/nfs_onreaddirplus.go:54-122 | a READDIRPLUS client gets every entry before the first name with more than DirCount - 20 bytes, once, in order, with its handle: all of them if there is no such name; if it is the first, the listing ends without an entry, and if it is a later one, the client is stuck |
| DirPaging.LongNameExample | temp-dev-fork/willscott/go-nfs/nfs_onreaddirplus.go:99-106 | one name of 493 bytes with DirCount 512 is such a listing |
| RecordMarking.ReadFrame | temp-dev-fork/willscott/go-nfs/conn.go:276-313 | however a record within the limit is divided into fragments, and whatever follows, it is read whole and no byte more is consumed |
| RecordMarking.ReadIsFramed | temp-dev-fork/willscott/go-nfs/conn.go:276-313 | whatever is read was so framed, and is within the limit |
| RecordMarking.ReadRPCRecord | temp-dev-fork/willscott/go-nfs/conn.go:276-313 | the loop reads exactly the record at the head of the stream, or fails with its error |
| RecordMarking.ReadRecord | portmap/portmap.go:112-133 | so does the portmapper's loop, with its own limit |
| RecordMarking.ReadersAgree | portmap/portmap.go:112-133 | the two readers agree on every stream, good or bad, on which the running total stays within 64 KiB |
| RecordMarking.MessageComesBack | temp-dev-fork/willscott/go-nfs/conn.go:107-121 | a message written as one fragment is read back if and only if it is within the reader's limit |
| RecordMarking.Writer.SerializeWrites | temp-dev-fork/willscott/go-nfs/conn.go:93-126 | writes the messages one after the other, each behind its header |
| RecordMarking.Converse | temp-dev-fork/willscott/go-nfs/conn.go:93-126 | the reader at the other end gets the same messages, one by one, and then a clean end |
| PackFile.WriteObjHeader | store/gitstore/gitstore.go:514-551 | the loop writes the header of the type and size |
| PackFile.ReadHeaderBack | store/gitstore/gitstore.go:532-551 | reading a header gives back type and size, for every size, and consumes its bytes only |
| PackFile.HeaderIsMinimal | store/gitstore/gitstore.go:532-551 | no header that reads so is shorter |
| PackFile.PackReads | store/gitstore/gitstore.go:502-570 | the bytes written read as the pack of the objects if and only if the digest of all of them follows |
| PackFile.TooManyObjs | store/gitstore/gitstore.go:502-512 | with more objects than 32 bits count, they read as no pack |
| PackFile.PackWriter.Write | store/gitstore/gitstore.go:572-582 | before Close buffer and digest take the same bytes; after it neither takes any |
| PackFile.PackWriter.WritePackObject | store/gitstore/gitstore.go:514-560 | appends one object and keeps the digest covering exactly the buffer |
| PackFile.PackWriter.Close | store/gitstore/gitstore.go:562-570 | appends the digest of what the buffer held |
| PackFile.WritePack | store/gitstore/gitstore.go:459-486 | the pack of a list of objects reads back as them if and only if they are fewer than 2^32 |
| PackFile.CloseTwice | store/gitstore/gitstore.go:562-570 | a second Close, which the guard does not prevent, leaves no readable pack |
| BatchQueue.Storage.StartRequest | store/gitstore/gitstore.go:111-133 | queues the request and starts a worker if none runs, or answers a stop at once |
| BatchQueue.Storage.TryTakePendingRequest | store/gitstore/gitstore.go:280-297 | takes the oldest request, or none if the queue is empty |
| BatchQueue.Storage.NoteCatFileBatchDone | store/gitstore/gitstore.go:135-148 | starts another worker on an empty queue, and none on one with requests |
| BatchQueue.RunKeeps | store/gitstore/gitstore.go:111-297 | in every reachable state there is at most one worker, and a worker that waits while requests are pending has a wake-up coming |
| BatchQueue.ExactlyOne | store/gitstore/gitstore.go:111-251 | every request is exactly one of pending, held, or answered, and answered once |
| BatchQueue.FirstInFirstOut | store/gitstore/gitstore.go:280-297 | requests are answered in the order in which they came |
| BatchQueue.ChannelHasRoom | store/gitstore/gitstore.go:245-250 | no response was sent before: the send does not block and the "channel full" panic is unreachable |
| BatchQueue.LeavingWorker | store/gitstore/gitstore.go:139-147 | a worker that leaves is replaced if and only if nothing is pending |
| BatchQueue.RequestLeftBehind | store/gitstore/gitstore.go:139-147 | a run after which a request is pending and no worker exists |
| BatchDrain.NothingIsLost | store/gitstore/gitstore.go:111-297 | from every reachable state there is a run, with later requests if need be, that answers every accepted request |
| BatchDrain.StartWorksOffIff | store/gitstore/gitstore.go:111-297 | after a new request the workers can answer it and all before it without another one if and only if no worker is leaving and no stop request is pending |
| BatchDrain.BlockedForGood | store/gitstore/gitstore.go:135-148 | otherwise no order of their steps answers them all |
| CatFileLines.AskAll | store/gitstore/gitstore.go:180-251 | the k-th answer that a worker reads is to the k-th line it has written |
| CatFileLines.OwnAnswer | store/gitstore/gitstore.go:202-206 | that line is of the k-th request if and only if no earlier rev holds a newline |
| CatFileLines.OwnLine | store/gitstore/gitstore.go:202-206 | and then it is the rev, if that holds none either |
| CatFileLines.TwoLineExample | store/gitstore/gitstore.go:202-206 | after a rev of two lines the next request gets the answer to the second one |
| Refs.PathEscapeBack | store/gitstore/gitstore.go:646 | url.PathUnescape inverts url.PathEscape |
| Refs.OctetsEscaped | store/gitstore/gitstore.go:646 | url.PathEscape leaves letters, digits and -_.~$&+:=@ alone, and writes any other byte as % and two upper-case hexadecimal digits |
| Refs.RefsAre | store/gitstore/gitstore.go:637-663 | the three refs of a version: refs/gomod/, the escaped module, '@' and the escaped version, and nothing, (mod) or (info) behind |
| Refs.RefComesBack | store/gitstore/gitstore.go:637-663 | each of a version's three refs is read back as the version |
| Refs.LineIsValid | store/gitstore/gitstore.go:1036-1065 | whatever a line is read as is a valid module version |
| Refs.CachedModules | store/gitstore/gitstore.go:1024-1070 | lists each version that some line names exactly once |
| Refs.ListsStored | store/gitstore/gitstore.go:1024-1070 | over the refs of stored versions, in any order and number, these are exactly the stored versions |
| Refs.ParseMVIsExact | store/remotestore/protocol.go:40-101 | a URL path parses as a version and extension if and only if it is the one printed for them |
| Refs.RequestPathsParse | store/remotestore/protocol.go:25-101 | so the paths of the three kinds of requests parse as what they are for |
| Refs.NoSeparatorIn | store/remotestore/protocol.go:48-51 | without an '@' behind the prefix, the separator is missing |
| Refs.EmptyPart | store/remotestore/protocol.go:53-58 | with nothing on one side of the separator, a part is empty |
| Refs.BadExtension | store/remotestore/protocol.go:60-75 | a metadata path without a dot behind the separator has no extension, and one with another extension than the three an unknown one |
| Refs.BadName | store/remotestore/protocol.go:79-86 | else, a module or a version that does not unescape is the error, the module first |

## Left out

- Lru.Cache.Set: requires a limit that is not negative, because the source dereferences a nil head otherwise; see LruSpec.NegativeLimitNeverFits.
- Lru.Cache.Size: the sum is unbounded; overflow of the 64-bit size is not modelled.
- ReadCache.FS.GetFileContents: metrics and file attributes are opaque; its sections are consecutive, and ReadCache.FS.Replay has them in any order.
- GitStore.NewModHandle: takes the lines of git ls-tree as records; splitting and unquoting their text is not modelled.
- PutModule.GetFileIsExact: for clean paths and the root, and as one lookup; the git process resolves other spellings, and a path with a newline is two lines to it (CatFileLines.OwnAnswer).
- PackSender.SendToGit: git cat-file is a lookup in an object map, git index-pack reads the pack and adds its objects; the statistics are not modelled.
- PutModule.Put: whether git's processes run and git update-ref succeeds are parameters.
- PutModule.Mirror: HTTP and compression carry the map unchanged, and so does JSON if all names are valid UTF-8; encoding/json rewrites other ones, which is not modelled.
- DirMapBuilder.BuildDirMap: path.Dir and path.Base only on clean paths.
- DirMapBuilder.ClimbEndsIffRelative: on clean and on rooted paths; path.Dir cleans other ones first.
- ModNames.EscapedNamesComeBack: the checks of golang.org/x/mod that reject further names (reserved Windows names, short names with a tilde, gopkg.in suffixes, letters outside ASCII in versions) are left out; they make fewer names valid.
- ModNames.UnescapedNamesGoBack: the same checks.
- AllowedNames.ModulesAreAllowed: the same checks.
- AllowedNames.VersionsAreAllowed: the same checks.
- GmPaths.ParseZipPath: the memo tables of parseModVersion and funcSmallSet are their pure functions.
- NfsHandles.FS.Resolve: for a store whose cached versions are valid module versions (Refs.LineIsValid) and whose zip roots are right for their files; store I/O errors are not modelled.
- ReadFile.FetchesPlace: what the status file, toolchain markers and metadata files contain is opaque, and downloads fail.
- ReadAlone.GetFileContents: its sections are consecutive; ReadRuns.ReadAmong has them in any order, and for modules that are served.
- NfsHandles.FS.FromHandle: a handle is its two halves, the one for missing files, or one of the wrong length; its 64 bytes are not.
- DirPaging.ReadDir: file ids, attributes, the CachingHandler interface (gomodfs does not implement it) and the XDR text of the reply are not modelled.
- DirPaging.ReadAllPlus: for names whose byte estimates do not wrap 32 bits, and a handle limit of at least 4 (the server's is the largest integer).
- DirPaging.ReadDirPlus: the override of eof for Windows clients, which keeps them from finishing on purpose.
- RecordMarking.Writer.SerializeWrites: write errors and cancellation.
- PackFile.WritePack: zlib is any codec whose streams say where they end, and writes its stream at once.
- BatchQueue.RunKeeps: that pending requests are answered in every fair run is not claimed, and does not hold; BatchDrain says when they can be. The text exchanged with the git process and the real timeout are not modelled.
- The pathContents cache of gomodfs.go, a plain use of the LRU cache.
- The FUSE, WebDAV and WinFsp front ends, mounting, statistics, logging and the status file's contents.
- Downloads, proxies, zip and tar archives.
- Write operations of the NFS server, which the exported file system refuses, and the end-of-file flag of READ.
- GETPORT, the portmapper's answer to a record.
