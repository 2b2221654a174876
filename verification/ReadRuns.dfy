// Reading files on a server with many readers (nfs.go 543-724): each critical
// section of getFileContents, and each reading of the store, is one step, and
// the steps of readers and of other requests come in any order.

module ReadRuns {
  import opened Wrappers
  import opened Paths
  import opened ModNames
  import opened GmPaths
  import opened GmSources
  import opened GitObjects
  import opened HandleSpec
  import opened HandleRestart
  import opened DirIndex
  import opened NfsHandles
  import opened HandleRuns
  import opened ReadFile
  import LruSpec
  import CS = ReadCacheSpec
  import RC = ReadCache
  import MI = ModIndex
  import GS = GitStore
  import PM = PutModule
  import PS = PackSender

  type View = CS.View<NfsHandle, FileMode>

  type Cache = RC.FS<NfsHandle, FileMode>

  // ----- what a handle's answers parse as

  // Any answer to the handle of a canonical name parses as the name.
  lemma AnswerParses(h: NfsHandle, t: Target, recovered: bool, nm: Name)
    requires EntryOK(h, t, recovered) && nm.InZip? && GoodName(nm) && Canonical(nm) && HandleOfName(nm) == h
    ensures ParsePath(t.path) == Zip(nm.mv, nm.path)
  {
    hide GoodName, Canonical, Print, PathHandle, ParsePath, Printed, HandleOfName;
    NameExact(nm);
    if recovered { PrintedIsCanonical(h, t.path, nm); }
    HandlesAreNames(t.path, Print(nm));
    SameZip(nm, t.path);
  }

  // A recovery of such a handle finds a path that has it.
  lemma PrintedIsCanonical(h: NfsHandle, p: string, nm: Name)
    requires Printed(h, p) && GoodName(nm) && Canonical(nm) && HandleOfName(nm) == h
    ensures PathHandle(p) == h
  {
    hide GoodName, Canonical, Print, PathHandle, AtTsgo, HandleOfName;
    var x :| GoodName(x) && HandleOfName(x) == h && Print(x) == p;
    NameExact(nm);
    ReachedNames(nm, Print(nm));
    ReachedNames(x, Print(nm));
    NameExact(x);
  }

  lemma SameZip(nm: Name, p: string)
    requires nm.InZip? && GoodName(nm) && Canonical(nm) && SamePlace(p, Print(nm))
    ensures ParsePath(p) == Zip(nm.mv, nm.path)
  {
    hide ParsePath, Print, Canonical, ValidMV, InnerPath;
    ZipParses(nm.mv, nm.path);
  }

  // If h is the handle of a place of the modules, that place is the file s. So
  // it is not the handle of a directory or of a path that its module lacks.
  ghost predicate IsFileOf(mods: Mods, h: NfsHandle, s: File) {
    forall nm :: NamesPlace(mods, nm) && HandleOfName(nm) == h ==> PlaceOf(mods, nm) == Ok(s)
  }

  // An answer to reading by h: what the place holds, if h is a place's handle,
  // or no answer.
  ghost predicate ReadsOf(mods: Mods, h: NfsHandle, r: Result<File, ReadError>) {
    forall nm :: NamesPlace(mods, nm) && HandleOfName(nm) == h ==>
      r == PlaceOf(mods, nm) || r == Err(UnknownHandle) || r == Err(Failed)
  }

  // Every file in the read cache is the one its handle is of.
  ghost predicate CacheTrue(view: CS.View<NfsHandle, FileMode>, mods: Mods) {
    forall i :: 0 <= i < |view| ==> IsFileOf(mods, view[i].0, view[i].1)
  }

  lemma TouchTrue(view: CS.View<NfsHandle, FileMode>, mods: Mods, h: NfsHandle)
    requires CacheTrue(view, mods)
    ensures CacheTrue(LruSpec.Touch(view, h), mods)
  {
    hide IsFileOf;
    CS.KeysTouch(view, h);
    hide LruSpec.Touch;
    var touched := LruSpec.Touch(view, h);
    forall i | 0 <= i < |touched| ensures IsFileOf(mods, touched[i].0, touched[i].1) {
      var j :| 0 <= j < |view| && view[j] == touched[i];
    }
  }

  lemma PutTrue(view: CS.View<NfsHandle, FileMode>, mods: Mods, h: NfsHandle, s: File, max: int)
    requires CacheTrue(view, mods) && IsFileOf(mods, h, s)
    ensures CacheTrue(CS.PutShared(view, h, s, max), mods)
  {
    hide IsFileOf, LruSpec.IndexOf;
    var rest := LruSpec.Remove(view, h);
    var all := [(h, s)] + rest;
    CS.EvictsShortestTail(all, max);
    hide CS.FitShared, CS.SharedSize;
    forall i | 0 <= i < |rest| ensures IsFileOf(mods, rest[i].0, rest[i].1) {
    }
    hide LruSpec.Remove;
    var kept := CS.FitShared(all, max);
    assert forall i :: 0 <= i < |kept| ==> kept[i] == all[i];
  }

  lemma HitTrue(view: CS.View<NfsHandle, FileMode>, mods: Mods, h: NfsHandle)
    requires CacheTrue(view, mods)
    ensures var hit := LruSpec.Lookup(view, h); hit.Some? ==> IsFileOf(mods, h, hit.value)
  {
    hide IsFileOf;
  }

  // ----- the server's roots

  // The modules are in the store, and what the server has cached is right.
  ghost predicate GoodRoots(server: FS, repo: PS.Repo, mods: Mods)
    reads server`store, server`zipRootCache
  {
    GoodModules(repo, server.store.roots, mods) && GoodCached(repo, server.zipRootCache, mods)
  }

  // p parses as the place that h is the handle of, if it is one's.
  ghost predicate PathTrue(mods: Mods, h: NfsHandle, p: string) {
    forall nm :: NamesPlace(mods, nm) && HandleOfName(nm) == h ==> ParsePath(p) == Zip(nm.mv, nm.path)
  }

  lemma AnswerTrue(mods: Mods, h: NfsHandle, t: Target, recovered: bool)
    requires AnswerOK(h, t, recovered)
    ensures PathTrue(mods, h, t.path)
  {
    hide EntryOK, HandleOfName, Canonical, ParsePath, GoodName;
    forall nm | NamesPlace(mods, nm) && HandleOfName(nm) == h ensures ParsePath(t.path) == Zip(nm.mv, nm.path) {
      NameHandleIsOrdinary(nm);
      AnswerParses(h, t, recovered, nm);
    }
  }

  // p in module mv is the place that h is the handle of, if it is one's.
  ghost predicate PlaceTrue(mods: Mods, h: NfsHandle, mv: ModuleVersion, p: string) {
    forall nm :: NamesPlace(mods, nm) && HandleOfName(nm) == h ==> nm.mv == mv && nm.path == p
  }

  lemma PlaceOfPath(mods: Mods, h: NfsHandle, n: string)
    requires PathTrue(mods, h, n)
    ensures var mp := ParsePath(n);
            && (mp.inZip && !mp.notExist ==> PlaceTrue(mods, h, mp.mv, mp.path))
            && (!mp.inZip || mp.notExist || mp.wellKnown != "" || mp.ext != "" ==>
                  forall nm :: NamesPlace(mods, nm) ==> HandleOfName(nm) != h)
  {
    hide ParsePath, NamesPlace, HandleOfName;
  }

  // The module version of a zip path is valid.
  lemma ZipIsValid(n: string)
    requires ParsePath(n).inZip && !ParsePath(n).notExist
    ensures ValidMV(ParsePath(n).mv)
  {
    hide ParsePath, ValidMV, TsgoTriple, GoodTriple, IsZip, IsMeta, IsExtracted;
    var pp := ParsePath(n);
    ParsedShape(n);
    StatusIsPlain();
    if "tsgo-" <= n {
      ParsedTsgo(n);
      TripleIsVersion(pp.mv);
      ToolchainIsValid(TsgoTriple(pp.mv).value);
    } else if "cache/download/" <= n {
      ParsedDownload(n);
    } else {
      ParsedZip(n);
    }
  }

  // A root that is right for its module, if that is one of them.
  ghost predicate RootTrue(repo: PS.Repo, mods: Mods, mv: ModuleVersion, root: MI.Handle) {
    mv in mods ==> GoodModule(repo, root, mods[mv])
  }

  lemma RootIsTrue(repo: PS.Repo, roots: Roots, mods: Mods, mv: ModuleVersion, readOnly: bool)
    requires GoodModules(repo, roots, mods)
    ensures var r := StoreRoot(roots, mv, readOnly); r.Ok? ==> RootTrue(repo, mods, mv, r.value)
    ensures mv in mods ==>
              StoreRoot(roots, mv, readOnly) == if Served(mv, mods[mv], readOnly) then Ok(roots[mv]) else Err(Failed)
  {
    hide GoodModule, StoreRoot, Served, MI.HandleOf, PM.HoldsModule, ValidFiles;
    if mv in mods {
      var parts := ModuleOf(repo, roots[mv], mods[mv]);
      StoreRootIs(roots, mv, mods[mv], readOnly);
    }
  }

  lemma StoreRootFails(roots: Roots, mv: ModuleVersion, readOnly: bool)
    ensures var r := StoreRoot(roots, mv, readOnly); r.Err? ==> r.error == Failed
  {
    hide SplitN, MI.Stat;
  }

  lemma RootFetches(repo: PS.Repo, mods: Mods, h: NfsHandle, mv: ModuleVersion, p: string, root: MI.Handle)
    requires PlaceTrue(mods, h, mv, p) && RootTrue(repo, mods, mv, root)
    ensures var r := FromRoot(repo, root, p);
            && ReadsOf(mods, h, r)
            && (r.Ok? ==> IsFileOf(mods, h, r.value))
            && forall nm :: NamesPlace(mods, nm) && HandleOfName(nm) == h ==> r == PlaceOf(mods, nm)
  {
    hide GoodModule, HandleOfName, Canonical, GoodName, FromRoot, PlaceIn;
    forall nm | NamesPlace(mods, nm) && HandleOfName(nm) == h ensures FromRoot(repo, root, p) == PlaceOf(mods, nm) {
      FromRootIsExact(repo, root, mods[mv], p);
    }
  }

  lemma FileReads(mods: Mods, h: NfsHandle, s: File)
    ensures IsFileOf(mods, h, s) ==> ReadsOf(mods, h, Ok(s))
  {
    hide NamesPlace, HandleOfName, PlaceIn;
  }

  // Without a place of the modules, or without an answer.
  lemma NoPlaceReads(mods: Mods, h: NfsHandle, r: Result<File, ReadError>)
    requires r == Err(UnknownHandle) || r == Err(Failed) || forall nm :: NamesPlace(mods, nm) ==> HandleOfName(nm) != h
    ensures ReadsOf(mods, h, r)
  {
    hide NamesPlace, HandleOfName, PlaceIn;
  }

  // The store has exactly the files and directories of the modules.
  lemma IsStored(repo: PS.Repo, roots: Roots, mods: Mods, nm: Name)
    requires GoodModules(repo, roots, mods) && NamesPlace(mods, nm)
    ensures nm.mv in roots
    ensures Existing(FilesOf(roots[nm.mv]), nm.path) <==> Exists(mods[nm.mv], nm.path)
  {
    hide GoodModule, Canonical, ValidMV, ValidFiles, MI.HandleOf, PM.HoldsModule, FilesOf, CleanPath, IsDirIn;
    var g, z := roots[nm.mv], mods[nm.mv];
    var parts := ModuleOf(repo, g, z);
    FilesOfGit(g, z);
    GS.GitMetaDirs(z, nm.path);
    if nm.path == "" { HasRoot(z); } else { assert Below("", nm.path); }
  }

  lemma FilesOfGit(g: MI.Handle, z: Files)
    requires g.Git? && MI.HandleOf(g, GS.GitMeta(z))
    ensures FilesOf(g) == GS.GitMeta(z)
  {
    hide MI.Indexes;
    assert FilesOf(g).Keys == GS.GitMeta(z).Keys;
  }

  lemma HasRoot(z: Files)
    requires ValidFiles(z) && z != map[]
    ensures IsDirIn(z, "")
  {
    var p :| p in z;
    CleanEnds(p);
    assert Below("", p);
  }

  // ----- one reader

  datatype Reader =
    | Wants(h: NfsHandle) // not in the cache
    | Recovering(flight: Flight) // nor in the table
    | Named(h: NfsHandle, path: string)
    | Rootless(h: NfsHandle, mv: ModuleVersion, path: string) // its root is not cached
    | Rooted(h: NfsHandle, mv: ModuleVersion, path: string, root: MI.Handle) // from the store, about to be cached
    | Reading(h: NfsHandle, mv: ModuleVersion, path: string, root: MI.Handle)
    | Fetched(h: NfsHandle, file: File) // about to be put in the cache

  ghost predicate ReaderOK(repo: PS.Repo, mods: Mods, r: Reader) {
    match r
    case Wants(_) => true
    case Recovering(f) => FlightOK(f)
    case Named(h, p) => PathTrue(mods, h, p)
    case Rootless(h, mv, p) => ValidMV(mv) && PlaceTrue(mods, h, mv, p)
    case Rooted(h, mv, p, root) => ValidMV(mv) && PlaceTrue(mods, h, mv, p) && RootTrue(repo, mods, mv, root)
    case Reading(h, mv, p, root) => PlaceTrue(mods, h, mv, p) && RootTrue(repo, mods, mv, root)
    case Fetched(h, s) => IsFileOf(mods, h, s)
  }

  function HandleOf(r: Reader): NfsHandle {
    match r
    case Recovering(f) => f.h
    case _ => r.h
  }

  // What is still to be done by a reader at most.
  function Rank(r: Reader): nat {
    match r
    case Wants(_) => 9
    case Recovering(Missed(_)) => 8
    case Recovering(InModule(_, _)) => 7
    case Recovering(Found(_, _)) => 6
    case Named(_, _) => 5
    case Rootless(_, _, _) => 4
    case Rooted(_, _, _, _) => 3
    case Reading(_, _, _, _) => 2
    case Fetched(_, _) => 1
  }

  datatype Outcome = More(reader: Reader) | Done(result: Result<File, ReadError>)

  ghost predicate OutcomeOK(repo: PS.Repo, mods: Mods, h: NfsHandle, o: Outcome) {
    match o
    case More(r) => ReaderOK(repo, mods, r) && HandleOf(r) == h
    case Done(r) => ReadsOf(mods, h, r)
  }

  ghost predicate NoPlace(mods: Mods, h: NfsHandle) {
    forall nm :: NamesPlace(mods, nm) ==> HandleOfName(nm) != h
  }

  // h is the handle of a file or directory of a module that the server knows.
  ghost predicate IsKnown(known: set<ModuleVersion>, mods: Mods, h: NfsHandle, nm: Name) {
    NamesPlace(mods, nm) && HandleOfName(nm) == h && nm.mv in known && Exists(mods[nm.mv], nm.path)
  }

  // If the module is served, too, reading gives what is there and never fails.
  ghost predicate Delivers(
      known: set<ModuleVersion>, mods: Mods, readOnly: bool, h: NfsHandle, r: Result<File, ReadError>)
  {
    forall nm :: IsKnown(known, mods, h, nm) && Served(nm.mv, mods[nm.mv], readOnly) ==> r == PlaceOf(mods, nm)
  }

  lemma NoPlaceDelivers(
      known: set<ModuleVersion>, mods: Mods, readOnly: bool, h: NfsHandle, r: Result<File, ReadError>)
    requires NoPlace(mods, h) || forall nm :: !IsKnown(known, mods, h, nm)
    ensures Delivers(known, mods, readOnly, h, r)
  {
    hide NamesPlace, HandleOfName, PlaceIn, Served, Exists;
  }

  lemma FileDelivers(known: set<ModuleVersion>, mods: Mods, readOnly: bool, h: NfsHandle, s: File)
    requires IsFileOf(mods, h, s)
    ensures Delivers(known, mods, readOnly, h, Ok(s))
  {
    hide NamesPlace, HandleOfName, PlaceIn, Served, Exists;
  }

  lemma RootDelivers(
      known: set<ModuleVersion>, repo: PS.Repo, mods: Mods, readOnly: bool, h: NfsHandle, mv: ModuleVersion, p: string,
      root: MI.Handle)
    requires PlaceTrue(mods, h, mv, p) && RootTrue(repo, mods, mv, root)
    ensures Delivers(known, mods, readOnly, h, FromRoot(repo, root, p))
  {
    RootFetches(repo, mods, h, mv, p, root);
    hide NamesPlace, HandleOfName, PlaceIn, Served, Exists, FromRoot, ReadsOf, RootTrue;
  }

  // A module without a root is not served.
  lemma RootlessDelivers(
      known: set<ModuleVersion>, repo: PS.Repo, roots: Roots, mods: Mods, readOnly: bool, h: NfsHandle,
      mv: ModuleVersion, p: string, r: Result<File, ReadError>)
    requires GoodModules(repo, roots, mods) && PlaceTrue(mods, h, mv, p) && StoreRoot(roots, mv, readOnly).Err?
    ensures Delivers(known, mods, readOnly, h, r)
  {
    RootIsTrue(repo, roots, mods, mv, readOnly);
    hide GoodModules, HandleOfName, PlaceIn, Served, Exists, StoreRoot, Canonical, GoodName;
  }

  // The handle of a file or directory is recovered.
  lemma KnownIsRecovered(repo: PS.Repo, known: set<ModuleVersion>, roots: Roots, mods: Mods, f: Flight, nm: Name)
    requires GoodModules(repo, roots, mods) && FlightOK(f) && IsKnown(known, mods, f.h, nm)
    ensures f.Missed? ==> f.h.mv != ZeroHash && MvFor(known, f.h.mv).Some?
    ensures f.InModule? ==> RecoverIn(f.mv, roots, f.h.path).Ok?
  {
    hide GoodModules, Canonical, FilesOf, Existing, Exists, ValidMV, Printed, HashMV;
    IsStored(repo, roots, mods, nm);
    HashMVIsSha(nm.mv);
    if f.InModule? {
      SameModule(f.mv, nm.mv);
      HasZipPrefix(nm.mv);
      hide ZipPrefix;
    }
  }

  lemma SameModule(a: ModuleVersion, b: ModuleVersion)
    requires ValidMV(a) && ValidMV(b) && HashMV(a) == HashMV(b)
    ensures a == b
  {
    hide ValidMV, HashMV;
    ValidHasNoNul(a);
    ValidHasNoNul(b);
    HashMVInjective(a, b);
  }

  // What the server holds stays right.
  ghost predicate GoodServer(server: FS, repo: PS.Repo, mods: Mods)
    reads server
  {
    server.Valid() && GoodRoots(server, repo, mods)
  }

  // The start of fromHandle.
  method LookUp(server: FS, repo: PS.Repo, h: NfsHandle, ghost mods: Mods) returns (o: Outcome)
    requires GoodServer(server, repo, mods)
    ensures OutcomeOK(repo, mods, h, o) && (o.Done? ==> NoPlace(mods, h))
    ensures o.More? ==> Rank(o.reader) < 9
  {
    hide FS.Valid, GoodModules, GoodCached, FlightOK, PathTrue, AnswerOK, PlaceIn;
    forall nm ensures HandleOfName(nm).Handle? && HandleOfName(nm) != ROOT && HandleOfName(nm) != STATUS {
      NameHandleIsOrdinary(nm);
    }
    hide HandleOfName, NamesPlace;
    var flights, reply := Begin(server, map[], 0, h);
    if reply.None? {
      assert FlightOK(flights[0]);
      return More(Recovering(flights[0]));
    }
    if reply.value.target.Err? {
      return Done(Err(UnknownHandle));
    }
    AnswerTrue(mods, h, reply.value.target.value, h in server.remembered);
    return More(Named(h, reply.value.target.value.path));
  }

  // The further sections of fromHandle.
  method RecoverNext(server: FS, repo: PS.Repo, f: Flight, ghost mods: Mods) returns (o: Outcome)
    requires GoodServer(server, repo, mods) && FlightOK(f)
    modifies server
    ensures GoodServer(server, repo, mods) && OutcomeOK(repo, mods, f.h, o)
    ensures server.KnownAfter() == old(server.KnownAfter())
    ensures o.Done? ==> forall nm :: !IsKnown(old(server.KnownAfter()), mods, f.h, nm)
    ensures o.More? ==> Rank(o.reader) < Rank(Recovering(f))
  {
    hide FS.Valid, GoodModules, GoodCached, PathTrue, AnswerOK, EntryOK, RecoverIn, MvFor, KnownDirs;
    hide HashMV, ValidMV, Printed, TargetOf, IsKnown;
    ghost var h := f.h;
    ghost var known := server.KnownAfter();
    forall nm | IsKnown(known, mods, h, nm)
      ensures f.Missed? ==> h.mv != ZeroHash && MvFor(known, h.mv).Some?
      ensures f.InModule? ==> RecoverIn(f.mv, server.store.roots, h.path).Ok?
    {
      KnownIsRecovered(repo, known, server.store.roots, mods, f, nm);
    }
    var after, reply;
    match f
    case Missed(_) =>
      after, reply := Continue(server, map[0 := f], 0);
      return if 0 in after then More(Recovering(after[0])) else Done(Err(UnknownHandle));
    case InModule(_, _) =>
      after, reply := Look(server, map[0 := f], 0);
      return if 0 in after then More(Recovering(after[0])) else Done(Err(UnknownHandle));
    case Found(_, p) =>
      var t := server.Remember(f.h, p);
      EntryAnswers(h, t, true);
      AnswerTrue(mods, h, t, true);
      return More(Named(f.h, t.path));
  }

  // The start of getFileContentsUncached, with the lookup of a cached root.
  method Parse(
      server: FS, repo: PS.Repo, others: GmPath -> Result<File, ReadError>, h: NfsHandle, n: string, ghost mods: Mods)
    returns (o: Outcome)
    requires GoodServer(server, repo, mods) && PathTrue(mods, h, n)
    ensures OutcomeOK(repo, mods, h, o) && (o.Done? ==> NoPlace(mods, h))
    ensures o.More? ==> Rank(o.reader) < 5
  {
    hide FS.Valid, GoodModules, ParsePath, PathTrue, ValidMV, GoodModule, NamesPlace, HandleOfName;
    PlaceOfPath(mods, h, n);
    var mp := ParsePath(n);
    if mp.notExist {
      NoPlaceReads(mods, h, Err(NotFound));
      return Done(Err(NotFound));
    }
    if mp.wellKnown != "" || mp.ext != "" {
      var r := others(mp);
      NoPlaceReads(mods, h, r);
      if r.Err? { return Done(r); }
      return More(Fetched(h, r.value));
    }
    if !mp.inZip {
      NoPlaceReads(mods, h, Err(NotAFile));
      return Done(Err(NotAFile));
    }
    ZipIsValid(n);
    if mp.mv in server.zipRootCache {
      return More(Reading(h, mp.mv, mp.path, server.zipRootCache[mp.mv]));
    }
    return More(Rootless(h, mp.mv, mp.path));
  }

  // One section of a reader.
  method Advance(
      server: FS, cache: Cache, repo: PS.Repo, others: GmPath -> Result<File, ReadError>, readOnly: bool, r: Reader,
      ghost mods: Mods)
    returns (o: Outcome)
    requires GoodServer(server, repo, mods) && cache.Valid() && CacheTrue(cache.view, mods) && ReaderOK(repo, mods, r)
    modifies server, cache, cache.entCache, cache.entCache.nodes, cache.blobCache, cache.blobCache.nodes
    ensures GoodServer(server, repo, mods) && cache.Valid() && CacheTrue(cache.view, mods)
    ensures fresh(cache.entCache.nodes - old(cache.entCache.nodes))
    ensures fresh(cache.blobCache.nodes - old(cache.blobCache.nodes))
    ensures OutcomeOK(repo, mods, HandleOf(r), o) && (o.More? ==> Rank(o.reader) < Rank(r))
    ensures o.Done? ==> Delivers(old(server.KnownAfter()), mods, readOnly, HandleOf(r), o.result)
    ensures old(server.KnownAfter()) <= server.KnownAfter()
  {
    hide FS.Valid, RC.FS.Valid, GoodModules, GoodCached, FlightOK, PathTrue, PlaceTrue, RootTrue, IsFileOf, CacheTrue;
    hide ValidMV, StoreRoot, FromRoot, CS.PutShared, HandleOfName, NamesPlace;
    hide Delivers, NoPlace, IsKnown, FS.KnownAfter;
    ghost var known := server.KnownAfter();
    match r
    case Wants(h) =>
      o := LookUp(server, repo, h, mods);
      if o.Done? { NoPlaceDelivers(known, mods, readOnly, h, o.result); }
    case Recovering(f) =>
      o := RecoverNext(server, repo, f, mods);
      if o.Done? { NoPlaceDelivers(known, mods, readOnly, f.h, o.result); }
    case Named(h, n) =>
      o := Parse(server, repo, others, h, n, mods);
      if o.Done? { NoPlaceDelivers(known, mods, readOnly, h, o.result); }
    case Rootless(h, mv, p) =>
      RootIsTrue(repo, server.store.roots, mods, mv, readOnly);
      var root := StoreRoot(server.store.roots, mv, readOnly);
      StoreRootFails(server.store.roots, mv, readOnly);
      NoPlaceReads(mods, h, Err(Failed));
      if root.Err? {
        RootlessDelivers(known, repo, server.store.roots, mods, readOnly, h, mv, p, Err(root.error));
      }
      o := if root.Err? then Done(Err(root.error)) else More(Rooted(h, mv, p, root.value));
    case Rooted(h, mv, p, root) =>
      CacheRoot(server, repo, mv, root, mods);
      o := More(Reading(h, mv, p, root));
    case Reading(h, mv, p, root) =>
      RootFetches(repo, mods, h, mv, p, root);
      RootDelivers(known, repo, mods, readOnly, h, mv, p, root);
      var file := FromRoot(repo, root, p);
      o := if file.Err? then Done(file) else More(Fetched(h, file.value));
    case Fetched(h, s) =>
      PutTrue(cache.view, mods, h, s, cache.GetFileCacheSize());
      FileReads(mods, h, s);
      FileDelivers(known, mods, readOnly, h, s);
      cache.SetReadCache(h, s.attr, s.contents);
      o := Done(Ok(s));
  }

  method CacheRoot(server: FS, repo: PS.Repo, mv: ModuleVersion, root: MI.Handle, ghost mods: Mods)
    requires GoodServer(server, repo, mods) && ValidMV(mv) && RootTrue(repo, mods, mv, root)
    modifies server
    ensures GoodServer(server, repo, mods)
    ensures server.store == old(server.store) && server.zipRootCache == old(server.zipRootCache)[mv := root]
    ensures server.table == old(server.table) && old(server.KnownAfter()) <= server.KnownAfter()
  {
    hide FS.Valid, GoodModule, ValidMV;
    server.SetZipRootCache(mv, root);
  }

  // ----- many readers

  type Readers = map<nat, Reader>

  ghost predicate ReadersOK(repo: PS.Repo, mods: Mods, readers: Readers) {
    forall id :: id in readers ==> ReaderOK(repo, mods, readers[id])
  }

  // Open starts reader id with the lookup in the cache; Next is its next
  // section; Other is a step of any other request.
  datatype ReadStep = Open(id: nat, h: NfsHandle) | Next(id: nat) | Other(q: Step)

  // A stored module does not change.
  ghost predicate GoodReadStep(repo: PS.Repo, mods: Mods, q: ReadStep) {
    q.Other? ==>
      && GoodStep(q.q)
      && (q.q.Fill? || q.q.Cache? ==> RootTrue(repo, mods, q.q.mv, q.q.root))
  }

  datatype FileReply = FileReply(h: NfsHandle, file: Result<File, ReadError>)

  // It is what the place holds, and if the module was known and is served it is
  // no failure.
  ghost predicate FileReplyOK(known: set<ModuleVersion>, mods: Mods, readOnly: bool, r: FileReply) {
    ReadsOf(mods, r.h, r.file) && Delivers(known, mods, readOnly, r.h, r.file)
  }

  lemma KnownMore(
      known: set<ModuleVersion>, more: set<ModuleVersion>, mods: Mods, readOnly: bool, r: FileReply)
    requires known <= more && FileReplyOK(more, mods, readOnly, r)
    ensures FileReplyOK(known, mods, readOnly, r)
  {
    hide ReadsOf, NamesPlace, HandleOfName, Exists, Served, PlaceIn;
  }

  // What a step does to the readers: it starts one or carries one on, which
  // brings it nearer its end, and a reader that is answered is gone.
  ghost predicate Moves(readers: Readers, q: ReadStep, after: Readers, reply: Option<FileReply>) {
    match q
    case Other(_) => after == readers && reply.None?
    case Open(id, h) =>
      if id in readers then after == readers && reply.None?
      else if reply.Some? then after == readers && reply.value.h == h
      else after == readers[id := Wants(h)]
    case Next(id) =>
      if id !in readers then after == readers && reply.None?
      else if reply.Some? then after == readers - {id} && reply.value.h == HandleOf(readers[id])
      else
        && id in after && after == readers[id := after[id]]
        && HandleOf(after[id]) == HandleOf(readers[id]) && Rank(after[id]) < Rank(readers[id])
  }

  method Take(
      server: FS, cache: Cache, repo: PS.Repo, others: GmPath -> Result<File, ReadError>, readOnly: bool,
      readers: Readers, flights: Flights, q: ReadStep, ghost mods: Mods)
    returns (readers': Readers, flights': Flights, reply: Option<FileReply>)
    requires GoodServer(server, repo, mods) && cache.Valid() && CacheTrue(cache.view, mods)
    requires ReadersOK(repo, mods, readers) && FlightsOK(flights) && GoodReadStep(repo, mods, q)
    modifies server, cache, cache.entCache, cache.entCache.nodes, cache.blobCache, cache.blobCache.nodes
    ensures GoodServer(server, repo, mods) && cache.Valid() && CacheTrue(cache.view, mods)
    ensures fresh(cache.entCache.nodes - old(cache.entCache.nodes))
    ensures fresh(cache.blobCache.nodes - old(cache.blobCache.nodes))
    ensures ReadersOK(repo, mods, readers') && FlightsOK(flights')
    ensures old(server.KnownAfter()) <= server.KnownAfter() && Moves(readers, q, readers', reply)
    ensures reply.Some? ==> FileReplyOK(old(server.KnownAfter()), mods, readOnly, reply.value)
  {
    hide FS.Valid, RC.FS.Valid, CacheTrue, FlightOK, IsFileOf, ReaderOK, GoodStep, GoodModule, GoodRoot;
    hide LruSpec.Lookup, LruSpec.Touch, ValidMV, FS.KnownAfter, Rank, ReadsOf, Delivers;
    readers', flights', reply := readers, flights, None;
    match q
    case Open(id, h) =>
      if id !in readers {
        HitTrue(cache.view, mods, h);
        TouchTrue(cache.view, mods, h);
        var hit := cache.Get(h);
        if hit.Some? {
          FileReads(mods, h, hit.value);
          FileDelivers(server.KnownAfter(), mods, readOnly, h, hit.value);
          reply := Some(FileReply(h, Ok(hit.value)));
        } else {
          WantsIsOK(repo, mods, h);
          readers' := readers[id := Wants(h)];
        }
      }
    case Next(id) =>
      if id in readers {
        var o := Advance(server, cache, repo, others, readOnly, readers[id], mods);
        if o.More? {
          readers' := readers[id := o.reader];
        } else {
          readers' := readers - {id};
          reply := Some(FileReply(HandleOf(readers[id]), o.result));
        }
      }
    case Other(s) =>
      var ignored;
      flights', ignored := Serve(server, flights, s);
  }

  lemma WantsIsOK(repo: PS.Repo, mods: Mods, h: NfsHandle)
    ensures ReaderOK(repo, mods, Wants(h))
  {
  }

  // No step of steps is of reader id.
  ghost predicate Apart(steps: seq<ReadStep>, id: nat) {
    forall q :: q in steps ==> q != Next(id) && !(q.Open? && q.id == id)
  }

  // Reader id is as it was.
  ghost predicate Same(readers: Readers, after: Readers, id: nat) {
    (id in readers <==> id in after) && (id in readers ==> readers[id] == after[id])
  }

  lemma ApartMoves(readers: Readers, q: ReadStep, after: Readers, reply: Option<FileReply>, id: nat)
    requires Moves(readers, q, after, reply) && q != Next(id) && !(q.Open? && q.id == id)
    ensures Same(readers, after, id)
  {
    hide Rank;
  }

  // Whatever readers and other requests do, in any order, every file that is
  // read by a handle is the one the handle is of, and so are all in the cache;
  // by the handle of a directory or of an absent path none is ever read. What a
  // module has that was known at the start and is served is never refused.
  method ReadRun(
      server: FS, cache: Cache, repo: PS.Repo, others: GmPath -> Result<File, ReadError>, readOnly: bool,
      readers: Readers, flights: Flights, steps: seq<ReadStep>, ghost mods: Mods)
    returns (replies: seq<FileReply>, readers': Readers, flights': Flights)
    requires GoodServer(server, repo, mods) && cache.Valid() && CacheTrue(cache.view, mods)
    requires ReadersOK(repo, mods, readers) && FlightsOK(flights)
    requires forall q :: q in steps ==> GoodReadStep(repo, mods, q)
    modifies server, cache, cache.entCache, cache.entCache.nodes, cache.blobCache, cache.blobCache.nodes
    ensures GoodServer(server, repo, mods) && cache.Valid() && CacheTrue(cache.view, mods)
    ensures fresh(cache.entCache.nodes - old(cache.entCache.nodes))
    ensures fresh(cache.blobCache.nodes - old(cache.blobCache.nodes))
    ensures ReadersOK(repo, mods, readers') && FlightsOK(flights')
    ensures old(server.KnownAfter()) <= server.KnownAfter()
    ensures forall i :: 0 <= i < |replies| ==> FileReplyOK(old(server.KnownAfter()), mods, readOnly, replies[i])
    ensures forall id :: Apart(steps, id) ==> Same(readers, readers', id)
  {
    hide GoodServer, RC.FS.Valid, CacheTrue, FlightsOK, ReadersOK, GoodReadStep, FileReplyOK, Moves, FS.KnownAfter;
    replies, readers', flights' := [], readers, flights;
    ghost var known := server.KnownAfter();
    var i := 0;
    while i < |steps|
      invariant 0 <= i <= |steps|
      invariant GoodServer(server, repo, mods) && cache.Valid() && CacheTrue(cache.view, mods)
      invariant fresh(cache.entCache.nodes - old(cache.entCache.nodes))
      invariant fresh(cache.blobCache.nodes - old(cache.blobCache.nodes))
      invariant ReadersOK(repo, mods, readers') && FlightsOK(flights')
      invariant known <= server.KnownAfter()
      invariant forall j :: 0 <= j < |replies| ==> FileReplyOK(known, mods, readOnly, replies[j])
      invariant forall id :: Apart(steps, id) ==> Same(readers, readers', id)
    {
      var reply;
      ghost var now, before := server.KnownAfter(), readers';
      readers', flights', reply := Take(server, cache, repo, others, readOnly, readers', flights', steps[i], mods);
      if reply.Some? {
        KnownMore(known, now, mods, readOnly, reply.value);
        replies := replies + [reply.value];
      }
      forall id | Apart(steps, id) ensures Same(readers, readers', id) {
        assert steps[i] in steps;
        ApartMoves(before, steps[i], readers', reply, id);
      }
      i := i + 1;
    }
  }

  // One reader to its end, while other readers and requests do anything between
  // its sections: at most ten sections, and then what the place holds.
  method ReadAmong(
      server: FS, cache: Cache, repo: PS.Repo, others: GmPath -> Result<File, ReadError>, readOnly: bool,
      among: Readers, inFlight: Flights, id: nat, h: NfsHandle, between: nat -> seq<ReadStep>, ghost mods: Mods)
    returns (r: Result<File, ReadError>, sections: nat)
    requires GoodServer(server, repo, mods) && cache.Valid() && CacheTrue(cache.view, mods)
    requires ReadersOK(repo, mods, among) && FlightsOK(inFlight) && id !in among
    requires forall k :: Apart(between(k), id) && forall q :: q in between(k) ==> GoodReadStep(repo, mods, q)
    modifies server, cache, cache.entCache, cache.entCache.nodes, cache.blobCache, cache.blobCache.nodes
    ensures GoodServer(server, repo, mods) && cache.Valid() && CacheTrue(cache.view, mods)
    ensures sections <= 10
    ensures FileReplyOK(old(server.KnownAfter()), mods, readOnly, FileReply(h, r))
  {
    hide GoodServer, RC.FS.Valid, CacheTrue, FlightsOK, ReadersOK, GoodReadStep, FileReplyOK;
    hide FS.KnownAfter, Apart, Rank;
    ghost var known := server.KnownAfter();
    OpenIsGood(repo, mods, id, h);
    var readers: Readers, flights: Flights, reply: Option<FileReply>;
    readers, flights, reply := Take(server, cache, repo, others, readOnly, among, inFlight, Open(id, h), mods);
    sections := 1;
    RankBound(Wants(h));
    while reply.None?
      invariant GoodServer(server, repo, mods) && cache.Valid() && CacheTrue(cache.view, mods)
      invariant fresh(cache.entCache.nodes - old(cache.entCache.nodes))
      invariant fresh(cache.blobCache.nodes - old(cache.blobCache.nodes))
      invariant ReadersOK(repo, mods, readers) && FlightsOK(flights) && known <= server.KnownAfter()
      invariant reply.None? ==> id in readers && HandleOf(readers[id]) == h && Rank(readers[id]) + sections <= 10
      invariant reply.Some? ==> FileReplyOK(known, mods, readOnly, reply.value) && reply.value.h == h
      invariant sections <= 10
      decreases if reply.None? then Rank(readers[id]) + 1 else 0
    {
      var replies;
      ghost var before: Readers := readers;
      replies, readers, flights :=
        ReadRun(server, cache, repo, others, readOnly, readers, flights, between(sections), mods);
      assert Same(before, readers, id);
      ghost var now := server.KnownAfter();
      NextIsGood(repo, mods, id);
      RankBound(readers[id]);
      readers, flights, reply := Take(server, cache, repo, others, readOnly, readers, flights, Next(id), mods);
      if reply.Some? { KnownMore(known, now, mods, readOnly, reply.value); }
      sections := sections + 1;
    }
    r := reply.value.file;
    assert reply.value == FileReply(h, r);
  }

  lemma OpenIsGood(repo: PS.Repo, mods: Mods, id: nat, h: NfsHandle)
    ensures GoodReadStep(repo, mods, Open(id, h))
  {
  }

  lemma NextIsGood(repo: PS.Repo, mods: Mods, id: nat)
    ensures GoodReadStep(repo, mods, Next(id))
  {
  }

  lemma RankBound(r: Reader)
    ensures 1 <= Rank(r) <= 9 && (r.Wants? ==> Rank(r) == 9)
  {
  }
}
