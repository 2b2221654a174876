// getFileContents when no other request comes between its critical sections
// (nfs.go 543-578 and 645-723): what is read at each place of a stored module.

module ReadAlone {
  import opened Wrappers
  import opened ModNames
  import opened GmPaths
  import opened GmSources
  import opened Paths
  import opened GitObjects
  import opened HandleSpec
  import opened HandleRestart
  import opened DirIndex
  import opened NfsHandles
  import opened HandleRuns
  import opened ReadFile
  import opened ReadRuns
  import LruSpec
  import CS = ReadCacheSpec
  import RC = ReadCache
  import PS = PackSender

  // What getFileContentsUncached answers for each kind of path.
  function FetchPath(
      repo: PS.Repo, cached: Roots, roots: Roots, readOnly: bool, others: GmPath -> Result<File, ReadError>, n: string)
    : Result<File, ReadError>
  {
    var mp := ParsePath(n);
    if mp.notExist then Err(NotFound)
    else if mp.wellKnown != "" || mp.ext != "" then others(mp)
    else if mp.inZip then FetchZip(repo, cached, roots, readOnly, mp.mv, mp.path)
    else Err(NotAFile)
  }

  // The roots it leaves cached: one more for a zip path whose root it found.
  function CachedAfter(cached: Roots, roots: Roots, readOnly: bool, n: string): Roots {
    var mp := ParsePath(n);
    if mp == Zip(mp.mv, mp.path) && mp.mv !in cached && StoreRoot(roots, mp.mv, readOnly).Ok? then
      cached[mp.mv := StoreRoot(roots, mp.mv, readOnly).value]
    else cached
  }

  // getFileContentsUncached
  method Fetch(
      server: FS, repo: PS.Repo, others: GmPath -> Result<File, ReadError>, readOnly: bool, n: string, ghost mods: Mods)
    returns (r: Result<File, ReadError>)
    requires GoodServer(server, repo, mods)
    modifies server
    ensures GoodServer(server, repo, mods)
    ensures r == FetchPath(repo, old(server.zipRootCache), old(server.store.roots), readOnly, others, n)
    ensures server.zipRootCache == CachedAfter(old(server.zipRootCache), old(server.store.roots), readOnly, n)
  {
    hide FS.Valid, GoodModules, GoodCached, ParsePath, ValidMV, FromRoot, StoreRoot, RootTrue;
    var mp := ParsePath(n);
    if mp.notExist {
      return Err(NotFound);
    }
    if mp.wellKnown != "" || mp.ext != "" {
      return others(mp);
    }
    if !mp.inZip {
      return Err(NotAFile);
    }
    if mp.mv in server.zipRootCache {
      return FromRoot(repo, server.zipRootCache[mp.mv], mp.path);
    }
    RootIsTrue(repo, server.store.roots, mods, mp.mv, readOnly);
    var root := StoreRoot(server.store.roots, mp.mv, readOnly);
    if root.Err? {
      return Err(root.error);
    }
    ZipIsValid(n);
    CacheRoot(server, repo, mp.mv, root.value, mods);
    return FromRoot(repo, root.value, mp.path);
  }

  // Whether getFileContents gets at a place: its file is in the cache, or its
  // module's root is, or the module is served.
  ghost predicate Reachable(hit: bool, cached: Roots, mods: Mods, nm: Name, readOnly: bool)
    requires nm.InZip? && nm.mv in mods
  {
    hit || nm.mv in cached || Served(nm.mv, mods[nm.mv], readOnly)
  }

  // The outcome for the canonical name of a place, whose handle is h: what is
  // there, unless the place is out of reach. The handle of a file or directory
  // always is answered, that of an absent path if it was given before.
  ghost predicate OutcomeIs(
      r: Result<File, ReadError>, hit: bool, answered: bool, cached: Roots, mods: Mods, known: set<ModuleVersion>,
      h: NfsHandle, readOnly: bool)
  {
    forall nm :: NamesPlace(mods, nm) && HandleOfName(nm) == h && nm.mv in known ==>
      r == if !answered && !Exists(mods[nm.mv], nm.path) then Err(UnknownHandle)
           else if Reachable(hit, cached, mods, nm, readOnly) then PlaceOf(mods, nm)
           else Err(Failed)
  }

  method GetFileContents(
      server: FS, cache: Cache, repo: PS.Repo, others: GmPath -> Result<File, ReadError>, readOnly: bool,
      h: NfsHandle, ghost mods: Mods)
    returns (r: Result<File, ReadError>)
    requires GoodServer(server, repo, mods) && cache.Valid() && CacheTrue(cache.view, mods)
    requires h.Handle?
    modifies server, cache, cache.entCache, cache.entCache.nodes, cache.blobCache, cache.blobCache.nodes
    ensures GoodServer(server, repo, mods) && cache.Valid() && CacheTrue(cache.view, mods)
    ensures r.Ok? ==> IsFileOf(mods, h, r.value)
    ensures OutcomeIs(r, LruSpec.Lookup(old(cache.view), h).Some?,
                      old(Answer(server.table, server.KnownAfter(), server.store.roots, h)).Ok?,
                      old(server.zipRootCache), mods, old(server.KnownAfter()), h, readOnly)
    ensures var hit := LruSpec.Lookup(old(cache.view), h);
            var answer := old(Answer(server.table, server.KnownAfter(), server.store.roots, h));
            && (hit.Some? ==> r == Ok(hit.value))
            && (hit.None? && answer.Err? ==> r == Err(UnknownHandle))
            && (hit.None? && answer.Ok? ==>
                  r == FetchPath(repo, old(server.zipRootCache), old(server.store.roots), readOnly, others,
                                 answer.value.path))
            && cache.view == if hit.Some? || r.Err? then LruSpec.Touch(old(cache.view), h)
                             else CS.PutShared(LruSpec.Touch(old(cache.view), h), h, r.value, cache.GetFileCacheSize())
  {
    hide FS.Valid, RC.FS.Valid, GoodModules, GoodCached, CacheTrue, IsFileOf, LruSpec.Lookup, LruSpec.Touch;
    hide CS.PutShared, Answer, EntryOK, FS.KnownAfter, OutcomeIs, PathTrue, FetchPath, CachedAfter, ParsePath;
    HitTrue(cache.view, mods, h);
    TouchTrue(cache.view, mods, h);
    ghost var known, cached, roots := server.KnownAfter(), server.zipRootCache, server.store.roots;
    ghost var answered := Answer(server.table, known, roots, h).Ok?;
    KnownIsAnswered(server, repo, mods, known, h);
    var hit := cache.Get(h);
    if hit.Some? {
      HitIs(hit.value, answered, cached, mods, known, h, readOnly);
      return Ok(hit.value);
    }
    var ht := server.Resolve(h);
    if ht.Err? {
      UnknownIs(false, cached, mods, known, h, readOnly);
      return Err(UnknownHandle);
    }
    AnswerIsTrue(server, mods, h, ht.value);
    var fetched := Fetch(server, repo, others, readOnly, ht.value.path, mods);
    FetchIs(repo, cached, roots, readOnly, others, mods, known, h, ht.value.path, fetched);
    if fetched.Err? {
      return fetched;
    }
    PutTrue(cache.view, mods, h, fetched.value, cache.GetFileCacheSize());
    cache.SetReadCache(h, fetched.value.attr, fetched.value.contents);
    return fetched;
  }

  // What Resolve answers parses as the place that the handle is of.
  lemma AnswerIsTrue(server: FS, mods: Mods, h: NfsHandle, t: Target)
    requires h.Handle? && (h != ROOT && h != STATUS ==> EntryOK(h, t, h in server.remembered))
    ensures PathTrue(mods, h, t.path)
  {
    hide EntryOK, GoodName, Canonical, ParsePath;
    if h == ROOT || h == STATUS {
      forall nm ensures HandleOfName(nm) != h { NameHandleIsOrdinary(nm); }
    } else {
      EntryAnswers(h, t, h in server.remembered);
      AnswerTrue(mods, h, t, h in server.remembered);
    }
  }

  lemma HitIs(
      s: File, answered: bool, cached: Roots, mods: Mods, known: set<ModuleVersion>, h: NfsHandle, readOnly: bool)
    requires IsFileOf(mods, h, s)
    ensures OutcomeIs(Ok(s), true, answered, cached, mods, known, h, readOnly)
  {
    hide GoodName, Canonical, HandleOfName, Served, IsDirIn;
  }

  // No file or directory of the modules has the handle.
  ghost predicate Unknown(mods: Mods, known: set<ModuleVersion>, h: NfsHandle) {
    forall nm :: NamesPlace(mods, nm) && HandleOfName(nm) == h && Exists(mods[nm.mv], nm.path) ==> nm.mv !in known
  }

  lemma UnknownIs(
      hit: bool, cached: Roots, mods: Mods, known: set<ModuleVersion>, h: NfsHandle, readOnly: bool)
    requires Unknown(mods, known, h)
    ensures OutcomeIs(Err(UnknownHandle), hit, false, cached, mods, known, h, readOnly)
  {
    hide HandleOfName, Served, Canonical, GoodName, IsDirIn;
  }

  lemma KnownIsAnswered(server: FS, repo: PS.Repo, mods: Mods, known: set<ModuleVersion>, h: NfsHandle)
    requires GoodServer(server, repo, mods) && known == server.KnownAfter()
    ensures Answer(server.table, known, server.store.roots, h).Ok? || Unknown(mods, known, h)
  {
    hide FS.Valid, Recover, Canonical, GoodName, KnownDirs, GoodRoot, GoodModules, GoodCached, FilesOf, Existing;
    hide Exists;
    KnownAfterSound(server);
    hide Sound;
    forall nm | NamesPlace(mods, nm) && HandleOfName(nm) == h && nm.mv in known && Exists(mods[nm.mv], nm.path)
      ensures Answer(server.table, known, server.store.roots, h).Ok?
    {
      IsStored(repo, server.store.roots, mods, nm);
      RecoverStored(known, server.store.roots, nm);
      NameHandleIsOrdinary(nm);
    }
  }

  lemma KnownAfterSound(server: FS)
    requires server.Valid()
    ensures Sound(server.KnownAfter(), server.store.roots)
  {
    hide EntryOK, ValidMV, GoodRoot, Maps, Holds;
  }

  lemma FetchIs(
      repo: PS.Repo, cached: Roots, roots: Roots, readOnly: bool, others: GmPath -> Result<File, ReadError>,
      mods: Mods, known: set<ModuleVersion>, h: NfsHandle, n: string, r: Result<File, ReadError>)
    requires GoodModules(repo, roots, mods) && GoodCached(repo, cached, mods) && PathTrue(mods, h, n)
    requires r == FetchPath(repo, cached, roots, readOnly, others, n)
    ensures OutcomeIs(r, false, true, cached, mods, known, h, readOnly)
    ensures r.Ok? ==> IsFileOf(mods, h, r.value)
  {
    hide GoodModules, GoodCached, ParsePath, FetchZip, Served, HandleOfName, Canonical, GoodName, PlaceIn, Exists;
    forall nm | NamesPlace(mods, nm) && HandleOfName(nm) == h
      ensures r == if Reachable(false, cached, mods, nm, readOnly) then PlaceOf(mods, nm) else Err(Failed)
    {
      FetchesPlace(repo, cached, roots, readOnly, mods, nm.mv, nm.path);
    }
  }

  // A client that got the handle of a path in a module from one server reads by
  // it on the next one, which knows only the store: the file, or that the place
  // is a directory. If the module is not served that fails, and for a path that
  // the module lacks the handle is unknown.
  method ReadAfterRestart(
      first: FS, repo: PS.Repo, others: GmPath -> Result<File, ReadError>, readOnly: bool, cacheSize: int, nm: Name,
      ghost mods: Mods)
    returns (r: Result<File, ReadError>)
    requires first.Valid() && GoodModules(repo, first.store.roots, mods)
    requires NamesPlace(mods, nm) && nm.mv in first.store.cached
    modifies first`table
    ensures r == if !Exists(mods[nm.mv], nm.path) then Err(UnknownHandle)
                 else if Served(nm.mv, mods[nm.mv], readOnly) then PlaceOf(mods, nm)
                 else Err(Failed)
  {
    hide FS.Valid, RC.FS.Valid, GoodModules, EntryOK, GoodStore, Print, Canonical, GoodName, HandleFor, PlaceIn, Served;
    hide HandleOfName, OutcomeIs, IsFileOf, Exists, Answer, Sound;
    var h := first.ToHandle(SplitSegs(Print(nm)));
    PrintedHandle(nm);
    StoreIsGood(first);
    var server := new FS(first.store);
    var cache := new RC.FS<NfsHandle, FileMode>(cacheSize);
    Nothing(repo, server, cache, mods, h);
    assert nm.mv in server.KnownAfter();
    ghost var known, hit := server.KnownAfter(), LruSpec.Lookup(cache.view, h).Some?;
    ghost var answered := Answer(server.table, known, server.store.roots, h).Ok?;
    KnownAfterSound(server);
    AbsentIsUnanswered(repo, known, server.store.roots, mods, nm);
    r := GetFileContents(server, cache, repo, others, readOnly, h, mods);
    OutcomeOf(r, hit, answered, map[], mods, known, h, readOnly, nm);
  }

  // Without a table, nothing is found for a path that its module lacks.
  lemma AbsentIsUnanswered(repo: PS.Repo, known: set<ModuleVersion>, roots: Roots, mods: Mods, nm: Name)
    requires Sound(known, roots) && GoodModules(repo, roots, mods) && NamesPlace(mods, nm) && nm.mv in known
    ensures Answer(map[], known, roots, HandleOfName(nm)).Ok? <==> Exists(mods[nm.mv], nm.path)
  {
    hide Canonical, GoodName, GoodModules, Exists, Existing, FilesOf, KnownDirs;
    IsStored(repo, roots, mods, nm);
    NameHandleIsOrdinary(nm);
    MvForIs(known, nm.mv);
    HashMVIsSha(nm.mv);
    HasZipPrefix(nm.mv);
    hide MvFor, HashMV, ValidMV, ZipPrefix;
  }

  lemma OutcomeOf(
      r: Result<File, ReadError>, hit: bool, answered: bool, cached: Roots, mods: Mods, known: set<ModuleVersion>,
      h: NfsHandle, readOnly: bool, nm: Name)
    requires OutcomeIs(r, hit, answered, cached, mods, known, h, readOnly)
    requires NamesPlace(mods, nm) && HandleOfName(nm) == h && nm.mv in known
    ensures r == if !answered && !Exists(mods[nm.mv], nm.path) then Err(UnknownHandle)
                 else if Reachable(hit, cached, mods, nm, readOnly) then PlaceOf(mods, nm)
                 else Err(Failed)
  {
    hide HandleOfName, PlaceIn, Served, Canonical, GoodName, Reachable, Exists;
  }

  lemma Nothing(repo: PS.Repo, server: FS, cache: Cache, mods: Mods, h: NfsHandle)
    requires server.zipRootCache == map[] && cache.view == []
    ensures GoodCached(repo, server.zipRootCache, mods) && CacheTrue(cache.view, mods)
    ensures LruSpec.Lookup(cache.view, h).None?
  {
  }

  lemma StoreIsGood(fs: FS)
    requires fs.Valid()
    ensures GoodStore(fs.store)
  {
  }

  lemma PrintedHandle(nm: Name)
    requires nm.InZip? && GoodName(nm) && Canonical(nm)
    ensures var h := HandleFor(SplitSegs(Print(nm))); h == HandleOfName(nm) && h.Handle? && h != ROOT && h != STATUS
  {
    hide GoodName, Canonical, PathHandle, Split, HandleOfName;
    NameExact(nm);
    NameHandleIsOrdinary(nm);
    JoinSplit(Print(nm));
    hide Print;
    JoinStatus();
    hide ParsePath;
    StatusIsPlain();
    NamesModuleHandle(nm);
  }

  lemma NamesModuleHandle(nm: Name)
    requires nm.InZip?
    ensures HandleOfName(nm).mv != ZeroHash && PathHandle(STATUS_FILE).Handle? && PathHandle(STATUS_FILE).mv == ZeroHash
  {
    hide ParsePath;
    StatusIsPlain();
    HashMVIsSha(nm.mv);
  }
}
