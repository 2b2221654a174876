// The server's side of NFS handles: the table of handles given, the indexes
// built from the store on first use, and the walk through a module's files
// (nfs.go 294-473, gomodfs.go 453-474 and 607-763). Each method that reads or
// writes the server's fields is one critical section, but for FromHandle and
// Resolve, which are fromHandle's sections in a row.

module NfsHandles {
  import opened Wrappers
  import opened Paths
  import opened ModNames
  import opened GmPaths
  import opened GmAncestors
  import opened GitObjects
  import opened HandleSpec
  import opened HandleRestart
  import opened DirIndex
  import MI = ModIndex
  import RS = RemoteStore
  import TB = TreeBuilder

  // p is the path of a thing whose handle would be h.
  ghost predicate Printed(h: NfsHandle, p: string) {
    exists nm :: GoodName(nm) && HandleOfName(nm) == h && Print(nm) == p
  }

  // An entry made by ToHandle has the handle it is filed under; one written by
  // a recovery is the path of what the handle stands for.
  ghost predicate EntryOK(h: NfsHandle, t: Target, recovered: bool) {
    && h.Handle? && h != ROOT && h != STATUS
    && t.path == JoinSegs(t.segs) && t.segs != []
    && if recovered then Printed(h, t.path) else PathHandle(t.path) == h
  }

  class FS {
    var store: Store
    var table: map<NfsHandle, Target>
    var modVerHash: Option<map<Hash32, ModuleVersion>>
    var pathHashTarget: map<Hash32, Target>
    var zipRootCache: map<ModuleVersion, MI.Handle>
    ghost var known: set<ModuleVersion>
    ghost var remembered: set<NfsHandle> // the handles whose entry a recovery wrote

    ghost predicate Indexed()
      reads this`modVerHash, this`pathHashTarget, this`known
    {
      && (modVerHash.Some? ==> Maps(modVerHash.value, known) && Holds(pathHashTarget, KnownDirs(known)))
      && (forall mv :: mv in known ==> ValidMV(mv))
    }

    ghost predicate Valid()
      reads this
    {
      && GoodStore(store)
      && Indexed()
      && (forall h :: h in table ==> EntryOK(h, table[h], h in remembered))
      && remembered <= table.Keys
    }

    // The module versions a lookup that consults the indexes will know.
    ghost function KnownAfter(): set<ModuleVersion>
      reads this
    {
      if modVerHash.Some? then known else SetOf(store.cached)
    }

    constructor (s: Store)
      requires GoodStore(s)
      ensures Valid() && fresh(this) && store == s && table == map[] && modVerHash == None
      ensures remembered == {} && zipRootCache == map[]
    {
      store, table, modVerHash, pathHashTarget, zipRootCache := s, map[], None, map[], map[];
      known, remembered := {}, {};
    }

    // The store takes in a module, as PutModule does.
    method PutModule(mv: ModuleVersion, h: MI.Handle)
      requires Valid() && ValidMV(mv) && GoodRoot(h)
      modifies this`store
      ensures Valid() && store == Store(old(store).cached + [mv], old(store).roots[mv := h])
    {
      store := Store(store.cached + [mv], store.roots[mv := h]);
    }

    // The store takes in a .mod or .info file, which makes its module version
    // one of the cached ones, as PutModFile and PutInfoFile do.
    method PutMetaFile(mv: ModuleVersion)
      requires Valid() && ValidMV(mv)
      modifies this`store
      ensures Valid() && store == Store(old(store).cached + [mv], old(store).roots)
    {
      hide ValidMV, GoodRoot, Indexed, EntryOK;
      store := Store(store.cached + [mv], store.roots);
    }

    // setZipRootCache
    method SetZipRootCache(mv: ModuleVersion, h: MI.Handle)
      requires Valid() && ValidMV(mv)
      modifies this`modVerHash, this`pathHashTarget, this`known, this`zipRootCache
      ensures Valid() && zipRootCache == old(zipRootCache)[mv := h]
      ensures modVerHash.Some? <==> old(modVerHash).Some?
      ensures known == if modVerHash.Some? then old(known) + {mv} else old(known)
    {
      hide GoodStore, ValidMV, Maps, Holds, EntryOK, DirsOf, HashMV, KnownDirs;
      if modVerHash.Some? {
        MapsMore(modVerHash.value, known, mv);
        KnownDirsMore(known, mv);
        modVerHash := Some(modVerHash.value[HashMV(mv) := mv]);
        AddModuleVersionPaths(mv, KnownDirs(known));
        known := known + {mv};
      }
      zipRootCache := zipRootCache[mv := h];
    }

    method AddPathHashTarget(d: string, ghost ds: iset<string>)
      requires Holds(pathHashTarget, ds)
      modifies this`pathHashTarget
      ensures Holds(pathHashTarget, ds + iset{d})
    {
      pathHashTarget := pathHashTarget[Sha(d) := TargetOf(d)];
    }

    // Registers every directory above s but the three that are known anyway.
    method AddParentPaths(s: string, ghost ds: iset<string>)
      requires Holds(pathHashTarget, ds) && (Parent(s) == "" || CleanPath(Parent(s)))
      modifies this`pathHashTarget
      ensures Holds(pathHashTarget, ds + NewAbove(s))
    {
      hide Holds, CleanPath, Parent, NewAbove, Ancestor;
      var cur := s;
      ghost var done := ds;
      while true
        invariant Parent(cur) == "" || CleanPath(Parent(cur))
        invariant Holds(pathHashTarget, done)
        invariant done + NewAbove(cur) == ds + NewAbove(s)
        decreases |cur|
      {
        ClimbStep(cur);
        var d := Dir(cur);
        if d in {".", "cache", "cache/download"} {
          assert done + NewAbove(cur) == done;
          return;
        }
        AddPathHashTarget(d, done);
        done := done + iset{d};
        cur := d;
      }
    }

    method AddModuleVersionPaths(mv: ModuleVersion, ghost ds: iset<string>)
      requires Holds(pathHashTarget, ds) && ValidMV(mv)
      modifies this`pathHashTarget
      ensures Holds(pathHashTarget, ds + DirsOf(mv))
    {
      hide Holds, CleanPath, Parent, NewAbove, ValidMV, CdPath, ZipPrefix, DirsOf;
      ParentsAreClean(mv);
      AddParentPaths(CdPath(mv, "foo"), ds);
      var z := ZipPrefix(mv);
      HasZipPrefix(mv);
      if z.Some? {
        AddParentPaths(z.value, ds + NewAbove(CdPath(mv, "foo")));
      }
      DirsAreAbove(mv);
      assert ds + DirsOf(mv) == ds + NewAbove(CdPath(mv, "foo")) + NewAbove(z.value);
    }

    method InitHandleMaps()
      requires Valid()
      modifies this`modVerHash, this`pathHashTarget, this`known
      ensures Valid() && modVerHash.Some? && known == old(KnownAfter())
    {
      hide ValidMV, Maps, Holds, EntryOK, GoodRoot, FIXED, ModuleDirs;
      if modVerHash.Some? {
        return;
      }
      var vers := IndexModules(store.cached);
      known := SetOf(store.cached);
      AddFixedDirs(ModuleDirs(known));
      modVerHash := Some(vers);
    }

    method IndexModules(mvs: seq<ModuleVersion>) returns (vers: map<Hash32, ModuleVersion>)
      requires forall mv :: mv in mvs ==> ValidMV(mv)
      modifies this`pathHashTarget
      ensures Maps(vers, SetOf(mvs)) && Holds(pathHashTarget, ModuleDirs(SetOf(mvs)))
    {
      hide DirsOf, HashMV, ValidMV, ModuleDirs, Holds, Maps, SetOf;
      vers := map[];
      pathHashTarget := map[];
      NothingIndexed();
      SetOfAll(mvs);
      var i := 0;
      while i < |mvs|
        invariant 0 <= i <= |mvs|
        invariant Maps(vers, SetOf(mvs[..i]))
        invariant Holds(pathHashTarget, ModuleDirs(SetOf(mvs[..i])))
      {
        ghost var now := SetOf(mvs[..i]);
        SetOfSnoc(mvs, i);
        MapsMore(vers, now, mvs[i]);
        ModuleDirsMore(now, mvs[i]);
        vers := vers[HashMV(mvs[i]) := mvs[i]];
        AddModuleVersionPaths(mvs[i], ModuleDirs(now));
        i := i + 1;
      }
    }

    method AddFixedDirs(ghost ds: iset<string>)
      requires Holds(pathHashTarget, ds)
      modifies this`pathHashTarget
      ensures Holds(pathHashTarget, ds + FIXED)
    {
      hide Holds, SystemDir;
      AddPathHashTarget("cache", ds);
      AddPathHashTarget("cache/download", ds + iset{"cache"});
      AddPathHashTarget(STATUS_FILE, ds + iset{"cache"} + iset{"cache/download"});
      ghost var base := ds + iset{"cache"} + iset{"cache/download"} + iset{STATUS_FILE};
      AddSystemDirs(["linux", "darwin", "windows"], ["amd64", "arm64"], base);
      AllSystems();
      assert base + Systems(["linux", "darwin", "windows"], ["amd64", "arm64"]) == ds + FIXED;
    }

    method AddSystemDirs(oses: seq<string>, arches: seq<string>, ghost ds: iset<string>)
      requires Holds(pathHashTarget, ds)
      modifies this`pathHashTarget
      ensures Holds(pathHashTarget, ds + Systems(oses, arches))
    {
      hide Holds, SystemDir, Systems;
      var i := 0;
      SystemsNone(oses[..0], arches);
      assert ds + Systems(oses[..0], arches) == ds;
      while i < |oses|
        invariant 0 <= i <= |oses|
        invariant Holds(pathHashTarget, ds + Systems(oses[..i], arches))
      {
        ghost var base := ds + Systems(oses[..i], arches);
        var j := 0;
        SystemsNone([oses[i]], arches[..0]);
        assert base + Systems([oses[i]], arches[..0]) == base;
        while j < |arches|
          invariant 0 <= j <= |arches|
          invariant Holds(pathHashTarget, base + Systems([oses[i]], arches[..j]))
        {
          AddPathHashTarget(SystemDir(oses[i], arches[j]), base + Systems([oses[i]], arches[..j]));
          SystemsMoreArches(oses[i], arches[..j], arches[j]);
          assert arches[..j + 1] == arches[..j] + [arches[j]];
          assert base + Systems([oses[i]], arches[..j]) + iset{SystemDir(oses[i], arches[j])}
              == base + Systems([oses[i]], arches[..j + 1]);
          j := j + 1;
        }
        assert arches[..j] == arches;
        SystemsMoreOses(oses[..i], oses[i], arches);
        assert oses[..i + 1] == oses[..i] + [oses[i]];
        assert base + Systems([oses[i]], arches) == ds + Systems(oses[..i + 1], arches);
        i := i + 1;
      }
      assert oses[..i] == oses;
    }

    // ToHandle
    method ToHandle(segs: seq<string>) returns (h: NfsHandle)
      requires Valid()
      modifies this`table
      ensures Valid() && h == HandleFor(segs)
      ensures table == if segs == [] || segs == [STATUS_FILE] || h == NotExistHandle || h in old(table) then old(table)
                       else old(table)[h := Target(JoinSegs(segs), segs)]
    {
      hide GoodStore, Maps, Holds, ParsePath, JoinSegs, Second;
      hide HashMV, GoodName, Canonical, Print, HandleOfName;
      if segs == [] {
        return ROOT;
      }
      if segs == [STATUS_FILE] {
        return STATUS;
      }
      var pathStr := JoinSegs(segs);
      var pp := ParsePath(pathStr);
      if pp.notExist {
        return NotExistHandle;
      }
      var first := ZeroHash;
      if pp.mv.mod != "" {
        first := HashMV(pp.mv);
      }
      h := Handle(first, Second(pp, pathStr));
      SecondIsNotZero(pp, pathStr);
      if h !in table {
        table := table[h := Target(pathStr, segs)];
      }
    }

    // moduleVersionWithHash
    method FindModule(x: Hash32) returns (mv: Option<ModuleVersion>)
      requires Valid()
      modifies this`modVerHash, this`pathHashTarget, this`known
      ensures Valid() && modVerHash.Some? && known == old(KnownAfter())
      ensures mv == MvFor(known, x)
    {
      hide EntryOK, GoodStore, Holds, HashMV, ValidMV, KnownDirs;
      InitHandleMaps();
      if x in modVerHash.value {
        MvForIs(known, modVerHash.value[x]);
        return Some(modVerHash.value[x]);
      }
      NoMvFor(modVerHash.value, known, x);
      return None;
    }

    // handleTargetWithPathHash
    method FindDir(x: Hash32) returns (r: Result<string, Error>)
      requires Valid()
      modifies this`modVerHash, this`pathHashTarget, this`known
      ensures Valid() && modVerHash.Some? && known == old(KnownAfter())
      ensures r == if x.Sha? && x.text in KnownDirs(known) then Ok(x.text) else Err(Stale)
    {
      hide EntryOK, GoodStore, Maps, ValidMV, KnownDirs, SplitSegs;
      InitHandleMaps();
      if x in pathHashTarget {
        return Ok(pathHashTarget[x].path);
      }
      return Err(Stale);
    }

    method RecoverInModule(mv: ModuleVersion, x: Hash32) returns (r: Result<string, Error>)
      requires GoodStore(store) && ValidMV(mv)
      ensures r == RecoverIn(mv, store.roots, x)
    {
      hide ValidMV, CdPath, ZipPrefix, TsgoTriple;
      MarkerIsNoExt();
      if x == WellKnown("info") {
        return Ok(CdPath(mv, "info"));
      } else if x == WellKnown("mod") {
        return Ok(CdPath(mv, "mod"));
      } else if x == WellKnown("ziphash") {
        return Ok(CdPath(mv, "ziphash"));
      } else if x == WellKnown(WK_TSGO_EXTRACTED) {
        var trip := TsgoTriple(mv);
        if trip.Some? {
          return Ok(TsgoZipRoot(trip.value) + ".extracted");
        }
      }
      if mv !in store.roots {
        return Err(UnknownModule);
      }
      ghost var f := FilesOf(store.roots[mv]);
      ghost var bound := TB.LongestPath(f);
      var p := WalkFor(store.roots[mv], "", x, f, bound);
      if p.None? {
        return Err(Stale);
      }
      var prefix := ZipPrefix(mv);
      if prefix.None? {
        return Err(Stale);
      }
      return Ok(EmptyPathJoin(prefix.value, p.value));
    }

    // The end of a recovery: the path is filed, whatever was there before.
    method Remember(h: NfsHandle, p: string) returns (t: Target)
      requires Valid() && Printed(h, p)
      modifies this`table, this`remembered
      ensures Valid() && t == TargetOf(p) && EntryOK(h, t, true)
      ensures table == old(table)[h := t] && remembered == old(remembered) + {h}
    {
      hide GoodStore, Indexed, EntryOK, Printed, TargetOf;
      PrintedEntry(h, p);
      t := TargetOf(p);
      table := table[h := t];
      remembered := remembered + {h};
    }

    // fromHandle for a handle of 64 bytes, with no request in between.
    method Resolve(h: NfsHandle) returns (r: Result<Target, Error>)
      requires Valid() && h.Handle?
      modifies this`table, this`modVerHash, this`pathHashTarget, this`known, this`remembered
      ensures Valid() && r == Answer(old(table), old(KnownAfter()), store.roots, h)
      ensures r.Ok? && h != ROOT && h != STATUS ==> EntryOK(h, r.value, h in remembered)
    {
      hide GoodStore, Indexed, EntryOK, Split, MvFor, RecoverIn, KnownDirs, Printed;
      if h == ROOT {
        return Ok(Target("", []));
      }
      if h == STATUS {
        return Ok(TargetOf(STATUS_FILE));
      }
      if h in table {
        return Ok(table[h]);
      }
      ghost var before := KnownAfter();
      var p: Result<string, Error>;
      if h.mv == ZeroHash {
        p := FindDir(h.path);
      } else {
        var mv := FindModule(h.mv);
        if mv.None? {
          return Err(Stale);
        }
        MvForValid(known, h.mv, this);
        p := RecoverInModule(mv.value, h.path);
      }
      if p.Err? {
        return Err(p.error);
      }
      KnownSound(this);
      RecoveredIsPrinted(known, store.roots, h);
      var t := Remember(h, p.value);
      r := Ok(t);
    }

    // FromHandle, with no request in between.
    method FromHandle(h: NfsHandle) returns (r: Result<seq<string>, Error>)
      requires Valid()
      modifies this`table, this`modVerHash, this`pathHashTarget, this`known, this`remembered
      ensures Valid()
      ensures var a := Answer(old(table), old(KnownAfter()), store.roots, h);
              r == if a.Ok? then Ok(a.value.segs) else Err(a.error)
    {
      hide EntryOK, GoodStore, Indexed, Recover, TargetOf;
      if h == NotExistHandle {
        return Ok(NO_FILE.segs);
      }
      if h == BadLength {
        return Err(Invalid);
      }
      var t := Resolve(h);
      if t.Err? {
        return Err(t.error);
      }
      return Ok(t.value.segs);
    }
  }

  // ----- the walk through a module's files

  // walkStoreModulePaths, with its consumer's test: the walked path whose hash
  // is want.
  method WalkFor(h: MI.Handle, dir: string, want: Hash32, ghost f: MI.MetaMap, ghost bound: nat)
    returns (r: Option<string>)
    requires MI.HandleOf(h, f) && ValidFiles(f) && MI.AllFiles(f)
    requires forall p :: p in f ==> |p| <= bound
    ensures r == if want.Sha? && Covers(f, dir, want.text) then Some(want.text) else None
    decreases bound - |dir|
  {
    hide CleanPath, CleanName, IsDirIn, MI.Readdir, MI.Listing, MI.HandleOf, ValidFiles, MI.AllFiles, Covers;
    CoversSelf(f, dir);
    if Sha(dir) == want {
      return Some(dir);
    }
    var ents := MI.Readdir(h, dir);
    RS.ReaddirLists(h, f, dir);
    if ents.Err? {
      NothingCovered(f, dir, want);
      return None;
    }
    var i := 0;
    while i < |ents.value|
      invariant 0 <= i <= |ents.value|
      invariant forall j :: 0 <= j < i ==> !Leads(f, dir, ents.value[j], want)
    {
      var ent := ents.value[i];
      RS.EntLeads(ents.value, f, dir, i, MI.DirMode(h));
      var sub := ent.name;
      if dir != "" {
        sub := dir + "/" + ent.name;
      }
      assert sub == Under(dir, ent.name);
      LeadsInside(f, dir, ent, want);
      if ent.mode.kind == Directory {
        RS.DirIsShorter(f, sub, bound);
        var found := WalkFor(h, sub, want, f, bound);
        if found.Some? {
          return found;
        }
      } else {
        FileCoversItself(f, sub, want);
        if Sha(sub) == want {
          return Some(sub);
        }
      }
      i := i + 1;
    }
    if want.Sha? && Covers(f, dir, want.text) {
      var j := CoveredChild(f, dir, ents.value, MI.DirMode(h), want.text);
    }
    return None;
  }

  ghost predicate Leads(f: MI.MetaMap, dir: string, e: MI.Dirent, want: Hash32) {
    want.Sha? && Covers(f, Under(dir, e.name), want.text)
  }

  lemma CoversSelf(f: MI.MetaMap, dir: string)
    ensures Covers(f, dir, dir)
  {
  }

  lemma NothingCovered(f: MI.MetaMap, dir: string, want: Hash32)
    requires !IsDirIn(f, dir) && Sha(dir) != want
    ensures want.Sha? ==> !Covers(f, dir, want.text)
  {
  }

  lemma FileCoversItself(f: MI.MetaMap, p: string, want: Hash32)
    requires ValidFiles(f) && p in f
    ensures want.Sha? && Covers(f, p, want.text) <==> want == Sha(p)
  {
    FileIsNoDir(f, p);
    hide ValidFiles;
    if want != Sha(p) { NothingCovered(f, p, want); }
  }

  lemma LeadsInside(f: MI.MetaMap, dir: string, e: MI.Dirent, want: Hash32)
    requires CleanName(e.name) && (Under(dir, e.name) in f || IsDirIn(f, Under(dir, e.name)))
    ensures Leads(f, dir, e, want) ==> Covers(f, dir, want.text)
  {
    var x := Under(dir, e.name);
    JoinBelow(dir, e.name);
    if Leads(f, dir, e, want) && want.text != x { BelowTransitive(dir, x, want.text); }
  }

  // Whatever lies below a listed directory is at or below one of its entries.
  lemma CoveredChild(f: MI.MetaMap, dir: string, ents: seq<MI.Dirent>, dm: FileMode, p: string) returns (j: nat)
    requires ValidFiles(f) && MI.Listing(ents, f, dir, dm) && Covers(f, dir, p) && p != dir
    ensures j < |ents| && Covers(f, Under(dir, ents[j].name), p)
  {
    hide CleanPath, ValidFiles, MI.Listing;
    var q := p;
    if p in f {
      FileIsClean(f, p);
    } else {
      q :| q in f && Below(p, q);
      FileIsClean(f, q);
      CleanRest(p, q);
      BelowTransitive(dir, p, q);
    }
    var n := ChildName(dir, p);
    ChildStep(dir, p);
    if p != q { BelowChild(dir, n, p, q); }
    RS.ListedChild(f, dir, ents, dm, q);
    j :| 0 <= j < |ents| && ents[j].name == n;
  }

  lemma BelowChild(dir: string, n: string, p: string, q: string)
    requires CleanName(n) && (p == Under(dir, n) || Below(Under(dir, n), p)) && Below(p, q)
    ensures Below(dir, q) && ChildName(dir, q) == n
  {
    hide ChildName;
    if p != Under(dir, n) { BelowTransitive(Under(dir, n), p, q); }
    ChildUnique(dir, n, q);
  }

  // ----- what recoveries write

  lemma SecondIsNotZero(pp: GmPath, n: string)
    ensures Second(pp, n) != ZeroHash
  {
  }

  lemma NameHandleIsOrdinary(nm: Name)
    ensures HandleOfName(nm).Handle? && HandleOfName(nm) != ROOT && HandleOfName(nm) != STATUS
  {
  }

  lemma PrintedEntry(h: NfsHandle, p: string)
    requires Printed(h, p)
    ensures EntryOK(h, TargetOf(p), true)
  {
    hide GoodName, Print, HandleOfName, PathHandle;
    var nm :| GoodName(nm) && HandleOfName(nm) == h && Print(nm) == p;
    NameExact(nm);
    NameHandleIsOrdinary(nm);
    JoinSplit(p);
  }

  // Whatever the store alone answers is such a path.
  lemma RecoveredIsPrinted(known: set<ModuleVersion>, roots: map<ModuleVersion, MI.Handle>, h: NfsHandle)
    requires Sound(known, roots) && h.Handle? && Recover(known, roots, h).Ok?
    ensures Printed(h, Recover(known, roots, h).value)
  {
    hide Sound, Recover, Stored, GoodName, Print, HandleOfName;
    var nm := RecoverOnlyStored(known, roots, h);
    StoredIsGood(known, roots, nm);
  }

  lemma KnownSound(fs: FS)
    requires fs.Valid()
    ensures Sound(fs.known, fs.store.roots)
  {
    hide EntryOK, ValidMV, GoodRoot;
  }

  lemma MvForValid(known: set<ModuleVersion>, x: Hash32, fs: FS)
    requires fs.Valid() && known == fs.known && MvFor(known, x).Some?
    ensures var mv := MvFor(known, x).value; ValidMV(mv) && HashMV(mv) == x && GoodStore(fs.store)
  {
    hide EntryOK, ValidMV, GoodStore, Maps, Holds, HashMV;
  }
}
