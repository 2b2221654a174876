// store/remotestore: walkFiles flattens a handle into a file map on the server;
// buildDirMap derives the directories again on the client.

module RemoteStore {
  import opened Wrappers
  import opened Paths
  import opened GitObjects
  import opened ModIndex

  // The map that walkFiles fills in place.
  class ModVersionMap {
    var m: MetaMap

    constructor ()
      ensures m == map[]
    {
      m := map[];
    }
  }

  // m is base with the files of f whose path satisfies the two tests added.
  ghost predicate Filled(m: MetaMap, base: MetaMap, f: MetaMap, dir: string, names: set<string>) {
    && (forall p :: p in m <==> p in base || Walked(f, dir, names, p))
    && (forall p :: p in m ==> m[p] == if Walked(f, dir, names, p) then f[p] else base[p])
  }

  ghost predicate Walked(f: MetaMap, dir: string, names: set<string>, p: string) {
    p in f && Below(dir, p) && ChildName(dir, p) in names
  }

  // The files of f below dir.
  ghost function FilesBelow(f: MetaMap, dir: string): MetaMap {
    map p | p in f && Below(dir, p) :: f[p]
  }

  method WalkFiles(h: Handle, dir: string, fmap: ModVersionMap, ghost f: MetaMap, ghost bound: nat)
    returns (r: Result<(), Error>)
    requires HandleOf(h, f) && ValidFiles(f) && AllFiles(f)
    requires forall p :: p in f ==> |p| <= bound
    modifies fmap
    ensures r == if h.Remote? && dir != "" && !IsDirIn(f, dir) then Err(NotExist) else Ok(())
    ensures fmap.m == old(fmap.m) + FilesBelow(f, dir)
    decreases bound - |dir|
  {
    hide CleanPath, Listing, HandleOf, Filled, ValidFiles, AllFiles;
    FilledNone(fmap.m, f, dir);
    var ents := Readdir(h, dir);
    ReaddirLists(h, f, dir);
    if ents.Err? {
      NotDirNothingBelow(f, dir);
      return Err(ents.error);
    }
    var i := 0;
    assert Names(ents.value[..0]) == {};
    while i < |ents.value|
      invariant 0 <= i <= |ents.value|
      invariant Filled(fmap.m, old(fmap.m), f, dir, Names(ents.value[..i]))
    {
      ghost var before := fmap.m;
      var ent := ents.value[i];
      EntLeads(ents.value, f, dir, i, DirMode(h));
      var name := ent.name;
      if dir != "" {
        name := dir + "/" + name;
      }
      assert name == Under(dir, ent.name);
      if ent.mode.kind == Directory {
        DirIsShorter(f, name, bound);
        var sub := WalkFiles(h, name, fmap, f, bound);
        if sub.Err? {
          return sub;
        }
        FilledDir(before, old(fmap.m), f, dir, Names(ents.value[..i]), ent.name);
      } else {
        fmap.m := fmap.m[name := Meta(ent.size, ent.mode)];
        FilledFile(before, old(fmap.m), f, dir, Names(ents.value[..i]), ent.name);
      }
      i := i + 1;
    }
    assert ents.value[..i] == ents.value;
    FilledAll(fmap.m, old(fmap.m), f, dir, ents.value, DirMode(h));
    return Ok(());
  }

  // What Readdir returns is exact, also for the empty root and for paths of
  // which git lists nothing.
  lemma ReaddirLists(h: Handle, f: MetaMap, dir: string)
    requires HandleOf(h, f)
    ensures Readdir(h, dir).Ok? ==> Listing(Readdir(h, dir).value, f, dir, DirMode(h))
    ensures Readdir(h, dir).Err? <==> h.Remote? && dir != "" && !IsDirIn(f, dir)
    ensures Readdir(h, dir).Err? ==> Readdir(h, dir) == Err(NotExist)
  {
    if !IsDirIn(f, dir) {
      forall e ensures !Child(f, dir, e, DirMode(h)) {
        if Child(f, dir, e, DirMode(h)) { ChildMeansDir(f, dir, e, DirMode(h)); }
      }
    }
  }

  lemma NotDirNothingBelow(f: MetaMap, dir: string)
    requires !IsDirIn(f, dir)
    ensures FilesBelow(f, dir) == map[]
  {
  }

  lemma FilledNone(m: MetaMap, f: MetaMap, dir: string)
    ensures Filled(m, m, f, dir, {})
  {
  }

  lemma DirIsShorter(f: MetaMap, d: string, bound: nat)
    requires IsDirIn(f, d) && forall p :: p in f ==> |p| <= bound
    ensures |d| < bound
  {
  }

  lemma EntLeads(ents: seq<Dirent>, f: MetaMap, dir: string, i: nat, dm: FileMode)
    requires Listing(ents, f, dir, dm) && i < |ents| && AllFiles(f) && dm.kind == Directory
    ensures CleanName(ents[i].name) && ents[i].name !in Names(ents[..i])
    ensures Names(ents[..i + 1]) == Names(ents[..i]) + {ents[i].name}
    ensures var p := Under(dir, ents[i].name);
            if ents[i].mode.kind == Directory then IsDirIn(f, p) && ents[i] == Dirent(ents[i].name, dm, 0)
            else p in f && f[p] == Meta(ents[i].size, ents[i].mode)
  {
    assert ents[i] in ents;
    assert Child(f, dir, ents[i], dm);
  }

  lemma WalkedFile(f: MetaMap, dir: string, names: set<string>, n: string, q: string)
    requires ValidFiles(f) && CleanName(n) && Under(dir, n) in f
    ensures Walked(f, dir, names + {n}, q) <==> Walked(f, dir, names, q) || q == Under(dir, n)
  {
    hide CleanPath;
    var p := Under(dir, n);
    JoinBelow(dir, n);
    if Walked(f, dir, names + {n}, q) && ChildName(dir, q) == n {
      ChildStep(dir, q);
      NotBelowFile(f, p, q);
    }
  }

  lemma FilledFile(m: MetaMap, base: MetaMap, f: MetaMap, dir: string, names: set<string>, n: string)
    requires ValidFiles(f) && CleanName(n) && Under(dir, n) in f
    requires Filled(m, base, f, dir, names)
    ensures Filled(m[Under(dir, n) := f[Under(dir, n)]], base, f, dir, names + {n})
  {
    hide CleanPath, ValidFiles, Walked;
    forall q ensures Walked(f, dir, names + {n}, q) <==> Walked(f, dir, names, q) || q == Under(dir, n) {
      WalkedFile(f, dir, names, n, q);
    }
  }

  lemma WalkedDir(f: MetaMap, dir: string, names: set<string>, n: string, q: string)
    requires ValidFiles(f) && CleanName(n) && IsDirIn(f, Under(dir, n))
    ensures Walked(f, dir, names + {n}, q) <==>
            Walked(f, dir, names, q) || (q in f && Below(Under(dir, n), q))
  {
    hide CleanPath;
    var p := Under(dir, n);
    if Walked(f, dir, names + {n}, q) && ChildName(dir, q) == n {
      ChildStep(dir, q);
      assert q != p;
    }
    if q in f && Below(p, q) { ChildUnique(dir, n, q); }
  }

  lemma FilledDir(m: MetaMap, base: MetaMap, f: MetaMap, dir: string, names: set<string>, n: string)
    requires ValidFiles(f) && CleanName(n) && IsDirIn(f, Under(dir, n))
    requires Filled(m, base, f, dir, names)
    ensures Filled(m + FilesBelow(f, Under(dir, n)), base, f, dir, names + {n})
  {
    hide CleanPath, ValidFiles, Walked, IsDirIn;
    forall q ensures Walked(f, dir, names + {n}, q) <==>
                     Walked(f, dir, names, q) || (q in f && Below(Under(dir, n), q)) {
      WalkedDir(f, dir, names, n, q);
    }
    forall q | Walked(f, dir, names, q) ensures q in f { WalkedInFiles(f, dir, names, q); }
  }

  lemma WalkedInFiles(f: MetaMap, dir: string, names: set<string>, q: string)
    requires Walked(f, dir, names, q)
    ensures q in f
  {
  }

  lemma FilledAll(m: MetaMap, base: MetaMap, f: MetaMap, dir: string, ents: seq<Dirent>, dm: FileMode)
    requires ValidFiles(f) && Listing(ents, f, dir, dm) && Filled(m, base, f, dir, Names(ents))
    ensures m == base + FilesBelow(f, dir)
  {
    hide ValidFiles, Listing, Walked, Names;
    forall q ensures Walked(f, dir, Names(ents), q) <==> q in FilesBelow(f, dir) {
      WalkedBelow(f, dir, ents, dm, q);
    }
    assert forall q :: q in m <==> q in base + FilesBelow(f, dir);
  }

  lemma WalkedBelow(f: MetaMap, dir: string, ents: seq<Dirent>, dm: FileMode, q: string)
    requires ValidFiles(f) && Listing(ents, f, dir, dm)
    ensures Walked(f, dir, Names(ents), q) <==> q in FilesBelow(f, dir)
  {
    hide ValidFiles, Listing;
    if q in f && Below(dir, q) { ListedChild(f, dir, ents, dm, q); }
  }

  // Every file below a listed directory is led to by some entry.
  lemma ListedChild(f: MetaMap, dir: string, ents: seq<Dirent>, dm: FileMode, q: string)
    requires ValidFiles(f) && Listing(ents, f, dir, dm) && q in f && Below(dir, q)
    ensures ChildName(dir, q) in Names(ents)
  {
    var n := ChildName(dir, q);
    hide NamesOnce;
    ChildStep(dir, q);
    hide CleanPath, ValidFiles;
    var p := Under(dir, n);
    var e := if p == q then Dirent(n, f[q].mode, f[q].size) else Dirent(n, dm, 0);
    if p != q { assert IsDirIn(f, p); }
    assert Child(f, dir, e, dm);
    var i :| 0 <= i < |ents| && ents[i] == e;
    assert ents[i].name == n;
  }
}
