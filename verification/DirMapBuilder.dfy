// buildDirMap of store/remotestore/remotestore.go: the directories of a flat
// file map, built by walking up from every file in any order.

module DirMapBuilder {
  import opened Strings
  import opened Paths
  import opened GitObjects
  import opened ModIndex

  // The entry of directory d on the way to file p.
  ghost function EntryFor(f: MetaMap, p: string, d: string): Dirent
    requires p in f && Below(d, p)
  {
    var n := ChildName(d, p);
    if Under(d, n) == p then Dirent(n, f[p].mode, f[p].size) else Dirent(n, REMOTE_DIR, 0)
  }

  // dirs indexes the files g, and in the directories cov also leads to p.
  ghost predicate Partial(dirs: DirMap, g: MetaMap, f: MetaMap, p: string, cov: set<string>)
    requires p in f && forall d :: d in cov ==> Below(d, p)
  {
    && (forall d :: d in dirs <==> IsDirIn(g, d) || d in cov)
    && (forall d :: d in dirs ==> PartialAt(dirs[d], g, f, p, cov, d))
  }

  ghost predicate PartialAt(ents: seq<Dirent>, g: MetaMap, f: MetaMap, p: string, cov: set<string>, d: string)
    requires p in f && forall d :: d in cov ==> Below(d, p)
  {
    && NamesOnce(ents)
    && forall e :: e in ents <==> Child(g, d, e, REMOTE_DIR) || (d in cov && e == EntryFor(f, p, d))
  }

  // g is f without p and the files still to come.
  ghost predicate PartOf(g: MetaMap, f: MetaMap) {
    forall q :: q in g ==> q in f && g[q] == f[q]
  }

  ghost predicate InSync(dirs: DirMap, dirSet: map<string, set<string>>) {
    && dirs.Keys == dirSet.Keys
    && forall d :: d in dirs ==> dirSet[d] == Names(dirs[d])
  }

  // An entry already listed under that name is the same entry.
  lemma EntryIsUnique(g: MetaMap, f: MetaMap, p: string, d: string, e: Dirent)
    requires ValidFiles(f) && PartOf(g, f) && p in f && p !in g && Below(d, p)
    requires Child(g, d, e, REMOTE_DIR) && e.name == ChildName(d, p)
    ensures e == EntryFor(f, p, d)
  {
    var x := Under(d, e.name);
    ChildStep(d, p);
    hide CleanPath;
    if x in g {
      NotBelowFile(f, x, p);
    } else {
      var q :| q in g && Below(x, q);
      NotBelowFile(f, p, q);
    }
  }

  // The repeated idiom of buildDirMap: append an entry unless its name is there.
  method Register(dirs: DirMap, dirSet: map<string, set<string>>, d: string, e: Dirent)
    returns (dirs': DirMap, dirSet': map<string, set<string>>)
    requires InSync(dirs, dirSet)
    ensures InSync(dirs', dirSet')
    ensures dirs' == Registered(dirs, d, e)
  {
    dirs', dirSet' := dirs, dirSet;
    var have := if d in dirSet then dirSet[d] else {};
    if e.name !in have {
      var ents := if d in dirs then dirs[d] else [];
      dirSet' := dirSet[d := have + {e.name}];
      dirs' := dirs[d := ents + [e]];
      NamesSnoc(ents, e);
    }
  }

  ghost function Registered(dirs: DirMap, d: string, e: Dirent): DirMap {
    var ents := if d in dirs then dirs[d] else [];
    if e.name in Names(ents) then dirs else dirs[d := ents + [e]]
  }

  lemma NamesSnoc(ents: seq<Dirent>, e: Dirent)
    ensures Names(ents + [e]) == Names(ents) + {e.name}
    ensures NamesOnce(ents) && e.name !in Names(ents) ==> NamesOnce(ents + [e])
  {
    var t := ents + [e];
    assert t[|ents|] == e;
    assert forall i :: 0 <= i < |ents| ==> t[i] == ents[i];
    assert forall n :: n in Names(t) ==> n in Names(ents) + {e.name};
    forall n | n in Names(ents) ensures n in Names(t) {
      var i :| 0 <= i < |ents| && ents[i].name == n;
      assert t[i].name == n;
    }
    assert t[|ents|].name in Names(t);
    assert forall i :: 0 <= i < |ents| ==> ents[i].name in Names(ents);
  }

  lemma RegisterStep(dirs: DirMap, g: MetaMap, f: MetaMap, p: string, cov: set<string>, d: string)
    requires ValidFiles(f) && PartOf(g, f) && p in f && p !in g && Below(d, p)
    requires forall d :: d in cov ==> Below(d, p)
    requires Partial(dirs, g, f, p, cov)
    ensures Partial(Registered(dirs, d, EntryFor(f, p, d)), g, f, p, cov + {d})
  {
    hide ValidFiles, Child, IsDirIn, NamesOnce, Names, EntryFor, Below;
    var e := EntryFor(f, p, d);
    var r := Registered(dirs, d, e);
    var ents := if d in dirs then dirs[d] else [];
    if d !in dirs {
      NothingListed(g, d);
      EmptyListing();
    }
    assert PartialAt(ents, g, f, p, cov, d);
    RegisterEntry(ents, g, f, p, cov, d);
    forall x | x in r ensures PartialAt(r[x], g, f, p, cov + {d}, x) {
      if x != d { assert PartialAt(dirs[x], g, f, p, cov, x); }
    }
  }

  lemma EmptyListing()
    ensures NamesOnce([]) && Names([]) == {}
  {
  }

  lemma NothingListed(g: MetaMap, d: string)
    requires !IsDirIn(g, d)
    ensures forall e :: !Child(g, d, e, REMOTE_DIR)
  {
    forall e ensures !Child(g, d, e, REMOTE_DIR) {
      if Child(g, d, e, REMOTE_DIR) { ChildMeansDir(g, d, e, REMOTE_DIR); }
    }
  }

  lemma WithName(ents: seq<Dirent>, n: string) returns (i: nat)
    requires n in Names(ents)
    ensures i < |ents| && ents[i].name == n && ents[i] in ents
  {
    i :| 0 <= i < |ents| && ents[i].name == n;
  }

  lemma RegisterEntry(ents: seq<Dirent>, g: MetaMap, f: MetaMap, p: string, cov: set<string>, d: string)
    requires ValidFiles(f) && PartOf(g, f) && p in f && p !in g && Below(d, p)
    requires forall d :: d in cov ==> Below(d, p)
    requires PartialAt(ents, g, f, p, cov, d)
    ensures var e := EntryFor(f, p, d);
            PartialAt(if e.name in Names(ents) then ents else ents + [e], g, f, p, cov + {d}, d)
  {
    hide ValidFiles, Child, IsDirIn, Names, NamesOnce, Below, PartOf;
    var e := EntryFor(f, p, d);
    assert e.name == ChildName(d, p);
    hide EntryFor;
    if e.name in Names(ents) {
      var i := WithName(ents, e.name);
      if Child(g, d, ents[i], REMOTE_DIR) { EntryIsUnique(g, f, p, d, ents[i]); }
      assert e in ents;
    } else {
      NamesSnoc(ents, e);
    }
  }

  // The directories covered once the walk up from p has reached child.
  ghost predicate Lead(p: string, child: string, d: string) {
    Below(d, p) && (d == child || Below(child, d))
  }

  lemma LeadStart(p: string, d: string)
    requires CleanPath(p)
    ensures Lead(p, Parent(p), d) <==> d == Parent(p)
  {
    Parts(p);
    JoinBelow(Parent(p), Base(p));
    if Below(d, p) && Below(Parent(p), d) {
      ParentBelow(d, p);
    }
  }

  // One step up covers one more directory, the parent.
  lemma LeadStep(p: string, child: string, d: string)
    requires CleanPath(p) && Below(child, p) && child != ""
    ensures CleanPath(child) && Below(Parent(child), p)
    ensures Lead(p, Parent(child), d) <==> Lead(p, child, d) || d == Parent(child)
    ensures ChildName(Parent(child), p) == Base(child) && Under(Parent(child), Base(child)) == child
  {
    CleanRest(child, p);
    hide CleanPath, Dir, Base;
    Parts(child);
    var up := Parent(child);
    JoinBelow(up, Base(child));
    BelowTransitive(up, child, p);
    ChildUnique(up, Base(child), p);
    if Below(d, p) && Below(up, d) {
      CleanRest(d, p);
      ChildStep(up, d);
      var n := ChildName(up, d);
      var x := Under(up, n);
      if d != x { BelowTransitive(x, d, p); }
      ChildUnique(up, n, p);
      assert n == Base(child);
    }
    if Lead(p, child, d) && d != child { BelowTransitive(up, child, d); }
  }

  lemma LeadAll(p: string, d: string)
    ensures Lead(p, "", d) <==> Below(d, p)
  {
    if d != "" { assert Pre("") == "" && "" < d; }
  }

  method BuildDirMap(files: MetaMap) returns (dirs: DirMap)
    requires ValidFiles(files)
    ensures Indexes(dirs, files, REMOTE_DIR)
  {
    hide Indexes, ValidFiles, InSync;
    dirs := map[];
    var dirSet: map<string, set<string>> := map[];
    IndexesNone();
    var todo := files.Keys;
    ghost var g: MetaMap := map[];
    while todo != {}
      invariant todo <= files.Keys
      invariant g.Keys == files.Keys - todo && PartOf(g, files)
      invariant Indexes(dirs, g, REMOTE_DIR) && InSync(dirs, dirSet)
      decreases |todo|
    {
      var filePath :| filePath in todo;
      todo := todo - {filePath};
      dirs, dirSet := AddPath(dirs, dirSet, filePath, files[filePath], g, files);
      g := g[filePath := files[filePath]];
    }
    assert g == files;
  }

  // The body of the outer loop: a file and all the directories above it.
  method AddPath(dirs0: DirMap, dirSet0: map<string, set<string>>, filePath: string, fm: Meta,
                 ghost g: MetaMap, ghost f: MetaMap)
    returns (dirs: DirMap, dirSet: map<string, set<string>>)
    requires ValidFiles(f) && PartOf(g, f) && filePath in f && filePath !in g && f[filePath] == fm
    requires Indexes(dirs0, g, REMOTE_DIR) && InSync(dirs0, dirSet0)
    ensures Indexes(dirs, g[filePath := fm], REMOTE_DIR) && InSync(dirs, dirSet)
  {
    hide CleanPath, ValidFiles, Partial, InSync, Indexes, Base, Dir, Registered, Below, PartOf, EntryFor;
    FileIsClean(f, filePath);
    var dir := Dir(filePath);
    if dir == "." {
      dir := "";
    }
    StartPartial(dirs0, g, f, filePath);
    FileEntry(f, filePath);
    RegisterStep(dirs0, g, f, filePath, {}, dir);
    assert {} + {dir} == {dir};
    dirs, dirSet := Register(dirs0, dirSet0, dir, Dirent(Base(filePath), fm.mode, fm.size));
    dirs, dirSet := AddParents(dirs, dirSet, dir, filePath, g, f);
  }

  // The inner loop: from the file's directory, whose entry is there, to the root.
  method AddParents(dirs0: DirMap, dirSet0: map<string, set<string>>, dir: string, ghost p: string,
                    ghost g: MetaMap, ghost f: MetaMap)
    returns (dirs: DirMap, dirSet: map<string, set<string>>)
    requires ValidFiles(f) && PartOf(g, f) && p in f && p !in g && dir == Parent(p) && Below(dir, p)
    requires Partial(dirs0, g, f, p, {dir}) && InSync(dirs0, dirSet0)
    ensures Indexes(dirs, g[p := f[p]], REMOTE_DIR) && InSync(dirs, dirSet)
  {
    hide CleanPath, ValidFiles, Partial, InSync, Indexes, Base;
    hide Dir, Registered, Below, PartOf, EntryFor, Lead;
    FileIsClean(f, p);
    dirs, dirSet := dirs0, dirSet0;
    ghost var cov := {dir};
    var child := dir;
    CoverStart(p, dir);
    while child != ""
      invariant Below(child, p)
      invariant CoversUpTo(cov, p, child)
      invariant Partial(dirs, g, f, p, cov) && InSync(dirs, dirSet)
      decreases |child|
    {
      var parent := Dir(child);
      if parent == "." {
        parent := "";
      }
      CoverStep(cov, p, child);
      RegisterStep(dirs, g, f, p, cov, parent);
      DirEntry(f, p, child);
      dirs, dirSet := Register(dirs, dirSet, parent, Dirent(Base(child), REMOTE_DIR, 0));
      cov := cov + {parent};
      child := parent;
    }
    CoverAll(cov, p);
    EndPartial(dirs, g, f, p, cov);
  }

  ghost predicate CoversUpTo(cov: set<string>, p: string, child: string) {
    && (forall d :: d in cov <==> Lead(p, child, d))
    && (forall d :: d in cov ==> Below(d, p))
  }

  lemma CoverStart(p: string, dir: string)
    requires CleanPath(p) && dir == Parent(p)
    ensures CoversUpTo({dir}, p, dir)
  {
    hide CleanPath, Dir, Below, Lead, Base, Under, CleanName;
    Parts(p);
    JoinBelow(dir, Base(p));
    forall d ensures Lead(p, dir, d) <==> d == dir { LeadStart(p, d); }
  }

  lemma CoverAll(cov: set<string>, p: string)
    requires CoversUpTo(cov, p, "")
    ensures forall d :: d in cov <==> Below(d, p)
  {
    forall d ensures d in cov <==> Below(d, p) { LeadAll(p, d); }
  }

  lemma CoverStep(cov: set<string>, p: string, child: string)
    requires CleanPath(p) && Below(child, p) && child != "" && CoversUpTo(cov, p, child)
    ensures Below(Parent(child), p) && CoversUpTo(cov + {Parent(child)}, p, Parent(child))
    ensures |Parent(child)| < |child|
  {
    hide CleanPath, Lead, Below, Dir;
    LeadStep(p, child, "");
    Parts(child);
    forall d ensures Lead(p, Parent(child), d) <==> d in cov || d == Parent(child) {
      LeadStep(p, child, d);
    }
  }

  lemma IndexesNone()
    ensures Indexes(map[], map[], REMOTE_DIR) && InSync(map[], map[])
  {
  }

  lemma FileEntry(f: MetaMap, p: string)
    requires p in f && CleanPath(p)
    ensures Below(Parent(p), p)
    ensures EntryFor(f, p, Parent(p)) == Dirent(Base(p), f[p].mode, f[p].size)
  {
    Parts(p);
    JoinBelow(Parent(p), Base(p));
  }

  lemma DirEntry(f: MetaMap, p: string, child: string)
    requires p in f && CleanPath(p) && Below(child, p) && child != ""
    ensures Below(Parent(child), p)
    ensures EntryFor(f, p, Parent(child)) == Dirent(Base(child), REMOTE_DIR, 0)
  {
    LeadStep(p, child, "");
  }

  lemma StartPartial(dirs: DirMap, g: MetaMap, f: MetaMap, p: string)
    requires Indexes(dirs, g, REMOTE_DIR) && p in f
    ensures Partial(dirs, g, f, p, {})
  {
  }

  lemma EndPartial(dirs: DirMap, g: MetaMap, f: MetaMap, p: string, cov: set<string>)
    requires ValidFiles(f) && PartOf(g, f) && p in f && p !in g
    requires forall d :: d in cov <==> Below(d, p)
    requires Partial(dirs, g, f, p, cov)
    ensures Indexes(dirs, g[p := f[p]], REMOTE_DIR)
  {
    hide ValidFiles, NamesOnce, Child;
    var all := g[p := f[p]];
    forall d ensures IsDirIn(all, d) <==> IsDirIn(g, d) || Below(d, p) {
      MoreDirs(g, f, p, d);
    }
    forall d | d in dirs ensures Listing(dirs[d], all, d, REMOTE_DIR) {
      forall e ensures e in dirs[d] <==> Child(all, d, e, REMOTE_DIR) {
        assert PartialAt(dirs[d], g, f, p, cov, d);
        MoreChildren(g, f, p, d, e);
      }
    }
  }

  lemma MoreDirs(g: MetaMap, f: MetaMap, p: string, d: string)
    requires p in f && p !in g
    ensures IsDirIn(g[p := f[p]], d) <==> IsDirIn(g, d) || Below(d, p)
  {
    var all := g[p := f[p]];
    if IsDirIn(g, d) { var q :| q in g && Below(d, q); assert q in all; }
    if Below(d, p) { assert p in all; }
  }

  lemma MoreChildren(g: MetaMap, f: MetaMap, p: string, d: string, e: Dirent)
    requires ValidFiles(f) && PartOf(g, f) && p in f && p !in g
    ensures Child(g[p := f[p]], d, e, REMOTE_DIR) <==>
            Child(g, d, e, REMOTE_DIR) || (Below(d, p) && e == EntryFor(f, p, d))
  {
    hide ValidFiles, IsDirIn, CleanName;
    var x := Under(d, e.name);
    EntryCases(f, p, d, e);
    if CleanName(e.name) { MoreDirs(g, f, p, x); }
  }

  // The entry that leads to p, told by where its path is.
  lemma EntryCases(f: MetaMap, p: string, d: string, e: Dirent)
    requires ValidFiles(f) && p in f
    ensures var x := Under(d, e.name);
            Below(d, p) && e == EntryFor(f, p, d) <==>
            CleanName(e.name) && ((x == p && e == Dirent(e.name, f[p].mode, f[p].size))
                                  || (Below(x, p) && e == Dirent(e.name, REMOTE_DIR, 0)))
  {
    assert CleanPath(p);
    hide CleanPath, ValidFiles;
    var x := Under(d, e.name);
    if Below(d, p) { ChildStep(d, p); }
    if CleanName(e.name) && (x == p || Below(x, p)) { ChildUnique(d, e.name, p); }
    assert !Below(p, p);
  }

  // ----- when the walk up ends

  // Where the inner loop is after n steps, if it has not stopped before.
  ghost function Climb(child: string, n: nat): string
    decreases n
  {
    if n == 0 then child else Climb(Parent(child), n - 1)
  }

  // The walk up reaches the root exactly from relative paths: from a rooted one
  // the loop never ends.
  lemma ClimbEndsIffRelative(p: string)
    requires CleanPath(p) || (p != "" && p[0] == '/')
    ensures (exists n :: Climb(p, n) == "") <==> p[0] != '/'
  {
    if p[0] == '/' {
      forall n: nat ensures Climb(p, n) != "" { RootedClimb(p, n); }
    } else {
      var n := CleanClimb(p);
    }
  }

  lemma {:induction false} RootedClimb(p: string, n: nat)
    requires p != "" && p[0] == '/'
    ensures Climb(p, n) != ""
    decreases n
  {
    if n > 0 {
      assert LastIndex(p, '/') >= 0;
      RootedClimb(Parent(p), n - 1);
    }
  }

  lemma {:induction false} CleanClimb(p: string) returns (n: nat)
    requires CleanPath(p)
    ensures Climb(p, n) == ""
    decreases |p|
  {
    hide CleanPath, Dir, Base;
    Parts(p);
    if Parent(p) == "" {
      n := 1;
      assert Climb(p, 1) == Climb("", 0);
    } else {
      var m := CleanClimb(Parent(p));
      n := m + 1;
    }
  }
}
