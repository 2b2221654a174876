// The indexes that a server builds from its store: module versions by hash, and
// the directories above their paths (gomodfs.go 674-763).

module DirIndex {
  import opened Wrappers
  import opened Paths
  import opened ModNames
  import opened GmPaths
  import opened GmAncestors
  import opened HandleSpec
  import opened HandleRestart

  // t is a directory index of exactly the paths ds.
  ghost predicate Holds(t: map<Hash32, Target>, ds: iset<string>) {
    && (forall d :: d in ds ==> Sha(d) in t)
    && (forall x :: x in t ==> x.Sha? && x.text in ds && t[x] == TargetOf(x.text))
  }

  ghost predicate Maps(t: map<Hash32, ModuleVersion>, known: set<ModuleVersion>) {
    && (forall mv :: mv in known ==> HashMV(mv) in t)
    && (forall x :: x in t ==> t[x] in known && HashMV(t[x]) == x)
  }

  // ----- what the indexes hold

  ghost function SetOf(mvs: seq<ModuleVersion>): set<ModuleVersion> {
    set mv | mv in mvs
  }

  lemma SetOfSnoc(mvs: seq<ModuleVersion>, i: nat)
    requires i < |mvs|
    ensures SetOf(mvs[..i + 1]) == SetOf(mvs[..i]) + {mvs[i]} && mvs[i] in mvs
    ensures forall mv :: mv in SetOf(mvs[..i]) ==> mv in mvs
  {
  }

  lemma FreshSound(s: Store)
    requires GoodStore(s)
    ensures Sound(SetOf(s.cached), s.roots)
  {
    hide ValidMV, GoodRoot;
  }

  lemma SetOfAll(mvs: seq<ModuleVersion>)
    ensures SetOf(mvs[..0]) == {} && SetOf(mvs[..|mvs|]) == SetOf(mvs)
  {
    assert mvs[..|mvs|] == mvs;
  }

  lemma NothingIndexed()
    ensures Maps(map[], {}) && Holds(map[], ModuleDirs({}))
  {
    hide DirsOf;
  }

  lemma NoMvFor(t: map<Hash32, ModuleVersion>, known: set<ModuleVersion>, x: Hash32)
    requires Maps(t, known) && x !in t
    ensures MvFor(known, x) == None
  {
  }

  lemma MapsMore(t: map<Hash32, ModuleVersion>, known: set<ModuleVersion>, mv: ModuleVersion)
    requires Maps(t, known) && ValidMV(mv) && forall x :: x in known ==> ValidMV(x)
    ensures Maps(t[HashMV(mv) := mv], known + {mv})
  {
    hide ValidMV, HashMV;
    ValidHasNoNul(mv);
    forall x | x in known && HashMV(x) == HashMV(mv) ensures x == mv {
      ValidHasNoNul(x);
      HashMVInjective(x, mv);
    }
  }

  lemma ModuleDirsMore(known: set<ModuleVersion>, mv: ModuleVersion)
    ensures ModuleDirs(known) + DirsOf(mv) == ModuleDirs(known + {mv})
  {
    hide DirsOf;
    assert forall d :: IsModuleDir(known + {mv}, d) <==> IsModuleDir(known, d) || d in DirsOf(mv);
  }

  lemma KnownDirsMore(known: set<ModuleVersion>, mv: ModuleVersion)
    ensures KnownDirs(known) + DirsOf(mv) == KnownDirs(known + {mv})
  {
    hide DirsOf, ModuleDirs, FIXED;
    ModuleDirsMore(known, mv);
    assert ModuleDirs(known) + FIXED + DirsOf(mv) == ModuleDirs(known) + DirsOf(mv) + FIXED;
  }

  // ----- the toolchain's directories

  ghost predicate IsSystem(oses: seq<string>, arches: seq<string>, d: string) {
    exists o, a :: o in oses && a in arches && d == SystemDir(o, a)
  }

  ghost function Systems(oses: seq<string>, arches: seq<string>): iset<string> {
    iset d | IsSystem(oses, arches, d)
  }

  lemma SystemsNone(oses: seq<string>, arches: seq<string>)
    requires oses == [] || arches == []
    ensures Systems(oses, arches) == iset{}
  {
  }

  lemma SystemsMoreArches(o: string, arches: seq<string>, a: string)
    ensures Systems([o], arches + [a]) == Systems([o], arches) + iset{SystemDir(o, a)}
  {
    hide SystemDir;
    forall d ensures IsSystem([o], arches + [a], d) <==> IsSystem([o], arches, d) || d == SystemDir(o, a) {
      assert o in [o] && a in arches + [a];
    }
  }

  lemma SystemsMoreOses(oses: seq<string>, o: string, arches: seq<string>)
    ensures Systems(oses + [o], arches) == Systems(oses, arches) + Systems([o], arches)
  {
    hide SystemDir;
    assert forall d :: IsSystem(oses + [o], arches, d) <==> IsSystem(oses, arches, d) || IsSystem([o], arches, d);
  }

  lemma AllSystems()
    ensures Systems(["linux", "darwin", "windows"], ["amd64", "arm64"]) == iset d | IsSystemDir(d)
  {
    hide SystemDir;
    forall o, a ensures ValidOSArch(o, a) <==> o in ["linux", "darwin", "windows"] && a in ["amd64", "arm64"] {
    }
    hide ValidOSArch;
    forall d ensures IsSystem(["linux", "darwin", "windows"], ["amd64", "arm64"], d) <==> IsSystemDir(d) {
    }
  }

  // ----- directories above a path

  ghost function NewAbove(s: string): iset<string> {
    iset d | d !in STOPS && Ancestor(d, s)
  }

  // One step up: the parent is the first directory above.
  lemma ClimbStep(s: string)
    requires Parent(s) == "" || CleanPath(Parent(s))
    ensures Dir(s) in {".", "cache", "cache/download"} <==> Parent(s) in STOPS
    ensures Parent(s) in STOPS ==> NewAbove(s) == iset{}
    ensures Parent(s) !in STOPS ==>
              && Dir(s) == Parent(s) && |Dir(s)| < |s|
              && (Parent(Dir(s)) == "" || CleanPath(Parent(Dir(s))))
              && NewAbove(s) == iset{Dir(s)} + NewAbove(Dir(s))
  {
    hide CleanPath, Parent, Dir, NewAbove;
    DirParent(s);
    DotIsNoDir();
    var p := Parent(s);
    if p in STOPS {
      NothingNewAbove(s);
    } else {
      Parts(p);
      CleanEnds(p);
      hide STOPS;
      NewAboveParent(s);
    }
  }

  lemma DotIsNoDir()
    ensures "." !in STOPS && !CleanPath(".") && !CleanPath("/")
  {
    hide CleanPath;
    if CleanPath(".") { CleanEnds("."); }
    if CleanPath("/") { CleanEnds("/"); }
  }

  lemma NothingNewAbove(s: string)
    requires Parent(s) in STOPS
    ensures NewAbove(s) == iset{}
  {
    hide Parent, STOPS, Below;
    forall d ensures d !in NewAbove(s) {
      if Below(d, Parent(s)) { AboveStop(d, Parent(s)); }
    }
  }

  lemma NewAboveParent(s: string)
    requires CleanPath(Parent(s)) && Parent(s) !in STOPS
    ensures NewAbove(s) == iset{Parent(s)} + NewAbove(Parent(s))
  {
    hide Parent, STOPS, CleanPath, Below;
    var p := Parent(s);
    forall d ensures d in NewAbove(s) <==> d in iset{p} + NewAbove(p) { AncestorIsBelow(d, p); }
  }

  lemma DirParent(s: string)
    ensures Dir(s) == "." ==> Parent(s) == ""
    ensures Parent(s) == "" ==> Dir(s) == "."
    ensures Parent(s) != "" ==> Dir(s) == Parent(s)
    ensures Parent(s) !in {"", "/"} ==> |Dir(s)| < |s|
  {
  }

  lemma AboveStop(d: string, p: string)
    requires p in STOPS && Below(d, p)
    ensures d in STOPS
  {
    hide Below;
    NothingAboveRoot(d);
    AboveCache(d);
    if p == "cache/download" { AboveDownload(d); }
  }

  lemma NothingAboveRoot(d: string)
    ensures !Below(d, "")
  {
  }

  lemma AboveCache(d: string)
    ensures Below(d, "cache") ==> d == ""
  {
    hide Below;
    assert '/' !in "cache";
    NothingBetween(d, "cache");
  }

  lemma AboveDownload(d: string)
    requires Below(d, "cache/download")
    ensures d == "" || d == "cache"
  {
    if d != "" { OneSlash(d, "cache", "download"); }
  }

  // Above a path of two names is the first one.
  lemma OneSlash(d: string, a: string, b: string)
    requires d != "" && Below(d, a + "/" + b) && '/' !in a && '/' !in b
    ensures d == a
  {
    var s := a + "/" + b;
    assert d + "/" == s[..|d| + 1];
    assert s[|d|] == '/';
    assert forall i :: 0 <= i < |a| ==> s[i] == a[i] && a[i] in a;
    assert forall i :: |a| < i < |s| ==> s[i] == b[i - |a| - 1] && s[i] in b;
    assert d == s[..|d|] && a == s[..|a|];
  }

  lemma ParentsAreClean(mv: ModuleVersion)
    requires ValidMV(mv)
    ensures CleanPath(Parent(CdPath(mv, "foo")))
    ensures ZipPrefix(mv).Some? ==> Parent(ZipPrefix(mv).value) == "" || CleanPath(Parent(ZipPrefix(mv).value))
  {
    hide CleanPath, Parent, CdPath, EscapeString, CheckPath, CheckVersion;
    CdParent(mv, "foo");
    CdDirIsClean(mv);
    VersionIsPlain(mv.ver);
    if TsgoTriple(mv).Some? {
      hide EscapePath, EscapeVersion;
      ToolchainVersion(mv);
      var t := TsgoTriple(mv).value;
      hide TsgoTriple;
      TsgoParent(t);
      SystemDirIsClean(t.os, t.arch);
    } else {
      hide TsgoTriple;
      ZipParent(EscapeString(mv.mod), EscapeString(mv.ver));
      ModuleIsClean(mv.mod);
      Parts(EscapeString(mv.mod));
    }
  }

  lemma ModuleIsClean(m: string)
    requires CheckPath(m)
    ensures CleanPath(EscapeString(m))
  {
    hide CleanPath, EscapeString;
    EscapedIsClean(m);
  }

  lemma SystemDirIsClean(os: string, arch: string)
    requires '/' !in os && '/' !in arch
    ensures CleanPath("tsgo-" + (os + "-" + arch))
  {
    hide CleanPath;
    var d := "tsgo-" + (os + "-" + arch);
    assert d[0] == 't';
    CleanNameIsPath(d);
  }

  lemma DirsAreAbove(mv: ModuleVersion)
    requires ZipPrefix(mv).Some?
    ensures DirsOf(mv) == NewAbove(CdPath(mv, "foo")) + NewAbove(ZipPrefix(mv).value)
  {
    hide Ancestor, CdPath, ZipPrefix;
  }
}
