// Handles survive a restart: which paths a fresh server recovers from their
// handle, exactly, and where it ends up for all other paths.

module HandleRestart {
  import opened Wrappers
  import opened Strings
  import opened Paths
  import opened ModNames
  import opened GmPaths
  import opened GmSources
  import opened GmAncestors
  import opened GitObjects
  import opened HandleSpec

  // What the server itself has a printed path for.
  datatype Name =
    | MetaFile(mv: ModuleVersion, ext: string)
    | Marker(mv: ModuleVersion)
    | InZip(mv: ModuleVersion, path: string)
    | Above(dir: string)

  function Print(nm: Name): string {
    match nm
    case MetaFile(mv, ext) => CdPath(mv, ext)
    case Marker(mv) => (if TsgoTriple(mv).Some? then TsgoZipRoot(TsgoTriple(mv).value) else "") + ".extracted"
    case InZip(mv, p) => EmptyPathJoin(if ZipPrefix(mv).Some? then ZipPrefix(mv).value else "", p)
    case Above(d) => d
  }

  function HandleOfName(nm: Name): NfsHandle {
    match nm
    case MetaFile(mv, ext) => Handle(HashMV(mv), WellKnown(ext))
    case Marker(mv) => Handle(HashMV(mv), WellKnown(WK_TSGO_EXTRACTED))
    case InZip(mv, p) => Handle(HashMV(mv), Sha(p))
    case Above(d) => Handle(ZeroHash, Sha(d))
  }

  // Of every valid module version, whether cached or not.
  ghost predicate GoodName(nm: Name) {
    match nm
    case MetaFile(mv, ext) => ValidMV(mv) && MetaExt(ext)
    case Marker(mv) => ValidMV(mv) && TsgoTriple(mv).Some?
    case InZip(mv, p) => ValidMV(mv) && InnerPath(p)
    case Above(d) => d in FIXED || exists mv :: ValidMV(mv) && d in DirsOf(mv)
  }

  // The store has the file or directory that nm names.
  ghost predicate Stored(known: set<ModuleVersion>, roots: map<ModuleVersion, MI.Handle>, nm: Name) {
    match nm
    case MetaFile(mv, ext) => mv in known && MetaExt(ext)
    case Marker(mv) => mv in known && TsgoTriple(mv).Some?
    case InZip(mv, p) => mv in known && mv in roots && Existing(FilesOf(roots[mv]), p)
    case Above(d) => d in KnownDirs(known)
  }

  // No version that starts with a dot, no module named tsgo-..., no toolchain
  // of an unknown system and no dot file below one.
  predicate Canonical(nm: Name) {
    match nm
    case MetaFile(mv, _) => !("." <= mv.ver)
    case Marker(mv) => TsgoTriple(mv).Some? && GoodTriple(TsgoTriple(mv).value)
    case InZip(mv, p) =>
      if TsgoTriple(mv).Some? then GoodTriple(TsgoTriple(mv).value) && !DotInner(p) else !("tsgo-" <= mv.mod)
    case Above(d) => !TsgoForm(d)
  }

  // ----- printed paths have their name's handle exactly if they are canonical

  // A path printed with a leading "tsgo-" has a module's handle only if it is
  // the toolchain's.
  lemma TsgoHandle(n: string, mv: ModuleVersion, x: Hash32)
    requires "tsgo-" <= n && PathHandle(n) == Handle(HashMV(mv), x) && '\0' !in mv.mod
    ensures OfGoodTriple(mv) && (x.Sha? && InnerPath(x.text) ==> !DotInner(x.text))
  {
    hide ParsePath, OfGoodTriple, InnerPath, DotInner, IsZip, IsExtracted;
    var pp := ParsePath(n);
    ParsedTsgo(n);
    ToolchainHasNoNul();
    HashMVInjective(mv, pp.mv);
    if IsZip(pp) { SecondOfZip(pp, n); } else { SecondOfExtracted(pp, n); }
  }

  lemma SecondOfZip(pp: GmPath, n: string)
    requires IsZip(pp)
    ensures Second(pp, n) == Sha(pp.path) && pp.inZip && !pp.notExist
  {
  }

  lemma SecondOfMeta(pp: GmPath, n: string)
    requires IsMeta(pp)
    ensures Second(pp, n) == WellKnown(pp.ext) && !pp.inZip && !pp.notExist
  {
    assert !MetaExt("");
  }

  lemma SecondOfExtracted(pp: GmPath, n: string)
    requires IsExtracted(pp)
    ensures Second(pp, n) == WellKnown(WK_TSGO_EXTRACTED) && !pp.inZip && !pp.notExist
  {
  }

  lemma MetaExact(mv: ModuleVersion, ext: string)
    requires ValidMV(mv) && MetaExt(ext)
    ensures PathHandle(CdPath(mv, ext)) == HandleOfName(MetaFile(mv, ext)) <==> !("." <= mv.ver)
  {
    hide ValidMV, ParsePath, CdPath, MetaExt, Second;
    ParseCdPath(mv, ext);
    ValidHasNoNul(mv);
    var pp := PLAIN.(ext := ext, mv := mv);
    assert IsMeta(pp);
    SecondOfMeta(pp, CdPath(mv, ext));
  }

  lemma ToolchainVersion(mv: ModuleVersion)
    requires ValidMV(mv) && TsgoTriple(mv).Some?
    ensures mv == TsgoMV(TsgoTriple(mv).value) && TripleShape(TsgoTriple(mv).value)
  {
    hide CheckPath, CheckVersion, EscapeString, TsgoTriple, TripleShape, TsgoMV;
    VersionIsPlain(mv.ver);
    TripleIsVersion(mv);
  }

  lemma MarkerExact(mv: ModuleVersion)
    requires ValidMV(mv) && TsgoTriple(mv).Some?
    ensures PathHandle(Print(Marker(mv))) == HandleOfName(Marker(mv)) <==> OfGoodTriple(mv)
  {
    hide ValidMV, ParsePath, TsgoTriple, GoodTriple, Second, TsgoVersion;
    var t := TsgoTriple(mv).value;
    var n := Print(Marker(mv));
    ValidHasNoNul(mv);
    ToolchainVersion(mv);
    if GoodTriple(t) {
      ParseTsgoExtracted(t);
      var pp := PLAIN.(mv := mv, wellKnown := WK_TSGO_EXTRACTED);
      assert IsExtracted(pp);
      SecondOfExtracted(pp, n);
    } else {
      TsgoRootPrefix(t, ".extracted");
      if PathHandle(n) == HandleOfName(Marker(mv)) {
        TsgoHandle(n, mv, WellKnown(WK_TSGO_EXTRACTED));
      }
    }
  }

  lemma TsgoRootPrefix(t: Triple, more: string)
    ensures "tsgo-" <= TsgoZipRoot(t) + more && "tsgo-" <= EmptyPathJoin(TsgoZipRoot(t), more)
  {
  }

  lemma ZipHandle(mv: ModuleVersion, p: string, n: string)
    requires ParsePath(n) == Zip(mv, p) && mv.mod != ""
    ensures PathHandle(n) == HandleOfName(InZip(mv, p))
  {
    hide ParsePath, Second;
    assert IsZip(Zip(mv, p));
    SecondOfZip(Zip(mv, p), n);
  }

  lemma InZipExact(mv: ModuleVersion, p: string)
    requires ValidMV(mv) && InnerPath(p)
    ensures PathHandle(Print(InZip(mv, p))) == HandleOfName(InZip(mv, p)) <==> Canonical(InZip(mv, p))
  {
    ValidHasNoNul(mv);
    hide ValidMV, ParsePath, PathHandle, HandleOfName, InnerPath;
    hide TsgoTriple, GoodTriple, EmptyPathJoin, DotInner, TsgoMV;
    var n := Print(InZip(mv, p));
    if Canonical(InZip(mv, p)) {
      ZipParses(mv, p);
      hide Print;
      ZipHandle(mv, p, n);
    } else {
      PrintsTsgo(mv, p);
      hide Print;
      if PathHandle(n) == HandleOfName(InZip(mv, p)) {
        HandleOfZip(mv, p);
        TsgoHandle(n, mv, Sha(p));
      }
    }
  }

  lemma HandleOfZip(mv: ModuleVersion, p: string)
    ensures HandleOfName(InZip(mv, p)) == Handle(HashMV(mv), Sha(p))
  {
  }

  lemma ZipParses(mv: ModuleVersion, p: string)
    requires ValidMV(mv) && InnerPath(p) && Canonical(InZip(mv, p))
    ensures ParsePath(Print(InZip(mv, p))) == Zip(mv, p)
  {
    hide ValidMV, ParsePath, InnerPath, TsgoTriple, GoodTriple, EmptyPathJoin, DotInner, TsgoMV, EscapeString;
    if TsgoTriple(mv).Some? {
      ToolchainVersion(mv);
      ParseTsgoZip(TsgoTriple(mv).value, p);
    } else {
      ParseZipPath(mv, p);
    }
  }

  lemma PrintsTsgo(mv: ModuleVersion, p: string)
    requires ValidMV(mv) && !Canonical(InZip(mv, p))
    ensures "tsgo-" <= Print(InZip(mv, p))
  {
    if TsgoTriple(mv).Some? {
      hide TsgoTriple;
      TsgoRootPrefix(TsgoTriple(mv).value, p);
    } else {
      hide TsgoTriple;
      PrintsTsgoModule(EscapeString(mv.mod), EscapeString(mv.ver), p);
      EscapedModuleShape(mv.mod);
    }
  }

  lemma PrintsTsgoModule(m: string, v: string, p: string)
    ensures "tsgo-" <= m ==> "tsgo-" <= EmptyPathJoin(m + "@" + v, p)
  {
    var z := m + "@" + v;
    if "tsgo-" <= m {
      PrefixTransitive("tsgo-", m, z);
      PrefixTransitive("tsgo-", z, EmptyPathJoin(z, p));
    }
  }

  lemma PrefixTransitive(a: string, b: string, c: string)
    requires a <= b && b <= c
    ensures a <= c
  {
  }

  // ----- directories

  lemma AboveZip(mv: ModuleVersion, d: string)
    requires ValidMV(mv) && ZipPrefix(mv).Some? && Ancestor(d, ZipPrefix(mv).value) && d != ""
    ensures ParsePath(d) == PLAIN <==> !TsgoForm(d)
  {
    VersionIsPlain(mv.ver);
    AncestorPrefix(d, ZipPrefix(mv).value);
    hide ParsePath, EscapeString, TsgoForm, Ancestor, CheckVersion, CheckPath, Plain, Parent;
    if TsgoTriple(mv).Some? {
      ToolchainVersion(mv);
      var t := TsgoTriple(mv).value;
      hide TsgoTriple;
      TsgoParent(t);
      TsgoDirIsPlain(t.os, t.arch);
      assert d == SystemDir(t.os, t.arch);
    } else {
      var m, v := EscapeString(mv.mod), EscapeString(mv.ver);
      hide TsgoTriple;
      ZipParent(m, v);
      ParseAboveModule(mv.mod, d);
    }
  }

  lemma AboveCd(mv: ModuleVersion, d: string)
    requires ValidMV(mv) && Ancestor(d, CdPath(mv, "foo")) && d !in STOPS
    ensures ParsePath(d) == PLAIN && !TsgoForm(d)
  {
    CdParent(mv, "foo");
    AncestorPrefix(d, CdPath(mv, "foo"));
    hide ParsePath, TsgoForm, ValidMV, Ancestor;
    ParseAboveCd(mv, d);
  }

  lemma FixedDirs(d: string)
    requires d in FIXED && d != STATUS_FILE
    ensures ParsePath(d) == PLAIN && !TsgoForm(d) && d != ""
  {
    hide ParsePath, TsgoForm;
    CacheIsPlain();
    if IsSystemDir(d) {
      var os, arch :| ValidOSArch(os, arch) && d == SystemDir(os, arch);
      SystemHasNoSlash(os, arch);
      TsgoDirIsPlain(os, arch);
    }
  }

  lemma SystemHasNoSlash(os: string, arch: string)
    requires ValidOSArch(os, arch)
    ensures '/' !in os && '/' !in arch
  {
  }

  lemma AboveExact(d: string)
    requires GoodName(Above(d))
    ensures PathHandle(d) == HandleOfName(Above(d)) <==> !TsgoForm(d)
    ensures d != ""
  {
    hide ParsePath, FIXED, TsgoForm, Ancestor, ValidMV, CdPath, ZipPrefix;
    StatusIsPlain();
    if d == STATUS_FILE {
      StatusForm();
    } else {
      if d in FIXED {
        FixedDirs(d);
      } else {
        var mv :| ValidMV(mv) && d in DirsOf(mv);
        if Ancestor(d, CdPath(mv, "foo")) { AboveCd(mv, d); } else { AboveZip(mv, d); }
      }
      if ParsePath(d) != PLAIN && PathHandle(d) == HandleOfName(Above(d)) { PlainOtherwise(d); }
    }
  }

  lemma StatusForm()
    ensures !TsgoForm(STATUS_FILE) && STATUS_FILE != ""
  {
    assert STATUS_FILE[0] == '.';
  }

  lemma NameExact(nm: Name)
    requires GoodName(nm)
    ensures PathHandle(Print(nm)) == HandleOfName(nm) <==> Canonical(nm)
    ensures Print(nm) != ""
  {
    match nm
    case MetaFile(mv, ext) => MetaExact(mv, ext); PrintNotEmpty(nm);
    case Marker(mv) => MarkerExact(mv); PrintNotEmpty(nm);
    case InZip(mv, p) => InZipExact(mv, p); PrintNotEmpty(nm);
    case Above(d) => AboveExact(d);
  }

  lemma PrintNotEmpty(nm: Name)
    requires GoodName(nm) && !nm.Above?
    ensures Print(nm) != ""
  {
    hide TsgoTriple, CheckPath, CheckVersion, EscapeString;
  }

  // ----- recovery gives back exactly the stored names

  ghost predicate Sound(known: set<ModuleVersion>, roots: map<ModuleVersion, MI.Handle>) {
    && (forall mv :: mv in known ==> ValidMV(mv))
    && (forall mv :: mv in roots ==> GoodRoot(roots[mv]))
  }

  lemma StoredIsGood(known: set<ModuleVersion>, roots: map<ModuleVersion, MI.Handle>, nm: Name)
    requires Sound(known, roots) && Stored(known, roots, nm)
    ensures GoodName(nm)
  {
    hide ValidMV, FIXED, DirsOf;
    if nm.InZip? { ExistingIsInner(roots[nm.mv], nm.path); }
  }

  lemma ExistingIsInner(h: MI.Handle, p: string)
    requires GoodRoot(h) && Existing(FilesOf(h), p)
    ensures InnerPath(p)
  {
    var f := FilesOf(h);
    hide CleanPath, FilesOf, ValidFiles;
    if p in f {
      FileIsClean(f, p);
    } else if p != "" {
      var q :| q in f && Below(p, q);
      FileIsClean(f, q);
      CleanRest(p, q);
    }
  }

  lemma HasZipPrefix(mv: ModuleVersion)
    requires ValidMV(mv)
    ensures ZipPrefix(mv).Some?
  {
    hide TsgoTriple;
  }

  lemma RecoverStored(known: set<ModuleVersion>, roots: map<ModuleVersion, MI.Handle>, nm: Name)
    requires Sound(known, roots) && Stored(known, roots, nm)
    ensures Recover(known, roots, HandleOfName(nm)) == Ok(Print(nm))
  {
    hide ValidMV, KnownDirs, ZipPrefix, CdPath, TsgoTriple, HashMV, GoodRoot, Existing, MvFor;
    MarkerIsNoExt();
    if !nm.Above? {
      MvForIs(known, nm.mv);
      HasZipPrefix(nm.mv);
      HashMVIsSha(nm.mv);
    }
  }

  lemma MarkerIsNoExt()
    ensures !MetaExt(WK_TSGO_EXTRACTED)
  {
  }

  lemma HashMVIsSha(mv: ModuleVersion)
    ensures HashMV(mv).Sha?
  {
  }

  lemma RecoverOnlyStored(known: set<ModuleVersion>, roots: map<ModuleVersion, MI.Handle>, h: NfsHandle)
    returns (nm: Name)
    requires Sound(known, roots) && h.Handle? && Recover(known, roots, h).Ok?
    ensures Stored(known, roots, nm) && HandleOfName(nm) == h && Recover(known, roots, h) == Ok(Print(nm))
  {
    hide ValidMV, KnownDirs, ZipPrefix, CdPath, TsgoTriple, HashMV, GoodRoot, Existing;
    if h.mv == ZeroHash {
      nm := Above(h.path.text);
    } else {
      var mv := MvFor(known, h.mv).value;
      MarkerIsNoExt();
      if h.path.Sha? {
        nm := InZip(mv, h.path.text);
      } else if h.path.WellKnown? && MetaExt(h.path.name) {
        nm := MetaFile(mv, h.path.name);
      } else {
        nm := Marker(mv);
      }
    }
  }

  // A fresh server over the same store recovers a path from its handle exactly
  // if the path is printed for a stored file or directory with a canonical name.
  lemma RestartExact(known: set<ModuleVersion>, roots: map<ModuleVersion, MI.Handle>, n: string)
    requires Sound(known, roots) && PathHandle(n).Handle?
    ensures Recover(known, roots, PathHandle(n)) == Ok(n) <==>
            exists nm :: Stored(known, roots, nm) && Canonical(nm) && Print(nm) == n
  {
    hide Sound, Stored, Canonical, Print, Recover, HandleOfName, PathHandle, GoodName;
    if Recover(known, roots, PathHandle(n)) == Ok(n) {
      var nm := RecoverOnlyStored(known, roots, PathHandle(n));
      StoredIsGood(known, roots, nm);
      NameExact(nm);
    }
    forall nm | Stored(known, roots, nm) && Canonical(nm) && Print(nm) == n
      ensures Recover(known, roots, PathHandle(n)) == Ok(n)
    {
      StoredIsGood(known, roots, nm);
      NameExact(nm);
      RecoverStored(known, roots, nm);
    }
  }

  // ----- where the answer leads for any other path

  // A toolchain's file reached by its module path, when its own path is none.
  predicate AtTsgo(n: string) {
    var pp := ParsePath(n);
    && !("tsgo-" <= n) && pp.inZip && TsgoTriple(pp.mv).Some?
    && (!GoodTriple(TsgoTriple(pp.mv).value) || DotInner(pp.path))
  }

  // The handle of a path has the module and the shape of the path.
  lemma HandleShows(n: string, mv: ModuleVersion, x: Hash32)
    requires ValidMV(mv) && PathHandle(n) == Handle(HashMV(mv), x)
    ensures var pp := ParsePath(n);
            && NamesModule(pp) && pp.mv == mv
            && (x.Sha? <==> IsZip(pp)) && (x == WellKnown(WK_TSGO_EXTRACTED) <==> IsExtracted(pp))
            && (IsZip(pp) ==> x == Sha(pp.path)) && (IsMeta(pp) <==> x.WellKnown? && MetaExt(x.name))
  {
    hide ValidMV, ParsePath, IsZip, IsMeta, IsExtracted, Second, MetaExt;
    ValidHasNoNul(mv);
    var pp := ParsePath(n);
    ParsedShape(n);
    HashMVInjective(mv, pp.mv);
    MarkerIsNoExt();
    if IsZip(pp) {
      SecondOfZip(pp, n);
    } else if IsMeta(pp) {
      SecondOfMeta(pp, n);
      MetaHasExt(pp);
    } else {
      SecondOfExtracted(pp, n);
    }
    if IsMeta(pp) { SecondOfMeta(pp, n); MetaHasExt(pp); }
    if IsExtracted(pp) { SecondOfExtracted(pp, n); }
  }

  lemma MetaHasExt(pp: GmPath)
    requires IsMeta(pp)
    ensures MetaExt(pp.ext)
  {
  }

  // Of the names that are not canonical, only those of AtTsgo are the name of
  // some path's handle.
  lemma ReachedNames(nm: Name, n: string)
    requires GoodName(nm) && HandleOfName(nm) == PathHandle(n)
    ensures Canonical(nm) <==> !AtTsgo(n)
  {
    hide ValidMV, ParsePath, IsZip, IsMeta, IsExtracted, HashMV;
    hide PathHandle, TsgoTriple, GoodTriple, DotInner, FIXED;
    match nm
    case Above(d) => ReachedDir(d, n);
    case MetaFile(mv, ext) =>
      HandleShows(n, mv, WellKnown(ext));
      ReachedMeta(n);
    case Marker(mv) =>
      HandleShows(n, mv, WellKnown(WK_TSGO_EXTRACTED));
      ReachedMarker(n);
    case InZip(mv, p) =>
      HandleShows(n, mv, Sha(p));
      SecondOfZip(ParsePath(n), n);
      if "tsgo-" <= n {
        ValidHasNoNul(mv);
        TsgoHandle(n, mv, Sha(p));
      } else {
        ReachedZip(n);
      }
  }

  lemma ReachedDir(d: string, n: string)
    requires GoodName(Above(d)) && PathHandle(n) == Handle(ZeroHash, Sha(d))
    ensures !TsgoForm(d) && !ParsePath(n).inZip
  {
    hide ParsePath, FIXED, TsgoForm, DirsOf, ValidMV, IsZip, IsMeta, IsExtracted, Second;
    ParsedShape(n);
    StatusIsPlain();
    HashMVIsSha(ParsePath(n).mv);
    PlainSecond(ParsePath(n), n);
    assert d == n;
    AboveExact(d);
  }

  lemma ReachedMeta(n: string)
    requires NamesModule(ParsePath(n)) && IsMeta(ParsePath(n))
    ensures !("." <= ParsePath(n).mv.ver) && !ParsePath(n).inZip
  {
    hide ParsePath, IsMeta, IsZip, IsExtracted, ValidMV, OfGoodTriple;
    var pp := ParsePath(n);
    SecondOfMeta(pp, n);
    if "tsgo-" <= n {
      ParsedTsgo(n);
      if IsZip(pp) { SecondOfZip(pp, n); } else { SecondOfExtracted(pp, n); MetaHasExt(pp); MarkerIsNoExt(); }
    } else if "cache/download/" <= n {
      ParsedDownload(n);
    } else {
      ParsedZip(n);
      SecondOfZip(pp, n);
    }
  }

  lemma ReachedMarker(n: string)
    requires NamesModule(ParsePath(n)) && IsExtracted(ParsePath(n))
    ensures OfGoodTriple(ParsePath(n).mv) && !ParsePath(n).inZip
  {
    hide ParsePath, IsMeta, IsZip, IsExtracted, ValidMV, OfGoodTriple;
    var pp := ParsePath(n);
    SecondOfExtracted(pp, n);
    if "tsgo-" <= n {
      ParsedTsgo(n);
    } else if "cache/download/" <= n {
      ParsedDownload(n);
      SecondOfMeta(pp, n);
      MetaHasExt(pp);
      MarkerIsNoExt();
    } else {
      ParsedZip(n);
      SecondOfZip(pp, n);
    }
  }

  lemma ReachedZip(n: string)
    requires NamesModule(ParsePath(n)) && IsZip(ParsePath(n)) && !("tsgo-" <= n)
    ensures !("tsgo-" <= ParsePath(n).mv.mod)
  {
    hide ParsePath, IsMeta, IsZip, ValidMV;
    var pp := ParsePath(n);
    SecondOfZip(pp, n);
    if "cache/download/" <= n {
      ParsedDownload(n);
      SecondOfMeta(pp, n);
    } else {
      ParsedZip(n);
    }
  }

  // Whatever path a handle was made for: if a fresh server answers at all, the
  // answer leads to the same place, except for the paths of AtTsgo.
  lemma AnswerLeadsBack(known: set<ModuleVersion>, roots: map<ModuleVersion, MI.Handle>, n: string)
    requires Sound(known, roots) && PathHandle(n).Handle? && Recover(known, roots, PathHandle(n)).Ok?
    ensures SamePlace(Recover(known, roots, PathHandle(n)).value, n) <==> !AtTsgo(n)
  {
    hide Sound, Stored, Canonical, Print, Recover, HandleOfName, PathHandle, GoodName, SamePlace, AtTsgo;
    var h := PathHandle(n);
    var nm := RecoverOnlyStored(known, roots, h);
    StoredIsGood(known, roots, nm);
    NameExact(nm);
    ReachedNames(nm, n);
    HandlesAreNames(Print(nm), n);
  }

  // ----- the exception happens

  lemma ToolchainModule()
    ensures CheckPath(TSGO_MODULE)
  {
    hide CheckPath, ModElems, Cut, ModElem;
    var b := "tailscale/go";
    assert TSGO_MODULE == "github.com" + ['/'] + b;
    assert b == "tailscale" + ['/'] + "go";
    PlainElem("github.com");
    PlainElem("tailscale");
    PlainElem("go");
    ElemsOf("go", "");
    ElemsOf("tailscale", "go");
    ElemsOf("github.com", b);
    CheckOf("github.com", b);
  }

  lemma PlainElem(e: string)
    requires e != "" && e[0] != '.' && e[|e| - 1] != '.' && forall i :: 0 <= i < |e| ==> Lower(e[i]) || e[i] == '.'
    ensures ModElem(e)
  {
  }

  lemma ElemsOf(a: string, b: string)
    requires '/' !in a && ModElem(a) && (b != "" ==> ModElems(b))
    ensures ModElems(if b == "" then a else a + ['/'] + b)
  {
    hide ModElem;
    if b == "" { CutNothing(a, '/'); } else { CutIsUnique(a, '/', b); }
  }

  lemma CheckOf(a: string, b: string)
    requires ModElems(a + ['/'] + b) && '/' !in a && '.' in a && a[0] != '-'
    requires forall i :: 0 <= i < |a| ==> Lower(a[i]) || a[i] == '.'
    ensures CheckPath(a + ['/'] + b)
  {
    hide ModElems;
    CutIsUnique(a, '/', b);
  }

  lemma ToolchainIsValid(t: Triple)
    requires GoodTriple(t)
    ensures ValidMV(TsgoMV(t)) && TsgoTriple(TsgoMV(t)) == Some(t)
  {
    GoodTripleShape(t);
    ValidArchHasNoDash(t.os, t.arch);
    SystemHasNoDash(t);
    TripleOfVersion(t);
    hide TsgoTriple, CheckPath, EscapeString;
    ToolchainModule();
    ToolchainVersionChars(t);
  }

  lemma SystemHasNoDash(t: Triple)
    requires GoodTriple(t)
    ensures '-' !in t.os && '-' !in t.arch
  {
    hide AllHex;
  }

  lemma ToolchainVersionChars(t: Triple)
    requires GoodTriple(t)
    ensures CheckVersion(TsgoVersion(t)) && '!' !in TsgoVersion(t)
  {
    hide HexChar;
    forall c | c in TsgoVersion(t) ensures FileCharOK(c) && c != '!' && c != '.' { ToolchainChar(t, c); }
    hide TsgoVersion, FileCharOK;
    var v := TsgoVersion(t);
    assert v != "" by { VersionStarts(t); }
    assert forall i :: 0 <= i < |v| ==> v[i] in v;
  }

  lemma VersionStarts(t: Triple)
    ensures "tsgo-" <= TsgoVersion(t)
  {
  }

  lemma ToolchainChar(t: Triple, c: char)
    requires GoodTriple(t) && c in TsgoVersion(t)
    ensures FileCharOK(c) && c != '!' && c != '.'
  {
    if c in t.hash {
      var i :| 0 <= i < |t.hash| && t.hash[i] == c;
      assert HexChar(c);
    } else {
      assert c in "tsgo-" || c in t.os || c in t.arch;
      assert c == '-' || Lower(c) || Digit(c);
    }
  }

  // The dot file p of a toolchain, named by way of the module path.
  function ByModulePath(t: Triple, p: string): string {
    EscapeString(TSGO_MODULE) + ['@'] + (EscapeString(TsgoVersion(t)) + ['/'] + p)
  }

  // It parses as that file, yet its handle leads a fresh server to a path that
  // parsePath takes for missing.
  lemma DotFileIsLost(t: Triple, p: string, known: set<ModuleVersion>, roots: map<ModuleVersion, MI.Handle>)
    requires GoodTriple(t) && CleanPath(p) && DotInner(p)
    requires Sound(known, roots) && Stored(known, roots, InZip(TsgoMV(t), p))
    ensures var n := ByModulePath(t, p);
            && ParsePath(n) == Zip(TsgoMV(t), p) && AtTsgo(n)
            && Recover(known, roots, PathHandle(n)) == Ok(EmptyPathJoin(TsgoZipRoot(t), p))
            && ParsePath(EmptyPathJoin(TsgoZipRoot(t), p)).notExist
  {
    hide GoodTriple, CleanPath, ParsePath, Recover, Stored, Sound;
    hide PathHandle, HandleOfName, DotInner, TsgoTriple, TsgoMV, EmptyPathJoin, TsgoZipRoot, ValidMV;
    ToolchainIsValid(t);
    ByModuleParses(t, p);
    hide ByModulePath;
    var mv, n := TsgoMV(t), ByModulePath(t, p);
    ValidHasNoNul(mv);
    ZipHandle(mv, p, n);
    RecoverStored(known, roots, InZip(mv, p));
    PrintsRoot(t, p);
    hide Print, GoodName, Canonical, AtTsgo;
    LostPath(t, p);
    InnerNameIsGood(mv, p);
    ReachedNames(InZip(mv, p), n);
    NotCanonical(t, p);
  }

  lemma PrintsRoot(t: Triple, p: string)
    requires TsgoTriple(TsgoMV(t)) == Some(t)
    ensures Print(InZip(TsgoMV(t), p)) == EmptyPathJoin(TsgoZipRoot(t), p)
    ensures HandleOfName(InZip(TsgoMV(t), p)).Handle?
  {
    hide TsgoTriple, TsgoMV, TsgoZipRoot, EmptyPathJoin;
  }

  lemma NotCanonical(t: Triple, p: string)
    requires TsgoTriple(TsgoMV(t)) == Some(t) && DotInner(p)
    ensures !Canonical(InZip(TsgoMV(t), p))
  {
    hide TsgoTriple, TsgoMV, DotInner;
  }

  lemma InnerNameIsGood(mv: ModuleVersion, p: string)
    requires ValidMV(mv) && CleanPath(p)
    ensures GoodName(InZip(mv, p))
  {
  }

  lemma ByModuleParses(t: Triple, p: string)
    requires GoodTriple(t) && CleanPath(p)
    ensures ParsePath(ByModulePath(t, p)) == Zip(TsgoMV(t), p)
  {
    ToolchainIsValid(t);
    EscapedModuleShape(TSGO_MODULE);
    ToolchainStart();
    var mv := TsgoMV(t);
    EscapedNamesComeBack(mv);
    VersionIsPlain(mv.ver);
    TrimClean(p);
    hide CheckPath, CheckVersion, EscapeString, UnescapeString, CleanPath, EarlyDot;
    hide ParsePath, TrimSlash, Plain, TsgoVersion, GoodTriple;
    var m, v := EscapeString(mv.mod), EscapeString(mv.ver);
    ParsePathZip(m, v + ['/'] + p);
    CutIsUnique(v, '/', p);
  }

  lemma ToolchainStart()
    ensures !("tsgo-" <= TSGO_MODULE)
  {
    assert TSGO_MODULE[0] == 'g';
  }

  lemma LostPath(t: Triple, p: string)
    requires GoodTriple(t) && CleanPath(p) && DotInner(p)
    ensures ParsePath(EmptyPathJoin(TsgoZipRoot(t), p)).notExist
  {
    GoodTripleShape(t);
    hide ParsePath, ParseTsgo, Base, TsgoName, CleanPath, GoodTriple;
    TsgoZipName(t, p);
    TsgoBase(t, t.hash, p);
    ParsePathTsgo(TsgoName(t, t.hash, p));
  }

  // A module of one empty file.
  function OneFile(name: string): MI.Handle {
    var m := MI.Meta(0, FileMode(Regular, 0x1A4));
    MI.Remote(map[name := m], map["" := [MI.Dirent(name, m.mode, m.size)]])
  }

  lemma OneFileIsGood(name: string)
    requires CleanName(name)
    ensures GoodRoot(OneFile(name)) && Existing(FilesOf(OneFile(name)), name)
  {
    var f := OneFile(name).files;
    var e := MI.Dirent(name, f[name].mode, f[name].size);
    CleanNameIsPath(name);
    JoinBelow("", name);
    forall d ensures IsDirIn(f, d) <==> d == "" {
      assert IsDirIn(f, d) <==> Below(d, name);
      NothingBetween(d, name);
    }
    hide CleanPath;
    forall x ensures MI.Child(f, "", x, MI.REMOTE_DIR) <==> x == e {
      assert Under("", x.name) == x.name;
    }
    assert MI.Listing([e], f, "", MI.REMOTE_DIR);
  }

  lemma NothingBetween(d: string, name: string)
    requires CleanName(name)
    ensures Below(d, name) <==> d == ""
  {
    assert d != "" && Below(d, name) ==> '/' in Pre(d) && forall c :: c in Pre(d) ==> c in name;
  }

  lemma OneModuleStored(mv: ModuleVersion, g: MI.Handle, p: string)
    requires ValidMV(mv) && GoodRoot(g) && Existing(FilesOf(g), p)
    ensures Sound({mv}, map[mv := g]) && Stored({mv}, map[mv := g], InZip(mv, p))
  {
    hide ValidMV, GoodRoot, Existing, FilesOf;
  }

  // A store that has just a toolchain with the dot file p meets what
  // DotFileIsLost asks for.
  lemma DotFileStored(t: Triple, p: string)
    requires GoodTriple(t) && CleanName(p) && "." <= p
    ensures CleanPath(p) && DotInner(p) && ValidMV(TsgoMV(t)) && GoodRoot(OneFile(p))
    ensures var roots := map[TsgoMV(t) := OneFile(p)];
            Sound({TsgoMV(t)}, roots) && Stored({TsgoMV(t)}, roots, InZip(TsgoMV(t), p))
  {
    hide CleanPath, Base, ValidMV, GoodTriple, GoodRoot, Existing, FilesOf, OneFile, TsgoMV, Sound, Stored;
    CleanNameIsPath(p);
    BaseIs("", p);
    ToolchainIsValid(t);
    OneFileIsGood(p);
    OneModuleStored(TsgoMV(t), OneFile(p), p);
  }

  // For example .gitattributes of a Linux toolchain.
  lemma DotFileExample()
    ensures GoodTriple(Triple("linux", "amd64", seq(40, _ => 'a')))
    ensures CleanName(".gitattributes") && "." <= ".gitattributes"
  {
  }
}
