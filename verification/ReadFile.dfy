// Reading a file by its NFS handle, from the handle to the contents in git
// (nfs.go 543-578 and 645-723, gomodfs.go 442-536): the server's handles, its
// read cache, the module index and the object table together. Downloads fail.

module ReadFile {
  import opened Wrappers
  import opened Strings
  import opened Paths
  import opened ModNames
  import opened GmPaths
  import opened GmSources
  import opened GitObjects
  import opened HandleSpec
  import opened HandleRestart
  import opened DirIndex
  import opened NfsHandles
  import opened HandleRuns
  import LruSpec
  import CS = ReadCacheSpec
  import RC = ReadCache
  import MI = ModIndex
  import GS = GitStore
  import PM = PutModule
  import PS = PackSender

  type Mods = map<ModuleVersion, Files>

  type File = CS.CachedFile<FileMode>

  datatype ReadError = UnknownHandle | NotFound | IsDirectory | NotAFile | Failed

  // The bytes of an object without references.
  function Text(t: seq<Tok>): string {
    seq(|t|, i requires 0 <= i < |t| => if t[i].Ch? then t[i].c else '\0')
  }

  lemma TextOfLit(s: string)
    ensures Text(Lit(s)) == s
  {
  }

  type Roots = map<ModuleVersion, MI.Handle>

  // ----- getZipRoot, when downloads fail

  const TOOLCHAIN := "golang.org/toolchain"

  // strings.SplitN on a one-byte separator
  function SplitN(s: string, c: char, n: nat): (r: seq<string>)
    requires n > 0
    ensures 0 < |r| <= n
  {
    if n == 1 || !Cut(s, c).found then [s]
    else [Cut(s, c).before] + SplitN(Cut(s, c).after, c, n - 1)
  }

  predicate IsTailscaleGo(mv: ModuleVersion) {
    mv.mod == TSGO_MODULE && "tsgo-" <= mv.ver
  }

  // The store's part of getTailscaleGoRoot, of the pieces of the version.
  function TailscaleGoRoot(roots: Roots, parts: seq<string>): Result<MI.Handle, ReadError>
    requires |parts| == 4
  {
    var mv := ModuleVersion(TSGO_MODULE, "tsgo-" + parts[1] + "-" + parts[2] + "-" + parts[3]);
    if mv in roots then Ok(roots[mv]) else Err(Failed)
  }

  function StoreRoot(roots: Roots, mv: ModuleVersion, readOnly: bool): Result<MI.Handle, ReadError> {
    if IsTailscaleGo(mv) then
      var parts := SplitN(mv.ver, '-', 4);
      if |parts| != 4 then Err(Failed) else TailscaleGoRoot(roots, parts)
    else if mv !in roots then Err(Failed)
    else if mv.mod == TOOLCHAIN && !readOnly && MI.Stat(roots[mv], "src/go.mod") == Err(MI.NotExist) then Err(Failed)
    else Ok(roots[mv])
  }

  function ZipRoot(cached: Roots, roots: Roots, mv: ModuleVersion, readOnly: bool): Result<MI.Handle, ReadError> {
    if mv in cached then Ok(cached[mv]) else StoreRoot(roots, mv, readOnly)
  }

  // The stored modules whose root getZipRoot gives: a toolchain of Tailscale's
  // must have a version of four parts, and one of Go's a go.mod file unless the
  // server is read-only.
  ghost predicate Served(mv: ModuleVersion, z: Files, readOnly: bool) {
    if IsTailscaleGo(mv) then TsgoTriple(mv).Some?
    else mv.mod == TOOLCHAIN && !readOnly ==> "src/go.mod" in z || IsDirIn(z, "src/go.mod")
  }

  lemma SplitsInFour(mv: ModuleVersion)
    requires IsTailscaleGo(mv)
    ensures var parts := SplitN(mv.ver, '-', 4);
            && (|parts| == 4 <==> TsgoTriple(mv).Some?)
            && (|parts| == 4 ==> mv.ver == "tsgo-" + parts[1] + "-" + parts[2] + "-" + parts[3])
  {
    hide SplitN, TsgoTriple, Cut;
    var rest := mv.ver[5..];
    assert mv.ver == "tsgo-" + rest;
    FirstPart(rest);
    SplitThree(rest);
    TripleOfRest(mv, rest);
    var a := Cut(rest, '-');
    var b := Cut(a.after, '-');
    if a.found && b.found { JoinFour(a.before, b.before, b.after, rest); }
  }

  lemma FirstPart(rest: string)
    ensures SplitN("tsgo-" + rest, '-', 4) == ["tsgo"] + SplitN(rest, '-', 3)
  {
    assert "tsgo-" + rest == "tsgo" + ['-'] + rest;
    CutIsUnique("tsgo", '-', rest);
    hide Cut;
  }

  lemma TripleOfRest(mv: ModuleVersion, rest: string)
    requires mv.mod == TSGO_MODULE && mv.ver == "tsgo-" + rest
    ensures TsgoTriple(mv).Some? <==> Cut(rest, '-').found && Cut(Cut(rest, '-').after, '-').found
  {
    hide Cut;
    PrefixCut("tsgo-", rest);
  }

  lemma JoinFour(a: string, b: string, c: string, rest: string)
    requires rest == a + ['-'] + (b + ['-'] + c)
    ensures "tsgo-" + rest == "tsgo-" + a + "-" + b + "-" + c
  {
  }

  lemma SplitThree(rest: string)
    ensures var a := Cut(rest, '-');
            var b := Cut(a.after, '-');
            SplitN(rest, '-', 3) ==
            if !a.found then [rest] else if !b.found then [a.before, a.after] else [a.before, b.before, b.after]
  {
    hide Cut;
    var a := Cut(rest, '-');
    var b := Cut(a.after, '-');
    if a.found {
      assert SplitN(rest, '-', 3) == [a.before] + SplitN(a.after, '-', 2);
      if b.found { assert SplitN(a.after, '-', 2) == [b.before] + SplitN(b.after, '-', 1); }
    }
  }

  // Of a stored module, exactly the served ones come from the store.
  lemma StoreRootIs(roots: Roots, mv: ModuleVersion, z: Files, readOnly: bool)
    requires mv in roots && roots[mv].Git? && MI.HandleOf(roots[mv], GS.GitMeta(z))
    ensures StoreRoot(roots, mv, readOnly) == if Served(mv, z, readOnly) then Ok(roots[mv]) else Err(Failed)
  {
    if IsTailscaleGo(mv) {
      hide SplitN, TsgoTriple;
      SplitsInFour(mv);
    } else {
      GS.GitMetaDirs(z, "src/go.mod");
      hide Base, Below;
    }
  }

  // ----- getFileContentsUncached

  // From the root on; what the status file, toolchain markers and metadata
  // files contain is opaque.
  function FromRoot(repo: PS.Repo, root: MI.Handle, p: string): Result<File, ReadError> {
    if !root.Git? then Err(Failed)
    else
      match MI.Stat(root, p)
      case Err(_) => Err(NotFound)
      case Ok(DirInfo(_, _)) => Err(IsDirectory)
      case Ok(FileInfoOf(_, mode, _)) =>
        match PM.GetFile(repo, root, p)
        case Err(_) => Err(Failed)
        case Ok(content) => Ok(CS.CachedFile(mode, Text(content)))
  }

  // ----- what is true of a file

  // The handle's module is stored in git, with the files z.
  ghost predicate GoodModule(repo: PS.Repo, g: MI.Handle, z: Files) {
    && g.Git? && MI.HandleOf(g, GS.GitMeta(z)) && z != map[]
    && exists parts :: PM.HoldsModule(repo, g.modTree, parts, z)
  }

  ghost predicate GoodModules(repo: PS.Repo, roots: Roots, mods: Mods) {
    forall mv :: mv in mods ==> mv in roots && GoodModule(repo, roots[mv], mods[mv])
  }

  // What the server has cached of the modules' roots is right.
  ghost predicate GoodCached(repo: PS.Repo, cached: Roots, mods: Mods) {
    forall mv :: mv in mods && mv in cached ==> GoodModule(repo, cached[mv], mods[mv])
  }

  // nm is the canonical name of a place in one of the modules: a file, a
  // directory, or a path that the module does not have.
  ghost predicate NamesPlace(mods: Mods, nm: Name) {
    nm.InZip? && Canonical(nm) && GoodName(nm) && nm.mv in mods
  }

  ghost predicate Exists(z: Files, p: string) {
    p in z || IsDirIn(z, p)
  }

  // What reading there must give: the contents of a file, with the mode that git
  // keeps of it, or one of two errors.
  ghost function PlaceIn(z: Files, p: string): Result<File, ReadError> {
    if p in z then Ok(CS.CachedFile(GS.GitMetaOf(z[p]).mode, z[p].contents))
    else if IsDirIn(z, p) then Err(IsDirectory)
    else Err(NotFound)
  }

  ghost function PlaceOf(mods: Mods, nm: Name): Result<File, ReadError>
    requires nm.InZip? && nm.mv in mods
  {
    PlaceIn(mods[nm.mv], nm.path)
  }

  // What is known of a module that is stored.
  lemma ModuleOf(repo: PS.Repo, g: MI.Handle, z: Files) returns (parts: Files)
    requires GoodModule(repo, g, z)
    ensures g.Git? && MI.HandleOf(g, GS.GitMeta(z)) && z != map[] && ValidFiles(z)
    ensures PM.HoldsModule(repo, g.modTree, parts, z)
  {
    hide MI.HandleOf, ValidFiles;
    parts :| PM.HoldsModule(repo, g.modTree, parts, z);
  }

  // A stored module is read exactly: its files, none of its directories, and
  // nothing else.
  lemma FromRootIsExact(repo: PS.Repo, g: MI.Handle, z: Files, p: string)
    requires GoodModule(repo, g, z)
    ensures FromRoot(repo, g, p) == PlaceIn(z, p)
  {
    hide PM.GetFile, PM.HoldsModule, GoodModule, ValidFiles, CleanPath, MI.HandleOf, IsDirIn;
    var parts := ModuleOf(repo, g, z);
    StatOfPlace(g, z, p);
    if p in z {
      FileIsClean(z, p);
      FileIsNoDir(z, p);
      PM.GetFileIsExact(repo, g, parts, z, p);
      TextOfLit(z[p].contents);
    }
  }

  lemma StatOfPlace(g: MI.Handle, z: Files, p: string)
    requires g.Git? && MI.HandleOf(g, GS.GitMeta(z)) && ValidFiles(z)
    ensures p in z ==> MI.Stat(g, p) == Ok(MI.FileInfoOf(Base(p), GS.GitMetaOf(z[p]).mode, |z[p].contents|))
    ensures IsDirIn(z, p) ==> MI.Stat(g, p) == Ok(MI.DirInfo(Base(p), MI.GIT_DIR))
    ensures !Exists(z, p) ==> MI.Stat(g, p) == Err(MI.NotExist)
  {
    GS.GitMetaDirs(z, p);
    if p in z { FileIsNoDir(z, p); }
    hide Base, IsDirIn, ValidFiles;
  }

  // getFileContentsUncached, of a zip path.
  function FetchZip(repo: PS.Repo, cached: Roots, roots: Roots, readOnly: bool, mv: ModuleVersion, p: string)
    : Result<File, ReadError>
  {
    match ZipRoot(cached, roots, mv, readOnly)
    case Err(e) => Err(e)
    case Ok(root) => FromRoot(repo, root, p)
  }

  // A place of a stored module is fetched exactly if the module's root is cached
  // or the module served.
  lemma FetchesPlace(
      repo: PS.Repo, cached: Roots, roots: Roots, readOnly: bool, mods: Mods, mv: ModuleVersion, p: string)
    requires GoodModules(repo, roots, mods) && GoodCached(repo, cached, mods) && mv in mods
    ensures FetchZip(repo, cached, roots, readOnly, mv, p) ==
            if mv in cached || Served(mv, mods[mv], readOnly) then PlaceIn(mods[mv], p) else Err(Failed)
  {
    hide FromRoot, GoodModule, MI.HandleOf, StoreRoot, Served, PM.HoldsModule, ValidFiles, PlaceIn;
    if mv in cached {
      FromRootIsExact(repo, cached[mv], mods[mv], p);
    } else {
      var parts := ModuleOf(repo, roots[mv], mods[mv]);
      StoreRootIs(roots, mv, mods[mv], readOnly);
      FromRootIsExact(repo, roots[mv], mods[mv], p);
    }
  }

  // ----- stored modules that are not served

  lemma PlainVersion(v: string)
    requires v != "" && v[|v| - 1] != '.'
    requires forall i :: 0 <= i < |v| ==> Lower(v[i]) || Digit(v[i]) || v[i] == '.' || v[i] == '-'
    ensures EscapeVersion(v).Some?
  {
    forall i | 0 <= i < |v| ensures FileCharOK(v[i]) {
    }
  }

  lemma PlainModule(a: string, b: string)
    requires '/' !in a && '/' !in b && a != "" && b != "" && '.' in a
    requires a[0] != '.' && a[|a| - 1] != '.' && b[0] != '.' && b[|b| - 1] != '.'
    requires forall i :: 0 <= i < |a| ==> Lower(a[i]) || a[i] == '.'
    requires forall i :: 0 <= i < |b| ==> Lower(b[i]) || b[i] == '.'
    ensures CheckPath(a + ['/'] + b)
  {
    hide CheckPath, ModElems, ModElem;
    PlainElem(a);
    PlainElem(b);
    ElemsOf(b, "");
    ElemsOf(a, b);
    CheckOf(a, b);
  }

  // A version of Tailscale's toolchain with too few parts.
  lemma ShortVersionExample(z: Files, p: string, readOnly: bool)
    ensures var mv := ModuleVersion(TSGO_MODULE, "tsgo-x");
            ValidMV(mv) && Canonical(InZip(mv, p)) && !Served(mv, z, readOnly)
  {
    hide CheckPath, EscapeVersion, TsgoTriple;
    ToolchainModule();
    PlainVersion("tsgo-x");
    ToolchainStart();
    ShortHasNoTriple();
  }

  lemma ShortHasNoTriple()
    ensures "tsgo-" <= "tsgo-x" && TsgoTriple(ModuleVersion(TSGO_MODULE, "tsgo-x")).None?
  {
    hide TsgoTriple;
    assert "tsgo-x" == "tsgo-" + "x";
    CutNothing("x", '-');
    TripleOfRest(ModuleVersion(TSGO_MODULE, "tsgo-x"), "x");
  }

  // A toolchain of Go's that was stored without go.mod files.
  lemma OldToolchainExample(z: Files, p: string)
    requires "src/go.mod" !in z && !IsDirIn(z, "src/go.mod")
    ensures var mv := ModuleVersion(TOOLCHAIN, "v1");
            ValidMV(mv) && Canonical(InZip(mv, p)) && !Served(mv, z, false) && Served(mv, z, true)
  {
    hide CheckPath, IsDirIn, EscapeVersion;
    assert TOOLCHAIN == "golang.org" + ['/'] + "toolchain";
    PlainModule("golang.org", "toolchain");
    PlainVersion("v1");
    OtherModule();
  }

  lemma OtherModule()
    ensures TOOLCHAIN != TSGO_MODULE && !("tsgo-" <= TOOLCHAIN)
  {
    assert TOOLCHAIN[1] == 'o' && TSGO_MODULE[1] == 'i';
    assert TOOLCHAIN[0] == 'g';
  }

}
