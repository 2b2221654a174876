// NFS handles as names: what handle a path has, and which path a handle gives
// back on a server that only knows the store (nfs.go, gomodfs.go).
//
// A SHA-256 digest stands as the text it was taken of; the well-known hashes
// are zero-padded names, and no digest is one of them.

module HandleSpec {
  import opened Wrappers
  import opened Strings
  import opened Paths
  import opened ModNames
  import opened GmPaths
  import opened GmSources
  import opened GmAncestors
  import opened GitObjects
  import MI = ModIndex

  datatype Hash32 = ZeroHash | WellKnown(name: string) | Sha(text: string)

  datatype NfsHandle = NotExistHandle | BadLength | Handle(mv: Hash32, path: Hash32)

  const ROOT := Handle(ZeroHash, ZeroHash)

  const STATUS := Handle(WellKnown("STATUS"), ZeroHash)

  datatype Error = Invalid | Stale | UnknownModule

  datatype Target = Target(path: string, segs: seq<string>)

  // mkTargetFromPath
  function TargetOf(p: string): Target {
    Target(p, SplitSegs(p))
  }

  const NO_FILE := Target(".not-exist-path", [".not-exist-path"])

  // hashModVersion
  function HashMV(mv: ModuleVersion): Hash32 {
    Sha(mv.mod + ['\0'] + mv.ver)
  }

  // The handle of a path that is neither the root nor the status file.
  function PathHandle(n: string): NfsHandle {
    var pp := ParsePath(n);
    if pp.notExist then NotExistHandle
    else
      Handle(
        if pp.mv.mod != "" then HashMV(pp.mv) else ZeroHash,
        Second(pp, n))
  }

  function Second(pp: GmPath, n: string): Hash32 {
    if pp.wellKnown == WK_TSGO_EXTRACTED then WellKnown(WK_TSGO_EXTRACTED)
    else if pp.ext != "" then WellKnown(pp.ext)
    else Sha(if pp.inZip then pp.path else n)
  }

  function HandleFor(segs: seq<string>): NfsHandle {
    if segs == [] then ROOT
    else if segs == [STATUS_FILE] then STATUS
    else PathHandle(JoinSegs(segs))
  }

  // ----- what the store knows

  datatype Store = Store(cached: seq<ModuleVersion>, roots: map<ModuleVersion, MI.Handle>)

  ghost function FilesOf(h: MI.Handle): MI.MetaMap {
    match h
    case Git(_, blobMeta, _) => map p | p in blobMeta :: MI.Meta(blobMeta[p].size, blobMeta[p].mode)
    case Remote(files, _) => files
  }

  // A handle that indexes the files of some module.
  ghost predicate GoodRoot(h: MI.Handle) {
    MI.HandleOf(h, FilesOf(h)) && ValidFiles(FilesOf(h)) && MI.AllFiles(FilesOf(h))
  }

  ghost predicate GoodStore(s: Store) {
    && (forall mv :: mv in s.cached ==> ValidMV(mv))
    && (forall mv :: mv in s.roots ==> GoodRoot(s.roots[mv]))
  }

  // p is dir, or a file or directory below it.
  ghost predicate Covers(f: MI.MetaMap, dir: string, p: string) {
    p == dir || (Below(dir, p) && (p in f || IsDirIn(f, p)))
  }

  ghost predicate Existing(f: MI.MetaMap, p: string) {
    Covers(f, "", p)
  }

  // The directories that one module version brings along.
  ghost function DirsOf(mv: ModuleVersion): iset<string> {
    iset d |
      && d !in STOPS
      && (Ancestor(d, CdPath(mv, "foo")) || (ZipPrefix(mv).Some? && Ancestor(d, ZipPrefix(mv).value)))
  }

  function SystemDir(os: string, arch: string): string {
    "tsgo-" + (os + "-" + arch)
  }

  ghost predicate IsSystemDir(d: string) {
    exists os, arch :: ValidOSArch(os, arch) && d == SystemDir(os, arch)
  }

  ghost const FIXED: iset<string> := iset{"cache", "cache/download", STATUS_FILE} + iset d | IsSystemDir(d)

  ghost predicate IsModuleDir(known: set<ModuleVersion>, d: string) {
    exists mv :: mv in known && d in DirsOf(mv)
  }

  ghost function ModuleDirs(known: set<ModuleVersion>): iset<string> {
    iset d | IsModuleDir(known, d)
  }

  ghost function KnownDirs(known: set<ModuleVersion>): iset<string> {
    ModuleDirs(known) + FIXED
  }

  // ----- from a handle back to a path

  ghost function MvFor(known: set<ModuleVersion>, x: Hash32): Option<ModuleVersion> {
    if exists mv :: mv in known && HashMV(mv) == x then
      var mv :| mv in known && HashMV(mv) == x; Some(mv)
    else None
  }

  ghost function RecoverIn(mv: ModuleVersion, roots: map<ModuleVersion, MI.Handle>, x: Hash32): Result<string, Error> {
    if x.WellKnown? && MetaExt(x.name) then Ok(CdPath(mv, x.name))
    else if x == WellKnown(WK_TSGO_EXTRACTED) && TsgoTriple(mv).Some? then
      Ok(TsgoZipRoot(TsgoTriple(mv).value) + ".extracted")
    else if mv !in roots then Err(UnknownModule)
    else if x.Sha? && Existing(FilesOf(roots[mv]), x.text) && ZipPrefix(mv).Some? then
      Ok(EmptyPathJoin(ZipPrefix(mv).value, x.text))
    else Err(Stale)
  }

  // What a server answers from the module versions it has indexed and the
  // store's zip roots alone.
  ghost function Recover(known: set<ModuleVersion>, roots: map<ModuleVersion, MI.Handle>, h: NfsHandle)
    : Result<string, Error>
    requires h.Handle?
  {
    if h.mv == ZeroHash then
      if h.path.Sha? && h.path.text in KnownDirs(known) then Ok(h.path.text) else Err(Stale)
    else
      match MvFor(known, h.mv)
      case None => Err(Stale)
      case Some(mv) => RecoverIn(mv, roots, h.path)
  }

  // FromHandle, with the table of handles given so far.
  ghost function Answer(
      table: map<NfsHandle, Target>, known: set<ModuleVersion>, roots: map<ModuleVersion, MI.Handle>, h: NfsHandle)
    : Result<Target, Error>
  {
    match h
    case NotExistHandle => Ok(NO_FILE)
    case BadLength => Err(Invalid)
    case Handle(_, _) =>
      if h == ROOT then Ok(TargetOf(""))
      else if h == STATUS then Ok(TargetOf(STATUS_FILE))
      else if h in table then Ok(table[h])
      else
        match Recover(known, roots, h)
        case Ok(p) => Ok(TargetOf(p))
        case Err(e) => Err(e)
  }

  // ----- handles are names

  lemma HashMVInjective(a: ModuleVersion, b: ModuleVersion)
    requires HashMV(a) == HashMV(b) && '\0' !in a.mod && '\0' !in b.mod
    ensures a == b
  {
    CutIsUnique(a.mod, '\0', a.ver);
    CutIsUnique(b.mod, '\0', b.ver);
  }

  lemma ValidHasNoNul(mv: ModuleVersion)
    requires ValidMV(mv)
    ensures '\0' !in mv.mod && mv.mod != "" && mv.ver != ""
  {
    hide CheckPath, EscapeString, UnescapeString;
    EscapedNamesComeBack(mv);
    ModuleNotEmpty("");
  }

  lemma MvForIs(known: set<ModuleVersion>, mv: ModuleVersion)
    requires mv in known && forall x :: x in known ==> ValidMV(x)
    ensures MvFor(known, HashMV(mv)) == Some(mv)
  {
    hide ValidMV, HashMV;
    var m := MvFor(known, HashMV(mv)).value;
    ValidHasNoNul(mv);
    ValidHasNoNul(m);
    HashMVInjective(m, mv);
  }

  // Two paths lead to the same thing: the same file or directory of the same
  // module, the same metadata file, or they are the same path.
  predicate SamePlace(a: string, b: string) {
    var x, y := ParsePath(a), ParsePath(b);
    if x.notExist || y.notExist then x.notExist && y.notExist
    else x == y && (x.mv.mod == "" ==> a == b)
  }

  lemma ShapesDiffer(x: GmPath, y: GmPath, a: string, b: string)
    requires IsZip(x) || IsMeta(x) || IsExtracted(x)
    requires IsZip(y) || IsMeta(y) || IsExtracted(y)
    requires x.mv == y.mv && Second(x, a) == Second(y, b)
    ensures x == y
  {
    assert !MetaExt(WK_TSGO_EXTRACTED) && WK_TSGO_EXTRACTED != "";
    assert !MetaExt("");
  }

  lemma SecondOfShape(x: GmPath, a: string, b: string)
    requires IsZip(x) || IsMeta(x) || IsExtracted(x)
    ensures Second(x, a) == Second(x, b)
  {
  }

  // Paths have the same handle exactly if they lead to the same place.
  lemma HandlesAreNames(a: string, b: string)
    ensures PathHandle(a) == PathHandle(b) <==> SamePlace(a, b)
  {
    hide ParsePath, IsZip, IsMeta, IsExtracted, Second;
    var x, y := ParsePath(a), ParsePath(b);
    ParsedShape(a);
    ParsedShape(b);
    StatusIsPlain();
    if !x.notExist && !y.notExist && PathHandle(a) == PathHandle(b) {
      assert Second(x, a) == Second(y, b);
      if x.mv.mod != "" && y.mv.mod != "" {
        HashMVInjective(x.mv, y.mv);
        ShapesDiffer(x, y, a, b);
      } else {
        assert x.mv.mod == "" && y.mv.mod == "";
        PlainSecond(x, a);
        PlainSecond(y, b);
      }
    }
    if x == y && !x.notExist && x.mv.mod != "" { SecondOfShape(x, a, b); }
  }

  lemma PlainSecond(x: GmPath, a: string)
    requires x == PLAIN || x == PLAIN.(wellKnown := STATUS_FILE)
    ensures Second(x, a) == Sha(a)
  {
  }
}
