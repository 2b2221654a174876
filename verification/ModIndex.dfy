// Directory indexes of a module's files: what both stores' handles hold, and
// what Stat, Readdir and GetFile answer from them.

module ModIndex {
  import opened Wrappers
  import opened Paths
  import opened GitObjects

  datatype Meta = Meta(size: nat, mode: FileMode)

  type MetaMap = map<string, Meta>

  datatype Dirent = Dirent(name: string, mode: FileMode, size: nat)

  type DirMap = map<string, seq<Dirent>>

  // fs.ModeDir | 0755, what git's mode 040000 becomes
  const GIT_DIR := FileMode(Directory, 0x1ED)

  // fs.ModeDir, what buildDirMap gives a directory
  const REMOTE_DIR := FileMode(Directory, 0)

  // e is the entry of directory d that the files f call for, with directories
  // given mode dm.
  ghost predicate Child(f: MetaMap, d: string, e: Dirent, dm: FileMode) {
    && CleanName(e.name)
    && var p := Under(d, e.name);
       || (p in f && e == Dirent(e.name, f[p].mode, f[p].size))
       || (IsDirIn(f, p) && e == Dirent(e.name, dm, 0))
  }

  ghost predicate NamesOnce(ents: seq<Dirent>) {
    forall i, j :: 0 <= i < j < |ents| ==> ents[i].name != ents[j].name
  }

  // ents lists directory d of f exactly: every child, once, and nothing else.
  ghost predicate Listing(ents: seq<Dirent>, f: MetaMap, d: string, dm: FileMode) {
    && NamesOnce(ents)
    && forall e :: e in ents <==> Child(f, d, e, dm)
  }

  // dirs lists exactly the directories of f, each exactly.
  ghost predicate Indexes(dirs: DirMap, f: MetaMap, dm: FileMode) {
    && (forall d :: d in dirs <==> IsDirIn(f, d))
    && (forall d :: d in dirs ==> Listing(dirs[d], f, d, dm))
  }

  ghost predicate AllFiles(f: MetaMap) {
    forall p :: p in f ==> f[p].mode.kind != Directory
  }

  // Only a directory has entries.
  lemma ChildMeansDir(f: MetaMap, dir: string, e: Dirent, dm: FileMode)
    requires Child(f, dir, e, dm)
    ensures IsDirIn(f, dir)
  {
    var p := Under(dir, e.name);
    JoinBelow(dir, e.name);
    if p !in f {
      var q :| q in f && Below(p, q);
      BelowTransitive(dir, p, q);
    }
  }

  // ----- the two kinds of handle

  datatype BlobMeta = BlobMeta(blob: ObjRef, size: nat, mode: FileMode)

  datatype Handle =
    | Git(modTree: ObjRef, blobMeta: map<string, BlobMeta>, dirEnts: DirMap)
    | Remote(files: MetaMap, dirs: DirMap)

  datatype Error = NotExist | IsDir | BadListing

  datatype Info = DirInfo(base: string, mode: FileMode) | FileInfoOf(base: string, mode: FileMode, size: nat)

  function Stat(h: Handle, p: string): Result<Info, Error> {
    match h
    case Git(_, blobMeta, dirEnts) =>
      if p in dirEnts then Ok(DirInfo(Base(p), GIT_DIR))
      else if p in blobMeta then Ok(FileInfoOf(Base(p), blobMeta[p].mode, blobMeta[p].size))
      else Err(NotExist)
    case Remote(files, dirs) =>
      if p == "" then Ok(DirInfo(".", REMOTE_DIR))
      else if p in files then Ok(FileInfoOf(Base(p), files[p].mode, files[p].size))
      else if p in dirs then Ok(DirInfo(Base(p), REMOTE_DIR))
      else Err(NotExist)
  }

  function Readdir(h: Handle, p: string): Result<seq<Dirent>, Error> {
    match h
    case Git(_, _, dirEnts) => if p in dirEnts then Ok(dirEnts[p]) else Ok([])
    case Remote(_, dirs) =>
      if p in dirs then Ok(dirs[p])
      else if p == "" then Ok([])
      else Err(NotExist)
  }

  // The checks of remotestore's GetFile before it asks the server.
  function GetFileCheck(h: Handle, p: string): Result<(), Error>
    requires h.Remote?
  {
    if p !in h.files then (if p in h.dirs then Err(IsDir) else Err(NotExist)) else Ok(())
  }

  // h is a handle for the files f.
  ghost predicate HandleOf(h: Handle, f: MetaMap) {
    match h
    case Git(_, blobMeta, dirEnts) =>
      && Indexes(dirEnts, f, GIT_DIR)
      && blobMeta.Keys == f.Keys
      && forall p :: p in f ==> f[p] == Meta(blobMeta[p].size, blobMeta[p].mode)
    case Remote(files, dirs) => Indexes(dirs, f, REMOTE_DIR) && files == f
  }

  ghost function DirMode(h: Handle): FileMode {
    if h.Git? then GIT_DIR else REMOTE_DIR
  }

  // ----- Stat, exactly

  // b is the last segment of p, or "." for the root.
  ghost predicate LastSegment(p: string, b: string) {
    if p == "" then b == "."
    else b != "" && '/' !in b && (b == p || exists d :: p == d + "/" + b)
  }

  lemma BaseIsLast(p: string)
    requires p == "" || CleanPath(p)
    ensures LastSegment(p, Base(p))
  {
    if p != "" {
      Parts(p);
      if Parent(p) != "" { assert p == Parent(p) + "/" + Base(p); }
    }
  }

  lemma DirIsClean<V>(f: map<string, V>, d: string)
    requires ValidFiles(f) && IsDirIn(f, d)
    ensures d == "" || CleanPath(d)
  {
    var p :| p in f && Below(d, p);
    CleanRest(d, p);
  }

  // Stat tells a directory from a file and from nothing, and both of these what
  // they are. Remotely there is a root even without files.
  lemma StatIsExact(h: Handle, f: MetaMap, p: string)
    requires HandleOf(h, f) && ValidFiles(f)
    ensures IsDirIn(f, p) || (h.Remote? && p == "") ==>
              && Stat(h, p).Ok? && Stat(h, p).value.DirInfo? && LastSegment(p, Stat(h, p).value.base)
              && Stat(h, p).value.mode.kind == Directory
              && Stat(h, p).value.mode.perm == if h.Git? then 0x1ED else 0
    ensures p in f ==>
              && Stat(h, p).Ok? && Stat(h, p).value.FileInfoOf? && LastSegment(p, Stat(h, p).value.base)
              && Stat(h, p).value.mode == f[p].mode && Stat(h, p).value.size == f[p].size
    ensures p !in f && !IsDirIn(f, p) && !(h.Remote? && p == "") ==> Stat(h, p) == Err(NotExist)
  {
    hide Listing, Base, CleanPath, ValidFiles;
    if p in f {
      FileIsNoDir(f, p);
      FileIsClean(f, p);
      CleanEnds(p);
      BaseIsLast(p);
    }
    if IsDirIn(f, p) {
      DirIsClean(f, p);
      BaseIsLast(p);
    }
  }

  // ----- the two handles of one module agree

  // An entry as a client tells it apart: directory permission bits aside.
  function Plain(e: Dirent): Dirent {
    if e.mode.kind == Directory then e.(mode := e.mode.(perm := 0)) else e
  }

  function PlainInfo(i: Info): Info {
    if i.DirInfo? then i.(mode := i.mode.(perm := 0)) else i
  }

  // Stat agrees on every path, existing or not, for a module with files.
  lemma StatAgrees(g: Handle, r: Handle, f: MetaMap, p: string)
    requires g.Git? && r.Remote? && HandleOf(g, f) && HandleOf(r, f)
    requires ValidFiles(f) && f != map[]
    ensures Stat(g, p).Ok? <==> Stat(r, p).Ok?
    ensures Stat(g, p).Ok? ==> PlainInfo(Stat(g, p).value) == Stat(r, p).value
    ensures Stat(g, p).Ok? <==> p in f || IsDirIn(f, p)
  {
    var q :| q in f;
    CleanEnds(q);
    assert Below("", q);
    assert IsDirIn(f, "");
  }

  // Readdir agrees on every directory as a set of entries with distinct names.
  // On other paths it does not: git lists nothing, the remote store fails.
  lemma ReaddirAgrees(g: Handle, r: Handle, f: MetaMap, p: string)
    requires g.Git? && r.Remote? && HandleOf(g, f) && HandleOf(r, f)
    requires AllFiles(f) && f != map[] && ValidFiles(f)
    ensures IsDirIn(f, p) <==> Readdir(r, p).Ok?
    ensures IsDirIn(f, p) ==> Readdir(g, p).Ok? && |Readdir(g, p).value| == |Readdir(r, p).value|
    ensures IsDirIn(f, p) ==>
              forall e :: e in Readdir(r, p).value <==>
                          exists x :: x in Readdir(g, p).value && Plain(x) == e
    ensures !IsDirIn(f, p) ==> Readdir(g, p) == Ok([]) && Readdir(r, p) == Err(NotExist)
  {
    var q :| q in f;
    CleanEnds(q);
    assert Below("", q);
    assert IsDirIn(f, "");
    hide Listing;
    if IsDirIn(f, p) { ListingsAgree(g.dirEnts[p], r.dirs[p], f, p); }
  }

  lemma ListingsAgree(a: seq<Dirent>, b: seq<Dirent>, f: MetaMap, p: string)
    requires Listing(a, f, p, GIT_DIR) && Listing(b, f, p, REMOTE_DIR)
    requires AllFiles(f)
    ensures forall e :: e in b <==> exists x :: x in a && Plain(x) == e
    ensures |a| == |b|
  {
    hide NamesOnce, IsDirIn, CleanName;
    forall e ensures e in b <==> exists x :: x in a && Plain(x) == e {
      if e in b {
        assert Child(f, p, e, REMOTE_DIR);
        var x := if IsDirIn(f, Under(p, e.name)) && e.mode == REMOTE_DIR then e.(mode := GIT_DIR) else e;
        assert Child(f, p, x, GIT_DIR);
        assert x in a && Plain(x) == e;
      }
      if x :| x in a && Plain(x) == e {
        assert Child(f, p, x, GIT_DIR);
        assert Child(f, p, e, REMOTE_DIR);
      }
    }
    SameNamesSameLength(a, b);
  }

  ghost function Names(ents: seq<Dirent>): set<string> {
    set i | 0 <= i < |ents| :: ents[i].name
  }

  lemma {:induction false} NameCount(ents: seq<Dirent>)
    requires NamesOnce(ents)
    ensures |Names(ents)| == |ents|
  {
    if ents != [] {
      var t := ents[..|ents| - 1];
      NameCount(t);
      assert forall i :: 0 <= i < |t| ==> t[i] == ents[i];
      assert Names(ents) == Names(t) + {ents[|ents| - 1].name};
    }
  }

  lemma SameNamesSameLength(a: seq<Dirent>, b: seq<Dirent>)
    requires NamesOnce(a) && NamesOnce(b)
    requires forall e :: e in b <==> exists x :: x in a && Plain(x) == e
    ensures |a| == |b|
  {
    forall n | n in Names(b) ensures n in Names(a) {
      var i :| 0 <= i < |b| && b[i].name == n;
      assert b[i] in b;
      var x :| x in a && Plain(x) == b[i];
      var j :| 0 <= j < |a| && a[j] == x;
      assert a[j].name == n;
    }
    forall n | n in Names(a) ensures n in Names(b) {
      var i :| 0 <= i < |a| && a[i].name == n;
      assert a[i] in a && Plain(a[i]) in b;
      var j :| 0 <= j < |b| && b[j] == Plain(a[i]);
      assert b[j].name == n;
    }
    assert Names(a) == Names(b);
    NameCount(a);
    NameCount(b);
  }

  // The remote existence check before a fetch says what Stat says.
  lemma GetFileCheckIsExact(r: Handle, f: MetaMap, p: string)
    requires r.Remote? && HandleOf(r, f) && ValidFiles(f)
    ensures GetFileCheck(r, p) ==
            if p in f then Ok(()) else if IsDirIn(f, p) then Err(IsDir) else Err(NotExist)
  {
  }
}
