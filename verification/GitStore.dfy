// newModHandle of store/gitstore/gitstore.go: indexes an ls-tree listing into
// the handle that Stat, Readdir and GetFile use.

module GitStore {
  import opened Wrappers
  import opened Paths
  import opened GitObjects
  import opened LsTree
  import opened ModIndex

  // fileModeFromGitOctalBytes
  function ModeFromOctal(octal: string): FileMode {
    if octal == "040000" then GIT_DIR
    else if octal == "100644" then FileMode(Regular, 0x1A4)
    else if octal == "100755" then FileMode(Regular, 0x1ED)
    else if octal == "120000" then FileMode(Symlink, 0x1ED)
    else if octal == "160000" then FileMode(Irregular, 0x1ED)
    else FileMode(Regular, 0)
  }

  // The metadata a git handle gives the files f: only the executable bit of a
  // mode survives.
  function GitMetaOf(fi: FileInfo): Meta {
    Meta(|fi.contents|, FileMode(Regular, if Executable(fi.mode) then 0x1ED else 0x1A4))
  }

  ghost function GitMeta(f: Files): MetaMap {
    map p | p in f :: GitMetaOf(f[p])
  }

  // ----- what the loop of newModHandle computes

  // A tree has size "-", everything else a number.
  predicate Malformed(line: Line) {
    ModeFromOctal(line.mode).kind == Directory <==> line.size.Some?
  }

  function SizeOf(line: Line): nat {
    if line.size.Some? then line.size.value else 0
  }

  function DirentOf(line: Line): Dirent {
    Dirent(Base(line.path), ModeFromOctal(line.mode), SizeOf(line))
  }

  // The entries of directory d, in listing order.
  ghost function EntsIn(lines: seq<Line>, d: string): seq<Dirent> {
    if lines == [] then []
    else
      var n := |lines| - 1;
      EntsIn(lines[..n], d) + if Parent(lines[n].path) == d then [DirentOf(lines[n])] else []
  }

  // The blobs by path, a later line replacing an earlier one.
  ghost function BlobsIn(lines: seq<Line>): map<string, BlobMeta> {
    if lines == [] then map[]
    else
      var n := |lines| - 1;
      var line, before := lines[n], BlobsIn(lines[..n]);
      if ModeFromOctal(line.mode).kind == Directory then before
      else before[line.path := BlobMeta(line.ref, SizeOf(line), ModeFromOctal(line.mode))]
  }

  ghost predicate DirsOf(dirEnts: DirMap, lines: seq<Line>) {
    && (forall d :: d in dirEnts <==> EntsIn(lines, d) != [])
    && (forall d :: d in dirEnts ==> dirEnts[d] == EntsIn(lines, d))
  }

  method NewModHandle(modTree: ObjRef, out: seq<Line>) returns (r: Result<Handle, Error>)
    ensures r.Err? <==> exists i :: 0 <= i < |out| && Malformed(out[i])
    ensures r.Err? ==> r.error == BadListing
    ensures r.Ok? ==> r.value.Git? && r.value.modTree == modTree
    ensures r.Ok? ==> r.value.blobMeta == BlobsIn(out) && DirsOf(r.value.dirEnts, out)
  {
    hide BlobsIn, EntsIn, DirsOf, Base, Dir;
    var blobMeta: map<string, BlobMeta> := map[];
    var dirEnts: DirMap := map[];
    NothingIn();
    var i := 0;
    while i < |out|
      invariant 0 <= i <= |out|
      invariant forall k :: 0 <= k < i ==> !Malformed(out[k])
      invariant blobMeta == BlobsIn(out[..i]) && DirsOf(dirEnts, out[..i])
    {
      var line := out[i];
      var mode := ModeFromOctal(line.mode);
      if mode.kind == Directory && line.size != None {
        return Err(BadListing);
      }
      var size := 0;
      if mode.kind != Directory {
        if line.size == None {
          return Err(BadListing);
        }
        size := line.size.value;
      }
      if mode.kind != Directory {
        blobMeta := blobMeta[line.path := BlobMeta(line.ref, size, mode)];
      }
      var ent := Dirent(Base(line.path), mode, size);
      var dir := Dir(line.path);
      if dir == "." {
        dir := "";
      }
      DirsSnoc(dirEnts, out[..i], line);
      BlobsSnoc(out[..i], line);
      dirEnts := dirEnts[dir := (if dir in dirEnts then dirEnts[dir] else []) + [ent]];
      assert out[..i + 1] == out[..i] + [line];
      i := i + 1;
    }
    assert out[..i] == out;
    return Ok(Git(modTree, blobMeta, dirEnts));
  }

  lemma NothingIn()
    ensures BlobsIn([]) == map[] && DirsOf(map[], [])
  {
  }

  lemma BlobsSnoc(lines: seq<Line>, line: Line)
    ensures BlobsIn(lines + [line]) ==
            if ModeFromOctal(line.mode).kind == Directory then BlobsIn(lines)
            else BlobsIn(lines)[line.path := BlobMeta(line.ref, SizeOf(line), ModeFromOctal(line.mode))]
  {
    assert (lines + [line])[..|lines|] == lines;
  }

  lemma DirsSnoc(dirEnts: DirMap, lines: seq<Line>, line: Line)
    requires DirsOf(dirEnts, lines)
    ensures var d := Parent(line.path);
            DirsOf(dirEnts[d := (if d in dirEnts then dirEnts[d] else []) + [DirentOf(line)]], lines + [line])
  {
    hide Base, Dir;
    var all, d := lines + [line], Parent(line.path);
    assert all[..|lines|] == lines;
    forall x ensures EntsIn(all, x) == EntsIn(lines, x) + if d == x then [DirentOf(line)] else [] {}
  }

  // ----- a listing of a tree yields a handle for its files

  ghost predicate Enters(lines: seq<Line>, d: string, e: Dirent) {
    exists i :: 0 <= i < |lines| && Parent(lines[i].path) == d && DirentOf(lines[i]) == e
  }

  lemma EntersSnoc(lines: seq<Line>, line: Line, d: string, e: Dirent)
    ensures Enters(lines + [line], d, e) <==> Enters(lines, d, e) || (Parent(line.path) == d && DirentOf(line) == e)
  {
    hide DirentOf, Parent;
    var all := lines + [line];
    assert all[|lines|] == line;
    if Enters(lines, d, e) {
      var i :| 0 <= i < |lines| && Parent(lines[i].path) == d && DirentOf(lines[i]) == e;
      assert all[i] == lines[i];
    }
  }

  lemma {:induction false} EntsInAre(lines: seq<Line>, d: string, e: Dirent)
    ensures e in EntsIn(lines, d) <==> Enters(lines, d, e)
  {
    hide DirentOf, Parent;
    if lines != [] {
      var n := |lines| - 1;
      EntsInAre(lines[..n], d, e);
      EntersSnoc(lines[..n], lines[n], d, e);
      assert lines == lines[..n] + [lines[n]];
      hide Enters;
    }
  }

  lemma {:induction false} EntsInOnce(lines: seq<Line>, d: string)
    requires PathsOnce(lines) && forall i :: 0 <= i < |lines| ==> CleanPath(lines[i].path)
    ensures NamesOnce(EntsIn(lines, d))
  {
    hide CleanPath, Parent;
    if lines != [] {
      var n := |lines| - 1;
      var t := lines[..n];
      EntsInOnce(t, d);
      var ents, e := EntsIn(t, d), DirentOf(lines[n]);
      if Parent(lines[n].path) == d {
        forall k | 0 <= k < |ents| ensures ents[k].name != e.name {
          EntsInAre(t, d, ents[k]);
          var i :| 0 <= i < |t| && Parent(t[i].path) == d && DirentOf(t[i]) == ents[k];
          Parts(t[i].path);
          Parts(lines[n].path);
        }
      }
    }
  }

  lemma {:induction false} BlobsInAre(lines: seq<Line>, p: string)
    requires PathsOnce(lines)
    ensures p in BlobsIn(lines) <==>
            exists i :: 0 <= i < |lines| && lines[i].path == p && ModeFromOctal(lines[i].mode).kind != Directory
    ensures p in BlobsIn(lines) ==>
              exists i :: 0 <= i < |lines| && lines[i].path == p &&
                BlobsIn(lines)[p] == BlobMeta(lines[i].ref, SizeOf(lines[i]), ModeFromOctal(lines[i].mode))
  {
    if lines != [] {
      var n := |lines| - 1;
      var t := lines[..n];
      BlobsInAre(t, p);
      assert forall i :: 0 <= i < n ==> t[i] == lines[i];
      hide ModeFromOctal;
    }
  }

  // A git listing of the files f, at the root of a module's zip.
  ghost predicate ListingOf(lines: seq<Line>, f: Files) {
    && PathsOnce(lines)
    && (forall i :: 0 <= i < |lines| ==> LineHolds(lines[i], f, lines[i].path))
    && (forall q :: Wanted(f, q) ==> Lists(lines, q))
  }

  lemma ModesAgree(line: Line, f: Files, q: string)
    requires LineHolds(line, f, q) && ValidFiles(f)
    ensures !Malformed(line)
    ensures ModeFromOctal(line.mode).kind == Directory <==> IsDirIn(f, q)
    ensures IsDirIn(f, q) ==> DirentOf(line) == Dirent(Base(line.path), GIT_DIR, 0)
    ensures !IsDirIn(f, q) ==>
              q in f && DirentOf(line) == Dirent(Base(line.path), GitMetaOf(f[q]).mode, GitMetaOf(f[q]).size)
    ensures !IsDirIn(f, q) ==> line.ref == BlobRef(f[q].contents)
  {
    hide CleanPath, Base;
  }

  lemma GitMetaDirs(f: Files, d: string)
    ensures IsDirIn(GitMeta(f), d) <==> IsDirIn(f, d)
  {
    if IsDirIn(f, d) { var p :| p in f && Below(d, p); assert p in GitMeta(f); }
    if IsDirIn(GitMeta(f), d) { var p :| p in GitMeta(f) && Below(d, p); assert p in f; }
  }

  // An entry of a directory is what some line puts there.
  lemma ChildrenAreEntered(lines: seq<Line>, f: Files, d: string, e: Dirent)
    requires ListingOf(lines, f) && ValidFiles(f)
    ensures Child(GitMeta(f), d, e, GIT_DIR) <==> Enters(lines, d, e)
  {
    if Child(GitMeta(f), d, e, GIT_DIR) { ChildIsEntered(lines, f, d, e); }
    if Enters(lines, d, e) { EnteredIsChild(lines, f, d, e); }
  }

  lemma ChildIsEntered(lines: seq<Line>, f: Files, d: string, e: Dirent)
    requires ListingOf(lines, f) && ValidFiles(f) && Child(GitMeta(f), d, e, GIT_DIR)
    ensures Enters(lines, d, e)
  {
    var p := Under(d, e.name);
    GitMetaDirs(f, p);
    WantedChild(f, d, e.name);
    hide CleanPath, Base, Dir, ValidFiles, IsDirIn, Wanted;
    assert Lists(lines, p);
    var i :| 0 <= i < |lines| && lines[i].path == p;
    ModesAgree(lines[i], f, p);
    JoinParts(d, e.name);
    if p in f { FileIsNoDir(f, p); }
    assert DirentOf(lines[i]) == e;
  }

  lemma WantedChild(f: Files, d: string, n: string)
    requires ValidFiles(f) && CleanName(n) && (Under(d, n) in f || IsDirIn(f, Under(d, n)))
    ensures Wanted(f, Under(d, n)) && (d == "" || CleanPath(d))
  {
    hide CleanPath;
    var p := Under(d, n);
    if p !in f {
      var q :| q in f && Below(p, q);
      CleanRest(p, q);
    }
    JoinBelow(d, n);
    CleanRest(d, p);
  }

  lemma EnteredIsChild(lines: seq<Line>, f: Files, d: string, e: Dirent)
    requires ListingOf(lines, f) && ValidFiles(f) && Enters(lines, d, e)
    ensures Child(GitMeta(f), d, e, GIT_DIR)
  {
    hide CleanPath, Base, Dir, ValidFiles, IsDirIn, Wanted, Parent, DirentOf;
    var i :| 0 <= i < |lines| && Parent(lines[i].path) == d && DirentOf(lines[i]) == e;
    var p := lines[i].path;
    Parts(p);
    ModesAgree(lines[i], f, p);
    GitMetaDirs(f, p);
  }

  lemma DirsAreIndexed(dirEnts: DirMap, lines: seq<Line>, f: Files)
    requires ListingOf(lines, f) && ValidFiles(f) && DirsOf(dirEnts, lines)
    ensures Indexes(dirEnts, GitMeta(f), GIT_DIR)
  {
    forall d ensures Listing(EntsIn(lines, d), GitMeta(f), d, GIT_DIR) {
      EntsInOnce(lines, d);
      forall e ensures e in EntsIn(lines, d) <==> Child(GitMeta(f), d, e, GIT_DIR) {
        EntsInAre(lines, d, e);
        ChildrenAreEntered(lines, f, d, e);
      }
    }
    hide ListingOf, EntsIn, ValidFiles;
    forall d ensures EntsIn(lines, d) != [] <==> IsDirIn(GitMeta(f), d) {
      ListedIffDir(EntsIn(lines, d), f, d);
    }
  }

  // A directory has an entry, and only a directory has one.
  lemma ListedIffDir(ents: seq<Dirent>, f: Files, d: string)
    requires ValidFiles(f) && Listing(ents, GitMeta(f), d, GIT_DIR)
    ensures ents != [] <==> IsDirIn(GitMeta(f), d)
  {
    var g := GitMeta(f);
    hide NamesOnce;
    if ents != [] {
      var e := ents[0];
      ChildMeansDir(g, d, e, GIT_DIR);
    }
    if IsDirIn(g, d) {
      var q :| q in g && Below(d, q);
      assert q in f;
      ChildStep(d, q);
      hide CleanPath;
      var n := ChildName(d, q);
      var p := Under(d, n);
      var e := if p == q then Dirent(n, g[q].mode, g[q].size) else Dirent(n, GIT_DIR, 0);
      if p != q { assert IsDirIn(g, p); }
      assert Child(g, d, e, GIT_DIR);
      assert e in ents;
    }
  }

  lemma BlobsAreFiles(lines: seq<Line>, f: Files)
    requires ListingOf(lines, f) && ValidFiles(f)
    ensures BlobsIn(lines).Keys == f.Keys
    ensures forall p :: p in f ==>
              BlobsIn(lines)[p] == BlobMeta(BlobRef(f[p].contents), GitMetaOf(f[p]).size, GitMetaOf(f[p]).mode)
  {
    forall p ensures p in BlobsIn(lines) <==> p in f { BlobIsFile(lines, f, p); }
    forall p | p in f
      ensures BlobsIn(lines)[p] == BlobMeta(BlobRef(f[p].contents), GitMetaOf(f[p]).size, GitMetaOf(f[p]).mode)
    {
      BlobIsFile(lines, f, p);
    }
  }

  lemma BlobIsFile(lines: seq<Line>, f: Files, p: string)
    requires ListingOf(lines, f) && ValidFiles(f)
    ensures p in BlobsIn(lines) <==> p in f
    ensures p in f ==> BlobsIn(lines)[p] == BlobMeta(BlobRef(f[p].contents), GitMetaOf(f[p]).size, GitMetaOf(f[p]).mode)
  {
    hide CleanPath, IsDirIn, ModeFromOctal;
    BlobsInAre(lines, p);
    if p in f {
      assert Wanted(f, p);
      assert Lists(lines, p);
      var i :| 0 <= i < |lines| && lines[i].path == p;
      FileIsNoDir(f, p);
      ModesAgree(lines[i], f, p);
    }
    if p in BlobsIn(lines) {
      var i :| 0 <= i < |lines| && lines[i].path == p &&
               BlobsIn(lines)[p] == BlobMeta(lines[i].ref, SizeOf(lines[i]), ModeFromOctal(lines[i].mode));
      ModesAgree(lines[i], f, p);
    }
  }
}
