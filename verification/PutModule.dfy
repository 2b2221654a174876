// PutModule of store/gitstore/gitstore.go: from a module's files to git objects
// and back to a handle, and the mirror of that handle on a remote client.

module PutModule {
  import opened Wrappers
  import opened Strings
  import opened Paths
  import opened GitObjects
  import opened TreeBuilder
  import opened TreeMeaning
  import opened LsTree
  import opened ModIndex
  import opened GitStore
  import opened RemoteStore
  import opened DirMapBuilder
  import opened PackFile
  import opened PackSender
  import opened ModNames
  import opened Refs
  import RecordMarking

  datatype PutFile<E> = PutFile(path: string, open: Result<string, E>, mode: FileMode)

  datatype PutError<E> = NoRefName | OpenFailed(e: E) | BadName | UpdateFailed | NoZipTree

  // data.Files as a map: a later file replaces an earlier one of the same path.
  ghost function FilesPut<E>(files: seq<PutFile<E>>): Files {
    if files == [] then map[]
    else
      var x := files[|files| - 1];
      var before := FilesPut(files[..|files| - 1]);
      if x.open.Ok? then before[x.path := FileInfo(x.open.value, x.mode, BlobRef(x.open.value))] else before
  }

  // ----- the files of the tree builder: metadata, and the zip below "zip/"

  predicate MetaName(p: string) {
    p in {"ziphash", "info", "mod"}
  }

  ghost predicate Parts3(parts: Files) {
    forall p :: p in parts ==> MetaName(p)
  }

  // f holds the metadata files parts, and the files z below zip/.
  ghost predicate Comprises(f: Files, parts: Files, z: Files) {
    && (forall p :: p in f <==> p in parts || ("zip/" < p && p[4..] in z))
    && (forall p :: p in f ==> f[p] == if p in parts then parts[p] else z[p[4..]])
  }

  lemma ZipPath(p: string)
    ensures ("zip/" + p)[4..] == p && "zip/" <= "zip/" + p
    ensures p != "" ==> "zip/" < "zip/" + p
    ensures Below("zip", "zip/" + p) <==> p != ""
  {
  }

  lemma NotMeta(p: string)
    requires "zip/" <= p
    ensures !MetaName(p)
  {
    assert p[3] == '/';
  }

  lemma HoldsZip(f: Files, parts: Files, z: Files)
    requires Comprises(f, parts, z) && Parts3(parts) && ValidFiles(z)
    ensures Sub(f, "zip/") == z
    ensures ValidFiles(f)
    ensures z != map[] ==> IsDirIn(f, "zip")
  {
    hide ValidFiles, Comprises, CleanPath;
    forall q ensures q in Sub(f, "zip/") <==> q in z { ZipMember(f, parts, z, q); }
    forall q | q in z ensures Sub(f, "zip/")[q] == z[q] { ZipMember(f, parts, z, q); }
    forall p | p in f ensures CleanPath(p) { HoldsClean(f, parts, z, p); }
    forall p, q | p in f && q in f ensures !Below(p, q) { HoldsFlat(f, parts, z, p, q); }
    FilesAreValid(f);
    if z != map[] {
      var q :| q in z;
      ZipMember(f, parts, z, q);
      ZipPath(q);
    }
  }

  lemma FilesAreValid(f: Files)
    requires forall p :: p in f ==> CleanPath(p)
    requires forall p, q :: p in f && q in f ==> !Below(p, q)
    ensures ValidFiles(f)
  {
  }

  lemma ZipMember(f: Files, parts: Files, z: Files, q: string)
    requires Comprises(f, parts, z) && Parts3(parts) && ValidFiles(z)
    ensures q in z ==> q != ""
    ensures q != "" && "zip/" + q in f <==> q in z
    ensures q in z ==> f["zip/" + q] == z[q]
  {
    ZipPath(q);
    NotMeta("zip/" + q);
    if q in z { CleanEnds(q); }
  }

  lemma MetaIsClean(p: string)
    requires MetaName(p)
    ensures CleanName(p) && CleanPath(p)
  {
    CleanNameIsPath(p);
  }

  lemma ZipIsClean(q: string)
    requires CleanPath(q)
    ensures CleanPath("zip/" + q)
  {
    CleanNameIsPath("zip");
    hide CleanPath;
    CleanSplit("zip", q);
    assert "zip" + "/" + q == "zip/" + q;
  }

  lemma InZip(f: Files, parts: Files, z: Files, p: string)
    requires Comprises(f, parts, z) && ValidFiles(z) && p in f && p !in parts
    ensures CleanPath(p) && p[4..] in z
  {
    hide CleanPath, ValidFiles;
    FileIsClean(z, p[4..]);
    assert p == "zip/" + p[4..];
    ZipIsClean(p[4..]);
  }

  lemma HoldsClean(f: Files, parts: Files, z: Files, p: string)
    requires Comprises(f, parts, z) && Parts3(parts) && ValidFiles(z) && p in f
    ensures CleanPath(p)
  {
    hide CleanPath, MetaName;
    if p in parts {
      MetaIsClean(p);
    } else {
      InZip(f, parts, z, p);
    }
  }

  lemma HoldsFlat(f: Files, parts: Files, z: Files, p: string, q: string)
    requires Comprises(f, parts, z) && Parts3(parts) && ValidFiles(z) && p in f && q in f
    ensures !Below(p, q)
  {
    hide CleanPath, MetaName;
    if q in parts {
      HoldsClean(f, parts, z, p);
      CleanEnds(p);
      MetaHasNoSlash(p, q);
    } else if p in parts {
      NotBelowMeta(p, q);
    } else {
      ZipBelow(p, q);
      NotBelowFile(z, p[4..], q[4..]);
    }
  }

  lemma BelowHasSlash(p: string, q: string)
    requires p != "" && Below(p, q)
    ensures '/' in q
  {
    assert q[|p|] == '/';
  }

  lemma MetaHasNoSlash(p: string, q: string)
    requires p != "" && MetaName(q)
    ensures !Below(p, q)
  {
    MetaIsClean(q);
    hide CleanPath, MetaName;
    if Below(p, q) { BelowHasSlash(p, q); }
  }

  lemma NotBelowMeta(p: string, q: string)
    requires MetaName(p) && "zip/" < q
    ensures !Below(p, q)
  {
    assert "zip/"[0] == 'z' && "zip/"[3] == '/';
    assert q[0] == 'z' && q[3] == '/';
    assert p[0] == 'z' ==> |p| > 3 && p[3] == 'h';
    if Below(p, q) { FirstChars(p, q); }
  }

  lemma FirstChars(p: string, q: string)
    requires p != "" && Below(p, q)
    ensures forall i :: 0 <= i < |p| ==> q[i] == p[i]
  {
    assert Pre(p) == p + "/";
  }

  lemma ZipBelow(p: string, q: string)
    requires "zip/" < p && "zip/" < q
    ensures Below(p, q) ==> Below(p[4..], q[4..])
  {
    assert p == "zip/" + p[4..];
    if Below(p, q) {
      assert q[..|p| + 1] == p + "/";
      assert q[4..][..|p| - 4] == p[4..];
    }
  }

  lemma HoldsNone()
    ensures Comprises(map[], map[], map[])
  {
  }

  lemma HoldsPart(f: Files, parts: Files, z: Files, ext: string, fi: FileInfo)
    requires Comprises(f, parts, z) && Parts3(parts) && MetaName(ext)
    ensures Comprises(f[ext := fi], parts[ext := fi], z) && Parts3(parts[ext := fi])
  {
  }

  lemma HoldsFile(f: Files, parts: Files, z: Files, path: string, fi: FileInfo)
    requires Comprises(f, parts, z) && Parts3(parts) && path != ""
    ensures Comprises(f["zip/" + path := fi], parts, z[path := fi])
  {
    var p := "zip/" + path;
    ZipPath(path);
    NotMeta(p);
    forall q | "zip/" < q && q[4..] == path ensures q == p {
      assert q == "zip/" + q[4..];
    }
  }

  // ----- the listing of <tree>:zip

  function ListZip(repo: Repo, root: ObjRef): Option<seq<Line>> {
    match Resolve(repo, root, "zip")
    case None => None
    case Some(it) => List(repo, it.ref, "")
  }

  lemma ListingFromRoot(lines: seq<Line>, z: Files, names: set<string>)
    requires ListsExactly(lines, z, "", names)
    requires forall q :: Wanted(z, q) ==> Cut(q, '/').before in names
    ensures ListingOf(lines, z)
  {
    hide CleanPath, IsDirIn, Lists, Wanted;
    forall i | 0 <= i < |lines| ensures LineHolds(lines[i], z, lines[i].path) {
      assert LineOf(lines[i], z, "");
      assert lines[i].path[0..] == lines[i].path;
    }
    forall q | Wanted(z, q) ensures Lists(lines, q) {
      assert Lists(lines, "" + q);
      assert "" + q == q;
    }
  }

  // Only a directory "zip" can be listed, and it is there iff the zip has files.
  lemma NoZip(f: Files, parts: Files, z: Files)
    requires Comprises(f, parts, z) && Parts3(parts) && ValidFiles(z)
    ensures "zip" !in f && (IsDirIn(f, "zip") ==> z != map[])
  {
    if IsDirIn(f, "zip") {
      var p :| p in f && Below("zip", p);
      if p in parts { MetaHasNoSlash("zip", p); }
    }
  }

  lemma ListZipIsExact(repo: Repo, root: ObjRef, f: Files, parts: Files, z: Files)
    requires Closed(repo) && root in repo && IsTree(root, f)
    requires Comprises(f, parts, z) && Parts3(parts) && ValidFiles(z)
    ensures ListZip(repo, root).Some? <==> z != map[]
    ensures z != map[] ==> ListingOf(ListZip(repo, root).value, z)
  {
    hide IsTree, Comprises, ValidFiles, CleanPath, Closed, ListsExactly, IsDirIn, Wanted, Parts3;
    HoldsZip(f, parts, z);
    NoZip(f, parts, z);
    ZipName();
    ResolveIsExact(repo, root, f, "zip");
    var r := Resolve(repo, root, "zip");
    if z != map[] {
      ListIsExact(repo, r.value.ref, z, "");
      ListingFromRoot(List(repo, r.value.ref, "").value, z, ItemNames(Items(r.value.ref)));
    }
  }

  lemma ZipName()
    ensures CleanPath("zip") && "zip" + "/" == "zip/"
  {
    CleanNameIsPath("zip");
  }

  // ----- PutModule

  datatype PutModuleData<E> = PutModuleData(
    info: Option<string>, modFile: Option<string>, zipHash: Option<string>, files: seq<PutFile<E>>)

  function Part<E>(data: PutModuleData<E>, ext: string): Option<string> {
    if ext == "ziphash" then data.zipHash
    else if ext == "info" then data.info
    else data.modFile
  }

  // A metadata file with these contents, mode 0644.
  ghost predicate IsPart(fi: FileInfo, contents: string) {
    fi.contents == contents && fi.mode == FileMode(Regular, 0x1A4)
  }

  // The three metadata files, each if given, added in any order.
  method AddParts<E>(tb: Builder, data: PutModuleData<E>) returns (ghost parts: Files)
    requires tb.Valid() && tb.f == map[]
    modifies tb
    ensures tb.Valid() && Comprises(tb.f, parts, map[]) && Parts3(parts)
    ensures forall ext :: ext in parts <==> MetaName(ext) && Part(data, ext).Some?
    ensures forall ext :: ext in parts ==> IsPart(parts[ext], Part(data, ext).value)
  {
    parts := map[];
    HoldsNone();
    var todo := {"ziphash", "info", "mod"};
    assert forall x :: x in todo <==> MetaName(x);
    hide MetaName, Part;
    while todo != {}
      invariant forall x :: x in todo ==> MetaName(x)
      invariant tb.Valid() && Comprises(tb.f, parts, map[]) && Parts3(parts)
      invariant forall ext :: ext in parts <==> MetaName(ext) && ext !in todo && Part(data, ext).Some?
      invariant forall ext :: ext in parts ==> IsPart(parts[ext], Part(data, ext).value)
      decreases |todo|
    {
      var ext :| ext in todo;
      todo := todo - {ext};
      var v := Part(data, ext);
      if v.None? {
        continue;
      }
      var all: Result<string, E> := Ok(v.value);
      ghost var fi := FileInfo(v.value, FileMode(Regular, 0x1A4), BlobRef(v.value));
      HoldsPart(tb.f, parts, map[], ext, fi);
      var r := tb.AddFile(ext, all, FileMode(Regular, 0x1A4));
      parts := parts[ext := fi];
    }
  }

  ghost predicate AllOpen<E>(files: seq<PutFile<E>>) {
    forall i :: 0 <= i < |files| ==> files[i].open.Ok?
  }

  method AddFiles<E>(tb: Builder, files: seq<PutFile<E>>, ghost parts: Files) returns (r: Result<(), E>)
    requires tb.Valid() && Comprises(tb.f, parts, map[]) && Parts3(parts)
    requires ValidFiles(FilesPut(files))
    requires forall i :: 0 <= i < |files| ==> files[i].path != ""
    modifies tb
    ensures tb.Valid()
    ensures r.Ok? <==> AllOpen(files)
    ensures r.Err? ==> exists i :: 0 <= i < |files| && files[i].open == Err(r.error) && AllOpen(files[..i])
    ensures r.Ok? ==> Comprises(tb.f, parts, FilesPut(files))
  {
    hide Comprises, Parts3, ValidFiles;
    var i := 0;
    while i < |files|
      invariant 0 <= i <= |files|
      invariant tb.Valid() && Comprises(tb.f, parts, FilesPut(files[..i])) && AllOpen(files[..i])
    {
      var x := files[i];
      assert files[..i + 1] == files[..i] + [x] && files[..i + 1][..i] == files[..i];
      if x.open.Ok? {
        HoldsFile(tb.f, parts, FilesPut(files[..i]), x.path, FileInfo(x.open.value, x.mode, BlobRef(x.open.value)));
      }
      var added := tb.AddFile("zip/" + x.path, x.open, x.mode);
      if added.Err? {
        return Err(added.error);
      }
      i := i + 1;
    }
    assert files[..i] == files;
    return Ok(());
  }

  lemma NulsAreInZip(f: Files, parts: Files, z: Files)
    requires Comprises(f, parts, z) && Parts3(parts) && ValidFiles(z)
    ensures NoNuls(f) <==> NoNuls(z)
  {
    hide Comprises, ValidFiles, Parts3, MetaName;
    forall p | NoNuls(z) && p in f ensures '\0' !in p { NulInFile(f, parts, z, p); }
    forall q | NoNuls(f) && q in z ensures '\0' !in q {
      ZipMember(f, parts, z, q);
      ZipNul(q);
    }
  }

  lemma ZipNul(q: string)
    ensures '\0' in "zip/" + q <==> '\0' in q
  {
    var p := "zip/" + q;
    assert forall i :: 0 <= i < |q| ==> p[i + 4] == q[i];
  }

  lemma NulInFile(f: Files, parts: Files, z: Files, p: string)
    requires Comprises(f, parts, z) && Parts3(parts) && p in f && NoNuls(z)
    ensures '\0' !in p
  {
    if p in parts {
      assert MetaName(p);
    } else {
      hide MetaName;
      assert p == "zip/" + p[4..];
      ZipNul(p[4..]);
    }
  }

  lemma UnionGrows(have: Repo, more: Repo)
    requires Closed(have) && Closed(more)
    ensures Grows(have, have + more)
  {
  }

  lemma HandleFromListing(mh: Result<Handle, Error>, out: seq<Line>, z: Files)
    requires ListingOf(out, z) && ValidFiles(z)
    requires mh.Err? <==> exists i :: 0 <= i < |out| && Malformed(out[i])
    requires mh.Ok? ==> mh.value.Git? && mh.value.blobMeta == BlobsIn(out) && DirsOf(mh.value.dirEnts, out)
    ensures mh.Ok? && HandleOf(mh.value, GitMeta(z))
    ensures forall p :: p in mh.value.blobMeta ==> p in z && mh.value.blobMeta[p].blob == BlobRef(z[p].contents)
  {
    hide ListingOf, Malformed, ValidFiles, Indexes, LineHolds, DirsOf, BlobsIn;
    forall i | 0 <= i < |out| ensures !Malformed(out[i]) { LineIsWellFormed(out, z, i); }
    DirsAreIndexed(mh.value.dirEnts, out, z);
    BlobsAreFiles(out, z);
  }

  lemma LineIsWellFormed(out: seq<Line>, z: Files, i: nat)
    requires ListingOf(out, z) && ValidFiles(z) && i < |out|
    ensures !Malformed(out[i])
  {
    hide ValidFiles, LineHolds, Malformed;
    ModesAgree(out[i], z, out[i].path);
  }

  // What git holds for a stored module: a root tree with the metadata files
  // and, below zip/, the module's files z.
  ghost predicate HoldsModule(repo: Repo, root: ObjRef, parts: Files, z: Files) {
    && Closed(repo) && root in repo && Parts3(parts) && ValidFiles(z)
    && exists f: Files :: Comprises(f, parts, z) && IsTree(root, f)
  }

  // newModHandle with its git subprocess: list <modTree>:zip, then index it.
  method OpenModHandle(modTree: ObjRef, repo: Repo, ghost parts: Files, ghost z: Files)
    returns (r: Result<Handle, Error>)
    requires HoldsModule(repo, modTree, parts, z)
    ensures r.Ok? <==> z != map[]
    ensures r.Ok? ==> r.value.Git? && r.value.modTree == modTree && HandleOf(r.value, GitMeta(z))
    ensures r.Ok? ==> forall p :: p in r.value.blobMeta ==> p in z && r.value.blobMeta[p].blob == BlobRef(z[p].contents)
  {
    hide IsTree, Comprises, HandleOf, ListingOf, DirsOf, Malformed;
    ghost var f: Files :| Comprises(f, parts, z) && IsTree(modTree, f);
    ListZipIsExact(repo, modTree, f, parts, z);
    var out := ListZip(repo, modTree);
    if out.None? {
      return Err(NotExist);
    }
    r := NewModHandle(modTree, out.value);
    HandleFromListing(r, out.value, z);
  }

  // The part of PutModule that fills the tree builder and builds the root.
  method Compile<E>(data: PutModuleData<E>)
    returns (r: Result<ObjRef, PutError<E>>, tb: Builder, ghost parts: Files)
    requires ValidFiles(FilesPut(data.files))
    requires forall i :: 0 <= i < |data.files| ==> data.files[i].path != ""
    ensures tb.Valid()
    ensures (r.Err? && r.error.OpenFailed?) <==> !AllOpen(data.files)
    ensures (r.Err? && r.error.BadName?) <==> AllOpen(data.files) && !NoNuls(FilesPut(data.files))
    ensures r.Ok? <==> AllOpen(data.files) && NoNuls(FilesPut(data.files))
    ensures IsParts(parts, data)
    ensures r.Ok? ==> HoldsModule(tb.hashSet, r.value, parts, FilesPut(data.files))
  {
    hide Comprises, Parts3, ValidFiles, NoNuls, IsTree, Closed, Emitted;
    hide BlobsStored, MetaName, Part, AllOpen, FilesPut, HoldsModule;
    ghost var z := FilesPut(data.files);
    tb := new Builder();
    parts := AddParts(tb, data);
    assert IsParts(parts, data);
    hide IsParts;
    var added := AddFiles(tb, data.files, parts);
    if added.Err? {
      return Err(OpenFailed(added.error)), tb, parts;
    }
    HoldsZip(tb.f, parts, z);
    NulsAreInZip(tb.f, parts, z);
    var root := tb.BuildRoot();
    if root.Err? {
      return Err(BadName), tb, parts;
    }
    StoredIntro(tb.hashSet, root.value, parts, z, tb.f);
    return Ok(root.value), tb, parts;
  }

  lemma StoredIntro(repo: Repo, root: ObjRef, parts: Files, z: Files, f: Files)
    requires Closed(repo) && root in repo && Parts3(parts) && ValidFiles(z)
    requires Comprises(f, parts, z) && IsTree(root, f)
    ensures HoldsModule(repo, root, parts, z)
  {
  }

  ghost predicate IsParts<E>(parts: Files, data: PutModuleData<E>) {
    && Parts3(parts)
    && (forall ext :: ext in parts <==> MetaName(ext) && Part(data, ext).Some?)
    && (forall ext :: ext in parts ==> IsPart(parts[ext], Part(data, ext).value))
  }

  type RefMap = map<string, ObjRef>

  // The root of a tree of the metadata files and the zip's.
  ghost predicate RootOf(root: ObjRef, parts: Files, z: Files) {
    exists f: Files :: Comprises(f, parts, z) && IsTree(root, f)
  }

  // PutModule gets as far as sending the objects.
  ghost predicate Compiles<E>(mv: ModuleVersion, data: PutModuleData<E>) {
    RefName(mv).Some? && AllOpen(data.files) && NoNuls(FilesPut(data.files))
  }

  // PutModule. gitRuns is whether the processes of sendToGit run, whose failure
  // is passed over; updated is whether git update-ref succeeds for an object
  // that git has. A module without files fails only after its ref is set.
  method Put<E>(
      k: Codec<Toks>, mv: ModuleVersion, data: PutModuleData<E>, have: Repo, refs: RefMap, gitRuns: bool, updated: bool)
    returns (r: Result<Handle, PutError<E>>, repo: Repo, refs': RefMap, ghost parts: Files, ghost root: ObjRef,
             ghost lacking: nat)
    requires GoodCodec(k) && Closed(have) && ValidFiles(FilesPut(data.files))
    requires forall i :: 0 <= i < |data.files| ==> data.files[i].path != ""
    ensures Closed(repo) && Grows(have, repo)
    ensures (r.Err? && r.error.NoRefName?) <==> RefName(mv).None?
    ensures (r.Err? && r.error.OpenFailed?) <==> RefName(mv).Some? && !AllOpen(data.files)
    ensures (r.Err? && r.error.BadName?) <==>
            RefName(mv).Some? && AllOpen(data.files) && !NoNuls(FilesPut(data.files))
    ensures Compiles(mv, data) ==>
              var done := updated && ((gitRuns && lacking < W) || root in have);
              && IsParts(parts, data) && RootOf(root, parts, FilesPut(data.files))
              && ((r.Err? && r.error.UpdateFailed?) <==> !done)
              && ((r.Err? && r.error.NoZipTree?) <==> done && FilesPut(data.files) == map[])
              && (r.Ok? <==> done && FilesPut(data.files) != map[])
              && refs' == (if done then refs[RefName(mv).value := root] else refs)
              && (done ==> HoldsModule(repo, root, parts, FilesPut(data.files)))
    ensures r.Ok? ==>
              Compiles(mv, data) && r.value.Git? && r.value.modTree == root
              && HandleOf(r.value, GitMeta(FilesPut(data.files)))
    ensures !Compiles(mv, data) ==> repo == have && refs' == refs
  {
    hide ValidFiles, Closed, Emitted, BlobsStored, AllOpen, HandleOf, FilesPut;
    hide IsParts, HoldsModule, GoodCodec, RefName, NoNuls, GitMeta, RootOf;
    repo, refs', parts, root, lacking := have, refs, map[], Zero, 0;
    GrowsSame(have);
    var ref := RefName(mv);
    if ref.None? {
      return Err(NoRefName), have, refs, parts, root, 0;
    }
    ghost var z := FilesPut(data.files);
    NoNulsInNone(z);
    var compiled: Result<ObjRef, PutError<E>>;
    var tb: Builder;
    compiled, tb, parts := Compile(data);
    if compiled.Err? {
      return Err(compiled.error), have, refs, parts, root, 0;
    }
    root := compiled.value;
    ModuleRoot(tb.hashSet, root, parts, z);
    if gitRuns {
      var sent;
      ghost var missing;
      sent, missing := SendToGit(k, tb.hashSet, tb.hashes, have);
      lacking := |missing|;
      if sent.Some? {
        repo := sent.value;
        UnionGrows(have, tb.hashSet);
        StoredGrows(tb.hashSet, repo, root, parts, z);
      }
    }
    if compiled.value in have { StoredBefore(tb.hashSet, have, repo, root, parts, z); }
    if !updated || compiled.value !in repo {
      return Err(UpdateFailed), repo, refs, parts, root, lacking;
    }
    refs' := refs[ref.value := compiled.value];
    var mh := OpenModHandle(compiled.value, repo, parts, z);
    if mh.Err? {
      return Err(NoZipTree), repo, refs', parts, root, lacking;
    }
    return Ok(mh.value), repo, refs', parts, root, lacking;
  }

  lemma ModuleRoot(repo: Repo, root: ObjRef, parts: Files, z: Files)
    requires HoldsModule(repo, root, parts, z)
    ensures RootOf(root, parts, z) && Closed(repo) && root in repo
  {
  }

  // A tree that git had before is there with all it refers to.
  lemma StoredBefore(built: Repo, have: Repo, repo: Repo, root: ObjRef, parts: Files, z: Files)
    requires HoldsModule(built, root, parts, z) && Closed(repo) && Grows(have, repo) && root in have
    ensures HoldsModule(repo, root, parts, z)
  {
  }

  lemma GrowsSame(have: Repo)
    ensures Grows(have, have)
  {
  }

  lemma NoNulsInNone(z: Files)
    ensures z == map[] ==> NoNuls(z)
  {
  }

  datatype GetError = Invalid | CacheMiss | NoListing

  // GetZipRoot: the handle of a stored module version, found by its ref.
  method GetZipRoot(mv: ModuleVersion, refs: RefMap, repo: Repo, ghost parts: Files, ghost z: Files)
    returns (r: Result<Handle, GetError>)
    requires var ref := RefName(mv); ref.Some? && ref.value in refs ==> HoldsModule(repo, refs[ref.value], parts, z)
    ensures RefName(mv).None? ==> r == Err(Invalid)
    ensures RefName(mv).Some? && RefName(mv).value !in refs ==> r == Err(CacheMiss)
    ensures RefName(mv).Some? && RefName(mv).value in refs ==>
              && (r.Ok? <==> z != map[])
              && (r.Ok? ==> r.value.Git? && r.value.modTree == refs[RefName(mv).value] && HandleOf(r.value, GitMeta(z)))
              && (r.Err? ==> r == Err(NoListing))
  {
    hide RefName, HoldsModule, HandleOf, GitMeta;
    var ref := RefName(mv);
    if ref.None? {
      return Err(Invalid);
    }
    if ref.value !in refs {
      return Err(CacheMiss);
    }
    var mh := OpenModHandle(refs[ref.value], repo, parts, z);
    return if mh.Ok? then Ok(mh.value) else Err(NoListing);
  }

  // A module version that was put is found again, with the same files.
  method PutThenGet<E>(k: Codec<Toks>, mv: ModuleVersion, data: PutModuleData<E>, have: Repo, refs: RefMap)
    returns (put: Result<Handle, PutError<E>>, got: Result<Handle, GetError>, ghost root: ObjRef, ghost lacking: nat)
    requires GoodCodec(k) && Closed(have) && ValidFiles(FilesPut(data.files))
    requires forall i :: 0 <= i < |data.files| ==> data.files[i].path != ""
    ensures put.Ok? <==> && Compiles(mv, data) && FilesPut(data.files) != map[] && (lacking < W || root in have)
    ensures put.Ok? ==>
              && put.value.Git? && got.Ok? && got.value.Git? && got.value.modTree == put.value.modTree
              && HandleOf(got.value, GitMeta(FilesPut(data.files)))
  {
    hide ValidFiles, Closed, AllOpen, HandleOf, FilesPut, IsParts, HoldsModule, GoodCodec, RefName, NoNuls, GitMeta;
    hide RootOf;
    var repo, refs';
    ghost var parts;
    put, repo, refs', parts, root, lacking := Put(k, mv, data, have, refs, true, true);
    got := Err(CacheMiss);
    if put.Ok? {
      got := GetZipRoot(mv, refs', repo, parts, FilesPut(data.files));
    }
  }

  lemma StoredGrows(before: Repo, after: Repo, root: ObjRef, parts: Files, z: Files)
    requires HoldsModule(before, root, parts, z) && Closed(after) && forall h :: h in before ==> h in after
    ensures HoldsModule(after, root, parts, z)
  {
  }

  // ----- GetFile and the meta files

  datatype FileError = Absent | IsDirectory

  // GetFile of gitstore: the handle's directories, then <modTree>:zip/<path>.
  function GetFile(repo: Repo, h: Handle, path: string): Result<seq<Tok>, FileError>
    requires h.Git?
  {
    if path in h.dirEnts then Err(IsDirectory)
    else
      match Resolve(repo, h.modTree, "zip/" + path)
      case None => Err(Absent)
      case Some(it) =>
        if it.ref !in repo then Err(Absent)
        else if repo[it.ref].typ == "tree" then Err(IsDirectory)
        else Ok(repo[it.ref].content)
  }

  // Reading any clean path gives the stored contents of a file, "is a
  // directory" for a directory, and "not found" for the rest.
  lemma GetFileIsExact(repo: Repo, h: Handle, parts: Files, z: Files, path: string)
    requires h.Git? && HandleOf(h, GitMeta(z)) && HoldsModule(repo, h.modTree, parts, z)
    requires z != map[] && (path == "" || CleanPath(path))
    ensures GetFile(repo, h, path) ==
            if path in z then Ok(Lit(z[path].contents))
            else if IsDirIn(z, path) then Err(IsDirectory)
            else Err(Absent)
  {
    hide IsTree, Comprises, CleanPath, ValidFiles, Closed;
    var f: Files :| Comprises(f, parts, z) && IsTree(h.modTree, f);
    HoldsZip(f, parts, z);
    GitMetaDirs(z, path);
    if path == "" {
      EmptyPath(z);
    } else {
      ZipIsClean(path);
      ResolveIsExact(repo, h.modTree, f, "zip/" + path);
      ZipMember(f, parts, z, path);
      ZipBelowName(f, path);
      var r := Resolve(repo, h.modTree, "zip/" + path);
      if r.Some? { ObjectOf(repo, r.value.ref); }
    }
  }

  lemma EmptyPath(z: Files)
    requires ValidFiles(z)
    ensures "" !in z && (IsDirIn(z, "") <==> z != map[])
  {
    if "" in z {
      FileIsClean(z, "");
      CleanEnds("");
    }
    if z != map[] {
      var p :| p in z;
      assert Below("", p);
    }
  }

  lemma ZipBelowName(f: Files, path: string)
    requires ValidFiles(f) && CleanPath(path)
    ensures IsDirIn(f, "zip/" + path) <==> IsDirIn(Sub(f, "zip/"), path)
  {
    hide CleanPath, ValidFiles, IsDirIn;
    assert CleanName("zip");
    BelowName(f, "zip", path);
    assert "zip" + "/" == "zip/" && "zip" + "/" + path == "zip/" + path;
  }

  lemma ObjectOf(repo: Repo, h: ObjRef)
    requires Closed(repo) && h in repo
    ensures h.Sha1? && repo[h] == Obj(h.typ, h.content, h)
  {
  }

  // The metadata files are at the root of the tree.
  lemma MetaFileIsExact(repo: Repo, root: ObjRef, parts: Files, z: Files, ext: string)
    requires HoldsModule(repo, root, parts, z) && MetaName(ext)
    ensures Resolve(repo, root, ext).Some? <==> ext in parts
    ensures ext in parts ==>
              && Resolve(repo, root, ext).value.ref == BlobRef(parts[ext].contents)
              && BlobRef(parts[ext].contents) in repo
              && Resolve(repo, root, ext).value.mode == GitMode(parts[ext].mode)
  {
    MetaIsClean(ext);
    hide IsTree, CleanPath, ValidFiles, Closed;
    var f: Files :| Comprises(f, parts, z) && IsTree(root, f);
    HoldsZip(f, parts, z);
    ResolveIsExact(repo, root, f, ext);
    NothingUnderMeta(f, parts, z, ext);
  }

  lemma NothingUnderMeta(f: Files, parts: Files, z: Files, ext: string)
    requires Comprises(f, parts, z) && Parts3(parts) && MetaName(ext)
    ensures !IsDirIn(f, ext) && (ext in f <==> ext in parts)
  {
    MetaIsClean(ext);
    forall p | p in f ensures !Below(ext, p) {
      if p in parts { MetaHasNoSlash(ext, p); } else { NotBelowMeta(ext, p); }
    }
  }

  // ----- the mirror: store, walk, rebuild, walk again

  // What a client of the remote store ends up with, and what both walks return.
  method Mirror<E>(k: Codec<Toks>, mv: ModuleVersion, data: PutModuleData<E>, have: Repo, refs: RefMap)
    returns (git: Result<Handle, PutError<E>>, remote: Handle, flat: MetaMap, again: MetaMap, ghost root: ObjRef,
             ghost lacking: nat)
    requires GoodCodec(k) && Closed(have) && ValidFiles(FilesPut(data.files))
    requires forall i :: 0 <= i < |data.files| ==> data.files[i].path != ""
    ensures git.Ok? <==> && Compiles(mv, data) && FilesPut(data.files) != map[] && (lacking < W || root in have)
    ensures git.Ok? ==>
              var z := FilesPut(data.files);
              && git.value.Git? && HandleOf(git.value, GitMeta(z))
              && remote.Remote? && HandleOf(remote, GitMeta(z))
              && flat == GitMeta(z) && again == flat
  {
    hide HandleOf, ValidFiles, AllOpen, NoNuls, FilesPut, HoldsModule, IsParts, Closed, GoodCodec, RefName, RootOf;
    remote, flat, again := Remote(map[], map[]), map[], map[];
    var repo, refs';
    ghost var parts;
    git, repo, refs', parts, root, lacking := Put(k, mv, data, have, refs, true, true);
    if git.Err? {
      return;
    }
    ghost var z := FilesPut(data.files);
    ghost var f := GitMeta(z);
    GitMetaValid(z);
    ghost var bound := LongestPath(z);
    var served := new ModVersionMap();
    var walked := WalkFiles(git.value, "", served, f, bound);
    WalkedAll(f);
    flat := served.m;
    var dirs := BuildDirMap(flat);
    remote := Remote(flat, dirs);
    RemoteHandle(flat, dirs);
    var back := new ModVersionMap();
    walked := WalkFiles(remote, "", back, f, bound);
    again := back.m;
  }

  lemma GitMetaValid(z: Files)
    requires ValidFiles(z)
    ensures ValidFiles(GitMeta(z)) && AllFiles(GitMeta(z)) && GitMeta(z).Keys == z.Keys
  {
    hide CleanPath;
    forall p | p in z ensures !IsDirIn(GitMeta(z), p) { GitMetaDirs(z, p); }
  }

  lemma WalkedAll(f: MetaMap)
    requires ValidFiles(f)
    ensures map[] + FilesBelow(f, "") == f
  {
    forall p | p in f ensures Below("", p) {
      FileIsClean(f, p);
      CleanEnds(p);
    }
  }

  lemma RemoteHandle(files: MetaMap, dirs: DirMap)
    requires Indexes(dirs, files, REMOTE_DIR)
    ensures HandleOf(Remote(files, dirs), files)
  {
  }
}
