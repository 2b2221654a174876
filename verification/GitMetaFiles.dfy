// The metadata files of a module version in store/gitstore/gitstore.go (749-836
// and 961-970): the readers, the two writers of single files, and what is read
// after these and after PutModule.

module GitMetaFiles {
  import opened Wrappers
  import opened Strings
  import opened GitObjects
  import opened TreeBuilder
  import opened TreeMeaning
  import opened ModIndex
  import opened ModNames
  import opened Refs
  import opened PackFile
  import opened PackSender
  import opened PutModule

  datatype ReadError = NoRef | Miss | NotABlob | NotThere

  // getObject of a ref, as a blob.
  function RefBlob(refs: RefMap, repo: Repo, ref: string): Result<Toks, ReadError> {
    if ref !in refs || refs[ref] !in repo then Err(Miss)
    else if repo[refs[ref]].typ != "blob" then Err(NotABlob)
    else Ok(repo[refs[ref]].content)
  }

  // getObject of <tree>:<name>, as a blob.
  function TreeBlob(repo: Repo, tree: ObjRef, name: string): Option<Toks> {
    match Resolve(repo, tree, name)
    case None => None
    case Some(it) => if it.ref in repo && repo[it.ref].typ == "blob" then Some(repo[it.ref].content) else None
  }

  // From the version's tree, else from its "(info)" ref.
  function GetInfoFile(mv: ModuleVersion, refs: RefMap, repo: Repo): Result<Toks, ReadError> {
    match (RefOf(mv, RefKind.Zip), RefOf(mv, Info))
    case (Some(ref), Some(infoRef)) =>
      var inTree := if ref in refs then TreeBlob(repo, refs[ref], "info") else None;
      if inTree.Some? then Ok(inTree.value) else RefBlob(refs, repo, infoRef)
    case _ => Err(NoRef)
  }

  // From the "(mod)" ref alone.
  function GetModFile(mv: ModuleVersion, refs: RefMap, repo: Repo): Result<Toks, ReadError> {
    match RefOf(mv, Mod)
    case None => Err(NoRef)
    case Some(ref) => RefBlob(refs, repo, ref)
  }

  // From the handle's tree.
  function GetZipHash(h: Handle, repo: Repo): Result<Toks, ReadError>
    requires h.Git?
  {
    var inTree := TreeBlob(repo, h.modTree, "ziphash");
    if inTree.Some? then Ok(inTree.value) else Err(NotThere)
  }

  // Refs point at what git has.
  ghost predicate RefsKept(refs: RefMap, repo: Repo) {
    forall ref :: ref in refs ==> refs[ref] in repo
  }

  lemma TreeBlobIsExact(repo: Repo, root: ObjRef, parts: Files, z: Files, ext: string)
    requires HoldsModule(repo, root, parts, z) && MetaName(ext)
    ensures TreeBlob(repo, root, ext) == if ext in parts then Some(Lit(parts[ext].contents)) else None
  {
    hide HoldsModule, MetaName, Resolve;
    MetaFileIsExact(repo, root, parts, z, ext);
    if ext in parts { BlobIsFiled(repo, root, parts, z, parts[ext].contents); }
  }

  lemma BlobIsFiled(repo: Repo, root: ObjRef, parts: Files, z: Files, c: string)
    requires HoldsModule(repo, root, parts, z) && BlobRef(c) in repo
    ensures repo[BlobRef(c)].typ == "blob" && repo[BlobRef(c)].content == Lit(c)
  {
    hide Comprises, IsTree, ValidFiles;
    ObjectOf(repo, BlobRef(c));
  }

  lemma RefNamesDiffer(mv: ModuleVersion)
    requires RefName(mv).Some?
    ensures RefOf(mv, RefKind.Zip) == RefName(mv) && RefOf(mv, Mod).Some? && RefOf(mv, Info).Some?
    ensures RefOf(mv, Mod) != RefName(mv) && RefOf(mv, Info) != RefName(mv)
  {
    hide RefName;
    assert RefName(mv).value + "" == RefName(mv).value;
    assert |RefName(mv).value + "(mod)"| > |RefName(mv).value|;
    assert |RefName(mv).value + "(info)"| > |RefName(mv).value|;
  }

  lemma RefBlobGrows(refs: RefMap, have: Repo, repo: Repo, ref: string, x: string, root: ObjRef)
    requires Grows(have, repo) && RefsKept(refs, have) && x != ref
    ensures RefBlob(refs[x := root], repo, ref) == RefBlob(refs, have, ref)
  {
  }

  // After PutModule has set the version's ref: the info file is the one stored,
  // or what an "(info)" ref had before; the zip hash is the one stored; the mod
  // file is what a "(mod)" ref had before, whatever was stored.
  lemma ReadersAfterPut(
      mv: ModuleVersion, refs: RefMap, have: Repo, repo: Repo, h: Handle, parts: Files, z: Files)
    requires RefName(mv).Some? && Grows(have, repo) && RefsKept(refs, have)
    requires h.Git? && HoldsModule(repo, h.modTree, parts, z)
    ensures var after := refs[RefName(mv).value := h.modTree];
            && GetInfoFile(mv, after, repo) ==
               (if "info" in parts then Ok(Lit(parts["info"].contents))
                else RefBlob(refs, have, RefOf(mv, Info).value))
            && GetModFile(mv, after, repo) == GetModFile(mv, refs, have)
    ensures GetZipHash(h, repo) ==
            if "ziphash" in parts then Ok(Lit(parts["ziphash"].contents)) else Err(NotThere)
  {
    hide HoldsModule, RefName, TreeBlob, RefBlob, Grows, RefsKept;
    RefNamesDiffer(mv);
    hide RefOf;
    TreeBlobIsExact(repo, h.modTree, parts, z, "info");
    TreeBlobIsExact(repo, h.modTree, parts, z, "ziphash");
    RefBlobGrows(refs, have, repo, RefOf(mv, Info).value, RefName(mv).value, h.modTree);
    RefBlobGrows(refs, have, repo, RefOf(mv, Mod).value, RefName(mv).value, h.modTree);
  }

  lemma ModIsMeta()
    ensures MetaName("mod")
  {
  }

  // PutModule with data, and then the three readers. The mod file is stored in
  // the version's tree, where no reader looks for it.
  method PutThenRead<E>(k: Codec<Toks>, mv: ModuleVersion, data: PutModuleData<E>, have: Repo, refs: RefMap)
    returns (put: Result<Handle, PutError<E>>, info: Result<Toks, ReadError>, mod: Result<Toks, ReadError>,
             ziphash: Result<Toks, ReadError>, modInTree: Option<Toks>)
    requires GoodCodec(k) && Closed(have) && RefsKept(refs, have) && ValidFiles(FilesPut(data.files))
    requires forall i :: 0 <= i < |data.files| ==> data.files[i].path != ""
    ensures put.Ok? ==>
              && RefOf(mv, Info).Some?
              && info == (if data.info.Some? then Ok(Lit(data.info.value))
                          else RefBlob(refs, have, RefOf(mv, Info).value))
              && mod == GetModFile(mv, refs, have)
              && ziphash == (if data.zipHash.Some? then Ok(Lit(data.zipHash.value)) else Err(NotThere))
              && modInTree == (if data.modFile.Some? then Some(Lit(data.modFile.value)) else None)
  {
    hide ValidFiles, Closed, AllOpen, HandleOf, FilesPut, HoldsModule, GoodCodec, RefName, NoNuls, RootOf, IsParts;
    hide GetInfoFile, GetModFile, GetZipHash, RefBlob, RefsKept, Grows, RefOf, TreeBlob;
    var repo, after;
    ghost var parts: Files, root: ObjRef, lacking: nat;
    put, repo, after, parts, root, lacking := Put(k, mv, data, have, refs, true, true);
    info, mod, ziphash, modInTree := Err(NoRef), Err(NoRef), Err(NoRef), None;
    if put.Ok? {
      info := GetInfoFile(mv, after, repo);
      mod := GetModFile(mv, after, repo);
      ziphash := GetZipHash(put.value, repo);
      modInTree := TreeBlob(repo, put.value.modTree, "mod");
      ReadersAfterPut(mv, refs, have, repo, put.value, parts, FilesPut(data.files));
      ModIsMeta();
      TreeBlobIsExact(repo, put.value.modTree, parts, FilesPut(data.files), "mod");
      PartsGiven(parts, data);
      RefNamesDiffer(mv);
    }
  }

  lemma PartsGiven<E>(parts: Files, data: PutModuleData<E>)
    requires IsParts(parts, data)
    ensures "info" in parts <==> data.info.Some?
    ensures "info" in parts ==> parts["info"].contents == data.info.value
    ensures "ziphash" in parts <==> data.zipHash.Some?
    ensures "ziphash" in parts ==> parts["ziphash"].contents == data.zipHash.value
    ensures "mod" in parts <==> data.modFile.Some?
    ensures "mod" in parts ==> parts["mod"].contents == data.modFile.value
  {
  }

  // Without any of its refs, a version's files are missing; without a valid name
  // it has no refs.
  lemma NothingStored(mv: ModuleVersion, refs: RefMap, repo: Repo)
    requires RefName(mv).Some? ==>
               forall x :: x in {"", "(mod)", "(info)"} ==> RefName(mv).value + x !in refs
    ensures var none := if ValidMV(mv) then Err(Miss) else Err(NoRef);
            GetModFile(mv, refs, repo) == none && GetInfoFile(mv, refs, repo) == none
  {
    hide RefName, ValidMV, TreeBlob;
    RefNameNeedsValid(mv);
  }

  // ----- PutModFile and PutInfoFile

  datatype WriteError = NoName | HashFailed | RefFailed

  // git hash-object -w
  function Filed(repo: Repo, data: string): (r: Repo)
    requires Closed(repo)
    ensures Closed(r) && Grows(repo, r) && r.Keys == repo.Keys + {BlobRef(data)}
  {
    repo[BlobRef(data) := Obj("blob", Lit(data), BlobRef(data))]
  }

  // hashed and updated are whether git hash-object and git update-ref succeed.
  method PutModFile(mv: ModuleVersion, data: string, refs: RefMap, repo: Repo, hashed: bool, updated: bool)
    returns (r: Result<(), WriteError>, repo': Repo, refs': RefMap)
    requires Closed(repo)
    ensures r.Ok? <==> RefName(mv).Some? && hashed && updated
    ensures r.Err? ==>
              r.error == if RefName(mv).None? then NoName else if !hashed then HashFailed else RefFailed
    ensures repo' == if RefName(mv).Some? && hashed then Filed(repo, data) else repo
    ensures refs' == if r.Ok? then refs[RefName(mv).value + "(mod)" := BlobRef(data)] else refs
  {
    hide RefName;
    var ref := RefOf(mv, Mod);
    if ref.None? {
      return Err(NoName), repo, refs;
    }
    if !hashed {
      return Err(HashFailed), repo, refs;
    }
    repo' := Filed(repo, data);
    if !updated {
      return Err(RefFailed), repo', refs;
    }
    return Ok(()), repo', refs[ref.value := BlobRef(data)];
  }

  method PutInfoFile(mv: ModuleVersion, data: string, refs: RefMap, repo: Repo, hashed: bool, updated: bool)
    returns (r: Result<(), WriteError>, repo': Repo, refs': RefMap)
    requires Closed(repo)
    ensures r.Ok? <==> RefName(mv).Some? && hashed && updated
    ensures r.Err? ==>
              r.error == if RefName(mv).None? then NoName else if !hashed then HashFailed else RefFailed
    ensures repo' == if RefName(mv).Some? && hashed then Filed(repo, data) else repo
    ensures refs' == if r.Ok? then refs[RefName(mv).value + "(info)" := BlobRef(data)] else refs
  {
    hide RefName;
    var ref := RefOf(mv, Info);
    if ref.None? {
      return Err(NoName), repo, refs;
    }
    if !hashed {
      return Err(HashFailed), repo, refs;
    }
    repo' := Filed(repo, data);
    if !updated {
      return Err(RefFailed), repo', refs;
    }
    return Ok(()), repo', refs[ref.value := BlobRef(data)];
  }

  // All refs of all versions are different.
  lemma RefsDiffer(a: ModuleVersion, k: RefKind, b: ModuleVersion, l: RefKind)
    requires RefOf(a, k).Some? && RefOf(a, k) == RefOf(b, l)
    ensures a == b && k == l
  {
    hide RefName, LineVersion, Short, ValidMV;
    RefNameNeedsValid(a);
    RefNameNeedsValid(b);
    RefComesBack(a, k);
    RefComesBack(b, l);
    SuffixesDiffer(k, l);
    hide Suffix;
    assert |RefOf(a, k).value| == |RefName(a).value| + |Suffix(k)|;
    assert |RefOf(b, l).value| == |RefName(b).value| + |Suffix(l)|;
  }

  lemma SuffixesDiffer(k: RefKind, l: RefKind)
    requires |Suffix(k)| == |Suffix(l)|
    ensures k == l
  {
  }

  lemma RefNameNeedsValid(mv: ModuleVersion)
    ensures RefName(mv).Some? <==> ValidMV(mv)
  {
    hide CheckPath, CheckVersion, PathEscape, EscapeString;
  }

  // What another object or ref does not change.
  lemma RefBlobKept(refs: RefMap, repo: Repo, data: string, x: string, ref: string)
    requires Closed(repo) && RefsKept(refs, repo) && x != ref
    ensures RefBlob(refs[x := BlobRef(data)], Filed(repo, data), ref) == RefBlob(refs, repo, ref)
  {
    hide Closed;
  }

  lemma RefBlobNew(refs: RefMap, repo: Repo, data: string, ref: string)
    requires Closed(repo)
    ensures RefBlob(refs[ref := BlobRef(data)], Filed(repo, data), ref) == Ok(Lit(data))
  {
    ObjectOf(Filed(repo, data), BlobRef(data));
    hide Closed;
  }

  lemma TreeBlobKept(repo: Repo, data: string, tree: ObjRef)
    requires Closed(repo) && tree in repo
    ensures TreeBlob(Filed(repo, data), tree, "info") == TreeBlob(repo, tree, "info")
  {
    CutNothing("info", '/');
    hide Cut, Resolve, Closed, Filed;
    var after := Filed(repo, data);
    ResolveHere(repo, tree, "info");
    ResolveHere(after, tree, "info");
    if Resolve(repo, tree, "info").Some? { ItemIsFiled(repo, tree, "info"); }
  }

  lemma ResolveHere(repo: Repo, tree: ObjRef, name: string)
    requires tree in repo && Cut(name, '/') == Pieces(name, "", false)
    ensures Resolve(repo, tree, name) ==
            if repo[tree].typ != "tree" || Parse(repo[tree].content).None? then None
            else FindItem(Parse(repo[tree].content).value, name)
  {
    hide Cut, Parse, FindItem;
  }

  lemma ItemIsFiled(repo: Repo, tree: ObjRef, name: string)
    requires Closed(repo) && tree in repo && Cut(name, '/') == Pieces(name, "", false)
    requires Resolve(repo, tree, name).Some?
    ensures Resolve(repo, tree, name).value.ref in repo
  {
    hide Cut, Parse, FindItem, Encode, Resolve;
    ObjectOf(repo, tree);
    ResolveHere(repo, tree, name);
    var c := repo[tree].content;
    EncodeParse(c);
    RefsOfEncodeAll(Parse(c).value);
    var it := Resolve(repo, tree, name).value;
    assert it in Parse(c).value;
    assert Ref(it.ref) in c;
  }

  // After PutModFile the version's mod file is the one put, and nothing else
  // that is read changes: not its info file, nor any file of another version.
  lemma ReadersAfterPutMod(mv: ModuleVersion, data: string, refs: RefMap, repo: Repo, other: ModuleVersion)
    requires Closed(repo) && RefsKept(refs, repo) && RefName(mv).Some?
    ensures var after, repo' := refs[RefName(mv).value + "(mod)" := BlobRef(data)], Filed(repo, data);
            && GetModFile(mv, after, repo') == Ok(Lit(data))
            && GetInfoFile(other, after, repo') == GetInfoFile(other, refs, repo)
            && (other != mv ==> GetModFile(other, after, repo') == GetModFile(other, refs, repo))
  {
    hide RefName, RefBlob, TreeBlob, Closed, Filed;
    var ref := RefName(mv).value + "(mod)";
    RefBlobNew(refs, repo, data, ref);
    if RefName(other).Some? {
      InfoKept(mv, Mod, data, refs, repo, other);
      if other != mv { RefKept(mv, Mod, data, refs, repo, other, Mod); }
    }
  }

  lemma RefKept(
      mv: ModuleVersion, k: RefKind, data: string, refs: RefMap, repo: Repo, other: ModuleVersion, l: RefKind)
    requires Closed(repo) && RefsKept(refs, repo) && RefName(mv).Some? && RefName(other).Some?
    requires mv != other || k != l
    ensures RefOf(mv, k) != RefOf(other, l)
    ensures RefBlob(refs[RefOf(mv, k).value := BlobRef(data)], Filed(repo, data), RefOf(other, l).value) ==
            RefBlob(refs, repo, RefOf(other, l).value)
  {
    hide RefName, RefBlob, Closed, Filed;
    if RefOf(mv, k) == RefOf(other, l) { RefsDiffer(mv, k, other, l); }
    RefBlobKept(refs, repo, data, RefOf(mv, k).value, RefOf(other, l).value);
  }

  // The info file, unless it is its own ref that is set.
  lemma InfoKept(mv: ModuleVersion, k: RefKind, data: string, refs: RefMap, repo: Repo, other: ModuleVersion)
    requires Closed(repo) && RefsKept(refs, repo) && RefName(mv).Some? && RefName(other).Some?
    requires k != RefKind.Zip && (mv != other || k != Info)
    ensures GetInfoFile(other, refs[RefOf(mv, k).value := BlobRef(data)], Filed(repo, data)) ==
            GetInfoFile(other, refs, repo)
  {
    hide RefName, RefBlob, TreeBlob, Closed, Filed;
    RefKept(mv, k, data, refs, repo, other, RefKind.Zip);
    RefKept(mv, k, data, refs, repo, other, Info);
    hide RefOf;
    var ref := RefOf(other, RefKind.Zip).value;
    if ref in refs { TreeBlobKept(repo, data, refs[ref]); }
  }

  // After PutInfoFile the version's info file is the one of its tree, if it has
  // one, else the one put, and nothing else that is read changes.
  lemma ReadersAfterPutInfo(mv: ModuleVersion, data: string, refs: RefMap, repo: Repo, other: ModuleVersion)
    requires Closed(repo) && RefsKept(refs, repo) && RefName(mv).Some?
    ensures var after, repo' := refs[RefName(mv).value + "(info)" := BlobRef(data)], Filed(repo, data);
            var ref := RefName(mv).value;
            && GetInfoFile(mv, after, repo') ==
               (if ref in refs && TreeBlob(repo, refs[ref], "info").Some?
                then Ok(TreeBlob(repo, refs[ref], "info").value)
                else Ok(Lit(data)))
            && GetModFile(other, after, repo') == GetModFile(other, refs, repo)
            && (other != mv ==> GetInfoFile(other, after, repo') == GetInfoFile(other, refs, repo))
  {
    hide RefName, RefBlob, TreeBlob, Closed, Filed;
    var ref := RefName(mv).value;
    assert ref + "" == ref;
    RefBlobNew(refs, repo, data, ref + "(info)");
    if ref in refs { TreeBlobKept(repo, data, refs[ref]); }
    assert |ref + "(info)"| > |ref|;
    if RefName(other).Some? {
      RefKept(mv, Info, data, refs, repo, other, Mod);
      if other != mv { InfoKept(mv, Info, data, refs, repo, other); }
    }
  }
}
