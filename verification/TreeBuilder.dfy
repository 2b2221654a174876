// treeBuilder of store/gitstore/gitstore.go: compiles a flat map of files into
// git blobs and trees, updating its object table and emission order in place.

module TreeBuilder {
  import opened Wrappers
  import opened Strings
  import opened Paths
  import opened GitObjects
  import opened Sorting

  datatype DirEnt = DirEnt(base: string, sortKey: string, isDir: bool, fi: FileInfo)

  // Every object is filed under its own name and refers to filed objects only.
  ghost predicate Closed(repo: map<ObjRef, Obj>) {
    forall h :: h in repo ==>
      && h.Sha1? && h.typ in {"blob", "tree"} && repo[h] == Obj(h.typ, h.content, h)
      && forall r :: Ref(r) in h.content ==> r in repo
  }

  // hashes lists the objects of repo once each, references before referrers.
  ghost predicate Emitted(hashes: seq<ObjRef>, repo: map<ObjRef, Obj>) {
    && (forall i, j :: 0 <= i < j < |hashes| ==> hashes[i] != hashes[j])
    && (forall h :: h in repo <==> h in hashes)
    && (forall i, r :: 0 <= i < |hashes| && hashes[i].Sha1? && Ref(r) in hashes[i].content ==> r in hashes[..i])
  }

  ghost predicate BlobsStored(f: Files, repo: map<ObjRef, Obj>) {
    forall p :: p in f ==> f[p].gitHash == BlobRef(f[p].contents) && f[p].gitHash in repo
  }

  ghost predicate Grows(before: map<ObjRef, Obj>, after: map<ObjRef, Obj>) {
    forall h :: h in before ==> h in after && after[h] == before[h]
  }

  // The entry of one name in the directory that holds the files f.
  ghost predicate EntHolds(e: DirEnt, f: Files) {
    && CleanName(e.base) && e.sortKey == SortKey(e.base, e.isDir)
    && (e.isDir <==> IsDirIn(f, e.base))
    && (!e.isDir ==> e.base in f && e.fi == f[e.base])
  }

  ghost predicate HasEntFor(ents: seq<DirEnt>, p: string) {
    exists i :: 0 <= i < |ents| && ents[i].base == Cut(p, '/').before
  }

  function EntKey(e: DirEnt): string {
    e.sortKey
  }

  // Different names have different sort keys, whatever their kinds.
  lemma SortKeysDiffer(a: string, aDir: bool, b: string, bDir: bool)
    requires '/' !in a && '/' !in b && SortKey(a, aDir) == SortKey(b, bDir)
    ensures a == b && aDir == bDir
  {
    var x, y := SortKey(a, aDir), SortKey(b, bDir);
    if aDir { assert x[|a|] == '/'; }
    if bDir { assert y[|b|] == '/'; }
    if aDir && bDir { assert x[..|a|] == a && y[..|b|] == b; }
  }

  // slices.SortFunc over the collected values, which arrive in any order.
  method SortEnts(names: map<string, DirEnt>) returns (ents: seq<DirEnt>)
    requires forall b :: b in names ==>
               names[b].base == b && '/' !in b && names[b].sortKey == SortKey(b, names[b].isDir)
    ensures Sorted(ents, EntKey)
    ensures forall e :: e in ents <==> e.base in names && names[e.base] == e
  {
    ents := [];
    var todo := names.Keys;
    while todo != {}
      invariant todo <= names.Keys
      invariant Sorted(ents, EntKey)
      invariant forall e :: e in ents <==> e.base in names.Keys - todo && names[e.base] == e
      decreases |todo|
    {
      var b :| b in todo;
      var e := names[b];
      forall x | x in ents ensures x.sortKey != e.sortKey {
        if x.sortKey == e.sortKey { SortKeysDiffer(x.base, x.isDir, e.base, e.isDir); }
      }
      InsertSorts(ents, e, EntKey);
      InsertHolds(ents, e, EntKey);
      ents := Insert(ents, e, EntKey);
      todo := todo - {b};
    }
  }

  // ----- files below a directory

  lemma SubValid<V>(f: map<string, V>, d: string)
    requires ValidFiles(f)
    ensures ValidFiles(Sub(f, Pre(d)))
  {
    var g := Sub(f, Pre(d));
    forall q | q in g ensures CleanPath(q) && !IsDirIn(g, q) {
      CleanRest(d, Pre(d) + q);
      PrefixCut(Pre(d), q);
      forall r | r in g ensures !Below(q, r) {
        BelowUnderPrefix(Pre(d), q, r);
      }
    }
  }

  lemma BelowUnderPrefix(e: string, q: string, r: string)
    requires q != ""
    ensures Below(q, r) ==> Below(e + q, e + r)
  {
    if Below(q, r) {
      assert (e + r)[..|e + q| + 1] == e + (q + "/") == e + q + "/";
    }
  }

  lemma SubSub<V>(f: map<string, V>, e: string, n: string)
    ensures Sub(Sub(f, e), n + "/") == Sub(f, e + n + "/")
  {
    var a, b := Sub(Sub(f, e), n + "/"), Sub(f, e + n + "/");
    forall q ensures q in a <==> q in b {
      SubSubAt(f, e, n, q);
    }
    forall q | q in a ensures a[q] == b[q] {
      SubSubAt(f, e, n, q);
    }
  }

  lemma SubSubAt<V>(f: map<string, V>, e: string, n: string, q: string)
    ensures q in Sub(Sub(f, e), n + "/") <==> q in Sub(f, e + n + "/")
    ensures q in Sub(f, e + n + "/") ==> Sub(Sub(f, e), n + "/")[q] == Sub(f, e + n + "/")[q]
  {
    var s := n + "/" + q;
    assert s in Sub(f, e) <==> e + s in f;
    assert e + s == e + n + "/" + q;
    if q in Sub(f, e + n + "/") { assert Sub(f, e)[s] == f[e + s]; }
  }

  lemma SubClean<V>(f: map<string, V>, d: string)
    requires AllClean(f)
    ensures AllClean(Sub(f, Pre(d)))
  {
    var g := Sub(f, Pre(d));
    forall q | q in g ensures CleanPath(q) {
      CleanRest(d, Pre(d) + q);
      PrefixCut(Pre(d), q);
    }
  }

  lemma SuffixIn<V>(f: map<string, V>, d: string, name: string, suf: string)
    requires AllClean(f) && name in f && name == Pre(d) + suf
    ensures suf in Sub(f, Pre(d)) && Sub(f, Pre(d))[suf] == f[name]
  {
    CleanEnds(name);
  }

  // In directory d, the name n is both a file and a directory.
  ghost predicate Clash<V>(f: map<string, V>, d: string, n: string) {
    CleanName(n) && (d == "" || CleanPath(d)) && Under(d, n) in f && IsDirIn(f, Under(d, n))
  }

  // For clean paths, what the callers must rule out is exactly what dirEnts
  // panics on, in some directory.
  lemma ValidIffNoClash<V>(f: map<string, V>)
    requires forall p :: p in f ==> CleanPath(p)
    ensures ValidFiles(f) <==> forall d, n :: !Clash(f, d, n)
  {
    hide CleanPath, Base, Parent, Under, IsDirIn;
    if !ValidFiles(f) {
      var p :| p in f && IsDirIn(f, p);
      Parts(p);
      assert Clash(f, Parent(p), Base(p));
    }
  }

  ghost predicate AllClean<V>(f: map<string, V>) {
    forall p :: p in f ==> CleanPath(p)
  }

  lemma ValidHasNoClash<V>(f: map<string, V>, d: string)
    requires ValidFiles(f)
    ensures AllClean(f) && forall n :: !Clash(f, d, n)
  {
    hide CleanPath, IsDirIn;
  }

  // The entry that one of the files calls for.
  ghost predicate EntFrom(e: DirEnt, f: Files) {
    && CleanName(e.base) && e.sortKey == SortKey(e.base, e.isDir)
    && exists p :: p in f && Cut(p, '/').before == e.base && Cut(p, '/').found == e.isDir && e.fi == f[p]
  }

  // The first segment of p has an entry of the right kind.
  ghost predicate Merged(names: map<string, DirEnt>, p: string) {
    var c := Cut(p, '/');
    c.before in names && names[c.before].isDir == c.found
  }

  ghost predicate NamesFrom(names: map<string, DirEnt>, f: Files) {
    forall b :: b in names ==> names[b].base == b && EntFrom(names[b], f)
  }

  // The body of the loop of dirEnts for one file; its panic is an error.
  method Merge(names: map<string, DirEnt>, suf: string, fi: FileInfo, ghost here: Files)
    returns (r: Result<map<string, DirEnt>, string>)
    requires AllClean(here) && suf in here && here[suf] == fi && NamesFrom(names, here)
    ensures r.Ok? ==> NamesFrom(r.value, here) && Merged(r.value, suf)
    ensures r.Ok? ==> forall p :: Merged(names, p) ==> Merged(r.value, p)
    ensures r.Err? ==> exists n :: CleanName(n) && n in here && IsDirIn(here, n)
  {
    hide CleanPath, EntFrom, IsDirIn, CleanName;
    NewEntFrom(suf, here);
    var c := Cut(suf, '/');
    hide Cut;
    var newEnt := DirEnt(c.before, SortKey(c.before, c.found), c.found, fi);
    if c.before in names {
      var was := names[c.before];
      if (was.isDir || newEnt.isDir) && was.isDir != newEnt.isDir {
        KindsClash(was, newEnt, here);
        return Err("unexpected change");
      }
      return Ok(names);
    }
    return Ok(names[c.before := newEnt]);
  }

  lemma NewEntFrom(suf: string, f: Files)
    requires AllClean(f) && suf in f
    ensures var c := Cut(suf, '/'); EntFrom(DirEnt(c.before, SortKey(c.before, c.found), c.found, f[suf]), f)
  {
    hide CleanPath;
    FirstSegment(suf);
  }

  lemma KindsClash(a: DirEnt, b: DirEnt, f: Files)
    requires AllClean(f) && EntFrom(a, f) && EntFrom(b, f) && a.base == b.base && a.isDir != b.isDir
    ensures CleanName(a.base) && a.base in f && IsDirIn(f, a.base)
  {
    if a.isDir { EntOfDir(a, f); EntOfFile(b, f); } else { EntOfDir(b, f); EntOfFile(a, f); }
  }

  lemma EntOfFile(e: DirEnt, f: Files)
    requires EntFrom(e, f) && !e.isDir
    ensures e.base in f && e.fi == f[e.base]
  {
  }

  lemma EntOfDir(e: DirEnt, f: Files)
    requires AllClean(f) && EntFrom(e, f) && e.isDir
    ensures IsDirIn(f, e.base)
  {
    hide CleanPath;
    var p :| p in f && Cut(p, '/').before == e.base && Cut(p, '/').found;
    var c := Cut(p, '/');
    CleanAfter(p);
    BelowIntro(c.before, c.after);
    assert p == c.before + "/" + c.after;
  }

  lemma CleanAfter(p: string)
    requires CleanPath(p) && Cut(p, '/').found
    ensures Cut(p, '/').after != "" && Cut(p, '/').before != ""
  {
    CleanEnds(Cut(p, '/').after);
  }

  // What the files below a directory have as entries.
  lemma BelowIsDir(f: Files, n: string, q: string)
    requires CleanName(n) && q in f && Below(n, q)
    ensures Cut(q, '/').before == n && Cut(q, '/').found
  {
    assert q == n + ['/'] + q[|n| + 1..];
    CutIsUnique(n, '/', q[|n| + 1..]);
  }

  // Once all files are merged, the entries are right, and no name is of both
  // kinds.
  lemma EntsComplete(names: map<string, DirEnt>, f: Files, b: string)
    requires AllClean(f) && NamesFrom(names, f) && (forall p :: p in f ==> Merged(names, p)) && b in names
    ensures EntHolds(names[b], f)
  {
    hide CleanPath;
    var e := names[b];
    if e.isDir {
      EntOfDir(e, f);
    } else {
      EntOfFile(e, f);
      forall q | q in f ensures !Below(b, q) {
        if Below(b, q) { BelowIsDir(f, b, q); }
      }
    }
  }

  lemma NoClashHere(names: map<string, DirEnt>, f: Files, n: string)
    requires (forall p :: p in f ==> Merged(names, p)) && CleanName(n) && n in f
    ensures !IsDirIn(f, n)
  {
    CutNothing(n, '/');
    forall q | q in f ensures !Below(n, q) {
      if Below(n, q) { BelowIsDir(f, n, q); }
    }
  }

  lemma NoClashAtAll(names: map<string, DirEnt>, f: Files, d: string)
    requires AllClean(f) && forall p :: p in Sub(f, Pre(d)) ==> Merged(names, p)
    ensures forall n :: !Clash(f, d, n)
  {
    hide CleanPath, IsDirIn, Merged;
    forall n ensures !Clash(f, d, n) {
      if CleanName(n) {
        ClashBelow(f, d, n);
        if n in Sub(f, Pre(d)) { NoClashHere(names, Sub(f, Pre(d)), n); }
      }
    }
  }

  lemma EntsSortable(names: map<string, DirEnt>, f: Files)
    requires NamesFrom(names, f)
    ensures forall b :: b in names ==>
              names[b].base == b && '/' !in b && names[b].sortKey == SortKey(b, names[b].isDir)
  {
  }

  lemma MergedHasEnt(names: map<string, DirEnt>, ents: seq<DirEnt>, p: string)
    requires Merged(names, p) && forall e :: e in ents <==> e.base in names && names[e.base] == e
    requires forall b :: b in names ==> names[b].base == b
    ensures HasEntFor(ents, p)
  {
    var b := Cut(p, '/').before;
    assert names[b] in ents;
  }

  // A clash in directory d, seen from the directory.
  lemma ClashBelow(f: Files, d: string, n: string)
    requires AllClean(f) && CleanName(n)
    ensures Clash(f, d, n) <==> n in Sub(f, Pre(d)) && IsDirIn(Sub(f, Pre(d)), n)
  {
    hide CleanPath;
    var p, here := Under(d, n), Sub(f, Pre(d));
    PrefixCut(Pre(d), n);
    if n in here {
      JoinBelow(d, n);
      CleanRest(d, p);
    }
    if q :| q in f && Below(p, q) {
      var s := q[|Pre(d)|..];
      assert q == Pre(d) + s && s in here;
      UnderBelow(d, n, s);
    }
    if s :| s in here && Below(n, s) {
      BelowUnderPrefix(Pre(d), n, s);
    }
  }

  lemma UnderBelow(d: string, n: string, s: string)
    requires n != "" && Below(Under(d, n), Pre(d) + s)
    ensures Below(n, s)
  {
    var q := Pre(d) + s;
    assert Pre(Under(d, n)) == Pre(d) + (n + "/");
    assert q[..|Pre(d)| + |n| + 1] == Pre(d) + (n + "/");
    assert forall i :: 0 <= i < |s| ==> s[i] == q[|Pre(d)| + i];
    assert forall i :: 0 <= i < |n| + 1 ==> (n + "/")[i] == q[|Pre(d)| + i];
  }

  // ----- from directory entries to a tree object

  ghost predicate NoNuls<V>(f: map<string, V>) {
    forall p :: p in f ==> '\0' !in p
  }

  // it is the tree item that entry e of the files f calls for.
  ghost predicate ItemOf(it: Item, e: DirEnt, f: Files) {
    && it.name == e.base
    && if e.isDir
       then it.mode == TREE_MODE && IsTree(it.ref, Sub(f, e.base + "/"))
       else it.mode == GitMode(e.fi.mode) && it.ref == BlobRef(e.fi.contents)
  }

  lemma NulInEntry(f: Files, e: DirEnt)
    requires EntHolds(e, f) && ('\0' in e.base || '/' in e.base)
    ensures !NoNuls(f)
  {
    if e.isDir {
      var p :| p in f && Below(e.base, p);
      assert p[..|e.base|] == e.base;
    }
  }

  lemma NulsBelow<V>(f: map<string, V>, n: string)
    ensures NoNuls(f) ==> NoNuls(Sub(f, n + "/"))
  {
    forall q | NoNuls(f) && q in Sub(f, n + "/") ensures '\0' !in q {
      var p := n + "/" + q;
      assert p in f && p[|n| + 1..] == q;
    }
  }

  // A file is its first segment, or lies in the subdirectory of that name.
  lemma FileOrSub<V>(f: map<string, V>, p: string)
    requires ValidFiles(f) && p in f
    ensures var c := Cut(p, '/');
            if c.found then IsDirIn(f, c.before) && c.after in Sub(f, c.before + "/") else p == c.before
  {
    FirstSegment(p);
    var c := Cut(p, '/');
    if c.found {
      CleanEnds(c.after);
      BelowIntro(c.before, c.after);
      assert p == c.before + "/" + c.after;
    }
  }

  lemma NoNulsHere(ents: seq<DirEnt>, items: seq<Item>, f: Files, repo: map<ObjRef, Obj>)
    requires ValidFiles(f) && |items| == |ents|
    requires forall i :: 0 <= i < |ents| ==> EntHolds(ents[i], f)
    requires forall i :: 0 <= i < |ents| ==> Built(items[i], ents[i], f, repo)
    requires forall p :: p in f ==> HasEntFor(ents, p)
    ensures NoNuls(f)
  {
    forall p | p in f ensures '\0' !in p {
      FileOrSub(f, p);
      var c := Cut(p, '/');
      var i :| 0 <= i < |ents| && ents[i].base == c.before;
      assert EntHolds(ents[i], f) && Built(items[i], ents[i], f, repo);
      if c.found { assert '\0' !in c.after; }
    }
  }

  // Git reads the entries in this order and no other.
  ghost predicate EntsInGitOrder(ents: seq<DirEnt>) {
    forall i, j :: 0 <= i < j < |ents| ==> GitBefore(ents[i].base, ents[i].isDir, ents[j].base, ents[j].isDir)
  }

  lemma SortedInGitOrder(ents: seq<DirEnt>, f: Files)
    requires Sorted(ents, EntKey) && forall i :: 0 <= i < |ents| ==> EntHolds(ents[i], f)
    ensures EntsInGitOrder(ents)
  {
    hide GitBefore, SortKey, Less, IsDirIn;
    forall i, j | 0 <= i < j < |ents|
      ensures GitBefore(ents[i].base, ents[i].isDir, ents[j].base, ents[j].isDir)
    {
      assert Less(EntKey(ents[i]), EntKey(ents[j]));
      KeysInGitOrder(ents[i].base, ents[i].isDir, ents[j].base, ents[j].isDir);
    }
  }

  // Descending into a subdirectory.
  lemma SubdirOfEntry(f: Files, d: string, e: DirEnt)
    requires EntHolds(e, Sub(f, Pre(d))) && e.isDir
    ensures Pre(d) + e.base + "/" == Pre(Under(d, e.base))
    ensures exists p :: p in f && Pre(d) + e.base + "/" < p
    ensures Sub(Sub(f, Pre(d)), e.base + "/") == Sub(f, Pre(d) + e.base + "/")
  {
    SubSub(f, Pre(d), e.base);
    var q :| q in Sub(f, Pre(d)) && Below(e.base, q);
    var p, x := Pre(d) + q, Pre(d) + e.base + "/";
    assert x == Pre(d) + (e.base + "/");
    assert p[..|x|] == x;
    assert p in f && x < p;
  }

  lemma EncodeNone()
    ensures Encode([]) == [] && Encodable([])
  {
  }

  lemma EncodeSnoc(items: seq<Item>, it: Item)
    ensures Encode(items + [it]) == Encode(items) + EncodeItem(it)
    ensures Encodable(items) && Encodable([it]) ==> Encodable(items + [it])
  {
    assert (items + [it])[..|items|] == items;
    assert [it][0] == it;
  }

  lemma {:induction false} RefsOfEncode(items: seq<Item>, r: ObjRef)
    ensures Ref(r) in Encode(items) <==> exists i :: 0 <= i < |items| && items[i].ref == r
  {
    if items != [] {
      var n := |items| - 1;
      RefsOfEncode(items[..n], r);
      var e := EncodeItem(items[n]);
      assert e[|e| - 1] == Ref(items[n].ref);
      assert Ref(r) in e <==> r == items[n].ref;
      assert Ref(r) in Encode(items) <==> Ref(r) in Encode(items[..n]) || Ref(r) in e;
    }
  }

  // buildTree has handled entry e: it is its item, and nothing below has a NUL.
  ghost predicate Built(it: Item, e: DirEnt, f: Files, repo: map<ObjRef, Obj>) {
    && ItemOf(it, e, f) && it.ref in repo && '\0' !in e.base
    && (e.isDir ==> NoNuls(Sub(f, e.base + "/")))
  }

  lemma BuiltGrows(items: seq<Item>, ents: seq<DirEnt>, f: Files, before: map<ObjRef, Obj>, after: map<ObjRef, Obj>)
    requires |items| <= |ents| && Grows(before, after)
    requires forall k :: 0 <= k < |items| ==> Built(items[k], ents[k], f, before)
    ensures forall k :: 0 <= k < |items| ==> Built(items[k], ents[k], f, after)
  {
  }

  lemma BuiltSnoc(items: seq<Item>, it: Item, ents: seq<DirEnt>, f: Files, repo: map<ObjRef, Obj>)
    requires |items| < |ents|
    requires forall k :: 0 <= k < |items| ==> Built(items[k], ents[k], f, repo)
    requires Built(it, ents[|items|], f, repo)
    ensures forall k :: 0 <= k < |items + [it]| ==> Built((items + [it])[k], ents[k], f, repo)
  {
  }

  // Items that match the entries of f, once encoded, are a tree of f.
  lemma EncodedTree(ents: seq<DirEnt>, items: seq<Item>, f: Files, repo: map<ObjRef, Obj>)
    requires |items| == |ents| && Encodable(items)
    requires Sorted(ents, EntKey)
    requires forall i :: 0 <= i < |ents| ==> EntHolds(ents[i], f)
    requires forall i :: 0 <= i < |ents| ==> Built(items[i], ents[i], f, repo)
    requires forall p :: p in f ==> HasEntFor(ents, p)
    ensures IsTree(MkObjRef("tree", Encode(items)), f)
    ensures forall r :: Ref(r) in Encode(items) ==> r in repo
  {
    EncodedItems(ents, items, f);
    forall r | Ref(r) in Encode(items) ensures r in repo {
      RefsOfEncode(items, r);
      var i :| 0 <= i < |items| && items[i].ref == r;
      assert Built(items[i], ents[i], f, repo);
    }
  }

  lemma EncodedItems(ents: seq<DirEnt>, items: seq<Item>, f: Files)
    requires |items| == |ents| && Encodable(items)
    requires Sorted(ents, EntKey)
    requires forall i :: 0 <= i < |ents| ==> EntHolds(ents[i], f) && ItemOf(items[i], ents[i], f)
    requires forall p :: p in f ==> HasEntFor(ents, p)
    ensures IsTree(MkObjRef("tree", Encode(items)), f)
  {
    hide Encode, Parse, EncodeItem, ItemOf, EntHolds, Sorted, ItemHolds, Cut;
    var c := Encode(items);
    var h := MkObjRef("tree", c);
    ParseEncode(items);
    RefsOfEncodeAll(items);
    forall i | 0 <= i < |items| ensures ItemHolds(h, items[i], f) {
      EntryToItem(h, items[i], ents[i], f);
    }
    forall i | 0 <= i < |items| ensures ItemKey(items[i]) == EntKey(ents[i]) {
      EntryToItem(h, items[i], ents[i], f);
    }
    SortedAlike(items, ents);
    forall p | p in f ensures exists i :: 0 <= i < |items| && items[i].name == Cut(p, '/').before {
      assert HasEntFor(ents, p);
      var i :| 0 <= i < |ents| && ents[i].base == Cut(p, '/').before;
      EntryToItem(h, items[i], ents[i], f);
      assert items[i].name == ents[i].base;
    }
  }

  lemma SortedAlike(items: seq<Item>, ents: seq<DirEnt>)
    requires |items| == |ents| && Sorted(ents, EntKey)
    requires forall i :: 0 <= i < |items| ==> ItemKey(items[i]) == EntKey(ents[i])
    ensures Sorted(items, ItemKey)
  {
    forall i, j | 0 <= i < j < |items| ensures Less(ItemKey(items[i]), ItemKey(items[j])) {
      assert Less(EntKey(ents[i]), EntKey(ents[j]));
    }
  }

  lemma EntryToItem(h: ObjRef, it: Item, e: DirEnt, f: Files)
    requires h.Sha1? && Ref(it.ref) in h.content
    requires EntHolds(e, f) && ItemOf(it, e, f)
    ensures ItemHolds(h, it, f)
    ensures it.name == e.base && SortKey(it.name, it.mode == TREE_MODE) == e.sortKey
  {
  }

  lemma ItemIsEncodable(it: Item)
    requires '\0' !in it.name && (it.mode == TREE_MODE || it.mode == "100644" || it.mode == "100755")
    ensures Encodable([it])
  {
  }

  lemma RefsOfEncodeAll(items: seq<Item>)
    ensures forall i :: 0 <= i < |items| ==> Ref(items[i].ref) in Encode(items)
    ensures forall r :: Ref(r) in Encode(items) ==> exists i :: 0 <= i < |items| && items[i].ref == r
  {
    forall i | 0 <= i < |items| ensures Ref(items[i].ref) in Encode(items) {
      RefsOfEncode(items, items[i].ref);
    }
    forall r | Ref(r) in Encode(items) ensures exists i :: 0 <= i < |items| && items[i].ref == r {
      RefsOfEncode(items, r);
    }
  }

  lemma LongestPath<V>(f: map<string, V>) returns (bound: nat)
    ensures forall p :: p in f ==> |p| <= bound
  {
    bound := 0;
    var todo := f.Keys;
    while todo != {}
      invariant forall p :: p in f && p !in todo ==> |p| <= bound
      decreases |todo|
    {
      var p :| p in todo;
      todo := todo - {p};
      bound := if |p| > bound then |p| else bound;
    }
  }

  lemma SubAll(f: Files)
    requires ValidFiles(f)
    ensures Sub(f, "") == f
  {
    forall q ensures q in Sub(f, "") <==> q in f {
      assert "" + q == q;
      if q in f {
        FileIsClean(f, q);
        CleanEnds(q);
      }
    }
    forall q | q in f ensures Sub(f, "")[q] == f[q] { assert "" + q == q; }
  }

  class Builder {
    var f: Files
    var hashSet: map<ObjRef, Obj>
    var hashes: seq<ObjRef>

    ghost predicate Valid()
      reads this
    {
      && Closed(hashSet)
      && Emitted(hashes, hashSet)
      && BlobsStored(f, hashSet)
    }

    constructor ()
      ensures Valid() && f == map[] && hashSet == map[]
    {
      f, hashSet, hashes := map[], map[], [];
    }

    method AddHash(hash: ObjRef, objType: string, contents: seq<Tok>)
      requires Valid() && hash == MkObjRef(objType, contents) && objType in {"blob", "tree"}
      requires forall r :: Ref(r) in contents ==> r in hashSet
      modifies this`hashSet, this`hashes
      ensures Valid() && hash in hashSet
      ensures hashSet.Keys == old(hashSet).Keys + {hash} && Grows(old(hashSet), hashSet)
      ensures hashes == if hash in old(hashSet) then old(hashes) else old(hashes) + [hash]
    {
      if hash in hashSet {
        return;
      }
      assert hash != Zero;
      ghost var n := |hashes|;
      hashSet := hashSet[hash := Obj(objType, contents, hash)];
      hashes := hashes + [hash];
      forall i, r | 0 <= i < |hashes| && hashes[i].Sha1? && Ref(r) in hashes[i].content
        ensures r in hashes[..i]
      {
        if i < n {
          assert hashes[..i] == old(hashes)[..i];
        } else {
          assert hashes[..i] == old(hashes);
        }
      }
    }

    // all is what opening and reading the file yields.
    method AddFile<E>(name: string, all: Result<string, E>, mode: FileMode) returns (r: Result<(), E>)
      requires Valid()
      modifies this
      ensures Valid() && r.Err? == all.Err?
      ensures r.Err? ==> f == old(f) && hashSet == old(hashSet) && hashes == old(hashes) && r.error == all.error
      ensures r.Ok? ==> f == old(f)[name := FileInfo(all.value, mode, BlobRef(all.value))]
      ensures r.Ok? ==> hashSet.Keys == old(hashSet).Keys + {BlobRef(all.value)}
      ensures Grows(old(hashSet), hashSet)
    {
      if all.Err? {
        return Err(all.error);
      }
      var blobRef := MkObjRef("blob", Lit(all.value));
      AddHash(blobRef, "blob", Lit(all.value));
      f := f[name := FileInfo(all.value, mode, blobRef)];
      return Ok(());
    }

    // The entries of directory d, whatever order the files come in. The panic
    // on a name that is both a file and a directory is an error here.
    method DirEnts(prefix: string, ghost d: string) returns (r: Result<seq<DirEnt>, string>)
      requires AllClean(f) && prefix == Pre(d)
      ensures r.Err? <==> exists n :: Clash(f, d, n)
      ensures r.Ok? ==> Sorted(r.value, EntKey) && EntsInGitOrder(r.value)
      ensures r.Ok? ==> forall i :: 0 <= i < |r.value| ==> EntHolds(r.value[i], Sub(f, prefix))
      ensures r.Ok? ==> forall p :: p in Sub(f, prefix) ==> HasEntFor(r.value, p)
    {
      hide CleanPath, IsDirIn, EntFrom, Merged, EntHolds, Clash, EntsInGitOrder;
      ghost var here := Sub(f, prefix);
      SubClean(f, d);
      var names: map<string, DirEnt> := map[];
      var todo := f.Keys;
      while todo != {}
        invariant todo <= f.Keys
        invariant NamesFrom(names, here)
        invariant forall p :: p in here && prefix + p !in todo ==> Merged(names, p)
        decreases |todo|
      {
        var filename :| filename in todo;
        todo := todo - {filename};
        var suf := CutPrefix(filename, prefix);
        if suf.None? {
          continue;
        }
        SuffixIn(f, d, filename, suf.value);
        var merged := Merge(names, suf.value, f[filename], here);
        if merged.Err? {
          forall n | CleanName(n) && n in here && IsDirIn(here, n) ensures Clash(f, d, n) { ClashBelow(f, d, n); }
          return Err(merged.error);
        }
        names := merged.value;
        forall q | q in here && prefix + q == filename ensures q == suf.value {
          PrefixCut(prefix, q);
        }
      }
      forall b | b in names ensures EntHolds(names[b], here) { EntsComplete(names, here, b); }
      NoClashAtAll(names, f, d);
      hide NamesFrom;
      EntsSortable(names, here);
      var ents := SortEnts(names);
      forall i | 0 <= i < |ents| ensures EntHolds(ents[i], here) {
        assert ents[i] in ents;
      }
      forall p | p in here ensures HasEntFor(ents, p) {
        MergedHasEnt(names, ents, p);
      }
      SortedInGitOrder(ents, here);
      return Ok(ents);
    }

    // buildTree("")
    method BuildRoot() returns (r: Result<ObjRef, string>)
      requires Valid() && ValidFiles(f)
      modifies this`hashSet, this`hashes
      ensures Valid() && Grows(old(hashSet), hashSet)
      ensures r.Ok? ==> r.value in hashSet && IsTree(r.value, f) && InGitOrder(r.value)
      ensures r.Ok? <==> NoNuls(f)
    {
      hide IsTree, InGitOrder, NoNuls, ValidFiles, Closed, Emitted, BlobsStored;
      ghost var bound := LongestPath(f);
      SubAll(f);
      r := BuildTree("", "", bound);
    }

    // dir is "" or ends in a slash, and holds at least one file unless it is the
    // root. An error means a name with a NUL; names never hold a slash.
    method BuildTree(dir: string, ghost d: string, ghost bound: nat) returns (r: Result<ObjRef, string>)
      requires Valid() && ValidFiles(f) && dir == Pre(d)
      requires forall p :: p in f ==> |p| <= bound
      requires dir == "" || exists p :: p in f && dir < p
      modifies this`hashSet, this`hashes
      ensures Valid() && Grows(old(hashSet), hashSet)
      ensures old(hashes) <= hashes
      ensures r.Ok? ==> r.value in hashSet && IsTree(r.value, Sub(f, dir)) && InGitOrder(r.value)
      ensures r.Ok? <==> NoNuls(Sub(f, dir))
      decreases bound - |dir|, 1
    {
      hide IsTree, Encode, Encodable, EncodeItem, NoNuls, Built, InGitOrder, EntsInGitOrder;
      hide EntHolds, Sorted, Closed, Emitted, BlobsStored, ValidFiles;
      var buf: seq<Tok> := [];
      ghost var here := Sub(f, dir);
      ghost var items: seq<Item> := [];
      ValidHasNoClash(f, d);
      var collected := DirEnts(dir, d);
      var ents := collected.value;
      var i := 0;
      EncodeNone();
      while i < |ents|
        invariant 0 <= i <= |ents| && |items| == i
        invariant Valid() && Grows(old(hashSet), hashSet) && old(hashes) <= hashes
        invariant buf == Encode(items) && Encodable(items)
        invariant forall k :: 0 <= k < i ==> Built(items[k], ents[k], here, hashSet)
      {
        ghost var before := hashSet;
        var it := BuildEntry(ents[i], dir, d, bound, here);
        if it.Err? {
          return Err(it.error);
        }
        BuiltGrows(items, ents, here, before, hashSet);
        BuiltSnoc(items, it.value, ents, here, hashSet);
        EncodeSnoc(items, it.value);
        buf := buf + EncodeItem(it.value);
        items := items + [it.value];
        i := i + 1;
      }
      SubValid(f, d);
      EncodedTree(ents, items, here, hashSet);
      NoNulsHere(ents, items, here, hashSet);
      var treeRef := MkObjRef("tree", buf);
      AddHash(treeRef, "tree", buf);
      TreesInGitOrder(treeRef, here);
      return Ok(treeRef);
    }

    // The body of the loop of buildTree for one entry.
    method BuildEntry(ent: DirEnt, dir: string, ghost d: string, ghost bound: nat, ghost here: Files)
      returns (r: Result<Item, string>)
      requires Valid() && ValidFiles(f) && dir == Pre(d)
      requires forall p :: p in f ==> |p| <= bound
      requires dir == "" || exists p :: p in f && dir < p
      requires here == Sub(f, dir) && EntHolds(ent, here)
      modifies this`hashSet, this`hashes
      ensures Valid() && Grows(old(hashSet), hashSet)
      ensures old(hashes) <= hashes
      ensures r.Ok? ==> Built(r.value, ent, here, hashSet) && Encodable([r.value])
      ensures r.Err? ==> !NoNuls(here)
      decreases bound - |dir|, 0
    {
      hide IsTree, InGitOrder, Encodable, NoNuls, Sorted, Closed, Emitted, ValidFiles;
      if '\0' in ent.base || '/' in ent.base {
        NulInEntry(here, ent);
        return Err("invalid file name in tree");
      }
      var mode := "100644";
      if ent.isDir {
        mode := "40000";
      } else if Executable(ent.fi.mode) {
        mode := "100755";
      }
      var entHash: ObjRef;
      if ent.isDir {
        SubdirOfEntry(f, d, ent);
        var sub := BuildTree(dir + ent.base + "/", Under(d, ent.base), bound);
        NulsBelow(here, ent.base);
        if sub.Err? {
          return Err(sub.error);
        }
        entHash := sub.value;
      } else {
        entHash := ent.fi.gitHash;
        assert dir + ent.base in f;
      }
      ItemIsEncodable(Item(mode, ent.base, entHash));
      return Ok(Item(mode, ent.base, entHash));
    }
  }
}
