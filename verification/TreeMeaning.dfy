// What the objects of a tree builder mean: reading them back yields the files,
// and the root's name depends on the files alone.

module TreeMeaning {
  import opened Wrappers
  import opened Strings
  import opened Paths
  import opened GitObjects
  import opened Sorting
  import opened TreeBuilder

  function FindItem(items: seq<Item>, name: string): (r: Option<Item>)
    ensures r.Some? ==> r.value in items && r.value.name == name
    ensures r.None? ==> forall i :: 0 <= i < |items| ==> items[i].name != name
  {
    if items == [] then None
    else if items[0].name == name then Some(items[0])
    else
      assert items == [items[0]] + items[1..];
      assert forall i :: 1 <= i < |items| ==> items[i] == items[1..][i - 1];
      FindItem(items[1..], name)
  }

  // Git's lookup of "<tree>:<path>": from an object table, one segment a time.
  function Resolve(repo: map<ObjRef, Obj>, h: ObjRef, p: string): Option<Item>
    decreases |p|
  {
    if h !in repo || repo[h].typ != "tree" then None
    else
      match Parse(repo[h].content)
      case None => None
      case Some(items) =>
        var c := Cut(p, '/');
        match FindItem(items, c.before)
        case None => None
        case Some(it) => if c.found then Resolve(repo, it.ref, c.after) else Some(it)
  }

  function Items(h: ObjRef): seq<Item> {
    if h.Sha1? && Parse(h.content).Some? then Parse(h.content).value else []
  }

  // One entry of a tree.
  lemma ItemOfTree(h: ObjRef, f: Files, it: Item)
    requires IsTree(h, f) && it in Items(h)
    ensures h.Sha1? && Ref(it.ref) in h.content && ItemHolds(h, it, f)
  {
    var i :| 0 <= i < |Items(h)| && Items(h)[i] == it;
  }

  lemma TreeShape(h: ObjRef, f: Files)
    requires IsTree(h, f)
    ensures h.Sha1? && h.typ == "tree" && Parse(h.content) == Some(Items(h))
    ensures Sorted(Items(h), ItemKey)
    ensures h.content == Encode(Items(h))
  {
    EncodeParse(h.content);
  }

  // The item for a name of the files, in a tree of them.
  lemma ItemForName(h: ObjRef, f: Files, n: string) returns (it: Item)
    requires IsTree(h, f) && ValidFiles(f) && CleanName(n)
    requires n in f || IsDirIn(f, n)
    ensures it in Items(h) && it.name == n && (it.mode == TREE_MODE <==> IsDirIn(f, n))
  {
    var p := FileFirst(f, n);
    var i :| 0 <= i < |Items(h)| && Items(h)[i].name == Cut(p, '/').before;
    it := Items(h)[i];
    hide IsTree;
    ItemOfTree(h, f, it);
  }

  lemma FileFirst<V>(f: map<string, V>, n: string) returns (p: string)
    requires CleanName(n) && (n in f || IsDirIn(f, n))
    ensures p in f && Cut(p, '/').before == n
  {
    if n in f {
      p := n;
      CutNothing(n, '/');
    } else {
      p :| p in f && Below(n, p);
      assert p == n + ['/'] + p[|n| + 1..];
      CutIsUnique(n, '/', p[|n| + 1..]);
    }
  }

  lemma KindOfItem(h: ObjRef, f: Files, it: Item)
    requires IsTree(h, f) && ValidFiles(f) && it in Items(h)
    ensures it.mode == TREE_MODE <==> IsDirIn(f, it.name)
  {
    hide IsTree;
    ItemOfTree(h, f, it);
  }

  // Two items of one tree with one name are one item.
  lemma NamesAreUnique(h: ObjRef, f: Files, x: Item, y: Item)
    requires IsTree(h, f) && ValidFiles(f)
    requires x in Items(h) && y in Items(h) && x.name == y.name
    ensures x == y
  {
    hide IsTree, ItemHolds, ValidFiles, IsDirIn, Encode, Parse, Sorted;
    KindOfItem(h, f, x);
    KindOfItem(h, f, y);
    TreeShape(h, f);
    var i :| 0 <= i < |Items(h)| && Items(h)[i] == x;
    var j :| 0 <= j < |Items(h)| && Items(h)[j] == y;
    SameKeySamePlace(Items(h), i, j);
  }

  lemma SameKeySamePlace(items: seq<Item>, i: nat, j: nat)
    requires Sorted(items, ItemKey) && i < |items| && j < |items| && ItemKey(items[i]) == ItemKey(items[j])
    ensures i == j
  {
    LessIrreflexive(ItemKey(items[i]));
    assert !(i < j) && !(j < i);
  }

  // What lies below a name, seen from the name's directory.
  lemma BelowName<V>(f: map<string, V>, b: string, a: string)
    requires ValidFiles(f) && CleanName(b) && CleanPath(a)
    ensures var s := Sub(f, b + "/"); var p := b + "/" + a;
            && ValidFiles(s)
            && (a in s <==> p in f)
            && (a in s ==> s[a] == f[p])
            && (IsDirIn(s, a) <==> IsDirIn(f, p))
            && Sub(s, a + "/") == Sub(f, p + "/")
  {
    hide ValidFiles, CleanPath, IsDirIn;
    SubValid(f, b);
    assert Pre(b) == b + "/";
    SubSub(f, b + "/", a);
    CleanEnds(a);
    assert a in Sub(f, b + "/") <==> b + "/" + a in f;
    DirsBelowName(f, b, a);
  }

  lemma DirsBelowName<V>(f: map<string, V>, b: string, a: string)
    requires a != "" && b != ""
    ensures IsDirIn(Sub(f, b + "/"), a) <==> IsDirIn(f, b + "/" + a)
  {
    var s, p := Sub(f, b + "/"), b + "/" + a;
    if IsDirIn(s, a) {
      var q :| q in s && Below(a, q);
      BelowUnderPrefix(b + "/", a, q);
      assert b + "/" + q in f;
    }
    if IsDirIn(f, p) {
      var q :| q in f && Below(p, q);
      BelowCut(b, a, q);
      assert q[|b| + 1..] in s;
    }
  }

  lemma BelowCut(b: string, a: string, q: string)
    requires a != "" && Below(b + "/" + a, q)
    ensures q == b + "/" + q[|b| + 1..] && Below(a, q[|b| + 1..])
  {
    var x := b + "/" + a + "/";
    assert x == (b + "/") + (a + "/");
    assert q[..|x|] == x;
  }

  // Something at p means that its first segment is a directory or is all of p.
  lemma FirstOfPath<V>(f: map<string, V>, b: string, a: string)
    requires CleanName(b) && CleanPath(a)
    requires b + "/" + a in f || IsDirIn(f, b + "/" + a)
    ensures IsDirIn(f, b)
  {
    CleanEnds(a);
    BelowIntro(b, a);
    if IsDirIn(f, b + "/" + a) {
      var q :| q in f && Below(b + "/" + a, q);
      BelowTransitive(b, b + "/" + a, q);
    }
  }

  // Reading a path out of the object table finds exactly what the files hold
  // there: the blob and executable bit of a file, the tree of a directory,
  // nothing elsewhere.
  lemma {:induction false} ResolveIsExact(repo: map<ObjRef, Obj>, h: ObjRef, f: Files, p: string)
    requires Closed(repo) && h in repo && IsTree(h, f) && ValidFiles(f) && CleanPath(p)
    ensures Found(Resolve(repo, h, p), f, p)
    ensures Resolve(repo, h, p).Some? ==> Resolve(repo, h, p).value.ref in repo
    decreases |p|
  {
    hide IsTree, ValidFiles, CleanPath, Found, IsDirIn, Sub;
    TreeShape(h, f);
    FirstSegment(p);
    var c := Cut(p, '/');
    var r := FindItem(Items(h), c.before);
    if r.None? {
      NotFound(h, f, p);
    } else {
      var it := r.value;
      ItemOfTree(h, f, it);
      if !c.found {
        FoundHere(h, f, it);
      } else if it.mode == TREE_MODE {
        BelowName(f, c.before, c.after);
        ResolveIsExact(repo, it.ref, Sub(f, c.before + "/"), c.after);
        FoundBelow(Resolve(repo, h, p), f, c.before, c.after);
      } else {
        BlobIsNoTree(f, it);
        FoundUnderFile(f, c.before, c.after);
      }
    }
  }

  lemma NotFound(h: ObjRef, f: Files, p: string)
    requires IsTree(h, f) && ValidFiles(f) && CleanPath(p)
    requires FindItem(Items(h), Cut(p, '/').before).None?
    ensures Found(None, f, p)
  {
    hide IsTree, ValidFiles, CleanPath;
    FirstSegment(p);
    var c := Cut(p, '/');
    if p in f || IsDirIn(f, p) {
      if c.found {
        assert p == c.before + "/" + c.after;
        FirstOfPath(f, c.before, c.after);
      }
      var it := ItemForName(h, f, c.before);
    }
  }

  lemma FoundHere(h: ObjRef, f: Files, it: Item)
    requires ValidFiles(f) && h.Sha1? && Ref(it.ref) in h.content && ItemHolds(h, it, f)
    ensures Found(Some(it), f, it.name)
  {
    hide IsTree;
  }

  lemma FoundBelow(r: Option<Item>, f: Files, b: string, a: string)
    requires ValidFiles(f) && CleanName(b) && CleanPath(a)
    requires Found(r, Sub(f, b + "/"), a)
    ensures Found(r, f, b + "/" + a)
  {
    hide IsTree, ValidFiles, CleanPath, IsDirIn;
    BelowName(f, b, a);
  }

  lemma FoundUnderFile(f: Files, b: string, a: string)
    requires ValidFiles(f) && CleanName(b) && CleanPath(a) && b in f
    ensures Found(None, f, b + "/" + a)
  {
    hide CleanPath;
    if b + "/" + a in f || IsDirIn(f, b + "/" + a) { FirstOfPath(f, b, a); }
  }

  // What Resolve must answer for path p of the files f.
  ghost predicate Found(r: Option<Item>, f: Files, p: string) {
    && (p in f ==> r.Some? && r.value.ref == BlobRef(f[p].contents) && r.value.mode == GitMode(f[p].mode))
    && (IsDirIn(f, p) ==> r.Some? && r.value.mode == TREE_MODE && IsTree(r.value.ref, Sub(f, p + "/")))
    && (r.Some? <==> p in f || IsDirIn(f, p))
  }

  lemma BlobIsNoTree(f: Files, it: Item)
    requires it.name in f && it.ref == BlobRef(f[it.name].contents)
    ensures it.ref.typ != "tree"
  {
  }

  // ----- the name of a tree is canonical

  // The same paths, contents and executable bits.
  ghost predicate SameFiles(f: Files, g: Files) {
    && f.Keys == g.Keys
    && forall p :: p in f ==> f[p].contents == g[p].contents && (Executable(f[p].mode) <==> Executable(g[p].mode))
  }

  lemma SameSub(f: Files, g: Files, e: string)
    requires SameFiles(f, g)
    ensures SameFiles(Sub(f, e), Sub(g, e))
  {
    forall q ensures q in Sub(f, e) <==> q in Sub(g, e) {}
  }

  lemma {:induction false} TreesOfSameFiles(h: ObjRef, f: Files, k: ObjRef, g: Files)
    requires IsTree(h, f) && IsTree(k, g) && ValidFiles(f) && ValidFiles(g) && SameFiles(f, g)
    ensures h == k
    decreases h
  {
    hide IsTree, ValidFiles, SameFiles;
    TreeShape(h, f);
    TreeShape(k, g);
    var a, b := Items(h), Items(k);
    forall x | x in a ensures x in b {
      SameItem(h, f, k, g, x);
    }
    forall x | x in b ensures x in a {
      ItemOfTree(k, g, x);
      SameNames(f, g, x.name);
      var y := ItemForName(h, f, x.name);
      SameItem(h, f, k, g, y);
      NamesAreUnique(k, g, x, y);
    }
    SortedIsUnique(a, b, ItemKey);
  }

  lemma SameNames(f: Files, g: Files, n: string)
    requires SameFiles(f, g)
    ensures (n in f <==> n in g) && (IsDirIn(f, n) <==> IsDirIn(g, n))
    ensures n in f ==> GitMode(f[n].mode) == GitMode(g[n].mode) && f[n].contents == g[n].contents
  {
    if IsDirIn(f, n) { var p :| p in f && Below(n, p); assert p in g; }
    if IsDirIn(g, n) { var p :| p in g && Below(n, p); assert p in f; }
  }

  lemma SameItem(h: ObjRef, f: Files, k: ObjRef, g: Files, x: Item)
    requires IsTree(h, f) && IsTree(k, g) && ValidFiles(f) && ValidFiles(g) && SameFiles(f, g)
    requires x in Items(h)
    ensures x in Items(k)
    decreases h, 0
  {
    hide IsTree, ValidFiles, SameFiles;
    var n := x.name;
    ItemOfTree(h, f, x);
    SameNames(f, g, n);
    var y := ItemForName(k, g, n);
    ItemOfTree(k, g, y);
    if x.mode == TREE_MODE {
      SameSub(f, g, n + "/");
      SubValid(f, n);
      SubValid(g, n);
      assert Pre(n) == n + "/";
      TreesOfSameFiles(x.ref, Sub(f, n + "/"), y.ref, Sub(g, n + "/"));
    } else {
      FileIsNoDir(f, n);
    }
  }

  // One tree holds one set of files.
  lemma {:induction false} TreeDeterminesFile(h: ObjRef, f: Files, g: Files, p: string)
    requires IsTree(h, f) && IsTree(h, g) && ValidFiles(f) && ValidFiles(g)
    requires p in f
    ensures p in g && g[p].contents == f[p].contents
    ensures Executable(g[p].mode) <==> Executable(f[p].mode)
    decreases |p|
  {
    assert CleanPath(p);
    hide IsTree, ValidFiles, CleanPath;
    FirstSegment(p);
    var c := Cut(p, '/');
    if c.found {
      assert p == c.before + "/" + c.after;
      FirstOfPath(f, c.before, c.after);
      var it := ItemForName(h, f, c.before);
      ItemOfTree(h, f, it);
      ItemOfTree(h, g, it);
      BelowName(f, c.before, c.after);
      BelowName(g, c.before, c.after);
      TreeDeterminesFile(it.ref, Sub(f, c.before + "/"), Sub(g, c.before + "/"), c.after);
    } else {
      FileIsNoDir(f, p);
      var it := ItemForName(h, f, p);
      ItemOfTree(h, f, it);
      ItemOfTree(h, g, it);
      LitInjective(f[p].contents, g[p].contents);
    }
  }

  // The root's name depends on paths, contents and executable bits, and on
  // nothing else: not on insertion order, map order or other mode bits.
  lemma RootNameIsCanonical(h: ObjRef, f: Files, k: ObjRef, g: Files)
    requires IsTree(h, f) && IsTree(k, g) && ValidFiles(f) && ValidFiles(g)
    ensures h == k <==> SameFiles(f, g)
  {
    hide IsTree, ValidFiles;
    if h == k {
      forall p | p in f
        ensures p in g && g[p].contents == f[p].contents && (Executable(g[p].mode) <==> Executable(f[p].mode))
      {
        TreeDeterminesFile(h, f, g, p);
      }
      forall p | p in g ensures p in f {
        TreeDeterminesFile(h, g, f, p);
      }
      assert f.Keys == g.Keys;
    }
    if SameFiles(f, g) {
      TreesOfSameFiles(h, f, k, g);
    }
  }
}
