// Git's object model as store/gitstore relies on it: blobs, tree objects in
// their binary form, and what a tree object means.

module GitObjects {
  import opened Wrappers
  import opened Strings
  import opened Paths
  import opened Sorting

  // os.FileMode: a file type and permission bits.
  datatype Kind = Regular | Directory | Symlink | Irregular

  datatype FileMode = FileMode(kind: Kind, perm: bv16)

  // 0111
  const EXEC_BITS: bv16 := 0x49

  predicate Executable(m: FileMode) {
    m.perm & EXEC_BITS != 0
  }

  // An object's contents are bytes, except that the 20 bytes of an object name
  // inside a tree object are one token. An object name is its type and contents
  // under a constructor, so that different objects have different names.
  datatype Tok = Ch(c: char) | Ref(r: ObjRef)

  datatype ObjRef = Zero | Sha1(typ: string, content: seq<Tok>)

  datatype Obj = Obj(typ: string, content: seq<Tok>, hash: ObjRef)

  function MkObjRef(typ: string, content: seq<Tok>): ObjRef {
    Sha1(typ, content)
  }

  function Lit(s: string): (t: seq<Tok>)
    ensures |t| == |s| && forall i :: 0 <= i < |s| ==> t[i] == Ch(s[i])
  {
    seq(|s|, i requires 0 <= i < |s| => Ch(s[i]))
  }

  lemma LitInjective(a: string, b: string)
    ensures Lit(a) == Lit(b) <==> a == b
  {
    if Lit(a) == Lit(b) {
      assert forall i :: 0 <= i < |a| ==> Lit(a)[i] == Ch(a[i]) && Lit(b)[i] == Ch(b[i]);
    }
  }

  datatype FileInfo = FileInfo(contents: string, mode: FileMode, gitHash: ObjRef)

  type Files = map<string, FileInfo>

  function BlobRef(contents: string): ObjRef {
    MkObjRef("blob", Lit(contents))
  }

  // ----- the binary form of a tree object

  datatype Item = Item(mode: string, name: string, ref: ObjRef)

  const TREE_MODE := "40000"

  function GitMode(m: FileMode): string {
    if Executable(m) then "100755" else "100644"
  }

  // fmt.Fprintf(&buf, "%s %s\x00", mode, name); buf.Write(hash[:])
  function EncodeItem(it: Item): seq<Tok> {
    Lit(it.mode) + [Ch(' ')] + Lit(it.name) + [Ch('\0')] + [Ref(it.ref)]
  }

  function Encode(items: seq<Item>): seq<Tok> {
    if items == [] then []
    else Encode(items[..|items| - 1]) + EncodeItem(items[|items| - 1])
  }

  // Git's reader of a tree object.
  function ReadUntil(c: seq<Tok>, stop: char): (r: Option<(string, seq<Tok>)>)
    ensures r.Some? ==> stop !in r.value.0 && c == Lit(r.value.0) + [Ch(stop)] + r.value.1
  {
    if c == [] || c[0].Ref? then None
    else if c[0].c == stop then
      assert c == Lit("") + [Ch(stop)] + c[1..];
      Some(("", c[1..]))
    else
      match ReadUntil(c[1..], stop)
      case None => None
      case Some((s, rest)) =>
        assert c == [c[0]] + c[1..];
        assert Lit([c[0].c] + s) == [c[0]] + Lit(s);
        assert c == Lit([c[0].c] + s) + [Ch(stop)] + rest;
        Some(([c[0].c] + s, rest))
  }

  function ParseItem(c: seq<Tok>): (r: Option<(Item, seq<Tok>)>)
    ensures r.Some? ==> c == EncodeItem(r.value.0) + r.value.1
    ensures r.Some? ==> ' ' !in r.value.0.mode && '\0' !in r.value.0.name
  {
    match ReadUntil(c, ' ')
    case None => None
    case Some((mode, c1)) =>
      match ReadUntil(c1, '\0')
      case None => None
      case Some((name, c2)) =>
        if c2 == [] || c2[0].Ch? then None
        else
          assert c2 == [Ref(c2[0].r)] + c2[1..];
          Some((Item(mode, name, c2[0].r), c2[1..]))
  }

  function Parse(c: seq<Tok>): (r: Option<seq<Item>>)
    ensures r.Some? ==> forall i :: 0 <= i < |r.value| ==> Ref(r.value[i].ref) in c
    decreases |c|
  {
    if c == [] then Some([])
    else
      match ParseItem(c)
      case None => None
      case Some((it, rest)) =>
        ItemIsRead(it, rest, c);
        match Parse(rest)
        case None => None
        case Some(items) => Some([it] + items)
  }

  lemma ItemIsRead(it: Item, rest: seq<Tok>, c: seq<Tok>)
    requires c == EncodeItem(it) + rest
    ensures |rest| < |c| && Ref(it.ref) in c && forall x :: x in rest ==> x in c
  {
    assert c[|EncodeItem(it)| - 1] == Ref(it.ref);
  }

  ghost predicate Encodable(items: seq<Item>) {
    forall i :: 0 <= i < |items| ==> ' ' !in items[i].mode && '\0' !in items[i].name
  }

  lemma {:induction false} ReadUntilFinds(s: string, stop: char, rest: seq<Tok>)
    requires stop !in s
    ensures ReadUntil(Lit(s) + [Ch(stop)] + rest, stop) == Some((s, rest))
  {
    hide ReadUntil, Lit;
    if s == "" {
      assert Lit("") == [];
      assert [] + [Ch(stop)] + rest == [Ch(stop)] + rest;
      ReadUntilStep(stop, stop, rest);
    } else {
      assert s[0] in s && s == [s[0]] + s[1..];
      var more := Lit(s[1..]) + [Ch(stop)] + rest;
      LitTail(s, stop, rest);
      ReadUntilFinds(s[1..], stop, rest);
      ReadUntilStep(s[0], stop, more);
    }
  }

  lemma ReadUntilStep(c: char, stop: char, rest: seq<Tok>)
    ensures ReadUntil([Ch(c)] + rest, stop) ==
            if c == stop then Some(("", rest))
            else
              match ReadUntil(rest, stop)
              case None => None
              case Some((s, more)) => Some(([c] + s, more))
  {
    assert ([Ch(c)] + rest)[1..] == rest;
  }

  lemma LitTail(s: string, stop: char, rest: seq<Tok>)
    requires s != ""
    ensures Lit(s) + [Ch(stop)] + rest == [Ch(s[0])] + (Lit(s[1..]) + [Ch(stop)] + rest)
  {
    assert Lit(s) == [Ch(s[0])] + Lit(s[1..]);
  }

  lemma ParseItemFinds(it: Item, rest: seq<Tok>)
    requires ' ' !in it.mode && '\0' !in it.name
    ensures ParseItem(EncodeItem(it) + rest) == Some((it, rest))
  {
    var c2 := [Ref(it.ref)] + rest;
    var c1 := Lit(it.name) + [Ch('\0')] + c2;
    assert EncodeItem(it) + rest == Lit(it.mode) + [Ch(' ')] + c1;
    ReadUntilFinds(it.mode, ' ', c1);
    ReadUntilFinds(it.name, '\0', c2);
    assert c2[1..] == rest;
  }

  lemma {:induction false} EncodeCons(it: Item, items: seq<Item>)
    ensures Encode([it] + items) == EncodeItem(it) + Encode(items)
  {
    hide EncodeItem;
    if items == [] {
      assert [it] + items == [it];
      assert Encode([it]) == Encode([]) + EncodeItem(it);
    } else {
      var n := |items| - 1;
      assert ([it] + items)[..n + 1] == [it] + items[..n];
      EncodeCons(it, items[..n]);
      TokAssoc(EncodeItem(it), Encode(items[..n]), EncodeItem(items[n]));
    }
  }

  lemma TokAssoc(a: seq<Tok>, b: seq<Tok>, c: seq<Tok>)
    ensures a + b + c == a + (b + c)
  {
  }

  // Reading what buildTree wrote gives back the entries.
  lemma {:induction false} ParseEncode(items: seq<Item>)
    requires Encodable(items)
    ensures Parse(Encode(items)) == Some(items)
  {
    if items != [] {
      var it, rest := items[0], items[1..];
      assert items == [it] + rest;
      EncodeCons(it, rest);
      ParseItemFinds(it, Encode(rest));
      ParseEncode(rest);
    }
  }

  // Entries have one binary form only.
  lemma {:induction false} EncodeParse(c: seq<Tok>)
    requires Parse(c).Some?
    ensures Encode(Parse(c).value) == c && Encodable(Parse(c).value)
    decreases |c|
  {
    if c != [] {
      var (it, rest) := ParseItem(c).value;
      assert |rest| < |c|;
      EncodeParse(rest);
      EncodeCons(it, Parse(rest).value);
    }
  }

  // ----- what a tree object means

  // Some file of f lies below directory d of f.
  ghost predicate IsDirIn<V>(f: map<string, V>, d: string) {
    exists p :: p in f && Below(d, p)
  }

  // The files below prefix e, named from there.
  ghost function Sub<V>(f: map<string, V>, e: string): (r: map<string, V>)
    ensures forall q {:trigger q in r} :: q in r <==> q != "" && e + q in f
    ensures forall q {:trigger r[q]} :: q in r ==> r[q] == f[e + q]
  {
    var keys := set p | p in f && e < p :: p[|e|..];
    assert forall p :: p in f && e < p ==> e + p[|e|..] == p;
    assert forall q :: q in keys ==> e + q in f;
    assert forall q | q != "" && e + q in f :: q in keys by {
      forall q | q != "" && e + q in f ensures q in keys {
        var p := e + q;
        assert p in f && e < p && p[|e|..] == q;
      }
    }
    map q | q in keys :: f[e + q]
  }

  // Clean relative paths, none of which is a directory on the way to another.
  ghost predicate ValidFiles<V>(f: map<string, V>) {
    && (forall p :: p in f ==> CleanPath(p))
    && (forall p :: p in f ==> !IsDirIn(f, p))
  }

  lemma FileIsClean<V>(f: map<string, V>, p: string)
    requires ValidFiles(f) && p in f
    ensures CleanPath(p)
  {
  }

  lemma FileIsNoDir<V>(f: map<string, V>, p: string)
    requires ValidFiles(f) && p in f
    ensures !IsDirIn(f, p)
  {
  }

  lemma NotBelowFile<V>(f: map<string, V>, p: string, q: string)
    requires ValidFiles(f) && p in f && q in f
    ensures !Below(p, q)
  {
  }

  function SortKey(name: string, isDir: bool): string {
    if isDir then name + "/" else name
  }

  // The byte of an entry's name at place k, as git compares names: a name of a
  // directory goes on with a slash, and the end of a name is below every byte.
  function ByteAt(name: string, isDir: bool, k: nat): int {
    if k < |name| then name[k] as int
    else if isDir && k == |name| then '/' as int
    else -1
  }

  // Git's order of the entries of a tree, decided where the names first differ.
  ghost predicate GitBefore(a: string, aDir: bool, b: string, bDir: bool) {
    exists k: nat :: PartAt(a, aDir, b, bDir, k)
  }

  predicate PartAt(a: string, aDir: bool, b: string, bDir: bool, k: nat) {
    k <= |a| && k <= |b| && a[..k] == b[..k] && ByteAt(a, aDir, k) < ByteAt(b, bDir, k)
  }

  lemma KeysInGitOrder(a: string, aDir: bool, b: string, bDir: bool)
    requires '/' !in a && '/' !in b
    ensures Less(SortKey(a, aDir), SortKey(b, bDir)) <==> GitBefore(a, aDir, b, bDir)
  {
    hide Less;
    var x, y := SortKey(a, aDir), SortKey(b, bDir);
    LessIsByteOrder(x, y);
    assert forall k :: 0 <= k <= |a| ==> x[..k] == a[..k];
    assert forall k :: 0 <= k <= |b| ==> y[..k] == b[..k];
    assert aDir ==> x[|a|] == '/';
    assert forall k :: |a| < k <= |x| && k <= |y| && x[..k] == y[..k] ==> x[..k][|a|] == y[|a|];
    forall k | PartsAt(x, y, k) ensures PartAt(a, aDir, b, bDir, k) {}
    forall k: nat | PartAt(a, aDir, b, bDir, k) ensures PartsAt(x, y, k) {}
  }

  function ItemKey(it: Item): string {
    SortKey(it.name, it.mode == TREE_MODE)
  }

  // The object h is a tree that holds exactly the files f, up to permission
  // bits other than the executable ones.
  ghost predicate IsTree(h: ObjRef, f: Files)
    decreases h
  {
    && h.Sha1? && h.typ == "tree" && Parse(h.content).Some?
    && var items := Parse(h.content).value;
       && Sorted(items, ItemKey)
       && (forall i :: 0 <= i < |items| ==> ItemHolds(h, items[i], f))
       && (forall p :: p in f ==> exists i :: 0 <= i < |items| && items[i].name == Cut(p, '/').before)
  }

  ghost predicate ItemHolds(h: ObjRef, it: Item, f: Files)
    requires h.Sha1? && Ref(it.ref) in h.content
    decreases h, 0
  {
    && CleanName(it.name)
    && if it.mode == TREE_MODE
       then IsDirIn(f, it.name) && IsTree(it.ref, Sub(f, it.name + "/"))
       else it.name in f && it.mode == GitMode(f[it.name].mode) && it.ref == BlobRef(f[it.name].contents)
  }

  // The entries of the tree h stand in git's order.
  ghost predicate InGitOrder(h: ObjRef) {
    && h.Sha1? && Parse(h.content).Some?
    && var items := Parse(h.content).value;
       forall i, j :: 0 <= i < j < |items| ==>
         GitBefore(items[i].name, items[i].mode == TREE_MODE, items[j].name, items[j].mode == TREE_MODE)
  }

  // So do those of every tree of files, each directory's included.
  lemma TreesInGitOrder(h: ObjRef, f: Files)
    requires IsTree(h, f)
    ensures InGitOrder(h)
  {
    hide Parse, GitBefore, SortKey, Less;
    var items := Parse(h.content).value;
    forall i, j | 0 <= i < j < |items|
      ensures GitBefore(items[i].name, items[i].mode == TREE_MODE, items[j].name, items[j].mode == TREE_MODE)
    {
      assert ItemHolds(h, items[i], f) && ItemHolds(h, items[j], f);
      assert Less(ItemKey(items[i]), ItemKey(items[j]));
      KeysInGitOrder(items[i].name, items[i].mode == TREE_MODE, items[j].name, items[j].mode == TREE_MODE);
    }
  }
}
