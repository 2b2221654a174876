// git ls-tree -t -r: the listing of a tree object, directories before what
// they hold, read from an object table.

module LsTree {
  import opened Wrappers
  import opened Strings
  import opened Paths
  import opened GitObjects
  import opened TreeBuilder
  import opened TreeMeaning

  // One line: %(objectname) %(objectmode) %(objectsize) %(path). The size of a
  // tree is printed as "-".
  datatype Line = Line(ref: ObjRef, mode: string, size: Option<nat>, path: string)

  // %(objectmode) has six digits.
  const LS_TREE_MODE := "040000"

  function List(repo: map<ObjRef, Obj>, h: ObjRef, prefix: string): Option<seq<Line>>
    decreases h, 1, 0
  {
    if h in repo && h.Sha1? && repo[h] == Obj("tree", h.content, h) then
      match Parse(h.content)
      case None => None
      case Some(items) => ListItems(repo, h, items, prefix)
    else None
  }

  function ListItems(repo: map<ObjRef, Obj>, h: ObjRef, items: seq<Item>, prefix: string): Option<seq<Line>>
    requires h.Sha1? && forall i :: 0 <= i < |items| ==> Ref(items[i].ref) in h.content
    decreases h, 0, |items|
  {
    if items == [] then Some([])
    else
      var it, path := items[0], prefix + items[0].name;
      match ListItems(repo, h, items[1..], prefix)
      case None => None
      case Some(rest) =>
        if it.mode == TREE_MODE then
          match List(repo, it.ref, path + "/")
          case None => None
          case Some(below) => Some([Line(it.ref, LS_TREE_MODE, None, path)] + below + rest)
        else if it.ref in repo then
          Some([Line(it.ref, it.mode, Some(|repo[it.ref].content|), path)] + rest)
        else None
  }

  // ----- what a listing of the files f says

  // line is right for what it names, q, within the files f.
  ghost predicate LineHolds(line: Line, f: Files, q: string) {
    && CleanPath(q)
    && if line.mode == LS_TREE_MODE
       then line.size == None && IsDirIn(f, q)
       else q in f && line == Line(BlobRef(f[q].contents), GitMode(f[q].mode), Some(|f[q].contents|), line.path)
  }

  ghost predicate LineOf(line: Line, f: Files, prefix: string) {
    prefix <= line.path && LineHolds(line, f, line.path[|prefix|..])
  }

  ghost predicate PathsOnce(lines: seq<Line>) {
    forall i, j :: 0 <= i < j < |lines| ==> lines[i].path != lines[j].path
  }

  ghost predicate Lists(lines: seq<Line>, path: string) {
    exists i :: 0 <= i < |lines| && lines[i].path == path
  }

  // f has a file or a directory at q.
  ghost predicate Wanted(f: Files, q: string) {
    CleanPath(q) && (q in f || IsDirIn(f, q))
  }

  // Every file and directory of f whose first segment is in names, once.
  ghost predicate ListsExactly(lines: seq<Line>, f: Files, prefix: string, names: set<string>) {
    && PathsOnce(lines)
    && (forall i :: 0 <= i < |lines| ==> LineOf(lines[i], f, prefix) && FirstOf(lines[i], prefix) in names)
    && (forall q :: Wanted(f, q) && Cut(q, '/').before in names ==>
                      Lists(lines, prefix + q))
  }

  ghost function FirstOf(line: Line, prefix: string): string {
    if prefix <= line.path then Cut(line.path[|prefix|..], '/').before else ""
  }

  ghost function ItemNames(items: seq<Item>): set<string> {
    set i | 0 <= i < |items| :: items[i].name
  }

  lemma ListsAppend(a: seq<Line>, b: seq<Line>, p: string)
    ensures Lists(a + b, p) <==> Lists(a, p) || Lists(b, p)
  {
    var c := a + b;
    if Lists(a, p) {
      var i :| 0 <= i < |a| && a[i].path == p;
      assert c[i].path == p;
    }
    if Lists(b, p) {
      var i :| 0 <= i < |b| && b[i].path == p;
      assert c[i + |a|].path == p;
    }
  }

  // Two listings of different names, one after the other.
  lemma ListsJoin(a: seq<Line>, b: seq<Line>, f: Files, prefix: string, m: set<string>, n: set<string>)
    requires m !! n && ListsExactly(a, f, prefix, m) && ListsExactly(b, f, prefix, n)
    ensures ListsExactly(a + b, f, prefix, m + n)
  {
    hide LineOf, FirstOf, Wanted, Cut, Lists;
    var c := a + b;
    PathsJoin(a, b, prefix, m, n);
    forall q | Wanted(f, q) && Cut(q, '/').before in m + n ensures Lists(c, prefix + q) {
      ListsAppend(a, b, prefix + q);
    }
  }

  lemma PathsJoin(a: seq<Line>, b: seq<Line>, prefix: string, m: set<string>, n: set<string>)
    requires m !! n && PathsOnce(a) && PathsOnce(b)
    requires forall i :: 0 <= i < |a| ==> FirstOf(a[i], prefix) in m
    requires forall i :: 0 <= i < |b| ==> FirstOf(b[i], prefix) in n
    ensures PathsOnce(a + b)
  {
    hide FirstOf;
    var c := a + b;
    forall i, j | 0 <= i < j < |c| ensures c[i].path != c[j].path {
      if i < |a| <= j {
        SamePathSameFirst(a[i], b[j - |a|], prefix);
      }
    }
  }

  lemma SamePathSameFirst(a: Line, b: Line, prefix: string)
    ensures a.path == b.path ==> FirstOf(a, prefix) == FirstOf(b, prefix)
  {
  }

  lemma ListsNone(f: Files, prefix: string)
    ensures ListsExactly([], f, prefix, {})
  {
  }

  lemma FileLine(line: Line, f: Files, prefix: string, n: string)
    requires ValidFiles(f) && CleanName(n) && n in f
    requires line == Line(BlobRef(f[n].contents), GitMode(f[n].mode), Some(|f[n].contents|), prefix + n)
    ensures ListsExactly([line], f, prefix, {n})
  {
    CleanNameIsPath(n);
    CutNothing(n, '/');
    PrefixCut(prefix, n);
    hide CleanPath;
    assert line.mode != LS_TREE_MODE;
    assert [line][0].path == prefix + n;
    forall q | Wanted(f, q) && Cut(q, '/').before in {n} ensures Lists([line], prefix + q) {
      AtOrBelowName(f, n, q);
    }
  }

  // What starts with the name of a file is that file.
  lemma AtOrBelowName(f: Files, n: string, q: string)
    requires ValidFiles(f) && n in f && Wanted(f, q) && Cut(q, '/').before == n
    ensures q == n
  {
    FirstSegment(q);
    var c := Cut(q, '/');
    hide CleanPath;
    if c.found {
      assert q == n + "/" + c.after;
      FirstOfPath(f, n, c.after);
    }
  }

  lemma DirLines(line: Line, below: seq<Line>, f: Files, prefix: string, n: string, names: set<string>)
    requires ValidFiles(f) && CleanName(n) && IsDirIn(f, n)
    requires line.mode == LS_TREE_MODE && line.size == None && line.path == prefix + n
    requires ListsExactly(below, Sub(f, n + "/"), prefix + n + "/", names)
    requires forall q :: Wanted(Sub(f, n + "/"), q) ==> Cut(q, '/').before in names
    ensures ListsExactly([line] + below, f, prefix, {n})
  {
    hide CleanPath, ValidFiles, IsDirIn, LineOf, FirstOf, Lists, Wanted, Cut, Sub, CleanName;
    LineHere(line, f, prefix, n);
    forall i | 0 <= i < |below|
      ensures LineOf(below[i], f, prefix) && FirstOf(below[i], prefix) == n && |below[i].path| > |prefix + n|
    {
      LineBelow(below[i], f, prefix, n);
    }
    PathsCons(line, below);
    forall q | Wanted(f, q) && Cut(q, '/').before in {n} ensures Lists([line] + below, prefix + q) {
      ListedBelow(line, below, f, prefix, n, names, q);
    }
  }

  lemma PathsCons(line: Line, below: seq<Line>)
    requires PathsOnce(below) && forall i :: 0 <= i < |below| ==> |below[i].path| > |line.path|
    ensures PathsOnce([line] + below)
  {
    var all := [line] + below;
    forall i, j | 0 <= i < j < |all| ensures all[i].path != all[j].path {
      assert all[j] == below[j - 1];
      if i > 0 { assert all[i] == below[i - 1]; }
    }
  }

  lemma LineHere(line: Line, f: Files, prefix: string, n: string)
    requires CleanName(n) && IsDirIn(f, n)
    requires line.mode == LS_TREE_MODE && line.size == None && line.path == prefix + n
    ensures LineOf(line, f, prefix) && FirstOf(line, prefix) == n
  {
    CleanNameIsPath(n);
    CutNothing(n, '/');
    PrefixCut(prefix, n);
  }

  lemma LineBelow(line: Line, f: Files, prefix: string, n: string)
    requires ValidFiles(f) && CleanName(n) && LineOf(line, Sub(f, n + "/"), prefix + n + "/")
    ensures LineOf(line, f, prefix) && FirstOf(line, prefix) == n && |line.path| > |prefix + n|
  {
    hide ValidFiles, LineHolds;
    var e := prefix + n + "/";
    var a := line.path[|e|..];
    SubPrefix(prefix, n, line.path);
    HoldsBelow(line, f, n, a);
    CutIsUnique(n, '/', a);
    assert n + ['/'] + a == n + "/" + a;
  }

  lemma SubPrefix(prefix: string, n: string, path: string)
    requires prefix + n + "/" <= path
    ensures prefix <= path && |path| > |prefix + n|
    ensures path[|prefix|..] == n + "/" + path[|prefix + n + "/"|..]
  {
    var e := prefix + n + "/";
    var a := path[|e|..];
    assert path == e + a == prefix + (n + "/" + a);
    PrefixCut(prefix, n + "/" + a);
  }

  lemma HoldsBelow(line: Line, f: Files, n: string, a: string)
    requires ValidFiles(f) && CleanName(n) && LineHolds(line, Sub(f, n + "/"), a)
    ensures LineHolds(line, f, n + "/" + a)
  {
    hide ValidFiles, IsDirIn;
    assert CleanPath(a);
    CleanNameIsPath(n);
    CleanSplit(n, a);
    hide CleanPath;
    BelowName(f, n, a);
  }

  lemma ListedBelow(line: Line, below: seq<Line>, f: Files, prefix: string, n: string, names: set<string>, q: string)
    requires ValidFiles(f) && CleanName(n)
    requires line.path == prefix + n
    requires ListsExactly(below, Sub(f, n + "/"), prefix + n + "/", names)
    requires forall q :: Wanted(Sub(f, n + "/"), q) ==> Cut(q, '/').before in names
    requires Wanted(f, q) && Cut(q, '/').before == n
    ensures Lists([line] + below, prefix + q)
  {
    hide ValidFiles, IsDirIn, PathsOnce, LineOf, FirstOf, Lists, CleanName, Sub, Wanted;
    ListsAppend([line], below, prefix + q);
    var c := Cut(q, '/');
    if c.found {
      assert q == n + "/" + c.after;
      WantedBelow(f, n, c.after);
      JoinAssoc(prefix, n, c.after);
    } else {
      ListsOne(line);
    }
  }

  lemma ListsOne(line: Line)
    ensures Lists([line], line.path)
  {
    assert [line][0].path == line.path;
  }

  lemma WantedBelow(f: Files, n: string, a: string)
    requires ValidFiles(f) && CleanName(n) && Wanted(f, n + "/" + a)
    ensures Wanted(Sub(f, n + "/"), a)
  {
    hide ValidFiles, IsDirIn, Sub;
    CleanSplit(n, a);
    hide CleanPath;
    BelowName(f, n, a);
  }

  // ----- git lists exactly the files and directories of a tree

  lemma {:induction false} ListIsExact(repo: map<ObjRef, Obj>, h: ObjRef, f: Files, prefix: string)
    requires Closed(repo) && h in repo && IsTree(h, f) && ValidFiles(f)
    ensures List(repo, h, prefix).Some?
    ensures ListsExactly(List(repo, h, prefix).value, f, prefix, ItemNames(Items(h)))
    ensures forall q :: Wanted(f, q) ==> Cut(q, '/').before in ItemNames(Items(h))
    decreases h, 1, 0
  {
    hide IsTree, ValidFiles, Wanted, ListsExactly, ItemHolds, ItemNames, Cut, Parse, Encode;
    TreeShape(h, f);
    var items := Items(h);
    forall i | 0 <= i < |items| ensures Ref(items[i].ref) in h.content && ItemHolds(h, items[i], f) {
      ItemOfTree(h, f, items[i]);
    }
    forall i, j | 0 <= i < j < |items| ensures items[i].name != items[j].name {
      NamesDiffer(h, f, i, j);
    }
    ListItemsIsExact(repo, h, items, f, prefix);
    forall q | Wanted(f, q) ensures Cut(q, '/').before in ItemNames(items) {
      FirstListed(h, f, q);
    }
  }

  lemma NamesDiffer(h: ObjRef, f: Files, i: nat, j: nat)
    requires IsTree(h, f) && ValidFiles(f) && i < j < |Items(h)|
    ensures Items(h)[i].name != Items(h)[j].name
  {
    hide IsTree, ValidFiles, Parse, Encode;
    TreeShape(h, f);
    var x, y := Items(h)[i], Items(h)[j];
    assert Less(ItemKey(x), ItemKey(y));
    LessAsymmetric(ItemKey(x), ItemKey(y));
    if x.name == y.name { NamesAreUnique(h, f, x, y); }
  }

  lemma FirstListed(h: ObjRef, f: Files, q: string)
    requires IsTree(h, f) && ValidFiles(f) && Wanted(f, q)
    ensures Cut(q, '/').before in ItemNames(Items(h))
  {
    FirstSegment(q);
    hide IsTree, ValidFiles, CleanPath, IsDirIn;
    var c := Cut(q, '/');
    if c.found {
      assert q == c.before + "/" + c.after;
      FirstOfPath(f, c.before, c.after);
    }
    var it := ItemForName(h, f, c.before);
    var i :| 0 <= i < |Items(h)| && Items(h)[i] == it;
    assert Items(h)[i].name == c.before;
  }

  ghost predicate ItemsOf(items: seq<Item>, h: ObjRef, f: Files) {
    && h.Sha1?
    && (forall i :: 0 <= i < |items| ==> Ref(items[i].ref) in h.content && ItemHolds(h, items[i], f))
    && (forall i, j :: 0 <= i < j < |items| ==> items[i].name != items[j].name)
  }

  lemma ItemsTail(items: seq<Item>, h: ObjRef, f: Files)
    requires ItemsOf(items, h, f) && items != []
    ensures ItemsOf(items[1..], h, f)
    ensures items[0].name !in ItemNames(items[1..])
    ensures ItemNames(items) == {items[0].name} + ItemNames(items[1..])
    ensures forall i :: 0 <= i < |items| ==> Ref(items[i].ref) in h.content
    ensures ItemHolds(h, items[0], f)
  {
    hide ItemHolds;
    var it, rest := items[0], items[1..];
    assert forall i :: 0 <= i < |rest| ==> items[i + 1] == rest[i];
    forall n | n in ItemNames(items) ensures n == it.name || n in ItemNames(rest) {
      var i :| 0 <= i < |items| && items[i].name == n;
      if i > 0 { assert rest[i - 1].name == n; }
    }
    forall n | n in ItemNames(rest) ensures n in ItemNames(items) {
      var i :| 0 <= i < |rest| && rest[i].name == n;
      assert items[i + 1].name == n;
    }
    assert it.name in ItemNames(items);
  }

  lemma {:induction false} ListItemsIsExact(
      repo: map<ObjRef, Obj>, h: ObjRef, items: seq<Item>, f: Files, prefix: string)
    requires Closed(repo) && ValidFiles(f) && h in repo && ItemsOf(items, h, f)
    ensures ListItems(repo, h, items, prefix).Some?
    ensures ListsExactly(ListItems(repo, h, items, prefix).value, f, prefix, ItemNames(items))
    decreases h, 0, |items|
  {
    hide ValidFiles, ListsExactly, ItemsOf, IsTree, Sub, Wanted, IsDirIn;
    if items == [] {
      ListsNone(f, prefix);
      assert ItemNames(items) == {};
    } else {
      var it, rest, path := items[0], items[1..], prefix + items[0].name;
      ItemsTail(items, h, f);
      ListItemsIsExact(repo, h, rest, f, prefix);
      var tail := ListItems(repo, h, rest, prefix).value;
      hide ItemNames;
      if it.mode == TREE_MODE {
        SubOfName(f, it.name);
        ListIsExact(repo, it.ref, Sub(f, it.name + "/"), path + "/");
        var below := List(repo, it.ref, path + "/").value;
        var line := Line(it.ref, LS_TREE_MODE, None, path);
        DirLines(line, below, f, prefix, it.name, ItemNames(Items(it.ref)));
        ListsJoin([line] + below, tail, f, prefix, {it.name}, ItemNames(rest));
      } else {
        var line := Line(it.ref, it.mode, Some(|f[it.name].contents|), path);
        FileLine(line, f, prefix, it.name);
        ListsJoin([line], tail, f, prefix, {it.name}, ItemNames(rest));
      }
    }
  }

  lemma SubOfName(f: Files, n: string)
    requires ValidFiles(f) && n != ""
    ensures ValidFiles(Sub(f, n + "/"))
  {
    SubValid(f, n);
    assert Pre(n) == n + "/";
  }
}
