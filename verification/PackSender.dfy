// sendToGit of store/gitstore/gitstore.go: the objects that git lacks go to it in
// one pack.

module PackSender {
  import opened Wrappers
  import opened GitObjects
  import opened TreeBuilder
  import opened PackFile
  import RecordMarking

  type Repo = map<ObjRef, Obj>

  type Bytes = RecordMarking.Bytes

  const W: nat := RecordMarking.W

  // The names of hashes that git does not have, in the order of hashes.
  function Lacking(hashes: seq<ObjRef>, have: Repo): (r: seq<ObjRef>)
    ensures forall h :: h in r <==> h in hashes && h !in have
    ensures |r| <= |hashes|
  {
    if hashes == [] then []
    else
      var h := hashes[|hashes| - 1];
      assert hashes == hashes[..|hashes| - 1] + [h];
      Lacking(hashes[..|hashes| - 1], have) + if h in have then [] else [h]
  }

  ghost predicate Once(hashes: seq<ObjRef>) {
    forall i, j :: 0 <= i < j < |hashes| ==> hashes[i] != hashes[j]
  }

  lemma {:induction false} LackingOnce(hashes: seq<ObjRef>, have: Repo)
    requires Once(hashes)
    ensures Once(Lacking(hashes, have))
  {
    if hashes != [] {
      var t, h := hashes[..|hashes| - 1], hashes[|hashes| - 1];
      assert forall i :: 0 <= i < |t| ==> t[i] == hashes[i];
      LackingOnce(t, have);
      assert h !in t;
    }
  }

  // Everything that an object of missing refers to is in git or earlier.
  ghost predicate Ordered(missing: seq<ObjRef>, have: Repo) {
    forall i, r :: 0 <= i < |missing| && missing[i].Sha1? && Ref(r) in missing[i].content ==>
                     r in have || r in missing[..i]
  }

  // git cat-file --batch-check: the names git does not know, in order.
  method BatchCheck(hashes: seq<ObjRef>, have: Repo, ghost objs: Repo) returns (missing: seq<ObjRef>)
    requires Emitted(hashes, objs)
    ensures missing == Lacking(hashes, have) && Once(missing) && Ordered(missing, have)
  {
    hide Emitted, Ordered, Lacking, Once;
    missing := [];
    NothingLacking(hashes, have, objs);
    var i := 0;
    while i < |hashes|
      invariant 0 <= i <= |hashes|
      invariant missing == Lacking(hashes[..i], have) && Ordered(missing, have)
    {
      var h := hashes[i];
      LackingSnoc(hashes, have, i);
      if h !in have {
        OrderedSnoc(missing, have, hashes, i, objs);
        missing := missing + [h];
      }
      i := i + 1;
    }
    assert hashes[..i] == hashes;
    LackingOnce(hashes, have);
  }

  lemma NothingLacking(hashes: seq<ObjRef>, have: Repo, objs: Repo)
    requires Emitted(hashes, objs)
    ensures Lacking(hashes[..0], have) == [] && Ordered([], have) && Once(hashes)
  {
  }

  lemma LackingSnoc(hashes: seq<ObjRef>, have: Repo, i: nat)
    requires i < |hashes|
    ensures Lacking(hashes[..i + 1], have) == Lacking(hashes[..i], have) + if hashes[i] in have then [] else [hashes[i]]
  {
    assert hashes[..i + 1][..i] == hashes[..i];
  }

  lemma OrderedSnoc(missing: seq<ObjRef>, have: Repo, hashes: seq<ObjRef>, i: nat, objs: Repo)
    requires Emitted(hashes, objs) && i < |hashes|
    requires missing == Lacking(hashes[..i], have) && Ordered(missing, have)
    ensures Ordered(missing + [hashes[i]], have)
  {
    var t := missing + [hashes[i]];
    forall k, r | 0 <= k < |t| && t[k].Sha1? && Ref(r) in t[k].content ensures r in have || r in t[..k] {
      if k < |missing| {
        assert t[..k] == missing[..k];
      } else {
        assert t[..k] == missing;
        assert r in hashes[..i];
      }
    }
  }

  type Toks = seq<Tok>

  function KindOf(typ: string): ObjKind {
    if typ == "tree" then Tree else Blob
  }

  // What a pack holds for the objects of that name.
  function Packed(hashSet: Repo, hashes: seq<ObjRef>): seq<PackObj<Toks>>
    requires forall h :: h in hashes ==> h in hashSet
  {
    seq(|hashes|, i requires 0 <= i < |hashes| =>
      PackObj(KindOf(hashSet[hashes[i]].typ), hashSet[hashes[i]].content))
  }

  // git and those of the objects.
  ghost function With(have: Repo, hashSet: Repo, hashes: seq<ObjRef>): Repo {
    have + map h | h in hashes && h in hashSet :: hashSet[h]
  }

  function TypeName(k: ObjKind): string {
    if k.Tree? then "tree" else "blob"
  }

  // The objects by the names that git computes for them.
  function Filed(objs: seq<PackObj<Toks>>): Repo {
    if objs == [] then map[]
    else
      var o := objs[|objs| - 1];
      var typ := TypeName(o.kind);
      var h := MkObjRef(typ, o.content);
      Filed(objs[..|objs| - 1])[h := Obj(typ, o.content, h)]
  }

  // git index-pack: what git holds once it has read the pack.
  function IndexPack(k: Codec<Toks>, have: Repo, pack: Bytes): Option<Repo> {
    match ReadPack(k, pack)
    case None => None
    case Some(objs) => Some(have + Filed(objs))
  }

  // The objects git lacks go into one pack, each once and after all it refers
  // to, and git reads it. Whatever part of the pack git has taken in, it holds
  // everything that its objects refer to; in the end it holds all of them,
  // unless they are more than a pack can count.
  method SendToGit(k: Codec<Toks>, hashSet: Repo, hashes: seq<ObjRef>, have: Repo)
    returns (r: Option<Repo>, ghost missing: seq<ObjRef>)
    requires GoodCodec(k) && Closed(hashSet) && Emitted(hashes, hashSet) && Closed(have)
    ensures r == if |missing| < W then Some(have + hashSet) else None
    ensures Closed(have + hashSet)
    ensures missing == Lacking(hashes, have) && Once(missing)
    ensures forall h :: h in missing <==> h in hashSet && h !in have
    ensures forall n :: 0 <= n <= |missing| ==> Closed(With(have, hashSet, missing[..n]))
  {
    hide Closed, Ordered, Emitted, Lacking, Once, GoodCodec, ReadPack, Filed;
    var lacking := BatchCheck(hashes, have, hashSet);
    missing := lacking;
    MissingIs(missing, hashes, have, hashSet);
    forall n | 0 <= n <= |missing| ensures Closed(With(have, hashSet, missing[..n])) {
      EveryMoment(have, hashSet, missing, n);
    }
    AllSent(have, hashSet, missing);
    assert missing[..|missing|] == missing;
    if lacking == [] {
      NothingSent(have, hashSet);
      return Some(have), missing;
    }
    var objs := PackObjects(hashSet, lacking);
    var pack := WritePack(k, objs);
    FiledIs(hashSet, lacking);
    r := IndexPack(k, have, pack);
  }

  lemma NothingSent(have: Repo, hashSet: Repo)
    ensures With(have, hashSet, []) == have
  {
  }

  // The objects of a pack come back under the names they had.
  lemma {:induction false} FiledIs(hashSet: Repo, hashes: seq<ObjRef>)
    requires Closed(hashSet) && forall h :: h in hashes ==> h in hashSet
    ensures Filed(Packed(hashSet, hashes)) == map h | h in hashes && h in hashSet :: hashSet[h]
  {
    if hashes != [] {
      var t, h := hashes[..|hashes| - 1], hashes[|hashes| - 1];
      assert hashes == t + [h];
      FiledIs(hashSet, t);
      assert h in hashes && hashSet[h] == Obj(h.typ, h.content, h);
      hide Closed;
      var objs := Packed(hashSet, hashes);
      assert objs[..|objs| - 1] == Packed(hashSet, t);
    }
  }

  // The loop of sendToGit; neither of its errors can occur.
  method PackObjects(hashSet: Repo, missing: seq<ObjRef>) returns (objs: seq<PackObj<Toks>>)
    requires Closed(hashSet) && forall h :: h in missing ==> h in hashSet
    ensures objs == Packed(hashSet, missing)
  {
    hide Closed;
    objs := [];
    var i := 0;
    while i < |missing|
      invariant 0 <= i <= |missing|
      invariant |objs| == i
      invariant forall j :: 0 <= j < i ==>
                  objs[j] == PackObj(KindOf(hashSet[missing[j]].typ), hashSet[missing[j]].content)
    {
      HasType(hashSet, missing[i]);
      var obj := hashSet[missing[i]];
      assert obj.typ == "blob" || obj.typ == "tree";
      objs := objs + [PackObj(KindOf(obj.typ), obj.content)];
      i := i + 1;
    }
  }

  lemma HasType(repo: Repo, h: ObjRef)
    requires Closed(repo) && h in repo
    ensures repo[h].typ == "blob" || repo[h].typ == "tree"
  {
  }

  lemma MissingIs(missing: seq<ObjRef>, hashes: seq<ObjRef>, have: Repo, hashSet: Repo)
    requires missing == Lacking(hashes, have) && Emitted(hashes, hashSet)
    ensures forall h :: h in missing <==> h in hashSet && h !in have
  {
  }

  lemma EveryMoment(have: Repo, hashSet: Repo, missing: seq<ObjRef>, n: nat)
    requires Closed(have) && Closed(hashSet) && Ordered(missing, have) && n <= |missing|
    requires forall h :: h in missing <==> h in hashSet && h !in have
    ensures Closed(With(have, hashSet, missing[..n]))
  {
    var repo := With(have, hashSet, missing[..n]);
    forall h | h in missing[..n] ensures h in missing && h in hashSet && h in repo {
    }
    forall h, r | h in repo && h.Sha1? && Ref(r) in h.content ensures r in repo {
      if h !in have {
        var i :| 0 <= i < n && missing[i] == h;
        if r !in have {
          assert r in missing[..i];
          var j :| 0 <= j < i && missing[j] == r;
          assert missing[..n][j] == r;
        }
      }
    }
  }

  lemma AllSent(have: Repo, hashSet: Repo, missing: seq<ObjRef>)
    requires Closed(have) && Closed(hashSet) && forall h :: h in missing <==> h in hashSet && h !in have
    ensures With(have, hashSet, missing) == have + hashSet
  {
    forall h | h in have && h in hashSet ensures have[h] == hashSet[h] {
    }
  }
}
