// The meaning of the NFS read cache: the files it can serve, most recently
// used first, each handle once, with shared contents counted once.

module ReadCacheSpec {
  import opened Wrappers
  import opened LruSpec

  type Bytes = string

  // sha256.Sum256 as a constructor: different contents, different digests.
  datatype Digest = Sha256(data: Bytes)

  datatype CachedFile<A> = CachedFile(attr: A, contents: Bytes)

  // What entCache keeps for a handle.
  datatype Ent<A> = Ent(attr: A, blobHash: Digest)

  type View<H, A> = seq<(H, CachedFile<A>)>

  ghost function EntOf<A>(s: CachedFile<A>): Ent<A> {
    Ent(s.attr, Sha256(s.contents))
  }

  ghost function Ents<H, A>(v: View<H, A>): (r: seq<(H, Ent<A>)>)
    ensures |r| == |v|
    ensures forall i :: 0 <= i < |v| ==> r[i] == (v[i].0, EntOf(v[i].1))
  {
    seq(|v|, i requires 0 <= i < |v| => (v[i].0, EntOf(v[i].1)))
  }

  ghost function Digests<H, A>(v: View<H, A>): (r: seq<Digest>)
    ensures |r| == |v|
    ensures forall i :: 0 <= i < |v| ==> r[i] == Sha256(v[i].1.contents)
  {
    seq(|v|, i requires 0 <= i < |v| => Sha256(v[i].1.contents))
  }

  // The total length of a set of blobs.
  ghost function BlobBytes(s: set<Digest>): nat {
    if s == {} then 0
    else var d :| d in s; |d.data| + BlobBytes(s - {d})
  }

  // The bytes held for a view: contents that several handles share count once.
  ghost function SharedSize<H, A>(v: View<H, A>): nat {
    BlobBytes(set d | d in Digests(v))
  }

  ghost function FitShared<H, A>(v: View<H, A>, max: int): View<H, A> {
    if v == [] || SharedSize(v) <= max then v else FitShared(v[..|v| - 1], max)
  }

  ghost function PutShared<H, A>(v: View<H, A>, h: H, s: CachedFile<A>, max: int): View<H, A> {
    FitShared([(h, s)] + Remove(v, h), max)
  }

  // One critical section of the read cache: the lookup at the start of
  // getFileContents, or a setReadCache that ends one.
  datatype Step<H, A> = Look(h: H) | Fill(h: H, stored: CachedFile<A>)

  ghost function Apply<H, A>(v: View<H, A>, step: Step<H, A>, max: int): View<H, A> {
    match step
    case Look(h) => Touch(v, h)
    case Fill(h, s) => PutShared(v, h, s, max)
  }

  ghost function Run<H, A>(v: View<H, A>, steps: seq<Step<H, A>>, max: int): View<H, A> {
    if steps == [] then v
    else Apply(Run(v, steps[..|steps| - 1], max), steps[|steps| - 1], max)
  }

  // The last thing that was stored for h.
  ghost function Latest<H, A>(steps: seq<Step<H, A>>, h: H): Option<CachedFile<A>> {
    if steps == [] then None
    else
      var last := steps[|steps| - 1];
      if last.Fill? && last.h == h then Some(last.stored) else Latest(steps[..|steps| - 1], h)
  }

  // ----- properties

  lemma {:induction false} BlobBytesAdd(s: set<Digest>, d: Digest)
    requires d !in s
    ensures BlobBytes(s + {d}) == BlobBytes(s) + |d.data|
    decreases |s|
  {
    var t := s + {d};
    var e :| e in t && BlobBytes(t) == |e.data| + BlobBytes(t - {e});
    if e == d {
      assert t - {e} == s;
    } else {
      var r := s - {e};
      assert t - {e} == r + {d};
      assert s == r + {e};
      BlobBytesAdd(r, d);
      BlobBytesAdd(r, e);
    }
  }

  // Eviction stops at the longest prefix that fits, that is, it removes the
  // shortest least recently used tail that reaches the limit.
  lemma {:induction false} EvictsShortestTail<H, A>(v: View<H, A>, max: int)
    ensures FitShared(v, max) <= v
    ensures max >= 0 ==> SharedSize(FitShared(v, max)) <= max
    ensures forall n :: |FitShared(v, max)| < n <= |v| ==> SharedSize(v[..n]) > max
    decreases |v|
  {
    assert v[..|v|] == v;
    if v == [] {
      assert (set d | d in Digests(v)) == {};
    } else if SharedSize(v) > max {
      var t := v[..|v| - 1];
      EvictsShortestTail(t, max);
      forall n | |FitShared(v, max)| < n <= |v| ensures SharedSize(v[..n]) > max {
        if n < |v| { assert v[..n] == t[..n]; }
      }
    }
  }

  lemma ApplyKeepsKeysDistinct<H, A>(v: View<H, A>, step: Step<H, A>, max: int)
    requires DistinctKeys(v)
    ensures DistinctKeys(Apply(v, step, max))
  {
    match step
    case Look(h) => TouchProperties(v, h);
    case Fill(h, s) =>
      ConsLookup(v, h, s);
      EvictsShortestTail([(h, s)] + Remove(v, h), max);
  }

  // After one step, a handle that hits returns what it returned before, or what
  // the step just stored for it.
  lemma ApplyIsTransparent<H, A>(v: View<H, A>, step: Step<H, A>, max: int, h: H, s: CachedFile<A>)
    requires DistinctKeys(v)
    requires Lookup(Apply(v, step, max), h) == Some(s)
    ensures if step.Fill? && step.h == h then s == step.stored else Lookup(v, h) == Some(s)
  {
    match step
    case Look(g) => TouchProperties(v, g);
    case Fill(g, stored) =>
      var t := [(g, stored)] + Remove(v, g);
      ConsLookup(v, g, stored);
      EvictsShortestTail(t, max);
      var f := FitShared(t, max);
      assert f == t[..|f|];
      PrefixLookup(t, |f|, h);
  }

  // Cache transparency, for every interleaving of lookups and fills: a hit
  // returns exactly what the latest setReadCache stored for that handle.
  lemma {:induction false} HitsReturnTheLatestFill<H, A>(steps: seq<Step<H, A>>, max: int, h: H)
    ensures DistinctKeys(Run([], steps, max))
    ensures Lookup(Run([], steps, max), h).Some? ==> Lookup(Run([], steps, max), h) == Latest(steps, h)
    decreases |steps|
  {
    if steps != [] {
      var before, step := steps[..|steps| - 1], steps[|steps| - 1];
      var v := Run([], before, max);
      HitsReturnTheLatestFill(before, max, h);
      ApplyKeepsKeysDistinct(v, step, max);
      var r := Lookup(Apply(v, step, max), h);
      if r.Some? { ApplyIsTransparent(v, step, max, h, r.value); }
    }
  }

  // The limit holds after every run, not only right after a fill.
  lemma {:induction false} SizeStaysWithinLimit<H, A>(steps: seq<Step<H, A>>, max: int)
    requires max >= 0
    ensures SharedSize(Run([], steps, max)) <= max
    decreases |steps|
  {
    if steps == [] {
      var none: View<H, A> := [];
      assert (set d | d in Digests(none)) == {};
    } else {
      var before, step := steps[..|steps| - 1], steps[|steps| - 1];
      var v := Run([], before, max);
      SizeStaysWithinLimit(before, max);
      match step
      case Look(h) => SharedSizeTouch(v, h);
      case Fill(h, s) =>
        EvictsShortestTail([(h, s)] + Remove(v, h), max);
    }
  }

  // A file just stored can be served unless its contents alone exceed the limit.
  lemma FillIsServedIffItFits<H, A>(v: View<H, A>, h: H, s: CachedFile<A>, max: int)
    requires DistinctKeys(v) && max >= 0
    ensures Lookup(PutShared(v, h, s, max), h) == Some(s) <==> |s.contents| <= max
  {
    var t := [(h, s)] + Remove(v, h);
    var f := FitShared(t, max);
    ConsLookup(v, h, s);
    EvictsShortestTail(t, max);
    assert f == t[..|f|];
    assert t[0] == (h, s);
    IndexIsUnique(t, 0);
    PrefixLookup(t, |f|, h);
    var one := Digests(t[..1]);
    assert one == [Sha256(s.contents)];
    assert (set d | d in one) == {} + {Sha256(s.contents)};
    BlobBytesAdd({}, Sha256(s.contents));
    if |f| > 0 {
      var all := set d | d in Digests(f);
      assert Digests(f)[0] == Sha256(s.contents);
      BlobBytesAdd(all - {Sha256(s.contents)}, Sha256(s.contents));
      assert all - {Sha256(s.contents)} + {Sha256(s.contents)} == all;
    }
  }

  // ----- how views and the two caches correspond

  lemma EntsIndex<H, A>(v: View<H, A>, h: H)
    ensures IndexOf(Ents(v), h) == IndexOf(v, h)
  {
  }

  lemma EntsCommute<H, A>(v: View<H, A>, h: H)
    requires DistinctKeys(v)
    ensures DistinctKeys(Ents(v))
    ensures Ents(Touch(v, h)) == Touch(Ents(v), h)
    ensures Ents(Remove(v, h)) == Remove(Ents(v), h)
    ensures Lookup(v, h) == None <==> Lookup(Ents(v), h) == None
    ensures Lookup(v, h).Some? ==> Lookup(Ents(v), h) == Some(EntOf(Lookup(v, h).value))
  {
    EntsDistinct(v);
    hide DistinctKeys;
    EntsIndex(v, h);
    var i := IndexOf(v, h);
    if i < |v| {
      assert Ents(Without(v, i)) == Without(Ents(v), i);
      assert Ents(Fronted(v, i)) == Fronted(Ents(v), i);
    }
  }

  lemma EntsDistinct<H, A>(v: View<H, A>)
    requires DistinctKeys(v)
    ensures DistinctKeys(Ents(v))
  {
  }

  // Taking a handle out of the view takes one use of its contents with it.
  lemma DigestsRemove<H, A>(v: View<H, A>, h: H)
    ensures multiset(Digests(Remove(v, h))) ==
            if Lookup(v, h).None? then multiset(Digests(v))
            else multiset(Digests(v)) - multiset{Sha256(Lookup(v, h).value.contents)}
    ensures Lookup(v, h).Some? ==> Sha256(Lookup(v, h).value.contents) in multiset(Digests(v))
  {
    hide Digests;
    var i := IndexOf(v, h);
    if i < |v| { DigestsWithout(v, i); }
  }

  lemma DigestsWithout<H, A>(v: View<H, A>, i: nat)
    requires i < |v|
    ensures var d := Sha256(v[i].1.contents);
            d in multiset(Digests(v)) && multiset(Digests(Without(v, i))) == multiset(Digests(v)) - multiset{d}
  {
    var d := Digests(v);
    Parts(d, i);
    hide Digests;
    assert Digests(Without(v, i)) == d[..i] + d[i + 1..];
  }

  lemma Parts(d: seq<Digest>, i: nat)
    requires i < |d|
    ensures multiset(d[..i] + d[i + 1..]) == multiset(d) - multiset{d[i]} && d[i] in multiset(d)
  {
    assert d == d[..i] + [d[i]] + d[i + 1..];
  }

  lemma DigestsCons<H, A>(v: View<H, A>, h: H, s: CachedFile<A>)
    ensures multiset(Digests([(h, s)] + v)) == multiset(Digests(v)) + multiset{Sha256(s.contents)}
  {
    assert Digests([(h, s)] + v) == [Sha256(s.contents)] + Digests(v);
  }

  lemma DigestsDrop<H, A>(v: View<H, A>)
    requires v != []
    ensures multiset(Digests(v[..|v| - 1])) ==
            multiset(Digests(v)) - multiset{Sha256(v[|v| - 1].1.contents)}
  {
    var n := |v| - 1;
    assert Digests(v) == Digests(v[..n]) + [Sha256(v[n].1.contents)];
  }

  // The size an LRU cache of blobs reports is the size of the set of its keys.
  lemma {:induction false} TotalIsBlobBytes(s: seq<(Digest, Bytes)>, size: (Digest, Bytes) -> int)
    requires DistinctKeys(s)
    requires forall k, v :: size(k, v) == |v|
    requires forall i :: 0 <= i < |s| ==> s[i].0 == Sha256(s[i].1)
    ensures Total(s, size) == BlobBytes(Keys(s))
  {
    if s != [] {
      TotalIsBlobBytes(s[1..], size);
      forall k | k in Keys(s[1..]) ensures k in Keys(s) && k != s[0].0 {
        var i :| 0 <= i < |s[1..]| && s[1..][i].0 == k;
        assert s[i + 1].0 == k;
      }
      forall k | k in Keys(s) && k != s[0].0 ensures k in Keys(s[1..]) {
        var i :| 0 <= i < |s| && s[i].0 == k;
        assert s[1..][i - 1].0 == k;
      }
      assert s[0].0 in Keys(s);
      assert Keys(s) == Keys(s[1..]) + {s[0].0};
      BlobBytesAdd(Keys(s[1..]), s[0].0);
    }
  }

  // Dropping the last handle drops the last entry.
  lemma EntsDrop<H, A>(v: View<H, A>)
    requires DistinctKeys(v) && v != []
    ensures Ents(v[..|v| - 1]) == DropOldest(Ents(v))
    ensures DistinctKeys(v[..|v| - 1])
    ensures Sha256(v[|v| - 1].1.contents) in multiset(Digests(v))
  {
    assert Digests(v)[|v| - 1] == Sha256(v[|v| - 1].1.contents);
  }

  lemma BlobFound(c: seq<(Digest, Bytes)>, d: Digest)
    requires d in Keys(c)
    requires forall i :: 0 <= i < |c| ==> c[i].0 == Sha256(c[i].1)
    ensures Lookup(c, d) == Some(d.data)
  {
    assert HasKey(c, d);
  }

  lemma KeysTouch<K, V>(s: seq<(K, V)>, k: K)
    ensures Keys(Touch(s, k)) == Keys(s)
    ensures forall i :: 0 <= i < |Touch(s, k)| ==> Touch(s, k)[i] in s
  {
    var n := IndexOf(s, k);
    var t := Touch(s, k);
    if n < |s| {
      forall q | q in Keys(s) ensures q in Keys(t) {
        var j :| 0 <= j < |s| && s[j].0 == q;
        assert t[if j == n then 0 else if j < n then j + 1 else j].0 == q;
      }
      forall i | 0 <= i < |t| ensures t[i] in s && t[i].0 in Keys(s) {
        assert t[i] == s[if i == 0 then n else if i <= n then i - 1 else i];
      }
    }
  }

  // Reordering handles reorders their digests.
  lemma DigestsTouch<H, A>(v: View<H, A>, h: H)
    ensures multiset(Digests(Touch(v, h))) == multiset(Digests(v))
  {
    DigestsRemove(v, h);
    var i := IndexOf(v, h);
    if i < |v| {
      DigestsCons(Remove(v, h), v[i].0, v[i].1);
      assert Touch(v, h) == [(v[i].0, v[i].1)] + Remove(v, h);
    }
  }

  lemma SharedSizeTouch<H, A>(v: View<H, A>, h: H)
    ensures SharedSize(Touch(v, h)) == SharedSize(v)
  {
    DigestsTouch(v, h);
    var a, b := Digests(v), Digests(Touch(v, h));
    forall d ensures d in a <==> d in b {
      assert d in a <==> d in multiset(a);
      assert d in b <==> d in multiset(b);
    }
    assert (set d | d in a) == (set d | d in b);
  }

  // What a lookup does to the view, seen from the two caches.
  lemma TouchView<H, A>(v: View<H, A>, h: H)
    requires DistinctKeys(v)
    ensures DistinctKeys(Touch(v, h)) && Ents(Touch(v, h)) == Touch(Ents(v), h)
    ensures multiset(Digests(Touch(v, h))) == multiset(Digests(v))
    ensures Lookup(Ents(v), h) == if Lookup(v, h).Some? then Some(EntOf(Lookup(v, h).value)) else None
    ensures Lookup(v, h).Some? ==> Sha256(Lookup(v, h).value.contents) in multiset(Digests(v))
  {
    hide DistinctKeys, Touch, Remove, IndexOf, Ents, Digests, LruSpec.Lookup;
    EntsCommute(v, h);
    TouchProperties(v, h);
    DigestsRemove(v, h);
    DigestsTouch(v, h);
  }

  // What a fill does to it.
  lemma PutView<H, A>(v: View<H, A>, h: H, s: CachedFile<A>)
    requires DistinctKeys(v)
    ensures var t := [(h, s)] + Remove(v, h);
            && DistinctKeys(t) && Ents(t) == [(h, EntOf(s))] + Remove(Ents(v), h)
            && multiset(Digests(t)) == multiset(Digests(Remove(v, h))) + multiset{Sha256(s.contents)}
  {
    hide DistinctKeys, Touch, IndexOf, Digests, LruSpec.Lookup, Remove;
    EntsCommute(v, h);
    ConsLookup(v, h, s);
    DigestsCons(Remove(v, h), h, s);
    EntsCons(h, s, Remove(v, h));
  }

  lemma EntsCons<H, A>(h: H, s: CachedFile<A>, v: View<H, A>)
    ensures Ents([(h, s)] + v) == [(h, EntOf(s))] + Ents(v)
  {
    hide EntOf;
  }
}
