// The read cache of nfs.go: entCache maps a handle to attributes and a blob
// hash, blobCache maps a blob hash to contents, and blobCount counts how many
// entries of entCache use each blob.

module ReadCache {
  import opened Wrappers
  import opened LruSpec
  import opened ReadCacheSpec
  import opened Lru

  const DEFAULT_FILE_CACHE_SIZE: int := 0x8000_0000

  // m is the reference count of every blob in use, and of no other.
  ghost predicate Counts(m: map<Digest, int>, uses: multiset<Digest>) {
    && (forall d :: d in m <==> d in uses)
    && (forall d :: d in m ==> m[d] == uses[d])
  }

  // c caches the blobs with the given digests, each under its own digest.
  ghost predicate Blobs(c: seq<(Digest, Bytes)>, keys: set<Digest>) {
    && Keys(c) == keys
    && DistinctKeys(c)
    && forall i :: 0 <= i < |c| ==> c[i].0 == Sha256(c[i].1)
  }

  class FS<H(==), A> {
    const entCache: Cache<H, Ent<A>>
    const blobCache: Cache<Digest, Bytes>
    var fileCacheSize: int
    var blobCount: map<Digest, int>
    // Whether blobCount has been made, and blobCache given its EntrySize.
    var inited: bool

    // The files that can be served, most recently used first.
    ghost var view: View<H, A>

    // blobCount and blobCache describe the multiset of blobs in use.
    ghost predicate Balanced(uses: multiset<Digest>)
      reads this`blobCount, this`inited, blobCache, blobCache.nodes
    {
      && blobCache.Valid() && blobCache.maxSize == 0
      && (!inited ==> blobCache.content == [])
      && (inited ==> forall k, v :: blobCache.SizeOf()(k, v) == |v|)
      && Counts(blobCount, uses)
      && Blobs(blobCache.content, blobCount.Keys)
    }

    ghost predicate Valid()
      reads this, entCache, entCache.nodes, blobCache, blobCache.nodes
    {
      && entCache.Valid() && entCache.maxSize == 0
      && DistinctKeys(view)
      && entCache.content == Ents(view)
      && Balanced(multiset(Digests(view)))
    }

    constructor (fileCacheSize: int)
      ensures Valid() && view == [] && this.fileCacheSize == fileCacheSize
      ensures fresh(entCache) && fresh(blobCache) && entCache.nodes == {} && blobCache.nodes == {}
    {
      entCache := new Cache();
      blobCache := new Cache();
      this.fileCacheSize, blobCount, inited, view := fileCacheSize, map[], false, [];
    }

    // FileCacheSize, or the default when it is zero.
    function GetFileCacheSize(): (r: int)
      reads this
      ensures r != 0 && (fileCacheSize == 0 ==> r == 2 * 1024 * 1024 * 1024)
    {
      if fileCacheSize != 0 then fileCacheSize else DEFAULT_FILE_CACHE_SIZE
    }

    // The panic of decrBlobCountLocked is the negation of its precondition.
    method DecrBlobCount(d: Digest, ghost uses: multiset<Digest>)
      requires Balanced(uses) && inited && d in blobCount && blobCount[d] > 0
      modifies this`blobCount, blobCache, blobCache.nodes
      ensures Balanced(uses - multiset{d}) && blobCache.nodes == old(blobCache.nodes)
    {
      hide Counts, Blobs, DistinctKeys, Remove, Cache.Shape;
      CountsDecr(blobCount, uses, d);
      var v := blobCount[d];
      if v == 1 {
        BlobsRemove(blobCache.content, blobCount.Keys, d);
        assert (blobCount - {d}).Keys == blobCount.Keys - {d};
        blobCount := blobCount - {d};
        blobCache.Delete(d);
      } else {
        assert blobCount[d := v - 1].Keys == blobCount.Keys;
        blobCount := blobCount[d := v - 1];
      }
    }

    // Count one more use of d and make sure its contents are cached.
    method IncrBlobCount(d: Digest, contents: Bytes, ghost uses: multiset<Digest>)
      requires Balanced(uses) && inited && d == Sha256(contents)
      modifies this`blobCount, blobCache, blobCache.nodes
      ensures Balanced(uses + multiset{d}) && fresh(blobCache.nodes - old(blobCache.nodes))
    {
      hide Counts, Blobs, DistinctKeys, Remove, Cache.Shape;
      CountsIncr(blobCount, uses, d);
      BlobsPut(blobCache.content, blobCount.Keys, d, contents);
      var more := blobCount[d := (if d in blobCount then blobCount[d] else 0) + 1];
      assert more.Keys == blobCount.Keys + {d};
      blobCount := more;
      blobCache.Set(d, contents);
    }

    // Make the blob maps on the first put.
    method EnsureInited(ghost uses: multiset<Digest>)
      requires Balanced(uses)
      modifies this`inited, blobCache`entrySize
      ensures Balanced(uses) && inited
    {
      if !inited {
        inited := true;
        blobCache.entrySize := Some((k, v: Bytes) => |v|);
      }
    }

    // The part of setReadCache before eviction.
    method Store(h: H, attr: A, contents: Bytes)
      requires Valid()
      modifies this, entCache, entCache.nodes, blobCache, blobCache.nodes
      ensures Valid() && inited && fileCacheSize == old(fileCacheSize)
      ensures fresh(entCache.nodes - old(entCache.nodes)) && fresh(blobCache.nodes - old(blobCache.nodes))
      ensures view == [(h, CachedFile(attr, contents))] + Remove(old(view), h)
    {
      hide DistinctKeys, Remove, Cache.Shape, Cache.Valid, Balanced, Ents, Digests, LruSpec.Fit, LruSpec.Put;
      var ent := Ent(attr, Sha256(contents));
      ghost var rest := Remove(view, h);
      PutView(view, h, CachedFile(attr, contents));
      PutUnlimited(Ents(view), h, ent, entCache.SizeOf());
      EnsureInited(multiset(Digests(view)));
      Release(h);
      entCache.Set(h, ent);
      IncrBlobCount(ent.blobHash, contents, multiset(Digests(rest)));
      view := [(h, CachedFile(attr, contents))] + rest;
    }

    // If h has an entry, the blob it used is used once less.
    method Release(h: H)
      requires Valid() && inited
      modifies this`blobCount, blobCache, blobCache.nodes
      ensures Balanced(multiset(Digests(Remove(view, h)))) && blobCache.nodes == old(blobCache.nodes)
    {
      hide DistinctKeys, Remove, Cache.Shape, Balanced;
      ghost var uses := multiset(Digests(view));
      EntsCommute(view, h);
      DigestsRemove(view, h);
      var was := entCache.PeekOk(h);
      if was.Some? {
        InUse(uses, was.value.blobHash);
        DecrBlobCount(was.value.blobHash, uses);
      }
    }

    // The eviction step: drop the least recently used entry, if there is one,
    // and its use of a blob.
    method Evict() returns (ok: bool)
      requires Valid() && inited
      modifies this`view, this`blobCount, entCache, entCache.nodes, blobCache, blobCache.nodes
      ensures Valid() && ok == (old(view) != []) && view == DropOldest(old(view))
      ensures entCache.nodes == old(entCache.nodes) && blobCache.nodes == old(blobCache.nodes)
    {
      hide DistinctKeys, Cache.Shape, Cache.Valid, Balanced;
      ghost var uses := multiset(Digests(view));
      if view != [] {
        EntsDrop(view);
        DigestsDrop(view);
      }
      var oldest := entCache.DeleteOldest();
      if oldest.None? {
        return false;
      }
      InUse(uses, oldest.value.1.blobHash);
      DecrBlobCount(oldest.value.1.blobHash, uses);
      view := DropOldest(view);
      return true;
    }

    // blobCache.Size()
    method BlobSize() returns (n: int)
      requires Valid() && inited
      ensures n == SharedSize(view)
    {
      TotalIsBlobBytes(blobCache.content, blobCache.SizeOf());
      assert Keys(blobCache.content) == set d | d in Digests(view);
      n := blobCache.Size();
    }

    method SetReadCache(h: H, attr: A, contents: Bytes)
      requires Valid()
      modifies this, entCache, entCache.nodes, blobCache, blobCache.nodes
      ensures Valid() && fileCacheSize == old(fileCacheSize)
      ensures fresh(entCache.nodes - old(entCache.nodes)) && fresh(blobCache.nodes - old(blobCache.nodes))
      ensures view == PutShared(old(view), h, CachedFile(attr, contents), GetFileCacheSize())
    {
      hide Valid, SharedSize, Remove;
      Store(h, attr, contents);
      var max := GetFileCacheSize();
      ghost var stored := view;
      var size := BlobSize();
      while size > max
        invariant Valid() && inited && fileCacheSize == old(fileCacheSize)
        invariant fresh(entCache.nodes - old(entCache.nodes)) && fresh(blobCache.nodes - old(blobCache.nodes))
        invariant size == SharedSize(view)
        invariant FitShared(view, max) == FitShared(stored, max)
        decreases |view|
      {
        var ok := Evict();
        if !ok {
          break;
        }
        size := BlobSize();
      }
    }

    // blobCache.GetOk on a blob in use: a certain hit.
    method GetBlob(d: Digest, ghost uses: multiset<Digest>) returns (r: Option<Bytes>)
      requires Balanced(uses) && d in uses
      modifies blobCache, blobCache.nodes
      ensures Balanced(uses) && blobCache.nodes == old(blobCache.nodes)
      ensures r == Some(d.data)
    {
      hide DistinctKeys, Cache.Shape, Touch, Remove, IndexOf;
      TouchProperties(blobCache.content, d);
      KeysTouch(blobCache.content, d);
      BlobFound(blobCache.content, d);
      r := blobCache.GetOk(d);
    }

    // The lookup at the start of getFileContents. A handle in entCache always
    // has its blob in blobCache, so the inner lookup cannot miss.
    method Get(h: H) returns (r: Option<CachedFile<A>>)
      requires Valid()
      modifies this`view, entCache, entCache.nodes, blobCache, blobCache.nodes
      ensures Valid() && fileCacheSize == old(fileCacheSize)
      ensures entCache.nodes == old(entCache.nodes) && blobCache.nodes == old(blobCache.nodes)
      ensures r == LruSpec.Lookup(old(view), h)
      ensures view == Touch(old(view), h)
    {
      hide DistinctKeys, Cache.Valid, Cache.Shape, Touch, Balanced, LruSpec.Lookup, Ents, Digests;
      ghost var uses := multiset(Digests(view));
      TouchView(view, h);
      var ent := entCache.GetOk(h);
      view := Touch(view, h);
      if ent.Some? {
        var blob := GetBlob(ent.value.blobHash, uses);
        if blob.Some? {
          return Some(CachedFile(ent.value.attr, blob.value));
        }
      }
      return None;
    }

    // getFileContents when no other request comes between its two critical
    // sections; fetched is what fromHandle and getFileContentsUncached yield.
    method GetFileContents<E>(h: H, fetched: Result<CachedFile<A>, E>) returns (r: Result<CachedFile<A>, E>)
      requires Valid()
      modifies this, entCache, entCache.nodes, blobCache, blobCache.nodes
      ensures Valid() && fileCacheSize == old(fileCacheSize)
      ensures var hit := LruSpec.Lookup(old(view), h);
              r == if hit.Some? then Ok(hit.value) else fetched
      ensures view == if LruSpec.Lookup(old(view), h).Some? || fetched.Err? then Touch(old(view), h)
                      else PutShared(Touch(old(view), h), h, fetched.value, GetFileCacheSize())
    {
      hide Valid, LruSpec.Lookup, Touch;
      var hit := Get(h);
      if hit.Some? {
        return Ok(hit.value);
      }
      if fetched.Err? {
        return fetched;
      }
      SetReadCache(h, fetched.value.attr, fetched.value.contents);
      return fetched;
    }

    // Any interleaving of critical sections refines the run of its steps.
    method Replay(steps: seq<Step<H, A>>) returns (answers: seq<Option<CachedFile<A>>>)
      requires Valid()
      modifies this, entCache, entCache.nodes, blobCache, blobCache.nodes
      ensures Valid() && fileCacheSize == old(fileCacheSize)
      ensures view == Run(old(view), steps, GetFileCacheSize())
      ensures |answers| == |steps|
      ensures forall i :: 0 <= i < |steps| && steps[i].Look? ==>
                            answers[i] == LruSpec.Lookup(Run(old(view), steps[..i], GetFileCacheSize()), steps[i].h)
    {
      hide Valid, LruSpec.Lookup, Touch, PutShared;
      answers := [];
      ghost var max := GetFileCacheSize();
      for n := 0 to |steps|
        invariant Valid() && fileCacheSize == old(fileCacheSize)
        invariant fresh(entCache.nodes - old(entCache.nodes)) && fresh(blobCache.nodes - old(blobCache.nodes))
        invariant view == Run(old(view), steps[..n], max)
        invariant |answers| == n
        invariant forall i :: 0 <= i < n && steps[i].Look? ==>
                                answers[i] == LruSpec.Lookup(Run(old(view), steps[..i], max), steps[i].h)
      {
        assert steps[..n + 1][..n] == steps[..n];
        match steps[n] {
          case Look(h) =>
            var r := Get(h);
            answers := answers + [r];
          case Fill(h, s) =>
            SetReadCache(h, s.attr, s.contents);
            answers := answers + [None];
        }
      }
      assert steps[..|steps|] == steps;
    }

    // A blob in use is counted: the "bogus decrement" panic is unreachable.
    lemma InUse(uses: multiset<Digest>, d: Digest)
      requires Balanced(uses) && d in uses
      ensures d in blobCount && blobCount[d] > 0
    {
    }
  }

  lemma KeysRemove(s: seq<(Digest, Bytes)>, d: Digest)
    requires DistinctKeys(s)
    ensures Keys(Remove(s, d)) == Keys(s) - {d}
    ensures forall i :: 0 <= i < |Remove(s, d)| ==> Remove(s, d)[i] in s
  {
    RemoveProperties(s, d);
    var i, r := IndexOf(s, d), Remove(s, d);
    if i < |s| {
      forall k | k in Keys(s) && k != d ensures k in Keys(r) {
        var j :| 0 <= j < |s| && s[j].0 == k;
        assert r[if j < i then j else j - 1].0 == k;
      }
    }
  }

  lemma KeysPut(s: seq<(Digest, Bytes)>, d: Digest, b: Bytes)
    requires DistinctKeys(s)
    ensures Keys([(d, b)] + Remove(s, d)) == Keys(s) + {d}
    ensures forall i :: 0 <= i < |Remove(s, d)| ==> Remove(s, d)[i] in s
  {
    KeysRemove(s, d);
    var r := Remove(s, d);
    var t := [(d, b)] + r;
    forall k | k in Keys(r) ensures k in Keys(t) {
      var j :| 0 <= j < |r| && r[j].0 == k;
      assert t[j + 1].0 == k;
    }
    assert t[0].0 == d;
    assert d in Keys(t);
  }

  lemma CountsDecr(m: map<Digest, int>, uses: multiset<Digest>, d: Digest)
    requires Counts(m, uses) && d in m
    ensures m[d] == 1 ==> Counts(m - {d}, uses - multiset{d})
    ensures m[d] != 1 ==> Counts(m[d := m[d] - 1], uses - multiset{d})
  {
  }

  lemma CountsIncr(m: map<Digest, int>, uses: multiset<Digest>, d: Digest)
    requires Counts(m, uses)
    ensures Counts(m[d := (if d in m then m[d] else 0) + 1], uses + multiset{d})
  {
  }

  lemma BlobsRemove(c: seq<(Digest, Bytes)>, keys: set<Digest>, d: Digest)
    requires Blobs(c, keys)
    ensures Blobs(Remove(c, d), keys - {d})
  {
    KeysRemove(c, d);
    RemoveProperties(c, d);
  }

  lemma BlobsPut(c: seq<(Digest, Bytes)>, keys: set<Digest>, d: Digest, b: Bytes)
    requires Blobs(c, keys) && d == Sha256(b)
    ensures Blobs([(d, b)] + Remove(c, d), keys + {d})
  {
    KeysPut(c, d, b);
    ConsLookup(c, d, b);
  }
}
