// The meaning of an LRU cache: a sequence of key/value pairs, most recently
// used first, in which no key occurs twice.

module LruSpec {
  import opened Wrappers

  // s without position i, and s with position i brought to the front.
  ghost function Without<T>(s: seq<T>, i: nat): (r: seq<T>)
    requires i < |s|
    ensures |r| == |s| - 1
    ensures forall j :: 0 <= j < |r| ==> r[j] == s[if j < i then j else j + 1]
  {
    s[..i] + s[i + 1..]
  }

  ghost function Fronted<T>(s: seq<T>, i: nat): (r: seq<T>)
    requires i < |s|
    ensures |r| == |s| && r[0] == s[i] && r[1..] == Without(s, i)
    ensures forall j :: 0 < j < |r| ==> r[j] == s[if j <= i then j - 1 else j]
  {
    [s[i]] + Without(s, i)
  }

  ghost predicate DistinctKeys<K, V>(s: seq<(K, V)>) {
    forall i, j :: 0 <= i < j < |s| ==> s[i].0 != s[j].0
  }

  ghost predicate HasKey<K, V>(s: seq<(K, V)>, k: K) {
    exists i :: 0 <= i < |s| && s[i].0 == k
  }

  // The position of k, or |s| when k is absent.
  ghost function IndexOf<K, V>(s: seq<(K, V)>, k: K): (i: nat)
    ensures i <= |s|
    ensures i < |s| ==> s[i].0 == k
    ensures forall j :: 0 <= j < i ==> s[j].0 != k
    ensures i < |s| <==> HasKey(s, k)
  {
    if s == [] then 0
    else if s[0].0 == k then 0
    else
      var r := IndexOf(s[1..], k);
      assert forall j :: 1 <= j < |s| ==> s[j] == s[1..][j - 1];
      assert HasKey(s, k) ==> HasKey(s[1..], k) by {
        if HasKey(s, k) {
          var i :| 0 <= i < |s| && s[i].0 == k;
          assert s[1..][i - 1].0 == k;
        }
      }
      r + 1
  }

  ghost function Remove<K, V>(s: seq<(K, V)>, k: K): seq<(K, V)> {
    var i := IndexOf(s, k);
    if i == |s| then s else Without(s, i)
  }

  ghost function Lookup<K, V>(s: seq<(K, V)>, k: K): Option<V> {
    var i := IndexOf(s, k);
    if i == |s| then None else Some(s[i].1)
  }

  // Move k, if present, to the front.
  ghost function Touch<K, V>(s: seq<(K, V)>, k: K): seq<(K, V)> {
    var i := IndexOf(s, k);
    if i == |s| then s else Fronted(s, i)
  }

  ghost function Total<K, V>(s: seq<(K, V)>, size: (K, V) -> int): int {
    if s == [] then 0 else size(s[0].0, s[0].1) + Total(s[1..], size)
  }

  // Drop least recently used pairs until the total fits.
  ghost function Fit<K, V>(s: seq<(K, V)>, size: (K, V) -> int, max: int): seq<(K, V)> {
    if s == [] || Total(s, size) <= max then s else Fit(s[..|s| - 1], size, max)
  }

  ghost function Put<K, V>(s: seq<(K, V)>, k: K, v: V, size: (K, V) -> int, max: int): seq<(K, V)> {
    var t := [(k, v)] + Remove(s, k);
    if max == 0 then t else Fit(t, size, max)
  }

  ghost function DropOldest<K, V>(s: seq<(K, V)>): seq<(K, V)> {
    if s == [] then [] else s[..|s| - 1]
  }

  // ----- properties

  lemma {:induction false} TotalAppend<K, V>(a: seq<(K, V)>, b: seq<(K, V)>, size: (K, V) -> int)
    ensures Total(a + b, size) == Total(a, size) + Total(b, size)
  {
    if a == [] {
      assert a + b == b;
    } else {
      assert (a + b)[0] == a[0];
      assert (a + b)[1..] == a[1..] + b;
      TotalAppend(a[1..], b, size);
    }
  }

  // Taking one pair out of the sequence takes its size out of the total.
  lemma TotalWithout<K, V>(s: seq<(K, V)>, i: nat, size: (K, V) -> int)
    requires i < |s|
    ensures Total(Without(s, i), size) == Total(s, size) - size(s[i].0, s[i].1)
  {
    var a, x, b := s[..i], [s[i]], s[i + 1..];
    assert s == a + (x + b);
    TotalAppend(a, x + b, size);
    TotalAppend(x, b, size);
    TotalAppend(a, b, size);
  }

  lemma TotalRemove<K, V>(s: seq<(K, V)>, k: K, size: (K, V) -> int)
    ensures Total(Remove(s, k), size) ==
            Total(s, size) - (if Lookup(s, k).None? then 0 else size(k, Lookup(s, k).value))
  {
    var i := IndexOf(s, k);
    if i < |s| { TotalWithout(s, i, size); }
  }

  lemma TotalCons<K, V>(s: seq<(K, V)>, k: K, v: V, size: (K, V) -> int)
    ensures Total([(k, v)] + s, size) == size(k, v) + Total(s, size)
  {
    assert ([(k, v)] + s)[1..] == s;
  }

  lemma TotalTouch<K, V>(s: seq<(K, V)>, k: K, size: (K, V) -> int)
    ensures Total(Touch(s, k), size) == Total(s, size)
  {
    TotalRemove(s, k, size);
    var i := IndexOf(s, k);
    if i < |s| {
      TotalCons(Remove(s, k), k, s[i].1, size);
      assert s[i] == (k, s[i].1);
    }
  }

  ghost function Keys<K, V>(s: seq<(K, V)>): set<K> {
    set i | 0 <= i < |s| :: s[i].0
  }

  lemma {:induction false} KeyCount<K, V>(s: seq<(K, V)>)
    requires DistinctKeys(s)
    ensures |Keys(s)| == |s|
  {
    if s != [] {
      var t := s[..|s| - 1];
      KeyCount(t);
      assert forall i :: 0 <= i < |t| ==> t[i] == s[i];
      assert Keys(s) == Keys(t) + {s[|s| - 1].0};
    }
  }

  // With distinct keys, any position that holds k is IndexOf(s, k).
  lemma IndexIsUnique<K, V>(s: seq<(K, V)>, i: nat)
    requires DistinctKeys(s) && i < |s|
    ensures IndexOf(s, s[i].0) == i
  {
    assert HasKey(s, s[i].0);
  }

  lemma TouchAt<K, V>(s: seq<(K, V)>, i: nat)
    requires DistinctKeys(s) && i < |s|
    ensures Remove(s, s[i].0) == Without(s, i)
    ensures Touch(s, s[i].0) == Fronted(s, i)
    ensures i == 0 ==> Fronted(s, i) == s
  {
    IndexIsUnique(s, i);
  }

  lemma RemoveProperties<K, V>(s: seq<(K, V)>, k: K)
    requires DistinctKeys(s)
    ensures DistinctKeys(Remove(s, k))
    ensures !HasKey(Remove(s, k), k)
    ensures forall q :: q != k ==> Lookup(Remove(s, k), q) == Lookup(s, q)
  {
    var i := IndexOf(s, k);
    var r := Remove(s, k);
    if i < |s| {
      forall j | 0 <= j < |r| ensures r[j].0 != k {
        if j >= i { assert s[j + 1].0 != s[i].0; }
      }
      forall q | q != k ensures Lookup(r, q) == Lookup(s, q) {
        var a := IndexOf(s, q);
        if a < |s| {
          var b := if a < i then a else a - 1;
          assert r[b] == s[a];
          IndexIsUnique(r, b);
        } else {
          forall b | 0 <= b < |r| ensures r[b].0 != q {
            assert r[b] == s[if b < i then b else b + 1];
          }
        }
      }
    }
  }

  // The pair just put is found, and every other key keeps its value.
  lemma ConsLookup<K, V>(s: seq<(K, V)>, k: K, v: V)
    requires DistinctKeys(s)
    ensures DistinctKeys([(k, v)] + Remove(s, k))
    ensures Lookup([(k, v)] + Remove(s, k), k) == Some(v)
    ensures forall q :: q != k ==> Lookup([(k, v)] + Remove(s, k), q) == Lookup(s, q)
  {
    RemoveProperties(s, k);
    var r := Remove(s, k);
    var t := [(k, v)] + r;
    forall a, b | 0 <= a < b < |t| ensures t[a].0 != t[b].0 {
      assert t[b] == r[b - 1];
      if a > 0 { assert t[a] == r[a - 1]; }
    }
    assert t[0] == (k, v);
    IndexIsUnique(t, 0);
    forall q | q != k ensures Lookup(t, q) == Lookup(r, q) {
      var a := IndexOf(r, q);
      if a < |r| {
        assert t[a + 1] == r[a];
        IndexIsUnique(t, a + 1);
      } else {
        forall b | 0 <= b < |t| ensures t[b].0 != q {
          if b > 0 { assert t[b] == r[b - 1]; }
        }
      }
    }
  }

  // Reading a key reorders the cache and changes no binding.
  lemma TouchProperties<K, V>(s: seq<(K, V)>, k: K)
    requires DistinctKeys(s)
    ensures DistinctKeys(Touch(s, k)) && |Touch(s, k)| == |s|
    ensures forall q :: Lookup(Touch(s, k), q) == Lookup(s, q)
    ensures HasKey(s, k) ==> Touch(s, k)[0].0 == k
  {
    var i := IndexOf(s, k);
    if i < |s| {
      assert s[i] == (k, s[i].1);
      ConsLookup(s, k, s[i].1);
      assert Touch(s, k) == [(k, s[i].1)] + Remove(s, k);
    }
  }

  // A prefix of a cache forgets its oldest keys and answers the rest alike.
  lemma PrefixLookup<K, V>(s: seq<(K, V)>, n: nat, q: K)
    requires DistinctKeys(s) && n <= |s|
    ensures Lookup(s[..n], q) == if IndexOf(s, q) < n then Lookup(s, q) else None
  {
    var i := IndexOf(s, q);
    if i < n {
      assert s[..n][i] == s[i];
      IndexIsUnique(s[..n], i);
    } else {
      forall j | 0 <= j < n ensures s[..n][j].0 != q {
        assert s[..n][j] == s[j];
      }
    }
  }

  // Fit is the longest prefix whose total is at most max: it is a prefix, it
  // fits unless even the empty one does not, and every longer prefix is too big.
  lemma {:induction false} FitIsLongestPrefix<K, V>(s: seq<(K, V)>, size: (K, V) -> int, max: int)
    ensures Fit(s, size, max) <= s
    ensures max >= 0 ==> Total(Fit(s, size, max), size) <= max
    ensures forall n :: |Fit(s, size, max)| < n <= |s| ==> Total(s[..n], size) > max
    decreases |s|
  {
    assert s[..|s|] == s;
    if s != [] && Total(s, size) > max {
      var t := s[..|s| - 1];
      FitIsLongestPrefix(t, size, max);
      forall n | |Fit(s, size, max)| < n <= |s| ensures Total(s[..n], size) > max {
        if n < |s| { assert s[..n] == t[..n]; }
      }
    }
  }

  // The prefix is the only one with those properties.
  lemma FitIsTheOnlyLongestPrefix<K, V>(s: seq<(K, V)>, size: (K, V) -> int, max: int, n: nat)
    requires max >= 0 && n <= |s|
    requires Total(s[..n], size) <= max
    requires forall m :: n < m <= |s| ==> Total(s[..m], size) > max
    ensures Fit(s, size, max) == s[..n]
  {
    FitIsLongestPrefix(s, size, max);
    var f := Fit(s, size, max);
    assert f == s[..|f|];
  }

  // What Set promises, in terms of lookups: the new binding is present exactly
  // when the new pair alone fits, and no binding is invented or altered.
  lemma PutProperties<K, V>(s: seq<(K, V)>, k: K, v: V, size: (K, V) -> int, max: int)
    requires DistinctKeys(s)
    ensures DistinctKeys(Put(s, k, v, size, max))
    ensures max > 0 ==> Total(Put(s, k, v, size, max), size) <= max
    ensures forall q, w :: Lookup(Put(s, k, v, size, max), q) == Some(w) ==>
                             (if q == k then w == v else Lookup(s, q) == Some(w))
    ensures max == 0 ==> Lookup(Put(s, k, v, size, max), k) == Some(v)
    ensures max > 0 && (forall a, b :: size(a, b) >= 0) ==>
              (Lookup(Put(s, k, v, size, max), k) == Some(v) <==> size(k, v) <= max)
  {
    var t := [(k, v)] + Remove(s, k);
    var p := Put(s, k, v, size, max);
    ConsLookup(s, k, v);
    if max != 0 {
      FitIsLongestPrefix(t, size, max);
      assert p == t[..|p|];
    } else {
      assert p == t[..|p|];
    }
    forall q, w | Lookup(p, q) == Some(w)
      ensures if q == k then w == v else Lookup(s, q) == Some(w)
    {
      PrefixLookup(t, |p|, q);
    }
    if max > 0 && (forall a, b :: size(a, b) >= 0) {
      assert t[..1] == [(k, v)];
      assert Total(t[..1], size) == size(k, v);
      IndexIsUnique(t, 0);
      PrefixLookup(t, |p|, k);
      if |p| > 0 {
        NonNegativeTotal(p[1..], size);
        assert p[0] == (k, v);
      }
    }
  }

  lemma {:induction false} NonNegativeTotal<K, V>(s: seq<(K, V)>, size: (K, V) -> int)
    requires forall a, b :: size(a, b) >= 0
    ensures Total(s, size) >= 0
  {
    if s != [] { NonNegativeTotal(s[1..], size); }
  }

  // A negative limit is one that eviction can never reach: with entries of
  // non-negative size, even the empty prefix is too big.
  lemma NegativeLimitNeverFits<K, V>(s: seq<(K, V)>, size: (K, V) -> int, max: int, n: nat)
    requires forall a, b :: size(a, b) >= 0
    requires n <= |s|
    ensures max < 0 ==> Total(s[..n], size) > max
  {
    NonNegativeTotal(s[..n], size);
  }

  // Without a limit nothing is evicted.
  lemma PutUnlimited<K, V>(s: seq<(K, V)>, k: K, v: V, size: (K, V) -> int)
    ensures Put(s, k, v, size, 0) == [(k, v)] + Remove(s, k)
  {
  }
}
