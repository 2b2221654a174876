// Sorting by a string key that no two elements share, as the code does with
// sort.Slice and slices.SortFunc.

module Sorting {
  import opened Strings

  ghost predicate Sorted<T>(s: seq<T>, key: T -> string) {
    forall i, j :: 0 <= i < j < |s| ==> Less(key(s[i]), key(s[j]))
  }

  function Insert<T>(s: seq<T>, e: T, key: T -> string): seq<T> {
    if s == [] || Less(key(e), key(s[0])) then [e] + s else [s[0]] + Insert(s[1..], e, key)
  }

  function Sort<T>(s: seq<T>, key: T -> string): seq<T> {
    if s == [] then [] else Insert(Sort(s[1..], key), s[0], key)
  }

  lemma {:induction false} InsertKeeps<T>(s: seq<T>, e: T, key: T -> string)
    ensures multiset(Insert(s, e, key)) == multiset(s) + multiset{e}
  {
    if s != [] && !Less(key(e), key(s[0])) {
      InsertKeeps(s[1..], e, key);
      assert s == [s[0]] + s[1..];
    }
  }

  lemma InsertHolds<T>(s: seq<T>, e: T, key: T -> string)
    ensures forall x :: x in Insert(s, e, key) <==> x == e || x in s
  {
    InsertKeeps(s, e, key);
    var r := Insert(s, e, key);
    assert forall x :: x in r <==> x in multiset(r);
    assert forall x :: x in s <==> x in multiset(s);
  }

  lemma {:induction false} InsertSorts<T>(s: seq<T>, e: T, key: T -> string)
    requires Sorted(s, key) && forall x :: x in s ==> key(x) != key(e)
    ensures Sorted(Insert(s, e, key), key)
  {
    if s == [] {
    } else if Less(key(e), key(s[0])) {
      FirstIsLess([e] + s, key);
    } else {
      LessTotal(key(e), key(s[0]));
      assert s[0] in s;
      SortedTail(s, key);
      var u := s[1..];
      InsertSorts(u, e, key);
      InsertKeeps(u, e, key);
      var t := Insert(u, e, key);
      forall x | x in t ensures Less(key(s[0]), key(x)) {
        assert x in multiset(t);
        if x in u { AfterFirst(s, x, key); }
      }
      ConsSorted(s[0], t, key);
    }
  }

  lemma FirstIsLess<T>(s: seq<T>, key: T -> string)
    requires |s| > 1 && Sorted(s[1..], key) && Less(key(s[0]), key(s[1]))
    ensures Sorted(s, key)
  {
    var t := s[1..];
    forall j | 0 <= j < |t| ensures Less(key(s[0]), key(t[j])) {
      if j > 0 { LessTransitive(key(s[0]), key(t[0]), key(t[j])); }
    }
    assert forall i :: 0 < i < |s| ==> s[i] == t[i - 1];
  }

  lemma ConsSorted<T>(x: T, t: seq<T>, key: T -> string)
    requires Sorted(t, key) && forall y :: y in t ==> Less(key(x), key(y))
    ensures Sorted([x] + t, key)
  {
  }

  lemma AfterFirst<T>(s: seq<T>, x: T, key: T -> string)
    requires Sorted(s, key) && s != [] && x in s[1..]
    ensures Less(key(s[0]), key(x))
  {
    var i :| 0 <= i < |s[1..]| && s[1..][i] == x;
    assert s[i + 1] == x;
  }

  lemma SortedTail<T>(s: seq<T>, key: T -> string)
    requires Sorted(s, key) && s != []
    ensures Sorted(s[1..], key)
  {
  }

  lemma {:induction false} SortKeeps<T>(s: seq<T>, key: T -> string)
    ensures multiset(Sort(s, key)) == multiset(s)
  {
    if s != [] {
      SortKeeps(s[1..], key);
      InsertKeeps(Sort(s[1..], key), s[0], key);
      assert s == [s[0]] + s[1..];
    }
  }

  // Sorting gives the same elements in strictly increasing order of keys.
  lemma {:induction false} SortSorts<T>(s: seq<T>, key: T -> string)
    requires forall i, j :: 0 <= i < j < |s| ==> key(s[i]) != key(s[j])
    ensures Sorted(Sort(s, key), key)
  {
    if s != [] {
      var t := Sort(s[1..], key);
      SortSorts(s[1..], key);
      SortKeeps(s[1..], key);
      forall x | x in t ensures key(x) != key(s[0]) {
        assert x in multiset(t);
        var j :| 0 <= j < |s[1..]| && s[1..][j] == x;
        assert s[j + 1] == x;
      }
      InsertSorts(t, s[0], key);
    }
  }

  // A strictly sorted sequence is determined by its elements.
  lemma {:induction false} SortedIsUnique<T>(a: seq<T>, b: seq<T>, key: T -> string)
    requires Sorted(a, key) && Sorted(b, key) && forall x :: x in a <==> x in b
    ensures a == b
    decreases |a|
  {
    assert |a| > 0 ==> a[0] in b;
    assert |b| > 0 ==> b[0] in a;
    if a != [] && b != [] {
      FirstIsLeast(a, b, key);
      FirstIsLeast(b, a, key);
      if a[0] != b[0] { LessAsymmetric(key(a[0]), key(b[0])); }
      TailsAgree(a, b, key);
      TailsAgree(b, a, key);
      SortedTail(a, key);
      SortedTail(b, key);
      SortedIsUnique(a[1..], b[1..], key);
      assert a == [a[0]] + a[1..] && b == [b[0]] + b[1..];
    }
  }

  lemma FirstIsLeast<T>(a: seq<T>, b: seq<T>, key: T -> string)
    requires Sorted(a, key) && a != [] && b != [] && b[0] in a
    ensures a[0] == b[0] || Less(key(a[0]), key(b[0]))
  {
    var i :| 0 <= i < |a| && a[i] == b[0];
  }

  lemma TailsAgree<T>(a: seq<T>, b: seq<T>, key: T -> string)
    requires a != [] && b != [] && a[0] == b[0] && Sorted(a, key)
    requires forall x :: x in a ==> x in b
    ensures forall x :: x in a[1..] ==> x in b[1..]
  {
    forall x | x in a[1..] ensures x in b[1..] {
      AfterFirst(a, x, key);
      LessIrreflexive(key(x));
      assert a == [a[0]] + a[1..];
      assert x in b && x != b[0];
      assert b == [b[0]] + b[1..];
    }
  }
}
