// The string operations of Go's strings package that the modelled code uses.
// A Go string is a sequence of bytes; here each char stands for one byte.

module Strings {
  import opened Wrappers

  // strings.IndexByte, with |s| for "not found".
  function Index(s: string, c: char): (i: nat)
    ensures i <= |s|
    ensures i < |s| ==> s[i] == c
    ensures forall j :: 0 <= j < i ==> s[j] != c
  {
    if s == "" then 0
    else if s[0] == c then 0
    else
      assert forall j :: 1 <= j < |s| ==> s[j] == s[1..][j - 1];
      Index(s[1..], c) + 1
  }

  // strings.LastIndexByte, with -1 for "not found".
  function LastIndex(s: string, c: char): (i: int)
    ensures -1 <= i < |s|
    ensures i >= 0 ==> s[i] == c
    ensures forall j :: i < j < |s| ==> s[j] != c
  {
    if s == "" then -1
    else if s[|s| - 1] == c then |s| - 1
    else LastIndex(s[..|s| - 1], c)
  }

  // strings.Cut on a one-byte separator.
  datatype Pieces = Pieces(before: string, after: string, found: bool)

  function Cut(s: string, c: char): (r: Pieces)
    ensures c !in r.before
    ensures r.found ==> s == r.before + [c] + r.after
    ensures !r.found ==> s == r.before && r.after == ""
    ensures r.found <==> c in s
  {
    var i := Index(s, c);
    if i < |s| then
      assert s == s[..i] + [c] + s[i + 1..];
      Pieces(s[..i], s[i + 1..], true)
    else
      Pieces(s, "", false)
  }

  // A string splits at its first separator in one way only.
  lemma CutIsUnique(a: string, c: char, b: string)
    requires c !in a
    ensures Cut(a + [c] + b, c) == Pieces(a, b, true)
  {
    hide Index;
    var s := a + [c] + b;
    assert s[|a|] == c;
    assert forall j :: 0 <= j < |a| ==> s[j] == a[j] && a[j] in a;
    assert Index(s, c) == |a|;
    assert s[..|a|] == a && s[|a| + 1..] == b;
  }

  lemma CutNothing(a: string, c: char)
    requires c !in a
    ensures Cut(a, c) == Pieces(a, "", false)
  {
  }

  lemma {:induction false} LastIndexIs(a: string, c: char, b: string)
    requires c !in b
    ensures LastIndex(a + [c] + b, c) == |a|
  {
    var s := a + [c] + b;
    if b == "" {
      assert s[|s| - 1] == c;
    } else {
      var t := b[..|b| - 1];
      assert b[|b| - 1] in b && s[|s| - 1] == b[|b| - 1];
      assert s[..|s| - 1] == a + [c] + t;
      LastIndexIs(a, c, t);
    }
  }

  lemma LastIndexNone(b: string, c: char)
    requires c !in b
    ensures LastIndex(b, c) == -1
  {
  }

  // strings.CutPrefix
  function CutPrefix(s: string, p: string): (r: Option<string>)
    ensures r.Some? <==> p <= s
    ensures r.Some? ==> s == p + r.value
  {
    if p <= s then Some(s[|p|..]) else None
  }

  lemma PrefixCut(p: string, s: string)
    ensures p <= p + s && (p + s)[|p|..] == s && CutPrefix(p + s, p) == Some(s)
  {
  }

  // ----- the order of cmp.Compare on strings

  predicate Less(a: string, b: string) {
    b != "" && (a == "" || a[0] < b[0] || (a[0] == b[0] && Less(a[1..], b[1..])))
  }

  // At place k the strings part: a ends there or has the lower byte.
  predicate PartsAt(a: string, b: string, k: int) {
    0 <= k <= |a| && k < |b| && a[..k] == b[..k] && (k == |a| || a[k] < b[k])
  }

  // The order of bytes: it is decided at the first place where the strings
  // differ, and a proper prefix comes first.
  lemma {:induction false} LessIsByteOrder(a: string, b: string)
    ensures Less(a, b) <==> exists k :: PartsAt(a, b, k)
  {
    if a == "" || b == "" || a[0] != b[0] {
      assert b != "" && (a == "" || a[0] < b[0]) ==> PartsAt(a, b, 0);
      assert forall k :: PartsAt(a, b, k) && k > 0 ==> a[..k][0] == b[..k][0];
    } else {
      LessIsByteOrder(a[1..], b[1..]);
      forall k | PartsAt(a, b, k) ensures PartsAt(a[1..], b[1..], k - 1) {
        assert a[1..][..k - 1] == a[..k][1..] && b[1..][..k - 1] == b[..k][1..];
      }
      forall k | PartsAt(a[1..], b[1..], k) ensures PartsAt(a, b, k + 1) {
        assert a[..k + 1] == [a[0]] + a[1..][..k] && b[..k + 1] == [b[0]] + b[1..][..k];
      }
    }
  }

  lemma {:induction false} LessTransitive(a: string, b: string, c: string)
    requires Less(a, b) && Less(b, c)
    ensures Less(a, c)
  {
    if a != "" && a[0] == b[0] == c[0] { LessTransitive(a[1..], b[1..], c[1..]); }
  }

  lemma {:induction false} LessTotal(a: string, b: string)
    ensures a == b || Less(a, b) || Less(b, a)
  {
    if a != "" && b != "" && a[0] == b[0] {
      LessTotal(a[1..], b[1..]);
      assert a == [a[0]] + a[1..] && b == [b[0]] + b[1..];
    }
  }

  lemma {:induction false} LessIrreflexive(a: string)
    ensures !Less(a, a)
  {
    if a != "" { LessIrreflexive(a[1..]); }
  }

  lemma LessAsymmetric(a: string, b: string)
    requires Less(a, b)
    ensures !Less(b, a) && a != b
  {
    LessIrreflexive(a);
    if Less(b, a) { LessTransitive(a, b, a); }
  }
}
