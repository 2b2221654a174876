// Slash-separated relative paths, with Go's path.Dir and path.Base.

module Paths {
  import opened Strings

  // A clean relative path: no segment is empty, "." or "..". On such a path
  // path.Clean is the identity.
  predicate CleanPath(p: string)
    decreases |p|
  {
    var c := Cut(p, '/');
    c.before !in {"", ".", ".."} && (c.found ==> CleanPath(c.after))
  }

  // A clean path of one segment.
  predicate CleanName(n: string) {
    n !in {"", ".", ".."} && '/' !in n
  }

  // path.Dir, for clean paths, rooted or not.
  function Dir(p: string): string {
    var i := LastIndex(p, '/');
    if i < 0 then "."
    else if i == 0 then "/"
    else p[..i]
  }

  // The idiom `dir := path.Dir(p); if dir == "." { dir = "" }`.
  function Parent(p: string): string {
    if Dir(p) == "." then "" else Dir(p)
  }

  // path.Base: the last segment, after dropping trailing slashes.
  function Base(p: string): string
    decreases |p|
  {
    if p == "" then "."
    else if p[|p| - 1] == '/' then (if |p| == 1 then "/" else Base(p[..|p| - 1]))
    else p[LastIndex(p, '/') + 1..]
  }

  // "" for the root, else d with a slash, as a prefix of what lies below d.
  function Pre(d: string): string {
    if d == "" then "" else d + "/"
  }

  // d + "/" + n, or n at the root.
  function Under(d: string, n: string): string {
    Pre(d) + n
  }

  // p lies strictly below directory d.
  predicate Below(d: string, p: string) {
    Pre(d) < p
  }

  // The name in d of the entry that leads to p.
  function ChildName(d: string, p: string): string
    requires Below(d, p)
  {
    Cut(p[|Pre(d)|..], '/').before
  }

  // ----- properties

  lemma {:induction false} CleanSplit(a: string, b: string)
    ensures CleanPath(a + "/" + b) <==> CleanPath(a) && CleanPath(b)
    decreases |a|
  {
    hide Cut;
    var c := Cut(a, '/');
    if c.found {
      var rest := c.after + "/" + b;
      CutIsUnique(c.before, '/', rest);
      assert a + "/" + b == c.before + ['/'] + rest;
      CleanSplit(c.after, b);
    } else {
      CutIsUnique(a, '/', b);
      assert a + "/" + b == a + ['/'] + b;
    }
  }

  lemma CleanNameIsPath(n: string)
    ensures CleanName(n) ==> CleanPath(n)
  {
    if '/' !in n { CutNothing(n, '/'); }
  }

  // A clean path starts and ends with something other than a slash.
  lemma {:induction false} CleanEnds(p: string)
    requires CleanPath(p)
    ensures p != "" && p[0] != '/' && p[|p| - 1] != '/' && p != "."
    decreases |p|
  {
    var c := Cut(p, '/');
    assert p[0] == c.before[0];
    if c.found {
      CleanEnds(c.after);
      assert p[|p| - 1] == c.after[|c.after| - 1];
      assert '/' in p;
    } else {
      assert p[|p| - 1] == c.before[|c.before| - 1];
    }
  }

  lemma BaseIs(d: string, n: string)
    requires n != "" && '/' !in n
    ensures Base(n) == n && Base(d + "/" + n) == n
  {
    LastIndexNone(n, '/');
    LastIndexIs(d, '/', n);
    var p := d + "/" + n;
    assert p == d + ['/'] + n;
    assert p[|p| - 1] == n[|n| - 1];
    assert p[|d| + 1..] == n;
    assert n[0..] == n;
  }

  lemma BaseOfJoin(d: string, p: string)
    requires CleanPath(p)
    ensures Base(d + "/" + p) == Base(p)
  {
    hide CleanPath;
    Parts(p);
    var q, n := Parent(p), Base(p);
    hide Base, Parent;
    BaseIs(d, n);
    BaseIs(d + "/" + q, n);
    if q == "" {
      assert p == n;
    } else {
      JoinAssoc(d + "/", q, n);
    }
  }

  // Joining a directory and a name, then taking the parts back.
  lemma JoinParts(d: string, n: string)
    requires CleanName(n) && (d == "" || CleanPath(d))
    ensures Parent(Under(d, n)) == d && Base(Under(d, n)) == n && CleanPath(Under(d, n))
  {
    hide CleanPath, Base, LastIndex;
    CleanNameIsPath(n);
    BaseIs(d, n);
    if d == "" {
      LastIndexNone(n, '/');
      assert Under(d, n) == n;
    } else {
      CleanEnds(d);
      LastIndexIs(d, '/', n);
      CleanSplit(d, n);
      var p := Under(d, n);
      assert p == d + ['/'] + n == d + "/" + n;
      assert p[..|d|] == d;
    }
  }

  lemma JoinBelow(d: string, n: string)
    requires CleanName(n)
    ensures Below(d, Under(d, n)) && ChildName(d, Under(d, n)) == n
  {
    CutNothing(n, '/');
    assert Under(d, n)[|Pre(d)|..] == n;
  }

  // Every clean path is its parent directory joined with its last segment.
  lemma Parts(p: string)
    requires CleanPath(p)
    ensures CleanName(Base(p)) && (Parent(p) == "" || CleanPath(Parent(p)))
    ensures p == Under(Parent(p), Base(p)) && |Parent(p)| < |p|
  {
    hide CleanPath, Base, LastIndex;
    CleanEnds(p);
    var i := LastIndex(p, '/');
    if i >= 0 {
      var d, n := p[..i], p[i + 1..];
      assert p == d + "/" + n;
      CleanSplit(d, n);
      CleanEnds(d);
      CleanEnds(n);
      NameFromPath(n);
      BaseIs(d, n);
    } else {
      NameFromPath(p);
      BaseIs("", p);
    }
  }

  lemma NameFromPath(n: string)
    requires CleanPath(n) && '/' !in n
    ensures CleanName(n)
  {
    CutNothing(n, '/');
  }

  // What lies below d is a child of d or lies below one.
  lemma ChildStep(d: string, p: string)
    requires CleanPath(p) && Below(d, p)
    ensures CleanName(ChildName(d, p))
    ensures p == Under(d, ChildName(d, p)) || Below(Under(d, ChildName(d, p)), p)
    ensures Cut(p[|Pre(d)|..], '/').found <==> Below(Under(d, ChildName(d, p)), p)
    ensures d == "" || CleanPath(d)
  {
    hide CleanPath;
    var rest := p[|Pre(d)|..];
    CleanRest(d, p);
    FirstSegment(rest);
    var c := Cut(rest, '/');
    hide Cut;
    var x := Under(d, c.before);
    if c.found {
      CleanEnds(c.after);
      JoinAssoc(Pre(d), c.before, c.after);
      BelowIntro(x, c.after);
    }
  }

  lemma JoinAssoc(a: string, b: string, c: string)
    ensures a + (b + "/" + c) == (a + b) + "/" + c
  {
  }

  lemma BelowIntro(d: string, t: string)
    requires d != "" && t != ""
    ensures Below(d, d + "/" + t) && d != d + "/" + t
  {
  }

  lemma FirstSegment(p: string)
    requires CleanPath(p)
    ensures CleanName(Cut(p, '/').before)
    ensures Cut(p, '/').found ==> CleanPath(Cut(p, '/').after)
  {
  }

  lemma CleanRest(d: string, p: string)
    requires CleanPath(p) && Below(d, p)
    ensures CleanPath(p[|Pre(d)|..])
    ensures d == "" || CleanPath(d)
    ensures p == Pre(d) + p[|Pre(d)|..]
  {
    var rest := p[|Pre(d)|..];
    if d != "" {
      assert p == d + "/" + rest;
      CleanSplit(d, rest);
    } else {
      assert rest == p;
    }
  }

  // ... and only that child leads to it.
  lemma ChildUnique(d: string, n: string, p: string)
    requires CleanName(n) && (p == Under(d, n) || Below(Under(d, n), p))
    ensures Below(d, p) && ChildName(d, p) == n
    ensures Cut(p[|Pre(d)|..], '/').found <==> p != Under(d, n)
  {
    var rest := p[|Pre(d)|..];
    if p == Under(d, n) {
      assert rest == n;
      CutNothing(n, '/');
    } else {
      var tail := p[|Pre(d) + n| + 1..];
      assert Pre(Under(d, n)) == Under(d, n) + "/";
      assert p == Pre(d) + n + "/" + tail;
      assert rest == n + ['/'] + tail;
      CutIsUnique(n, '/', tail);
    }
  }

  lemma BelowTransitive(a: string, b: string, c: string)
    requires Below(a, b) && Below(b, c)
    ensures Below(a, c)
  {
    if b != "" {
      assert Pre(b) == b + "/";
      assert c[..|b|] == b;
    }
  }

  // The parent of a path below d is d or lies below d.
  lemma ParentBelow(d: string, p: string)
    requires CleanPath(p) && Below(d, p)
    ensures Parent(p) == d || Below(d, Parent(p))
  {
    hide CleanPath, Dir, Base;
    CleanRest(d, p);
    var rest := p[|Pre(d)|..];
    Parts(rest);
    var q, n := Parent(rest), Base(rest);
    if q == "" {
      JoinParts(d, n);
      assert p == Under(d, n);
    } else {
      var x := Pre(d) + q;
      if d == "" { assert x == q; } else { CleanSplit(d, q); assert x == d + "/" + q; }
      assert p == Pre(d) + (q + "/" + n);
      assert p == x + "/" + n;
      assert p == Under(x, n);
      JoinParts(x, n);
      CleanEnds(q);
    }
  }
}
