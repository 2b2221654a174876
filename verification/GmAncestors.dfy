// The directories above the paths of a module version, which addParentPathsLocked
// of gomodfs.go registers, and what parsePath makes of them.

module GmAncestors {
  import opened Strings
  import opened Paths
  import opened ModNames
  import opened GmPaths

  // d is a proper ancestor directory of s, or the root.
  predicate Ancestor(d: string, s: string) {
    d == Parent(s) || Below(d, Parent(s))
  }

  // On clean paths that is what "below" says.
  lemma AncestorIsBelow(d: string, s: string)
    requires CleanPath(s)
    ensures Ancestor(d, s) <==> Below(d, s)
  {
    hide CleanPath, Parent, Base, Below;
    Parts(s);
    if Below(d, s) { ParentBelow(d, s); }
    JoinBelow(Parent(s), Base(s));
    if Below(d, Parent(s)) { BelowTransitive(d, Parent(s), s); }
  }

  // d is x or a directory above it.
  predicate AtOrAbove(d: string, x: string) {
    d <= x && (|d| < |x| ==> x[|d|] == '/')
  }

  lemma AncestorPrefix(d: string, s: string)
    requires Ancestor(d, s) && d != ""
    ensures AtOrAbove(d, Parent(s))
  {
    var x := Parent(s);
    if Below(d, x) { assert x[..|d| + 1] == d + "/"; }
  }

  // ----- names no segment of which starts with a dot

  ghost predicate NoSlashDot(x: string) {
    forall i :: 0 <= i < |x| && x[i] == '.' ==> i > 0 && x[i - 1] != '/'
  }

  lemma {:induction false} NoDotBase(d: string)
    requires NoSlashDot(d) && d != ""
    ensures !("." <= Base(d))
    decreases |d|
  {
    if d[|d| - 1] == '/' {
      if |d| > 1 { NoDotBase(d[..|d| - 1]); }
    } else {
      var i := LastIndex(d, '/');
      assert d[i + 1..][0] == d[i + 1];
    }
  }

  lemma {:induction false} ModElemsNoSlashDot(m: string)
    requires ModElems(m)
    ensures NoSlashDot(m)
    decreases |m|
  {
    var c := Cut(m, '/');
    if c.found { ModElemsNoSlashDot(c.after); }
    forall i | 0 <= i < |m| && m[i] == '.' ensures i > 0 && m[i - 1] != '/' {
      var n := |c.before|;
      if i < n {
        assert c.before[i - 1] in c.before;
      } else {
        assert m[i] == c.after[i - n - 1];
        assert m[i - 1] == c.after[i - n - 2];
      }
    }
  }

  lemma EscapeLast(t: string)
    requires t != ""
    ensures var e := EscapeString(t); e != "" && (e[|e| - 1] == '/' <==> t[|t| - 1] == '/')
  {
    var u, c := t[..|t| - 1], t[|t| - 1];
    assert t == u + [c];
    EscapeAppend(u, [c]);
  }

  lemma {:induction false} EscapeNoSlashDot(m: string)
    requires NoSlashDot(m)
    ensures NoSlashDot(EscapeString(m))
  {
    if m != "" {
      var t, c := m[..|m| - 1], m[|m| - 1];
      assert m == t + [c];
      assert forall i :: 0 <= i < |t| ==> t[i] == m[i];
      EscapeNoSlashDot(t);
      EscapeAppend(t, [c]);
      if c == '.' {
        EscapeLast(t);
        hide EscapeString;
      }
    }
  }

  lemma {:induction false} EscapedIsClean(m: string)
    requires ModElems(m)
    ensures CleanPath(EscapeString(m))
    decreases |m|
  {
    hide CleanPath, EscapeString;
    var c := Cut(m, '/');
    var b := EscapeString(c.before);
    EscapeKeepsOut(c.before, '/');
    EscapeFirst(c.before);
    assert CleanName(b);
    CleanNameIsPath(b);
    if c.found {
      EscapedIsClean(c.after);
      EscapeSlash(c.before, c.after);
      CleanSplit(b, EscapeString(c.after));
    }
  }

  lemma EscapeSlash(a: string, b: string)
    ensures EscapeString(a + ['/'] + b) == EscapeString(a) + "/" + EscapeString(b)
  {
    EscapeAppend(a + ['/'], b);
    EscapeAppend(a, ['/']);
    assert EscapeString("/") == "/";
  }

  // ----- the two directories whose ancestors are registered

  const STOPS := {"", "cache", "cache/download"}

  function CdDir(mv: ModuleVersion): string {
    "cache/download/" + EscapeString(mv.mod) + "/@v"
  }

  lemma CdParent(mv: ModuleVersion, ext: string)
    requires ValidMV(mv) && '/' !in ext
    ensures Parent(CdPath(mv, ext)) == CdDir(mv)
  {
    VersionIsPlain(mv.ver);
    hide CheckPath, CheckVersion, EscapeString;
    var m, v := EscapeString(mv.mod), EscapeString(mv.ver);
    assert CdPath(mv, ext) == CdOf(m, v, ext);
    CdShape(m, v, ext);
    hide CdOf, CdPath;
    var n := v + "." + ext;
    var d := "cache/download/" + m + "/@v";
    assert d + "/" + n == d + ['/'] + n;
    LastIndexIs(d, '/', n);
  }

  lemma CacheDirsAreClean()
    ensures CleanPath("cache") && CleanPath("download") && CleanPath("@v")
    ensures CleanPath("cache/download")
  {
    hide CleanPath;
    CleanNameIsPath("cache");
    CleanNameIsPath("download");
    CleanNameIsPath("@v");
    CleanSplit("cache", "download");
    assert "cache" + "/" + "download" == "cache/download";
  }

  lemma CdDirIsClean(mv: ModuleVersion)
    requires ValidMV(mv)
    ensures CleanPath(CdDir(mv))
  {
    EscapedIsClean(mv.mod);
    hide CleanPath, ModElems, EscapeString, CheckPath, EscapePath, EscapeVersion;
    CacheDirsAreClean();
    var m := EscapeString(mv.mod);
    CleanSplit("cache/download", m);
    CdDirParts(m);
    CleanSplit("cache/download" + "/" + m, "@v");
  }

  lemma CdDirParts(m: string)
    ensures "cache/download/" + m + "/@v" == ("cache/download" + "/" + m) + "/" + "@v"
  {
    assert "cache/download/" == "cache/download" + "/";
    assert "/@v" == "/" + "@v";
  }

  // What is above a zip root is above the escaped module path.
  lemma ZipParent(m: string, v: string)
    requires '/' !in v
    ensures Parent(m + "@" + v) == Parent(m)
    decreases |m|
  {
    var i := LastIndex(m, '/');
    var x := m + "@" + v;
    if i < 0 {
      LastIndexNone(x, '/');
    } else {
      var last := m[i + 1..];
      assert forall k :: 0 <= k < |last| ==> last[k] == m[i + 1 + k];
      var b := last + "@" + v;
      assert x == m[..i] + ['/'] + b;
      LastIndexIs(m[..i], '/', b);
      assert x[..i] == m[..i];
    }
  }

  lemma TsgoParent(t: Triple)
    requires '/' !in t.hash
    ensures Parent(TsgoZipRoot(t)) == "tsgo-" + (t.os + "-" + t.arch)
  {
    var d := "tsgo-" + (t.os + "-" + t.arch);
    assert TsgoZipRoot(t) == d + ['/'] + t.hash;
    LastIndexIs(d, '/', t.hash);
  }

  // ----- parsePath on the directories

  // A path starting with "tsgo-" that parseTSGoPath does not take for a mere
  // directory: tsgo-<os>-<arch>/...
  predicate TsgoForm(d: string) {
    "tsgo-" <= d && '/' in d[5..] && '-' in Cut(d[5..], '/').before
  }

  lemma ParseTsgoPlain(d: string)
    requires "tsgo-" <= d
    ensures ParseTsgo(d) == PLAIN <==> !TsgoForm(d)
  {
    var r := CutPrefix(d, "tsgo-");
    assert r.value == d[5..];
    hide TsgoVersion, AllHex, ValidOSArch;
  }

  lemma ParsePlainDir(d: string)
    requires '@' !in d && NoSlashDot(d) && d != "" && !("cache/download/" <= d)
    ensures ParsePath(d) == PLAIN <==> !TsgoForm(d)
  {
    NoDotBase(d);
    hide Base;
    assert d[0] != '.';
    if "tsgo-" <= d {
      ParseTsgoPlain(d);
      ParsePathTsgo(d);
    }
  }

  lemma PrefixNoSlashDot(d: string, x: string)
    requires NoSlashDot(x) && d <= x
    ensures NoSlashDot(d)
  {
    assert forall i :: 0 <= i < |d| ==> d[i] == x[i];
  }

  // A directory above a module's zip root.
  lemma ParseAboveModule(m: string, d: string)
    requires CheckPath(m) && AtOrAbove(d, Parent(EscapeString(m))) && d != ""
    ensures ParsePath(d) == PLAIN <==> !TsgoForm(d)
  {
    var e := EscapeString(m);
    ModElemsNoSlashDot(m);
    EscapeNoSlashDot(m);
    ModElemsArePlain(m);
    EscapeKeepsOut(m, '@');
    EscapedModuleShape(m);
    hide ModElems, CheckPath, EscapeString, TsgoForm, ParsePath;
    EarlyDotIsNotCache(e);
    ParentIsPrefix(e);
    PrefixNoSlashDot(d, e);
    assert forall x :: x in d ==> x in e;
    assert "cache/download/" <= d ==> "cache/download/" <= e;
    ParsePlainDir(d);
  }

  lemma ParentIsPrefix(e: string)
    requires e != "" && e[0] != '/'
    ensures Parent(e) <= e
  {
  }

  lemma TsgoDirIsPlain(os: string, arch: string)
    requires '/' !in os && '/' !in arch
    ensures var d := "tsgo-" + (os + "-" + arch); ParsePath(d) == PLAIN && !TsgoForm(d) && '/' !in d
  {
    hide ParsePath, ParseTsgo, Base;
    var d := "tsgo-" + (os + "-" + arch);
    assert d[5..] == os + "-" + arch;
    ParsePathTsgo(d);
    ParseTsgoPlain(d);
    BaseIs("", d);
    assert d[0] == 't';
  }

  lemma CacheIsPlain()
    ensures ParsePath("cache") == PLAIN && ParsePath("cache/download") == PLAIN
    ensures !TsgoForm("cache") && !TsgoForm("cache/download")
  {
    hide TsgoForm, ParsePath, Base, Cut;
    NoTsgoForm("cache");
    NoTsgoForm("cache/download");
    BaseIs("", "cache");
    BaseIs("cache", "download");
    assert "cache" + "/" + "download" == "cache/download";
    assert !("cache/download/" <= "cache") && !("cache/download/" <= "cache/download");
    PlainWithoutAt("cache");
    PlainWithoutAt("cache/download");
  }

  lemma NoTsgoForm(d: string)
    requires d != "" && d[0] == 'c'
    ensures !TsgoForm(d)
  {
  }

  lemma PlainWithoutAt(d: string)
    requires '@' !in d && d != "" && d[0] == 'c' && !("cache/download/" <= d) && !DotFile(d)
    ensures ParsePath(d) == PLAIN
  {
  }

  // Of a directory above a metadata file, the last '@' comes too late.
  lemma CdDirShape(m: string, d: string)
    requires '@' !in m && AtOrAbove(d, "cache/download/" + m + "/@v") && d !in STOPS
    ensures "cache/download/" <= d
    ensures var dl := d[15..]; dl <= m + "/@v" && forall i :: 0 <= i < |dl| && dl[i] == '@' ==> i >= |dl| - 2
  {
    var p := "cache/download/";
    var x := p + (m + "/@v");
    assert x == "cache/download/" + m + "/@v";
    assert p <= d by { SlashesOfCache(d, x); }
    var dl := d[15..];
    assert x[15..] == m + "/@v";
    forall i | 0 <= i < |dl| && dl[i] == '@' ensures i >= |dl| - 2 {
      assert forall k :: 0 <= k < |m| ==> (m + "/@v")[k] == m[k];
      assert forall k :: 0 <= k < |m| ==> m[k] in m;
      assert (m + "/@v")[i] == '@';
    }
  }

  lemma SlashesOfCache(d: string, x: string)
    requires "cache/download/" <= x && AtOrAbove(d, x) && d !in STOPS
    ensures "cache/download/" <= d
  {
    var p := "cache/download/";
    assert p[..5] == "cache" && p[..14] == "cache/download";
    assert x[..15] == p;
    assert forall k :: 0 <= k < 15 && k != 5 && k != 14 ==> p[k] != '/';
    assert forall k :: 0 <= k < 15 ==> x[k] == p[k];
    assert x[..5] == p[..5] && x[..14] == p[..14];
    assert d == x[..|d|];
    assert d[..15] == x[..15];
  }

  lemma ParseAboveCd(mv: ModuleVersion, d: string)
    requires ValidMV(mv) && AtOrAbove(d, CdDir(mv)) && d !in STOPS
    ensures ParsePath(d) == PLAIN && !TsgoForm(d) && d != ""
  {
    ModElemsNoSlashDot(mv.mod);
    EscapeNoSlashDot(mv.mod);
    ModElemsArePlain(mv.mod);
    EscapeKeepsOut(mv.mod, '@');
    EscapedModuleShape(mv.mod);
    hide ModElems, CheckPath, CheckVersion, EscapeString, ParsePath, EarlyDot;
    var m := EscapeString(mv.mod);
    CdDirShape(m, d);
    hide STOPS;
    CdNoSlashDot(m);
    PrefixNoSlashDot(d, CdDir(mv));
    hide CdDir;
    NoDotBase(d);
    hide NoSlashDot, Base;
    var dl := d[15..];
    assert d == "cache/download/" + dl;
    ParsePathDownload(dl);
    CutAtNone(dl);
    assert d[0] == 'c';
  }

  lemma CdNoSlashDot(m: string)
    requires NoSlashDot(m) && m != "" && m[0] != '.'
    ensures NoSlashDot("cache/download/" + m + "/@v")
  {
    var x := "cache/download/" + m + "/@v";
    forall i | 0 <= i < |x| && x[i] == '.' ensures i > 0 && x[i - 1] != '/' {
      assert 15 <= i < 15 + |m|;
      assert x[i] == m[i - 15];
      assert i > 15;
      assert x[i - 1] == m[i - 16];
    }
  }
}
