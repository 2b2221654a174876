// What a path that parsePath recognized must have looked like: the converse of
// the printers.

module GmSources {
  import opened Strings
  import opened Paths
  import opened ModNames
  import opened GmPaths

  ghost predicate NamesModule(pp: GmPath) {
    !pp.notExist && pp.mv.mod != ""
  }

  ghost predicate IsZip(pp: GmPath) {
    pp == Zip(pp.mv, pp.path)
  }

  ghost predicate IsMeta(pp: GmPath) {
    MetaExt(pp.ext) && pp == PLAIN.(ext := pp.ext, mv := pp.mv)
  }

  ghost predicate IsExtracted(pp: GmPath) {
    pp == PLAIN.(wellKnown := WK_TSGO_EXTRACTED, mv := pp.mv)
  }

  ghost predicate OfGoodTriple(mv: ModuleVersion) {
    TsgoTriple(mv).Some? && GoodTriple(TsgoTriple(mv).value)
  }

  lemma BaseSlash(x: string)
    requires x != ""
    ensures Base(x + "/") == Base(x)
  {
    assert (x + "/")[..|x|] == x;
  }

  lemma TsgoPathShape(os: string, arch: string, first: string, rest: string)
    requires !TsgoPath(os, arch, first, rest).notExist && '-' !in os && '-' !in arch
    ensures var pp := TsgoPath(os, arch, first, rest);
            && OfGoodTriple(pp.mv) && pp.mv.mod == TSGO_MODULE
            && if CutSuffix(first, ".extracted").Some? then IsExtracted(pp)
               else IsZip(pp) && pp.path == TrimSlash(rest)
  {
    var cut := CutSuffix(first, ".extracted");
    var t := Triple(os, arch, if cut.Some? then cut.value else first);
    TripleOfVersion(t);
    hide TsgoTriple, TsgoVersion, AllHex;
  }

  lemma ValidArchHasNoDash(os: string, arch: string)
    requires ValidOSArch(os, arch)
    ensures '-' !in arch
  {
  }

  // The pieces of a path that parseTSGoPath takes apart.
  lemma TsgoPieces(n: string) returns (os: string, arch: string, first: string, rest: string)
    requires "tsgo-" <= n && ParseTsgo(n) != PLAIN
    ensures ParseTsgo(n) == TsgoPath(os, arch, first, rest) && '-' !in os
    ensures rest != "" ==> n == ("tsgo-" + (os + "-" + arch) + "/" + first) + "/" + rest
  {
    hide TsgoPath;
    var a := Cut(n[5..], '/');
    var b := Cut(a.before, '-');
    var c := Cut(a.after, '/');
    os, arch, first, rest := b.before, b.after, c.before, c.after;
    if rest != "" {
      hide Cut, ParseTsgo;
      assert n == "tsgo-" + n[5..];
      assert a.before == os + "-" + arch;
      Rejoin(a.before, first, rest);
    }
  }

  lemma Rejoin(dir: string, first: string, rest: string)
    ensures "tsgo-" + (dir + ['/'] + (first + ['/'] + rest)) == ("tsgo-" + dir + "/" + first) + "/" + rest
  {
  }

  // tsgo-<os>-<arch>/<hash>/...
  lemma ParsedTsgo(n: string)
    requires "tsgo-" <= n && NamesModule(ParsePath(n))
    ensures var pp := ParsePath(n); OfGoodTriple(pp.mv) && pp.mv.mod == TSGO_MODULE && (IsZip(pp) || IsExtracted(pp))
    ensures var pp := ParsePath(n); pp.inZip && InnerPath(pp.path) ==> !DotInner(pp.path)
  {
    hide ParsePath, ParseTsgo, TsgoPath, CleanPath, Base, Cut, OfGoodTriple;
    ParsePathTsgo(n);
    var pp := ParsePath(n);
    var os, arch, first, rest := TsgoPieces(n);
    TsgoPathArch(os, arch, first, rest);
    TsgoPathShape(os, arch, first, rest);
    if pp.inZip && InnerPath(pp.path) && pp.path != "" {
      BaseOfSlashed("tsgo-" + (os + "-" + arch) + "/" + first, rest);
    }
  }

  lemma TsgoPathArch(os: string, arch: string, first: string, rest: string)
    requires !TsgoPath(os, arch, first, rest).notExist
    ensures '-' !in arch
  {
    hide AllHex;
    if ValidOSArch(os, arch) { ValidArchHasNoDash(os, arch); }
  }

  lemma BaseOfSlashed(dir: string, rest: string)
    requires CleanPath(TrimSlash(rest))
    ensures Base(dir + "/" + rest) == Base(TrimSlash(rest))
  {
    hide CleanPath, Base;
    var p := TrimSlash(rest);
    BaseOfJoin(dir, p);
    if p != rest {
      assert rest == p + "/";
      assert dir + "/" + rest == (dir + "/" + p) + "/";
      BaseSlash(dir + "/" + p);
    }
  }

  lemma CutAtSound(s: string, sep: string)
    requires sep != "" && CutAt(s, sep).found
    ensures s == CutAt(s, sep).before + sep + CutAt(s, sep).after
  {
    hide IndexOf;
    var i := IndexOf(s, sep);
    assert s == s[..i] + s[i..];
    assert s[i..] == sep + s[i + |sep|..];
  }

  lemma ExtNames(ext: string)
    requires ext in {".mod", ".ziphash", ".info"}
    ensures MetaExt(ext[1..]) && '/' !in ext
  {
    assert ".mod"[1..] == "mod" && ".ziphash"[1..] == "ziphash" && ".info"[1..] == "info";
  }

  lemma UnescapedVersion(em: string, ev: string)
    requires ParseModVersion(em, ev).1
    ensures var mv := ParseModVersion(em, ev).0;
            ValidMV(mv) && EscapeString(mv.mod) == em && EscapeString(mv.ver) == ev
    ensures var mv := ParseModVersion(em, ev).0;
            CheckPath(mv.mod) && mv.mod != "" && '\0' !in mv.mod && mv.ver != "" && '/' !in ev
  {
    hide CheckPath, CheckVersion, EscapeString, UnescapeString;
    var mv := ParseModVersion(em, ev).0;
    UnescapedNamesGoBack(em, ev);
    EscapedNamesComeBack(mv);
    VersionNotEmpty(mv.ver);
    EscapedModuleShape(mv.mod);
    EmptyEscapes();
  }

  lemma VersionNotEmpty(v: string)
    requires EscapeVersion(v).Some?
    ensures v != ""
  {
  }

  lemma EmptyEscapes()
    ensures EscapeString("") == ""
  {
  }

  // cache/download/<module>/@v/<version>.<ext>
  lemma ParsedDownload(n: string)
    requires "cache/download/" <= n && NamesModule(ParsePath(n))
    ensures var pp := ParsePath(n); IsMeta(pp) && ValidMV(pp.mv) && '\0' !in pp.mv.mod && pp.mv.ver[0] != '.'
  {
    hide ParsePath, ParseDownload, ValidMV, EscapeString, Base, IsMeta;
    var dl := n[15..];
    assert n == "cache/download/" + dl;
    ParsePathDownload(dl);
    var m, ev, ext := DownloadPieces(dl);
    CdBase(m, ev + ext);
    var v := ParsePath(n).mv.ver;
    EscapeFirst(v);
    assert (ev + ext)[0] == ev[0];
  }

  lemma DownloadPieces(dl: string) returns (m: string, ev: string, ext: string)
    requires NamesModule(ParseDownload(dl))
    ensures dl == m + "/@v/" + (ev + ext) && '/' !in ev + ext && ext != ""
    ensures var pp := ParseDownload(dl);
            IsMeta(pp) && ValidMV(pp.mv) && '\0' !in pp.mv.mod && pp.mv.ver != "" && EscapeString(pp.mv.ver) == ev
  {
    hide EscapeString, ValidMV, ParseModVersion, CutAt, Ext, CheckPath;
    var c := CutAt(dl, "/@v/");
    m, ext := c.before, Ext(c.after);
    ev := c.after[..|c.after| - |ext|];
    ExtNames(ext);
    hide MetaExt;
    UnescapedVersion(m, ev);
    CutAtSound(dl, "/@v/");
    assert c.after == ev + ext;
  }

  lemma CdBase(m: string, last: string)
    requires '/' !in last && last != ""
    ensures Base("cache/download/" + (m + "/@v/" + last)) == last
  {
    var d := "cache/download/" + m + "/@v";
    assert "/@v/" == "/@v" + "/";
    assert "cache/download/" + (m + "/@v/" + last) == d + "/" + last;
    hide Base;
    BaseIs(d, last);
  }

  lemma ParsePathOther(n: string)
    requires !("tsgo-" <= n) && !("cache/download/" <= n) && n != STATUS_FILE
    ensures var c := Cut(n, '@');
            ParsePath(n) == if c.found then ParseAt(c.before, c.after) else if DotFile(n) then NOT_EXIST else PLAIN
  {
  }

  lemma ParsedAt(em: string, rest: string)
    ensures var pp := ParseAt(em, rest);
            || pp.notExist
            || (IsZip(pp) && ValidMV(pp.mv) && '\0' !in pp.mv.mod
                && CheckPath(pp.mv.mod) && EscapeString(pp.mv.mod) == em)
  {
    hide CheckPath, CheckVersion, EscapeString, UnescapeString, ParseModVersion, ValidMV;
    if !ParseAt(em, rest).notExist { UnescapedVersion(em, Cut(rest, '/').before); }
  }

  lemma StatusIsPlain()
    ensures ParsePath(STATUS_FILE) == PLAIN.(wellKnown := STATUS_FILE) && PLAIN.mv.mod == ""
  {
  }

  lemma ToolchainHasNoNul()
    ensures '\0' !in TSGO_MODULE && TSGO_MODULE != ""
  {
  }

  // <module>@<version>/...
  lemma ParsedZip(n: string)
    requires !("tsgo-" <= n) && !("cache/download/" <= n) && NamesModule(ParsePath(n))
    ensures var pp := ParsePath(n); IsZip(pp) && ValidMV(pp.mv) && '\0' !in pp.mv.mod && !("tsgo-" <= pp.mv.mod)
  {
    hide ParsePath, ParseAt, CheckPath, EscapeString, ValidMV, IsZip;
    StatusIsPlain();
    ParsePathOther(n);
    var c := Cut(n, '@');
    ParsedAt(c.before, c.after);
    EscapedModuleShape(ParsePath(n).mv.mod);
    assert n[..|c.before|] == c.before;
    if |c.before| >= 5 { assert n[..5] == c.before[..5]; }
  }

  // All of it, for any path.
  lemma ParsedShape(n: string)
    ensures var pp := ParsePath(n);
            pp.notExist || (pp.mv.mod == "" && (pp == PLAIN || n == STATUS_FILE)) ||
            (pp.mv.mod != "" && '\0' !in pp.mv.mod && (IsZip(pp) || IsMeta(pp) || IsExtracted(pp)))
  {
    hide ParsePath, ValidMV, OfGoodTriple, IsZip, IsMeta, IsExtracted;
    var pp := ParsePath(n);
    if NamesModule(pp) {
      if "tsgo-" <= n {
        ParsedTsgo(n);
        ToolchainHasNoNul();
      } else if "cache/download/" <= n {
        ParsedDownload(n);
      } else {
        ParsedZip(n);
      }
    } else if !pp.notExist && n != STATUS_FILE {
      PlainOtherwise(n);
    }
  }

  lemma PlainOtherwise(n: string)
    requires !ParsePath(n).notExist && ParsePath(n).mv.mod == "" && n != STATUS_FILE
    ensures ParsePath(n) == PLAIN
  {
    hide ParsePath, ParseTsgo, ParseDownload, ParseAt, DotFile;
    if "tsgo-" <= n {
      ParsePathTsgo(n);
      PlainTsgo(n);
    } else if "cache/download/" <= n {
      assert n == "cache/download/" + n[15..];
      ParsePathDownload(n[15..]);
      PlainDownload(n[15..]);
    } else {
      ParsePathOther(n);
      hide ValidMV, CheckPath, EscapeString;
      var c := Cut(n, '@');
      ParsedAt(c.before, c.after);
      ModuleNotEmpty(ParsePath(n).mv.mod);
    }
  }

  lemma ModuleNotEmpty(m: string)
    requires m == ""
    ensures !CheckPath(m)
  {
  }

  lemma PlainTsgo(n: string)
    requires "tsgo-" <= n && !ParseTsgo(n).notExist && ParseTsgo(n).mv.mod == ""
    ensures ParseTsgo(n) == PLAIN
  {
    hide AllHex, ValidOSArch, TsgoVersion;
    ToolchainHasNoNul();
  }

  lemma PlainDownload(dl: string)
    requires !ParseDownload(dl).notExist && ParseDownload(dl).mv.mod == ""
    ensures ParseDownload(dl) == PLAIN
  {
    hide ParseModVersion, CutAt, Ext, ValidMV, EscapeString, CheckPath;
    var c := CutAt(dl, "/@v/");
    var ext := Ext(c.after);
    if c.found && ext in {".mod", ".ziphash", ".info"} {
      var ev := c.after[..|c.after| - |ext|];
      if ParseModVersion(c.before, ev).1 { UnescapedVersion(c.before, ev); }
    }
  }
}
