// What parsePath makes of paths that are not printed for anything: the
// directories above modules, dot files, unknown files beside metadata files, and
// the toolchain's paths, each by its form alone.

module ParseCases {
  import opened Wrappers
  import opened Strings
  import opened Paths
  import opened ModNames
  import opened GmPaths

  // The path of b in directory d, "" being above all.
  function In(d: string, b: string): string {
    if d == "" then b else d + "/" + b
  }

  lemma DotFileIs(d: string, b: string)
    requires b != "" && '/' !in b
    ensures In(d, b) != "" && (DotFile(In(d, b)) <==> b[0] == '.')
  {
    hide Base;
    BaseIs(d, b);
  }

  // Outside the special directories and modules only dot files are missing.
  lemma OrdinaryParses(d: string, b: string)
    requires b != "" && '/' !in b && '@' !in In(d, b) && In(d, b) != ".gomodfs-status"
    requires !("tsgo-" <= In(d, b)) && !("cache/download/" <= In(d, b))
    ensures ParsePath(In(d, b)) == if b[0] == '.' then PLAIN.(notExist := true) else PLAIN
  {
    DotFileIs(d, b);
    CutNothing(In(d, b), '@');
    hide DotFile, ParseAt, Cut;
  }

  // So it is below cache/download/, outside the "@v" directories.
  lemma DownloadDirParses(x: string, d: string, b: string)
    requires b != "" && '/' !in b && '@' !in x && "cache/download/" + x == In(d, b)
    ensures ParsePath(In(d, b)) == if b[0] == '.' then PLAIN.(notExist := true) else PLAIN
  {
    DotFileIs(d, b);
    ParsePathDownload(x);
    CutAtNone(x);
    hide DotFile, CutAt, ParsePath;
  }

  // In an "@v" directory, a name without an extension is plain, and one with an
  // unknown extension missing.
  lemma DownloadFileParses(em: string, f: string)
    requires '@' !in em && f != "" && '/' !in f
    ensures var r := ParsePath("cache/download/" + (em + "/@v/" + f));
            && (f[0] == '.' ==> r == PLAIN.(notExist := true))
            && ('.' !in f ==> r == PLAIN)
            && forall v, e :: f == v + "." + e && '.' !in e && e !in {"info", "mod", "ziphash"} ==>
                 r == PLAIN.(notExist := true)
  {
    var x := em + "/@v/" + f;
    CutAtIs(em, f);
    ParsePathDownload(x);
    DownloadFileIsDot(em, f);
    hide ParsePath, DotFile, CutAt, Ext;
    if '.' !in f { NoExt(f); }
    forall v, e | f == v + "." + e && '.' !in e && e !in {"info", "mod", "ziphash"}
      ensures ParsePath("cache/download/" + x) == PLAIN.(notExist := true)
    {
      PartHasNoSlash(v, e, f);
      ExtIs(v, e);
      OtherExt(e);
    }
  }

  lemma DownloadFileIsDot(em: string, f: string)
    requires f != "" && '/' !in f
    ensures DotFile("cache/download/" + (em + "/@v/" + f)) <==> f[0] == '.'
  {
    var d := "cache/download/" + em + "/@v";
    assert d + "/" + f == "cache/download/" + (em + "/@v/" + f) by {
      assert "/@v" + "/" == "/@v/";
      assert em + "/@v/" == em + "/@v" + "/";
    }
    DotFileIs(d, f);
  }

  lemma PartHasNoSlash(v: string, e: string, f: string)
    requires f == v + "." + e && '/' !in f
    ensures '/' !in e
  {
    assert forall c :: c in e ==> c in f;
  }

  lemma {:induction false} NoExt(f: string)
    requires '.' !in f
    ensures Ext(f) == ""
  {
    if f != "" {
      var t := f[..|f| - 1];
      assert f[|f| - 1] in f && forall c :: c in t ==> c in f;
      NoExt(t);
    }
  }

  lemma OtherExt(e: string)
    requires e !in {"info", "mod", "ziphash"}
    ensures "." + e !in {".mod", ".ziphash", ".info"} && "." + e != ""
  {
    assert ("." + e)[1..] == e;
    assert ".mod"[1..] == "mod" && ".ziphash"[1..] == "ziphash" && ".info"[1..] == "info";
  }

  // ----- the toolchain's paths

  // A toolchain's directory is plain, whatever system it names.
  lemma TsgoDirParses(sys: string)
    requires '/' !in sys
    ensures ParsePath("tsgo-" + sys) == PLAIN
  {
    var n := "tsgo-" + sys;
    hide DotFile, ParsePath, Cut;
    DotFileIs("", n);
    ParsePathTsgo(n);
    PrefixCut("tsgo-", sys);
    CutNothing(sys, '/');
  }

  // So is everything below one without a second dash, but for dot files.
  lemma TsgoNoSystemParses(sys: string, rest: string, d: string, b: string)
    requires '/' !in sys && '-' !in sys && b != "" && '/' !in b
    requires "tsgo-" + (sys + ['/'] + rest) == In(d, b)
    ensures ParsePath(In(d, b)) == if b[0] == '.' then PLAIN.(notExist := true) else PLAIN
  {
    hide DotFile, ParsePath, Cut;
    DotFileIs(d, b);
    ParsePathTsgo(In(d, b));
    PrefixCut("tsgo-", sys + ['/'] + rest);
    CutIsUnique(sys, '/', rest);
    CutNothing(sys, '-');
  }

  predicate System(os: string, arch: string) {
    (os == "linux" || os == "darwin" || os == "windows") && (arch == "amd64" || arch == "arm64")
  }

  predicate Hash(h: string) {
    |h| == 40 && forall i :: 0 <= i < 40 ==> '0' <= h[i] <= '9' || 'a' <= h[i] <= 'f' || 'A' <= h[i] <= 'F'
  }

  lemma HashesAreHex(h: string)
    ensures Hash(h) <==> |h| == 40 && AllHex(h)
  {
  }

  function Toolchain(os: string, arch: string, h: string): ModuleVersion {
    ModuleVersion("github.com/tailscale/go", "tsgo-" + (os + "-" + (arch + "-" + h)))
  }

  // tsgo-<os>-<arch>/<first> and what lies below it is missing unless the system
  // is known and first is a hash of 40 hexadecimal digits, with .extracted
  // behind it or not, and the file is no dot file. With it, it is the marker of
  // the toolchain, without it a path in its zip.
  lemma ToolchainParses(os: string, arch: string, first: string, p: string)
    requires '-' !in os && '/' !in os && '/' !in arch && '/' !in first && first != "" && InnerPath(p)
    ensures var r := ParsePath(TsgoName(Triple(os, arch, ""), first, p));
            var last := if p == "" then first else Base(p);
            && (!r.notExist <==>
                System(os, arch) && !("." <= last) && exists h :: Hash(h) && (first == h || first == h + ".extracted"))
            && (!r.notExist && Hash(first) ==> r == Zip(Toolchain(os, arch, first), p))
            && forall h :: !r.notExist && first == h + ".extracted" ==>
                 r == PLAIN.(mv := Toolchain(os, arch, h), wellKnown := "tsgo.extracted")
  {
    hide ParsePath, ParseTsgo, Base, Hash, TsgoName, CleanPath, TrimSlash, CutSuffix, AllHex;
    var t := Triple(os, arch, "");
    var n := TsgoName(t, first, p);
    TsgoNamePrefix(t, first, p);
    TsgoBase(t, first, p);
    ParsePathTsgo(n);
    ParseTsgoName(t, first, p);
    TrimClean(p);
    FirstIs(first);
    var cut := CutSuffix(first, ".extracted");
    HashesAreHex(if cut.Some? then cut.value else first);
    forall h | first == h + ".extracted" ensures cut == Some(h) { CutSuffixIs(h, ".extracted"); }
  }

  lemma TsgoNamePrefix(t: Triple, first: string, p: string)
    ensures "tsgo-" <= TsgoName(t, first, p) && TsgoName(t, first, p) != ""
  {
  }

  // A name is a hash, or a hash and the marker's ending, if what precedes the
  // ending, or all of it, is one.
  lemma FirstIs(first: string)
    ensures var cut := CutSuffix(first, ".extracted");
            && ((exists h :: Hash(h) && (first == h || first == h + ".extracted")) <==>
                Hash(if cut.Some? then cut.value else first))
            && (Hash(first) ==> cut.None?)
  {
    hide Hash;
    var suf := ".extracted";
    var cut := CutSuffix(first, suf);
    if Hash(first) {
      HashHasNoDot(first);
      NoExtracted(first);
    }
    if cut.Some? { assert first == cut.value + suf; }
    forall h | Hash(h) && (first == h || first == h + suf) ensures Hash(if cut.Some? then cut.value else first) {
      if first == h + suf { CutSuffixIs(h, suf); }
    }
  }

  lemma HashHasNoDot(h: string)
    requires Hash(h)
    ensures '.' !in h
  {
  }
}
