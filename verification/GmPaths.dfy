// path.go and tsgo.go: what a path under the gomodfs mount names, and the
// printers of gomodfs.go that make such paths.

module GmPaths {
  import opened Wrappers
  import opened Strings
  import opened Paths
  import opened ModNames

  const STATUS_FILE := ".gomodfs-status"
  const WK_TSGO_EXTRACTED := "tsgo.extracted"
  const TSGO_MODULE := "github.com/tailscale/go"

  datatype GmPath = GmPath(
    wellKnown: string, notExist: bool, ext: string, inZip: bool, path: string, mv: ModuleVersion)

  const NO_MV := ModuleVersion("", "")

  // The zero value: a directory above modules, or nothing recognized.
  const PLAIN := GmPath("", false, "", false, "", NO_MV)

  const NOT_EXIST := PLAIN.(notExist := true)

  function Zip(mv: ModuleVersion, p: string): GmPath {
    PLAIN.(inZip := true, path := p, mv := mv)
  }

  // ----- more of package strings

  // strings.Index on a separator, with |s| for "not found".
  function IndexOf(s: string, sep: string): (i: nat)
    requires sep != ""
    ensures i <= |s|
  {
    if s == "" then 0
    else if sep <= s then 0
    else IndexOf(s[1..], sep) + 1
  }

  function CutAt(s: string, sep: string): Pieces
    requires sep != ""
  {
    var i := IndexOf(s, sep);
    if i + |sep| <= |s| && sep <= s[i..] then Pieces(s[..i], s[i + |sep|..], true) else Pieces(s, "", false)
  }

  function TrimSlash(s: string): string {
    if s != "" && s[|s| - 1] == '/' then s[..|s| - 1] else s
  }

  // strings.CutSuffix
  function CutSuffix(s: string, suf: string): Option<string> {
    if |suf| <= |s| && s[|s| - |suf|..] == suf then Some(s[..|s| - |suf|]) else None
  }

  // path.Ext: the suffix from the last dot of the last segment.
  function Ext(p: string): (e: string)
    ensures |e| <= |p| && p[|p| - |e|..] == e
  {
    if p == "" || p[|p| - 1] == '/' then ""
    else if p[|p| - 1] == '.' then "."
    else
      var e := Ext(p[..|p| - 1]);
      if e == "" then "" else e + [p[|p| - 1]]
  }

  // ----- the Tailscale Go toolchain

  datatype Triple = Triple(os: string, arch: string, hash: string)

  predicate ValidOSArch(os: string, arch: string) {
    os in {"linux", "darwin", "windows"} && arch in {"amd64", "arm64"}
  }

  predicate HexChar(c: char) {
    Digit(c) || 'a' <= c <= 'f' || 'A' <= c <= 'F'
  }

  predicate AllHex(s: string) {
    forall i :: 0 <= i < |s| ==> HexChar(s[i])
  }

  function TsgoVersion(t: Triple): string {
    "tsgo-" + (t.os + "-" + (t.arch + "-" + t.hash))
  }

  function TsgoZipRoot(t: Triple): string {
    "tsgo-" + ((t.os + "-" + t.arch) + "/" + t.hash)
  }

  // isTSGoModule
  function TsgoTriple(mv: ModuleVersion): Option<Triple> {
    if mv.mod != TSGO_MODULE then None
    else
      match CutPrefix(mv.ver, "tsgo-")
      case None => None
      case Some(rest) =>
        var a := Cut(rest, '-');
        if !a.found then None
        else
          var b := Cut(a.after, '-');
          if !b.found then None else Some(Triple(a.before, b.before, b.after))
  }

  // What parseTSGoPath makes of tsgo-<os>-<arch>/<first>/<rest>.
  function TsgoPath(os: string, arch: string, first: string, rest: string): GmPath {
    if !ValidOSArch(os, arch) then NOT_EXIST
    else
      var cut := CutSuffix(first, ".extracted");
      var hash := if cut.Some? then cut.value else first;
      var short := |hash| != 40;
      if !AllHex(hash) then NOT_EXIST
      else
        var mv := ModuleVersion(TSGO_MODULE, TsgoVersion(Triple(os, arch, hash)));
        if cut.Some? then PLAIN.(notExist := short, mv := mv, wellKnown := WK_TSGO_EXTRACTED)
        else Zip(mv, TrimSlash(rest)).(notExist := short)
  }

  // parseTSGoPath
  function ParseTsgo(name: string): GmPath {
    match CutPrefix(name, "tsgo-")
    case None => PLAIN
    case Some(afterTsgo) =>
      var a := Cut(afterTsgo, '/');
      if !a.found then PLAIN
      else
        var b := Cut(a.before, '-');
        if !b.found then PLAIN
        else
          var c := Cut(a.after, '/');
          TsgoPath(b.before, b.after, c.before, c.after)
  }

  // ----- parsePath

  // parseModVersion, without its memo table.
  function ParseModVersion(escMod: string, escVer: string): (ModuleVersion, bool) {
    match UnescapePath(escMod)
    case None => (NO_MV, false)
    case Some(m) =>
      match UnescapeVersion(escVer)
      case None => (ModuleVersion(m, ""), false)
      case Some(v) => (ModuleVersion(m, v), true)
  }

  predicate DotFile(name: string) {
    name != "" && "." <= Base(name)
  }

  // Of cache/download/, what follows the prefix.
  function ParseDownload(dl: string): GmPath {
    var c := CutAt(dl, "/@v/");
    if !c.found then PLAIN
    else
      var ext := Ext(c.after);
      if ext == "" then PLAIN
      else if ext !in {".mod", ".ziphash", ".info"} then NOT_EXIST
      else
        var escVer := c.after[..|c.after| - |ext|];
        var (mv, ok) := ParseModVersion(c.before, escVer);
        PLAIN.(notExist := !ok, ext := ext[1..], mv := mv)
  }

  function ParsePath(name: string): GmPath {
    if name == STATUS_FILE then PLAIN.(wellKnown := STATUS_FILE)
    else if "tsgo-" <= name then (if DotFile(name) then NOT_EXIST else ParseTsgo(name))
    else if "cache/download/" <= name then
      if DotFile(name) then NOT_EXIST else ParseDownload(name[15..])
    else
      var c := Cut(name, '@');
      if !c.found then (if DotFile(name) then NOT_EXIST else PLAIN) else ParseAt(c.before, c.after)
  }

  // Of <module>@<version>/<path>, what stands on the two sides of the '@'.
  function ParseAt(escMod: string, verAndPath: string): GmPath {
    var d := Cut(verAndPath, '/');
    var (mv, ok) := ParseModVersion(escMod, d.before);
    if ok then Zip(mv, TrimSlash(d.after)) else NOT_EXIST.(mv := mv)
  }

  // ----- the printers

  // cdPath; an invalid name prints as "".
  function CdPath(mv: ModuleVersion, ext: string): string {
    var m := EscapePath(mv.mod);
    var v := EscapeVersion(mv.ver);
    "cache/download/" + ((if m.Some? then m.value else "") + "/@v/" + (if v.Some? then v.value else "") + "." + ext)
  }

  // modVerZipPrefix
  function ZipPrefix(mv: ModuleVersion): Option<string> {
    match TsgoTriple(mv)
    case Some(t) => Some(TsgoZipRoot(t))
    case None =>
      match EscapePath(mv.mod)
      case None => None
      case Some(m) =>
        match EscapeVersion(mv.ver)
        case None => None
        case Some(v) => Some(m + "@" + v)
  }

  // emptyPathJoin
  function EmptyPathJoin(a: string, b: string): string {
    if b == "" then a else if a == "" then b else a + "/" + b
  }

  // splitSegs and joinSegs
  function SplitSegs(s: string): seq<string> {
    if s == "" then [] else Split(s)
  }

  function Split(s: string): (r: seq<string>)
    ensures r != []
    decreases |s|
  {
    var c := Cut(s, '/');
    if c.found then [c.before] + Split(c.after) else [c.before]
  }

  function JoinSegs(segs: seq<string>): string {
    if segs == [] then ""
    else if |segs| == 1 then segs[0]
    else segs[0] + "/" + JoinSegs(segs[1..])
  }

  lemma {:induction false} JoinSplit(s: string)
    ensures JoinSegs(Split(s)) == s
    decreases |s|
  {
    var c := Cut(s, '/');
    if c.found {
      JoinSplit(c.after);
      assert Split(s)[1..] == Split(c.after);
      assert s == c.before + "/" + c.after;
    }
  }

  lemma ParseStatus()
    ensures ParsePath(".gomodfs-status") == PLAIN.(wellKnown := ".gomodfs-status")
  {
  }

  // ----- facts about the string functions

  lemma {:induction false} CutAtIs(a: string, b: string)
    requires '@' !in a
    ensures CutAt(a + "/@v/" + b, "/@v/") == Pieces(a, b, true)
  {
    IndexOfIs(a, b);
    var s := a + "/@v/" + b;
    assert s == a + ("/@v/" + b);
    assert s[|a|..] == "/@v/" + b;
    assert s[..|a|] == a && s[|a| + 4..] == b;
  }

  lemma {:induction false} IndexOfIs(a: string, b: string)
    requires '@' !in a
    ensures IndexOf(a + "/@v/" + b, "/@v/") == |a|
  {
    var s := a + "/@v/" + b;
    if a == "" {
      assert s == "/@v/" + b;
    } else {
      assert s[1] == if |a| == 1 then '/' else a[1];
      assert s[1] != '@';
      assert !("/@v/" <= s);
      assert s[1..] == a[1..] + "/@v/" + b;
      IndexOfIs(a[1..], b);
    }
  }

  lemma SepHasAt(s: string, i: nat)
    requires i + 4 <= |s| && "/@v/" <= s[i..]
    ensures s[i + 1] == '@'
  {
    assert s[i..][1] == s[i + 1];
  }

  // Without an '@' before its last two characters, there is no "/@v/".
  lemma CutAtNone(s: string)
    requires forall i :: 0 <= i < |s| && s[i] == '@' ==> i >= |s| - 2
    ensures !CutAt(s, "/@v/").found
  {
    var i := IndexOf(s, "/@v/");
    if i + 4 <= |s| && "/@v/" <= s[i..] { SepHasAt(s, i); }
  }

  lemma ExtSnoc(p: string, c: char)
    requires c != '/' && c != '.'
    ensures Ext(p + [c]) == if Ext(p) == "" then "" else Ext(p) + [c]
  {
    assert (p + [c])[..|p|] == p;
  }

  lemma ExtDot(p: string)
    ensures Ext(p + ".") == "."
  {
  }

  lemma {:induction false} ExtIs(a: string, e: string)
    requires '.' !in e && '/' !in e
    ensures Ext(a + "." + e) == "." + e
  {
    hide Ext;
    if e == "" {
      ExtDot(a);
      assert a + "." + e == a + ".";
    } else {
      var t, c := e[..|e| - 1], e[|e| - 1];
      assert e == t + [c] && c in e;
      ExtIs(a, t);
      ExtSnoc(a + "." + t, c);
      ExtGrows(a, t, c);
    }
  }

  lemma ExtGrows(a: string, t: string, c: char)
    ensures a + "." + (t + [c]) == (a + "." + t) + [c] && ("." + t) + [c] == "." + (t + [c])
  {
  }

  lemma CutSuffixIs(a: string, suf: string)
    ensures CutSuffix(a + suf, suf) == Some(a)
  {
    assert (a + suf)[|a|..] == suf && (a + suf)[..|a|] == a;
  }

  // ----- cache/download: cdPath and parsePath are inverse

  predicate MetaExt(ext: string) {
    ext in {"info", "mod", "ziphash"}
  }

  lemma MetaExtIsPlain(ext: string)
    requires MetaExt(ext)
    ensures '.' !in ext && '/' !in ext && "." + ext in {".mod", ".ziphash", ".info"} && ("." + ext)[1..] == ext
  {
    assert "." + "info" == ".info" && "." + "mod" == ".mod" && "." + "ziphash" == ".ziphash";
  }

  lemma ParsePathDownload(dl: string)
    ensures var name := "cache/download/" + dl;
            ParsePath(name) == if DotFile(name) then NOT_EXIST else ParseDownload(dl)
  {
    var name := "cache/download/" + dl;
    assert name[0] == 'c' && name[15..] == dl;
  }

  lemma ParseDownloadOfCd(mv: ModuleVersion, ext: string)
    requires ValidMV(mv) && MetaExt(ext)
    ensures var dl := EscapeString(mv.mod) + "/@v/" + EscapeString(mv.ver) + "." + ext;
            ParseDownload(dl) == PLAIN.(ext := ext, mv := mv)
  {
    hide CheckPath, CheckVersion, EscapeString, UnescapeString, Ext, CutAt, MetaExt;
    var m, v := EscapeString(mv.mod), EscapeString(mv.ver);
    EscapedNamesComeBack(mv);
    MetaExtIsPlain(ext);
    var tail := v + "." + ext;
    assert m + "/@v/" + v + "." + ext == m + "/@v/" + tail;
    CutAtIs(m, tail);
    ExtIs(v, ext);
    assert tail[..|tail| - |"." + ext|] == v;
  }

  // The path of a metadata file is taken for what it is, unless the version
  // starts with a dot, when it is taken for a dot file.
  lemma ParseCdPath(mv: ModuleVersion, ext: string)
    requires ValidMV(mv) && MetaExt(ext)
    ensures ParsePath(CdPath(mv, ext)) == if mv.ver[0] == '.' then NOT_EXIST else PLAIN.(ext := ext, mv := mv)
  {
    ParseDownloadOfCd(mv, ext);
    VersionIsPlain(mv.ver);
    EscapeFirst(mv.ver);
    MetaExtIsPlain(ext);
    hide CheckPath, CheckVersion, EscapeString, ParseDownload, MetaExt, Base, ParsePath;
    var m, v := EscapeString(mv.mod), EscapeString(mv.ver);
    CdShape(m, v, ext);
    assert CdPath(mv, ext) == CdOf(m, v, ext);
    hide CdOf;
    ParsePathDownload(m + "/@v/" + v + "." + ext);
    var n := v + "." + ext;
    BaseIs("cache/download/" + m + "/@v", n);
    assert n[0] == v[0];
  }

  function CdOf(m: string, v: string, ext: string): string {
    "cache/download/" + (m + "/@v/" + v + "." + ext)
  }

  lemma CdShape(m: string, v: string, ext: string)
    ensures CdOf(m, v, ext) == ("cache/download/" + m + "/@v") + "/" + (v + "." + ext)
    ensures CdOf(m, v, ext) == "cache/download/" + (m + "/@v/" + v + "." + ext)
    ensures CdOf(m, v, ext) != ""
  {
    var n := v + "." + ext;
    assert m + "/@v/" + v + "." + ext == m + "/@v/" + n;
    assert "/@v" + "/" == "/@v/";
    assert m + "/@v/" == m + "/@v" + "/";
  }

  // ----- zip paths: modVerZipPrefix with an inner path, and parsePath

  // A path inside a zip: "" for its root.
  predicate InnerPath(p: string) {
    p == "" || CleanPath(p)
  }

  lemma TrimClean(p: string)
    requires InnerPath(p)
    ensures TrimSlash(p) == p
  {
    if p != "" { CleanEnds(p); }
  }

  // A dot comes before any slash: the first segment is not "cache".
  ghost predicate EarlyDot(x: string) {
    exists i :: 0 <= i < |x| && x[i] == '.' && '/' !in x[..i]
  }

  lemma EarlyDotIsNotCache(x: string)
    requires EarlyDot(x)
    ensures !("cache/download/" <= x)
  {
    var i :| 0 <= i < |x| && x[i] == '.' && '/' !in x[..i];
    assert i > 5 ==> x[5] != '/' by {
      if i > 5 { assert x[..i][5] == x[5]; }
    }
  }

  lemma EarlyDotPrefix(x: string, y: string)
    requires EarlyDot(x) && x <= y
    ensures EarlyDot(y)
  {
    var i :| 0 <= i < |x| && x[i] == '.' && '/' !in x[..i];
    assert y[..i] == x[..i] && y[i] == x[i];
  }

  lemma {:induction false} LowerIsKept(f: string)
    requires forall i :: 0 <= i < |f| ==> FirstCharOK(f[i])
    ensures EscapeString(f) == f
  {
    if f != "" {
      assert !Upper(f[0]);
      LowerIsKept(f[1..]);
      assert f == [f[0]] + f[1..];
    }
  }

  lemma FirstOfModule(m: string)
    requires CheckPath(m)
    ensures var f := Cut(m, '/').before;
            f != "" && f[0] != '.' && '.' in f && forall i :: 0 <= i < |f| ==> FirstCharOK(f[i])
  {
    hide FirstCharOK, ModCharOK, Cut;
  }

  // x is f, or f and a slash and more.
  predicate StartsWithSegment(f: string, x: string) {
    f <= x && (|x| > |f| ==> x[|f|] == '/')
  }

  lemma EscapeFromSlash(f: string, rest: string)
    requires rest != "" ==> rest[0] == '/'
    requires forall i :: 0 <= i < |f| ==> FirstCharOK(f[i])
    ensures StartsWithSegment(f, EscapeString(f + rest)) && (rest != "" <==> |EscapeString(f + rest)| > |f|)
  {
    EscapeAppend(f, rest);
    LowerIsKept(f);
    if rest != "" { EscapeFirst(rest); }
  }

  // Escaping keeps the first segment of a module path, which is lower case.
  lemma EscapedModuleParts(m: string)
    requires CheckPath(m)
    ensures var f := Cut(m, '/').before;
            && StartsWithSegment(f, m) && StartsWithSegment(f, EscapeString(m))
            && (|m| > |f| <==> |EscapeString(m)| > |f|)
            && '.' in f && '/' !in f && f != "" && f[0] != '.'
  {
    FirstOfModule(m);
    hide CheckPath, EscapeString, FirstCharOK;
    var c := Cut(m, '/');
    var rest := if c.found then ['/'] + c.after else "";
    assert m == c.before + rest;
    EscapeFromSlash(c.before, rest);
  }

  lemma EscapedModuleShape(m: string)
    requires CheckPath(m)
    ensures var e := EscapeString(m); e != "" && e[0] != '.' && e[0] != '/' && EarlyDot(e)
    ensures "tsgo-" <= EscapeString(m) <==> "tsgo-" <= m
  {
    EscapedModuleParts(m);
    hide CheckPath, EscapeString, EarlyDot, Cut;
    var f, e := Cut(m, '/').before, EscapeString(m);
    DotInFirst(f);
    EarlyDotPrefix(f, e);
    assert f[0] in f && e[0] == f[0];
    TsgoKept(f, m, e);
  }

  lemma DotInFirst(f: string)
    requires '.' in f && '/' !in f
    ensures EarlyDot(f)
  {
    var i :| 0 <= i < |f| && f[i] == '.';
    assert forall x :: x in f[..i] ==> x in f;
  }

  lemma TsgoKept(f: string, m: string, e: string)
    requires '/' !in f && StartsWithSegment(f, m) && StartsWithSegment(f, e) && (|m| > |f| <==> |e| > |f|)
    ensures "tsgo-" <= e <==> "tsgo-" <= m
  {
    if |f| >= 5 {
      assert e[..5] == f[..5] == m[..5];
    }
  }

  // What parsePath does with a path that has an '@' and is no special path.
  lemma ParsePathZip(em: string, rest: string)
    requires '@' !in em && EarlyDot(em) && !("tsgo-" <= em)
    ensures ParsePath(em + ['@'] + rest) == ParseAt(em, rest)
  {
    hide ParseAt;
    var name := em + ['@'] + rest;
    CutIsUnique(em, '@', rest);
    EarlyDotPrefix(em, name);
    EarlyDotIsNotCache(name);
    assert name[|em|] == '@';
    if "tsgo-" <= name { NoTsgoPrefix(em, name); }
    StatusHasNoAt(name, |em|);
  }

  lemma NoTsgoPrefix(em: string, name: string)
    requires em <= name && |em| < |name| && name[|em|] == '@' && "tsgo-" <= name
    ensures "tsgo-" <= em
  {
    if |em| >= 5 { assert em[..5] == name[..5]; }
  }

  lemma StatusHasNoAt(name: string, i: nat)
    requires i < |name| && name[i] == '@'
    ensures name != STATUS_FILE
  {
    assert '@' !in STATUS_FILE;
    assert name[i] in name;
  }

  lemma ZipShape(m: string, v: string, p: string)
    requires m != ""
    ensures EmptyPathJoin(m + "@" + v, p) == m + ['@'] + if p == "" then v else v + "/" + p
  {
  }

  // Every zip path of an ordinary module is read back as it was printed.
  lemma ParseZipPath(mv: ModuleVersion, p: string)
    requires ValidMV(mv) && TsgoTriple(mv).None? && !("tsgo-" <= mv.mod) && InnerPath(p)
    ensures ZipPrefix(mv) == Some(EscapeString(mv.mod) + "@" + EscapeString(mv.ver))
    ensures ParsePath(EmptyPathJoin(ZipPrefix(mv).value, p)) == Zip(mv, p)
  {
    EscapedModuleShape(mv.mod);
    EscapedNamesComeBack(mv);
    VersionIsPlain(mv.ver);
    TrimClean(p);
    assert ZipPrefix(mv) == Some(EscapeString(mv.mod) + "@" + EscapeString(mv.ver));
    hide CheckPath, CheckVersion, EscapeString, UnescapeString, CleanPath, EarlyDot;
    hide ParsePath, TrimSlash, Plain, ZipPrefix, TsgoTriple;
    var m, v := EscapeString(mv.mod), EscapeString(mv.ver);
    var rest := if p == "" then v else v + "/" + p;
    ZipShape(m, v, p);
    ParsePathZip(m, rest);
    if p == "" {
      CutNothing(v, '/');
    } else {
      assert rest == v + ['/'] + p;
      CutIsUnique(v, '/', p);
    }
  }

  // ----- the toolchain's paths

  predicate GoodTriple(t: Triple) {
    ValidOSArch(t.os, t.arch) && |t.hash| == 40 && AllHex(t.hash)
  }

  function TsgoMV(t: Triple): ModuleVersion {
    ModuleVersion(TSGO_MODULE, TsgoVersion(t))
  }

  // The parts of a triple as isTSGoModule finds them in a version.
  predicate TripleShape(t: Triple) {
    '-' !in t.os && '-' !in t.arch && '/' !in t.os && '/' !in t.arch && '/' !in t.hash
  }

  lemma TripleOfVersion(t: Triple)
    requires '-' !in t.os && '-' !in t.arch
    ensures TsgoTriple(TsgoMV(t)) == Some(t)
  {
    PrefixCut("tsgo-", t.os + "-" + (t.arch + "-" + t.hash));
    assert t.os + "-" + (t.arch + "-" + t.hash) == t.os + ['-'] + (t.arch + "-" + t.hash);
    CutIsUnique(t.os, '-', t.arch + "-" + t.hash);
    assert t.arch + "-" + t.hash == t.arch + ['-'] + t.hash;
    CutIsUnique(t.arch, '-', t.hash);
  }

  // A version that isTSGoModule accepts is the one printed for what it found.
  lemma TripleIsVersion(mv: ModuleVersion)
    requires TsgoTriple(mv).Some?
    ensures mv == TsgoMV(TsgoTriple(mv).value)
    ensures '/' !in mv.ver ==> TripleShape(TsgoTriple(mv).value)
  {
    var rest := mv.ver[5..];
    var a := Cut(rest, '-');
    var b := Cut(a.after, '-');
    assert mv.ver == "tsgo-" + rest;
    assert rest == a.before + "-" + a.after && a.after == b.before + "-" + b.after;
    hide Cut;
    if '/' !in mv.ver { PartsInWhole(a.before, b.before, b.after, mv.ver); }
  }

  lemma PartsInWhole(a: string, b: string, c: string, v: string)
    requires v == "tsgo-" + (a + "-" + (b + "-" + c)) && '/' !in v
    ensures '/' !in a && '/' !in b && '/' !in c
  {
    assert forall x :: x in a || x in b || x in c ==> x in v;
  }

  lemma GoodTripleShape(t: Triple)
    requires GoodTriple(t)
    ensures TripleShape(t) && t.hash != "" && t.hash[0] != '.' && '.' !in t.hash
  {
    forall i | 0 <= i < |t.hash| ensures t.hash[i] != '/' && t.hash[i] != '.' { assert HexChar(t.hash[i]); }
  }

  // tsgo-<os>-<arch>/<first>[/<p>]
  function TsgoName(t: Triple, first: string, p: string): string {
    "tsgo-" + ((t.os + "-" + t.arch) + "/" + EmptyPathJoin(first, p))
  }

  lemma ParseTsgoRest(t: Triple, rest: string)
    requires '-' !in t.os && '/' !in t.os && '/' !in t.arch
    ensures var c := Cut(rest, '/');
            ParseTsgo("tsgo-" + ((t.os + "-" + t.arch) + "/" + rest)) == TsgoPath(t.os, t.arch, c.before, c.after)
  {
    hide TsgoPath;
    var dir := t.os + "-" + t.arch;
    PrefixCut("tsgo-", dir + "/" + rest);
    assert dir + "/" + rest == dir + ['/'] + rest;
    CutIsUnique(dir, '/', rest);
    assert dir == t.os + ['-'] + t.arch;
    CutIsUnique(t.os, '-', t.arch);
  }

  lemma ParseTsgoName(t: Triple, first: string, p: string)
    requires '-' !in t.os && '/' !in t.os && '/' !in t.arch && '/' !in first && first != ""
    ensures ParseTsgo(TsgoName(t, first, p)) == TsgoPath(t.os, t.arch, first, p)
  {
    hide TsgoPath, ParseTsgo;
    var rest := EmptyPathJoin(first, p);
    ParseTsgoRest(t, rest);
    if p == "" {
      CutNothing(first, '/');
    } else {
      assert rest == first + ['/'] + p;
      CutIsUnique(first, '/', p);
    }
  }

  lemma ParsePathTsgo(name: string)
    requires "tsgo-" <= name
    ensures ParsePath(name) == if DotFile(name) then NOT_EXIST else ParseTsgo(name)
  {
    assert name[0] == 't';
  }

  lemma TsgoBase(t: Triple, first: string, p: string)
    requires '/' !in first && first != "" && InnerPath(p)
    ensures Base(TsgoName(t, first, p)) == if p == "" then first else Base(p)
  {
    hide CleanPath, Base;
    var dir := "tsgo-" + (t.os + "-" + t.arch);
    if p == "" {
      assert TsgoName(t, first, p) == dir + "/" + first;
      BaseIs(dir, first);
    } else {
      assert TsgoName(t, first, p) == (dir + "/" + first) + "/" + p;
      BaseOfJoin(dir + "/" + first, p);
    }
  }

  // A dot file below the toolchain's root, which parsePath takes for missing.
  predicate DotInner(p: string) {
    p != "" && "." <= Base(p)
  }

  // A zip path of a toolchain module is read back exactly if its version names
  // a known system and a 40-digit hash and the file is no dot file.
  lemma ParseTsgoZip(t: Triple, p: string)
    requires TripleShape(t) && InnerPath(p)
    ensures ParsePath(EmptyPathJoin(TsgoZipRoot(t), p)) == Zip(TsgoMV(t), p) <==> GoodTriple(t) && !DotInner(p)
  {
    if t.hash == "" {
      EmptyHash(t, p);
    } else {
      hide ParsePath, ParseTsgo, Base, TsgoName, CleanPath, TrimSlash, TsgoPath, TsgoZipRoot;
      TsgoZipName(t, p);
      TsgoBase(t, t.hash, p);
      ParsePathTsgo(TsgoName(t, t.hash, p));
      ParseTsgoName(t, t.hash, p);
      TsgoPathIff(t, p);
    }
  }

  lemma TsgoPathIff(t: Triple, p: string)
    requires TripleShape(t) && InnerPath(p)
    ensures TsgoPath(t.os, t.arch, t.hash, p) == Zip(TsgoMV(t), p) <==> GoodTriple(t)
    ensures GoodTriple(t) ==> !("." <= t.hash)
  {
    hide CleanPath, TsgoVersion, AllHex;
    TrimClean(p);
    assert t == Triple(t.os, t.arch, t.hash);
    if GoodTriple(t) {
      GoodTripleShape(t);
      NoExtracted(t.hash);
      hide CutSuffix, TrimSlash, InnerPath;
      assert TsgoPath(t.os, t.arch, t.hash, p) == Zip(TsgoMV(t), p);
    }
  }

  lemma TsgoZipName(t: Triple, p: string)
    requires t.hash != ""
    ensures EmptyPathJoin(TsgoZipRoot(t), p) == TsgoName(t, t.hash, p)
    ensures "tsgo-" <= TsgoName(t, t.hash, p) && TsgoName(t, t.hash, p) != ""
  {
    var dir := t.os + "-" + t.arch;
    assert TsgoZipRoot(t) == "tsgo-" + (dir + "/" + t.hash);
    if p != "" {
      assert TsgoZipRoot(t) + "/" + p == "tsgo-" + (dir + "/" + (t.hash + "/" + p));
    }
  }

  lemma NoExtracted(hash: string)
    requires '.' !in hash
    ensures CutSuffix(hash, ".extracted").None?
  {
    var suf := ".extracted";
    assert suf[0] == '.';
    if |hash| >= |suf| { assert hash[|hash| - |suf|..][0] == hash[|hash| - |suf|]; }
  }

  lemma EmptyHash(t: Triple, p: string)
    requires TripleShape(t) && t.hash == "" && InnerPath(p)
    ensures ParsePath(EmptyPathJoin(TsgoZipRoot(t), p)) != Zip(TsgoMV(t), p)
  {
    var rest := if p == "" then "" else "/" + p;
    hide ParsePath, ParseTsgo, Base, CleanPath;
    EmptyHashName(t, p, rest);
    var name := EmptyPathJoin(TsgoZipRoot(t), p);
    ParsePathTsgo(name);
    ParseTsgoRest(t, rest);
    if p == "" { CutNothing("", '/'); } else { assert rest == "" + ['/'] + p; CutIsUnique("", '/', p); }
    assert CutSuffix("", ".extracted").None?;
  }

  lemma EmptyHashName(t: Triple, p: string, rest: string)
    requires t.hash == "" && rest == if p == "" then "" else "/" + p
    ensures EmptyPathJoin(TsgoZipRoot(t), p) == "tsgo-" + ((t.os + "-" + t.arch) + "/" + rest)
    ensures "tsgo-" <= EmptyPathJoin(TsgoZipRoot(t), p)
  {
    var dir := t.os + "-" + t.arch;
    assert dir + "/" + t.hash == dir + "/";
    if p != "" { assert "tsgo-" + (dir + "/") + "/" + p == "tsgo-" + (dir + "/" + ("/" + p)); }
  }

  lemma ParseTsgoExtracted(t: Triple)
    requires GoodTriple(t)
    ensures ParsePath(TsgoZipRoot(t) + ".extracted") ==
            PLAIN.(mv := ModuleVersion("github.com/tailscale/go", TsgoVersion(t)), wellKnown := "tsgo.extracted")
  {
    GoodTripleShape(t);
    var first := t.hash + ".extracted";
    assert '/' !in ".extracted";
    var name := TsgoName(t, first, "");
    assert TsgoZipRoot(t) + ".extracted" == name by {
      assert ((t.os + "-" + t.arch) + "/" + t.hash) + ".extracted" == (t.os + "-" + t.arch) + "/" + first;
    }
    assert name[..5] == "tsgo-";
    ParsePathTsgo(name);
    ParseTsgoName(t, first, "");
    TsgoBase(t, first, "");
    assert first[0] == t.hash[0];
    CutSuffixIs(t.hash, ".extracted");
    hide ParsePath, ParseTsgo, Base, TsgoName;
  }
}
