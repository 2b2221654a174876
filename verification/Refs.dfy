// How stored module versions are named: git refs (gitstore.go 637-663 and
// 1024-1070) and the URL paths between the remote store and its server
// (protocol.go).

module Refs {
  import opened Wrappers
  import opened Strings
  import opened ModNames
  import opened GmPaths
  import opened GmSources

  // ----- net/url

  predicate Octets(s: string) {
    forall i :: 0 <= i < |s| ==> s[i] as int < 256
  }

  // What url.PathEscape leaves alone in a path segment.
  predicate Unreserved(c: char) {
    Upper(c) || Lower(c) || Digit(c) || c in "-_.~$&+:=@"
  }

  function HexDigit(n: nat): char
    requires n < 16
  {
    if n < 10 then ('0' as int + n) as char else ('A' as int + n - 10) as char
  }

  function HexValue(c: char): Option<nat> {
    if Digit(c) then Some(c as int - '0' as int)
    else if 'a' <= c <= 'f' then Some(c as int - 'a' as int + 10)
    else if 'A' <= c <= 'F' then Some(c as int - 'A' as int + 10)
    else None
  }

  function EscapeOctet(c: char): string {
    if Unreserved(c) then [c] else ['%', HexDigit(c as int % 256 / 16), HexDigit(c as int % 16)]
  }

  // The octets that stand for themselves, and the upper-case digits of others.
  lemma OctetsEscaped(c: char)
    requires c as int < 256
    ensures EscapeOctet(c) ==
            if 'A' <= c <= 'Z' || 'a' <= c <= 'z' || '0' <= c <= '9' || c in "-_.~$&+:=@" then [c]
            else ['%', "0123456789ABCDEF"[c as int / 16], "0123456789ABCDEF"[c as int % 16]]
  {
    hide Unreserved, HexDigit, EscapeOctet;
    EscapedDigits(c);
    HexDigitIs(c as int / 16);
    HexDigitIs(c as int % 16);
    UnreservedIs(c);
  }

  lemma EscapedDigits(c: char)
    requires c as int < 256
    ensures EscapeOctet(c) == if Unreserved(c) then [c] else ['%', HexDigit(c as int / 16), HexDigit(c as int % 16)]
  {
    hide Unreserved, HexDigit;
    assert c as int % 256 == c as int;
  }

  lemma UnreservedIs(c: char)
    ensures Unreserved(c) <==> 'A' <= c <= 'Z' || 'a' <= c <= 'z' || '0' <= c <= '9' || c in "-_.~$&+:=@"
  {
  }

  lemma HexDigitIs(n: nat)
    requires n < 16
    ensures HexDigit(n) == "0123456789ABCDEF"[n]
  {
  }

  function PathEscape(s: string): string {
    if s == "" then "" else EscapeOctet(s[0]) + PathEscape(s[1..])
  }

  function PathUnescape(e: string): Option<string>
    decreases |e|
  {
    if e == "" then Some("")
    else if e[0] == '%' then
      if |e| < 3 then None
      else
        match (HexValue(e[1]), HexValue(e[2]), PathUnescape(e[3..]))
        case (Some(a), Some(b), Some(rest)) => if a < 16 && b < 16 then Some([(a * 16 + b) as char] + rest) else None
        case _ => None
    else
      match PathUnescape(e[1..])
      case None => None
      case Some(rest) => Some([e[0]] + rest)
  }

  lemma HexBack(n: nat)
    requires n < 16
    ensures HexValue(HexDigit(n)) == Some(n)
  {
  }

  lemma OctetBack(c: char, rest: string)
    requires c as int < 256
    ensures PathUnescape(EscapeOctet(c) + rest) ==
            match PathUnescape(rest) case None => None case Some(r) => Some([c] + r)
  {
    hide PathUnescape;
    if Unreserved(c) {
      hide HexDigit;
      PlainBack(c, rest);
    } else {
      hide Unreserved, HexDigit, HexValue;
      var a, b := c as int / 16, c as int % 16;
      HexBack(a);
      HexBack(b);
      HexPairBack(c, HexDigit(a), HexDigit(b), a, b, rest);
    }
  }

  lemma PlainBack(c: char, rest: string)
    requires c != '%'
    ensures PathUnescape([c] + rest) == match PathUnescape(rest) case None => None case Some(r) => Some([c] + r)
  {
    assert ([c] + rest)[1..] == rest;
  }

  lemma HexPairBack(c: char, x: char, y: char, a: nat, b: nat, rest: string)
    requires HexValue(x) == Some(a) && HexValue(y) == Some(b) && a < 16 && b < 16 && c as int == a * 16 + b
    ensures PathUnescape(['%', x, y] + rest) == match PathUnescape(rest) case None => None case Some(r) => Some([c] + r)
  {
    hide HexValue;
    var e := ['%', x, y] + rest;
    assert e[0] == '%' && e[1] == x && e[2] == y && e[3..] == rest;
  }

  lemma {:induction false} PathEscapeBack(s: string)
    requires Octets(s)
    ensures PathUnescape(PathEscape(s)) == Some(s)
  {
    if s != "" {
      hide PathUnescape, EscapeOctet;
      PathEscapeBack(s[1..]);
      OctetBack(s[0], PathEscape(s[1..]));
      assert s == [s[0]] + s[1..];
    }
  }

  // A character that escaping removes, or that was not there.
  lemma {:induction false} PathEscapeKeepsOut(s: string, c: char)
    requires c != '%' && HexValue(c) == None && (!Unreserved(c) || c !in s)
    ensures c !in PathEscape(s)
  {
    if s != "" {
      PathEscapeKeepsOut(s[1..], c);
      HexBack(s[0] as int % 256 / 16);
      HexBack(s[0] as int % 16);
    }
  }

  // ----- refs

  const REFS := "refs/"

  const GOMOD := "gomod/"

  function RefName(mv: ModuleVersion): Option<string> {
    match EscapePath(mv.mod)
    case None => None
    case Some(m) =>
      match EscapeVersion(mv.ver)
      case None => None
      case Some(v) => Some(REFS + (GOMOD + (PathEscape(m) + "@" + PathEscape(v))))
  }

  datatype RefKind = Zip | Mod | Info

  function Suffix(k: RefKind): string {
    match k case Zip => "" case Mod => "(mod)" case Info => "(info)"
  }

  // refName, modRefName and infoRefName
  function RefOf(mv: ModuleVersion, k: RefKind): Option<string> {
    match RefName(mv)
    case None => None
    case Some(base) => Some(base + Suffix(k))
  }

  // %(refname:short) of a ref outside of the usual places
  function Short(ref: string): string {
    if REFS <= ref then ref[|REFS|..] else ref
  }

  // What CachedModules reads from one line.
  function LineVersion(line: string): Option<ModuleVersion> {
    var paren := Index(line, '(');
    var line := line[..paren];
    match CutPrefix(line, GOMOD)
    case None => None
    case Some(rest) =>
      var c := Cut(rest, '@');
      if !c.found then None
      else
        match (PathUnescape(c.before), PathUnescape(c.after))
        case (Some(m), Some(v)) =>
          (match (UnescapePath(m), UnescapeVersion(v))
           case (Some(mod), Some(ver)) => Some(ModuleVersion(mod, ver))
           case _ => None)
        case _ => None
  }

  method CachedModules(lines: seq<string>) returns (mods: seq<ModuleVersion>)
    ensures forall i, j :: 0 <= i < j < |mods| ==> mods[i] != mods[j]
    ensures forall mv :: mv in mods <==> Listed(lines, mv)
  {
    hide LineVersion;
    mods := [];
    var seen: set<ModuleVersion> := {};
    var i := 0;
    while i < |lines|
      invariant 0 <= i <= |lines|
      invariant forall mv :: mv in seen <==> mv in mods
      invariant forall a, b :: 0 <= a < b < |mods| ==> mods[a] != mods[b]
      invariant forall mv :: mv in mods <==> Listed(lines[..i], mv)
    {
      var mv := LineVersion(lines[i]);
      ListedMore(lines, i);
      if mv.Some? && mv.value !in seen {
        seen := seen + {mv.value};
        mods := mods + [mv.value];
      }
      i := i + 1;
    }
    assert lines[..i] == lines;
  }

  ghost predicate Listed(lines: seq<string>, mv: ModuleVersion) {
    exists i :: 0 <= i < |lines| && LineVersion(lines[i]) == Some(mv)
  }

  lemma ListedMore(lines: seq<string>, i: nat)
    requires i < |lines|
    ensures forall mv :: Listed(lines[..i + 1], mv) <==> Listed(lines[..i], mv) || LineVersion(lines[i]) == Some(mv)
  {
    hide LineVersion;
    var a, b := lines[..i], lines[..i + 1];
    forall mv ensures Listed(b, mv) <==> Listed(a, mv) || LineVersion(lines[i]) == Some(mv) {
      if Listed(a, mv) {
        var k :| 0 <= k < |a| && LineVersion(a[k]) == Some(mv);
        assert b[k] == a[k];
      }
      if Listed(b, mv) {
        var k :| 0 <= k < |b| && LineVersion(b[k]) == Some(mv);
        if k < i { assert a[k] == b[k]; }
      }
      assert b[i] == lines[i];
    }
  }

  lemma PlainIsOctets(s: string)
    requires Plain(s)
    ensures Octets(s)
  {
  }

  lemma {:induction false} EscapedIsOctets(s: string)
    requires Octets(s)
    ensures Octets(EscapeString(s))
  {
    if s != "" { EscapedIsOctets(s[1..]); }
  }

  // Of a ref name, the parts that CachedModules takes apart.
  lemma LineOfRef(a: string, b: string, suf: string)
    requires '@' !in a && '(' !in a && '(' !in b && (suf == "" || suf[0] == '(')
    ensures var line := GOMOD + (a + "@" + b) + suf;
            var base := line[..Index(line, '(')];
            CutPrefix(base, GOMOD) == Some(a + "@" + b) && Cut(a + "@" + b, '@') == Pieces(a, b, true)
  {
    var base := GOMOD + (a + "@" + b);
    var line := base + suf;
    assert '(' !in base;
    IndexAtEnd(base, suf);
    assert line[..|base|] == base;
    PrefixCut(GOMOD, a + "@" + b);
    assert a + "@" + b == a + ['@'] + b;
    CutIsUnique(a, '@', b);
  }

  lemma IndexAtEnd(base: string, suf: string)
    requires '(' !in base && (suf == "" || suf[0] == '(')
    ensures Index(base + suf, '(') == |base|
  {
    hide Index;
    var s := base + suf;
    assert forall j :: 0 <= j < |base| ==> s[j] == base[j] && base[j] in base;
    if suf != "" { assert s[|base|] == '('; }
  }

  lemma EscapedForUrl(mv: ModuleVersion)
    requires ValidMV(mv)
    ensures Octets(EscapeString(mv.mod)) && Octets(EscapeString(mv.ver))
  {
    hide CheckPath, CheckVersion, EscapeString, Octets;
    VersionIsPlain(mv.ver);
    ModuleIsPlain(mv.mod);
    PlainIsOctets(mv.mod);
    PlainIsOctets(mv.ver);
    EscapedIsOctets(mv.mod);
    EscapedIsOctets(mv.ver);
  }

  lemma ModuleIsPlain(m: string)
    requires CheckPath(m)
    ensures Plain(m)
  {
    ModElemsArePlain(m);
  }

  // The three refs of a version, in full.
  lemma RefsAre(mv: ModuleVersion)
    requires ValidMV(mv)
    ensures var base := PathEscape(EscapeString(mv.mod)) + "@" + PathEscape(EscapeString(mv.ver));
            && RefOf(mv, Zip) == Some("refs/gomod/" + base)
            && RefOf(mv, Mod) == Some("refs/gomod/" + base + "(mod)")
            && RefOf(mv, Info) == Some("refs/gomod/" + base + "(info)")
  {
    hide CheckPath, CheckVersion, PathEscape, EscapeString;
    var base := PathEscape(EscapeString(mv.mod)) + "@" + PathEscape(EscapeString(mv.ver));
    var ref := "refs/gomod/" + base;
    assert REFS + (GOMOD + base) == ref && ref + "" == ref;
  }

  // Each of a version's three refs is read back as the version.
  lemma RefComesBack(mv: ModuleVersion, k: RefKind)
    requires ValidMV(mv)
    ensures RefOf(mv, k).Some? && LineVersion(Short(RefOf(mv, k).value)) == Some(mv)
  {
    hide CheckPath, CheckVersion, EscapeString, UnescapeString, PathEscape;
    hide PathUnescape, Octets, Unreserved, HexValue;
    hide Short, Suffix, LineVersion;
    EscapedForUrl(mv);
    var m, v := EscapeString(mv.mod), EscapeString(mv.ver);
    ShortRef(PathEscape(m), PathEscape(v), k);
    EscapedNamesComeBack(mv);
    EscapedLine(mv, m, v, Suffix(k));
  }

  lemma EscapedLine(mv: ModuleVersion, m: string, v: string, suf: string)
    requires Octets(m) && Octets(v) && '@' !in m && (suf == "" || suf[0] == '(')
    requires UnescapePath(m) == Some(mv.mod) && UnescapeVersion(v) == Some(mv.ver)
    ensures LineVersion(GOMOD + (PathEscape(m) + "@" + PathEscape(v)) + suf) == Some(mv)
  {
    hide PathEscape, PathUnescape, Octets, Unreserved, HexValue;
    hide UnescapePath, UnescapeVersion, Index, CutPrefix;
    PathEscapeBack(m);
    PathEscapeBack(v);
    SpecialChars();
    PathEscapeKeepsOut(m, '@');
    PathEscapeKeepsOut(m, '(');
    PathEscapeKeepsOut(v, '(');
    LineOfRef(PathEscape(m), PathEscape(v), suf);
  }

  lemma SpecialChars()
    ensures HexValue('@') == None && HexValue('(') == None && !Unreserved('(')
  {
  }

  lemma ShortRef(a: string, b: string, k: RefKind)
    ensures Short(REFS + (GOMOD + (a + "@" + b)) + Suffix(k)) == GOMOD + (a + "@" + b) + Suffix(k)
    ensures Suffix(k) == "" || Suffix(k)[0] == '('
  {
    var line := GOMOD + (a + "@" + b) + Suffix(k);
    assert REFS + (GOMOD + (a + "@" + b)) + Suffix(k) == REFS + line;
    assert (REFS + line)[..5] == REFS;
  }

  // Every version listed is one that the store could have written.
  lemma LineIsValid(line: string)
    ensures LineVersion(line).Some? ==> ValidMV(LineVersion(line).value)
  {
    hide PathUnescape, Index;
    if LineVersion(line).Some? {
      var c := Cut(CutPrefix(line[..Index(line, '(')], GOMOD).value, '@');
      UnescapedNamesGoBack(PathUnescape(c.before).value, PathUnescape(c.after).value);
    }
  }

  // The lines are refs of stored versions, at least one for each, in any order
  // and number, and lines that name no version.
  ghost predicate RefsOf(lines: seq<string>, stored: set<ModuleVersion>) {
    && (forall mv :: mv in stored ==> ValidMV(mv) && exists k :: HasRef(lines, mv, k))
    && (forall line :: line in lines ==>
          LineVersion(line).None? || exists mv, k :: mv in stored && IsRef(line, mv, k))
  }

  ghost predicate HasRef(lines: seq<string>, mv: ModuleVersion, k: RefKind) {
    exists line :: line in lines && IsRef(line, mv, k)
  }

  predicate IsRef(line: string, mv: ModuleVersion, k: RefKind) {
    RefOf(mv, k).Some? && line == Short(RefOf(mv, k).value)
  }

  // CachedModules then lists exactly the stored versions.
  lemma ListsStored(lines: seq<string>, stored: set<ModuleVersion>, mv: ModuleVersion)
    requires RefsOf(lines, stored)
    ensures Listed(lines, mv) <==> mv in stored
  {
    hide ValidMV, LineVersion, RefOf, Short;
    if mv in stored {
      var k :| HasRef(lines, mv, k);
      var line :| line in lines && IsRef(line, mv, k);
      RefComesBack(mv, k);
      var i :| 0 <= i < |lines| && lines[i] == line;
    }
    if Listed(lines, mv) {
      var i :| 0 <= i < |lines| && LineVersion(lines[i]) == Some(mv);
      assert lines[i] in lines;
      var x, k :| x in stored && IsRef(lines[i], x, k);
      RefComesBack(x, k);
    }
  }

  // ----- URL paths

  const MODMAP_PREFIX := "/api/v1/modmap/"
  const FILE_PREFIX := "/api/v1/file/"
  const META_PREFIX := "/api/v1/meta/"

  datatype PathError = NoPrefix | NoSeparator | Empty | NoExtension | UnknownExtension | BadModule | BadVersion

  datatype Parsed = Parsed(mv: ModuleVersion, ext: string)

  // mvToEscapedPath
  function MvToEscapedPath(mv: ModuleVersion): Option<string> {
    match (EscapePath(mv.mod), EscapeVersion(mv.ver))
    case (Some(m), Some(v)) => Some(m + "/@v/" + v)
    case _ => None
  }

  // The part of parseMVFromPath after the version and extension are split.
  function UnescapeMV(em: string, ev: string, ext: string): Result<Parsed, PathError> {
    match UnescapePath(em)
    case None => Err(BadModule)
    case Some(mod) =>
      match UnescapeVersion(ev)
      case None => Err(BadVersion)
      case Some(ver) => Ok(Parsed(ModuleVersion(mod, ver), ext))
  }

  // parseMVFromPath, for a prefix that is not empty
  function ParseMVFromPath(urlPath: string, prefix: string): Result<Parsed, PathError>
    requires prefix != ""
  {
    if !(prefix <= urlPath) then Err(NoPrefix)
    else
      var c := CutAt(urlPath[|prefix|..], "/@v/");
      if !c.found then Err(NoSeparator)
      else if c.before == "" || c.after == "" then Err(Empty)
      else if prefix == META_PREFIX then
        var lastDot := LastIndex(c.after, '.');
        if lastDot < 0 then Err(NoExtension)
        else
          var ext := c.after[lastDot + 1..];
          if !MetaExt(ext) then Err(UnknownExtension) else UnescapeMV(c.before, c.after[..lastDot], ext)
      else UnescapeMV(c.before, c.after, "")
  }

  // What follows the version: an extension on metadata paths, else nothing.
  function Tail(prefix: string, ext: string): string {
    if prefix == META_PREFIX then "." + ext else ""
  }

  predicate ExtFor(prefix: string, ext: string) {
    if prefix == META_PREFIX then MetaExt(ext) else ext == ""
  }

  function UrlPath(prefix: string, em: string, ev: string, ext: string): string {
    prefix + (em + "/@v/" + (ev + Tail(prefix, ext)))
  }

  lemma UnescapeExact(em: string, ev: string, ext: string, mv: ModuleVersion)
    ensures UnescapeMV(em, ev, ext) == Ok(Parsed(mv, ext)) <==>
            ValidMV(mv) && em == EscapeString(mv.mod) && ev == EscapeString(mv.ver)
  {
    hide CheckPath, CheckVersion, EscapeString, UnescapeString;
    if UnescapeMV(em, ev, ext).Ok? { UnescapedNamesGoBack(em, ev); }
    if ValidMV(mv) { EscapedNamesComeBack(mv); }
  }

  lemma ParsesBack(prefix: string, em: string, ev: string, ext: string)
    requires prefix != "" && '@' !in em && em != "" && ev != "" && ExtFor(prefix, ext)
    ensures ParseMVFromPath(UrlPath(prefix, em, ev, ext), prefix) == UnescapeMV(em, ev, ext)
  {
    hide CutAt, UnescapeMV, LastIndex, MetaExt;
    var after := ev + Tail(prefix, ext);
    var rest := em + "/@v/" + after;
    PrefixCut(prefix, rest);
    CutAtIs(em, after);
    if prefix == META_PREFIX {
      MetaExtIsPlain(ext);
      assert after == ev + ['.'] + ext;
      LastIndexIs(ev, '.', ext);
      assert after[..|ev|] == ev && after[|ev| + 1..] == ext;
    } else {
      assert after == ev;
    }
  }

  lemma ParsedPieces(urlPath: string, prefix: string) returns (em: string, ev: string)
    requires prefix != "" && ParseMVFromPath(urlPath, prefix).Ok?
    ensures var p := ParseMVFromPath(urlPath, prefix).value;
            && urlPath == UrlPath(prefix, em, ev, p.ext) && ExtFor(prefix, p.ext)
            && UnescapeMV(em, ev, p.ext) == Ok(p)
  {
    hide CutAt, LastIndex, MetaExt, UnescapePath, UnescapeVersion;
    var rest := urlPath[|prefix|..];
    var c := CutAt(rest, "/@v/");
    CutAtSound(rest, "/@v/");
    assert urlPath == prefix + rest;
    em := c.before;
    if prefix == META_PREFIX {
      var i := LastIndex(c.after, '.');
      ev := c.after[..i];
      assert c.after == ev + ("." + c.after[i + 1..]) by { DotAt(c.after, i); }
    } else {
      ev := c.after;
      assert c.after == ev + "";
    }
    assert rest == em + "/@v/" + c.after;
  }

  lemma DotAt(s: string, i: int)
    requires i == LastIndex(s, '.') && i >= 0
    ensures s == s[..i] + ("." + s[i + 1..])
  {
  }

  // Which error a path gives, by its form.
  lemma NoSeparatorIn(prefix: string, rest: string)
    requires prefix != "" && '@' !in rest
    ensures ParseMVFromPath(prefix + rest, prefix) == Err(NoSeparator)
  {
    hide CutAt;
    PrefixCut(prefix, rest);
    CutAtNone(rest);
  }

  lemma EmptyPart(prefix: string, em: string, after: string)
    requires prefix != "" && '@' !in em && (em == "" || after == "")
    ensures ParseMVFromPath(prefix + (em + "/@v/" + after), prefix) == Err(Empty)
  {
    hide CutAt;
    PrefixCut(prefix, em + "/@v/" + after);
    CutAtIs(em, after);
  }

  lemma BadExtension(em: string, after: string, ev: string, ext: string)
    requires '@' !in em && em != "" && after != ""
    requires '.' !in after || (after == ev + "." + ext && '.' !in ext && ext !in {"info", "mod", "ziphash"})
    ensures ParseMVFromPath(META_PREFIX + (em + "/@v/" + after), META_PREFIX) ==
            Err(if '.' in after then UnknownExtension else NoExtension)
  {
    hide CutAt, LastIndex, UnescapePath, UnescapeVersion;
    PrefixCut(META_PREFIX, em + "/@v/" + after);
    CutAtIs(em, after);
    if '.' in after {
      assert after == ev + ['.'] + ext;
      LastIndexIs(ev, '.', ext);
      assert after[|ev| + 1..] == ext;
    } else {
      LastIndexNone(after, '.');
    }
  }

  lemma BadName(prefix: string, em: string, ev: string, ext: string)
    requires prefix != "" && '@' !in em && em != "" && ev != "" && ExtFor(prefix, ext)
    requires UnescapePath(em).None? || UnescapeVersion(ev).None?
    ensures ParseMVFromPath(prefix + (em + "/@v/" + (ev + Tail(prefix, ext))), prefix) ==
            Err(if UnescapePath(em).None? then BadModule else BadVersion)
  {
    hide ParseMVFromPath, ExtFor, UnescapePath, UnescapeVersion, Tail;
    ParsesBack(prefix, em, ev, ext);
  }

  // A URL path parses as a version and extension exactly if it is the one
  // printed for them.
  lemma ParseMVIsExact(urlPath: string, prefix: string, mv: ModuleVersion, ext: string)
    requires prefix != ""
    ensures ParseMVFromPath(urlPath, prefix) == Ok(Parsed(mv, ext)) <==>
            MvToEscapedPath(mv).Some? && ExtFor(prefix, ext)
            && urlPath == prefix + (MvToEscapedPath(mv).value + Tail(prefix, ext))
  {
    hide ParseMVFromPath, MvToEscapedPath, ExtFor, Tail, ValidMV;
    PrintsValid(prefix, mv, ext);
    if ParseMVFromPath(urlPath, prefix) == Ok(Parsed(mv, ext)) {
      ParsedIsPrinted(urlPath, prefix, mv, ext);
    } else if ValidMV(mv) && ExtFor(prefix, ext) {
      PrintedParses(prefix, mv, ext);
    }
  }

  // So the paths of the three kinds of requests parse as what they are for.
  lemma RequestPathsParse(mv: ModuleVersion, ext: string)
    requires MvToEscapedPath(mv).Some? && MetaExt(ext)
    ensures var p := MvToEscapedPath(mv).value;
            && ParseMVFromPath("/api/v1/modmap/" + p, MODMAP_PREFIX) == Ok(Parsed(mv, ""))
            && ParseMVFromPath("/api/v1/file/" + p, FILE_PREFIX) == Ok(Parsed(mv, ""))
            && ParseMVFromPath("/api/v1/meta/" + (p + ("." + ext)), META_PREFIX) == Ok(Parsed(mv, ext))
  {
    var p := MvToEscapedPath(mv).value;
    hide ParseMVFromPath, MvToEscapedPath, MetaExt;
    assert p + "" == p;
    PrefixesDiffer();
    ParseMVIsExact(MODMAP_PREFIX + p, MODMAP_PREFIX, mv, "");
    ParseMVIsExact(FILE_PREFIX + p, FILE_PREFIX, mv, "");
    ParseMVIsExact(META_PREFIX + (p + ("." + ext)), META_PREFIX, mv, ext);
  }

  lemma PrefixesDiffer()
    ensures MODMAP_PREFIX != "" && FILE_PREFIX != "" && META_PREFIX != ""
    ensures MODMAP_PREFIX != META_PREFIX && FILE_PREFIX != META_PREFIX
  {
    assert MODMAP_PREFIX[9] == 'o' && META_PREFIX[9] == 'e' && FILE_PREFIX[9] == 'i';
  }

  lemma PrintsValid(prefix: string, mv: ModuleVersion, ext: string)
    ensures MvToEscapedPath(mv).Some? <==> ValidMV(mv)
    ensures ValidMV(mv) ==>
              prefix + (MvToEscapedPath(mv).value + Tail(prefix, ext)) ==
              UrlPath(prefix, EscapeString(mv.mod), EscapeString(mv.ver), ext)
  {
    hide EscapeString, CheckPath, CheckVersion, UrlPath, Tail;
    PathShape(prefix, EscapeString(mv.mod), EscapeString(mv.ver), ext);
  }

  lemma ParsedIsPrinted(urlPath: string, prefix: string, mv: ModuleVersion, ext: string)
    requires prefix != "" && ParseMVFromPath(urlPath, prefix) == Ok(Parsed(mv, ext))
    ensures ValidMV(mv) && ExtFor(prefix, ext)
    ensures urlPath == UrlPath(prefix, EscapeString(mv.mod), EscapeString(mv.ver), ext)
  {
    hide ParseMVFromPath, EscapeString, UrlPath, ExtFor, UnescapeMV, ValidMV;
    var em, ev := ParsedPieces(urlPath, prefix);
    UnescapeExact(em, ev, ext, mv);
  }

  lemma PrintedParses(prefix: string, mv: ModuleVersion, ext: string)
    requires prefix != "" && ValidMV(mv) && ExtFor(prefix, ext)
    ensures ParseMVFromPath(UrlPath(prefix, EscapeString(mv.mod), EscapeString(mv.ver), ext), prefix) ==
            Ok(Parsed(mv, ext))
  {
    var m, v := EscapeString(mv.mod), EscapeString(mv.ver);
    UnescapeExact(m, v, ext, mv);
    hide ParseMVFromPath, EscapeString, CheckPath, CheckVersion, UrlPath, ExtFor, UnescapeMV;
    EscapedNamesComeBack(mv);
    EscapedModuleShape(mv.mod);
    VersionIsPlain(mv.ver);
    ParsesBack(prefix, m, v, ext);
  }

  lemma PathShape(prefix: string, m: string, v: string, ext: string)
    ensures UrlPath(prefix, m, v, ext) == prefix + (m + "/@v/" + v + Tail(prefix, ext))
  {
    hide Tail;
    var t := Tail(prefix, ext);
    assert m + "/@v/" + (v + t) == m + "/@v/" + v + t;
  }
}
