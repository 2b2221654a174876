// Which module paths and versions have a path under the mount, letter by letter,
// and that the paths written for them, and no others, parse as them.

module AllowedNames {
  import opened Wrappers
  import opened Strings
  import opened Paths
  import opened ModNames
  import opened GmPaths

  predicate ElemChar(c: char) {
    'A' <= c <= 'Z' || 'a' <= c <= 'z' || '0' <= c <= '9' || c in "-._~"
  }

  predicate FirstChar(c: char) {
    'a' <= c <= 'z' || '0' <= c <= '9' || c == '-' || c == '.'
  }

  predicate ElemAllowed(e: string) {
    e != "" && e[0] != '.' && e[|e| - 1] != '.' && forall i :: 0 <= i < |e| ==> ElemChar(e[i])
  }

  // The first element has a dot, no upper-case letter, '_' or '~', and no dash in
  // front.
  predicate FirstAllowed(e: string) {
    e != "" && e[0] != '-' && '.' in e && forall i :: 0 <= i < |e| ==> FirstChar(e[i])
  }

  // p is elems with slashes between them.
  ghost predicate MadeOf(p: string, elems: seq<string>) {
    && elems != [] && p == JoinSegs(elems) && FirstAllowed(elems[0])
    && forall i :: 0 <= i < |elems| ==> ElemAllowed(elems[i])
  }

  ghost predicate ModuleAllowed(p: string) {
    exists elems :: MadeOf(p, elems)
  }

  predicate VersionChar(c: char) {
    'A' <= c <= 'Z' || 'a' <= c <= 'z' || '0' <= c <= '9' || c in "-._+~#$%&(),=@[]^{} "
  }

  // Letters, digits and these marks, not ending in a dot.
  ghost predicate VersionAllowed(v: string) {
    v != "" && v[|v| - 1] != '.' && forall i :: 0 <= i < |v| ==> VersionChar(v[i])
  }

  // ----- the checks allow exactly these

  lemma ElemIsAllowed(e: string)
    requires '/' !in e
    ensures ModElem(e) <==> ElemAllowed(e)
  {
  }

  lemma AllowedHasNoSlash(e: string)
    requires ElemAllowed(e)
    ensures '/' !in e
  {
  }

  lemma FirstIsAllowed(e: string)
    requires e != ""
    ensures FirstAllowed(e) <==> e[0] != '-' && '.' in e && forall i :: 0 <= i < |e| ==> FirstCharOK(e[i])
  {
    forall i | 0 <= i < |e| ensures FirstChar(e[i]) <==> FirstCharOK(e[i]) {}
    hide FirstChar, FirstCharOK;
  }

  lemma {:induction false} SplitAllowed(p: string)
    requires ModElems(p)
    ensures forall i :: 0 <= i < |Split(p)| ==> ElemAllowed(Split(p)[i])
    decreases |p|
  {
    hide ModElem, ElemAllowed;
    var c := Cut(p, '/');
    ElemIsAllowed(c.before);
    if c.found {
      SplitAllowed(c.after);
      assert Split(p) == [c.before] + Split(c.after);
    }
  }

  lemma {:induction false} JoinAllowed(elems: seq<string>)
    requires elems != [] && forall i :: 0 <= i < |elems| ==> ElemAllowed(elems[i])
    ensures ModElems(JoinSegs(elems)) && Cut(JoinSegs(elems), '/').before == elems[0]
  {
    hide ModElem, ElemAllowed, Cut;
    var e := elems[0];
    AllowedHasNoSlash(e);
    ElemIsAllowed(e);
    if |elems| == 1 {
      CutNothing(e, '/');
    } else {
      JoinAllowed(elems[1..]);
      assert JoinSegs(elems) == e + ['/'] + JoinSegs(elems[1..]);
      CutIsUnique(e, '/', JoinSegs(elems[1..]));
    }
  }

  // A module path can be written exactly if it is made of allowed elements.
  lemma ModulesAreAllowed(p: string)
    ensures EscapePath(p).Some? <==> ModuleAllowed(p)
  {
    hide ModElems, ElemAllowed, FirstAllowed, FirstCharOK, Cut, EscapeString, JoinSegs;
    if CheckPath(p) {
      SplitAllowed(p);
      FirstSame(p);
      JoinSplit(p);
      assert MadeOf(p, Split(p));
    }
    if elems :| MadeOf(p, elems) {
      JoinAllowed(elems);
      FirstSame(p);
      ElemsNotEmpty(p);
    }
  }

  lemma FirstSame(p: string)
    requires ModElems(p)
    ensures var first := Cut(p, '/').before;
            && first != "" && Split(p)[0] == first && p[0] == first[0]
            && (FirstAllowed(first) <==>
                p[0] != '-' && '.' in first && forall i :: 0 <= i < |first| ==> FirstCharOK(first[i]))
  {
    FirstIsAllowed(Cut(p, '/').before);
    hide FirstAllowed, FirstCharOK;
  }

  lemma ElemsNotEmpty(p: string)
    requires ModElems(p)
    ensures p != ""
  {
  }

  // A version can be written exactly if it is of allowed characters.
  lemma VersionsAreAllowed(v: string)
    ensures EscapeVersion(v).Some? <==> VersionAllowed(v)
  {
    hide FileCharOK, VersionChar, EscapeString;
    forall i | 0 <= i < |v| ensures FileCharOK(v[i]) && v[i] != '!' <==> VersionChar(v[i]) {
      VersionCharsAllowed(v[i]);
    }
  }

  lemma VersionCharsAllowed(c: char)
    ensures FileCharOK(c) && c != '!' <==> VersionChar(c)
  {
  }

  // ----- the paths of these names

  // em and ev are what is written in paths for the module m and its version v.
  ghost predicate Written(m: string, v: string, em: string, ev: string) {
    ModuleAllowed(m) && VersionAllowed(v) && em == EscapeString(m) && ev == EscapeString(v)
  }

  lemma WrittenReads(m: string, v: string, em: string, ev: string)
    ensures Written(m, v, em, ev) <==> ParseModVersion(em, ev) == (ModuleVersion(m, v), true)
  {
    hide ModuleAllowed, VersionAllowed, CheckPath, CheckVersion, EscapeString, UnescapeString;
    ModulesAreAllowed(m);
    VersionsAreAllowed(v);
    if ValidMV(ModuleVersion(m, v)) { EscapedNamesComeBack(ModuleVersion(m, v)); }
    if UnescapePath(em).Some? && UnescapeVersion(ev).Some? { UnescapedNamesGoBack(em, ev); }
  }

  lemma WrittenParts(m: string, v: string, em: string, ev: string)
    requires Written(m, v, em, ev)
    ensures v != "" && ev != "" && '/' !in ev && (ev[0] == '.' <==> v[0] == '.')
  {
    hide ModuleAllowed, EscapeString;
    VersionsAreAllowed(v);
    VersionIsPlain(v);
    EscapeFirst(v);
  }

  function MetaPath(em: string, ev: string, ext: string): string {
    "cache/download/" + (em + "/@v/" + ev + "." + ext)
  }

  // The path of a metadata file exists for exactly the allowed names, except
  // that a version with a dot in front makes it a dot file, and is taken for
  // the file of the names that are written in it.
  lemma MetaPathParses(em: string, ev: string, ext: string)
    requires '@' !in em && MetaExt(ext)
    ensures var r := ParsePath(MetaPath(em, ev, ext));
            && (!r.notExist <==> exists m, v :: Written(m, v, em, ev) && v[0] != '.')
            && (forall m, v :: Written(m, v, em, ev) && v[0] != '.' ==>
                  r == PLAIN.(ext := ext, mv := ModuleVersion(m, v)))
  {
    hide Written, ParsePath, ParseModVersion, DotFile, MetaExt, ParseDownload;
    ParsePathDownload(em + "/@v/" + ev + "." + ext);
    ParseMeta(em, ev, ext);
    var (mv, ok) := ParseModVersion(em, ev);
    forall m, v ensures Written(m, v, em, ev) <==> mv == ModuleVersion(m, v) && ok { WrittenReads(m, v, em, ev); }
    if ok {
      WrittenParts(mv.mod, mv.ver, em, ev);
      MetaPathIsDotFile(em, ev, ext);
    }
  }

  lemma ParseMeta(em: string, ev: string, ext: string)
    requires '@' !in em && MetaExt(ext)
    ensures var (mv, ok) := ParseModVersion(em, ev);
            ParseDownload(em + "/@v/" + ev + "." + ext) == PLAIN.(notExist := !ok, ext := ext, mv := mv)
  {
    hide ParseModVersion, Ext, CutAt, MetaExt;
    MetaExtIsPlain(ext);
    var tail := ev + "." + ext;
    assert em + "/@v/" + ev + "." + ext == em + "/@v/" + tail;
    CutAtIs(em, tail);
    ExtIs(ev, ext);
    assert tail[..|tail| - |"." + ext|] == ev;
  }

  lemma MetaPathIsDotFile(em: string, ev: string, ext: string)
    requires ev != "" && '/' !in ev && MetaExt(ext)
    ensures DotFile(MetaPath(em, ev, ext)) <==> ev[0] == '.'
  {
    hide Base;
    MetaExtIsPlain(ext);
    CdShape(em, ev, ext);
    var n := ev + "." + ext;
    BaseIs("cache/download/" + em + "/@v", n);
    assert n[0] == ev[0];
  }

  function InModule(em: string, ev: string, p: string): string {
    em + ['@'] + if p == "" then ev else ev + ['/'] + p
  }

  // So does every path in a module's zip, outside the two special directories,
  // with a slash at its end or not.
  lemma ZipPathParses(em: string, ev: string, p: string, end: string)
    requires '@' !in em && '/' !in ev && InnerPath(p) && (end == "" || end == "/")
    requires !("tsgo-" <= em) && !("cache/download/" <= em)
    ensures var r := ParsePath(InModule(em, ev, p) + end);
            && (!r.notExist <==> exists m, v :: Written(m, v, em, ev))
            && (forall m, v :: Written(m, v, em, ev) ==> r == Zip(ModuleVersion(m, v), p))
  {
    hide Written, ParseModVersion, InnerPath;
    var name := InModule(em, ev, p) + end;
    var rest := (if p == "" then ev else ev + ['/'] + p) + end;
    assert name == em + ['@'] + rest;
    assert name[|em|] == '@';
    StatusHasNoAt(name, |em|);
    OutsideSpecial(em, name);
    CutIsUnique(em, '@', rest);
    InnerOf(ev, p, end, rest);
    hide Cut, TrimSlash;
    var (mv, ok) := ParseModVersion(em, ev);
    forall m, v ensures Written(m, v, em, ev) <==> mv == ModuleVersion(m, v) && ok { WrittenReads(m, v, em, ev); }
  }

  lemma InnerOf(ev: string, p: string, end: string, rest: string)
    requires '/' !in ev && InnerPath(p) && (end == "" || end == "/")
    requires rest == (if p == "" then ev else ev + ['/'] + p) + end
    ensures Cut(rest, '/').before == ev && TrimSlash(Cut(rest, '/').after) == p
  {
    TrimClean(p);
    hide InnerPath;
    if p == "" && end == "" {
      CutNothing(ev, '/');
    } else {
      var after := if p == "" then "" else p + end;
      assert rest == ev + ['/'] + after;
      CutIsUnique(ev, '/', after);
      assert (p + "/")[..|p|] == p;
    }
  }

  lemma OutsideSpecial(em: string, name: string)
    requires em <= name && |em| < |name| && name[|em|] == '@'
    requires !("tsgo-" <= em) && !("cache/download/" <= em)
    ensures !("tsgo-" <= name) && !("cache/download/" <= name)
  {
    if "tsgo-" <= name { NoTsgoPrefix(em, name); }
    if "cache/download/" <= name { NoDownloadPrefix(em, name); }
  }

  lemma NoDownloadPrefix(em: string, name: string)
    requires em <= name && |em| < |name| && name[|em|] == '@' && "cache/download/" <= name
    ensures "cache/download/" <= em
  {
    if |em| >= 15 { assert em[..15] == name[..15]; }
  }

  // A module with upper-case letters, by its metadata path.
  lemma UpperCaseExample()
    ensures ParsePath("cache/download/" + "github.com/!burnt!sushi/toml" + "/@v/v1.4.0.info") ==
            PLAIN.(ext := "info", mv := ModuleVersion("github.com/BurntSushi/toml", "v1.4.0"))
  {
    hide ParsePath, ModuleAllowed, VersionAllowed, EscapeString;
    var m, em := "github.com/BurntSushi/toml", "github.com/!burnt!sushi/toml";
    UpperCaseAllowed();
    UpperCaseWritten();
    VersionWritten();
    assert Written(m, "v1.4.0", em, "v1.4.0");
    NoAt();
    MetaPathParses(em, "v1.4.0", "info");
    TailOfPath(em);
  }

  lemma NoAt()
    ensures '@' !in "github.com/!burnt!sushi/toml" && MetaExt("info") && "v1.4.0"[0] == 'v'
  {
  }

  lemma TailOfPath(em: string)
    ensures MetaPath(em, "v1.4.0", "info") == "cache/download/" + em + "/@v/v1.4.0.info"
  {
    assert "/@v/" + "v1.4.0" + "." + "info" == "/@v/v1.4.0.info";
    assert em + "/@v/" + "v1.4.0" + "." + "info" == em + ("/@v/" + "v1.4.0" + "." + "info");
  }

  lemma UpperCaseAllowed()
    ensures ModuleAllowed("github.com/BurntSushi/toml")
  {
    var a, b, c := "github.com", "BurntSushi", "toml";
    var elems := [a, b, c];
    assert ElemAllowed(a) && ElemAllowed(b) && ElemAllowed(c) && FirstAllowed(a);
    hide ElemAllowed, FirstAllowed;
    assert elems[1..] == [b, c] && elems[1..][1..] == [c];
    assert JoinSegs([c]) == c && JoinSegs([b, c]) == b + "/" + c;
    assert JoinSegs(elems) == a + "/" + JoinSegs([b, c]) == a + "/" + (b + "/" + c);
    assert a + "/" + (b + "/" + c) == "github.com/BurntSushi/toml";
    assert MadeOf("github.com/BurntSushi/toml", elems);
  }

  lemma UpperCaseWritten()
    ensures EscapeString("github.com/BurntSushi/toml") == "github.com/!burnt!sushi/toml"
  {
    hide EscapeString;
    var a, b, c := "github.com/", "Burnt", "Sushi/toml";
    assert "github.com/BurntSushi/toml" == a + (b + c);
    EscapeAppend(a, b + c);
    EscapeAppend(b, c);
    NoUpper(a);
    OneUpper('B', "urnt");
    OneUpper('S', "ushi/toml");
    assert b == ['B'] + "urnt" && c == ['S'] + "ushi/toml";
    assert ToLower('B') == 'b' && ToLower('S') == 's';
    UpperCaseJoined();
  }

  lemma UpperCaseJoined()
    ensures "github.com/" + (['!', 'b'] + "urnt" + (['!', 's'] + "ushi/toml")) == "github.com/!burnt!sushi/toml"
  {
  }

  lemma VersionWritten()
    ensures VersionAllowed("v1.4.0") && EscapeString("v1.4.0") == "v1.4.0"
  {
    NoUpper("v1.4.0");
  }

  lemma {:induction false} NoUpper(s: string)
    requires forall i :: 0 <= i < |s| ==> !Upper(s[i])
    ensures EscapeString(s) == s
  {
    if s != "" {
      NoUpper(s[1..]);
      assert s == [s[0]] + s[1..];
    }
  }

  lemma OneUpper(c: char, s: string)
    requires Upper(c) && forall i :: 0 <= i < |s| ==> !Upper(s[i])
    ensures EscapeString([c] + s) == ['!', ToLower(c)] + s
  {
    NoUpper(s);
    assert ([c] + s)[1..] == s;
  }
}
