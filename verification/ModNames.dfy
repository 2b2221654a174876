// The escaping of module paths and versions that gomodfs takes from
// golang.org/x/mod/module: an upper-case letter is written as "!" and its
// lower-case form. Names are checked before escaping and after unescaping.

module ModNames {
  import opened Wrappers
  import opened Strings
  import opened Paths

  datatype ModuleVersion = ModuleVersion(mod: string, ver: string)

  predicate Upper(c: char) { 'A' <= c <= 'Z' }

  predicate Lower(c: char) { 'a' <= c <= 'z' }

  predicate Digit(c: char) { '0' <= c <= '9' }

  predicate Ascii(c: char) { c as int < 128 }

  function ToLower(c: char): char
    requires Upper(c)
  {
    (c as int + 32) as char
  }

  function ToUpper(c: char): char
    requires Lower(c)
  {
    (c as int - 32) as char
  }

  function EscapeString(s: string): string {
    if s == "" then ""
    else (if Upper(s[0]) then ['!', ToLower(s[0])] else [s[0]]) + EscapeString(s[1..])
  }

  function UnescapeString(e: string): Option<string>
    decreases |e|
  {
    if e == "" then Some("")
    else if !Ascii(e[0]) || Upper(e[0]) then None
    else if e[0] == '!' then
      if |e| < 2 || !Lower(e[1]) then None
      else
        match UnescapeString(e[2..])
        case None => None
        case Some(rest) => Some([ToUpper(e[1])] + rest)
    else
      match UnescapeString(e[1..])
      case None => None
      case Some(rest) => Some([e[0]] + rest)
  }

  // Strings that escaping accepts.
  predicate Plain(s: string) {
    forall i :: 0 <= i < |s| ==> s[i] != '!' && Ascii(s[i])
  }

  lemma {:induction false} UnescapeEscape(s: string)
    requires Plain(s)
    ensures UnescapeString(EscapeString(s)) == Some(s)
  {
    if s != "" {
      UnescapeEscape(s[1..]);
      var e := EscapeString(s);
      if Upper(s[0]) {
        assert e[2..] == EscapeString(s[1..]);
      } else {
        assert e[1..] == EscapeString(s[1..]);
      }
      assert s == [s[0]] + s[1..];
    }
  }

  lemma {:induction false} EscapeUnescape(e: string)
    requires UnescapeString(e).Some?
    ensures EscapeString(UnescapeString(e).value) == e && Plain(UnescapeString(e).value)
    decreases |e|
  {
    if e != "" {
      var s := UnescapeString(e).value;
      if e[0] == '!' {
        EscapeUnescape(e[2..]);
        assert s[1..] == UnescapeString(e[2..]).value;
        assert e == [e[0], e[1]] + e[2..];
      } else {
        EscapeUnescape(e[1..]);
        assert s[1..] == UnescapeString(e[1..]).value;
        assert e == [e[0]] + e[1..];
      }
    }
  }

  lemma {:induction false} EscapeAppend(a: string, b: string)
    ensures EscapeString(a + b) == EscapeString(a) + EscapeString(b)
  {
    if a == "" {
      assert a + b == b;
    } else {
      assert (a + b)[1..] == a[1..] + b;
      EscapeAppend(a[1..], b);
    }
  }

  // A character that escaping neither makes nor removes.
  lemma {:induction false} EscapeKeepsOut(s: string, c: char)
    requires c !in s && c != '!' && !Lower(c)
    ensures c !in EscapeString(s)
  {
    if s != "" {
      assert s[0] in s && forall x :: x in s[1..] ==> x in s;
      EscapeKeepsOut(s[1..], c);
    }
  }

  // The first character of an escaped string.
  lemma EscapeFirst(s: string)
    requires s != ""
    ensures EscapeString(s) != ""
    ensures EscapeString(s)[0] == if Upper(s[0]) then '!' else s[0]
  {
  }

  // ----- the checks

  predicate ModCharOK(c: char) {
    c in "-._~" || Digit(c) || Upper(c) || Lower(c)
  }

  predicate FirstCharOK(c: char) {
    c in "-." || Digit(c) || Lower(c)
  }

  predicate FileCharOK(c: char) {
    c in "!#$%&()+,-.=@[]^_{}~ " || Digit(c) || Upper(c) || Lower(c)
  }

  predicate ModElem(e: string) {
    e != "" && e[0] != '.' && e[|e| - 1] != '.' && forall i :: 0 <= i < |e| ==> ModCharOK(e[i])
  }

  predicate ModElems(p: string)
    decreases |p|
  {
    var c := Cut(p, '/');
    ModElem(c.before) && (c.found ==> ModElems(c.after))
  }

  // module.CheckPath
  predicate CheckPath(p: string) {
    && ModElems(p)
    && p != "" && p[0] != '-'
    && var first := Cut(p, '/').before;
       '.' in first && forall i :: 0 <= i < |first| ==> FirstCharOK(first[i])
  }

  // A version as EscapeVersion and UnescapeVersion accept it.
  predicate CheckVersion(v: string) {
    && v != "" && v[|v| - 1] != '.'
    && (forall i :: 0 <= i < |v| ==> FileCharOK(v[i]))
  }

  function EscapePath(p: string): Option<string> {
    if CheckPath(p) then Some(EscapeString(p)) else None
  }

  function EscapeVersion(v: string): Option<string> {
    if CheckVersion(v) && '!' !in v then Some(EscapeString(v)) else None
  }

  function UnescapePath(e: string): Option<string> {
    match UnescapeString(e)
    case None => None
    case Some(p) => if CheckPath(p) then Some(p) else None
  }

  function UnescapeVersion(e: string): Option<string> {
    match UnescapeString(e)
    case None => None
    case Some(v) => if CheckVersion(v) then Some(v) else None
  }

  predicate ValidMV(mv: ModuleVersion) {
    EscapePath(mv.mod).Some? && EscapeVersion(mv.ver).Some?
  }

  lemma {:induction false} ModElemsArePlain(p: string)
    requires ModElems(p)
    ensures Plain(p) && '@' !in p && '\0' !in p && CleanPath(p)
    decreases |p|
  {
    var c := Cut(p, '/');
    forall i | 0 <= i < |c.before|
      ensures c.before[i] != '!' && c.before[i] != '@' && c.before[i] != '\0' && Ascii(c.before[i])
    {
      assert ModCharOK(c.before[i]);
    }
    if c.found { ModElemsArePlain(c.after); }
  }

  lemma FileChar(c: char)
    requires FileCharOK(c)
    ensures c != '/' && Ascii(c)
  {
  }

  lemma VersionIsPlain(v: string)
    requires EscapeVersion(v).Some?
    ensures Plain(v) && '/' !in v && '/' !in EscapeString(v) && EscapeString(v) != ""
  {
    forall i | 0 <= i < |v| ensures v[i] != '!' && v[i] != '/' && Ascii(v[i]) {
      FileChar(v[i]);
      assert v[i] in v;
    }
    hide EscapeString;
    EscapeKeepsOut(v, '/');
    EscapeFirst(v);
  }

  // Escaping and unescaping are inverse, with the checks of both sides.
  lemma EscapedNamesComeBack(mv: ModuleVersion)
    requires ValidMV(mv)
    ensures UnescapePath(EscapePath(mv.mod).value) == Some(mv.mod)
    ensures UnescapeVersion(EscapeVersion(mv.ver).value) == Some(mv.ver)
    ensures '@' !in EscapeString(mv.mod) && '/' !in EscapeString(mv.ver) && '\0' !in mv.mod
  {
    ModElemsArePlain(mv.mod);
    VersionIsPlain(mv.ver);
    UnescapeEscape(mv.mod);
    UnescapeEscape(mv.ver);
    EscapeKeepsOut(mv.mod, '@');
  }

  lemma UnescapedNamesGoBack(em: string, ev: string)
    requires UnescapePath(em).Some? && UnescapeVersion(ev).Some?
    ensures ValidMV(ModuleVersion(UnescapePath(em).value, UnescapeVersion(ev).value))
    ensures EscapePath(UnescapePath(em).value) == Some(em)
    ensures EscapeVersion(UnescapeVersion(ev).value) == Some(ev)
  {
    EscapeUnescape(em);
    EscapeUnescape(ev);
  }
}
