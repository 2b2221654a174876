// READDIR and READDIRPLUS of the NFS server (nfs_onreaddir.go and
// nfs_onreaddirplus.go; sections 3.3.16 and 3.3.17 of RFC 1813): a listing is
// sent in pages, and a client resumes from the last cookie it got.

module DirPaging {
  import opened Wrappers
  import opened Sorting
  import GO = GitObjects
  import MI = ModIndex
  import HS = HandleSpec
  import NH = NfsHandles

  type Ent = MI.Dirent

  // 2 to the 32nd and 2 to the 64th: byte estimates wrap, verifiers fit.
  const W: nat := 0x1_0000_0000
  const W64: nat := 0x1_0000_0000_0000_0000

  // ----- the listing, sorted by name

  function NameOf(e: Ent): string {
    e.name
  }

  // sort.Slice by name
  function SortByName(s: seq<Ent>): seq<Ent> {
    Sort(s, NameOf)
  }

  // Sorting gives the same entries in strictly increasing order of names.
  lemma SortSorts(s: seq<Ent>)
    requires MI.NamesOnce(s)
    ensures Sorted(SortByName(s), NameOf) && multiset(SortByName(s)) == multiset(s)
  {
    hide Sort, Sorted;
    SortKeeps(s, NameOf);
    Sorting.SortSorts(s, NameOf);
  }

  // There is only one such order: it does not depend on the store's.
  lemma SortOfSame(a: seq<Ent>, b: seq<Ent>)
    requires MI.NamesOnce(a) && MI.NamesOnce(b) && multiset(a) == multiset(b)
    ensures SortByName(a) == SortByName(b)
  {
    hide MI.NamesOnce, Sorted;
    SortSorts(a);
    SortSorts(b);
    var x, y := SortByName(a), SortByName(b);
    hide SortByName;
    forall e ensures e in x <==> e in y {
      assert e in x <==> e in multiset(x);
      assert e in y <==> e in multiset(y);
    }
    SortedIsUnique(x, y, NameOf);
  }

  // ----- cookie verifiers

  function PutLE(a: nat, n: nat): (s: seq<nat>)
    ensures |s| == n && forall i :: 0 <= i < n ==> s[i] < 256
  {
    if n == 0 then [] else [a % 256] + PutLE(a / 256, n - 1)
  }

  function GetBE(s: seq<nat>): nat {
    if s == [] then 0 else GetBE(s[..|s| - 1]) * 256 + s[|s| - 1]
  }

  function Reversed(a: nat): nat {
    GetBE(PutLE(a, 8))
  }

  // cookieVerifierEqual: equal, or equal with the bytes in reverse order.
  function CookieVerifierEqual(a: nat, b: nat): bool {
    a == b || Reversed(a) == b
  }

  function Flip(s: seq<nat>): (r: seq<nat>)
    ensures |r| == |s|
  {
    if s == [] then [] else Flip(s[1..]) + [s[0]]
  }

  lemma {:induction false} FlipSnoc(s: seq<nat>, x: nat)
    ensures Flip(s + [x]) == [x] + Flip(s)
  {
    if s != [] {
      assert (s + [x])[1..] == s[1..] + [x];
      FlipSnoc(s[1..], x);
    }
  }

  lemma {:induction false} PutGet(s: seq<nat>)
    requires forall i :: 0 <= i < |s| ==> s[i] < 256
    ensures PutLE(GetBE(s), |s|) == Flip(s)
  {
    if s != [] {
      var t, x := s[..|s| - 1], s[|s| - 1];
      PutGet(t);
      assert s == t + [x];
      FlipSnoc(t, x);
      LastByte(GetBE(t), x);
    }
  }

  lemma LastByte(g: nat, x: nat)
    requires x < 256
    ensures (g * 256 + x) % 256 == x && (g * 256 + x) / 256 == g
  {
  }

  function Pow256(n: nat): (p: nat)
    ensures p > 0
  {
    if n == 0 then 1 else 256 * Pow256(n - 1)
  }

  lemma {:induction false} GetFlipPut(a: nat, n: nat)
    requires a < Pow256(n)
    ensures GetBE(Flip(PutLE(a, n))) == a
  {
    if n > 0 {
      GetFlipPut(a / 256, n - 1);
      var s := PutLE(a, n);
      assert s[1..] == PutLE(a / 256, n - 1);
      assert Flip(s)[..n - 1] == Flip(s[1..]);
    }
  }

  lemma Pow8()
    ensures Pow256(8) == W64
  {
    assert Pow256(4) == 0x1_0000_0000;
  }

  // Reversing the bytes twice changes nothing, so the comparison is symmetric
  // and a client may return the verifier in either byte order.
  lemma ReversedTwice(a: nat)
    requires a < W64
    ensures Reversed(Reversed(a)) == a
  {
    Pow8();
    hide Pow256, PutLE, Flip, GetBE;
    var s := PutLE(a, 8);
    PutGet(s);
    GetFlipPut(a, 8);
  }

  // Byte k of v, the lowest first.
  function Byte(v: nat, k: nat): nat {
    if k == 0 then v % 256 else Byte(v / 256, k - 1)
  }

  // The eight bytes of a are those of b in reverse order.
  ghost predicate Mirrored(a: nat, b: nat) {
    forall k :: 0 <= k < 8 ==> Byte(a, 7 - k) == Byte(b, k)
  }

  // A client's verifier w is taken for the verifier v.
  ghost predicate SameVerifier(v: nat, w: nat) {
    v == w || Mirrored(v, w)
  }

  lemma {:induction false} PutByte(v: nat, n: nat, k: nat)
    requires k < n
    ensures PutLE(v, n)[k] == Byte(v, k)
  {
    if k > 0 { PutByte(v / 256, n - 1, k - 1); }
  }

  lemma {:induction false} FlipAt(s: seq<nat>, k: nat)
    requires k < |s|
    ensures Flip(s)[k] == s[|s| - 1 - k]
  {
    if k < |s| - 1 { FlipAt(s[1..], k); }
  }

  lemma {:induction false} FlipTwice(s: seq<nat>)
    ensures Flip(Flip(s)) == s
  {
    if s != [] {
      FlipTwice(s[1..]);
      FlipSnoc(Flip(s[1..]), s[0]);
    }
  }

  lemma {:induction false} GetBound(s: seq<nat>)
    requires forall i :: 0 <= i < |s| ==> s[i] < 256
    ensures GetBE(s) < Pow256(|s|)
  {
    if s != [] { GetBound(s[..|s| - 1]); }
  }

  // Reversed gives the one number with the bytes in reverse order.
  lemma ReversedIs(a: nat, b: nat)
    requires a < W64 && b < W64
    ensures Reversed(a) == b <==> Mirrored(a, b)
  {
    Pow8();
    hide Pow256, PutLE, Flip, GetBE, Byte;
    var s, t := PutLE(a, 8), PutLE(b, 8);
    PutGet(s);
    forall k | 0 <= k < 8 ensures Flip(s)[k] == Byte(a, 7 - k) && t[k] == Byte(b, k) {
      FlipAt(s, k);
      PutByte(a, 8, 7 - k);
      PutByte(b, 8, k);
    }
    if Mirrored(a, b) {
      assert t == Flip(s);
      FlipTwice(s);
      GetFlipPut(b, 8);
    }
  }

  lemma ReversedMirrors(a: nat)
    requires a < W64
    ensures Reversed(a) < W64 && Mirrored(a, Reversed(a))
  {
    GetBound(PutLE(a, 8));
    Pow8();
    hide Reversed, Mirrored;
    ReversedIs(a, Reversed(a));
  }

  // The comparison accepts a verifier and its mirror image, and no other.
  lemma AcceptsExactly(v: nat, w: nat)
    requires v < W64 && w < W64
    ensures CookieVerifierEqual(v, w) <==> SameVerifier(v, w)
  {
    hide Reversed, Mirrored;
    ReversedIs(v, w);
  }

  // ----- pages

  datatype Entity = Entity(name: string, cookie: nat, next: bool, handle: Option<HS.NfsHandle>)

  datatype Page = Page(verifier: nat, entities: seq<Entity>, eof: bool)

  datatype Status = TooSmall | Stale | Access | NotDir | BadCookie

  // Why the file system does not list a directory.
  datatype ListError = Permission | Other

  // What limits a page: DirCount (READDIRPLUS only), Count or MaxCount, and
  // half the handle limit.
  datatype Budget = Budget(dir: Option<nat>, max: nat, entities: int)

  function NameBytes(c: seq<Ent>): nat {
    if c == [] then 0 else NameBytes(c[..|c| - 1]) + |c[|c| - 1].name| + 20
  }

  // The estimate of a page of n entries.
  function MaxBytes(n: nat): nat {
    (100 + 512 * n) % W
  }

  lemma MaxBytesMore(n: nat)
    ensures MaxBytes(0) == 100 && MaxBytes(n + 1) == (MaxBytes(n) + 512) % W
  {
  }

  // The estimate of n entries from s on, in READDIRPLUS.
  function DirBytes(c: seq<Ent>, s: nat, n: nat): nat
    requires s + n <= |c|
  {
    NameBytes(c[s..s + n]) % W
  }

  lemma DirBytesMore(c: seq<Ent>, s: nat, n: nat)
    requires s + n < |c|
    ensures DirBytes(c, s, 0) == 0
    ensures DirBytes(c, s, n + 1) == (DirBytes(c, s, n) + (|c[s + n].name| + 20) % W) % W
  {
    assert c[s..s + n + 1][..n] == c[s..s + n];
    AddWraps(NameBytes(c[s..s + n]), |c[s + n].name| + 20);
  }

  lemma AddWraps(a: nat, b: nat)
    ensures (a + b) % W == (a % W + b % W) % W
  {
    assert a == a / W * W + a % W && b == b / W * W + b % W;
    var q, x := a / W + b / W, a % W + b % W;
    assert a + b == q * W + x;
    ModPlus(q, x);
  }

  lemma {:induction false} ModPlus(q: nat, x: nat)
    ensures (q * W + x) % W == x % W
  {
    if q > 0 {
      ModPlus(q - 1, x);
      assert q * W + x == ((q - 1) * W + x) + W;
    }
  }

  // The k-th entry of the listing from s on still fits on a page that began
  // with the given number of entities. The estimates are 32 bits wide.
  predicate Fits(b: Budget, c: seq<Ent>, s: nat, first: nat, k: nat)
    requires s + k <= |c| && k > 0
  {
    && MaxBytes(k) <= b.max
    && first + k - 1 <= b.entities
    && (b.dir.Some? ==> DirBytes(c, s, k) <= b.dir.value)
  }

  // Division of Go, which truncates.
  function Half(n: int): (r: int)
    ensures if n >= 0 then 2 * r <= n < 2 * r + 2 else 2 * r - 2 < n <= 2 * r
  {
    if n >= 0 then n / 2 else -(-n / 2)
  }

  // A page with n entries from s on stops where the next one does not fit.
  ghost predicate Cut(b: Budget, c: seq<Ent>, s: nat, first: nat, n: nat) {
    && s + n <= |c|
    && (forall k :: 0 < k <= n ==> Fits(b, c, s, first, k))
    && (s + n < |c| ==> !Fits(b, c, s, first, n + 1))
  }

  // The entry after the one the cookie stands for; none for a cookie that
  // stands for no entry.
  function Start(cookie: nat, len: nat): (s: nat)
    ensures s <= len
  {
    if cookie == 0 then 0 else if 2 <= cookie < len + 2 then cookie - 1 else len
  }

  function Dots(): seq<Entity> {
    [Entity(".", 0, true, None), Entity("..", 1, true, None)]
  }

  function Head(cookie: nat): seq<Entity> {
    if cookie == 0 then Dots() else []
  }

  function EntryAt(c: seq<Ent>, i: nat, dir: Option<seq<string>>): Entity
    requires i < |c|
  {
    Entity(c[i].name, i + 2, true, if dir.Some? then Some(HS.HandleFor(dir.value + [c[i].name])) else None)
  }

  function Entries(c: seq<Ent>, s: nat, n: nat, dir: Option<seq<string>>): (r: seq<Entity>)
    requires s + n <= |c|
    ensures |r| == n
  {
    seq(n, k requires 0 <= k < n => EntryAt(c, s + k, dir))
  }

  // No entry follows the last one.
  function Close(es: seq<Entity>): (r: seq<Entity>)
    ensures |r| == |es|
  {
    if es == [] then [] else es[..|es| - 1] + [es[|es| - 1].(next := false)]
  }

  ghost predicate PageOf(b: Budget, c: seq<Ent>, cookie: nat, dir: Option<seq<string>>, n: nat, p: Page) {
    var s := Start(cookie, |c|);
    && Cut(b, c, s, |Head(cookie)|, n)
    && p.entities == Close(Head(cookie) + Entries(c, s, n, dir))
    && (p.eof <==> s + n == |c|)
  }

  lemma EntriesMore(c: seq<Ent>, s: nat, n: nat, dir: Option<seq<string>>)
    requires s + n < |c|
    ensures Entries(c, s, n + 1, dir) == Entries(c, s, n, dir) + [EntryAt(c, s + n, dir)]
  {
    hide EntryAt;
  }

  // hashPathAndContents, over the digest of a text.
  function Texts(c: seq<Ent>): string {
    if c == [] then "" else c[0].name + Texts(c[1..])
  }

  // Names of the same lengths in the same order are told apart by their text.
  lemma {:induction false} TextsTell(a: seq<Ent>, b: seq<Ent>)
    requires |a| == |b| && forall i :: 0 <= i < |a| ==> |a[i].name| == |b[i].name|
    ensures Texts(a) == Texts(b) <==> forall i :: 0 <= i < |a| ==> a[i].name == b[i].name
  {
    if a != [] {
      TextsTell(a[1..], b[1..]);
      var x, y := a[0].name, b[0].name;
      assert Texts(a)[..|x|] == x && Texts(a)[|x|..] == Texts(a[1..]);
      assert Texts(b)[..|y|] == y && Texts(b)[|y|..] == Texts(b[1..]);
      assert forall i :: 1 <= i < |a| ==> a[i] == a[1..][i - 1] && b[i] == b[1..][i - 1];
    }
  }

  // Two listings have one verifier, unless their digests collide, exactly if
  // their names joined are the same text: of names of the same lengths, exactly
  // if they are the same names.
  lemma VerifierTells(hash: string -> nat, path: string, a: seq<Ent>, b: seq<Ent>)
    requires hash(path + Texts(a)) == hash(path + Texts(b)) ==> path + Texts(a) == path + Texts(b)
    ensures hash(path + Texts(a)) == hash(path + Texts(b)) <==> Texts(a) == Texts(b)
    ensures (|a| == |b| && forall i :: 0 <= i < |a| ==> |a[i].name| == |b[i].name|) ==>
              (hash(path + Texts(a)) == hash(path + Texts(b)) <==> forall i :: 0 <= i < |a| ==> a[i].name == b[i].name)
  {
    hide Texts;
    assert (path + Texts(a))[|path|..] == Texts(a) && (path + Texts(b))[|path|..] == Texts(b);
    if |a| == |b| && forall i :: 0 <= i < |a| ==> |a[i].name| == |b[i].name| { TextsTell(a, b); }
  }

  // A client that resumes with the verifier of an earlier listing a, in either
  // byte order, is served from the listing b exactly if the joined names are the
  // same text, unless digests collide or mirror each other.
  lemma ResumeTells(hash: string -> nat, path: string, a: seq<Ent>, b: seq<Ent>, w: nat)
    requires w < W64 && forall t :: hash(t) < W64
    requires hash(path + Texts(a)) == hash(path + Texts(b)) ==> path + Texts(a) == path + Texts(b)
    requires SameVerifier(hash(path + Texts(a)), w)
    ensures SameVerifier(hash(path + Texts(b)), w) <==>
            Texts(a) == Texts(b) || Mirrored(hash(path + Texts(a)), hash(path + Texts(b)))
  {
    VerifierTells(hash, path, a, b);
    hide Texts, Mirrored, Reversed;
    var x, y := hash(path + Texts(a)), hash(path + Texts(b));
    ReversedIs(x, w);
    ReversedIs(y, w);
    ReversedIs(x, y);
    ReversedTwice(x);
    ReversedTwice(y);
  }

  // Names are joined without a separator: of other names the text may be the
  // same, and a resumed page may be of another listing.
  lemma SameVerifierExample(mode: GO.FileMode)
    ensures var a := [MI.Dirent("a", mode, 0), MI.Dirent("bc", mode, 0)];
            var b := [MI.Dirent("ab", mode, 0), MI.Dirent("c", mode, 0)];
            Texts(a) == Texts(b) && a[0].name != b[0].name
  {
    var a := [MI.Dirent("a", mode, 0), MI.Dirent("bc", mode, 0)];
    var b := [MI.Dirent("ab", mode, 0), MI.Dirent("c", mode, 0)];
    assert a[1..] == [MI.Dirent("bc", mode, 0)] && b[1..] == [MI.Dirent("c", mode, 0)];
    assert a[1..][1..] == [] && b[1..][1..] == [];
    assert Texts(a[1..]) == "bc" + Texts([]) && Texts(b[1..]) == "c" + Texts([]);
    assert Texts(a) == "a" + "bc" && Texts(b) == "ab" + "c";
  }

  method ReadDir(
      dir: Result<seq<string>, HS.Error>, listing: Result<seq<Ent>, ListError>, path: string, hash: string -> nat,
      handleLimit: int, cookie: nat, cookieVerif: nat, count: nat)
    returns (r: Result<Page, Status>, ghost n: nat)
    requires count < W && cookieVerif < W64 && forall t :: hash(t) < W64
    ensures count < 1024 ==> r == Err(TooSmall)
    ensures count >= 1024 && dir.Err? ==> r == Err(Stale)
    ensures count >= 1024 && dir.Ok? && listing.Err? ==>
              r == Err(if listing.error == Permission then Access else NotDir)
    ensures count >= 1024 && dir.Ok? && listing.Ok? ==>
              var c := SortByName(listing.value);
              var v := hash(path + Texts(c));
              if cookie > 0 && cookieVerif > 0 && !SameVerifier(v, cookieVerif) then r == Err(BadCookie)
              else (
                && r.Ok? && r.value.verifier == v
                && PageOf(Budget(None, count, Half(handleLimit)), c, cookie, None, n, r.value))
  {
    hide Texts, Reversed, Mirrored, PageOf, SortByName;
    n := 0;
    if count < 1024 {
      return Err(TooSmall), 0;
    }
    if dir.Err? {
      return Err(Stale), 0;
    }
    if listing.Err? {
      return Err(if listing.error.Permission? then Access else NotDir), 0;
    }
    var contents := SortByName(listing.value);
    var verifier := hash(path + Texts(contents));
    AcceptsExactly(verifier, cookieVerif);
    if cookie > 0 && cookieVerif > 0 && !CookieVerifierEqual(verifier, cookieVerif) {
      return Err(BadCookie), 0;
    }
    var p;
    p, n := FillPage(contents, cookie, count, Half(handleLimit), verifier);
    r := Ok(p);
  }

  // The part of onReadDir that fills the page.
  method FillPage(contents: seq<Ent>, cookie: nat, count: nat, maxEntities: int, verifier: nat)
    returns (p: Page, ghost n: nat)
    ensures PageOf(Budget(None, count, maxEntities), contents, cookie, None, n, p) && p.verifier == verifier
  {
    hide Fits, EntryAt, Running, Cut, Entries, Start, Head, Dots, PageOf, MaxBytes, Close;
    n := 0;
    var entities: seq<Entity> := [];
    var maxBytes := 100;
    var started := cookie == 0;
    if started {
      entities := Dots();
    }
    var eof := true;
    ghost var b := Budget(None, count, maxEntities);
    ghost var s := Start(cookie, |contents|);
    var i := 0;
    RunningStarts(b, contents, cookie, None);
    MaxBytesMore(0);
    while i < |contents|
      invariant 0 <= i <= |contents| && eof
      invariant Running(b, contents, cookie, None, i, started, n, entities)
      invariant maxBytes == MaxBytes(n)
    {
      var ck := i + 2;
      if started {
        MaxBytesMore(n);
        maxBytes := (maxBytes + 512) % W;
        RunningNext(b, contents, cookie, None, i, n, entities);
        FitsIs(b, contents, s, |Head(cookie)|, n + 1, maxBytes, |entities|);
        if maxBytes > count || |entities| > maxEntities {
          eof := false;
          break;
        }
        EntryIs(contents, i, None);
        entities := entities + [Entity(contents[i].name, ck, true, None)];
        n := n + 1;
      } else {
        RunningSkips(b, contents, cookie, None, i, n, entities);
        if ck == cookie {
          started := true;
        }
      }
      i := i + 1;
    }
    RunningEnds(b, contents, cookie, None, i, started, n, entities, verifier);
    if |entities| > 0 {
      entities := entities[|entities| - 1 := entities[|entities| - 1].(next := false)];
    }
    p := Page(verifier, entities, eof);
  }

  // The loop's state before it looks at entry i: n entries taken.
  ghost predicate Running(
      b: Budget, c: seq<Ent>, cookie: nat, dir: Option<seq<string>>, i: nat, started: bool, n: nat, es: seq<Entity>)
  {
    var s := Start(cookie, |c|);
    && i <= |c|
    && (started <==> cookie == 0 || 2 <= cookie < i + 2)
    && (if started then s + n == i else n == 0)
    && s + n <= |c|
    && es == Head(cookie) + Entries(c, s, n, dir)
    && forall k :: 0 < k <= n ==> Fits(b, c, s, |Head(cookie)|, k)
  }

  lemma RunningStarts(b: Budget, c: seq<Ent>, cookie: nat, dir: Option<seq<string>>)
    ensures Running(b, c, cookie, dir, 0, cookie == 0, 0, Head(cookie))
    ensures Head(0) == Dots() && (cookie != 0 ==> Head(cookie) == [])
  {
  }

  // Taking an entry that fits, or finding that it does not.
  lemma RunningNext(b: Budget, c: seq<Ent>, cookie: nat, dir: Option<seq<string>>, i: nat, n: nat, es: seq<Entity>)
    requires Running(b, c, cookie, dir, i, true, n, es) && i < |c|
    ensures var s := Start(cookie, |c|);
            && s + n == i && |es| == |Head(cookie)| + n
            && (Fits(b, c, s, |Head(cookie)|, n + 1) ==>
                  Running(b, c, cookie, dir, i + 1, true, n + 1, es + [EntryAt(c, i, dir)]))
  {
    hide Fits, EntryAt;
    EntriesMore(c, Start(cookie, |c|), n, dir);
    hide Entries;
  }

  lemma RunningSkips(b: Budget, c: seq<Ent>, cookie: nat, dir: Option<seq<string>>, i: nat, n: nat, es: seq<Entity>)
    requires Running(b, c, cookie, dir, i, false, n, es) && i < |c|
    ensures Running(b, c, cookie, dir, i + 1, i + 2 == cookie, n, es)
  {
    hide Fits, EntryAt;
  }

  lemma FitsIs(b: Budget, c: seq<Ent>, s: nat, first: nat, k: nat, maxBytes: nat, len: nat)
    requires s + k <= |c| && k > 0 && b.dir.None?
    requires maxBytes == MaxBytes(k) && len == first + k - 1
    ensures Fits(b, c, s, first, k) <==> maxBytes <= b.max && len <= b.entities
  {
  }

  lemma EntryIs(c: seq<Ent>, i: nat, dir: Option<seq<string>>)
    requires i < |c|
    ensures EntryAt(c, i, dir).name == c[i].name && EntryAt(c, i, dir).cookie == i + 2 && EntryAt(c, i, dir).next
    ensures EntryAt(c, i, dir).handle == if dir.Some? then Some(HS.HandleFor(dir.value + [c[i].name])) else None
  {
  }

  lemma RunningEnds(
      b: Budget, c: seq<Ent>, cookie: nat, dir: Option<seq<string>>, i: nat, started: bool, n: nat, es: seq<Entity>,
      v: nat)
    requires Running(b, c, cookie, dir, i, started, n, es)
    requires i == |c| || (started && !Fits(b, c, Start(cookie, |c|), |Head(cookie)|, n + 1))
    ensures PageOf(b, c, cookie, dir, n, Page(v, Close(es), i == |c|))
    ensures es == [] ==> Close(es) == es
    ensures es != [] ==> Close(es) == es[|es| - 1 := es[|es| - 1].(next := false)]
  {
    hide Fits, Entries;
  }

  // onReadDirPlus, in the directory that the handle stands for
  method ReadDirPlus(
      server: NH.FS, dir: Result<seq<string>, HS.Error>, listing: Result<seq<Ent>, ListError>, path: string,
      hash: string -> nat, handleLimit: int, cookie: nat, cookieVerif: nat, dirCount: nat, maxCount: nat)
    returns (r: Result<Page, Status>, ghost n: nat)
    requires server.Valid() && cookieVerif < W64 && forall t :: hash(t) < W64
    modifies server`table
    ensures server.Valid()
    ensures dirCount < 512 || maxCount < 4096 ==> r == Err(TooSmall)
    ensures dirCount >= 512 && maxCount >= 4096 && dir.Err? ==> r == Err(Stale)
    ensures dirCount >= 512 && maxCount >= 4096 && dir.Ok? && listing.Err? ==>
              r == Err(if listing.error == Permission then Access else NotDir)
    ensures dirCount >= 512 && maxCount >= 4096 && dir.Ok? && listing.Ok? ==>
              var c := SortByName(listing.value);
              var v := hash(path + Texts(c));
              if cookie > 0 && cookieVerif > 0 && !SameVerifier(v, cookieVerif) then r == Err(BadCookie)
              else (
                && r.Ok? && r.value.verifier == v
                && PageOf(Budget(Some(dirCount), maxCount, Half(handleLimit)), c, cookie, Some(dir.value), n, r.value))
  {
    hide Texts, Reversed, Mirrored, PageOf, SortByName;
    n := 0;
    if dirCount < 512 || maxCount < 4096 {
      return Err(TooSmall), 0;
    }
    if dir.Err? {
      return Err(Stale), 0;
    }
    if listing.Err? {
      return Err(if listing.error.Permission? then Access else NotDir), 0;
    }
    var contents := SortByName(listing.value);
    var verifier := hash(path + Texts(contents));
    AcceptsExactly(verifier, cookieVerif);
    if cookie > 0 && cookieVerif > 0 && !CookieVerifierEqual(verifier, cookieVerif) {
      return Err(BadCookie), 0;
    }
    var p;
    p, n := FillPagePlus(server, dir.value, contents, cookie, dirCount, maxCount, Half(handleLimit), verifier);
    r := Ok(p);
  }

  // The part of onReadDirPlus that fills the page.
  method FillPagePlus(
      server: NH.FS, dir: seq<string>, contents: seq<Ent>, cookie: nat, dirCount: nat, maxCount: nat, maxEntities: int,
      verifier: nat)
    returns (p: Page, ghost n: nat)
    requires server.Valid()
    modifies server`table
    ensures server.Valid() && p.verifier == verifier
    ensures PageOf(Budget(Some(dirCount), maxCount, maxEntities), contents, cookie, Some(dir), n, p)
  {
    hide Fits, EntryAt, Running, Cut, Entries, Start, Head;
    hide Dots, PageOf, MaxBytes, DirBytes, Close, HS.HandleFor;
    hide HS.GoodStore, NH.FS.Indexed, NH.EntryOK;
    n := 0;
    var entities: seq<Entity> := [];
    var dirBytes, maxBytes := 0, 100;
    var started := cookie == 0;
    if started {
      entities := Dots();
    }
    var eof := true;
    ghost var b := Budget(Some(dirCount), maxCount, maxEntities);
    ghost var s := Start(cookie, |contents|);
    var i := 0;
    RunningStarts(b, contents, cookie, Some(dir));
    MaxBytesMore(0);
    if s < |contents| { DirBytesMore(contents, s, 0); }
    while i < |contents|
      invariant 0 <= i <= |contents| && eof && server.Valid()
      invariant Running(b, contents, cookie, Some(dir), i, started, n, entities)
      invariant maxBytes == MaxBytes(n) && s + n <= |contents|
      invariant s < |contents| ==> dirBytes == DirBytes(contents, s, n)
    {
      var ck := i + 2;
      if started {
        RunningNext(b, contents, cookie, Some(dir), i, n, entities);
        MaxBytesMore(n);
        DirBytesMore(contents, s, n);
        dirBytes := (dirBytes + (|contents[i].name| + 20) % W) % W;
        maxBytes := (maxBytes + 512) % W;
        FitsPlusIs(b, contents, s, |Head(cookie)|, n + 1, dirBytes, maxBytes, |entities|);
        if dirBytes > dirCount || maxBytes > maxCount || |entities| > maxEntities {
          eof := false;
          break;
        }
        var handle := server.ToHandle(dir + [contents[i].name]);
        EntryIs(contents, i, Some(dir));
        entities := entities + [Entity(contents[i].name, ck, true, Some(handle))];
        n := n + 1;
      } else {
        RunningSkips(b, contents, cookie, Some(dir), i, n, entities);
        if ck == cookie {
          started := true;
        }
      }
      i := i + 1;
    }
    RunningEnds(b, contents, cookie, Some(dir), i, started, n, entities, verifier);
    if |entities| > 0 {
      entities := entities[|entities| - 1 := entities[|entities| - 1].(next := false)];
    }
    p := Page(verifier, entities, eof);
  }

  lemma FitsPlusIs(b: Budget, c: seq<Ent>, s: nat, first: nat, k: nat, dirBytes: nat, maxBytes: nat, len: nat)
    requires s + k <= |c| && k > 0 && b.dir.Some?
    requires maxBytes == MaxBytes(k) && dirBytes == DirBytes(c, s, k) && len == first + k - 1
    ensures Fits(b, c, s, first, k) <==> maxBytes <= b.max && len <= b.entities && dirBytes <= b.dir.value
  {
  }

  // ----- a client that reads a directory to its end

  datatype Item = Item(name: string, handle: Option<HS.NfsHandle>)

  function Items(es: seq<Entity>): seq<Item> {
    seq(|es|, i requires 0 <= i < |es| => Item(es[i].name, es[i].handle))
  }

  const DOTS := [Item(".", None), Item("..", None)]

  function ItemAt(c: seq<Ent>, i: nat, dir: Option<seq<string>>): Item
    requires i < |c|
  {
    Item(c[i].name, EntryAt(c, i, dir).handle)
  }

  // The items of the first n entries.
  function Listed(c: seq<Ent>, n: nat, dir: Option<seq<string>>): seq<Item>
    requires n <= |c|
  {
    seq(n, i requires 0 <= i < n => ItemAt(c, i, dir))
  }

  // Counts that the protocol and the handle limit allow.
  predicate Enough(b: Budget) {
    1024 <= b.max && b.entities >= 2
  }

  // The name of e fits on a page of READDIRPLUS; on one of READDIR any does.
  predicate NameFits(b: Budget, e: Ent) {
    b.dir.Some? ==> (|e.name| + 20) % W <= b.dir.value
  }

  // With such counts, a page has room for a first entry exactly if its name fits.
  lemma FirstFits(b: Budget, c: seq<Ent>, s: nat, first: nat)
    requires Enough(b) && s < |c| && first <= 2
    ensures Fits(b, c, s, first, 1) <==> NameFits(b, c[s])
  {
    DirBytesMore(c, s, 0);
  }

  // A page moves the client on: by at least one entry unless all were sent, and
  // the last cookie stands for the last entry sent.
  lemma PageAdvances(b: Budget, c: seq<Ent>, cookie: nat, dir: Option<seq<string>>, n: nat, p: Page)
    requires PageOf(b, c, cookie, dir, n, p) && Enough(b)
    ensures var s := Start(cookie, |c|);
            && s + n <= |c| && (p.eof <==> s + n == |c|) && (n == 0 <==> s == |c| || !NameFits(b, c[s]))
            && Items(p.entities) == (if cookie == 0 then DOTS else []) + Listed(c, s + n, dir)[s..]
            && (n > 0 ==> p.entities != [] && Start(p.entities[|p.entities| - 1].cookie, |c|) == s + n)
  {
    var s := Start(cookie, |c|);
    if s < |c| { FirstFits(b, c, s, |Head(cookie)|); }
    NoProgress(b, c, cookie, dir, n, p);
    hide Fits, Close, Entries, Items, Listed, Head;
    PageItems(c, cookie, s, n, dir);
    if n > 0 { LastCookie(c, cookie, s, n, dir); }
  }

  lemma PageItems(c: seq<Ent>, cookie: nat, s: nat, n: nat, dir: Option<seq<string>>)
    requires s + n <= |c|
    ensures Items(Close(Head(cookie) + Entries(c, s, n, dir))) ==
            (if cookie == 0 then DOTS else []) + Listed(c, s + n, dir)[s..]
  {
    hide Close, EntryAt;
    ItemsClose(Head(cookie) + Entries(c, s, n, dir));
    ItemsSplit(Head(cookie), Entries(c, s, n, dir));
    assert Items(Head(cookie)) == if cookie == 0 then DOTS else [];
    EntriesItems(c, s, n, dir);
  }

  lemma EntriesItems(c: seq<Ent>, s: nat, n: nat, dir: Option<seq<string>>)
    requires s + n <= |c|
    ensures Items(Entries(c, s, n, dir)) == Listed(c, s + n, dir)[s..]
  {
    hide HS.HandleFor;
  }

  lemma LastCookie(c: seq<Ent>, cookie: nat, s: nat, n: nat, dir: Option<seq<string>>)
    requires s + n <= |c| && n > 0
    ensures var es := Close(Head(cookie) + Entries(c, s, n, dir));
            es != [] && es[|es| - 1].cookie >= 2 && Start(es[|es| - 1].cookie, |c|) == s + n
  {
    hide HS.HandleFor, Close;
    var es := Head(cookie) + Entries(c, s, n, dir);
    ItemsClose(es);
    assert es[|es| - 1] == EntryAt(c, s + n - 1, dir);
  }

  // Without that, a page sends no entry exactly if all were sent or the next one
  // does not fit, ...
  lemma NoProgress(b: Budget, c: seq<Ent>, cookie: nat, dir: Option<seq<string>>, n: nat, p: Page)
    requires PageOf(b, c, cookie, dir, n, p)
    ensures var s := Start(cookie, |c|);
            n == 0 <==> s == |c| || !Fits(b, c, s, |Head(cookie)|, 1)
  {
    hide Fits, Entries;
  }

  // ... and a client that goes on from the cookie of "..", as it must when the
  // first page had no room for an entry, is told that the listing has ended.
  lemma DotDotCookieEndsTheListing(b: Budget, c: seq<Ent>, dir: Option<seq<string>>, n: nat, p: Page)
    requires PageOf(b, c, 1, dir, n, p)
    ensures p.eof && p.entities == []
  {
  }

  lemma ItemsClose(es: seq<Entity>)
    ensures Items(Close(es)) == Items(es)
    ensures es != [] ==> Close(es)[|es| - 1].cookie == es[|es| - 1].cookie
  {
  }

  lemma ItemsSplit(a: seq<Entity>, b: seq<Entity>)
    ensures Items(a + b) == Items(a) + Items(b)
  {
  }

  // What the file system answers to the k-th READDIR: the same entries, in any
  // order.
  ghost predicate Unchanged(listings: nat -> seq<Ent>) {
    forall k :: MI.NamesOnce(listings(k)) && multiset(listings(k)) == multiset(listings(0))
  }

  // A client that goes on from the last cookie, returning the verifier as it
  // got it or with its bytes reversed, gets every entry once, in order.
  method ReadAll(
      listings: nat -> seq<Ent>, path: string, hash: string -> nat, handleLimit: int, count: nat, swap: bool)
    returns (items: seq<Item>)
    requires Unchanged(listings) && 1024 <= count < W && handleLimit >= 4 && forall t :: hash(t) < W64
    ensures var c := SortByName(listings(0));
            && items == DOTS + Listed(c, |c|, None)
            && Sorted(c, NameOf) && multiset(c) == multiset(listings(0))
  {
    hide Fits, SortByName, Texts, Reversed, Mirrored, PageOf, Sorted, MI.NamesOnce, Listed, Items;
    ghost var c := SortByName(listings(0));
    SortSorts(listings(0));
    var cookie: nat, verifier: nat, done, k: nat := 0, 0, false, 0;
    ghost var pos: nat := 0;
    items := [];
    ListedNone(c, None);
    while !done
      invariant pos <= |c| && pos == if done then |c| else Start(cookie, |c|)
      invariant items == (if cookie == 0 && !done then [] else DOTS) + Listed(c, pos, None)
      invariant verifier < W64 && (cookie > 0 && verifier > 0 ==> SameVerifier(hash(path + Texts(c)), verifier))
      decreases |c| - pos, !done
    {
      SortOfSame(listings(k), listings(0));
      var r, n := ReadDir(Ok([]), Ok(listings(k)), path, hash, handleLimit, cookie, verifier, count);
      var page := r.value;
      PageAdvances(Budget(None, count, Half(handleLimit)), c, cookie, None, n, page);
      ListedMore(c, pos, pos + n, None);
      items := items + Items(page.entities);
      pos := pos + n;
      done := page.eof;
      if !done {
        cookie := page.entities[|page.entities| - 1].cookie;
        ReversedMirrors(page.verifier);
        verifier := if swap then Reversed(page.verifier) else page.verifier;
      }
      k := k + 1;
    }
  }

  lemma ListedNone(c: seq<Ent>, dir: Option<seq<string>>)
    ensures Listed(c, 0, dir) == []
  {
  }

  lemma ListedMore(c: seq<Ent>, a: nat, b: nat, dir: Option<seq<string>>)
    requires a <= b <= |c|
    ensures Listed(c, b, dir) == Listed(c, a, dir) + Listed(c, b, dir)[a..]
  {
    hide ItemAt;
  }

  // The first entry whose name does not fit on a page by itself.
  function FirstLong(c: seq<Ent>, max: nat): (j: nat)
    ensures j <= |c|
    ensures forall i :: 0 <= i < j ==> |c[i].name| + 20 <= max
    ensures j < |c| ==> |c[j].name| + 20 > max
  {
    if c == [] || |c[0].name| + 20 > max then 0
    else
      assert forall i :: 1 <= i < |c| ==> c[i] == c[1..][i - 1];
      FirstLong(c[1..], max) + 1
  }

  // How a client's reading ends: the server says so, or sends a page without
  // an entry that is not the last.
  datatype End = Ended | Stuck

  // A client of READDIRPLUS gets every entry before the first one whose name is
  // too long, once and in order. If there is none, those are all of them. If
  // that is the first one, it is told that the listing has ended; if it is a
  // later one, the client is stuck. Only names of gibibytes make the estimates
  // wrap.
  method ReadAllPlus(
      server: NH.FS, dir: seq<string>, listings: nat -> seq<Ent>, path: string, hash: string -> nat, handleLimit: int,
      dirCount: nat, maxCount: nat, swap: bool)
    returns (items: seq<Item>, end: End)
    requires server.Valid() && Unchanged(listings)
    requires 512 <= dirCount < W && 4096 <= maxCount < W && handleLimit >= 4 && forall t :: hash(t) < W64
    requires forall i :: 0 <= i < |listings(0)| ==> |listings(0)[i].name| + 20 <= W / 2
    modifies server`table
    ensures server.Valid()
    ensures var c := SortByName(listings(0));
            var j := FirstLong(c, dirCount);
            && items == DOTS + Listed(c, j, Some(dir)) && (end == Stuck <==> 0 < j < |c|)
            && Sorted(c, NameOf) && multiset(c) == multiset(listings(0))
  {
    hide Fits, SortByName, Texts, Reversed, Mirrored, PageOf, Sorted, MI.NamesOnce, Listed, Items, FirstLong, NameFits;
    hide HS.GoodStore, NH.FS.Indexed, NH.EntryOK;
    ghost var c := SortByName(listings(0));
    ghost var j := FirstLong(c, dirCount);
    ghost var b := Budget(Some(dirCount), maxCount, Half(handleLimit));
    SortSorts(listings(0));
    ShortNames(listings(0), c);
    var cookie: nat, verifier: nat, k: nat := 0, 0, 0;
    ghost var pos: nat := 0;
    items := [];
    ListedNone(c, Some(dir));
    while true
      invariant server.Valid()
      invariant pos <= j && if cookie == 1 then pos == j == 0 && c != [] else pos == Start(cookie, |c|)
      invariant items == (if cookie == 0 then [] else DOTS) + Listed(c, pos, Some(dir))
      invariant verifier < W64 && (cookie > 0 && verifier > 0 ==> SameVerifier(hash(path + Texts(c)), verifier))
      decreases |c| - pos, if cookie == 0 then 1 else 0
    {
      SortOfSame(listings(k), listings(0));
      var r, n := ReadDirPlus(
        server, Ok(dir), Ok(listings(k)), path, hash, handleLimit, cookie, verifier, dirCount, maxCount);
      var page := r.value;
      PageAdvances(b, c, cookie, Some(dir), n, page);
      if cookie == 1 {
        DotDotCookieEndsTheListing(b, c, Some(dir), n, page);
        return items, Ended;
      }
      PageStopsAtLong(b, c, pos, cookie, dirCount, Some(dir), n, page);
      PageCookie(b, c, cookie, Some(dir), n, page);
      ListedMore(c, pos, pos + n, Some(dir));
      items := items + Items(page.entities);
      pos := pos + n;
      if page.eof {
        return items, Ended;
      }
      if page.entities == [] {
        return items, Stuck;
      }
      cookie := page.entities[|page.entities| - 1].cookie;
      ReversedMirrors(page.verifier);
      verifier := if swap then Reversed(page.verifier) else page.verifier;
      k := k + 1;
    }
  }

  // No page reaches past a name that is too long, and one that starts before it
  // moves on.
  lemma PageStopsAtLong(
      b: Budget, c: seq<Ent>, s: nat, cookie: nat, dirCount: nat, dir: Option<seq<string>>, n: nat, p: Page)
    requires PageOf(b, c, cookie, dir, n, p) && Enough(b) && s == Start(cookie, |c|)
    requires b.dir == Some(dirCount) && dirCount < W && s <= FirstLong(c, dirCount)
    requires forall i :: 0 <= i < |c| ==> |c[i].name| + 20 <= W / 2
    ensures s + n <= FirstLong(c, dirCount) && (n == 0 <==> s == FirstLong(c, dirCount))
  {
    var j := FirstLong(c, dirCount);
    PageAdvances(b, c, cookie, dir, n, p);
    hide FirstLong, PageOf, Fits, Items, Listed, NameFits;
    if s < |c| { ShortNameFits(b, c[s], dirCount); }
    if s <= j < s + n {
      PageFits(b, c, cookie, dir, n, p);
      LongDoesNotFit(b, c, s, |Head(cookie)|, j - s, dirCount);
    }
  }

  lemma PageFits(b: Budget, c: seq<Ent>, cookie: nat, dir: Option<seq<string>>, n: nat, p: Page)
    requires PageOf(b, c, cookie, dir, n, p)
    ensures var s := Start(cookie, |c|);
            s + n <= |c| && forall k :: 0 < k <= n ==> Fits(b, c, s, |Head(cookie)|, k)
  {
    hide Fits, Entries;
  }

  // The last cookie of a page, if it has one.
  lemma PageCookie(b: Budget, c: seq<Ent>, cookie: nat, dir: Option<seq<string>>, n: nat, p: Page)
    requires PageOf(b, c, cookie, dir, n, p)
    ensures n > 0 ==> p.entities != [] && p.entities[|p.entities| - 1].cookie >= 2
    ensures n == 0 && cookie == 0 ==> p.entities != [] && p.entities[|p.entities| - 1].cookie == 1
    ensures n == 0 && cookie != 0 ==> p.entities == []
  {
    hide Fits;
    var s := Start(cookie, |c|);
    if n > 0 {
      LastCookie(c, cookie, s, n, dir);
    } else {
      assert Entries(c, s, n, dir) == [];
    }
  }

  lemma ShortNameFits(b: Budget, e: Ent, dirCount: nat)
    requires b.dir == Some(dirCount) && |e.name| + 20 <= W / 2
    ensures NameFits(b, e) <==> |e.name| + 20 <= dirCount
  {
  }

  lemma LongDoesNotFit(b: Budget, c: seq<Ent>, s: nat, first: nat, k: nat, dirCount: nat)
    requires b.dir == Some(dirCount) && s + k < |c| && dirCount < |c[s + k].name| + 20 <= W / 2
    requires k > 0 ==> Fits(b, c, s, first, k)
    ensures !Fits(b, c, s, first, k + 1)
  {
    DirBytesMore(c, s, k);
  }

  // One name of 493 bytes, with the least DirCount that is legal, is too long.
  lemma LongNameExample()
    ensures var c := [MI.Dirent(seq(493, _ => 'a'), GO.FileMode(GO.Regular, 0x1A4), 0)];
            FirstLong(c, 512) == 0 < |c| && MI.NamesOnce(c)
  {
  }

  lemma ShortNames(a: seq<Ent>, c: seq<Ent>)
    requires multiset(c) == multiset(a) && forall i :: 0 <= i < |a| ==> |a[i].name| + 20 <= W / 2
    ensures forall i :: 0 <= i < |c| ==> |c[i].name| + 20 <= W / 2
  {
    forall i | 0 <= i < |c| ensures |c[i].name| + 20 <= W / 2 {
      assert c[i] in multiset(a);
      var j :| 0 <= j < |a| && a[j] == c[i];
    }
  }
}
