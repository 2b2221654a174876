// Runs of a server whose requests are handled by many goroutines: every
// critical section of ToHandle and fromHandle (nfs.go 294-472), and of what
// adds to the store, is one step, and the steps come in any order.

module HandleRuns {
  import opened Wrappers
  import opened Strings
  import opened Paths
  import opened ModNames
  import opened GmPaths
  import opened GmSources
  import opened HandleSpec
  import opened HandleRestart
  import opened DirIndex
  import opened NfsHandles

  // How far a fromHandle has got that did not find its handle in the table.
  datatype Flight =
    | Missed(h: NfsHandle)
    | InModule(h: NfsHandle, mv: ModuleVersion)
    | Found(h: NfsHandle, path: string)

  ghost predicate FlightOK(f: Flight) {
    match f
    case Missed(h) => h.Handle?
    case InModule(h, mv) => h.Handle? && ValidMV(mv) && HashMV(mv) == h.mv
    case Found(h, p) => Printed(h, p)
  }

  type Flights = map<nat, Flight>

  ghost predicate FlightsOK(fl: Flights) {
    forall id :: id in fl ==> FlightOK(fl[id])
  }

  // One critical section, or one reading of the store. From starts the
  // goroutine id; the next three steps carry it on.
  datatype Step =
    | To(segs: seq<string>)
    | From(id: nat, h: NfsHandle)
    | Consult(id: nat)
    | Search(id: nat)
    | Remember(id: nat)
    | Fill(mv: ModuleVersion, root: MI.Handle)
    | Cache(mv: ModuleVersion, root: MI.Handle)
    | Meta(mv: ModuleVersion)

  ghost predicate GoodStep(q: Step) {
    match q
    case Fill(mv, root) => ValidMV(mv) && GoodRoot(root)
    case Cache(mv, _) => ValidMV(mv)
    case Meta(mv) => ValidMV(mv)
    case _ => true
  }

  datatype Reply = Reply(h: NfsHandle, target: Result<Target, Error>)

  // The target answers handle h, which a recovery has filed or has not.
  ghost predicate AnswerOK(h: NfsHandle, t: Target, recovered: bool) {
    if h == NotExistHandle then t == NO_FILE && !recovered
    else if h == ROOT then t == Target("", []) && !recovered
    else if h == STATUS then t == TargetOf(STATUS_FILE) && !recovered
    else EntryOK(h, t, recovered)
  }

  ghost predicate ReplyOK(r: Reply, remembered: set<NfsHandle>) {
    r.target.Ok? ==> AnswerOK(r.h, r.target.value, r.h in remembered)
  }

  // The start of FromHandle, up to the lookup in the table.
  method Begin(fs: FS, flights: Flights, id: nat, h: NfsHandle) returns (after: Flights, reply: Option<Reply>)
    requires fs.Valid() && FlightsOK(flights)
    ensures FlightsOK(after) && (reply.Some? ==> reply.value.h == h && ReplyOK(reply.value, fs.remembered))
    ensures h in {NotExistHandle, ROOT, STATUS} || h in fs.table ==> reply.Some? && reply.value.target.Ok?
    ensures h in fs.table ==> reply == Some(Reply(h, Ok(fs.table[h])))
    ensures h.Handle? && h !in {ROOT, STATUS} && h !in fs.table ==> reply == None
    ensures reply == None ==> h.Handle? && after == flights[id := Missed(h)]
  {
    hide EntryOK, GoodStore, ValidMV, HashMV, Printed, TargetOf;
    after, reply := flights, None;
    if h == NotExistHandle {
      reply := Some(Reply(h, Ok(NO_FILE)));
    } else if h == BadLength {
      reply := Some(Reply(h, Err(Invalid)));
    } else if h == ROOT {
      reply := Some(Reply(h, Ok(Target("", []))));
    } else if h == STATUS {
      reply := Some(Reply(h, Ok(TargetOf(STATUS_FILE))));
    } else if h in fs.table {
      reply := Some(Reply(h, Ok(fs.table[h])));
    } else {
      after := flights[id := Missed(h)];
    }
    SpecialsAreNoEntries(fs, h);
  }

  lemma SpecialsAreNoEntries(fs: FS, h: NfsHandle)
    requires fs.Valid()
    ensures h in {NotExistHandle, BadLength, ROOT, STATUS} ==> h !in fs.table && h !in fs.remembered
  {
    hide GoodStore, Printed, PathHandle, JoinSegs;
  }

  // The part of fromHandle that needs the indexes.
  method Continue(fs: FS, flights: Flights, id: nat) returns (after: Flights, reply: Option<Reply>)
    requires fs.Valid() && FlightsOK(flights) && id in flights && flights[id].Missed?
    modifies fs`modVerHash, fs`pathHashTarget, fs`known
    ensures fs.Valid() && fs.known == old(fs.KnownAfter()) && fs.modVerHash.Some? && FlightsOK(after)
    ensures reply.Some? ==> reply.value.target.Err?
    ensures var h := flights[id].h;
            after == if h.mv == ZeroHash && h.path.Sha? && h.path.text in KnownDirs(fs.known)
                     then flights[id := Found(h, h.path.text)]
                     else if h.mv != ZeroHash && MvFor(fs.known, h.mv).Some?
                     then flights[id := InModule(h, MvFor(fs.known, h.mv).value)]
                     else flights - {id}
  {
    hide EntryOK, GoodStore, FS.Indexed, ValidMV, HashMV, Printed, KnownDirs, MvFor;
    var h := flights[id].h;
    after, reply := flights - {id}, None;
    if h.mv == ZeroHash {
      var d := fs.FindDir(h.path);
      if d.Err? {
        reply := Some(Reply(h, Err(d.error)));
      } else {
        DirIsPrinted(fs, h);
        after := flights[id := Found(h, d.value)];
      }
    } else {
      var mv := fs.FindModule(h.mv);
      if mv.None? {
        reply := Some(Reply(h, Err(Stale)));
      } else {
        MvForValid(fs.known, h.mv, fs);
        after := flights[id := InModule(h, mv.value)];
      }
    }
  }

  lemma DirIsPrinted(fs: FS, h: NfsHandle)
    requires fs.Valid() && h.Handle? && h.mv == ZeroHash && h.path.Sha? && h.path.text in KnownDirs(fs.known)
    ensures Printed(h, h.path.text)
  {
    hide GoodStore, EntryOK, KnownDirs, Printed, MvFor, RecoverIn;
    KnownSound(fs);
    RecoveredIsPrinted(fs.known, fs.store.roots, h);
  }

  // The part that reads the store: the zip root and the walk through it.
  method Look(fs: FS, flights: Flights, id: nat) returns (after: Flights, reply: Option<Reply>)
    requires fs.Valid() && FlightsOK(flights) && id in flights && flights[id].InModule?
    ensures FlightsOK(after) && (reply.Some? ==> reply.value.target.Err?)
    ensures var f := flights[id];
            var p := RecoverIn(f.mv, fs.store.roots, f.h.path);
            after == if p.Ok? then flights[id := Found(f.h, p.value)] else flights - {id}
  {
    hide EntryOK, GoodStore, FS.Indexed, ValidMV, HashMV, Printed, RecoverIn;
    var f := flights[id];
    after, reply := flights - {id}, None;
    var p := fs.RecoverInModule(f.mv, f.h.path);
    if p.Err? {
      reply := Some(Reply(f.h, Err(p.error)));
    } else {
      SearchIsPrinted(fs, f.mv, f.h);
      after := flights[id := Found(f.h, p.value)];
    }
  }

  lemma SearchIsPrinted(fs: FS, mv: ModuleVersion, h: NfsHandle)
    requires fs.Valid() && h.Handle? && ValidMV(mv) && HashMV(mv) == h.mv && RecoverIn(mv, fs.store.roots, h.path).Ok?
    ensures Printed(h, RecoverIn(mv, fs.store.roots, h.path).value)
  {
    hide EntryOK, ValidMV, RecoverIn, Printed, HashMV, KnownDirs, GoodRoot;
    MvForIs({mv}, mv);
    HashMVIsSha(mv);
    RecoveredIsPrinted({mv}, fs.store.roots, h);
  }

  // One step of the server. A step that its goroutine is not up to does nothing.
  method Serve(fs: FS, flights: Flights, q: Step) returns (after: Flights, reply: Option<Reply>)
    requires fs.Valid() && FlightsOK(flights) && GoodStep(q)
    modifies fs
    ensures fs.Valid() && FlightsOK(after)
    ensures old(fs.table).Keys <= fs.table.Keys && old(fs.remembered) <= fs.remembered
    ensures old(fs.KnownAfter()) <= fs.KnownAfter()
    ensures fs.store.roots == if q.Fill? then old(fs.store.roots)[q.mv := q.root] else old(fs.store.roots)
    ensures fs.zipRootCache == if q.Cache? then old(fs.zipRootCache)[q.mv := q.root] else old(fs.zipRootCache)
    ensures reply.Some? ==> ReplyOK(reply.value, fs.remembered)
  {
    hide EntryOK, GoodStore, ValidMV, GoodRoot, HashMV, Printed;
    hide KnownDirs, MvFor, RecoverIn, Maps, Holds, AnswerOK;
    after, reply := flights, None;
    match q
    case To(segs) =>
      var h := fs.ToHandle(segs);
    case From(id, h) =>
      if id !in flights {
        after, reply := Begin(fs, flights, id, h);
      }
    case Consult(id) =>
      if id in flights && flights[id].Missed? {
        after, reply := Continue(fs, flights, id);
      }
    case Search(id) =>
      if id in flights && flights[id].InModule? {
        after, reply := Look(fs, flights, id);
      }
    case Remember(id) =>
      if id in flights && flights[id].Found? {
        var f := flights[id];
        var t := fs.Remember(f.h, f.path);
        after := flights - {id};
        reply := Some(Reply(f.h, Ok(t)));
        EntryAnswers(f.h, t, true);
      }
    case Fill(mv, root) =>
      fs.PutModule(mv, root);
    case Cache(mv, root) =>
      fs.SetZipRootCache(mv, root);
    case Meta(mv) =>
      fs.PutMetaFile(mv);
  }

  lemma EntryAnswers(h: NfsHandle, t: Target, recovered: bool)
    requires EntryOK(h, t, recovered)
    ensures AnswerOK(h, t, recovered)
  {
    hide Printed;
  }

  // ----- where an answer leads

  lemma PathHandleIsOrdinary(n: string)
    ensures PathHandle(n) != BadLength && PathHandle(n) != ROOT && PathHandle(n) != STATUS
    ensures PathHandle(n) == NotExistHandle <==> ParsePath(n).notExist
  {
    hide ParsePath;
  }

  lemma SamePlaceSame(n: string)
    ensures SamePlace(n, n)
  {
  }

  // An answer to the handle of a path leads to the same place exactly if it is
  // not one that a recovery filed for a path of AtTsgo.
  lemma AnswerLeadsTo(h: NfsHandle, t: Target, recovered: bool, segs: seq<string>)
    requires AnswerOK(h, t, recovered) && h == HandleFor(segs)
    ensures SamePlace(JoinSegs(t.segs), JoinSegs(segs)) <==> !(recovered && AtTsgo(JoinSegs(segs)))
  {
    hide PathHandle, AtTsgo, SamePlace, GoodName, Canonical, HandleOfName, Print, JoinSegs, Split;
    var n := JoinSegs(segs);
    PathHandleIsOrdinary(n);
    SamePlaceSame(n);
    JoinEmpty();
    JoinStatus();
    if h == NotExistHandle {
      NoFileIsMissing(n);
    } else if h != ROOT && h != STATUS {
      HandlesAreNames(t.path, n);
      if recovered {
        var nm :| GoodName(nm) && HandleOfName(nm) == h && Print(nm) == t.path;
        NameExact(nm);
        ReachedNames(nm, n);
      }
    }
  }

  lemma JoinEmpty()
    ensures JoinSegs([]) == ""
  {
  }

  lemma JoinStatus()
    ensures JoinSegs([STATUS_FILE]) == STATUS_FILE && SplitSegs(STATUS_FILE) == [STATUS_FILE]
  {
    hide Index;
    CutNothing(STATUS_FILE, '/');
  }

  lemma NoFileIsMissing(n: string)
    requires ParsePath(n).notExist
    ensures SamePlace(JoinSegs(NO_FILE.segs), n)
  {
    hide Base, ParsePath, Cut;
    var p := ".not-exist-path";
    BaseIs("", p);
    NoFileName(p);
    ParsePathOther(p);
  }

  lemma NoFileName(p: string)
    requires p == ".not-exist-path"
    ensures '@' !in p && p != STATUS_FILE && !("tsgo-" <= p) && !("cache/download/" <= p) && '/' !in p
    ensures "." <= p && JoinSegs(NO_FILE.segs) == p
  {
    assert p[0] == '.';
  }

  // ----- sessions

  // A reply leads to the place of every path that has its handle, except for
  // the paths of AtTsgo.
  ghost predicate LeadsBack(r: Reply) {
    forall segs :: r.target.Ok? && HandleFor(segs) == r.h && !AtTsgo(JoinSegs(segs)) ==>
      SamePlace(JoinSegs(r.target.value.segs), JoinSegs(segs))
  }

  lemma ReplyLeadsBack(r: Reply, remembered: set<NfsHandle>)
    requires ReplyOK(r, remembered)
    ensures LeadsBack(r)
  {
    hide AnswerOK, HandleFor, AtTsgo, SamePlace, JoinSegs;
    forall segs | r.target.Ok? && HandleFor(segs) == r.h && !AtTsgo(JoinSegs(segs))
      ensures SamePlace(JoinSegs(r.target.value.segs), JoinSegs(segs))
    {
      AnswerLeadsTo(r.h, r.target.value, r.h in remembered, segs);
    }
  }

  // A path gets a handle; then come steps of any requests, old and new, in any
  // order; then the handle is presented. It is answered, and the answer leads
  // to the same place exactly if no recovery has filed the handle of a path of
  // AtTsgo. So do the answers of all requests in between.
  method SameSession(fs: FS, flights: Flights, segs: seq<string>, others: seq<Step>)
    returns (r: Result<Target, Error>, replies: seq<Reply>)
    requires fs.Valid() && FlightsOK(flights) && forall q :: q in others ==> GoodStep(q)
    modifies fs
    ensures fs.Valid() && r.Ok?
    ensures SamePlace(JoinSegs(r.value.segs), JoinSegs(segs)) <==>
            !(HandleFor(segs) in fs.remembered && AtTsgo(JoinSegs(segs)))
    ensures forall i :: 0 <= i < |replies| ==> LeadsBack(replies[i])
  {
    hide EntryOK, GoodStore, FS.Indexed, JoinSegs, FlightOK, GoodStep;
    hide AtTsgo, SamePlace, PathHandle, LeadsBack, AnswerOK;
    var h := fs.ToHandle(segs);
    PathHandleIsOrdinary(JoinSegs(segs));
    var now := flights;
    replies := [];
    var i := 0;
    while i < |others|
      invariant 0 <= i <= |others| && fs.Valid() && FlightsOK(now)
      invariant h in {ROOT, STATUS, NotExistHandle} || h in fs.table
      invariant forall i :: 0 <= i < |replies| ==> LeadsBack(replies[i])
    {
      var reply;
      now, reply := Serve(fs, now, others[i]);
      if reply.Some? {
        ReplyLeadsBack(reply.value, fs.remembered);
        replies := replies + [reply.value];
      }
      i := i + 1;
    }
    var reply;
    now, reply := Begin(fs, now, 0, h);
    r := reply.value.target;
    AnswerLeadsTo(h, r.value, h in fs.remembered, segs);
  }

  // The exception is met: a goroutine looks for a toolchain's dot file after a
  // restart; while it does, the file's module path gets the same handle, and is
  // filed; then the goroutine overwrites that entry. Before, the handle leads to
  // the file, and after, to a path that is taken for missing.
  method Overwritten(t: Triple, p: string) returns (segs: seq<string>, before: Target, after: Target)
    requires GoodTriple(t) && CleanName(p) && "." <= p
    ensures SamePlace(JoinSegs(before.segs), JoinSegs(segs))
    ensures !SamePlace(JoinSegs(after.segs), JoinSegs(segs)) && ParsePath(after.path).notExist
  {
    hide EntryOK, GoodStore, FS.Indexed, ParsePath, JoinSegs, SplitSegs;
    hide AtTsgo, SamePlace, RecoverIn, MvFor, TsgoMV;
    hide ByModulePath, PathHandle, AnswerOK, ValidMV, GoodRoot;
    hide HashMV, GoodTriple, CleanName, OneFile, KnownDirs;
    var mv, roots := TsgoMV(t), map[TsgoMV(t) := OneFile(p)];
    DotFileServer(t, p);
    var n := ByModulePath(t, p);
    DotFileHandle(t, p);
    segs := SplitSegs(n);
    SegsOf(n);
    PathHandleIsOrdinary(n);
    var fs := new FS(Store([mv], roots));
    var h := fs.ToHandle(segs);
    fs := new FS(Store([mv], roots));
    var flights := SearchModule(fs, h, mv);
    var found := flights[0].path;
    assert FlightOK(flights[0]);
    var same := fs.ToHandle(segs);
    var reply;
    flights, reply := Begin(fs, flights, 1, h);
    before := reply.value.target.value;
    AnswerLeadsTo(h, before, false, segs);
    var filed := fs.Remember(h, found);
    flights, reply := Begin(fs, flights, 2, h);
    after := reply.value.target.value;
    AnswerLeadsTo(h, after, true, segs);
  }

  // Goroutine 0 looks for h on a fresh server, up to where it has the path.
  method SearchModule(fs: FS, h: NfsHandle, ghost mv: ModuleVersion) returns (flights: Flights)
    requires fs.Valid() && h.Handle? && h !in {ROOT, STATUS} && h !in fs.table && h.mv != ZeroHash
    requires MvFor(fs.KnownAfter(), h.mv) == Some(mv) && RecoverIn(mv, fs.store.roots, h.path).Ok?
    modifies fs`modVerHash, fs`pathHashTarget, fs`known
    ensures fs.Valid() && FlightsOK(flights)
    ensures flights == map[0 := Found(h, RecoverIn(mv, fs.store.roots, h.path).value)]
  {
    hide EntryOK, GoodStore, FS.Indexed, RecoverIn, MvFor, KnownDirs, FlightOK, AnswerOK;
    var none;
    flights, none := Begin(fs, map[], 0, h);
    flights, none := Continue(fs, flights, 0);
    flights, none := Look(fs, flights, 0);
  }

  lemma DotFileServer(t: Triple, p: string)
    requires GoodTriple(t) && CleanName(p) && "." <= p
    ensures GoodStore(Store([TsgoMV(t)], map[TsgoMV(t) := OneFile(p)])) && SetOf([TsgoMV(t)]) == {TsgoMV(t)}
  {
    hide ValidMV, GoodRoot, TsgoMV, OneFile, GoodTriple, CleanPath, CleanName, DotInner, Sound, Stored;
    DotFileStored(t, p);
    OneModuleServer(TsgoMV(t), OneFile(p));
  }

  lemma OneModuleServer(mv: ModuleVersion, g: MI.Handle)
    requires ValidMV(mv) && GoodRoot(g)
    ensures GoodStore(Store([mv], map[mv := g])) && SetOf([mv]) == {mv}
  {
    hide ValidMV, GoodRoot;
  }

  // What a fresh server makes of the dot file's handle.
  lemma DotFileHandle(t: Triple, p: string)
    requires GoodTriple(t) && CleanName(p) && "." <= p
    ensures AtTsgo(ByModulePath(t, p))
    ensures var h := PathHandle(ByModulePath(t, p));
            && h.Handle? && h.mv != ZeroHash && MvFor({TsgoMV(t)}, h.mv) == Some(TsgoMV(t))
            && var r := RecoverIn(TsgoMV(t), map[TsgoMV(t) := OneFile(p)], h.path);
               r.Ok? && ParsePath(r.value).notExist
  {
    hide GoodTriple, CleanPath, ParsePath, Stored, Sound, DotInner;
    hide ByModulePath, ValidMV, HashMV, AtTsgo, RecoverIn, MvFor;
    hide TsgoMV, OneFile, GoodRoot;
    var mv := TsgoMV(t);
    DotFileStored(t, p);
    DotFileIsLost(t, p, {mv}, map[mv := OneFile(p)]);
    ValidHasNoNul(mv);
    ZipHandle(mv, p, ByModulePath(t, p));
    MvForIs({mv}, mv);
    HashMVIsSha(mv);
  }

  lemma SegsOf(n: string)
    requires PathHandle(n).Handle? && PathHandle(n).mv != ZeroHash
    ensures SplitSegs(n) != [] && SplitSegs(n) != [STATUS_FILE] && JoinSegs(SplitSegs(n)) == n
  {
    hide Split;
    JoinSplit(n);
    JoinStatus();
    StatusIsPlain();
    EmptyIsPlain();
  }

  lemma EmptyIsPlain()
    ensures PathHandle("").Handle? && PathHandle("").mv == ZeroHash
  {
    CutNothing("", '@');
  }

  // ----- after a restart

  lemma FreshAnswer(known: set<ModuleVersion>, roots: map<ModuleVersion, MI.Handle>, nm: Name)
    requires Sound(known, roots) && Stored(known, roots, nm) && Canonical(nm)
    ensures Answer(map[], known, roots, HandleFor(SplitSegs(Print(nm)))) == Ok(TargetOf(Print(nm)))
  {
    hide Sound, Stored, Canonical, Recover, GoodName, PathHandle, Split;
    var p := Print(nm);
    StoredIsGood(known, roots, nm);
    NameExact(nm);
    RecoverStored(known, roots, nm);
    JoinSplit(p);
    hide Print;
    NameHandleIsOrdinary(nm);
    hide HandleOfName;
    if SplitSegs(p) == [STATUS_FILE] { assert p == STATUS_FILE; }
  }

  // A path of a stored file or directory that has a canonical name is recovered
  // as it was by a new server over the same store.
  method AfterRestart(fs: FS, segs: seq<string>, ghost nm: Name) returns (r: Result<seq<string>, Error>)
    requires fs.Valid() && Stored(SetOf(fs.store.cached), fs.store.roots, nm) && Canonical(nm)
    requires segs == SplitSegs(Print(nm))
    modifies fs`table
    ensures r == Ok(segs)
  {
    hide Maps, Holds, EntryOK, Stored, Canonical, Print, Recover, HandleFor, SplitSegs, GoodStore;
    var h := fs.ToHandle(segs);
    var again := new FS(fs.store);
    FreshSound(fs.store);
    r := again.FromHandle(h);
    FreshAnswer(SetOf(fs.store.cached), fs.store.roots, nm);
  }
}
