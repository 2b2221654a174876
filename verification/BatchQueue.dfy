// The queue before git cat-file --batch (gitstore.go 111-297): callers add
// requests, a worker goroutine takes them one at a time and answers each on the
// request's own channel, which has room for one response.
//
// A state is what the mutex guards plus where each worker is. Every critical
// section and every channel operation is one step, in any order.

module BatchQueue {
  import opened Wrappers

  // Each request has a number of its own.
  datatype Req = Req(id: nat, stop: bool)

  datatype Worker =
    | Ready // about to call tryTakePendingRequest
    | Waiting // for a wake-up or the timeout
    | Holding(req: Req) // between taking a request and answering it
    | Stopping(req: Req) // the process is being shut down for a stop request
    | Exiting // about to call noteCatFileBatchDone

  datatype State = State(
    pend: seq<Req>,
    running: bool,
    wake: Option<bool>, // the channel, once made, and whether its one slot is taken
    workers: map<nat, Worker>,
    nextWorker: nat,
    accepted: seq<Req>, // all requests that entered the queue, in order
    immediate: seq<Req>, // the stop requests answered without a worker
    answered: seq<Req>) // the requests a worker answered, in order

  const INIT := State([], false, None, map[], 0, [], [], [])

  datatype Step =
    | Start(stop: bool)
    | Take(w: nat)
    | Wake(w: nat)
    | Expire(w: nat) // the timeout, or a process that cannot be started
    | Answer(w: nat, again: bool) // a response, after which the worker goes on or gives up
    | Stopped(w: nat)
    | Note(w: nat)

  // The number of the next request.
  function Fresh(s: State): nat {
    |s.accepted| + |s.immediate|
  }

  // A goroutine for runCatFileBatch.
  function Spawn(s: State): State {
    s.(workers := s.workers[s.nextWorker := Ready], nextWorker := s.nextWorker + 1)
  }

  // startRequest
  function DoStart(s: State, stop: bool): State {
    var req := Req(Fresh(s), stop);
    if stop && !s.running then s.(immediate := s.immediate + [req])
    else
      var t := s.(pend := s.pend + [req], accepted := s.accepted + [req], wake := Some(true));
      if t.running then t else Spawn(t.(running := true))
  }

  // tryTakePendingRequest
  function DoTake(s: State, w: nat): State
    requires w in s.workers
  {
    if s.pend != [] then
      var req := s.pend[0];
      s.(pend := s.pend[1..],
         wake := if s.wake.None? then Some(false) else s.wake,
         workers := s.workers[w := if req.stop then Stopping(req) else Holding(req)])
    else
      s.(wake := if s.wake.None? then Some(false) else s.wake, workers := s.workers[w := Waiting])
  }

  // noteCatFileBatchDone, whose two branches are the wrong way round: with
  // nothing to do it starts another worker, with requests waiting it does not.
  function DoNote(s: State, w: nat): State {
    var t := s.(workers := s.workers - {w});
    if t.pend == [] then Spawn(t.(wake := if t.wake.Some? then Some(true) else None)) else t.(running := false)
  }

  // A step that is not possible in a state leaves it alone.
  function Next(s: State, e: Step): State {
    match e
    case Start(stop) => DoStart(s, stop)
    case Take(w) => if w in s.workers && s.workers[w].Ready? then DoTake(s, w) else s
    case Wake(w) =>
      if w in s.workers && s.workers[w].Waiting? && s.wake == Some(true)
      then s.(wake := Some(false), workers := s.workers[w := Ready]) else s
    case Expire(w) =>
      if w in s.workers && (s.workers[w].Waiting? || s.workers[w].Ready?)
      then s.(workers := s.workers[w := Exiting]) else s
    case Answer(w, again) =>
      if w in s.workers && s.workers[w].Holding? then
        s.(answered := s.answered + [s.workers[w].req], workers := s.workers[w := if again then Ready else Exiting])
      else s
    case Stopped(w) =>
      if w in s.workers && s.workers[w].Stopping? then
        s.(answered := s.answered + [s.workers[w].req], workers := s.workers[w := Exiting])
      else s
    case Note(w) => if w in s.workers && s.workers[w].Exiting? then DoNote(s, w) else s
  }

  function Run(s: State, steps: seq<Step>): State
    decreases |steps|
  {
    if steps == [] then s else Next(Run(s, steps[..|steps| - 1]), steps[|steps| - 1])
  }

  // ----- the invariant

  // The request that a worker has taken and not yet answered.
  function Held(k: Worker): seq<Req> {
    if k.Holding? || k.Stopping? then [k.req] else []
  }

  // At most one worker is live: one if the queue is marked as running.
  ghost predicate OneWorker(s: State) {
    && (s.running <==> s.workers != map[])
    && (forall a, b :: a in s.workers && b in s.workers ==> a == b)
    && (forall a :: a in s.workers ==> a < s.nextWorker)
  }

  // Each request that entered the queue was answered, is held, or is pending,
  // and in that order.
  ghost predicate Conserved(s: State) {
    && (forall w :: w in s.workers ==> s.accepted == s.answered + Held(s.workers[w]) + s.pend)
    && (s.workers == map[] ==> s.accepted == s.answered + s.pend)
  }

  ghost predicate IdsOnce(q: seq<Req>) {
    forall i, j :: 0 <= i < j < |q| ==> q[i].id != q[j].id
  }

  // Every request has a number of its own, below the next one.
  ghost predicate Numbered(s: State) {
    && IdsOnce(s.accepted) && IdsOnce(s.immediate)
    && (forall r, q :: r in s.accepted && q in s.immediate ==> r.id != q.id)
    && (forall r :: r in s.accepted || r in s.immediate ==> r.id < Fresh(s))
    && (forall r :: r in s.immediate ==> r.stop)
  }

  // A worker that waits while requests are pending has a wake-up coming.
  ghost predicate NoLostWake(s: State) {
    && (s.pend != [] ==> s.wake.Some?)
    && forall w :: w in s.workers && s.workers[w].Waiting? && s.pend != [] ==> s.wake == Some(true)
  }

  ghost predicate Kinds(s: State) {
    forall w :: w in s.workers ==>
      (s.workers[w].Holding? ==> !s.workers[w].req.stop) && (s.workers[w].Stopping? ==> s.workers[w].req.stop)
  }

  ghost predicate Inv(s: State) {
    OneWorker(s) && Conserved(s) && Numbered(s) && NoLostWake(s) && Kinds(s)
  }

  lemma StartKeeps(s: State, stop: bool)
    requires Inv(s)
    ensures Inv(DoStart(s, stop))
  {
    var t := DoStart(s, stop);
    StartNumbers(s, stop);
    hide Numbered;
    assert !s.running && !stop ==> s.nextWorker in t.workers;
    assert Conserved(t) by {
      var req := Req(Fresh(s), stop);
      forall w | w in s.workers && !(stop && !s.running)
        ensures s.accepted + [req] == s.answered + Held(s.workers[w]) + (s.pend + [req])
      {
        Assoc(s.answered + Held(s.workers[w]), s.pend, [req]);
      }
      Assoc(s.answered, s.pend, [req]);
      assert s.answered + Held(Ready) == s.answered;
    }
  }

  lemma Assoc(a: seq<Req>, b: seq<Req>, c: seq<Req>)
    ensures a + b + c == a + (b + c)
  {
  }

  lemma StartNumbers(s: State, stop: bool)
    requires Numbered(s)
    ensures Numbered(DoStart(s, stop))
  {
    var req := Req(Fresh(s), stop);
    InMore(s.immediate, req);
    InMore(s.accepted, req);
  }

  lemma InMore(q: seq<Req>, r: Req)
    ensures forall x :: x in q + [r] <==> x in q || x == r
    ensures (forall x :: x in q ==> x.id != r.id) && IdsOnce(q) ==> IdsOnce(q + [r])
  {
  }

  lemma TakeKeeps(s: State, w: nat)
    requires Inv(s) && w in s.workers && s.workers[w].Ready?
    ensures Inv(DoTake(s, w))
  {
    assert Numbered(DoTake(s, w));
    hide Numbered;
    if s.pend != [] {
      assert s.pend == [s.pend[0]] + s.pend[1..];
      Assoc(s.answered, [s.pend[0]], s.pend[1..]);
      assert s.answered + [] == s.answered;
    }
  }

  lemma AnswerKeeps(s: State, w: nat, next: Worker)
    requires Inv(s) && w in s.workers && Held(s.workers[w]) != [] && (next.Ready? || next.Exiting?)
    ensures Inv(s.(answered := s.answered + [s.workers[w].req], workers := s.workers[w := next]))
  {
    var t := s.(answered := s.answered + [s.workers[w].req], workers := s.workers[w := next]);
    assert Numbered(t);
    hide Numbered;
    assert t.answered + [] == t.answered;
  }

  lemma NoteKeeps(s: State, w: nat)
    requires Inv(s) && w in s.workers && s.workers[w].Exiting?
    ensures Inv(DoNote(s, w))
  {
    var t := DoNote(s, w);
    assert Numbered(t);
    hide Numbered;
    assert s.workers - {w} == map[];
    assert s.pend == [] ==> s.nextWorker in t.workers;
    assert s.answered + [] == s.answered;
  }

  lemma NextKeeps(s: State, e: Step)
    requires Inv(s)
    ensures Inv(Next(s, e))
  {
    match e
    case Start(stop) => StartKeeps(s, stop);
    case Take(w) => if w in s.workers && s.workers[w].Ready? { TakeKeeps(s, w); }
    case Wake(w) => MoveKeeps(s, w, Ready, Some(false));
    case Expire(w) => MoveKeeps(s, w, Exiting, s.wake);
    case Answer(w, again) =>
      if w in s.workers && s.workers[w].Holding? { AnswerKeeps(s, w, if again then Ready else Exiting); }
    case Stopped(w) => if w in s.workers && s.workers[w].Stopping? { AnswerKeeps(s, w, Exiting); }
    case Note(w) => if w in s.workers && s.workers[w].Exiting? { NoteKeeps(s, w); }
  }

  lemma MoveKeeps(s: State, w: nat, next: Worker, wake: Option<bool>)
    requires Inv(s) && (next.Ready? || next.Exiting?) && (wake.None? ==> s.wake.None?)
    ensures w in s.workers && Held(s.workers[w]) == [] ==> Inv(s.(wake := wake, workers := s.workers[w := next]))
  {
    var t := s.(wake := wake, workers := s.workers[w := next]);
    assert Numbered(t);
    hide Numbered;
  }

  // In every reachable state, whatever the order of steps.
  lemma {:induction false} RunKeeps(steps: seq<Step>)
    ensures Inv(Run(INIT, steps))
    decreases |steps|
  {
    if steps != [] {
      RunKeeps(steps[..|steps| - 1]);
      NextKeeps(Run(INIT, steps[..|steps| - 1]), steps[|steps| - 1]);
    }
  }

  // ----- what it means

  // How often r occurs in q.
  function Count(q: seq<Req>, r: Req): nat {
    multiset(q)[r]
  }

  ghost function HeldBy(s: State): seq<Req> {
    if exists w :: w in s.workers then var w :| w in s.workers; Held(s.workers[w]) else []
  }

  // Every accepted request is exactly one of: pending, held by the worker, or
  // answered, and answered only once.
  lemma ExactlyOne(steps: seq<Step>, r: Req)
    ensures var s := Run(INIT, steps);
            r in s.accepted || r in s.immediate ==>
              Count(s.pend, r) + Count(HeldBy(s), r) + Count(s.answered, r) + Count(s.immediate, r) == 1
  {
    RunKeeps(steps);
    var s := Run(INIT, steps);
    assert s.accepted == s.answered + HeldBy(s) + s.pend by {
      if s.workers == map[] { assert s.answered + [] == s.answered; }
    }
    CountOnce(s.accepted, r);
    CountOnce(s.immediate, r);
  }

  lemma {:induction false} CountOnce(q: seq<Req>, r: Req)
    requires IdsOnce(q)
    ensures Count(q, r) == if r in q then 1 else 0
  {
    if q != [] {
      var t, x := q[..|q| - 1], q[|q| - 1];
      assert q == t + [x];
      assert forall i :: 0 <= i < |t| ==> t[i] == q[i];
      CountOnce(t, r);
    }
  }

  // Requests are answered in the order in which they were accepted.
  lemma FirstInFirstOut(steps: seq<Step>)
    ensures var s := Run(INIT, steps);
            s.answered <= s.accepted && (s.pend == [] && HeldBy(s) == [] ==> s.answered == s.accepted)
  {
    RunKeeps(steps);
    var s := Run(INIT, steps);
    if s.workers != map[] {
      var w :| w in s.workers;
      assert forall x :: x in s.workers ==> x == w;
      Assoc(s.answered, Held(s.workers[w]), s.pend);
      assert s.accepted == s.answered + (Held(s.workers[w]) + s.pend);
    }
  }

  // A worker about to answer finds the channel empty: no response was sent on
  // it, so neither the send blocks nor the panic is reached.
  lemma ChannelHasRoom(steps: seq<Step>, w: nat)
    requires var s := Run(INIT, steps); w in s.workers && Held(s.workers[w]) != []
    ensures var s := Run(INIT, steps);
            s.workers[w].req !in s.answered && s.workers[w].req !in s.immediate
  {
    var s := Run(INIT, steps);
    var r := s.workers[w].req;
    RunKeeps(steps);
    assert s.accepted == s.answered + Held(s.workers[w]) + s.pend;
    assert r in s.accepted;
    CountOnce(s.accepted, r);
    assert Count(s.accepted, r) == Count(s.answered, r) + Count([r], r) + Count(s.pend, r);
  }

  // When a worker leaves while requests are pending, they stay behind without
  // one; when it leaves an empty queue, another worker starts.
  lemma LeavingWorker(s: State, w: nat)
    requires Inv(s) && w in s.workers && s.workers[w].Exiting?
    ensures var t := Next(s, Note(w));
            && t.pend == s.pend
            && (t.workers == map[] <==> s.pend != [])
            && (s.pend == [] ==> t.running && t.workers == map[s.nextWorker := Ready])
  {
    assert s.workers - {w} == map[];
    assert s.pend == [] ==> s.nextWorker in Next(s, Note(w)).workers;
  }

  // Such a run: the first request fails while a second one waits.
  lemma RequestLeftBehind()
    ensures var s := Run(INIT, [Start(false), Take(0), Start(false), Answer(0, false), Note(0)]);
            s.pend == [Req(1, false)] && s.workers == map[] && !s.running
  {
    RunOfFive(Start(false), Take(0), Start(false), Answer(0, false), Note(0));
    hide Run;
    FirstThree();
    var a, b := Req(0, false), Req(1, false);
    var s3 := State([b], true, Some(true), map[0 := Holding(a)], 1, [a, b], [], []);
    var s4 := Next(s3, Answer(0, false));
    assert s4 == State([b], true, Some(true), map[0 := Exiting], 1, [a, b], [], [a]);
    assert s4.workers - {0} == map[];
  }

  lemma FirstThree()
    ensures Next(Next(Next(INIT, Start(false)), Take(0)), Start(false)) ==
            State([Req(1, false)], true, Some(true), map[0 := Holding(Req(0, false))], 1,
                  [Req(0, false), Req(1, false)], [], [])
  {
    var a := Req(0, false);
    var s1 := Next(INIT, Start(false));
    assert s1 == State([a], true, Some(true), map[0 := Ready], 1, [a], [], []);
    var s2 := Next(s1, Take(0));
    assert s2 == State([], true, Some(true), map[0 := Holding(a)], 1, [a], [], []);
  }

  lemma RunOfFive(a: Step, b: Step, c: Step, d: Step, e: Step)
    ensures Run(INIT, [a, b, c, d, e]) == Next(Next(Next(Next(Next(INIT, a), b), c), d), e)
  {
    hide Next;
    RunMore([], a);
    RunMore([a], b);
    RunMore([a, b], c);
    RunMore([a, b, c], d);
    RunMore([a, b, c, d], e);
    assert [] + [a] == [a] && [a] + [b] == [a, b] && [a, b] + [c] == [a, b, c];
    assert [a, b, c] + [d] == [a, b, c, d] && [a, b, c, d] + [e] == [a, b, c, d, e];
  }

  lemma RunMore(steps: seq<Step>, e: Step)
    ensures Run(INIT, steps + [e]) == Next(Run(INIT, steps), e)
  {
    assert (steps + [e])[..|steps|] == steps;
  }

  // ----- the critical sections

  class Storage {
    var pendReq: seq<Req>
    var catFileBatchRunning: bool
    var wake: Option<bool>
    var workers: map<nat, Worker> // the goroutines, which the runtime keeps
    var nextWorker: nat
    ghost var accepted: seq<Req>
    var immediate: seq<Req>
    ghost var answered: seq<Req>
    var made: nat // requests made so far

    ghost function Now(): State
      reads this
    {
      State(pendReq, catFileBatchRunning, wake, workers, nextWorker, accepted, immediate, answered)
    }

    ghost predicate Valid()
      reads this
    {
      Inv(Now()) && made == Fresh(Now())
    }

    constructor ()
      ensures Valid() && Now() == INIT
    {
      pendReq, catFileBatchRunning, wake, workers, nextWorker, immediate, made := [], false, None, map[], 0, [], 0;
      accepted, answered := [], [];
    }

    // go d.runCatFileBatch()
    method Go()
      modifies this`workers, this`nextWorker
      ensures Now() == Spawn(old(Now()))
    {
      workers := workers[nextWorker := Ready];
      nextWorker := nextWorker + 1;
    }

    method StartRequest(stop: bool)
      requires Valid()
      modifies this
      ensures Valid() && Now() == Next(old(Now()), Start(stop))
    {
      hide Inv;
      NextKeeps(Now(), Start(stop));
      var req := Req(made, stop);
      made := made + 1;
      if req.stop && !catFileBatchRunning {
        immediate := immediate + [req];
        return;
      }
      if wake.None? {
        wake := Some(false);
      }
      pendReq := pendReq + [req];
      accepted := accepted + [req];
      wake := Some(true);
      if !catFileBatchRunning {
        catFileBatchRunning := true;
        Go();
      }
    }

    // For worker w, which then holds the request or waits.
    method TryTakePendingRequest(w: nat) returns (req: Option<Req>)
      requires Valid() && w in workers && workers[w].Ready?
      modifies this
      ensures Valid() && Now() == Next(old(Now()), Take(w))
      ensures req == if old(pendReq) == [] then None else Some(old(pendReq)[0])
    {
      hide Inv;
      NextKeeps(Now(), Take(w));
      if wake.None? {
        wake := Some(false);
      }
      if |pendReq| > 0 {
        req := Some(pendReq[0]);
        pendReq := pendReq[1..];
        workers := workers[w := if req.value.stop then Stopping(req.value) else Holding(req.value)];
      } else {
        req := None;
        workers := workers[w := Waiting];
      }
    }

    method NoteCatFileBatchDone(w: nat)
      requires Valid() && w in workers && workers[w].Exiting?
      modifies this
      ensures Valid() && Now() == Next(old(Now()), Note(w))
    {
      hide Inv;
      NextKeeps(Now(), Note(w));
      workers := workers - {w};
      if |pendReq| == 0 {
        Go();
        if wake.Some? {
          wake := Some(true);
        }
      } else {
        catFileBatchRunning := false;
      }
    }
  }
}
