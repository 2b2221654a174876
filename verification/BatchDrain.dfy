// Whether the requests of the cat-file queue get answered (gitstore.go 111-297):
// none is ever lost, but some wait for a later request to start a worker.

module BatchDrain {
  import opened BatchQueue

  lemma {:induction false} RunCons(s: State, e: Step, rest: seq<Step>)
    ensures Run(s, [e] + rest) == Run(Next(s, e), rest)
    decreases |rest|
  {
    hide Next;
    if rest == [] {
      assert [e] + rest == [e] && [e][..0] == [];
      assert Run(s, [e]) == Next(Run(s, []), e);
    } else {
      var t := rest[..|rest| - 1];
      assert ([e] + rest)[..|rest|] == [e] + t;
      RunCons(s, e, t);
    }
  }

  ghost function TheWorker(s: State): nat
    requires s.workers != map[]
  {
    var w :| w in s.workers; w
  }

  // What must happen next for a request to be answered.
  ghost function Advance(s: State): Step {
    if s.workers == map[] then Start(false)
    else
      var w := TheWorker(s);
      match s.workers[w]
      case Ready => Take(w)
      case Waiting => Wake(w)
      case Holding(_) => Answer(w, true)
      case Stopping(_) => Stopped(w)
      case Exiting => Note(w)
  }

  // How far a state is from its next answer.
  ghost function Distance(s: State): nat {
    if s.workers == map[] then 4
    else
      match s.workers[TheWorker(s)]
      case Exiting => 5
      case Waiting => 4
      case Ready => 3
      case _ => 2
  }

  // With a request unanswered, that step brings an answer nearer.
  lemma Advances(s: State)
    requires Inv(s) && |s.answered| < |s.accepted|
    ensures var t := Next(s, Advance(s));
            && Inv(t) && s.accepted <= t.accepted
            && if Held(s) != [] then |t.answered| == |s.answered| + 1
               else t.answered == s.answered && Distance(t) < Distance(s)
  {
    NextKeeps(s, Advance(s));
    hide Numbered;
    if s.workers != map[] {
      var w := TheWorker(s);
      assert forall x :: x in s.workers ==> x == w;
      assert s.accepted == s.answered + BatchQueue.Held(s.workers[w]) + s.pend;
      var t := Next(s, Advance(s));
      if s.workers[w].Exiting? {
        assert s.workers - {w} == map[];
      } else {
        assert w in t.workers;
        assert TheWorker(t) == w;
      }
    } else {
      var t := Next(s, Advance(s));
      assert s.nextWorker in t.workers;
      assert TheWorker(t) == s.nextWorker;
    }
  }

  ghost function Held(s: State): seq<Req> {
    if s.workers == map[] then [] else BatchQueue.Held(s.workers[TheWorker(s)])
  }

  lemma AnsweredPrefix(s: State)
    requires Inv(s)
    ensures s.answered <= s.accepted
  {
    hide Numbered;
    if s.workers != map[] {
      var w := TheWorker(s);
      Assoc(s.answered, BatchQueue.Held(s.workers[w]), s.pend);
    }
  }

  // No request is lost: from every state there is a run, with further requests
  // if need be, that answers all that were accepted.
  lemma {:induction false} NothingIsLost(s: State, goal: seq<Req>) returns (steps: seq<Step>)
    requires Inv(s) && goal <= s.accepted
    ensures goal <= Run(s, steps).answered
    decreases |goal| - |s.answered|, Distance(s)
  {
    AnsweredPrefix(s);
    if |s.answered| >= |goal| {
      steps := [];
    } else {
      Advances(s);
      hide Inv, Next, Advance, Distance;
      var e := Advance(s);
      var rest := NothingIsLost(Next(s, e), goal);
      RunCons(s, e, rest);
      steps := [e] + rest;
    }
  }

  // ----- without further requests

  ghost predicate NoStart(steps: seq<Step>) {
    forall e :: e in steps ==> !e.Start?
  }

  // Requests are pending that no worker will come to: there is none, it is
  // leaving, or it leaves after a stop request before the last one.
  ghost predicate Blocked(s: State) {
    && s.pend != []
    && (s.workers == map[]
        || (exists w :: w in s.workers && (s.workers[w].Exiting? || s.workers[w].Stopping?))
        || (exists i :: 0 <= i < |s.pend| - 1 && s.pend[i].stop))
  }

  lemma BlockedStays(s: State, e: Step)
    requires Inv(s) && Blocked(s) && !e.Start?
    ensures Blocked(Next(s, e))
  {
    hide Numbered;
    var t := Next(s, e);
    match e
    case Take(w) =>
      if w in s.workers && s.workers[w].Ready? {
        assert w in t.workers && s.workers != map[];
        var i :| 0 <= i < |s.pend| - 1 && s.pend[i].stop;
        if i > 0 { assert t.pend[i - 1] == s.pend[i]; }
      }
    case Note(w) =>
      if w in s.workers && s.workers[w].Exiting? { assert t.workers == map[]; }
    case Wake(w) => MoveBlocked(s, t, w, if w in t.workers then t.workers[w] else Exiting);
    case Expire(w) => MoveBlocked(s, t, w, if w in t.workers then t.workers[w] else Exiting);
    case Answer(w, _) => MoveBlocked(s, t, w, if w in t.workers then t.workers[w] else Exiting);
    case Stopped(w) => MoveBlocked(s, t, w, if w in t.workers then t.workers[w] else Exiting);
  }

  // A step that moves the worker on and leaves the queue alone.
  lemma MoveBlocked(s: State, t: State, w: nat, k: Worker)
    requires Inv(s) && Blocked(s) && t.pend == s.pend
    requires t.workers == s.workers || (w in s.workers && t.workers == s.workers[w := k])
    requires w in s.workers && (s.workers[w].Exiting? || s.workers[w].Stopping?) ==>
               t.workers == s.workers || t.workers == s.workers[w := Exiting]
    ensures Blocked(t)
  {
    hide Numbered;
    if t.workers != s.workers { assert w in t.workers; }
    if x :| x in s.workers && (s.workers[x].Exiting? || s.workers[x].Stopping?) {
      assert x in t.workers;
    }
    if i :| 0 <= i < |s.pend| - 1 && s.pend[i].stop {
      assert t.pend[i].stop;
    }
  }

  lemma {:induction false} BlockedForGood(s: State, steps: seq<Step>)
    requires Inv(s) && Blocked(s) && NoStart(steps)
    ensures Inv(Run(s, steps)) && Blocked(Run(s, steps))
    decreases |steps|
  {
    if steps != [] {
      var t, e := steps[..|steps| - 1], steps[|steps| - 1];
      assert e in steps && forall x :: x in t ==> x in steps;
      BlockedForGood(s, t);
      hide Inv, Blocked, Next;
      BlockedStays(Run(s, t), e);
      NextKeeps(Run(s, t), e);
    }
  }

  lemma BlockedUnanswered(s: State)
    requires Inv(s) && Blocked(s)
    ensures s.answered != s.accepted
  {
    hide Numbered;
    if s.workers != map[] {
      var w := TheWorker(s);
      assert |s.accepted| == |s.answered| + |BatchQueue.Held(s.workers[w])| + |s.pend|;
    }
  }

  // Unless it is blocked, the queue can be worked off without a new request.
  lemma UnblockedAdvances(s: State)
    requires Inv(s) && !Blocked(s) && |s.answered| < |s.accepted|
    ensures !Advance(s).Start? && !Blocked(Next(s, Advance(s))) && Next(s, Advance(s)).accepted == s.accepted
  {
    hide Numbered;
    if s.workers != map[] {
      var w := TheWorker(s);
      assert forall x :: x in s.workers ==> x == w;
      assert s.accepted == s.answered + BatchQueue.Held(s.workers[w]) + s.pend;
      var t := Next(s, Advance(s));
      assert w in t.workers;
      if s.workers[w].Ready? {
        assert s.pend[0].stop ==> |s.pend| == 1;
        assert forall i :: 0 <= i < |t.pend| ==> t.pend[i] == s.pend[i + 1];
      }
    }
  }

  lemma {:induction false} WorksOff(s: State) returns (steps: seq<Step>)
    requires Inv(s) && !Blocked(s)
    ensures NoStart(steps) && Run(s, steps).answered == s.accepted
    decreases |s.accepted| - |s.answered|, Distance(s)
  {
    AnsweredPrefix(s);
    if |s.answered| >= |s.accepted| {
      steps := [];
    } else {
      Advances(s);
      UnblockedAdvances(s);
      hide Inv, Next, Advance, Distance, Blocked;
      var e := Advance(s);
      var rest := WorksOff(Next(s, e));
      RunCons(s, e, rest);
      steps := [e] + rest;
    }
  }

  // A new request leads to a run of the workers that answers it and all before
  // it exactly if no worker is leaving and no stop request is pending.
  lemma StartWorksOffIff(s: State)
    requires Inv(s)
    ensures var t := DoStart(s, false);
            (exists steps :: NoStart(steps) && Run(t, steps).answered == t.accepted) <==>
            (forall w :: w in s.workers ==> !s.workers[w].Exiting? && !s.workers[w].Stopping?)
            && forall r :: r in s.pend ==> !r.stop
  {
    var t := DoStart(s, false);
    StartKeeps(s, false);
    StartBlocks(s);
    hide Inv, Blocked, DoStart;
    if Blocked(t) {
      forall steps | NoStart(steps) ensures Run(t, steps).answered != t.accepted {
        BlockedForGood(t, steps);
        BlockedUnanswered(Run(t, steps));
        AcceptedStays(t, steps);
      }
    } else {
      var steps := WorksOff(t);
    }
  }

  lemma StartBlocks(s: State)
    requires Inv(s)
    ensures Blocked(DoStart(s, false)) <==>
            !((forall w :: w in s.workers ==> !s.workers[w].Exiting? && !s.workers[w].Stopping?)
              && forall r :: r in s.pend ==> !r.stop)
  {
    hide Numbered;
    var t := DoStart(s, false);
    if s.workers == map[] { assert s.nextWorker in t.workers; }
    assert forall i :: 0 <= i < |s.pend| ==> t.pend[i] == s.pend[i];
    forall r | r in s.pend && r.stop ensures Blocked(t) {
      var i :| 0 <= i < |s.pend| && s.pend[i] == r;
      assert t.pend[i].stop;
    }
  }

  lemma {:induction false} AcceptedStays(s: State, steps: seq<Step>)
    requires NoStart(steps)
    ensures Run(s, steps).accepted == s.accepted
    decreases |steps|
  {
    if steps != [] {
      var t, e := steps[..|steps| - 1], steps[|steps| - 1];
      assert e in steps && forall x :: x in t ==> x in steps;
      AcceptedStays(s, t);
    }
  }
}
