// The line protocol between the cat-file worker and git cat-file --batch
// (gitstore.go 180-251): a rev is written as a line, and one answer is read.

module CatFileLines {
  import opened Strings

  // What git reads for a rev that is followed by a newline.
  function Lines(rev: string): (r: seq<string>)
    ensures r != [] && (|r| == 1 <==> '\n' !in rev)
    decreases |rev|
  {
    var c := Cut(rev, '\n');
    if c.found then [c.before] + Lines(c.after) else [rev]
  }

  function Input(revs: seq<string>): seq<string> {
    if revs == [] then [] else Lines(revs[0]) + Input(revs[1..])
  }

  // The request that the n-th line is of.
  function Owner(revs: seq<string>, n: nat): (k: nat)
    requires n < |Input(revs)|
    ensures k < |revs|
  {
    if n < |Lines(revs[0])| then 0 else Owner(revs[1..], n - |Lines(revs[0])|) + 1
  }

  ghost predicate OneLiners(revs: seq<string>) {
    forall i :: 0 <= i < |revs| ==> '\n' !in revs[i]
  }

  lemma {:induction false} EnoughLines(revs: seq<string>)
    ensures |Input(revs)| >= |revs|
    ensures |Input(revs)| == |revs| <==> OneLiners(revs)
  {
    if revs != [] {
      EnoughLines(revs[1..]);
      assert forall i :: 1 <= i < |revs| ==> revs[i] == revs[1..][i - 1];
      assert OneLiners(revs) <==> '\n' !in revs[0] && OneLiners(revs[1..]) by {
        assert forall i :: 0 <= i < |revs[1..]| ==> revs[1..][i] == revs[i + 1];
      }
    }
  }

  lemma {:induction false} InputAppend(a: seq<string>, b: seq<string>)
    ensures Input(a + b) == Input(a) + Input(b)
  {
    hide Lines;
    if a == [] {
      assert a + b == b;
    } else {
      assert (a + b)[1..] == a[1..] + b;
      InputAppend(a[1..], b);
    }
  }

  lemma InputOne(rev: string)
    ensures Input([rev]) == Lines(rev)
  {
    assert Input([rev]) == Lines(rev) + Input([]);
  }

  // The k-th answer is to the k-th request exactly if no earlier rev holds a
  // newline.
  lemma {:induction false} OwnAnswer(revs: seq<string>, k: nat)
    requires k < |revs|
    ensures k < |Input(revs)|
    ensures Owner(revs, k) == k <==> OneLiners(revs[..k])
  {
    EnoughLines(revs);
    hide Lines;
    if k > 0 {
      var t := revs[1..];
      OwnAnswer(t, k - 1);
      var u, v := t[..k - 1], revs[..k];
      assert forall i :: 0 <= i < |u| ==> u[i] == v[i + 1];
      assert forall i :: 1 <= i < |v| ==> v[i] == u[i - 1];
      assert v[0] == revs[0];
      var n := |Lines(revs[0])|;
      if n > 1 && k >= n { OwnerIsEarlier(t, k - n); }
    }
  }

  // A line is never of a later request.
  lemma {:induction false} OwnerIsEarlier(revs: seq<string>, n: nat)
    requires n < |Input(revs)|
    ensures Owner(revs, n) <= n
  {
    hide Lines;
    if n >= |Lines(revs[0])| { OwnerIsEarlier(revs[1..], n - |Lines(revs[0])|); }
  }

  // A request whose answer is its own, and that is one line, is asked as it is.
  lemma {:induction false} OwnLine(revs: seq<string>, k: nat)
    requires k < |revs| && OneLiners(revs[..k]) && '\n' !in revs[k]
    ensures k < |Input(revs)| && Input(revs)[k] == revs[k]
  {
    EnoughLines(revs);
    if k == 0 {
      assert Lines(revs[0]) == [revs[0]];
    } else {
      var t := revs[1..];
      assert revs[..k][0] == revs[0];
      assert Lines(revs[0]) == [revs[0]];
      var u, v := t[..k - 1], revs[..k];
      assert forall i :: 0 <= i < |u| ==> u[i] == v[i + 1];
      OwnLine(t, k - 1);
    }
  }

  function Each<A>(git: string -> A, lines: seq<string>): (r: seq<A>)
    ensures |r| == |lines|
  {
    seq(|lines|, i requires 0 <= i < |lines| => git(lines[i]))
  }

  lemma EachAppend<A>(git: string -> A, a: seq<string>, b: seq<string>)
    ensures Each(git, a + b) == Each(git, a) + Each(git, b)
  {
  }

  // The worker's loop, on answers that do not end it. What git has written and
  // the worker has not read waits in the pipe.
  method AskAll<A>(revs: seq<string>, git: string -> A) returns (answers: seq<A>)
    ensures |answers| == |revs| <= |Input(revs)|
    ensures forall k :: 0 <= k < |revs| ==> answers[k] == git(Input(revs)[k])
  {
    hide Lines, Input;
    EnoughLines(revs);
    answers := [];
    var pipe: seq<A> := [];
    var i := 0;
    InputNone(revs);
    while i < |revs|
      invariant 0 <= i <= |revs| && |answers| == i
      invariant answers + pipe == Each(git, Input(revs[..i]))
    {
      pipe := pipe + Each(git, Lines(revs[i]));
      assert revs[..i + 1] == revs[..i] + [revs[i]];
      InputAppend(revs[..i], [revs[i]]);
      InputOne(revs[i]);
      EachAppend(git, Input(revs[..i]), Lines(revs[i]));
      assert answers + pipe == (answers + [pipe[0]]) + pipe[1..];
      answers := answers + [pipe[0]];
      pipe := pipe[1..];
      i := i + 1;
    }
    assert revs[..i] == revs;
    assert forall k :: 0 <= k < |answers| ==> answers[k] == (answers + pipe)[k];
  }

  lemma InputNone(revs: seq<string>)
    ensures Input(revs[..0]) == []
  {
  }

  // After a rev of two lines the next request gets the answer to the second one.
  lemma TwoLineExample()
    ensures var revs := ["a\nb", "c"];
            |Input(revs)| > 1 && Owner(revs, 1) == 0 && Input(revs)[1] == "b"
  {
    assert "a\nb" == "a" + ['\n'] + "b";
    CutIsUnique("a", '\n', "b");
    CutNothing("b", '\n');
    CutNothing("c", '\n');
    hide Cut;
    assert Lines("a\nb") == ["a"] + Lines("b");
    assert Lines("b") == ["b"] && Lines("c") == ["c"];
    var revs := ["a\nb", "c"];
    assert revs[1..] == ["c"];
    assert Input(revs) == ["a", "b"] + Input(["c"]);
  }
}
