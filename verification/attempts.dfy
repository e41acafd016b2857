/** `uploadFileWithRetry` (src/fileUploader.js:82-94): whole passes of
    `uploadFileInChunks`, each from chunk 0, until one returns without
    throwing or the retry budget is spent. */
module Attempts {
  import opened Chunks
  import opened Transfer

  const GiveUpMessage := "Failed to upload after multiple attempts"

  /** The passes one call of `uploadFileWithRetry` made, and whether it ended
      by reporting that it gave up. */
  datatype Session = Session(passes: seq<Run>, gaveUp: bool)

  /** `uploadFileWithRetry(file, retries)`, started with the given `pause`
      flag and the given next answer of the environment. The 1000 ms
      `setTimeout` before a retry is just the next recursive attempt. */
  function Retry(data: seq<byte>, chunkSize: nat, env: Env, pause: bool, used: nat, retries: nat): (s: Session)
    requires chunkSize > 0
    ensures 1 <= |s.passes| <= retries + 1
    decreases retries
  {
    var r := Pass(data, chunkSize, env, pause, used);
    if r.exit.Threw() then
      if retries > 0 then
        var rest := Retry(data, chunkSize, env, r.pause, r.used, retries - 1);
        Session([r] + rest.passes, rest.gaveUp)
      else
        Session([r], true)
    else
      Session([r], false)
  }

  /** The events of some passes, one after the other. */
  function Flatten(passes: seq<Run>): seq<Event>
  {
    if passes == [] then [] else passes[0].events + Flatten(passes[1..])
  }

  /** Everything a call of `uploadFileWithRetry` emits. */
  function SessionEvents(s: Session): seq<Event>
  {
    Flatten(s.passes) + (if s.gaveUp then [Error(Message(GiveUpMessage))] else [])
  }

  function Last(passes: seq<Run>): Run
    requires passes != []
  {
    passes[|passes| - 1]
  }

  /** Every attempt but the last one threw; the call gives up exactly when
      its last attempt threw too, and then only after `retries + 1` attempts.
      Once an attempt returns without throwing, no further attempt is made. */
  lemma {:induction false} RetryShape(data: seq<byte>, chunkSize: nat, env: Env, pause: bool, used: nat, retries: nat)
    requires chunkSize > 0
    ensures var s := Retry(data, chunkSize, env, pause, used, retries);
      && (forall i :: 0 <= i < |s.passes| - 1 ==> s.passes[i].exit.Threw())
      && (s.gaveUp <==> Last(s.passes).exit.Threw())
      && (s.gaveUp ==> |s.passes| == retries + 1)
    decreases retries
  {
    var s := Retry(data, chunkSize, env, pause, used, retries);
    var r := Pass(data, chunkSize, env, pause, used);
    if r.exit.Threw() && retries > 0 {
      var rest := Retry(data, chunkSize, env, r.pause, r.used, retries - 1);
      RetryShape(data, chunkSize, env, r.pause, r.used, retries - 1);
      assert s.passes == [r] + rest.passes;
      assert Last(s.passes) == Last(rest.passes);
    }
  }

  /** Every attempt is a fresh pass from chunk 0, started with the `pause`
      flag and at the position in the environment that the previous attempt
      left behind. */
  lemma {:induction false} RetryRestarts(data: seq<byte>, chunkSize: nat, env: Env, pause: bool, used: nat, retries: nat)
    requires chunkSize > 0
    ensures var s := Retry(data, chunkSize, env, pause, used, retries);
      && s.passes[0] == Pass(data, chunkSize, env, pause, used)
      && forall i, j :: 0 <= i < j < |s.passes| && j == i + 1 ==>
           s.passes[j] == Pass(data, chunkSize, env, s.passes[i].pause, s.passes[i].used)
    decreases retries
  {
    var s := Retry(data, chunkSize, env, pause, used, retries);
    var r := Pass(data, chunkSize, env, pause, used);
    if r.exit.Threw() && retries > 0 {
      var rest := Retry(data, chunkSize, env, r.pause, r.used, retries - 1);
      RetryRestarts(data, chunkSize, env, r.pause, r.used, retries - 1);
      assert s.passes == [r] + rest.passes;
      forall i, j | 0 <= i < j < |s.passes| && j == i + 1
        ensures s.passes[j] == Pass(data, chunkSize, env, s.passes[i].pause, s.passes[i].used)
      {
        assert s.passes[j] == rest.passes[j - 1];
        if i > 0 {
          assert s.passes[i] == rest.passes[i - 1];
        }
      }
    }
  }

  /** Every attempt that posts anything posts chunk number 1 first. */
  lemma AttemptsStartAtFirstChunk(data: seq<byte>, chunkSize: nat, env: Env, pause: bool, used: nat, retries: nat)
    requires chunkSize > 0
    ensures var s := Retry(data, chunkSize, env, pause, used, retries);
      forall i :: 0 <= i < |s.passes| && Requests(s.passes[i].events) != [] ==>
        Requests(s.passes[i].events)[0]
          == PostOf(data, chunkSize, TotalChunks(|data|, chunkSize), env, 0)
  {
    var s := Retry(data, chunkSize, env, pause, used, retries);
    var total := TotalChunks(|data|, chunkSize);
    RetryRestarts(data, chunkSize, env, pause, used, retries);
    forall i | 0 <= i < |s.passes| && Requests(s.passes[i].events) != []
      ensures Requests(s.passes[i].events)[0] == PostOf(data, chunkSize, total, env, 0)
    {
      var p := if i == 0 then pause else s.passes[i - 1].pause;
      var u := if i == 0 then used else s.passes[i - 1].used;
      assert s.passes[i] == Loop(data, chunkSize, total, env, 0, p, u) by {
        if i > 0 {
          var h := i - 1;
          assert s.passes[h + 1] == Pass(data, chunkSize, env, s.passes[h].pause, s.passes[h].used);
        }
      }
      PassRequests(data, chunkSize, total, env, 0, p, u);
    }
  }

  /** A pause requested during a failed attempt makes the next attempt a pass
      that does nothing; the call then ends without reporting an error. */
  lemma PauseEndsRetries(data: seq<byte>, chunkSize: nat, env: Env, pause: bool, used: nat, retries: nat)
    requires chunkSize > 0
    ensures var s := Retry(data, chunkSize, env, pause, used, retries);
      forall i :: 0 <= i < |s.passes| - 1 && s.passes[i].pause ==>
        && i == |s.passes| - 2
        && Last(s.passes).events == []
        && Last(s.passes).exit == Stopped
        && !s.gaveUp
  {
    var s := Retry(data, chunkSize, env, pause, used, retries);
    var total := TotalChunks(|data|, chunkSize);
    RetryShape(data, chunkSize, env, pause, used, retries);
    RetryRestarts(data, chunkSize, env, pause, used, retries);
    forall i | 0 <= i < |s.passes| - 1 && s.passes[i].pause
      ensures i == |s.passes| - 2 && Last(s.passes).events == [] && Last(s.passes).exit == Stopped && !s.gaveUp
    {
      var p := if i == 0 then pause else s.passes[i - 1].pause;
      var u := if i == 0 then used else s.passes[i - 1].used;
      assert s.passes[i] == Loop(data, chunkSize, total, env, 0, p, u) by {
        if i > 0 {
          var h := i - 1;
          assert s.passes[h + 1] == Pass(data, chunkSize, env, s.passes[h].pause, s.passes[h].used);
        }
      }
      PassNotifications(data, chunkSize, total, env, 0, p, u);
      assert s.passes[i].current < total;
      var j := i + 1;
      assert s.passes[j] == Loop(data, chunkSize, total, env, 0, true, s.passes[i].used);
      assert s.passes[j].exit == Stopped;
    }
  }

  /** The events of a call whose first pass is followed by further attempts. */
  lemma SessionCons(r: Run, rest: Session)
    requires rest.passes != []
    ensures SessionEvents(Session([r] + rest.passes, rest.gaveUp)) == r.events + SessionEvents(rest)
    ensures Last([r] + rest.passes) == Last(rest.passes)
  {
    assert ([r] + rest.passes)[1..] == rest.passes;
  }

  /** The events of a call that made a single pass. */
  lemma SessionOfOne(r: Run, gaveUp: bool)
    ensures SessionEvents(Session([r], gaveUp))
         == r.events + (if gaveUp then [Error(Message(GiveUpMessage))] else [])
  {
    assert Flatten([r]) == r.events + Flatten([]);
  }

  /** The number of `onSuccess` calls among some events. */
  function Successes(events: seq<Event>): nat
  {
    if events == [] then 0 else (if events[0].Success? then 1 else 0) + Successes(events[1..])
  }

  lemma {:induction false} SuccessesAppend(a: seq<Event>, b: seq<Event>)
    ensures Successes(a + b) == Successes(a) + Successes(b)
  {
    if a != [] {
      assert (a + b)[1..] == a[1..] + b;
      SuccessesAppend(a[1..], b);
    } else {
      assert a + b == b;
    }
  }

  lemma {:induction false} SuccessOnlyLast(events: seq<Event>)
    requires forall i :: 0 <= i < |events| - 1 ==> !events[i].Success?
    ensures Successes(events) == if events != [] && events[|events| - 1].Success? then 1 else 0
  {
    if |events| > 1 {
      SuccessOnlyLast(events[1..]);
    } else if |events| == 1 {
      assert events[1..] == [];
    }
  }

  /** A pass calls `onSuccess` once if it completed and never otherwise. */
  lemma PassSuccesses(data: seq<byte>, chunkSize: nat, env: Env, pause: bool, used: nat)
    requires chunkSize > 0
    ensures var r := Pass(data, chunkSize, env, pause, used);
      Successes(r.events) == if r.exit == Completed then 1 else 0
  {
    PassNotifications(data, chunkSize, TotalChunks(|data|, chunkSize), env, 0, pause, used);
    SuccessOnlyLast(Pass(data, chunkSize, env, pause, used).events);
  }

  /** A call of `uploadFileWithRetry` calls `onSuccess` exactly once when its
      last attempt completed, and never otherwise: not for attempts that
      threw, not when it gives up, not when a pause stopped it. */
  lemma {:induction false} SessionSuccesses(data: seq<byte>, chunkSize: nat, env: Env, pause: bool, used: nat, retries: nat)
    requires chunkSize > 0
    ensures var s := Retry(data, chunkSize, env, pause, used, retries);
      Successes(SessionEvents(s)) == if Last(s.passes).exit == Completed then 1 else 0
    decreases retries
  {
    var s := Retry(data, chunkSize, env, pause, used, retries);
    var r := Pass(data, chunkSize, env, pause, used);
    PassSuccesses(data, chunkSize, env, pause, used);
    if r.exit.Threw() && retries > 0 {
      var rest := Retry(data, chunkSize, env, r.pause, r.used, retries - 1);
      SessionSuccesses(data, chunkSize, env, r.pause, r.used, retries - 1);
      SessionCons(r, rest);
      SuccessesAppend(r.events, SessionEvents(rest));
    } else {
      SessionOfOne(r, s.gaveUp);
      SuccessesAppend(r.events, if s.gaveUp then [Error(Message(GiveUpMessage))] else []);
      assert Successes([Error(Message(GiveUpMessage))]) == 0;
    }
  }

  /** A pass over a non-empty file whose first POST is rejected, with no
      pause requested, posts chunk 1 only, reports the failure and throws,
      having used one answer. */
  lemma FirstPostFails(data: seq<byte>, chunkSize: nat, env: Env, used: nat)
    requires chunkSize > 0 && |data| > 0
    requires env.net(used).Rejected() && !env.net(used).pauseRequested
    ensures var r := Pass(data, chunkSize, env, false, used);
      && r.exit == PostThrew && !r.pause && r.used == used + 1
      && Requests(r.events) == [PostOf(data, chunkSize, TotalChunks(|data|, chunkSize), env, 0)]
      && |r.events| > 0 && r.events[|r.events| - 1] == Error(RequestError)
  {
    var total := TotalChunks(|data|, chunkSize);
    var r := Pass(data, chunkSize, env, false, used);
    assert r.exit == PostThrew && !r.pause && r.used == used + 1 && r.current == 0;
    PassRequests(data, chunkSize, total, env, 0, false, used);
    PassNotifications(data, chunkSize, total, env, 0, false, used);
    assert PostsOf(data, chunkSize, total, env, 0, 0) == [];
  }

  /** When every POST fails, attempt `i` is a pass started at answer
      `used + i` with `pause` clear, and it fails at its POST. */
  lemma {:induction false} PassesAllFail(data: seq<byte>, chunkSize: nat, env: Env, used: nat, retries: nat, i: nat)
    requires chunkSize > 0 && |data| > 0
    requires forall k :: used <= k ==> env.net(k).Rejected() && !env.net(k).pauseRequested
    requires i < |Retry(data, chunkSize, env, false, used, retries).passes|
    ensures var p := Retry(data, chunkSize, env, false, used, retries).passes[i];
      && p == Pass(data, chunkSize, env, false, used + i)
      && p.exit == PostThrew && !p.pause && p.used == used + i + 1
  {
    var s := Retry(data, chunkSize, env, false, used, retries);
    assert s.passes[i] == Pass(data, chunkSize, env, false, used + i) by {
      RetryRestarts(data, chunkSize, env, false, used, retries);
      if i > 0 {
        var h := i - 1;
        PassesAllFail(data, chunkSize, env, used, retries, h);
        assert s.passes[h + 1] == Pass(data, chunkSize, env, s.passes[h].pause, s.passes[h].used);
      }
    }
    FirstPostFails(data, chunkSize, env, used + i);
  }

  /** A call whose every attempt fails at its POST (a non-empty file, no
      pause) makes exactly `retries + 1` attempts, each posting chunk 1 once
      and calling `onError` once, and finally reports that it gave up. */
  lemma RetryAllFail(data: seq<byte>, chunkSize: nat, env: Env, used: nat, retries: nat)
    requires chunkSize > 0 && |data| > 0
    requires forall k :: used <= k ==> env.net(k).Rejected() && !env.net(k).pauseRequested
    ensures var s := Retry(data, chunkSize, env, false, used, retries);
      && s.gaveUp
      && |s.passes| == retries + 1
      && (forall i :: 0 <= i < |s.passes| ==>
            && Requests(s.passes[i].events) == [PostOf(data, chunkSize, TotalChunks(|data|, chunkSize), env, 0)]
            && s.passes[i].exit == PostThrew
            && |s.passes[i].events| > 0
            && s.passes[i].events[|s.passes[i].events| - 1] == Error(RequestError))
      && SessionEvents(s)[|SessionEvents(s)| - 1] == Error(Message(GiveUpMessage))
  {
    var s := Retry(data, chunkSize, env, false, used, retries);
    forall i | 0 <= i < |s.passes|
      ensures Requests(s.passes[i].events) == [PostOf(data, chunkSize, TotalChunks(|data|, chunkSize), env, 0)]
      ensures s.passes[i].exit == PostThrew
      ensures |s.passes[i].events| > 0 && s.passes[i].events[|s.passes[i].events| - 1] == Error(RequestError)
    {
      PassesAllFail(data, chunkSize, env, used, retries, i);
      FirstPostFails(data, chunkSize, env, used + i);
    }
    assert s.gaveUp && |s.passes| == retries + 1 by {
      RetryShape(data, chunkSize, env, false, used, retries);
      PassesAllFail(data, chunkSize, env, used, retries, |s.passes| - 1);
    }
    assert SessionEvents(s) == Flatten(s.passes) + [Error(Message(GiveUpMessage))];
  }

  /** With every answer a successful POST and no pause, one attempt posts
      chunks `1 .. totalChunks` in order, each once, and the call ends with
      one `onSuccess` and no `onError`. */
  lemma RetryAllSucceed(data: seq<byte>, chunkSize: nat, env: Env, used: nat, retries: nat)
    requires chunkSize > 0
    requires forall k :: used <= k ==> env.net(k).Reply? && env.net(k).ok && !env.net(k).pauseRequested
    ensures var s := Retry(data, chunkSize, env, false, used, retries);
      var total := TotalChunks(|data|, chunkSize);
      && |s.passes| == 1 && !s.gaveUp
      && s.passes[0].exit == Completed
      && s.passes[0].used == used + total
      && Requests(SessionEvents(s)) == PostsOf(data, chunkSize, total, env, 0, total)
      && SessionEvents(s)[|SessionEvents(s)| - 1] == Success(SuccessMessage)
      && forall i :: 0 <= i < |SessionEvents(s)| ==> !SessionEvents(s)[i].Error?
  {
    var total := TotalChunks(|data|, chunkSize);
    var r := Pass(data, chunkSize, env, false, used);
    PassCompletes(data, chunkSize, total, env, 0, used);
    PassRequests(data, chunkSize, total, env, 0, false, used);
    PassNotifications(data, chunkSize, total, env, 0, false, used);
    assert r.exit == Completed && r.current == total;
    var s := Retry(data, chunkSize, env, false, used, retries);
    assert s == Session([r], false);
    assert Flatten(s.passes) == r.events + Flatten([]);
    assert SessionEvents(s) == r.events;
    assert r.exit != PostThrew;
  }

  /** Resuming does not continue where the pause stopped: a pass that a pause
      stopped after `k` chunks, followed by a resumed call whose answers all
      succeed, posts chunks `1 .. k` and then `1 .. totalChunks` again, so the
      first `k` chunks are sent twice. */
  lemma PauseThenResumeResends(data: seq<byte>, chunkSize: nat, env: Env, pause: bool, used: nat, retries: nat)
    requires chunkSize > 0
    requires Pass(data, chunkSize, env, pause, used).exit == Stopped
    requires forall k :: Pass(data, chunkSize, env, pause, used).used <= k ==>
               env.net(k).Reply? && env.net(k).ok && !env.net(k).pauseRequested
    ensures var first := Pass(data, chunkSize, env, pause, used);
      var total := TotalChunks(|data|, chunkSize);
      var resumed := Retry(data, chunkSize, env, false, first.used, retries);
      Requests(first.events) + Requests(SessionEvents(resumed))
        == PostsOf(data, chunkSize, total, env, 0, first.current) + PostsOf(data, chunkSize, total, env, 0, total)
  {
    var total := TotalChunks(|data|, chunkSize);
    var first := Pass(data, chunkSize, env, pause, used);
    var resumed := Retry(data, chunkSize, env, false, first.used, retries);
    assert Requests(first.events) == PostsOf(data, chunkSize, total, env, 0, first.current) by {
      PassRequests(data, chunkSize, total, env, 0, pause, used);
      assert first.exit != PostThrew;
    }
    assert Requests(SessionEvents(resumed)) == PostsOf(data, chunkSize, total, env, 0, total) by {
      RetryAllSucceed(data, chunkSize, env, first.used, retries);
    }
  }
}
