/** One pass of `uploadFileInChunks` (src/fileUploader.js:96-126), as a
    function from the file, the chunk size and the environment to the events
    the pass emits and the state it leaves behind.

    The environment answers each iteration of the loop once, in order:
    reading the chunk for encryption either fails, or the POST is answered
    with the progress samples it reports and success or failure. The same
    answer also says whether `pauseUpload` was called while the iteration was
    waiting. */
module Transfer {
  import opened Chunks
  import opened ProgressMath

  const SuccessMessage := "File uploaded successfully"

  /** One `onUploadProgress` sample of a request: `loaded` of `total` bytes sent. */
  datatype Sample = Sample(loaded: real, total: real)
  type Tick = s: Sample | 0.0 <= s.loaded <= s.total && 0.0 < s.total witness Sample(0.0, 1.0)

  /** How the environment answers one iteration of the loop. */
  datatype Outcome =
    | ReadError(pauseRequested: bool)                          // the FileReader inside encryptFile fails
    | Reply(pauseRequested: bool, ticks: seq<Tick>, ok: bool)  // axios.post resolves (ok) or rejects
  {
    /** The iteration ends normally and the loop moves on to the next chunk. */
    predicate Advances() { Reply? && ok }
    /** The POST was rejected. */
    predicate Rejected() { Reply? && !ok }
  }

  /** The encryption of a chunk, and the answers to the loop's iterations,
      numbered from 0 over the life of the uploader. */
  datatype Env = Env(cipher: seq<byte> -> seq<byte>, net: nat -> Outcome)

  /** The error handed to `onError`: the rejected request, or a message. */
  datatype Reason = RequestError | Message(text: string)

  /** What the outside world observes: requests and callback invocations. */
  datatype Event =
    | Post(chunkNumber: nat, totalChunks: nat, body: seq<byte>)  // axios.post(url, formData)
    | Progress(percent: real)                                    // onProgress(progress)
    | Success(message: string)                                   // onSuccess(message)
    | Error(reason: Reason)                                      // onError(reason)
  {
    /** A call of `onSuccess` or `onError`. */
    predicate Notifies() { Success? || Error? }
  }

  /** How a pass ends: `Completed` and `Stopped` return normally (the latter
      when `pause` ends the loop early), the other two throw. */
  datatype Exit = Completed | Stopped | EncryptThrew | PostThrew
  {
    predicate Threw() { EncryptThrew? || PostThrew? }
  }

  /** A pass's events, how it ended, the final `currentChunk`, the `pause`
      flag it leaves, and the number of the next unused answer. */
  datatype Run = Run(events: seq<Event>, exit: Exit, current: nat, pause: bool, used: nat)

  /** The request that posts chunk `k` (0-based). */
  function PostOf(data: seq<byte>, chunkSize: nat, total: nat, env: Env, k: nat): (e: Event)
  {
    Post(k + 1, total, env.cipher(Slice(data, k, chunkSize)))
  }

  /** The requests for chunks `lo .. hi-1`, in ascending order. */
  function PostsOf(data: seq<byte>, chunkSize: nat, total: nat, env: Env, lo: nat, hi: nat): seq<Event>
    requires lo <= hi
    decreases hi - lo
  {
    if lo == hi then [] else [PostOf(data, chunkSize, total, env, lo)] + PostsOf(data, chunkSize, total, env, lo + 1, hi)
  }

  /** The `onProgress` calls made while chunk `chunk` is posted. */
  function Reports(chunk: nat, total: nat, ticks: seq<Tick>): seq<Event>
    requires chunk < total
  {
    if ticks == [] then []
    else [Progress(Percent(chunk, ticks[0].loaded, ticks[0].total, total))] + Reports(chunk, total, ticks[1..])
  }

  /** `whole` is `rest` with `prefix` emitted before its events: what a pass
      that already emitted `prefix` comes to when the rest of the loop runs as
      `rest`. */
  predicate Continues(whole: Run, prefix: seq<Event>, rest: Run)
  {
    && whole.events == prefix + rest.events
    && whole.exit == rest.exit && whole.current == rest.current
    && whole.pause == rest.pause && whole.used == rest.used
  }

  /** The events of one iteration of the loop for chunk `current`, given the
      environment's answer: nothing when reading the chunk fails; otherwise
      the POST of the encrypted chunk, the `onProgress` calls made while it is
      in flight, and `onError` when the POST is rejected. */
  function Iteration(data: seq<byte>, chunkSize: nat, total: nat, env: Env, current: nat, o: Outcome): (sent: seq<Event>)
    requires current < total
  {
    match o
    case ReadError(_) => []
    case Reply(_, ticks, ok) =>
      [PostOf(data, chunkSize, total, env, current)] + Reports(current, total, ticks)
        + (if ok then [] else [Error(RequestError)])
  }

  /** The `while` loop from `currentChunk == current` on, followed by the
      final `currentChunk === totalChunks` test. An iteration whose read or
      POST fails throws out of the loop with `currentChunk` unchanged. */
  function Loop(data: seq<byte>, chunkSize: nat, total: nat, env: Env, current: nat, pause: bool, used: nat): (r: Run)
    requires current <= total
    ensures current <= r.current <= total
    ensures used <= r.used
    decreases total - current
  {
    if current < total && !pause then
      var o := env.net(used);
      var sent := Iteration(data, chunkSize, total, env, current, o);
      if o.Advances() then
        var rest := Loop(data, chunkSize, total, env, current + 1, o.pauseRequested, used + 1);
        rest.(events := sent + rest.events)
      else
        Run(sent, if o.ReadError? then EncryptThrew else PostThrew, current, o.pauseRequested, used + 1)
    else if current == total then
      Run([Success(SuccessMessage)], Completed, current, pause, used)
    else
      Run([], Stopped, current, pause, used)
  }

  /** An iteration whose POST succeeds emits its events and moves on to the
      next chunk. */
  lemma LoopAdvances(data: seq<byte>, chunkSize: nat, total: nat, env: Env, current: nat, used: nat)
    requires current < total && env.net(used).Advances()
    ensures var next := Loop(data, chunkSize, total, env, current + 1, env.net(used).pauseRequested, used + 1);
      Loop(data, chunkSize, total, env, current, false, used)
        == next.(events := Iteration(data, chunkSize, total, env, current, env.net(used)) + next.events)
  {
  }

  /** An iteration whose read or POST fails emits its events and throws out
      of the loop with `currentChunk` unchanged. */
  lemma LoopThrows(data: seq<byte>, chunkSize: nat, total: nat, env: Env, current: nat, used: nat)
    requires current < total && !env.net(used).Advances()
    ensures var o := env.net(used);
      Loop(data, chunkSize, total, env, current, false, used)
        == Run(Iteration(data, chunkSize, total, env, current, o),
               if o.ReadError? then EncryptThrew else PostThrew, current, o.pauseRequested, used + 1)
  {
  }

  /** A whole pass of `uploadFileInChunks`: the loop from chunk 0 over
      `ceil(size / chunkSize)` chunks. */
  function Pass(data: seq<byte>, chunkSize: nat, env: Env, pause: bool, used: nat): (r: Run)
    requires chunkSize > 0
  {
    Loop(data, chunkSize, TotalChunks(|data|, chunkSize), env, 0, pause, used)
  }

  /** The requests among some events. */
  function Requests(events: seq<Event>): seq<Event>
  {
    if events == [] then []
    else (if events[0].Post? then [events[0]] else []) + Requests(events[1..])
  }

  /** The percentages reported among some events. */
  function Percents(events: seq<Event>): seq<real>
  {
    if events == [] then []
    else (if events[0].Progress? then [events[0].percent] else []) + Percents(events[1..])
  }

  predicate NonDecreasing(s: seq<real>)
  {
    forall i, j :: 0 <= i < j < |s| ==> s[i] <= s[j]
  }

  /** The samples of one request never report a smaller fraction sent after a larger one. */
  predicate Rising(ticks: seq<Tick>)
  {
    forall i, j :: 0 <= i < j < |ticks| ==> ticks[i].loaded / ticks[i].total <= ticks[j].loaded / ticks[j].total
  }

  lemma AppendAssoc<T>(a: seq<T>, b: seq<T>, c: seq<T>)
    ensures (a + b) + c == a + (b + c)
  {
  }

  lemma {:induction false} RequestsAppend(a: seq<Event>, b: seq<Event>)
    ensures Requests(a + b) == Requests(a) + Requests(b)
  {
    if a != [] {
      assert (a + b)[1..] == a[1..] + b;
      RequestsAppend(a[1..], b);
    } else {
      assert a + b == b;
    }
  }

  lemma {:induction false} PercentsAppend(a: seq<Event>, b: seq<Event>)
    ensures Percents(a + b) == Percents(a) + Percents(b)
  {
    if a != [] {
      assert (a + b)[1..] == a[1..] + b;
      PercentsAppend(a[1..], b);
    } else {
      assert a + b == b;
    }
  }

  /** One `onProgress` call per sample, in order, each with the percentage of
      its own sample. */
  lemma {:induction false} ReportsShape(chunk: nat, total: nat, ticks: seq<Tick>)
    requires chunk < total
    ensures |Reports(chunk, total, ticks)| == |ticks|
    ensures forall j :: 0 <= j < |ticks| ==>
              Reports(chunk, total, ticks)[j] == Progress(Percent(chunk, ticks[j].loaded, ticks[j].total, total))
    decreases |ticks|
  {
    if ticks != [] {
      ReportsShape(chunk, total, ticks[1..]);
    }
  }

  lemma {:induction false} ReportsAreNotRequests(chunk: nat, total: nat, ticks: seq<Tick>)
    requires chunk < total
    ensures Requests(Reports(chunk, total, ticks)) == []
    decreases |ticks|
  {
    var evs := Reports(chunk, total, ticks);
    if ticks != [] {
      assert evs[1..] == Reports(chunk, total, ticks[1..]);
      ReportsAreNotRequests(chunk, total, ticks[1..]);
    }
  }

  /** The percentages of the `onProgress` calls made while one chunk is posted. */
  lemma {:induction false} ReportsPercents(chunk: nat, total: nat, ticks: seq<Tick>)
    requires chunk < total
    ensures |Percents(Reports(chunk, total, ticks))| == |ticks|
    ensures forall j :: 0 <= j < |ticks| ==>
              Percents(Reports(chunk, total, ticks))[j] == Percent(chunk, ticks[j].loaded, ticks[j].total, total)
    decreases |ticks|
  {
    var evs := Reports(chunk, total, ticks);
    if ticks != [] {
      assert evs[1..] == Reports(chunk, total, ticks[1..]);
      ReportsPercents(chunk, total, ticks[1..]);
    }
  }

  /** What one iteration emits. A chunk that was read is posted once, before
      anything else, and the only other events are its progress reports and,
      last and exactly when the POST is rejected, `onError`; a chunk that
      could not be read emits nothing. */
  lemma IterationEvents(data: seq<byte>, chunkSize: nat, total: nat, env: Env, current: nat, o: Outcome)
    requires current < total
    ensures var sent := Iteration(data, chunkSize, total, env, current, o);
      && Requests(sent) == (if o.Reply? then [PostOf(data, chunkSize, total, env, current)] else [])
      && Percents(sent) == (if o.Reply? then Percents(Reports(current, total, o.ticks)) else [])
      && (forall i :: 0 <= i < |sent| && !(o.Rejected() && i == |sent| - 1) ==> sent[i].Post? || sent[i].Progress?)
      && (o.Rejected() ==> |sent| > 0 && sent[|sent| - 1] == Error(RequestError))
      && (o.Reply? ==> sent[0] == PostOf(data, chunkSize, total, env, current))
  {
    if o.Reply? {
      var sent := Iteration(data, chunkSize, total, env, current, o);
      var post := [PostOf(data, chunkSize, total, env, current)];
      var reports := Reports(current, total, o.ticks);
      var tail: seq<Event> := if o.ok then [] else [Error(RequestError)];
      assert sent == post + reports + tail;
      assert Requests(sent) == post by {
        RequestsAppend(post, reports);
        RequestsAppend(post + reports, tail);
        ReportsAreNotRequests(current, total, o.ticks);
        assert Requests(tail) == [];
      }
      assert Percents(sent) == Percents(reports) by {
        PercentsAppend(post, reports);
        PercentsAppend(post + reports, tail);
        assert Percents(post) == [];
        assert Percents(tail) == [];
      }
      forall i | 0 <= i < |sent| && !(o.Rejected() && i == |sent| - 1)
        ensures sent[i].Post? || sent[i].Progress?
      {
        ReportsShape(current, total, o.ticks);
        if 0 < i < 1 + |reports| {
          assert sent[i] == reports[i - 1];
        }
      }
    }
  }

  /** A pass posts the chunks from `current` on, in ascending order, each once,
      each tagged with its 1-based number and the same `totalChunks`, each
      carrying the encryption of its own slice. `currentChunk` advances past a
      chunk only once its POST has succeeded: the last chunk posted by a pass
      that ends in a failed POST is the chunk it stopped at, and nothing is
      posted after it. */
  lemma {:induction false} PassRequests(data: seq<byte>, chunkSize: nat, total: nat, env: Env, current: nat, pause: bool, used: nat)
    requires current <= total
    ensures var r := Loop(data, chunkSize, total, env, current, pause, used);
      Requests(r.events)
        == PostsOf(data, chunkSize, total, env, current, r.current)
         + (if r.exit == PostThrew then [PostOf(data, chunkSize, total, env, r.current)] else [])
    decreases total - current
  {
    var r := Loop(data, chunkSize, total, env, current, pause, used);
    if current < total && !pause {
      var o := env.net(used);
      var sent := Iteration(data, chunkSize, total, env, current, o);
      IterationEvents(data, chunkSize, total, env, current, o);
      if o.Advances() {
        var rest := Loop(data, chunkSize, total, env, current + 1, o.pauseRequested, used + 1);
        assert r == rest.(events := sent + rest.events);
        PassRequests(data, chunkSize, total, env, current + 1, o.pauseRequested, used + 1);
        RequestsAppend(sent, rest.events);
      } else {
        assert r.events == sent && r.current == current;
        assert PostsOf(data, chunkSize, total, env, current, r.current) == [];
      }
    } else {
      assert Requests(r.events) == [];
      assert PostsOf(data, chunkSize, total, env, current, r.current) == [];
    }
  }

  /** The notification a pass ends with, given how it ended: `onSuccess`
      once every chunk is sent, `onError` after a rejected POST, and nothing
      when `pause` stopped it or a read failed. */
  function Notice(exit: Exit): (n: seq<Event>)
    ensures |n| <= 1
    ensures forall e :: e in n ==> e.Notifies()
  {
    match exit
    case Completed => [Success(SuccessMessage)]
    case PostThrew => [Error(RequestError)]
    case _ => []
  }

  /** Every event of `r` is a request or a progress report, except for a
      final notification, which is the one its ending calls for. */
  predicate EndsWithNotice(r: Run)
  {
    var n := |r.events| - |Notice(r.exit)|;
    && 0 <= n
    && r.events[n..] == Notice(r.exit)
    && forall i :: 0 <= i < n ==> !r.events[i].Notifies()
  }

  /** Events without notifications emitted before a well-shaped run keep it
      well-shaped. */
  lemma PrependQuiet(sent: seq<Event>, rest: Run)
    requires forall i :: 0 <= i < |sent| ==> !sent[i].Notifies()
    requires EndsWithNotice(rest)
    ensures EndsWithNotice(rest.(events := sent + rest.events))
  {
    var r := rest.(events := sent + rest.events);
    var m := |rest.events| - |Notice(rest.exit)|;
    assert r.events[|sent| + m..] == rest.events[m..];
    forall i | 0 <= i < |sent| + m
      ensures !r.events[i].Notifies()
    {
      if i >= |sent| {
        assert r.events[i] == rest.events[i - |sent|];
      }
    }
  }

  /** How a pass over `total` chunks may end: with the notification its
      ending calls for and no other; completed exactly when `currentChunk`
      reached `total`; stopped early only with `pause` set. */
  predicate EndsWell(r: Run, total: nat)
  {
    && EndsWithNotice(r)
    && (r.exit == Completed <==> r.current == total)
    && (r.exit == Stopped ==> r.pause)
  }

  /** An iteration whose POST succeeds adds only requests and progress
      reports in front of a well-ending rest of the loop. */
  lemma AdvanceEndsWell(data: seq<byte>, chunkSize: nat, total: nat, env: Env, current: nat, used: nat)
    requires current < total && env.net(used).Advances()
    requires EndsWell(Loop(data, chunkSize, total, env, current + 1, env.net(used).pauseRequested, used + 1), total)
    ensures EndsWell(Loop(data, chunkSize, total, env, current, false, used), total)
  {
    var o := env.net(used);
    var sent := Iteration(data, chunkSize, total, env, current, o);
    var rest := Loop(data, chunkSize, total, env, current + 1, o.pauseRequested, used + 1);
    LoopAdvances(data, chunkSize, total, env, current, used);
    IterationEvents(data, chunkSize, total, env, current, o);
    PrependQuiet(sent, rest);
  }

  /** An iteration whose read or POST fails ends the pass: with no
      notification after a failed read, with `onError` after a rejected POST. */
  lemma ThrowEndsWell(data: seq<byte>, chunkSize: nat, total: nat, env: Env, current: nat, used: nat)
    requires current < total && !env.net(used).Advances()
    ensures EndsWell(Loop(data, chunkSize, total, env, current, false, used), total)
  {
    var o := env.net(used);
    var sent := Iteration(data, chunkSize, total, env, current, o);
    var r := Loop(data, chunkSize, total, env, current, false, used);
    assert r.events == sent && r.exit == (if o.ReadError? then EncryptThrew else PostThrew) by {
      LoopThrows(data, chunkSize, total, env, current, used);
    }
    if o.ReadError? {
      assert sent == [];
    } else {
      IterationEvents(data, chunkSize, total, env, current, o);
      assert sent[|sent| - 1..] == [Error(RequestError)];
    }
  }

  /** The loop exits at its test: completed at `totalChunks`, stopped by
      `pause` otherwise. */
  lemma ExitEndsWell(data: seq<byte>, chunkSize: nat, total: nat, env: Env, current: nat, pause: bool, used: nat)
    requires current <= total && (current == total || pause)
    ensures EndsWell(Loop(data, chunkSize, total, env, current, pause, used), total)
  {
  }

  /** Every event of a pass is a request or a progress report, except for a
      final notification, which is the one its ending calls for. The loop
      ends with `currentChunk === totalChunks` exactly when it completed, and
      it stops early only with `pause` set. */
  lemma {:induction false} PassShape(data: seq<byte>, chunkSize: nat, total: nat, env: Env, current: nat, pause: bool, used: nat)
    requires current <= total
    ensures EndsWell(Loop(data, chunkSize, total, env, current, pause, used), total)
    decreases total - current
  {
    if current < total && !pause {
      if env.net(used).Advances() {
        PassShape(data, chunkSize, total, env, current + 1, env.net(used).pauseRequested, used + 1);
        AdvanceEndsWell(data, chunkSize, total, env, current, used);
      } else {
        ThrowEndsWell(data, chunkSize, total, env, current, used);
      }
    } else {
      ExitEndsWell(data, chunkSize, total, env, current, pause, used);
    }
  }

  /** A pass notifies at most once, and only in its last event: `onSuccess`
      exactly when the loop ended with `currentChunk === totalChunks`, and
      `onError` exactly when a POST failed. A failed read of the chunk throws
      without any notification, and so does a pass that `pause` stopped
      early. */
  lemma PassNotifications(data: seq<byte>, chunkSize: nat, total: nat, env: Env, current: nat, pause: bool, used: nat)
    requires current <= total
    ensures var r := Loop(data, chunkSize, total, env, current, pause, used);
      && (forall i :: 0 <= i < |r.events| - 1 ==> !r.events[i].Success? && !r.events[i].Error?)
      && (r.exit == Completed <==> r.current == total)
      && (r.exit == Completed <==> |r.events| > 0 && r.events[|r.events| - 1].Success?)
      && (r.exit == Completed ==> r.events[|r.events| - 1] == Success(SuccessMessage))
      && (r.exit == PostThrew <==> |r.events| > 0 && r.events[|r.events| - 1].Error?)
      && (r.exit == PostThrew ==> r.events[|r.events| - 1] == Error(RequestError))
      && (r.exit == Stopped ==> r.pause)
  {
    var r := Loop(data, chunkSize, total, env, current, pause, used);
    PassShape(data, chunkSize, total, env, current, pause, used);
    var n := |r.events| - |Notice(r.exit)|;
    forall i | 0 <= i < |r.events| - 1
      ensures !r.events[i].Notifies()
    {
    }
    if |r.events| > 0 {
      if n < |r.events| {
        assert r.events[|r.events| - 1] == Notice(r.exit)[0];
      } else {
        assert !r.events[|r.events| - 1].Notifies();
      }
    }
  }

  /** When every answer from `used` on is a successful POST with no pause, the
      pass runs to the end: it posts every remaining chunk, uses one answer
      per chunk, and reports success. */
  lemma {:induction false} PassCompletes(data: seq<byte>, chunkSize: nat, total: nat, env: Env, current: nat, used: nat)
    requires current <= total
    requires forall k :: used <= k < used + (total - current) ==>
               env.net(k).Reply? && env.net(k).ok && !env.net(k).pauseRequested
    ensures var r := Loop(data, chunkSize, total, env, current, false, used);
      r.exit == Completed && r.current == total && r.used == used + (total - current) && !r.pause
    decreases total - current
  {
    if current < total {
      assert env.net(used).Reply?;
      PassCompletes(data, chunkSize, total, env, current + 1, used + 1);
    }
  }

  /** A pass reaches `onSuccess` only if every chunk it posted was accepted
      and no pause was requested while any but the last of them was in
      flight; it then used exactly one answer per chunk. */
  lemma {:induction false} SuccessNeedsNoPause(data: seq<byte>, chunkSize: nat, total: nat, env: Env, current: nat, pause: bool, used: nat)
    requires current <= total
    ensures var r := Loop(data, chunkSize, total, env, current, pause, used);
      r.exit == Completed ==>
        && r.used == used + (total - current)
        && (current < total ==> !pause)
        && (forall k :: used <= k < r.used ==> env.net(k).Advances())
        && (forall k :: used <= k < r.used - 1 ==> !env.net(k).pauseRequested)
    decreases total - current
  {
    if current < total && !pause && env.net(used).Advances() {
      SuccessNeedsNoPause(data, chunkSize, total, env, current + 1, env.net(used).pauseRequested, used + 1);
    }
  }

  /** `currentChunk` moves past a chunk only once that chunk's POST has
      succeeded: every answer that advanced the loop was an accepted POST,
      whatever way the pass ended. */
  lemma {:induction false} AdvancesOnlyOnSuccess(data: seq<byte>, chunkSize: nat, total: nat, env: Env, current: nat, pause: bool, used: nat)
    requires current <= total
    ensures var r := Loop(data, chunkSize, total, env, current, pause, used);
      && used + (r.current - current) <= r.used
      && forall k :: used <= k < used + (r.current - current) ==> env.net(k).Advances()
    decreases total - current
  {
    var r := Loop(data, chunkSize, total, env, current, pause, used);
    if current < total && !pause && env.net(used).Advances() {
      var rest := Loop(data, chunkSize, total, env, current + 1, env.net(used).pauseRequested, used + 1);
      assert r.current == rest.current && r.used == rest.used by {
        LoopAdvances(data, chunkSize, total, env, current, used);
      }
      AdvancesOnlyOnSuccess(data, chunkSize, total, env, current + 1, env.net(used).pauseRequested, used + 1);
    } else if current < total && !pause {
      assert r.current == current by {
        LoopThrows(data, chunkSize, total, env, current, used);
      }
    }
  }

  /** A pause requested while chunk `current` is in flight lets that chunk
      finish and keeps the next one from starting: the pass emits exactly
      that iteration's events and stops one chunk further on with `pause`
      set. Requested during the last chunk, it comes too late, and the pass
      completes. */
  lemma PauseBoundary(data: seq<byte>, chunkSize: nat, total: nat, env: Env, current: nat, used: nat)
    requires current < total && env.net(used).Advances() && env.net(used).pauseRequested
    ensures var r := Loop(data, chunkSize, total, env, current, false, used);
      && r.events == Iteration(data, chunkSize, total, env, current, env.net(used))
                     + (if current + 1 == total then [Success(SuccessMessage)] else [])
      && r.exit == (if current + 1 == total then Completed else Stopped)
      && r.current == current + 1 && r.pause && r.used == used + 1
      && Requests(r.events) == [PostOf(data, chunkSize, total, env, current)]
  {
    var o := env.net(used);
    var sent := Iteration(data, chunkSize, total, env, current, o);
    var r := Loop(data, chunkSize, total, env, current, false, used);
    var rest := Loop(data, chunkSize, total, env, current + 1, true, used + 1);
    assert r == rest.(events := sent + rest.events) by {
      LoopAdvances(data, chunkSize, total, env, current, used);
    }
    assert Requests(r.events) == [PostOf(data, chunkSize, total, env, current)] by {
      IterationEvents(data, chunkSize, total, env, current, o);
      RequestsAppend(sent, rest.events);
      assert Requests(rest.events) == [];
    }
  }

  /** A pass that starts with `pause` set and chunks left does nothing at all. */
  lemma PausedPassIsSilent(data: seq<byte>, chunkSize: nat, total: nat, env: Env, current: nat, used: nat)
    requires current < total
    ensures Loop(data, chunkSize, total, env, current, true, used) == Run([], Stopped, current, true, used)
  {
  }

  /** A zero-byte file has no chunks: no POST is made and `onSuccess` fires
      at once, whether or not `pause` is set. */
  lemma EmptyFile(data: seq<byte>, chunkSize: nat, env: Env, pause: bool, used: nat)
    requires chunkSize > 0 && |data| == 0
    ensures Pass(data, chunkSize, env, pause, used) == Run([Success(SuccessMessage)], Completed, 0, pause, used)
  {
  }

  lemma ConcatNonDecreasing(a: seq<real>, b: seq<real>)
    requires NonDecreasing(a) && NonDecreasing(b)
    requires forall i, j :: 0 <= i < |a| && 0 <= j < |b| ==> a[i] <= b[j]
    ensures NonDecreasing(a + b)
  {
  }

  /** Each percentage reported while chunk `current` is posted lies between
      the start of this chunk and the start of the next (or 100). */
  lemma ReportsBounded(current: nat, total: nat, ticks: seq<Tick>)
    requires current < total
    ensures var ps := Percents(Reports(current, total, ticks));
      forall j :: 0 <= j < |ps| ==>
        && Percent(current, 0.0, 1.0, total) <= ps[j] <= 100.0
        && (current + 1 < total ==> ps[j] <= Percent(current + 1, 0.0, 1.0, total))
  {
    ReportsPercents(current, total, ticks);
    var ps := Percents(Reports(current, total, ticks));
    forall j | 0 <= j < |ps|
      ensures Percent(current, 0.0, 1.0, total) <= ps[j] <= 100.0
      ensures current + 1 < total ==> ps[j] <= Percent(current + 1, 0.0, 1.0, total)
    {
      PercentMonotone(current, 0.0, 1.0, ticks[j].loaded, ticks[j].total, total);
      PercentInRange(current, ticks[j].loaded, ticks[j].total, total);
      if current + 1 < total {
        PercentAcrossChunks(current, ticks[j].loaded, ticks[j].total, current + 1, 0.0, 1.0, total);
      }
    }
  }

  /** The percentages reported while one chunk is posted rise with its samples. */
  lemma ReportsRise(current: nat, total: nat, ticks: seq<Tick>)
    requires current < total
    requires Rising(ticks)
    ensures NonDecreasing(Percents(Reports(current, total, ticks)))
  {
    ReportsPercents(current, total, ticks);
    var ps := Percents(Reports(current, total, ticks));
    forall i, j | 0 <= i < j < |ps|
      ensures ps[i] <= ps[j]
    {
      PercentMonotone(current, ticks[i].loaded, ticks[i].total, ticks[j].loaded, ticks[j].total, total);
    }
  }

  /** The percentages one iteration reports rise and stay within the
      iteration's own chunk. */
  lemma IterationRises(data: seq<byte>, chunkSize: nat, total: nat, env: Env, current: nat, o: Outcome)
    requires current < total
    requires o.Reply? ==> Rising(o.ticks)
    ensures var ps := Percents(Iteration(data, chunkSize, total, env, current, o));
      && NonDecreasing(ps)
      && forall j :: 0 <= j < |ps| ==>
        && Percent(current, 0.0, 1.0, total) <= ps[j] <= 100.0
        && (current + 1 < total ==> ps[j] <= Percent(current + 1, 0.0, 1.0, total))
  {
    IterationEvents(data, chunkSize, total, env, current, o);
    if o.Reply? {
      ReportsBounded(current, total, o.ticks);
      ReportsRise(current, total, o.ticks);
    }
  }

  /** When every request's samples rise, the percentages a pass reports never
      decrease, and all lie between `current / totalChunks * 100` and 100. */
  lemma {:induction false} PassProgressRises(data: seq<byte>, chunkSize: nat, total: nat, env: Env, current: nat, pause: bool, used: nat)
    requires current <= total
    requires forall k :: env.net(k).Reply? ==> Rising(env.net(k).ticks)
    ensures var ps := Percents(Loop(data, chunkSize, total, env, current, pause, used).events);
      && NonDecreasing(ps)
      && forall j :: 0 <= j < |ps| ==> current < total && Percent(current, 0.0, 1.0, total) <= ps[j] <= 100.0
    decreases total - current
  {
    var r := Loop(data, chunkSize, total, env, current, pause, used);
    if current < total && !pause {
      var o := env.net(used);
      var sent := Iteration(data, chunkSize, total, env, current, o);
      var mine := Percents(sent);
      assert NonDecreasing(mine) && forall j :: 0 <= j < |mine| ==>
        Percent(current, 0.0, 1.0, total) <= mine[j] <= 100.0
        && (current + 1 < total ==> mine[j] <= Percent(current + 1, 0.0, 1.0, total)) by {
        IterationRises(data, chunkSize, total, env, current, o);
      }
      if o.Advances() {
        var rest := Loop(data, chunkSize, total, env, current + 1, o.pauseRequested, used + 1);
        var theirs := Percents(rest.events);
        assert Percents(r.events) == mine + theirs by {
          LoopAdvances(data, chunkSize, total, env, current, used);
          PercentsAppend(sent, rest.events);
        }
        assert NonDecreasing(theirs) && forall j :: 0 <= j < |theirs| ==>
          current + 1 < total && Percent(current + 1, 0.0, 1.0, total) <= theirs[j] <= 100.0 by {
          PassProgressRises(data, chunkSize, total, env, current + 1, o.pauseRequested, used + 1);
        }
        assert current + 1 < total ==> Percent(current, 0.0, 1.0, total) <= Percent(current + 1, 0.0, 1.0, total) by {
          if current + 1 < total {
            PercentAcrossChunks(current, 0.0, 1.0, current + 1, 0.0, 1.0, total);
          }
        }
        ConcatNonDecreasing(mine, theirs);
      } else {
        assert r.events == sent by {
          LoopThrows(data, chunkSize, total, env, current, used);
        }
      }
    } else {
      assert Percents(r.events) == [];
    }
  }

}
