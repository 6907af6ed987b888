/** The two ways `backend-im deploy` watches a deployment
    (cli/internal/commands/deploy.go): polling the status endpoint
    (`pollForDeploymentURL`) and following the WebSocket stream
    (`streamDeploymentUpdates`).

    Each request and each read is an input; what the user sees is a
    sequence of display events, grouped per request (poll) or per update
    (stream), instead of printed text. */
module Deploy {
  import opened Wrappers
  import opened WebSocket

  /** `maxAttempts` of `pollForDeploymentURL`: one request per second. */
  const MaxAttempts: nat := 30

  /** `StatusResponse` of cli/internal/api/client.go; a missing `url`
      decodes to the empty string. */
  datatype StatusResponse = StatusResponse(
    id: string,
    projectId: string,
    commitHash: string,
    status: string,
    url: string,
    logs: seq<string>)

  /** The outcome of one `GetStatus` call: a decoded response, or the error
      of a failed request (transport failure, non-2xx status, bad JSON). */
  datatype PollOutcome = Observed(response: StatusResponse) | RequestFailed(reason: string)

  /** What the watch shows the user. */
  datatype Event =
    | PollStatusLine(status: string, lastLog: Option<string>)
    | StreamStatusLine(status: string, namespace: Option<string>, pvc: Option<string>)
    | LogLine(text: string)
    | UrlLine(url: string)
    | CompletedLine
    | WarningLine(error: WatchError)
    | WatchHintLine

  /** The errors a watch can end with. */
  datatype WatchError =
    | RequestError(reason: string)
    | DeploymentFailed
    | Timeout(seconds: nat)

  /** The result of `pollForDeploymentURL`: the URL, or an error. */
  datatype PollResult = Found(url: string) | PollFailed(error: WatchError)

  /** One poll: the events shown for each request made, in order (one group
      per request), and the result. */
  datatype PollRun = PollRun(steps: seq<seq<Event>>, result: PollResult)

  /** The last log line, if any. */
  function LastLog(logs: seq<string>): (l: Option<string>)
    ensures l.Some? <==> |logs| > 0
    ensures l.Some? ==> l.value == logs[|logs| - 1]
  {
    if |logs| > 0 then Some(logs[|logs| - 1]) else None
  }

  /** The status an outcome reports ("" for a failed request). */
  function StatusOf(o: PollOutcome): string {
    if o.Observed? then o.response.status else ""
  }

  /** Whether an outcome ends the poll: a failed request, a `failed`
      status, or a `complete` status that carries a URL. */
  predicate Stops(o: PollOutcome) {
    || o.RequestFailed?
    || o.response.status == Failed
    || (o.response.status == Complete && o.response.url != "")
  }

  /** The result a stopping outcome gives. */
  function Verdict(o: PollOutcome): PollResult
    requires Stops(o)
  {
    match o
    case RequestFailed(reason) => PollFailed(RequestError(reason))
    case Observed(s) => if s.status == Complete then Found(s.url) else PollFailed(DeploymentFailed)
  }

  /** A stopping answer gives a URL exactly when it is `complete`, and that
      URL is the answer's, never empty; otherwise it gives an error that is
      never the timeout. */
  lemma VerdictMeaning(o: PollOutcome)
    requires Stops(o)
    ensures Verdict(o).Found? <==> o.Observed? && o.response.status == Complete
    ensures Verdict(o).Found? ==> Verdict(o).url == o.response.url && Verdict(o).url != ""
    ensures !Verdict(o).Found? ==> !Verdict(o).error.Timeout?
  {
  }

  /** The events one poll request shows, given the status shown last: a
      status line with the newest log line, only when the status changed. */
  function Shown(o: PollOutcome, lastStatus: string): seq<Event> {
    match o
    case RequestFailed(_) => []
    case Observed(s) =>
      if s.status != lastStatus then [PollStatusLine(s.status, LastLog(s.logs))] else []
  }

  /** The status request `attempt + j` is compared against when the loop
      starts at `attempt` having last seen `lastStatus`. */
  function StatusBefore(answer: nat -> PollOutcome, attempt: nat, lastStatus: string, j: nat): string {
    if j == 0 then lastStatus else StatusOf(answer(attempt + j - 1))
  }

  /** The status the poll compares request `i` against: "" before the first
      request, then the status of the previous answer. */
  function PreviousStatus(answer: nat -> PollOutcome, i: nat): string {
    StatusBefore(answer, 0, "", i)
  }

  /** The loop of `pollForDeploymentURL` from request number `attempt`
      onwards; `answer(i)` is what the server gives request `i`. */
  function PollFrom(answer: nat -> PollOutcome, attempt: nat, lastStatus: string): PollRun
    requires attempt <= MaxAttempts
    decreases MaxAttempts - attempt
  {
    if attempt == MaxAttempts then PollRun([], PollFailed(Timeout(MaxAttempts)))
    else
      var o := answer(attempt);
      // a failed request, `failed`, or `complete` with a URL ends the loop
      if Stops(o) then PollRun([Shown(o, lastStatus)], Verdict(o))
      else
        // whether or not a line was shown, the last status is now this one
        var rest := PollFrom(answer, attempt + 1, StatusOf(o));
        PollRun([Shown(o, lastStatus)] + rest.steps, rest.result)
  }

  /** The loop from request `attempt` on never exceeds the attempt budget
      and makes at least one request when any is left. */
  lemma {:induction false} PollFromBounds(answer: nat -> PollOutcome, attempt: nat, lastStatus: string)
    requires attempt <= MaxAttempts
    ensures attempt + |PollFrom(answer, attempt, lastStatus).steps| <= MaxAttempts
    ensures attempt < MaxAttempts ==> |PollFrom(answer, attempt, lastStatus).steps| > 0
    decreases MaxAttempts - attempt
  {
    if attempt < MaxAttempts && !Stops(answer(attempt)) {
      PollFromBounds(answer, attempt + 1, StatusOf(answer(attempt)));
    }
  }

  /** The loop goes on past every answer that does not stop it, and ends
      on the first one that does, with its verdict, or on the timeout. */
  lemma {:induction false} PollFromStops(answer: nat -> PollOutcome, attempt: nat, lastStatus: string)
    requires attempt <= MaxAttempts
    ensures var r := PollFrom(answer, attempt, lastStatus);
      && (forall i :: attempt <= i < attempt + |r.steps| - 1 ==> !Stops(answer(i)))
      && (if |r.steps| > 0 && Stops(answer(attempt + |r.steps| - 1))
          then r.result == Verdict(answer(attempt + |r.steps| - 1))
          else attempt + |r.steps| == MaxAttempts && r.result == PollFailed(Timeout(MaxAttempts)))
    decreases MaxAttempts - attempt
  {
    if attempt < MaxAttempts {
      var o := answer(attempt);
      if !Stops(o) {
        var rest := PollFrom(answer, attempt + 1, StatusOf(o));
        PollFromStops(answer, attempt + 1, StatusOf(o));
        var r := PollFrom(answer, attempt, lastStatus);
        assert |r.steps| == 1 + |rest.steps| && r.result == rest.result;
      }
    }
  }

  /** The first request from `attempt` on shows what `Shown` gives against
      `lastStatus`. */
  lemma PollFromFirstStep(answer: nat -> PollOutcome, attempt: nat, lastStatus: string)
    requires attempt < MaxAttempts
    ensures |PollFrom(answer, attempt, lastStatus).steps| > 0
    ensures PollFrom(answer, attempt, lastStatus).steps[0] == Shown(answer(attempt), lastStatus)
  {
  }

  /** Past the first request, the steps from `attempt` are those of the
      loop from `attempt + 1`, which compares against the first answer. */
  lemma PollFromLaterStep(answer: nat -> PollOutcome, attempt: nat, lastStatus: string, j: nat)
    requires attempt < MaxAttempts
    requires 1 <= j < |PollFrom(answer, attempt, lastStatus).steps|
    ensures answer(attempt).Observed? && !Stops(answer(attempt))
    ensures j - 1 < |PollFrom(answer, attempt + 1, StatusOf(answer(attempt))).steps|
    ensures PollFrom(answer, attempt, lastStatus).steps[j] ==
      PollFrom(answer, attempt + 1, StatusOf(answer(attempt))).steps[j - 1]
  {
  }

  /** Request `attempt + j` shows a status line exactly when its status
      differs from the one before it (from `lastStatus` for the first). */
  lemma {:induction false} PollFromStepAt(answer: nat -> PollOutcome, attempt: nat, lastStatus: string, j: nat)
    requires attempt <= MaxAttempts
    requires j < |PollFrom(answer, attempt, lastStatus).steps|
    ensures PollFrom(answer, attempt, lastStatus).steps[j] ==
      Shown(answer(attempt + j), StatusBefore(answer, attempt, lastStatus, j))
    decreases j, 1
  {
    if j == 0 {
      PollFromFirstStep(answer, attempt, lastStatus);
    } else {
      PollFromStepAfterFirst(answer, attempt, lastStatus, j);
      assert StatusBefore(answer, attempt + 1, StatusOf(answer(attempt)), j - 1) == StatusBefore(answer, attempt, lastStatus, j);
    }
  }

  /** The case `j > 0` of `PollFromStepAt`: the step is step `j - 1` of the
      loop from `attempt + 1`, which compares against the first answer. */
  lemma {:induction false} PollFromStepAfterFirst(answer: nat -> PollOutcome, attempt: nat, lastStatus: string, j: nat)
    requires attempt < MaxAttempts
    requires 1 <= j < |PollFrom(answer, attempt, lastStatus).steps|
    ensures PollFrom(answer, attempt, lastStatus).steps[j] ==
      Shown(answer(attempt + j), StatusBefore(answer, attempt + 1, StatusOf(answer(attempt)), j - 1))
    decreases j, 0
  {
    PollFromLaterStep(answer, attempt, lastStatus, j);
    PollFromStepAt(answer, attempt + 1, StatusOf(answer(attempt)), j - 1);
  }

  /** `pollForDeploymentURL`. */
  function Poll(answer: nat -> PollOutcome): (r: PollRun)
    ensures 1 <= |r.steps| <= MaxAttempts
    ensures forall i :: 0 <= i < |r.steps| - 1 ==> !Stops(answer(i))
    ensures Stops(answer(|r.steps| - 1)) ==> r.result == Verdict(answer(|r.steps| - 1))
    ensures !Stops(answer(|r.steps| - 1)) ==>
      |r.steps| == MaxAttempts && r.result == PollFailed(Timeout(MaxAttempts))
    ensures forall i {:trigger r.steps[i]} :: 0 <= i < |r.steps| ==>
      r.steps[i] == Shown(answer(i), PreviousStatus(answer, i))
  {
    PollStartBounds(answer);
    PollStartStops(answer);
    PollStartSteps(answer);
    PollFrom(answer, 0, "")
  }

  /** The whole poll makes between 1 and 30 requests. */
  lemma PollStartBounds(answer: nat -> PollOutcome)
    ensures 1 <= |PollFrom(answer, 0, "").steps| <= MaxAttempts
  {
    PollFromBounds(answer, 0, "");
  }

  /** The whole poll ends on its first stopping answer or on the timeout. */
  lemma PollStartStops(answer: nat -> PollOutcome)
    requires 1 <= |PollFrom(answer, 0, "").steps|
    ensures forall i :: 0 <= i < |PollFrom(answer, 0, "").steps| - 1 ==> !Stops(answer(i))
    ensures Stops(answer(|PollFrom(answer, 0, "").steps| - 1)) ==>
      PollFrom(answer, 0, "").result == Verdict(answer(|PollFrom(answer, 0, "").steps| - 1))
    ensures !Stops(answer(|PollFrom(answer, 0, "").steps| - 1)) ==>
      |PollFrom(answer, 0, "").steps| == MaxAttempts && PollFrom(answer, 0, "").result == PollFailed(Timeout(MaxAttempts))
  {
    PollFromStops(answer, 0, "");
  }

  /** Request `i` of the whole poll shows what `Shown` gives against the
      previous answer's status. */
  lemma PollStartSteps(answer: nat -> PollOutcome)
    ensures forall i {:trigger PollFrom(answer, 0, "").steps[i]} :: 0 <= i < |PollFrom(answer, 0, "").steps| ==>
      PollFrom(answer, 0, "").steps[i] == Shown(answer(i), PreviousStatus(answer, i))
  {
    var steps := PollFrom(answer, 0, "").steps;
    forall i | 0 <= i < |steps|
      ensures steps[i] == Shown(answer(i), PreviousStatus(answer, i))
    {
      PollFromStepAt(answer, 0, "", i);
    }
  }

  /** Request `k` is the first one whose answer stops the poll. */
  predicate FirstStopAt(answer: nat -> PollOutcome, k: nat) {
    k < MaxAttempts && Stops(answer(k)) && forall j :: 0 <= j < k ==> !Stops(answer(j))
  }

  /** The poll makes exactly the requests up to the first stopping answer
      and ends with that answer's verdict; in particular a failed request
      ends it at once with that same error, and nothing is retried. */
  lemma PollEndsAtFirstStop(answer: nat -> PollOutcome, k: nat)
    requires FirstStopAt(answer, k)
    ensures |Poll(answer).steps| == k + 1
    ensures Poll(answer).result == Verdict(answer(k))
    ensures answer(k).RequestFailed? ==> Poll(answer).result == PollFailed(RequestError(answer(k).reason))
  {
  }

  /** A poll that timed out saw no stopping answer in all 30 requests. */
  lemma PollTimeoutMeansNoStop(answer: nat -> PollOutcome)
    requires Poll(answer).result == PollFailed(Timeout(MaxAttempts))
    ensures forall i :: 0 <= i < MaxAttempts ==> !Stops(answer(i))
  {
    var r := Poll(answer);
    var last := |r.steps| - 1;
    if Stops(answer(last)) {
      assert false;
    }
    forall i | 0 <= i < MaxAttempts
      ensures !Stops(answer(i))
    {
      if i != last {
        assert i < |r.steps| - 1;
      }
    }
  }

  /** When none of the 30 answers stops the poll, it makes all 30
      requests and times out. */
  lemma PollRunsOut(answer: nat -> PollOutcome)
    requires forall i :: 0 <= i < MaxAttempts ==> !Stops(answer(i))
    ensures |Poll(answer).steps| == MaxAttempts
    ensures Poll(answer).result == PollFailed(Timeout(MaxAttempts))
  {
    assert !Stops(answer(|Poll(answer).steps| - 1));
  }

  /** The poll times out exactly when none of the 30 answers stops it. */
  lemma PollTimeoutIff(answer: nat -> PollOutcome)
    ensures Poll(answer).result == PollFailed(Timeout(MaxAttempts)) <==>
      forall i :: 0 <= i < MaxAttempts ==> !Stops(answer(i))
  {
    var r := Poll(answer);
    if r.result == PollFailed(Timeout(MaxAttempts)) {
      PollTimeoutMeansNoStop(answer);
    } else {
      var last := |r.steps| - 1;
      assert Stops(answer(last));
    }
  }

  /** The poll yields a URL only from the first stopping answer, which is a
      `complete` response with exactly that non-empty URL. */
  lemma PollFoundOnlyOnCompleteWithURL(answer: nat -> PollOutcome)
    ensures Poll(answer).result.Found? <==>
      exists k :: FirstStopAt(answer, k) && answer(k).Observed? && answer(k).response.status == Complete
    ensures Poll(answer).result.Found? ==>
      var k := |Poll(answer).steps| - 1;
      && FirstStopAt(answer, k)
      && answer(k) == Observed(answer(k).response)
      && answer(k).response.status == Complete
      && Poll(answer).result.url == answer(k).response.url != ""
  {
    var r := Poll(answer);
    if r.result.Found? {
      assert FirstStopAt(answer, |r.steps| - 1);
    }
    if exists k :: FirstStopAt(answer, k) && answer(k).Observed? && answer(k).response.status == Complete {
      var k :| FirstStopAt(answer, k) && answer(k).Observed? && answer(k).response.status == Complete;
      PollEndsAtFirstStop(answer, k);
    }
  }

  /** No request is made after the poll has stopped: two servers that give
      the same answers to the requests the poll made yield the same run. */
  lemma PollReadsOnlyConsumed(a: nat -> PollOutcome, b: nat -> PollOutcome)
    requires forall i :: 0 <= i < |Poll(a).steps| ==> a(i) == b(i)
    ensures Poll(a) == Poll(b)
  {
    PollFromReadsOnlyConsumed(a, b, 0, "");
  }

  /** The same for the loop from request `attempt` on. */
  lemma {:induction false} PollFromReadsOnlyConsumed(a: nat -> PollOutcome, b: nat -> PollOutcome, attempt: nat, lastStatus: string)
    requires attempt <= MaxAttempts
    requires forall i :: attempt <= i < attempt + |PollFrom(a, attempt, lastStatus).steps| ==> a(i) == b(i)
    ensures PollFrom(a, attempt, lastStatus) == PollFrom(b, attempt, lastStatus)
    decreases MaxAttempts - attempt
  {
    if attempt < MaxAttempts {
      var o := a(attempt);
      assert b(attempt) == o;
      if Stops(o) {
        assert PollFrom(a, attempt, lastStatus) == PollRun([Shown(o, lastStatus)], Verdict(o));
        assert PollFrom(b, attempt, lastStatus) == PollRun([Shown(o, lastStatus)], Verdict(o));
      } else {
        var rest := PollFrom(a, attempt + 1, StatusOf(o));
        assert PollFrom(a, attempt, lastStatus) == PollRun([Shown(o, lastStatus)] + rest.steps, rest.result);
        assert PollFrom(b, attempt + 1, StatusOf(o)) == rest by {
          PollFromReadsOnlyConsumed(a, b, attempt + 1, StatusOf(o));
        }
        assert PollFrom(b, attempt, lastStatus) == PollRun([Shown(o, lastStatus)] + rest.steps, rest.result);
      }
    }
  }

  /** Request `i` shows a status line exactly when it observed a status
      other than the previous one; a repeated status shows nothing and a
      status going back to an earlier one is shown again. */
  lemma PollStatusLineIff(answer: nat -> PollOutcome, i: nat)
    requires i < |Poll(answer).steps|
    ensures Poll(answer).steps[i] != [] <==>
      answer(i).Observed? && answer(i).response.status != PreviousStatus(answer, i)
    ensures Poll(answer).steps[i] != [] ==>
      Poll(answer).steps[i] == [PollStatusLine(answer(i).response.status, LastLog(answer(i).response.logs))]
  {
  }

  // ---------------------------------------------------------------------
  // Streaming watch

  /** The variables the `StreamUpdates` callback of
      `streamDeploymentUpdates` closes over, plus the events it has shown,
      one group per update. */
  datatype WatchState = WatchState(lastStatus: string, finalURL: string, shown: seq<seq<Event>>)

  const FreshWatch: WatchState := WatchState("", "", [])

  /** A present optional field, i.e. a non-empty string. */
  function NonEmpty(s: string): (o: Option<string>)
    ensures o.Some? <==> s != ""
    ensures o.Some? ==> o.value == s
  {
    if s == "" then None else Some(s)
  }

  /** One log line event per log entry, in order. */
  function LogLines(logs: seq<string>): (ls: seq<Event>)
    ensures |ls| == |logs|
    ensures forall i :: 0 <= i < |logs| ==> ls[i] == LogLine(logs[i])
  {
    seq(|logs|, i requires 0 <= i < |logs| => LogLine(logs[i]))
  }

  /** The line a `complete` update ends with: the URL seen so far, or the
      plain success line when there is none. */
  function ClosingLine(finalURL: string): (e: Event)
    ensures e.UrlLine? <==> finalURL != ""
    ensures e.UrlLine? ==> e.url == finalURL
    ensures !e.UrlLine? ==> e == CompletedLine
  {
    if finalURL != "" then UrlLine(finalURL) else CompletedLine
  }

  /** The events shown for an update: a status line when the status changed
      (with namespace and PVC when present), every log line, and on
      `complete` the URL seen so far or the plain success line. */
  function UpdateEvents(u: Update, lastStatus: string, finalURL: string): seq<Event> {
    (if u.status != lastStatus then [StreamStatusLine(u.status, NonEmpty(u.namespace), NonEmpty(u.pvc))] else [])
    + LogLines(u.logs)
    + (if u.status == Complete then [ClosingLine(finalURL)] else [])
  }

  /** The callback passed to `StreamUpdates`. */
  function OnUpdate(st: WatchState, u: Update): (WatchState, Option<WatchError>) {
    var finalURL := if u.url != "" then u.url else st.finalURL;
    var st' := WatchState(u.status, finalURL, st.shown + [UpdateEvents(u, st.lastStatus, finalURL)]);
    if u.status == Complete then (st', None)
    else if u.status == Failed then (st', Some(DeploymentFailed))
    else (st', None)
  }

  /** The callback fails on a `failed` update and on nothing else, so the
      loop stops exactly at terminal updates. */
  lemma OnUpdateStopsAtTerminal(s: WatchState, us: seq<Update>, i: int)
    requires 0 <= i < |us|
    ensures CallbackFailsAt(OnUpdate, s, us, i) <==> us[i].status == Failed
    ensures StopsAt(OnUpdate, s, us, i) <==> IsTerminal(us[i].status)
  {
  }

  /** The most recent non-empty URL among `us`, or "" when none has one. */
  function LastURL(us: seq<Update>): string
    decreases |us|
  {
    if |us| == 0 then ""
    else if us[|us| - 1].url != "" then us[|us| - 1].url
    else LastURL(us[..|us| - 1])
  }

  /** The URL reported is empty exactly when no update carried one, and
      otherwise it is the URL of an update after which none carried one. */
  lemma {:induction false} LastURLIsLatest(us: seq<Update>)
    ensures LastURL(us) == "" <==> forall i :: 0 <= i < |us| ==> us[i].url == ""
    ensures LastURL(us) != "" ==>
      exists j :: 0 <= j < |us| && us[j].url == LastURL(us) && forall k :: j < k < |us| ==> us[k].url == ""
    decreases |us|
  {
    if |us| > 0 && us[|us| - 1].url == "" {
      var init := us[..|us| - 1];
      LastURLIsLatest(init);
      assert forall i :: 0 <= i < |init| ==> init[i] == us[i];
      if LastURL(us) != "" {
        var j :| 0 <= j < |init| && init[j].url == LastURL(init) && forall k :: j < k < |init| ==> init[k].url == "";
        assert us[j].url == LastURL(us) && forall k :: j < k < |us| ==> us[k].url == "";
      }
    }
  }

  /** The status the stream compares update `i` against. */
  function PreviousUpdateStatus(us: seq<Update>, i: int): string
    requires 0 <= i <= |us|
  {
    if i == 0 then "" else us[i - 1].status
  }

  /** The events shown for each of `us`: a status line exactly when the
      status changed, every log line, and on `complete` the most recent URL
      seen so far (which may have come with an earlier update). */
  function ShownFor(us: seq<Update>): (shown: seq<seq<Event>>)
    ensures |shown| == |us|
    decreases |us|
  {
    if |us| == 0 then []
    else ShownFor(us[..|us| - 1]) + [UpdateEvents(us[|us| - 1], PreviousUpdateStatus(us, |us| - 1), LastURL(us))]
  }

  /** The events for update `i` depend only on it, the update before it
      and the URLs up to it. */
  lemma {:induction false} ShownForAt(us: seq<Update>, i: int)
    requires 0 <= i < |us|
    ensures ShownFor(us)[i] == UpdateEvents(us[i], PreviousUpdateStatus(us, i), LastURL(us[..i + 1]))
    decreases |us|
  {
    if i == |us| - 1 {
      assert us[..i + 1] == us;
    } else {
      var init := us[..|us| - 1];
      ShownForAt(init, i);
      assert init[..i + 1] == us[..i + 1];
      assert PreviousUpdateStatus(init, i) == PreviousUpdateStatus(us, i);
    }
  }

  /** The latest URL after one more update. */
  lemma LastURLSnoc(init: seq<Update>, u: Update)
    ensures LastURL(init + [u]) == if u.url != "" then u.url else LastURL(init)
  {
    assert (init + [u])[..|init|] == init;
  }

  /** After the callback has seen `us` from the fresh state, the shown
      events are the reference ones, the last status is that of the last
      update, and `finalURL` is the most recent URL. */
  lemma {:induction false} WatchStateAfter(us: seq<Update>)
    ensures Fold(OnUpdate, FreshWatch, us) == WatchState(PreviousUpdateStatus(us, |us|), LastURL(us), ShownFor(us))
    decreases |us|
  {
    if |us| > 0 {
      var init := us[..|us| - 1];
      var u := us[|us| - 1];
      assert us == init + [u];
      var st := Fold(OnUpdate, FreshWatch, init);
      var prev := PreviousUpdateStatus(us, |us| - 1);
      assert st == WatchState(prev, LastURL(init), ShownFor(init)) by {
        WatchStateAfter(init);
      }
      assert Fold(OnUpdate, FreshWatch, us) == OnUpdate(st, u).0 by {
        FoldSnoc(OnUpdate, FreshWatch, init, u);
      }
      assert LastURL(us) == if u.url != "" then u.url else LastURL(init) by {
        LastURLSnoc(init, u);
      }
      assert ShownFor(us) == ShownFor(init) + [UpdateEvents(u, prev, LastURL(us))];
    }
  }

  /** The shown events include neither a URL nor the success line. */
  predicate ShowsNoClosingLine(shown: seq<seq<Event>>) {
    forall i, e :: 0 <= i < |shown| && e in shown[i] ==> !e.UrlLine? && !e.CompletedLine?
  }

  /** A connected watch's outcome: the updates the callback saw, the
      events shown for them, and the error `streamDeploymentUpdates`
      returns (None = nil). */
  datatype WatchRun = WatchRun(delivered: seq<Update>, shown: seq<seq<Event>>, error: Option<StreamFailure>)

  /** The errors of `streamDeploymentUpdates`. */
  datatype StreamFailure = ConnectFailed(url: string) | StreamingError(cause: StreamError<WatchError>)

  /** `streamDeploymentUpdates`: build the client from the API base URL,
      connect (the dial's outcome is `dialSucceeds`), then stream. */
  function Watch(baseURL: string, deploymentId: string, dialSucceeds: bool, outcomes: seq<ReadOutcome>): (r: WatchRun)
    ensures !dialSucceeds ==>
      r.delivered == [] && r.error == Some(ConnectFailed(DialURL(NewWebSocketClient(baseURL).baseURL, deploymentId)))
    ensures dialSucceeds ==>
      && r.delivered == ReadLoop(outcomes, OnUpdate, FreshWatch).delivered
      && r.shown == Fold(OnUpdate, FreshWatch, r.delivered).shown
      && r.error == match ReadLoop(outcomes, OnUpdate, FreshWatch).error
                    case None => None
                    case Some(e) => Some(StreamingError(e))
  {
    match Connect(NewWebSocketClient(baseURL), deploymentId, dialSucceeds)
    case DialFailed(url) => WatchRun([], [], Some(ConnectFailed(url)))
    case Connected(c) =>
      var e := StreamUpdates(c, outcomes, OnUpdate, FreshWatch);
      ReadLoopMeetsSpec(outcomes, OnUpdate, FreshWatch);
      WatchRun(e.delivered, e.state.shown, if e.error.None? then None else Some(StreamingError(e.error.value)))
  }

  /** The callback fails only on `failed`, which is terminal, and on a
      terminal update it fails exactly when the update is `failed`. */
  lemma OnUpdateFailsOnlyOnTerminal(st: WatchState, t: Update)
    ensures FailsOnlyOnTerminal(OnUpdate)
    ensures t.status == Complete ==> OnUpdate(st, t).1.None?
    ensures t.status == Failed ==> OnUpdate(st, t).1 == Some(DeploymentFailed)
  {
  }

  /** The events of a non-`complete` update are status and log lines only. */
  lemma NonCompleteEvents(u: Update, lastStatus: string, finalURL: string)
    requires u.status != Complete
    ensures forall e :: e in UpdateEvents(u, lastStatus, finalURL) ==> e.StreamStatusLine? || e.LogLine?
  {
    var ev := UpdateEvents(u, lastStatus, finalURL);
    forall e | e in ev
      ensures e.StreamStatusLine? || e.LogLine?
    {
      var k :| 0 <= k < |ev| && ev[k] == e;
      if u.status != lastStatus && k > 0 {
        assert e == LogLines(u.logs)[k - 1];
      } else if u.status == lastStatus {
        assert e == LogLines(u.logs)[k];
      }
    }
  }

  /** The events begin with a status line. */
  predicate StartsWithStatusLine(ev: seq<Event>) {
    |ev| > 0 && ev[0].StreamStatusLine?
  }

  /** From position `off` on, the events show every one of `logs`, in
      order. */
  predicate ShowsLogsFrom(ev: seq<Event>, off: nat, logs: seq<string>) {
    |ev| >= off + |logs| && forall k :: 0 <= k < |logs| ==> ev[off + k] == LogLine(logs[k])
  }

  /** The events of one update: a status line first exactly when the
      status changed, carrying the namespace and PVC when present; then
      every log line, in order, whether or not the status changed; then,
      only on `complete`, the closing line. */
  lemma UpdateEventsShape(ev: seq<Event>, u: Update, lastStatus: string, finalURL: string)
    requires ev == UpdateEvents(u, lastStatus, finalURL)
    ensures |ev| == (if u.status != lastStatus then 1 else 0) + |u.logs| + (if u.status == Complete then 1 else 0)
    ensures StartsWithStatusLine(ev) <==> u.status != lastStatus
    ensures u.status != lastStatus ==> ev[0] == StreamStatusLine(u.status, NonEmpty(u.namespace), NonEmpty(u.pvc))
    ensures ShowsLogsFrom(ev, if u.status != lastStatus then 1 else 0, u.logs)
    ensures u.status == Complete ==> ev[|ev| - 1] == ClosingLine(finalURL)
  {
    var head: seq<Event> := if u.status != lastStatus then [StreamStatusLine(u.status, NonEmpty(u.namespace), NonEmpty(u.pvc))] else [];
    var logs := LogLines(u.logs);
    var tail: seq<Event> := if u.status == Complete then [ClosingLine(finalURL)] else [];
    assert ev == head + logs + tail;
    forall k | 0 <= k < |u.logs|
      ensures ev[|head| + k] == LogLine(u.logs[k])
    {
      assert ev[|head| + k] == logs[k];
    }
    if u.status == lastStatus && |ev| > 0 {
      assert ev[0] == if |logs| > 0 then logs[0] else tail[0];
    }
  }

  /** Update `i` of a stream shows a status line exactly when its status
      differs from the update before (the first is compared with ""), and
      shows every one of its log lines either way. */
  lemma WatchStatusLineIff(us: seq<Update>, i: int)
    requires 0 <= i < |us|
    ensures |Fold(OnUpdate, FreshWatch, us).shown| == |us|
    ensures StartsWithStatusLine(Fold(OnUpdate, FreshWatch, us).shown[i]) <==> us[i].status != PreviousUpdateStatus(us, i)
    ensures ShowsLogsFrom(Fold(OnUpdate, FreshWatch, us).shown[i],
                          if us[i].status != PreviousUpdateStatus(us, i) then 1 else 0, us[i].logs)
  {
    assert Fold(OnUpdate, FreshWatch, us).shown == ShownFor(us) by {
      WatchStateAfter(us);
    }
    ShownForShape(us, i);
  }

  /** The reference events of update `i` have the shape of one update's
      events. */
  lemma ShownForShape(us: seq<Update>, i: int)
    requires 0 <= i < |us|
    ensures StartsWithStatusLine(ShownFor(us)[i]) <==> us[i].status != PreviousUpdateStatus(us, i)
    ensures ShowsLogsFrom(ShownFor(us)[i], if us[i].status != PreviousUpdateStatus(us, i) then 1 else 0, us[i].logs)
  {
    var url := LastURL(us[..i + 1]);
    assert ShownFor(us)[i] == UpdateEvents(us[i], PreviousUpdateStatus(us, i), url) by {
      ShownForAt(us, i);
    }
    UpdateEventsShape(ShownFor(us)[i], us[i], PreviousUpdateStatus(us, i), url);
  }

  /** Until a `complete` update arrives, the stream shows neither a URL
      nor the success line. */
  lemma NoClosingLinesBeforeComplete(us: seq<Update>)
    requires forall i :: 0 <= i < |us| ==> us[i].status != Complete
    ensures ShowsNoClosingLine(Fold(OnUpdate, FreshWatch, us).shown)
  {
    WatchStateAfter(us);
    var shown := ShownFor(us);
    forall i | 0 <= i < |shown|
      ensures forall e: Event :: e in shown[i] ==> !e.UrlLine? && !e.CompletedLine?
    {
      ShownForAt(us, i);
      NonCompleteEvents(us[i], PreviousUpdateStatus(us, i), LastURL(us[..i + 1]));
    }
  }

  /** The stream ends before any terminal update: every update reaches
      the callback, nothing shows a URL or the success line, and the watch
      returns nil exactly when the server closed normally or went away; a
      stream that just stops sending ends as a stale connection. */
  lemma WatchEndsBeforeTerminal(baseURL: string, deploymentId: string, us: seq<Update>, tail: seq<ReadOutcome>)
    requires forall i :: 0 <= i < |us| ==> !IsTerminal(us[i].status)
    requires tail == [] || !tail[0].Frame?
    ensures var r := Watch(baseURL, deploymentId, true, Frames(us) + tail);
      && r.delivered == us
      && (r.error.None? <==> tail != [] && tail[0] in {CloseFrame(CloseNormalClosure), CloseFrame(CloseGoingAway)})
      && (tail == [] ==> r.error == Some(StreamingError(StaleConnection)))
      && ShowsNoClosingLine(r.shown)
  {
    OnUpdateFailsOnlyOnTerminal(FreshWatch, Update("", "", "", "", "", "", "", []));
    ReadLoopRunsThrough(us, tail, OnUpdate, FreshWatch);
    NoClosingLinesBeforeComplete(us);
    var r := Watch(baseURL, deploymentId, true, Frames(us) + tail);
    assert r.delivered == us;
    assert r.shown == Fold(OnUpdate, FreshWatch, us).shown;
  }

  /** Once a `complete` update comes last, the last event shown is the
      most recent URL of all the updates, or the plain success line when
      none carried one. */
  lemma CompleteShowsLatestURL(all: seq<Update>)
    requires |all| > 0 && all[|all| - 1].status == Complete
    ensures var shown := ShownFor(all);
      && |shown[|all| - 1]| > 0
      && shown[|all| - 1][|shown[|all| - 1]| - 1] == ClosingLine(LastURL(all))
  {
  }

  /** Frames of non-terminal updates then a `complete` one: the watch ends
      without error, and the last event it shows is the most recent URL of
      the whole stream (even one that came with an earlier update), or the
      plain success line when no update carried a URL. */
  lemma WatchCompleteReportsLatestURL(baseURL: string, deploymentId: string, us: seq<Update>, t: Update, tail: seq<ReadOutcome>)
    requires forall i :: 0 <= i < |us| ==> !IsTerminal(us[i].status)
    requires t.status == Complete
    ensures var r := Watch(baseURL, deploymentId, true, Frames(us) + [Frame(t)] + tail);
      && r.error.None?
      && r.delivered == us + [t]
      && |r.shown| == |us| + 1
      && |r.shown[|us|]| > 0
      && r.shown[|us|][|r.shown[|us|]| - 1] == ClosingLine(LastURL(us + [t]))
  {
    WatchRunsToComplete(baseURL, deploymentId, us, t, tail);
    CompleteShowsLatestURL(us + [t]);
  }

  /** The watch over frames ending in a `complete` update delivers them
      all, shows the reference events for them and ends without error. */
  lemma WatchRunsToComplete(baseURL: string, deploymentId: string, us: seq<Update>, t: Update, tail: seq<ReadOutcome>)
    requires forall i :: 0 <= i < |us| ==> !IsTerminal(us[i].status)
    requires t.status == Complete
    ensures Watch(baseURL, deploymentId, true, Frames(us) + [Frame(t)] + tail) ==
      WatchRun(us + [t], ShownFor(us + [t]), None)
  {
    OnUpdateFailsOnlyOnTerminal(Fold(OnUpdate, FreshWatch, us), t);
    ReadLoopStopsAtTerminal(us, t, tail, OnUpdate, FreshWatch);
    WatchStateAfter(us + [t]);
  }

  /** Frames of non-terminal updates then a `failed` one: the watch ends
      with "deployment failed" and reads nothing further. */
  lemma WatchFailedStopsAtOnce(baseURL: string, deploymentId: string, us: seq<Update>, t: Update, tail: seq<ReadOutcome>)
    requires forall i :: 0 <= i < |us| ==> !IsTerminal(us[i].status)
    requires t.status == Failed
    ensures var r := Watch(baseURL, deploymentId, true, Frames(us) + [Frame(t)] + tail);
      && r.delivered == us + [t]
      && r.error == Some(StreamingError(CallbackError(DeploymentFailed)))
  {
    OnUpdateFailsOnlyOnTerminal(Fold(OnUpdate, FreshWatch, us), t);
    ReadLoopStopsAtTerminal(us, t, tail, OnUpdate, FreshWatch);
  }

  // ---------------------------------------------------------------------
  // Reporting the watch's outcome (the end of the deploy command)

  /** What the deploy command prints after the watch, and whether it exits
      with an error. */
  datatype CommandOutcome = CommandOutcome(events: seq<Event>, failed: bool)

  /** After polling: a failed poll is only a warning plus a hint to use
      `--watch`; a URL is printed when non-empty. The command succeeds in
      both cases. */
  function ReportPoll(r: PollResult): (c: CommandOutcome)
    ensures !c.failed
    ensures r.PollFailed? ==> c.events == [WarningLine(r.error), WatchHintLine]
    ensures r.Found? ==> (c.events == [UrlLine(r.url)] <==> r.url != "")
    ensures r.Found? && r.url == "" ==> c.events == []
  {
    match r
    case PollFailed(e) => CommandOutcome([WarningLine(e), WatchHintLine], false)
    case Found(url) => CommandOutcome(if url != "" then [UrlLine(url)] else [], false)
  }

  /** After streaming: any streaming error fails the command. */
  function ReportWatch(r: WatchRun): (c: CommandOutcome)
    ensures c.failed <==> r.error.Some?
    ensures c.events == []
  {
    CommandOutcome([], r.error.Some?)
  }

  /** Whenever the poll yields a URL, the deploy command prints it. */
  lemma PollURLAlwaysPrinted(answer: nat -> PollOutcome)
    requires Poll(answer).result.Found?
    ensures ReportPoll(Poll(answer).result).events == [UrlLine(Poll(answer).result.url)]
  {
    PollFoundOnlyOnCompleteWithURL(answer);
  }

  // ---------------------------------------------------------------------
  // Concrete runs

  /** A status response with one log line and no URL. */
  function Response(status: string): StatusResponse {
    StatusResponse("dep-1", "proj-1", "a1b2c3d4e5f6", status, "", ["working"])
  }

  /** A server that answers the first requests with `observed` and every
      later one with `after`. */
  function Answers(observed: seq<StatusResponse>, after: PollOutcome): nat -> PollOutcome {
    (i: nat) => if i < |observed| then Observed(observed[i]) else after
  }

  /** `[queued, queued, committing]`, then a failed request: two status
      lines, the repeated `queued` shows nothing, and the request error is
      the result. */
  lemma PollDedupExample()
    ensures var answer := Answers([Response("queued"), Response("queued"), Response("committing")], RequestFailed("connection refused"));
      && Poll(answer).steps ==
           [[PollStatusLine("queued", Some("working"))], [], [PollStatusLine("committing", Some("working"))], []]
      && Poll(answer).result == PollFailed(RequestError("connection refused"))
  {
    var answer := Answers([Response("queued"), Response("queued"), Response("committing")], RequestFailed("connection refused"));
    assert FirstStopAt(answer, 3);
    PollEndsAtFirstStop(answer, 3);
  }

  /** `[building, deploying, building]`: a status going back is shown again,
      so three status lines. */
  lemma PollRegressionExample()
    ensures var answer := Answers([Response("building"), Response("deploying"), Response("building")], RequestFailed("EOF"));
      && Poll(answer).steps[..3] ==
           [[PollStatusLine("building", Some("working"))],
            [PollStatusLine("deploying", Some("working"))],
            [PollStatusLine("building", Some("working"))]]
  {
    var answer := Answers([Response("building"), Response("deploying"), Response("building")], RequestFailed("EOF"));
    assert FirstStopAt(answer, 3);
    PollEndsAtFirstStop(answer, 3);
  }

  /** An empty first status equals the initial last status: nothing shown. */
  lemma PollEmptyFirstStatusShowsNothing(answer: nat -> PollOutcome)
    requires answer(0).Observed? && answer(0).response.status == ""
    ensures Poll(answer).steps[0] == []
  {
  }

  /** A server that keeps answering with the same non-stopping response, for
      instance `building`, or `complete` without a URL: 30 requests, a
      status line at the first one only (none for an empty status), then
      the timeout error naming 30 seconds. */
  lemma PollSameAnswerTimesOut(resp: StatusResponse)
    requires !Stops(Observed(resp))
    ensures var r := Poll(_ => Observed(resp));
      && |r.steps| == MaxAttempts
      && r.result == PollFailed(Timeout(30))
      && r.steps[0] == Shown(Observed(resp), "")
      && (resp.status != "" ==> r.steps[0] == [PollStatusLine(resp.status, LastLog(resp.logs))])
      && (resp.status == "" ==> r.steps[0] == [])
      && forall i :: 1 <= i < MaxAttempts ==> r.steps[i] == []
  {
    PollTimeoutIff(_ => Observed(resp));
  }

  /** In particular `complete` with an empty URL never ends the poll. */
  lemma PollCompleteWithoutURLTimesOut()
    ensures Poll(_ => Observed(StatusResponse("dep-1", "proj-1", "a1b2c3d4e5f6", Complete, "", []))).result
      == PollFailed(Timeout(MaxAttempts))
  {
    PollSameAnswerTimesOut(StatusResponse("dep-1", "proj-1", "a1b2c3d4e5f6", Complete, "", []));
  }
}
