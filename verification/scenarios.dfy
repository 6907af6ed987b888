/** The CLI's watch run against the mock server: the pieces of the other
    modules put together, as the deploy command and the mock API meet over
    HTTP and WebSocket. */
module Scenarios {
  import opened Wrappers
  import opened Text
  import opened WebSocket
  import Deploy
  import MockApi

  /** What `GetStatus` makes of a status reply: the decoded record (a
      missing `url` decodes to ""), or a failed request for a 400 and for a
      connection the handler dropped by panicking. */
  function Decode(reply: MockApi.StatusReply): Deploy.PollOutcome {
    match reply
    case StatusOk(rec) =>
      Deploy.Observed(Deploy.StatusResponse(rec.id, rec.projectId, rec.commitHash, rec.status, rec.url.GetOr(""), rec.logs))
    case StatusBadRequest => Deploy.RequestFailed("API request failed with status 400")
    case StatusPanicked => Deploy.RequestFailed("connection closed")
  }

  /** The mock's answers to a CLI that polls once a second from the moment
      `id` was registered at clock reading `start`: request `i` is served at
      `start + i` seconds. */
  function MockAnswers(store: MockApi.Store, id: string, start: int): nat -> Deploy.PollOutcome {
    (i: nat) => MockAnswer(store, id, start, i)
  }

  /** Request `i` of those. */
  function MockAnswer(store: MockApi.Store, id: string, start: int, i: nat): Deploy.PollOutcome {
    Decode(MockApi.MockStatus(store, id, start + i * MockApi.Second).1)
  }

  /** The stage after `i` whole seconds is stage number `i / 3`, up to
      `complete`. */
  lemma StageAfterSeconds(i: nat)
    ensures MockApi.StageAt(i * MockApi.Second).Index() == if i / 3 < 6 then i / 3 else 6
  {
    MockApi.StageAtIndex(i * MockApi.Second);
    assert (i * MockApi.Second) / MockApi.StageLength == i / 3;
  }

  /** Request `i` of a poll against a registered, not yet memoised ID
      observes the stage its elapsed time gives. */
  lemma MockAnswerAt(store: MockApi.Store, id: string, start: int, i: nat)
    requires |id| >= 12 && id !in store.statuses && id in store.startTimes && store.startTimes[id] == start
    ensures var stage := MockApi.StageAt(i * MockApi.Second);
      var o := MockAnswer(store, id, start, i);
      && o.Observed?
      && o.response.status == stage.Name()
      && o.response.url == (if stage == MockApi.Complete then MockApi.CompleteURL(id) else "")
  {
    var now := start + i * MockApi.Second;
    assert now - store.startTimes[id] == i * MockApi.Second;
    DecodedStatusAt(store, id, now);
  }

  /** A status request for a started, unfinished ID decodes to the record
      of the stage its elapsed time gives. */
  lemma DecodedStatusAt(store: MockApi.Store, id: string, now: int)
    requires |id| >= 12 && id !in store.statuses && id in store.startTimes
    ensures var stage := MockApi.StageAt(now - store.startTimes[id]);
      var o := Decode(MockApi.MockStatus(store, id, now).1);
      && o.Observed?
      && o.response.status == stage.Name()
      && o.response.url == (if stage == MockApi.Complete then MockApi.CompleteURL(id) else "")
  {
    MockApi.MockStatusOfStartedId(store, id, now);
  }

  /** No stage but `complete` is terminal, and none is `failed`. */
  lemma StageNotTerminal(s: MockApi.Stage)
    ensures s.Name() != Failed
    ensures s.Name() == Complete <==> s == MockApi.Complete
  {
    MockApi.NameInjective(s, MockApi.Complete);
    assert Failed[0] == 'f';
  }

  /** Polling a freshly deployed ID: the first 18 requests see the stages
      before `complete`, the 19th sees `complete` and returns the URL built
      from the ID, well inside the 30 attempts. */
  lemma MockPollFindsURL(store: MockApi.Store, id: string, start: int)
    requires |id| >= 12 && id !in store.statuses && id in store.startTimes && store.startTimes[id] == start
    ensures |Deploy.Poll(MockAnswers(store, id, start)).steps| == 19
    ensures Deploy.Poll(MockAnswers(store, id, start)).result == Deploy.Found(MockApi.CompleteURL(id))
  {
    var answer := MockAnswers(store, id, start);
    forall j | 0 <= j < 18
      ensures !Deploy.Stops(answer(j))
    {
      assert answer(j) == MockAnswer(store, id, start, j);
      MockAnswerAt(store, id, start, j);
      StageNotTerminal(MockApi.StageAt(j * MockApi.Second));
    }
    assert answer(18) == MockAnswer(store, id, start, 18);
    MockAnswerAt(store, id, start, 18);
    StageNotTerminal(MockApi.StageAt(18 * MockApi.Second));
    assert Deploy.FirstStopAt(answer, 18);
    Deploy.PollEndsAtFirstStop(answer, 18);
  }

  /** The stage changes from one second to the next exactly on every
      third second, up to the 18th. */
  lemma StageChangesEveryThirdSecond(i: nat)
    requires 0 < i <= 18
    ensures MockApi.StageAt(i * MockApi.Second) != MockApi.StageAt((i - 1) * MockApi.Second) <==> i % 3 == 0
  {
    StageAfterSeconds(i);
    StageAfterSeconds(i - 1);
  }

  /** Against a registered, not yet memoised ID, the status observed
      changes from one request to the next exactly on every third request. */
  lemma MockStatusChangesEveryThird(store: MockApi.Store, id: string, start: int, i: nat)
    requires |id| >= 12 && id !in store.statuses && id in store.startTimes && store.startTimes[id] == start
    requires 0 < i <= 18
    ensures MockAnswer(store, id, start, i).Observed? && MockAnswer(store, id, start, i - 1).Observed?
    ensures MockAnswer(store, id, start, i).response.status != MockAnswer(store, id, start, i - 1).response.status
            <==> i % 3 == 0
  {
    MockAnswerAt(store, id, start, i);
    MockAnswerBefore(store, id, start, i);
    StageChangesEveryThirdSecond(i);
    StatusChangesWithStage(MockAnswer(store, id, start, i), MockAnswer(store, id, start, i - 1),
      MockApi.StageAt(i * MockApi.Second), MockApi.StageAt((i - 1) * MockApi.Second), i % 3 == 0);
  }

  /** `MockAnswerAt` for the request before request `i`. */
  lemma MockAnswerBefore(store: MockApi.Store, id: string, start: int, i: nat)
    requires |id| >= 12 && id !in store.statuses && id in store.startTimes && store.startTimes[id] == start
    requires 0 < i
    ensures MockAnswer(store, id, start, i - 1).Observed?
    ensures MockAnswer(store, id, start, i - 1).response.status == MockApi.StageAt((i - 1) * MockApi.Second).Name()
  {
    MockAnswerAt(store, id, start, i - 1);
  }

  /** Two answers that report the names of two stages differ in status
      exactly when the stages differ. */
  lemma StatusChangesWithStage(a: Deploy.PollOutcome, b: Deploy.PollOutcome, now: MockApi.Stage, before: MockApi.Stage, changes: bool)
    requires a.Observed? && a.response.status == now.Name()
    requires b.Observed? && b.response.status == before.Name()
    requires now != before <==> changes
    ensures a.response.status != b.response.status <==> changes
  {
    MockApi.NameInjective(now, before);
  }

  /** During that poll the CLI shows a status line on every third request:
      each of the seven stages exactly once. */
  lemma MockPollShowsEachStageOnce(store: MockApi.Store, id: string, start: int, i: nat)
    requires |id| >= 12 && id !in store.statuses && id in store.startTimes && store.startTimes[id] == start
    requires i < 19
    ensures |Deploy.Poll(MockAnswers(store, id, start)).steps| == 19
    ensures Deploy.Poll(MockAnswers(store, id, start)).steps[i] != [] <==> i % 3 == 0
  {
    MockPollLineAt(store, id, start, i);
    MockStatusChangeAt(store, id, start, i);
  }

  /** Request `i` of that poll shows a status line exactly when its status
      differs from the one before. */
  lemma MockPollLineAt(store: MockApi.Store, id: string, start: int, i: nat)
    requires |id| >= 12 && id !in store.statuses && id in store.startTimes && store.startTimes[id] == start
    requires i < 19
    ensures |Deploy.Poll(MockAnswers(store, id, start)).steps| == 19
    ensures var answer := MockAnswers(store, id, start);
      var cur := MockAnswer(store, id, start, i);
      Deploy.Poll(answer).steps[i] != [] <==> cur.Observed? && cur.response.status != Deploy.PreviousStatus(answer, i)
  {
    var answer := MockAnswers(store, id, start);
    MockPollFindsURL(store, id, start);
    Deploy.PollStatusLineIff(answer, i);
    assert answer(i) == MockAnswer(store, id, start, i);
  }

  /** The status of request `i` differs from the one before exactly on
      every third request. */
  lemma MockStatusChangeAt(store: MockApi.Store, id: string, start: int, i: nat)
    requires |id| >= 12 && id !in store.statuses && id in store.startTimes && store.startTimes[id] == start
    requires i < 19
    ensures var cur := MockAnswer(store, id, start, i);
      cur.Observed? && (cur.response.status != Deploy.PreviousStatus(MockAnswers(store, id, start), i) <==> i % 3 == 0)
  {
    if i > 0 {
      assert MockAnswers(store, id, start)(i - 1) == MockAnswer(store, id, start, i - 1);
      MockStatusChangesEveryThird(store, id, start, i);
    } else {
      MockAnswerAt(store, id, start, 0);
      assert MockApi.StageAt(0 * MockApi.Second) == MockApi.Queued;
    }
  }

  /** Request times of a real poll: the first request no earlier than the
      registration at `start`, and at least a second between one request
      and the next (the CLI sleeps a second after each answer, and the
      round trip adds time of its own). */
  ghost predicate Cadence(t: nat -> int, start: int) {
    t(0) >= start && forall i: nat :: Gap(t, i)
  }

  /** Request `i + 1` comes at least a second after request `i`. */
  ghost predicate Gap(t: nat -> int, i: nat) {
    t(i) + MockApi.Second <= t(i + 1)
  }

  /** The mock's answers to requests served at the times `t`. */
  function CadenceAnswers(store: MockApi.Store, id: string, t: nat -> int): nat -> Deploy.PollOutcome {
    (i: nat) => Decode(MockApi.MockStatus(store, id, t(i)).1)
  }

  /** With that cadence, request `i` comes at least `i` seconds after the
      registration. */
  lemma {:induction false} CadenceElapsed(t: nat -> int, start: int, i: nat)
    requires Cadence(t, start)
    ensures t(i) - start >= i * MockApi.Second
  {
    if i > 0 {
      CadenceElapsed(t, start, i - 1);
      assert Gap(t, i - 1);
    }
  }

  /** With that cadence, a later request is never served earlier. */
  lemma {:induction false} CadenceMonotone(t: nat -> int, start: int, i: nat, j: nat)
    requires Cadence(t, start)
    requires i <= j
    ensures t(i) <= t(j)
  {
    if i < j {
      CadenceMonotone(t, start, i, j - 1);
      assert Gap(t, j - 1);
    }
  }

  /** Request `i` served at `t(i)` observes the record of the stage its
      elapsed time gives: its name, its log line, and the URL exactly at
      `complete`. */
  lemma CadenceAnswerAt(store: MockApi.Store, id: string, start: int, t: nat -> int, i: nat)
    requires |id| >= 12 && id !in store.statuses && id in store.startTimes && store.startTimes[id] == start
    ensures var stage := MockApi.StageAt(t(i) - start);
      var o := CadenceAnswers(store, id, t)(i);
      && o.Observed?
      && o.response.status == stage.Name()
      && o.response.logs == [stage.StatusLog()]
      && o.response.url == (if stage == MockApi.Complete then MockApi.CompleteURL(id) else "")
  {
    MockApi.MockStatusOfStartedId(store, id, t(i));
  }

  /** A status request for a registered ID that has not reached `complete`
      leaves the mock's store as it was, so every request of a poll up to
      the first `complete` one is served from the store the deployment
      left. */
  lemma UnfinishedRequestKeepsStore(store: MockApi.Store, id: string, now: int)
    requires id != "" && id !in store.statuses && id in store.startTimes
    requires MockApi.StageAt(now - store.startTimes[id]) != MockApi.Complete
    ensures MockApi.MockStatus(store, id, now).0 == store
  {
    assert store.startTimes[id := store.startTimes[id]] == store.startTimes;
  }

  /** Polling a freshly deployed ID at any cadence of at least a second:
      the poll ends with the URL built from the ID, after at most 19
      requests. */
  lemma AnyCadenceFindsURL(store: MockApi.Store, id: string, start: int, t: nat -> int)
    requires |id| >= 12 && id !in store.statuses && id in store.startTimes && store.startTimes[id] == start
    requires Cadence(t, start)
    ensures |Deploy.Poll(CadenceAnswers(store, id, t)).steps| <= 19
    ensures Deploy.Poll(CadenceAnswers(store, id, t)).result == Deploy.Found(MockApi.CompleteURL(id))
  {
    var answer := CadenceAnswers(store, id, t);
    CadenceElapsed(t, start, 18);
    var k := 0;
    while k < 18 && !Deploy.Stops(answer(k))
      invariant k <= 18
      invariant forall j :: 0 <= j < k ==> !Deploy.Stops(answer(j))
    {
      k := k + 1;
    }
    CadenceAnswerAt(store, id, start, t, k);
    StageNotTerminal(MockApi.StageAt(t(k) - start));
    assert Deploy.FirstStopAt(answer, k);
    Deploy.PollEndsAtFirstStop(answer, k);
  }

  /** At any such cadence, a status line shown by request `j` names the
      stage of that request with its log line, and that stage comes
      strictly after the stage of every earlier request: the stages are
      shown in order, each at most once. */
  lemma AnyCadenceShowsStagesInOrder(store: MockApi.Store, id: string, start: int, t: nat -> int, i: nat, j: nat)
    requires |id| >= 12 && id !in store.statuses && id in store.startTimes && store.startTimes[id] == start
    requires Cadence(t, start)
    requires i < j < |Deploy.Poll(CadenceAnswers(store, id, t)).steps|
    requires Deploy.Poll(CadenceAnswers(store, id, t)).steps[j] != []
    ensures var stage := MockApi.StageAt(t(j) - start);
      Deploy.Poll(CadenceAnswers(store, id, t)).steps[j] == [Deploy.PollStatusLine(stage.Name(), Some(stage.StatusLog()))]
    ensures MockApi.StageAt(t(i) - start).Index() < MockApi.StageAt(t(j) - start).Index()
  {
    var answer := CadenceAnswers(store, id, t);
    Deploy.PollStatusLineIff(answer, j);
    CadenceAnswerAt(store, id, start, t, j);
    assert Deploy.PreviousStatus(answer, j) == Deploy.StatusOf(answer(j - 1));
    assert answer(j) != answer(j - 1);
    CadenceAnswerChange(store, id, start, t, j);
    CadenceStagesAdvance(t, start, i, j);
  }

  /** A request that gets another answer than the one before is at another
      stage. */
  lemma CadenceAnswerChange(store: MockApi.Store, id: string, start: int, t: nat -> int, j: nat)
    requires |id| >= 12 && id !in store.statuses && id in store.startTimes && store.startTimes[id] == start
    requires 0 < j
    requires CadenceAnswers(store, id, t)(j) != CadenceAnswers(store, id, t)(j - 1)
    ensures MockApi.StageAt(t(j) - start) != MockApi.StageAt(t(j - 1) - start)
  {
    CadenceAnswerIsRecord(store, id, start, t, j);
    CadenceAnswerIsRecord(store, id, start, t, j - 1);
  }

  /** What the CLI decodes from the record of `id` at `stage`. */
  function StageAnswer(id: string, stage: MockApi.Stage): Deploy.PollOutcome
    requires |id| >= 12
  {
    Decode(MockApi.StatusOk(MockApi.RecordFor(id, stage)))
  }

  /** Request `i` served at `t(i)` gets the record of the stage its elapsed
      time gives, and nothing else: the answer depends on the stage alone. */
  lemma CadenceAnswerIsRecord(store: MockApi.Store, id: string, start: int, t: nat -> int, i: nat)
    requires |id| >= 12 && id !in store.statuses && id in store.startTimes && store.startTimes[id] == start
    ensures CadenceAnswers(store, id, t)(i) == StageAnswer(id, MockApi.StageAt(t(i) - start))
  {
    MockApi.MockStatusOfStartedId(store, id, t(i));
  }

  /** At such a cadence, when request `j` is at another stage than the one
      before it, it is at a strictly later stage than every earlier
      request. */
  lemma CadenceStagesAdvance(t: nat -> int, start: int, i: nat, j: nat)
    requires Cadence(t, start)
    requires i < j
    requires MockApi.StageAt(t(j) - start) != MockApi.StageAt(t(j - 1) - start)
    ensures MockApi.StageAt(t(i) - start).Index() < MockApi.StageAt(t(j) - start).Index()
  {
    CadenceStageMonotone(t, start, j - 1, j);
    CadenceStageMonotone(t, start, i, j - 1);
    StrictlyLater(MockApi.StageAt(t(i) - start), MockApi.StageAt(t(j - 1) - start), MockApi.StageAt(t(j) - start));
  }

  /** A stage after one at least as late as a third is strictly later than
      that third. */
  lemma StrictlyLater(first: MockApi.Stage, before: MockApi.Stage, now: MockApi.Stage)
    requires first.Index() <= before.Index() <= now.Index()
    requires before != now
    ensures first.Index() < now.Index()
  {
  }

  /** At such a cadence, a later request never sees an earlier stage. */
  lemma CadenceStageMonotone(t: nat -> int, start: int, i: nat, j: nat)
    requires Cadence(t, start)
    requires i <= j
    ensures MockApi.StageAt(t(i) - start).Index() <= MockApi.StageAt(t(j) - start).Index()
  {
    CadenceMonotone(t, start, i, j);
    MockApi.StageAtMonotone(t(i) - start, t(j) - start);
  }

  /** The frames of the mock stream are four non-terminal updates followed
      by `complete`, the only one with a URL. */
  lemma MockFramesSplit(id: string)
    requires |id| >= 12
    ensures var fs := MockApi.MockWebSocket(id).frames;
      && |fs| == 5
      && fs == fs[..4] + [fs[4]]
      && (forall i :: 0 <= i < |fs[..4]| ==> !IsTerminal(fs[..4][i].status))
      && fs[4].status == Complete
      && Deploy.LastURL(fs) == MockApi.CompleteURL(id)
  {
    var fs := MockApi.MockWebSocket(id).frames;
    MockApi.StreamShape(id);
    assert fs == fs[..4] + [fs[4]];
    assert fs[4].url != "";
  }

  /** Watching the mock stream: every frame reaches the callback, the watch
      ends without error on the `complete` frame whatever the connection
      does afterwards, and the last thing shown is the URL built from the
      ID. */
  lemma MockStreamShowsURL(baseURL: string, id: string, after: seq<ReadOutcome>)
    requires |id| >= 12
    ensures var fs := MockApi.MockWebSocket(id).frames;
      var r := Deploy.Watch(baseURL, id, true, Frames(fs) + after);
      && r.error.None?
      && r.delivered == fs
      && |r.shown| == 5
      && |r.shown[4]| > 0
      && r.shown[4][|r.shown[4]| - 1] == Deploy.UrlLine(MockApi.CompleteURL(id))
  {
    MockStreamRun(baseURL, id, after);
    MockStreamClosingLine(id);
  }

  /** Watching the mock stream ends without error after all five frames,
      on the closing line for the latest URL among them. */
  lemma MockStreamRun(baseURL: string, id: string, after: seq<ReadOutcome>)
    requires |id| >= 12
    ensures var fs := MockApi.MockWebSocket(id).frames;
      var r := Deploy.Watch(baseURL, id, true, Frames(fs) + after);
      && r.error.None?
      && r.delivered == fs
      && |r.shown| == 5
      && |r.shown[4]| > 0
      && r.shown[4][|r.shown[4]| - 1] == Deploy.ClosingLine(Deploy.LastURL(fs))
  {
    var fs := MockApi.MockWebSocket(id).frames;
    MockFramesSplit(id);
    WatchEndsOnComplete(baseURL, id, fs, after);
  }

  /** The latest URL of the mock stream is the one built from the ID. */
  lemma MockStreamClosingLine(id: string)
    requires |id| >= 12
    ensures Deploy.ClosingLine(Deploy.LastURL(MockApi.MockWebSocket(id).frames)) == Deploy.UrlLine(MockApi.CompleteURL(id))
  {
    MockFramesSplit(id);
  }

  /** Frames of non-terminal updates ending in a `complete` one, whatever
      follows: the watch delivers them all, ends without error, and last
      shows the closing line for the most recent URL. */
  lemma WatchEndsOnComplete(baseURL: string, id: string, fs: seq<Update>, after: seq<ReadOutcome>)
    requires |fs| > 0 && fs[|fs| - 1].status == Complete
    requires forall i :: 0 <= i < |fs| - 1 ==> !IsTerminal(fs[i].status)
    ensures var r := Deploy.Watch(baseURL, id, true, Frames(fs) + after);
      && r.error.None?
      && r.delivered == fs
      && |r.shown| == |fs|
      && |r.shown[|fs| - 1]| > 0
      && r.shown[|fs| - 1][|r.shown[|fs| - 1]| - 1] == Deploy.ClosingLine(Deploy.LastURL(fs))
  {
    var us, t := fs[..|fs| - 1], fs[|fs| - 1];
    assert fs == us + [t];
    assert Frames(fs) + after == Frames(us) + [Frame(t)] + after by {
      assert Frames(fs) == Frames(us) + [Frame(t)];
    }
    Deploy.WatchRunsToComplete(baseURL, id, us, t, after);
    Deploy.CompleteShowsLatestURL(fs);
  }

  /** Both watch modes report the same URL for a fresh deployment, whatever
      the pace of the poll's requests. */
  lemma PollAndStreamAgree(store: MockApi.Store, id: string, start: int, t: nat -> int, baseURL: string, after: seq<ReadOutcome>)
    requires |id| >= 12 && id !in store.statuses && id in store.startTimes && store.startTimes[id] == start
    requires Cadence(t, start)
    ensures var fs := MockApi.MockWebSocket(id).frames;
      var shown := Deploy.Watch(baseURL, id, true, Frames(fs) + after).shown;
      && Deploy.Poll(CadenceAnswers(store, id, t)).result.Found?
      && |shown| == 5 && |shown[4]| > 0
      && shown[4][|shown[4]| - 1] == Deploy.UrlLine(Deploy.Poll(CadenceAnswers(store, id, t)).result.url)
  {
    AnyCadenceFindsURL(store, id, start, t);
    MockStreamShowsURL(baseURL, id, after);
  }

  /** An `http` base URL is dialed over plain `ws` at the same host. */
  lemma HttpDialURL(rest: string, id: string)
    ensures DialURL("http://" + rest, id) == "ws://" + rest + "/ws?deploymentId=" + id
  {
    var base := "http://" + rest;
    assert HasPrefix(base, "http://");
    SchemeFacts(base);
    assert AfterScheme(base) == rest;
    assert DialURL(base, id) == ToWebSocketBase(base) + "/ws?deploymentId=" + id;
  }

  /** The client dials the default API URL's WebSocket endpoint as the
      mock's `websocketUrl` spells it. */
  lemma DefaultDialURL(id: string)
    ensures DialURL(DefaultAPIURL, id) == "ws://localhost:8080/ws?deploymentId=" + id
  {
    assert DefaultAPIURL == "http://" + "localhost:8080";
    assert "ws://" + "localhost:8080" + "/ws?deploymentId=" == "ws://localhost:8080/ws?deploymentId=";
    HttpDialURL("localhost:8080", id);
  }

  /** A deployment the mock accepted advertises the very URL a client with
      the default base URL dials for it. */
  lemma DeployedWebSocketURLMatchesClient(store: MockApi.Store, httpMethod: string, body: Option<MockApi.DeployRequest>,
                                          deploymentId: MockApi.Uuid, fallback: MockApi.Uuid, commitHash: string, now: int)
    requires MockApi.MockDeploy(store, httpMethod, body, deploymentId, fallback, commitHash, now).1.Ok?
    ensures var reply := MockApi.MockDeploy(store, httpMethod, body, deploymentId, fallback, commitHash, now).1.body;
      reply.websocketUrl == DialURL(NewWebSocketClient("").baseURL, reply.deploymentId)
  {
    DefaultDialURL(deploymentId);
  }

  /** A deployment the mock accepted never makes either endpoint panic:
      a status request for its ID answers with a record from any store, so
      whatever requests came before, and the stream carries all five
      frames. */
  lemma DeployedIdsNeverPanic(store: MockApi.Store, httpMethod: string, body: Option<MockApi.DeployRequest>,
                              deploymentId: MockApi.Uuid, fallback: MockApi.Uuid, commitHash: string, now: int,
                              s: MockApi.Store, later: int)
    requires MockApi.MockDeploy(store, httpMethod, body, deploymentId, fallback, commitHash, now).1.Ok?
    ensures var id := MockApi.MockDeploy(store, httpMethod, body, deploymentId, fallback, commitHash, now).1.body.deploymentId;
      MockApi.MockStatus(s, id, later).1.StatusOk? && MockApi.MockWebSocket(id).StreamFrames?
  {
    assert MockApi.MockDeploy(store, httpMethod, body, deploymentId, fallback, commitHash, now).1.body.deploymentId == deploymentId;
  }
}
