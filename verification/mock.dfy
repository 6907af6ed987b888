/** The mock deployment service (mock-api/main.go): the status endpoint's
    elapsed-time stage schedule and its memo of completed deployments, the
    fixed WebSocket stage list, and the deploy, commit and generate
    handlers' httpMethod checks, defaulting and echo rules.

    The process-wide maps become an explicit `Store` threaded through every
    call; the clock reading (`time.Now()`, in nanoseconds), new UUIDs and
    the commit hash are inputs. */
module MockApi {
  import opened Wrappers
  import opened Text
  import WebSocket

  /** `time.Second`: a Go `Duration` counts nanoseconds. */
  const Second: int := 1_000_000_000

  /** Every stage lasts three seconds. */
  const StageLength: int := 3 * Second

  const MockProjectId: string := "user123-myproject"
  const MockCommitHash: string := "a1b2c3d4e5f6"

  const StatusOK: int := 200
  const BadRequest: int := 400
  const MethodNotAllowed: int := 405

  /** The status endpoint's log line for each stage, by stage index. */
  const StatusLogs: seq<string> := [
    "📦 Deployment queued...",
    "📦 Committing files to repository...",
    "🏗️ Creating Kubernetes namespace...",
    "💾 Creating Persistent Volume Claim...",
    "🔨 Building container image...",
    "🚀 Deploying to Kubernetes cluster...",
    "✅ Deployment complete!"
  ]

  /** The stages the mock reports, in their order of progression. */
  datatype Stage = Queued | Committing | CreatingNamespace | CreatingPvc | Building | Deploying | Complete {

    /** The wire name of the stage. */
    function Name(): string {
      match this
      case Queued => "queued"
      case Committing => "committing"
      case CreatingNamespace => "creating_namespace"
      case CreatingPvc => "creating_pvc"
      case Building => "building"
      case Deploying => "deploying"
      case Complete => WebSocket.Complete
    }

    /** The position of the stage in the progression. */
    function Index(): nat {
      match this
      case Queued => 0
      case Committing => 1
      case CreatingNamespace => 2
      case CreatingPvc => 3
      case Building => 4
      case Deploying => 5
      case Complete => 6
    }

    /** The log line the status endpoint attaches to the stage. */
    function StatusLog(): string {
      StatusLogs[Index()]
    }
  }

  /** Distinct stages have distinct wire names. */
  lemma NameInjective(a: Stage, b: Stage)
    ensures a.Name() == b.Name() <==> a == b
  {
    if a != b {
      assert a.Name()[0] != b.Name()[0] || |a.Name()| != |b.Name()|;
    }
  }

  /** The stage reached after `elapsed` nanoseconds: one stage per three
      seconds, `complete` from 18 seconds on; a negative elapsed time is
      still `queued`. */
  function StageAt(elapsed: int): (s: Stage)
    ensures elapsed < 3 * Second <==> s == Queued
    ensures elapsed >= 18 * Second <==> s == Complete
  {
    if elapsed < 3 * Second then Queued
    else if elapsed < 6 * Second then Committing
    else if elapsed < 9 * Second then CreatingNamespace
    else if elapsed < 12 * Second then CreatingPvc
    else if elapsed < 15 * Second then Building
    else if elapsed < 18 * Second then Deploying
    else Complete
  }

  /** The schedule is one stage per three seconds, capped at `complete`. */
  lemma StageAtIndex(elapsed: int)
    requires 0 <= elapsed
    ensures StageAt(elapsed).Index() == if elapsed / StageLength < 6 then elapsed / StageLength else 6
  {
  }

  /** A deployment never moves back: the stage index is monotone in the
      elapsed time. */
  lemma StageAtMonotone(e1: int, e2: int)
    requires e1 <= e2
    ensures StageAt(e1).Index() <= StageAt(e2).Index()
  {
  }

  /** One status response (the JSON object the status endpoint writes). */
  datatype StatusRecord = StatusRecord(
    id: string,
    projectId: string,
    commitHash: string,
    status: string,
    url: Option<string>,
    logs: seq<string>)

  /** The URL of a completed deployment: its ID's first 12 characters under
      backend.im. */
  function CompleteURL(id: string): (url: string)
    requires |id| >= 12
    ensures |url| == 31
    ensures HasPrefix(url, "https://") && HasSuffix(url, ".backend.im")
    ensures url[8..20] == id[..12]
  {
    "https://" + id[..12] + ".backend.im"
  }

  /** The record the status endpoint computes for `id` at `stage`. */
  function RecordFor(id: string, stage: Stage): (r: StatusRecord)
    requires stage == Complete ==> |id| >= 12
    ensures r.id == id && r.status == stage.Name()
    ensures |r.logs| == 1
    ensures r.url.Some? <==> stage == Complete
  {
    StatusRecord(id, MockProjectId, MockCommitHash, stage.Name(),
                 if stage == Complete then Some(CompleteURL(id)) else None,
                 [stage.StatusLog()])
  }

  /** The mock's two maps: the memoised final records and the start times. */
  datatype Store = Store(statuses: map<string, StatusRecord>, startTimes: map<string, int>)

  const EmptyStore: Store := Store(map[], map[])

  /** Every memoised record is the `complete` record of its own ID. */
  ghost predicate ValidStore(store: Store) {
    forall k :: k in store.statuses ==> |k| >= 12 && store.statuses[k] == RecordFor(k, Complete)
  }

  /** What the status handler answers. A short ID reaching `complete` makes
      `deploymentID[:12]` panic: the request gets no response. */
  datatype StatusReply = StatusOk(record: StatusRecord) | StatusBadRequest | StatusPanicked

  /** `mockStatus` for the ID taken from the request path, at clock reading
      `now`. */
  function MockStatus(store: Store, id: string, now: int): (r: (Store, StatusReply))
    // an empty ID is rejected and changes nothing
    ensures id == "" ==> r == (store, StatusBadRequest)
    ensures r.1.StatusBadRequest? ==> id == ""
    // a memoised record is returned as it is, whatever the time
    ensures id != "" && id in store.statuses ==> r == (store, StatusOk(store.statuses[id]))
    // the first request for an unknown ID registers it now and is `queued`
    ensures id != "" && id !in store.statuses && id !in store.startTimes ==>
      r.0.startTimes == store.startTimes[id := now] && r.1 == StatusOk(RecordFor(id, Queued))
    // a known, unfinished ID is at the stage its elapsed time gives
    ensures id != "" && id !in store.statuses && id in store.startTimes ==>
      var stage := StageAt(now - store.startTimes[id]);
      && r.0.startTimes == store.startTimes
      && (r.1.StatusPanicked? <==> stage == Complete && |id| < 12)
      && (r.1.StatusOk? ==> r.1 == StatusOk(RecordFor(id, stage)))
    // a computed `complete` record is memoised
    ensures r.1.StatusOk? && r.1.record.status == WebSocket.Complete ==>
      id in r.0.statuses && r.0.statuses[id] == r.1.record
    // only a computed `complete` record is memoised
    ensures id in r.0.statuses && id !in store.statuses ==>
      |id| >= 12 && r.0.statuses[id] == RecordFor(id, Complete) && r.1 == StatusOk(r.0.statuses[id])
    // memoised records are never changed or dropped, and nothing is memoised for other IDs
    ensures forall k :: k in store.statuses ==> k in r.0.statuses && r.0.statuses[k] == store.statuses[k]
    ensures forall k :: k != id ==> (k in r.0.statuses <==> k in store.statuses)
    ensures forall k :: k != id && k in store.startTimes ==> k in r.0.startTimes && r.0.startTimes[k] == store.startTimes[k]
    ensures forall k :: k != id ==> (k in r.0.startTimes <==> k in store.startTimes)
  {
    if id == "" then (store, StatusBadRequest)
    else if id in store.statuses then (store, StatusOk(store.statuses[id]))
    else
      var start := if id in store.startTimes then store.startTimes[id] else now;
      var times := store.startTimes[id := start];
      var stage := StageAt(now - start);
      if stage != Complete then (Store(store.statuses, times), StatusOk(RecordFor(id, stage)))
      else if |id| < 12 then (Store(store.statuses, times), StatusPanicked)
      else
        var rec := RecordFor(id, Complete);
        (Store(store.statuses[id := rec], times), StatusOk(rec))
  }

  /** A started, unfinished ID with a long enough ID is answered with the
      record for the stage its elapsed time gives. */
  lemma MockStatusOfStartedId(store: Store, id: string, now: int)
    requires id != "" && id !in store.statuses && id in store.startTimes
    requires StageAt(now - store.startTimes[id]) == Complete ==> |id| >= 12
    ensures MockStatus(store, id, now).1 == StatusOk(RecordFor(id, StageAt(now - store.startTimes[id])))
  {
  }

  /** The status endpoint keeps the store valid. */
  lemma MockStatusKeepsStoreValid(store: Store, id: string, now: int)
    requires ValidStore(store)
    ensures ValidStore(MockStatus(store, id, now).0)
  {
    var r := MockStatus(store, id, now);
    forall k | k in r.0.statuses
      ensures |k| >= 12 && r.0.statuses[k] == RecordFor(k, Complete)
    {
      if k in store.statuses {
        assert r.0.statuses[k] == store.statuses[k];
      }
    }
  }

  /** Against a valid store, every record the status endpoint answers with
      has exactly one log line, and a URL exactly when it is `complete`:
      the one built from the ID. */
  lemma MockStatusReplyShape(store: Store, id: string, now: int)
    requires ValidStore(store)
    requires MockStatus(store, id, now).1.StatusOk?
    ensures var rec := MockStatus(store, id, now).1.record;
      && |rec.logs| == 1
      && (rec.url.Some? <==> rec.status == WebSocket.Complete)
      && (rec.url.Some? ==> |id| >= 12 && rec.url.value == CompleteURL(id))
  {
    var rec := MockStatus(store, id, now).1.record;
    if id in store.statuses {
      assert rec == RecordFor(id, Complete);
      RecordShape(id, Complete);
    } else {
      var stage := if id in store.startTimes then StageAt(now - store.startTimes[id]) else Queued;
      assert rec == RecordFor(id, stage);
      RecordShape(id, stage);
    }
  }

  /** A computed record has one log line, and a URL exactly when it is
      `complete`: the one built from the ID. */
  lemma RecordShape(id: string, stage: Stage)
    requires stage == Complete ==> |id| >= 12
    ensures var rec := RecordFor(id, stage);
      && |rec.logs| == 1
      && (rec.url.Some? <==> rec.status == WebSocket.Complete)
      && (rec.url.Some? ==> |id| >= 12 && rec.url.value == CompleteURL(id))
  {
    NameInjective(stage, Complete);
  }

  /** One status request: the ID from the path and the clock reading. */
  datatype StatusRequest = StatusRequest(id: string, now: int)

  /** Serving status requests one after another. */
  function ServeStatus(store: Store, requests: seq<StatusRequest>): (r: (Store, seq<StatusReply>))
    ensures |r.1| == |requests|
    decreases |requests|
  {
    if |requests| == 0 then (store, [])
    else
      var (s1, reply) := MockStatus(store, requests[0].id, requests[0].now);
      var (s2, replies) := ServeStatus(s1, requests[1..]);
      (s2, [reply] + replies)
  }

  /** A memoised record survives any sequence of requests, and every
      request for its ID is answered with it. */
  lemma {:induction false} MemoPersists(store: Store, requests: seq<StatusRequest>)
    ensures var (final, replies) := ServeStatus(store, requests);
      && (forall k :: k in store.statuses ==> k in final.statuses && final.statuses[k] == store.statuses[k])
      && (forall j :: 0 <= j < |requests| && requests[j].id != "" && requests[j].id in store.statuses ==>
            replies[j] == StatusOk(store.statuses[requests[j].id]))
    decreases |requests|
  {
    if |requests| > 0 {
      var s1 := MockStatus(store, requests[0].id, requests[0].now).0;
      MemoPersists(s1, requests[1..]);
      var replies := ServeStatus(store, requests).1;
      assert replies[1..] == ServeStatus(s1, requests[1..]).1;
      forall j | 1 <= j < |requests| && requests[j].id != "" && requests[j].id in store.statuses
        ensures replies[j] == StatusOk(store.statuses[requests[j].id])
      {
        assert requests[1..][j - 1] == requests[j];
        assert replies[j] == replies[1..][j - 1];
      }
    }
  }

  /** Once the status endpoint has answered `complete` for an ID, every
      later request for that ID gets the identical record, at any time. */
  lemma CompleteIsSticky(store: Store, requests: seq<StatusRequest>, j: int)
    requires 0 < j < |requests|
    requires requests[j].id == requests[0].id
    requires ServeStatus(store, requests).1[0].StatusOk?
    requires ServeStatus(store, requests).1[0].record.status == WebSocket.Complete
    ensures ServeStatus(store, requests).1[j] == ServeStatus(store, requests).1[0]
  {
    var s1 := MockStatus(store, requests[0].id, requests[0].now).0;
    MemoPersists(s1, requests[1..]);
    var replies := ServeStatus(store, requests).1;
    assert replies[1..] == ServeStatus(s1, requests[1..]).1;
    assert requests[1..][j - 1] == requests[j];
    assert replies[j] == replies[1..][j - 1];
  }

  // ---------------------------------------------------------------------
  // WebSocket endpoint

  /** The stages the WebSocket endpoint streams, in order. */
  const StreamedStages: seq<Stage> := [Committing, CreatingNamespace, CreatingPvc, Deploying, Complete]

  /** The log line each streamed stage carries. */
  function StreamLog(stage: Stage): string {
    if stage == Deploying then "🚀 Deploying application..." else stage.StatusLog()
  }

  /** What the WebSocket endpoint does: reject a missing ID, panic before
      writing anything when the ID is too short for the URL, or write the
      frames. */
  datatype StreamReply = StreamBadRequest | StreamPanicked | StreamFrames(frames: seq<WebSocket.Update>)

  /** One streamed frame for `stage`; only `complete` carries a URL. */
  function StreamFrame(id: string, stage: Stage): (u: WebSocket.Update)
    requires |id| >= 12
    ensures u.deploymentId == id && u.status == stage.Name()
    ensures u.namespace == "" && u.pvc == ""
    ensures u.url != "" <==> stage == Complete
    ensures |u.logs| == 1
  {
    WebSocket.Update(id, MockProjectId, MockCommitHash, stage.Name(), "", "",
                     if stage == Complete then CompleteURL(id) else "",
                     [StreamLog(stage)])
  }

  /** `mockWebSocket` for the `deploymentId` query value. */
  function MockWebSocket(id: string): (r: StreamReply)
    ensures r.StreamBadRequest? <==> id == ""
    ensures r.StreamPanicked? <==> 0 < |id| < 12
    ensures r.StreamFrames? ==> |r.frames| == |StreamedStages| == 5
    ensures r.StreamFrames? ==> forall i :: 0 <= i < 5 ==>
      r.frames[i].status == StreamedStages[i].Name() && r.frames[i].deploymentId == id
  {
    if id == "" then StreamBadRequest
    else if |id| < 12 then StreamPanicked
    else StreamFrames(seq(5, i requires 0 <= i < 5 => StreamFrame(id, StreamedStages[i])))
  }

  /** Only the last streamed frame is terminal and only it carries a URL;
      `queued` and `building` are never streamed. */
  lemma StreamShape(id: string)
    requires |id| >= 12
    ensures var fs := MockWebSocket(id).frames;
      && (forall i :: 0 <= i < 4 ==> !WebSocket.IsTerminal(fs[i].status) && fs[i].url == "")
      && fs[4].status == WebSocket.Complete
      && fs[4].url == CompleteURL(id)
      && (forall i :: 0 <= i < 5 ==> fs[i].status != Queued.Name() && fs[i].status != Building.Name())
  {
    var fs := MockWebSocket(id).frames;
    forall i | 0 <= i < 5
      ensures fs[i].status != Queued.Name() && fs[i].status != Building.Name()
      ensures i < 4 ==> !WebSocket.IsTerminal(fs[i].status)
    {
      NameInjective(StreamedStages[i], Queued);
      NameInjective(StreamedStages[i], Building);
      NameInjective(StreamedStages[i], Complete);
      assert fs[i].status == StreamedStages[i].Name();
      assert "failed" != StreamedStages[i].Name() by {
        assert "failed"[0] == 'f';
      }
    }
  }

  // ---------------------------------------------------------------------
  // Deploy, commit and generate

  /** A UUID in its 36-character text form (`uuid.New().String()`). */
  type Uuid = s: string | |s| == 36 witness "00000000-0000-0000-0000-000000000000"

  /** An HTTP answer: a JSON body, or an error status. */
  datatype HttpReply<T> = Ok(body: T) | HttpError(code: int)

  datatype DeployRequest = DeployRequest(files: map<string, string>, projectId: string)

  datatype DeployReply = DeployReply(
    deploymentId: string,
    projectId: string,
    commitHash: string,
    status: string,
    websocketUrl: string)

  /** `mockDeploy`. `body` is None when the JSON body does not decode;
      `deploymentId` and `fallback` are the two fresh UUIDs and `commitHash`
      the hash of the uploaded files. */
  function MockDeploy(store: Store, httpMethod: string, body: Option<DeployRequest>,
                      deploymentId: Uuid, fallback: Uuid, commitHash: string, now: int): (r: (Store, HttpReply<DeployReply>))
    ensures httpMethod != "POST" ==> r == (store, HttpError(MethodNotAllowed))
    ensures httpMethod == "POST" && body.None? ==> r == (store, HttpError(BadRequest))
    ensures r.1.Ok? ==> httpMethod == "POST" && body.Some?
    ensures r.1.Ok? ==>
      var reply := r.1.body;
      && reply.deploymentId == deploymentId
      && reply.status == Queued.Name()
      && reply.commitHash == commitHash
      && reply.projectId != ""
      && (body.value.projectId != "" ==> reply.projectId == body.value.projectId)
      && (body.value.projectId == "" ==> HasPrefix(reply.projectId, "proj-") && |reply.projectId| == 13)
      && reply.websocketUrl == "ws://localhost:8080/ws?deploymentId=" + deploymentId
      && r.0 == Store(store.statuses, store.startTimes[deploymentId := now])
  {
    if httpMethod != "POST" then (store, HttpError(MethodNotAllowed))
    else if body.None? then (store, HttpError(BadRequest))
    else
      var projectId := if body.value.projectId == "" then "proj-" + fallback[..8] else body.value.projectId;
      assert body.value.projectId == "" ==> projectId[..5] == "proj-";
      (Store(store.statuses, store.startTimes[deploymentId := now]),
       Ok(DeployReply(deploymentId, projectId, commitHash, Queued.Name(),
                      "ws://localhost:8080/ws?deploymentId=" + deploymentId)))
  }

  datatype CommitRequest = CommitRequest(files: map<string, string>, projectId: string, message: string)

  datatype CommitReply = CommitReply(commitHash: string, projectId: string, status: string, message: string)

  /** `mockCommit`: project ID and message are echoed unchanged. */
  function MockCommit(httpMethod: string, body: Option<CommitRequest>, commitHash: string): (r: HttpReply<CommitReply>)
    ensures httpMethod != "POST" ==> r == HttpError(MethodNotAllowed)
    ensures httpMethod == "POST" && body.None? ==> r == HttpError(BadRequest)
    ensures r.Ok? <==> httpMethod == "POST" && body.Some?
    ensures r.Ok? ==>
      && r.body.projectId == body.value.projectId
      && r.body.message == body.value.message
      && r.body.status == "committed"
      && r.body.commitHash == commitHash
  {
    if httpMethod != "POST" then HttpError(MethodNotAllowed)
    else if body.None? then HttpError(BadRequest)
    else Ok(CommitReply(commitHash, body.value.projectId, "committed", body.value.message))
  }

  /** The files of a commit reach its reply only through the hash: two
      commits of one project with one message get the same reply up to the
      hash. */
  lemma MockCommitFilesOnlyReachHash(a: CommitRequest, b: CommitRequest, ha: string, hb: string)
    requires a.projectId == b.projectId && a.message == b.message
    ensures MockCommit("POST", Some(a), ha).Ok? && MockCommit("POST", Some(b), hb).Ok?
    ensures MockCommit("POST", Some(a), ha).body == MockCommit("POST", Some(b), hb).body.(commitHash := ha)
  {
  }

  /** The generated project: the four file names, and the prompt that the
      generated `main.py` embeds. */
  datatype GenerateReply = GenerateReply(fileNames: set<string>, prompt: string)

  const GeneratedFiles: set<string> := {"main.py", "models.py", "requirements.txt", "schema.sql"}

  /** `mockGenerate`; `body` is the decoded prompt. */
  function MockGenerate(httpMethod: string, body: Option<string>): (r: HttpReply<GenerateReply>)
    ensures httpMethod != "POST" ==> r == HttpError(MethodNotAllowed)
    ensures httpMethod == "POST" && body.None? ==> r == HttpError(BadRequest)
    ensures r.Ok? <==> httpMethod == "POST" && body.Some?
    ensures r.Ok? ==> r.body.prompt == body.value && |r.body.fileNames| == 4
  {
    if httpMethod != "POST" then HttpError(MethodNotAllowed)
    else if body.None? then HttpError(BadRequest)
    else Ok(GenerateReply(GeneratedFiles, body.value))
  }
}
