# Deployment watch of the backend-im CLI and its mock API, in Dafny

This project models how the `backend-im` command line client follows a
deployment, and how the mock deployment service it is developed against
answers. It covers four parts of the system.

- **The deploy command's two watch modes** (`cli/internal/commands/deploy.go`),
  in module `Deploy`.
  - `pollForDeploymentURL` asks the status endpoint once a second, for at
    most 30 attempts. It shows a status line only when the status changed,
    and ends on a request error, on `failed`, or on `complete` with a URL.
  - `streamDeploymentUpdates` hands each pushed update to a callback. The
    callback keeps the last status and the most recent URL, shows status
    and log lines, and fails on `failed`.
- **The WebSocket client** (`cli/internal/api/websocket.go`), in module
  `WebSocket`.
  - The default base URL.
  - The http→ws / https→wss scheme conversion and the dial URL.
  - The read loop of `StreamUpdates`, which classifies how a stream ends:
    normal or going-away close, another close code, a stale connection, or
    a read error.
- **The mock API** (`mock-api/main.go`), in module `MockApi`.
  - The status endpoint's schedule: one stage per three seconds of elapsed
    time, `complete` from 18 s. Its memo of completed records is threaded
    through as an explicit `Store`.
  - The WebSocket endpoint's fixed five-frame stream.
  - The method, decode, defaulting and echo rules of deploy, commit and
    generate.
- **The project file filter** (`cli/internal/files/project.go`), in module
  `ProjectFiles`. It covers `shouldIgnore` over its six patterns, with
  `filepath.Match` restricted to `*` and literal characters. It also covers
  the per-entry rule of `ReadProjectFiles` over an explicit list of walked
  entries.

Module `Scenarios` joins these modules to show what the client sees against
the mock. In that setting:

- polling a fresh deployment, at any pace that leaves at least a second
  between requests, returns the URL built from the ID within 19 requests
  and shows the stages in order, each at most once;
- with requests exactly one second apart, it takes exactly 19 requests and
  shows each of the seven stages exactly once;
- streaming shows the URL last;
- both modes report the same URL, at any such pace.

What the code prints is modelled as display events (`Deploy.Event`) rather
than text. Every network exchange is an input:

- each status request is a `PollOutcome`;
- each WebSocket read is a `ReadOutcome`;
- a dial either succeeds or fails.

Clock readings, fresh UUIDs and commit hashes are parameters too.

The model follows the code in three behaviours a reader might not expect.

- A `complete` update without any URL prints the plain success line; no
  warning is raised.
- A normal or going-away close before any terminal update makes the watch
  return nil, not an "unknown" outcome.
- A `complete` poll answer with an empty URL does not end the poll, which
  then runs into the timeout.

## Model

| member | source | states |
|---|---|---|
| Deploy.Poll | cli/internal/commands/deploy.go:102-141 | At most 30 requests, at least one. Every request before the last got a non-stopping answer. The result is the last answer's verdict if it stops the poll, otherwise a timeout naming 30 seconds. Request `i` shows exactly `Shown(answer(i), previous status)`. |
| Deploy.PollFrom | cli/internal/commands/deploy.go:107-140 | Definition of the loop from attempt `a` with the status shown last. `PollFromBounds`, `PollFromStops` and `PollFromStepAt` state what it does. |
| Deploy.PollStartBounds | cli/internal/commands/deploy.go:103-107 | The whole poll makes at least one and at most 30 requests. |
| Deploy.PollStartStops | cli/internal/commands/deploy.go:107-140 | Every request of the whole poll before the last got a non-stopping answer. The poll ends with the last answer's verdict if that answer stops it, otherwise after 30 requests with the timeout. |
| Deploy.PollStartSteps | cli/internal/commands/deploy.go:113-121 | Request `i` of the whole poll shows `Shown(answer(i), previous status)`. |
| Deploy.Stops | cli/internal/commands/deploy.go:108-133 | Definition: an answer ends the poll when the request failed, the status is `failed`, or it is `complete` with a non-empty URL. |
| Deploy.Verdict | cli/internal/commands/deploy.go:108-133 | Definition of the result of a stopping answer: the request error, "deployment failed", or the URL. `VerdictMeaning` states its properties. |
| Deploy.Shown | cli/internal/commands/deploy.go:113-121 | Definition: a status line with the newest log entry, only when the status differs from the one shown last. `PollStatusLineIff` states it for the whole poll. |
| Deploy.PollFromBounds | cli/internal/commands/deploy.go:103-107 | From attempt `a` on, the loop never goes past the 30-attempt budget, and it makes at least one request while any attempt is left. |
| Deploy.PollFromStops | cli/internal/commands/deploy.go:107-140 | From attempt `a` on, the loop goes on past every non-stopping answer. It ends on the first stopping one with that answer's verdict, or else at attempt 30 with the timeout. |
| Deploy.PollFromStepAt | cli/internal/commands/deploy.go:113-121 | Request `a + j` shows what `Shown` gives for its answer against the status before it: `lastStatus` for the first request, the previous answer's status after that. |
| Deploy.PollRunsOut | cli/internal/commands/deploy.go:103-140 | When none of the 30 answers stops the poll, it makes all 30 requests and times out. |
| Deploy.VerdictMeaning | cli/internal/commands/deploy.go:123-133 | A stopping answer yields a URL exactly when it is `complete`; the URL is that answer's non-empty URL. A failed request or `failed` yields an error, never a timeout. |
| Deploy.LastLog | cli/internal/commands/deploy.go:116-118 | There is a log to show exactly when the list is non-empty, and it is the last entry. |
| Deploy.PollEndsAtFirstStop | cli/internal/commands/deploy.go:107-133 | If request `k` is the first stopping answer, the poll makes exactly `k+1` requests and returns its verdict. A failed request is returned as that same error, with no retry. |
| Deploy.PollTimeoutMeansNoStop | cli/internal/commands/deploy.go:107-140 | A timed-out poll saw no stopping answer in all 30 requests. |
| Deploy.PollTimeoutIff | cli/internal/commands/deploy.go:103-140 | The poll times out if and only if none of the 30 answers stops it. |
| Deploy.PollFoundOnlyOnCompleteWithURL | cli/internal/commands/deploy.go:123-128 | A URL is returned if and only if the first stopping answer is `complete`. The URL returned is exactly that answer's URL, which is non-empty. |
| Deploy.PollReadsOnlyConsumed | cli/internal/commands/deploy.go:107-138 | Answers to requests after the poll stopped cannot change the run, because no further request is made. |
| Deploy.PollFromReadsOnlyConsumed | cli/internal/commands/deploy.go:107-138 | Two servers that agree on every request the loop from attempt `a` makes give the same run from there. |
| Deploy.PollStatusLineIff | cli/internal/commands/deploy.go:113-121 | A request shows a line if and only if it observed a status other than the previous one (the first is compared with ""). The line carries only the newest log entry. |
| Deploy.PollDedupExample | cli/internal/commands/deploy.go:113-121 | `[queued, queued, committing]` shows two status lines, then the request error ends the poll. |
| Deploy.PollRegressionExample | cli/internal/commands/deploy.go:113-121 | `[building, deploying, building]` shows three lines, so a status going back is not suppressed. |
| Deploy.PollEmptyFirstStatusShowsNothing | cli/internal/commands/deploy.go:105-121 | An empty first status shows nothing. |
| Deploy.PollSameAnswerTimesOut | cli/internal/commands/deploy.go:103-140 | A server that repeats one non-stopping answer gets 30 requests, then the timeout. Only the first request shows a status line, and none when the status is empty. |
| Deploy.PollCompleteWithoutURLTimesOut | cli/internal/commands/deploy.go:124-128 | `complete` with an empty URL never ends the poll, so it times out. |
| Deploy.NonEmpty | cli/internal/commands/deploy.go:168-173 | The namespace and PVC are shown exactly when non-empty. |
| Deploy.LogLines | cli/internal/commands/deploy.go:179-181 | Every log entry becomes one log line, in order. |
| Deploy.ClosingLine | cli/internal/commands/deploy.go:189-195 | `complete` ends on the URL line when a URL has been seen, otherwise on the plain success line. |
| Deploy.LastURLIsLatest | cli/internal/commands/deploy.go:183-186 | The URL kept is empty if and only if no update carried one. Otherwise it is the URL of an update after which no update carried one. |
| Deploy.LastURLSnoc | cli/internal/commands/deploy.go:183-186 | A new non-empty URL replaces the kept one; an empty URL never clears it. |
| Deploy.OnUpdateStopsAtTerminal | cli/internal/commands/deploy.go:188-203 | The callback fails exactly on `failed`, so the loop stops exactly at `complete` or `failed`. |
| Deploy.OnUpdateFailsOnlyOnTerminal | cli/internal/commands/deploy.go:188-203 | The callback returns an error only for a terminal update. It returns nil on `complete` and "deployment failed" on `failed`. |
| Deploy.ShownForAt | cli/internal/commands/deploy.go:164-197 | The events of update `i` depend only on that update, the status before it and the latest URL up to it. |
| Deploy.WatchStateAfter | cli/internal/commands/deploy.go:161-204 | After any updates, the callback's state is the last status, the most recent URL and the events of the reference definition `ShownFor`. |
| Deploy.UpdateEventsShape | cli/internal/commands/deploy.go:165-197 | An update shows a status line first exactly when the status changed, with namespace and PVC. Then every log line in order, whether or not the status changed. Then, only on `complete`, the closing line. |
| Deploy.WatchStatusLineIff | cli/internal/commands/deploy.go:164-181 | In a stream, update `i` shows a status line if and only if its status differs from the previous update's. All its log lines are shown either way. |
| Deploy.ShownForShape | cli/internal/commands/deploy.go:164-181 | The same holds for the reference events of update `i`. |
| Deploy.NonCompleteEvents | cli/internal/commands/deploy.go:165-181 | A non-`complete` update shows only status and log lines. |
| Deploy.NoClosingLinesBeforeComplete | cli/internal/commands/deploy.go:183-197 | Until `complete` arrives, no URL line and no success line is shown. |
| Deploy.Watch | cli/internal/commands/deploy.go:144-211 | A failed dial ends the watch with the connect error naming the dialed URL, and nothing is delivered. A successful dial runs the read loop; the watch returns a streaming error exactly when the loop does. |
| Deploy.WatchEndsBeforeTerminal | cli/internal/commands/deploy.go:164-210 | A stream that ends before any terminal update delivers every update and shows no URL. It returns nil if and only if the server closed normally or went away. With no further frame the read deadline gives a stale connection. |
| Deploy.WatchRunsToComplete | cli/internal/commands/deploy.go:164-210 | Frames ending in `complete`, followed by anything, deliver exactly those updates, show the reference events and return nil. |
| Deploy.CompleteShowsLatestURL | cli/internal/commands/deploy.go:183-197 | When `complete` comes last, the last event is the closing line for the most recent URL of all the updates. |
| Deploy.WatchCompleteReportsLatestURL | cli/internal/commands/deploy.go:183-197 | The watch reports the most recent URL, even one that came with an earlier update, or the success line if none came. |
| Deploy.WatchFailedStopsAtOnce | cli/internal/commands/deploy.go:199-208 | A `failed` update ends the watch with "deployment failed", and nothing after it is read. |
| Deploy.ReportPoll | cli/internal/commands/deploy.go:79-87 | A failed poll prints a warning and the `--watch` hint without failing the command. A non-empty URL is printed. |
| Deploy.ReportWatch | cli/internal/commands/deploy.go:73-77 | The command fails exactly when the stream returned an error. |
| Deploy.PollURLAlwaysPrinted | cli/internal/commands/deploy.go:81-87 | Whenever the poll returns a URL, the command prints it. |
| Deploy.UpdateEvents | cli/internal/commands/deploy.go:164-197 | Definition of what one update shows. `UpdateEventsShape` states its shape. |
| Deploy.OnUpdate | cli/internal/commands/deploy.go:164-204 | Definition of the callback: the new last status, the most recent URL, the events, and "deployment failed" on `failed`. `OnUpdateStopsAtTerminal` and `OnUpdateFailsOnlyOnTerminal` state when it fails. |
| Deploy.LastURL | cli/internal/commands/deploy.go:183-186 | Definition of the URL kept across updates. `LastURLIsLatest` and `LastURLSnoc` state which one it is. |
| Deploy.ShownFor | cli/internal/commands/deploy.go:164-197 | Reference definition of the events, one group per update. `WatchStateAfter` ties the callback's state to it. |
| WebSocket.NewWebSocketClient | cli/internal/api/websocket.go:27-33 | An empty base URL becomes the default one; any other is kept unchanged; the client starts unconnected. |
| WebSocket.ToWebSocketBase | cli/internal/api/websocket.go:37-45 | The result always starts with `ws://` or `wss://`, and is `wss://` if and only if the input was https or wss. The text after the scheme is kept. |
| WebSocket.SchemeFacts | cli/internal/api/websocket.go:38-42 | The four scheme prefixes exclude each other. |
| WebSocket.ToWebSocketBaseIdempotent | cli/internal/api/websocket.go:37-45 | Converting twice is the same as converting once. |
| WebSocket.DialURL | cli/internal/api/websocket.go:48 | The dialed URL is the converted base, then `/ws?deploymentId=`, then the ID. |
| WebSocket.Connect | cli/internal/api/websocket.go:35-61 | The client connects exactly when the dial succeeds, keeping its base URL. A failure names the dialed URL. |
| WebSocket.StreamUpdates | cli/internal/api/websocket.go:63-66 | Without a connection it fails with nothing read; with one it runs the read loop. |
| WebSocket.ClassifyReadFailure | cli/internal/api/websocket.go:80-96 | Close codes 1000 and 1001 give nil; any other close carries its code; a timeout gives the stale-connection error; anything else is a read error. |
| WebSocket.Fold | cli/internal/api/websocket.go:98-101 | Definition: the callback applied to each update in order, threading its state. `FoldSnoc` states the one-step unfolding. |
| WebSocket.ReadLoop | cli/internal/api/websocket.go:77-110 | Definition of the read loop. `ReadLoopMeetsSpec` states its contract. |
| WebSocket.ReadLoopMeetsSpec | cli/internal/api/websocket.go:77-110 | Updates reach the callback in arrival order, once each, with the state the earlier calls left. The loop passes every non-stopping update. It ends with the callback's error, nil at a terminal status, or the classified read failure. |
| WebSocket.FoldSnoc | cli/internal/api/websocket.go:98-101 | One more update is one more callback application. |
| WebSocket.ReadLoopRunsThrough | cli/internal/api/websocket.go:77-110 | Non-terminal frames followed by a non-frame read: every update is delivered, and the loop ends as that read says. |
| WebSocket.ReadLoopStopsAtTerminal | cli/internal/api/websocket.go:98-106 | Non-terminal frames then a terminal one: exactly those updates are delivered, nothing further is read, and the callback's error is returned, if any. |
| MockApi.StageAt | mock-api/main.go:185-207 | The stage is `queued` exactly below 3 s, `complete` exactly from 18 s, and otherwise follows the 3-second schedule. |
| MockApi.StageAtIndex | mock-api/main.go:185-207 | The stage index is elapsed time divided by 3 s, capped at 6. |
| MockApi.StageAtMonotone | mock-api/main.go:185-207 | A deployment never moves back a stage as time passes. |
| MockApi.NameInjective | mock-api/main.go:185-207 | Distinct stages have distinct status strings. |
| MockApi.CompleteURL | mock-api/main.go:206 | The URL is `https://`, then the ID's first 12 characters, then `.backend.im`; it is 31 characters long. |
| MockApi.RecordFor | mock-api/main.go:220-230 | A computed record has one log line and the stage's status. It carries a URL exactly when `complete`. |
| MockApi.MockStatus | mock-api/main.go:155-234 | An empty ID gives 400 and changes nothing. A memoised record is returned as is. The first request for an ID registers it now and is `queued`. A known ID gets its stage by elapsed time. A short ID that reaches `complete` panics. A computed `complete` record is memoised; nothing else is, and no other ID's entries change. |
| MockApi.MockStatusOfStartedId | mock-api/main.go:169-207 | A started ID that is not memoised is answered with the record for its elapsed-time stage. |
| MockApi.MockStatusKeepsStoreValid | mock-api/main.go:209-217 | Every memoised record stays the `complete` record of its own ID. |
| MockApi.MockStatusReplyShape | mock-api/main.go:203-230 | Every answered record has one log line and a URL exactly when `complete`: the one built from the ID. |
| MockApi.RecordShape | mock-api/main.go:220-230 | The same holds for a freshly computed record. |
| MockApi.MemoPersists | mock-api/main.go:162-167 | Across any sequence of requests, memoised records are never changed or dropped, and every request for one gets it back. |
| MockApi.CompleteIsSticky | mock-api/main.go:162-217 | Once an ID has been answered `complete`, every later request for it gets the identical record, at any time. |
| MockApi.ServeStatus | mock-api/main.go:151-234 | Requests served one after another, each against the store the previous one left, with one reply per request. `MemoPersists` and `CompleteIsSticky` state its properties. |
| MockApi.StreamFrame | mock-api/main.go:257-293 | A streamed frame carries the ID and the stage's status, no namespace or PVC, and one log line. It has a URL exactly on `complete`. |
| MockApi.MockWebSocket | mock-api/main.go:238-303 | An empty ID gives 400 and an ID under 12 characters panics. Otherwise five frames are streamed: committing, creating_namespace, creating_pvc, deploying, complete. |
| MockApi.StreamShape | mock-api/main.go:257-293 | Only the last frame is terminal and has a URL. `queued` and `building` are never streamed. |
| MockApi.MockDeploy | mock-api/main.go:81-118 | A non-POST request gives 405 and an undecodable body gives 400. On success: the status is `queued`; the project ID is echoed, or else becomes `proj-` plus 8 characters; `websocketUrl` embeds the new ID; the start time is recorded. |
| MockApi.MockCommit | mock-api/main.go:121-148 | A non-POST request gives 405 and an undecodable body gives 400. Otherwise the project ID and message are echoed with status `committed`. |
| MockApi.MockCommitFilesOnlyReachHash | mock-api/main.go:126-146 | Two commits of one project with one message get the same reply up to the hash: the files reach the reply only through the hash. |
| MockApi.MockGenerate | mock-api/main.go:33-45 | A non-POST request gives 405 and an undecodable body gives 400. Otherwise four files are returned, embedding the prompt. |
| ProjectFiles.ShouldIgnore | cli/internal/files/project.go:67-91 | A path is ignored if and only if it starts with `.git/`, `__pycache__/`, `node_modules/` or `.backend-im/`, is exactly `.env`, or has no `/` and ends in `.pyc`. |
| ProjectFiles.GlobMatch | cli/internal/files/project.go:78 | Definition of `filepath.Match` restricted to `*` and literal characters. `GlobLiteral` and `GlobStarLiteral` state it. |
| ProjectFiles.PatternIgnores | cli/internal/files/project.go:77-87 | Definition of one pattern's test: a glob match, or a root-anchored prefix for a pattern ending in `/`. `PatternFacts` states it per pattern. |
| ProjectFiles.Included | cli/internal/files/project.go:34-53 | Definition of the walk's per-entry rule: not a directory, base name not hidden, path not ignored. `ReadProjectFiles` states the result. |
| ProjectFiles.AnyPatternIgnores | cli/internal/files/project.go:77-90 | Trying the patterns in order finds a match if and only if some pattern matches. |
| ProjectFiles.PatternFacts | cli/internal/files/project.go:68-87 | What each of the six patterns rules out, as a glob match or an anchored prefix. |
| ProjectFiles.GlobLiteral | cli/internal/files/project.go:78 | A pattern without `*` matches exactly itself. |
| ProjectFiles.GlobStarLiteral | cli/internal/files/project.go:78 | `*lit` matches exactly the names without `/` that end in `lit`. |
| ProjectFiles.ShouldIgnoreDirectoryExamples | cli/internal/files/project.go:82-86 | `node_modules/left-pad/index.js` is ignored but `sub/node_modules/x.js` is not: the test is a root-anchored prefix. |
| ProjectFiles.ShouldIgnorePycExamples | cli/internal/files/project.go:77-81 | `a.pyc` is ignored but `pkg/a.pyc` is not. |
| ProjectFiles.ShouldIgnoreEnvExamples | cli/internal/files/project.go:77-81 | `.env` is ignored but `.env.local` is not. |
| ProjectFiles.ShouldIgnoreKeepsSource | cli/internal/files/project.go:67-91 | `main.py` matches no pattern. |
| ProjectFiles.IncludedHiddenDirectoryExample | cli/internal/files/project.go:43-53 | `.github/ci.yml` is read: only a hidden base name is skipped. `src/.secret` is skipped. |
| ProjectFiles.IncludedPycExample | cli/internal/files/project.go:39-53 | `pkg/cache.pyc` is read; a directory never is. |
| ProjectFiles.CollectFiles | cli/internal/files/project.go:34-62 | Given any selection rule: the keys are exactly the selected paths, each holding its last selected entry's content. A read failure is reported if and only if some selected entry is unreadable, and it names the first. |
| ProjectFiles.StoreKeptEntry | cli/internal/files/project.go:60 | Storing a selected entry's content under its path keeps every entry that is still the last of its path stored with its own content. |
| ProjectFiles.SkipEntry | cli/internal/files/project.go:36-53 | Passing over an entry the rule does not select keeps every last-of-its-path entry stored with its content. |
| ProjectFiles.ReadProjectFiles | cli/internal/files/project.go:31-65 | The same, for the rule "not a directory, base name not hidden, path not ignored". |
| Text.BaseName | cli/internal/files/project.go:44 | The base name is never empty. A path without `/` is its own base name. Otherwise it is the last element, as `LastElement` characterises it, of the path with its trailing slashes dropped. |
| Text.BaseNameAfterLastSlash | cli/internal/files/project.go:44 | For a path that does not end in `/`, the base name is exactly the text after its last `/`. |
| Text.LastElement | cli/internal/files/project.go:44 | The last element of a path: a suffix of it free of `/`, preceded by a `/` whenever it is not the whole path. |
| Text.TrimTrailingSlashes | cli/internal/files/project.go:44 | A prefix of the path that does not end in `/`, with only `/` removed after it. |
| Text.BaseNameOfJoin | cli/internal/files/project.go:44 | The base name of `dir/name` is `name`. |
| Scenarios.Decode | mock-api/main.go:220-233 | Definition of what the client reads from a status reply: the record, with a missing URL as "", or a failed request for a 400 or a dropped connection. |
| Scenarios.StageAfterSeconds | mock-api/main.go:185-207 | After `i` whole seconds the stage is number `i / 3`, capped at `complete`. |
| Scenarios.DecodedStatusAt | mock-api/main.go:169-230 | A started, unfinished ID decodes to its elapsed-time stage. The URL is the one built from the ID on `complete`, and empty otherwise. |
| Scenarios.MockAnswerAt | mock-api/main.go:169-207 | Request `i` of a once-a-second poll observes stage `StageAt(i s)`. |
| Scenarios.StageNotTerminal | mock-api/main.go:185-207 | No stage is `failed`; only `complete` is terminal. |
| Scenarios.MockPollFindsURL | cli/internal/commands/deploy.go:107-128 | With requests exactly one second apart, polling a fresh mock deployment takes 19 requests and returns the URL built from the ID. |
| Scenarios.StageChangesEveryThirdSecond | mock-api/main.go:185-202 | The stage changes from one second to the next exactly every third second. |
| Scenarios.MockStatusChangesEveryThird | mock-api/main.go:185-207 | With requests exactly one second apart, the observed status changes exactly on every third request. |
| Scenarios.MockPollLineAt | cli/internal/commands/deploy.go:113-121 | Against the mock polled once a second, request `i` shows a line exactly when its status changed. |
| Scenarios.MockStatusChangeAt | mock-api/main.go:185-207 | With requests exactly one second apart, request `i`'s status differs from the one before exactly when `i` is a multiple of 3. |
| Scenarios.MockPollShowsEachStageOnce | cli/internal/commands/deploy.go:113-121 | With requests exactly one second apart, the poll shows a line exactly at requests 0, 3, …, 18: each of the seven stages once. |
| Scenarios.Cadence | cli/internal/commands/deploy.go:136-137 | Definition of the request times of a real poll: the first no earlier than the registration, and at least a second between one request and the next, since the client sleeps a second after each answer. |
| Scenarios.CadenceElapsed | cli/internal/commands/deploy.go:136-137 | At such a pace, request `i` comes at least `i` seconds after the registration. |
| Scenarios.CadenceMonotone | cli/internal/commands/deploy.go:136-137 | At such a pace, a later request is never served earlier. |
| Scenarios.CadenceAnswerAt | mock-api/main.go:169-230 | Request `i` observes the stage its elapsed time gives: that stage's name, its log line, and the URL built from the ID exactly at `complete`. |
| Scenarios.CadenceAnswerIsRecord | mock-api/main.go:169-230 | The answer to a request depends on its stage alone. |
| Scenarios.CadenceAnswerChange | mock-api/main.go:185-207 | A request that gets another answer than the one before is at another stage. |
| Scenarios.CadenceStageMonotone | mock-api/main.go:185-207 | At such a pace, a later request never sees an earlier stage. |
| Scenarios.CadenceStagesAdvance | mock-api/main.go:185-207 | A request at another stage than the one before is at a strictly later stage than every earlier request. |
| Scenarios.UnfinishedRequestKeepsStore | mock-api/main.go:169-217 | A request for a registered ID before `complete` leaves the store unchanged, so the poll up to its first `complete` answer is served from the store the deployment left. |
| Scenarios.AnyCadenceFindsURL | cli/internal/commands/deploy.go:107-137 | At any pace that leaves at least a second between requests, polling a fresh mock deployment returns the URL built from the ID after at most 19 requests. |
| Scenarios.AnyCadenceShowsStagesInOrder | cli/internal/commands/deploy.go:113-121 | At any such pace, each status line shown names its request's stage with that stage's log line. That stage is strictly later than the stage of every earlier request, so the stages appear in order, each at most once. |
| Scenarios.MockFramesSplit | mock-api/main.go:257-293 | The mock stream is four non-terminal frames, then `complete`, the only one with a URL. |
| Scenarios.WatchEndsOnComplete | cli/internal/commands/deploy.go:164-204 | Any frames ending in `complete`, followed by anything, are all delivered without error. The closing line for the latest URL is shown last. |
| Scenarios.MockStreamRun | cli/internal/commands/deploy.go:164-204 | Watching the mock stream delivers all five frames without error. |
| Scenarios.MockStreamClosingLine | mock-api/main.go:286-293 | The mock stream's latest URL is the one built from the ID. |
| Scenarios.MockStreamShowsURL | cli/internal/commands/deploy.go:183-197 | Watching the mock stream ends by showing the URL built from the ID. |
| Scenarios.PollAndStreamAgree | cli/internal/commands/deploy.go:73-88 | Both watch modes report the same URL for a fresh mock deployment, at any poll pace that leaves at least a second between requests. |
| Scenarios.HttpDialURL | cli/internal/api/websocket.go:38-48 | `http://X` is dialed as `ws://X/ws?deploymentId=ID`. |
| Scenarios.DefaultDialURL | cli/internal/api/websocket.go:27-48 | With the default base URL the client dials `ws://localhost:8080/ws?deploymentId=ID`. |
| Scenarios.DeployedWebSocketURLMatchesClient | mock-api/main.go:113 | The mock's advertised `websocketUrl` is exactly the URL the default client dials. |
| Scenarios.DeployedIdsNeverPanic | mock-api/main.go:96-106 | An ID the mock issued never makes the status or WebSocket endpoint panic: a status request for it answers with a record from any store, whatever requests came before. |

## Left out

- Network, HTTP and JSON. These cover `GetStatus`, the dial, the handshake, `ReadJSON` and `WriteJSON`. They are inputs: a `PollOutcome` per request, a `ReadOutcome` per read, a boolean per dial. `cli/internal/api/client.go` is not part of this model beyond `DefaultAPIURL`. Its only logic, the 2xx check and the bearer header, collapses into a failed request.
- Time. This covers `time.Sleep`, the 60-second read deadline, the pong handler and the 10-second handshake timeout. Clock readings are integers, and an expired deadline is a `DeadlineExceeded` read. When the reads run out, the deadline is taken to fire.
- `generateCommitHash`. Its SHA-256 over Go's randomised map order is not deterministic, so the hash is a parameter. Fresh UUIDs are parameters too.
- Concurrency. The mock's global maps are mutated by concurrent handlers without locks; the model serves requests one at a time.
- In `mockStatus`, Go reads the clock twice for a new ID. The model uses one reading, so a new ID's elapsed time is exactly 0.
- The mock's auth handlers, `DownloadFiles`, the directory walk itself, token storage, the editor launcher, and the login, generate, commit and edit commands. These are file-system, process and flag plumbing.
- The printed text: emoji, `printf` formats and wrapped error messages. Output is display events, and errors are constructors.
- The request path and query parsing of the mock handlers. The ID is given directly.
- Cancellation of a running watch. The Go code has no cancellation path besides closing the connection.
- WebSocket write errors in `mockWebSocket`, which end the stream early. The model always writes all five frames.
- MockApi.MockGenerate: the canned FastAPI file contents are not modelled, only the four file names and the embedded prompt.
- ProjectFiles.ReadProjectFiles: several things are weaker than the source.
  - Walk errors (`err != nil` in the callback) and `filepath.Rel` are not modelled; entries come with their relative path.
  - The hidden-name test is applied to the relative path's base name, which equals the full path's for every entry below the project directory.
  - On a read failure, the partially filled map Go also returns is not described. The failure names the relative path, where Go's message uses the full path.
- Text.BaseName: models `filepath.Base` for `/`-separated paths only; volume names and `\` separators are not modelled.
- Deploy.ReportWatch: keeps only whether the command fails, not the wrapped error text.
- Scenarios.MockPollFindsURL: assumes request `i` is served exactly `i` seconds after the registration. The client sleeps a second after each answer, so real requests come later by the round-trip time; the exact count of 19 holds only at that idealised pace. For any pace with at least a second between requests, `AnyCadenceFindsURL` promises the URL within 19 requests.
- Scenarios.MockStatusChangesEveryThird: holds only at the idealised pace of one request per second; at a slower pace a stage can last fewer than three requests or be skipped.
- Scenarios.MockStatusChangeAt: holds only at the idealised pace of one request per second, for the same reason.
- Scenarios.MockPollLineAt: holds only at the idealised pace of one request per second, for the same reason.
- Scenarios.MockPollShowsEachStageOnce: holds only at the idealised pace of one request per second; at a slower pace a stage can be skipped. For any pace, `AnyCadenceShowsStagesInOrder` promises the stages in order, each at most once.
- Scenarios.MockAnswerAt: describes the answers at the idealised pace of one request per second. Like `CadenceAnswers`, it serves every request from the store the registration left; `UnfinishedRequestKeepsStore` shows that requests before `complete` leave the store unchanged, and the poll ends at the first `complete`.
- MockApi.CompleteURL: Go's `deploymentID[:12]` takes the first 12 bytes, while the model takes the first 12 characters of a `seq<char>`. The two agree on ASCII IDs, and `mockDeploy` issues only ASCII UUIDs; a non-ASCII ID given to the status endpoint is not modelled byte for byte.
- MockApi.RecordFor: the URL it holds is `CompleteURL`'s, so it counts characters, not bytes, for the same reason.
- MockApi.MockStatus: its short-ID test (a panic at `complete` for IDs under 12) counts characters where Go's slice bound counts bytes. The two agree on ASCII IDs.
- MockApi.StreamFrame: the URL of its last frame counts characters, not bytes, for the same reason.
- MockApi.MockWebSocket: its short-ID test counts characters where Go's slice bound counts bytes. The two agree on ASCII IDs.
