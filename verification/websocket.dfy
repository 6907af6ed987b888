/** The streaming transport of the CLI (cli/internal/api/websocket.go):
    building the WebSocket URL from the API base URL, and the read loop that
    hands each pushed deployment update to a callback and classifies the
    way the stream ends.

    Dialing, the handshake, JSON decoding and read deadlines are I/O: a dial
    is a boolean outcome, and each read of the loop is one `ReadOutcome`. */
module WebSocket {
  import opened Wrappers
  import opened Text

  /** `DefaultAPIURL` of cli/internal/api/client.go. */
  const DefaultAPIURL: string := "http://localhost:8080"

  /** Close codes 1000 and 1001 of RFC 6455 section 7.4.1. */
  const CloseNormalClosure: int := 1000
  const CloseGoingAway: int := 1001

  /** The two terminal status strings of the deployment protocol. */
  const Complete: string := "complete"
  const Failed: string := "failed"

  predicate IsTerminal(status: string) {
    status == Complete || status == Failed
  }

  /** One decoded frame (`DeploymentUpdate`); absent optional JSON fields
      decode to the empty string. */
  datatype Update = Update(
    deploymentId: string,
    projectId: string,
    commitHash: string,
    status: string,
    namespace: string,
    pvc: string,
    url: string,
    logs: seq<string>)

  /** What one `ReadJSON` call yields: a decoded frame, a close frame with
      its code, an expired read deadline, or any other failure (network
      error, malformed JSON). */
  datatype ReadOutcome =
    | Frame(update: Update)
    | CloseFrame(code: int)
    | DeadlineExceeded
    | ReadFailure(reason: string)

  /** Errors `StreamUpdates` can return; `E` is the callback's error type. */
  datatype StreamError<E> =
    | NotConnected
    | ClosedWithCode(code: int)
    | StaleConnection
    | ReadError(reason: string)
    | CallbackError(error: E)

  /** `WebSocketClient`: the stored base URL and whether `Connect` has
      established a connection. */
  datatype Client = Client(baseURL: string, connected: bool)

  /** `NewWebSocketClient`: an empty base URL falls back to the default;
      any other is kept exactly as given. */
  function NewWebSocketClient(baseURL: string): (c: Client)
    ensures !c.connected
    ensures c.baseURL != ""
    ensures baseURL != "" ==> c.baseURL == baseURL
    ensures baseURL == "" ==> c.baseURL == DefaultAPIURL
  {
    Client(if baseURL == "" then DefaultAPIURL else baseURL, false)
  }

  /** The text after a recognised scheme (`http://`, `https://`, `ws://`,
      `wss://`); the whole string when none is present. */
  function AfterScheme(base: string): string {
    if HasPrefix(base, "http://") then base[7..]
    else if HasPrefix(base, "https://") then base[8..]
    else if HasPrefix(base, "ws://") then base[5..]
    else if HasPrefix(base, "wss://") then base[6..]
    else base
  }

  /** Whether `base` names a TLS scheme. */
  predicate IsSecureScheme(base: string) {
    HasPrefix(base, "https://") || HasPrefix(base, "wss://")
  }

  /** The scheme conversion at the start of `Connect`: http becomes ws,
      https becomes wss, ws and wss stay, and a base without a scheme gets
      ws prepended. The result is always a ws/wss URL whose remainder is the
      input's remainder, secure exactly when the input was. */
  function ToWebSocketBase(base: string): (ws: string)
    ensures HasPrefix(ws, "ws://") || HasPrefix(ws, "wss://")
    ensures HasPrefix(ws, "wss://") <==> IsSecureScheme(base)
    ensures ws == (if IsSecureScheme(base) then "wss://" else "ws://") + AfterScheme(base)
  {
    SchemeFacts(base);
    PrependScheme("ws://", base);
    PrependScheme("ws://", AfterScheme(base));
    PrependScheme("wss://", AfterScheme(base));
    SchemeFacts("ws://" + base);
    SchemeFacts("ws://" + AfterScheme(base));
    SchemeFacts("wss://" + AfterScheme(base));
    if HasPrefix(base, "http://") then "ws://" + base[7..]
    else if HasPrefix(base, "https://") then "wss://" + base[8..]
    else if !HasPrefix(base, "ws://") && !HasPrefix(base, "wss://") then "ws://" + base
    else base
  }

  /** Which of the four scheme prefixes can hold together. */
  lemma SchemeFacts(s: string)
    ensures HasPrefix(s, "http://") ==> !HasPrefix(s, "https://") && !HasPrefix(s, "ws://") && !HasPrefix(s, "wss://")
    ensures HasPrefix(s, "https://") ==> !HasPrefix(s, "ws://") && !HasPrefix(s, "wss://")
    ensures HasPrefix(s, "ws://") ==> !HasPrefix(s, "wss://") && s == "ws://" + s[5..]
    ensures HasPrefix(s, "wss://") ==> s == "wss://" + s[6..]
  {
    if HasPrefix(s, "http://") {
      PrefixAt(s, "http://", 0);
      PrefixAt(s, "http://", 4);
    }
    if HasPrefix(s, "https://") {
      PrefixAt(s, "https://", 0);
    }
    if HasPrefix(s, "ws://") {
      PrefixAt(s, "ws://", 2);
      assert s == s[..5] + s[5..];
    }
    if HasPrefix(s, "wss://") {
      assert s == s[..6] + s[6..];
    }
  }

  /** Prepending a scheme gives a string with that prefix. */
  lemma PrependScheme(scheme: string, t: string)
    ensures HasPrefix(scheme + t, scheme)
  {
    assert (scheme + t)[..|scheme|] == scheme;
  }

  /** Converting an already converted base changes nothing. */
  lemma ToWebSocketBaseIdempotent(base: string)
    ensures ToWebSocketBase(ToWebSocketBase(base)) == ToWebSocketBase(base)
  {
    var ws := ToWebSocketBase(base);
    SchemeFacts(ws);
    if HasPrefix(ws, "wss://") {
      PrefixAt(ws, "wss://", 0);
    } else {
      PrefixAt(ws, "ws://", 0);
    }
  }

  /** The URL `Connect` dials: the converted base, the `/ws` path, and the
      deployment ID as the `deploymentId` query parameter. */
  function DialURL(base: string, deploymentId: string): (url: string)
    ensures |url| == |ToWebSocketBase(base)| + 17 + |deploymentId|
    ensures HasPrefix(url, ToWebSocketBase(base))
    ensures HasSuffix(url, deploymentId)
    ensures url[|ToWebSocketBase(base)|..|url| - |deploymentId|] == "/ws?deploymentId="
  {
    var ws := ToWebSocketBase(base);
    var url := ws + "/ws?deploymentId=" + deploymentId;
    assert url[..|ws|] == ws;
    assert url[|ws|..|url| - |deploymentId|] == "/ws?deploymentId=";
    url
  }

  /** The outcome of `Connect`: a connected client, or the dial error,
      which names the URL that was dialed. */
  datatype ConnectResult = Connected(client: Client) | DialFailed(url: string)

  /** `Connect`, with the outcome of the dial given as `dialSucceeds`. */
  function Connect(c: Client, deploymentId: string, dialSucceeds: bool): (r: ConnectResult)
    ensures r.Connected? <==> dialSucceeds
    ensures r.Connected? ==> r.client.connected && r.client.baseURL == c.baseURL
    ensures r.DialFailed? ==> HasPrefix(r.url, ToWebSocketBase(c.baseURL)) && HasSuffix(r.url, deploymentId)
  {
    if dialSucceeds then Connected(c.(connected := true))
    else DialFailed(DialURL(c.baseURL, deploymentId))
  }

  /** How a non-frame read ends the loop: a normal or going-away close is
      not an error, any other close carries its code, an expired deadline
      is a stale connection, anything else is a read error. */
  function ClassifyReadFailure<E>(o: ReadOutcome): (err: Option<StreamError<E>>)
    requires !o.Frame?
    ensures err.None? <==> o.CloseFrame? && (o.code == CloseNormalClosure || o.code == CloseGoingAway)
    ensures err.Some? && o.CloseFrame? ==> err.value == ClosedWithCode(o.code)
    ensures o.DeadlineExceeded? ==> err == Some(StaleConnection)
    ensures o.ReadFailure? ==> err == Some(ReadError(o.reason))
  {
    match o
    case CloseFrame(code) =>
      if code == CloseNormalClosure || code == CloseGoingAway then None
      else Some(ClosedWithCode(code))
    case DeadlineExceeded => Some(StaleConnection)
    case ReadFailure(reason) => Some(ReadError(reason))
  }

  /** The callback of `StreamUpdates`: it sees the state its earlier calls
      left and one update, and yields the new state and possibly an error. */
  type Callback<!S, E> = (S, Update) -> (S, Option<E>)

  /** The state after the callback has seen `us` in order, from `s`. */
  function Fold<S, E>(callback: Callback<S, E>, s: S, us: seq<Update>): S
    decreases |us|
  {
    if |us| == 0 then s else Fold(callback, callback(s, us[0]).0, us[1..])
  }

  /** Folding over one more update applies the callback once more. */
  lemma {:induction false} FoldSnoc<S, E>(callback: Callback<S, E>, s: S, us: seq<Update>, u: Update)
    ensures Fold(callback, s, us + [u]) == callback(Fold(callback, s, us), u).0
    decreases |us|
  {
    if |us| > 0 {
      assert (us + [u])[1..] == us[1..] + [u];
      FoldSnoc(callback, callback(s, us[0]).0, us[1..], u);
    } else {
      assert us + [u] == [u];
    }
  }

  /** Whether the callback reports an error for `us[i]` in a run over `us`. */
  predicate CallbackFailsAt<S, E>(callback: Callback<S, E>, s: S, us: seq<Update>, i: int)
    requires 0 <= i < |us|
  {
    callback(Fold(callback, s, us[..i]), us[i]).1.Some?
  }

  /** Whether the loop stops right after handing `us[i]` to the callback. */
  predicate StopsAt<S, E>(callback: Callback<S, E>, s: S, us: seq<Update>, i: int)
    requires 0 <= i < |us|
  {
    IsTerminal(us[i].status) || CallbackFailsAt(callback, s, us, i)
  }

  /** The end of a read loop: the updates handed to the callback in order,
      the callback's final state, and the error returned (None = nil). */
  datatype StreamEnd<S, E> = StreamEnd(delivered: seq<Update>, state: S, error: Option<StreamError<E>>)

  /** What the read loop promises about its end `r` on `outcomes`: every
      delivered update is the frame read at the same position, once; the
      callback's state is the fold over them; the loop went on past every
      earlier update; and it ended for one of the listed reasons. */
  ghost predicate ReadLoopEnds<S, E>(outcomes: seq<ReadOutcome>, callback: Callback<S, E>, s: S, r: StreamEnd<S, E>) {
    && |r.delivered| <= |outcomes|
    && (forall i :: 0 <= i < |r.delivered| ==> outcomes[i] == Frame(r.delivered[i]))
    && r.state == Fold(callback, s, r.delivered)
    && (forall i :: 0 <= i < |r.delivered| - 1 ==> !StopsAt(callback, s, r.delivered, i))
    && var n := |r.delivered|;
       if n > 0 && StopsAt(callback, s, r.delivered, n - 1) then
         r.error == (if CallbackFailsAt(callback, s, r.delivered, n - 1)
                     then Some(CallbackError(callback(Fold(callback, s, r.delivered[..n - 1]), r.delivered[n - 1]).1.value))
                     else None)
       else if n == |outcomes| then r.error == Some(StaleConnection)
       else !outcomes[n].Frame? && r.error == ClassifyReadFailure(outcomes[n])
  }

  /** The read loop of `StreamUpdates`. When `outcomes` is used up no further
      frame ever arrives, so the read deadline fires. */
  function ReadLoop<S, E>(outcomes: seq<ReadOutcome>, callback: Callback<S, E>, s: S): StreamEnd<S, E>
    decreases |outcomes|
  {
    if |outcomes| == 0 then StreamEnd([], s, Some(StaleConnection))
    else match outcomes[0]
      case Frame(u) =>
        var (s', err) := callback(s, u);
        if err.Some? then StreamEnd([u], s', Some(CallbackError(err.value)))
        else if IsTerminal(u.status) then StreamEnd([u], s', None)
        else
          var rest := ReadLoop(outcomes[1..], callback, s');
          StreamEnd([u] + rest.delivered, rest.state, rest.error)
      case _ => StreamEnd([], s, ClassifyReadFailure(outcomes[0]))
  }

  /** The read loop keeps the promise of `ReadLoopEnds` on every input. */
  lemma {:induction false} ReadLoopMeetsSpec<S, E>(outcomes: seq<ReadOutcome>, callback: Callback<S, E>, s: S)
    ensures ReadLoopEnds(outcomes, callback, s, ReadLoop(outcomes, callback, s))
    decreases |outcomes|
  {
    if |outcomes| > 0 && outcomes[0].Frame? {
      var u := outcomes[0].update;
      var (s', err) := callback(s, u);
      if err.Some? {
        assert [u][..0] == [];
      } else if IsTerminal(u.status) {
        assert [u][..0] == [];
      } else {
        var rest := ReadLoop(outcomes[1..], callback, s');
        ReadLoopMeetsSpec(outcomes[1..], callback, s');
        ShiftRun(callback, s, u, rest.delivered);
        var r := ReadLoop(outcomes, callback, s);
        assert r == StreamEnd([u] + rest.delivered, rest.state, rest.error);
        var n := |r.delivered|;
        if n > 1 {
          assert r.delivered[n - 1] == rest.delivered[n - 2];
          assert r.delivered[..n - 1] == [u] + rest.delivered[..n - 2];
        }
      }
    }
  }

  /** Prepending an update the callback accepts shifts every fold and every
      stop test by one position. */
  lemma ShiftRun<S, E>(callback: Callback<S, E>, s: S, u: Update, us: seq<Update>)
    requires callback(s, u).1.None?
    ensures Fold(callback, s, [u] + us) == Fold(callback, callback(s, u).0, us)
    ensures !StopsAt(callback, s, [u] + us, 0) <==> !IsTerminal(u.status)
    ensures forall i :: 1 <= i <= |us| ==>
      Fold(callback, s, ([u] + us)[..i]) == Fold(callback, callback(s, u).0, us[..i - 1])
    ensures forall i :: 1 <= i <= |us| ==>
      (StopsAt(callback, s, [u] + us, i) <==> StopsAt(callback, callback(s, u).0, us, i - 1))
  {
    assert ([u] + us)[1..] == us;
    assert ([u] + us)[..0] == [];
    forall i | 1 <= i <= |us|
      ensures Fold(callback, s, ([u] + us)[..i]) == Fold(callback, callback(s, u).0, us[..i - 1])
    {
      assert ([u] + us)[..i][1..] == us[..i - 1];
    }
  }

  /** Every update as a decoded frame. */
  function Frames(us: seq<Update>): (fs: seq<ReadOutcome>)
    ensures |fs| == |us|
    ensures forall i :: 0 <= i < |us| ==> fs[i] == Frame(us[i])
  {
    seq(|us|, i requires 0 <= i < |us| => Frame(us[i]))
  }

  /** A callback that reports an error only for terminal updates. */
  ghost predicate FailsOnlyOnTerminal<S(!new), E>(callback: Callback<S, E>) {
    forall st: S, u: Update :: !IsTerminal(u.status) ==> callback(st, u).1.None?
  }

  /** Frames of non-terminal updates followed by no read at all or by a
      read that is not a frame: the loop hands every update to the
      callback and ends as that read says, or stale when there is none. */
  lemma {:induction false} ReadLoopRunsThrough<S(!new), E>(us: seq<Update>, tail: seq<ReadOutcome>, callback: Callback<S, E>, s: S)
    requires FailsOnlyOnTerminal(callback)
    requires forall i :: 0 <= i < |us| ==> !IsTerminal(us[i].status)
    requires tail == [] || !tail[0].Frame?
    ensures ReadLoop(Frames(us) + tail, callback, s).delivered == us
    ensures ReadLoop(Frames(us) + tail, callback, s).error ==
      if tail == [] then Some(StaleConnection) else ClassifyReadFailure(tail[0])
    decreases |us|
  {
    var outcomes := Frames(us) + tail;
    if |us| == 0 {
      assert outcomes == tail;
    } else {
      assert outcomes[0] == Frame(us[0]);
      assert outcomes[1..] == Frames(us[1..]) + tail;
      ReadLoopRunsThrough(us[1..], tail, callback, callback(s, us[0]).0);
      assert us == [us[0]] + us[1..];
    }
  }

  /** Frames of non-terminal updates, then a terminal one: the loop hands
      exactly these to the callback, reads nothing further, and returns the
      callback's error for the terminal update, if any. */
  lemma {:induction false} ReadLoopStopsAtTerminal<S(!new), E>(us: seq<Update>, t: Update, tail: seq<ReadOutcome>, callback: Callback<S, E>, s: S)
    requires FailsOnlyOnTerminal(callback)
    requires forall i :: 0 <= i < |us| ==> !IsTerminal(us[i].status)
    requires IsTerminal(t.status)
    ensures ReadLoop(Frames(us) + [Frame(t)] + tail, callback, s).delivered == us + [t]
    ensures ReadLoop(Frames(us) + [Frame(t)] + tail, callback, s).error ==
      var e := callback(Fold(callback, s, us), t).1;
      if e.Some? then Some(CallbackError(e.value)) else None
    decreases |us|
  {
    var outcomes := Frames(us) + [Frame(t)] + tail;
    if |us| == 0 {
      assert outcomes[0] == Frame(t);
    } else {
      var s1 := callback(s, us[0]).0;
      var rest := ReadLoop(outcomes[1..], callback, s1);
      assert outcomes[0] == Frame(us[0]);
      assert callback(s, us[0]).1.None? && !IsTerminal(us[0].status);
      assert ReadLoop(outcomes, callback, s) == StreamEnd([us[0]] + rest.delivered, rest.state, rest.error);
      assert rest.delivered == us[1..] + [t] && rest.error ==
        var e := callback(Fold(callback, s1, us[1..]), t).1;
        if e.Some? then Some(CallbackError(e.value)) else None
      by {
        assert outcomes[1..] == Frames(us[1..]) + [Frame(t)] + tail;
        ReadLoopStopsAtTerminal(us[1..], t, tail, callback, s1);
      }
      assert Fold(callback, s, us) == Fold(callback, s1, us[1..]);
      assert us + [t] == [us[0]] + (us[1..] + [t]);
    }
  }

  /** `StreamUpdates`: without a connection it fails before reading
      anything; otherwise it runs the read loop. */
  function StreamUpdates<S, E>(c: Client, outcomes: seq<ReadOutcome>, callback: Callback<S, E>, s: S): (r: StreamEnd<S, E>)
    ensures !c.connected ==> r == StreamEnd([], s, Some(NotConnected))
    ensures c.connected ==> r == ReadLoop(outcomes, callback, s)
  {
    if !c.connected then StreamEnd([], s, Some(NotConnected)) else ReadLoop(outcomes, callback, s)
  }
}
