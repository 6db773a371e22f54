/**
 The control connection of one test: a client and the server as they take turns,
 over two byte channels that deliver in order but in pieces of any size. One-byte
 states and length-prefixed documents share the channels.
 */
module ControlProtocol {
  import opened Bytes
  import opened Json
  import R = JsonRender
  import F = ControlFrame
  import opened ControlMessages
  import opened ControlResults

  // ---------- Channels ----------

  /** What a byte was written as. No reader looks at this. */
  datatype Kind = Cookie | State | Document

  datatype Wire = Wire(kind: Kind, value: byte)

  /** Bytes that can be read, and bytes that were sent after them and are still on their way. */
  datatype Channel = Channel(arrived: seq<Wire>, coming: seq<Wire>)

  function All(ch: Channel): seq<Wire> { ch.arrived + ch.coming }

  function Values(ws: seq<Wire>): (b: bytes)
    ensures |b| == |ws| && forall i :: 0 <= i < |ws| ==> b[i] == ws[i].value
  {
    seq(|ws|, i requires 0 <= i < |ws| => ws[i].value)
  }

  function Marked(kind: Kind, b: bytes): (ws: seq<Wire>)
    ensures |ws| == |b| && forall i :: 0 <= i < |b| ==> ws[i] == Wire(kind, b[i])
  {
    seq(|b|, i requires 0 <= i < |b| => Wire(kind, b[i]))
  }

  function Send(ch: Channel, ws: seq<Wire>): Channel { ch.(coming := ch.coming + ws) }

  function Take(ch: Channel, n: nat): Channel
    requires n <= |ch.arrived|
  {
    ch.(arrived := ch.arrived[n..])
  }

  function Deliver(ch: Channel, n: nat): Channel
    requires n <= |ch.coming|
  {
    Channel(ch.arrived + ch.coming[..n], ch.coming[n..])
  }

  predicate AllOf(ws: seq<Wire>, kind: Kind) {
    forall i :: 0 <= i < |ws| ==> ws[i].kind == kind
  }

  // ---------- The two sides ----------

  const TEST_START: byte := 1
  const TEST_RUNNING: byte := 2
  const TEST_END: byte := 4
  const PARAM_EXCHANGE: byte := 9
  const CREATE_STREAMS: byte := 10
  const CLIENT_TERMINATE: byte := 12
  const EXCHANGE_RESULTS: byte := 13
  const DISPLAY_RESULTS: byte := 14
  const IPERF_START: byte := 15
  const IPERF_DONE: byte := 16

  const COOKIE_SIZE: nat := 37

  /** Where the client is: in its loop, connecting streams, waiting for the results, or in an error return. */
  datatype ClientAt = ClientLoop | Creating(left: nat) | ClientResults | ClientFailed

  datatype Client = Client(settings: Settings, test: Test, state: byte, at: ClientAt)

  /** Where the server is. */
  datatype ServerAt = AwaitCookie | AwaitParameters | ServerLoop | ServerResults | ServerFailed

  datatype Server = Server(test: Test, state: byte, at: ServerAt,
                           toReceive: int, toSend: int, receiving: int, sending: int)

  /** `pending` counts stream connections that were made and not accepted. */
  datatype System = System(client: Client, server: Server, toServer: Channel, toClient: Channel,
                           pending: nat)

  /** The id that iperf_add_stream gives at a position of the list. */
  function IdAt(k: nat): nat { if k == 0 then 1 else k + 2 }

  /** iperf_add_stream: the walk to the end of the list counts from two. */
  method AddStream(streams: seq<Stream>, s: Stream) returns (r: seq<Stream>)
    ensures r == Added(streams, s)
  {
    if streams == [] {
      r := [s.(id := 1)];
    } else {
      var i, n := 2, 0;
      while n < |streams|
        invariant 0 <= n <= |streams| && i == n + 2
      {
        n := n + 1;
        i := i + 1;
      }
      r := streams + [s.(id := i)];
    }
  }

  function Added(streams: seq<Stream>, s: Stream): seq<Stream> { streams + [s.(id := IdAt(|streams|))] }

  function NewStream(sender: bool): Stream {
    Stream(0, sender, 0, 0, 0, 0, 0.0, 0, 0, 0, 0, 0.0, 0, 0, 0.0)
  }

  /** How many streams the client makes: none for a negative count. */
  function Total(s: Settings): nat {
    if s.streams < 0 then 0 else if s.bidirectional then 2 * s.streams else s.streams
  }

  /** The direction of the k-th stream that iperf_create_streams makes. */
  predicate ClientSends(s: Settings, k: nat) {
    match ClientMode(s)
    case Sender => true
    case Receiver => false
    case Bidirectional => k < s.streams
  }

  function CreateNext(left: nat): ClientAt { if left == 0 then ClientLoop else Creating(left) }

  // ---------- Steps of the client ----------

  /** A document is written as a frame; one that cannot be printed ends the client or the server. */
  function Frame(v: Value): seq<Wire>
    requires R.Printable(v)
  {
    Marked(Document, F.Write(v))
  }

  function States(b: bytes): seq<Wire> { Marked(State, b) }

  /** iperf_handle_message_client, up to the point where it has to wait */
  function ClientMessage(s: System): System
    requires s.toClient.arrived != []
  {
    var w := s.toClient.arrived[0];
    var c := s.client.(state := w.value);
    var s1 := s.(client := c, toClient := Take(s.toClient, 1));
    var failed := s1.(client := c.(at := ClientFailed));
    if w.value == PARAM_EXCHANGE then
      var doc := ParametersDoc(c.settings);
      if R.Printable(doc) then s1.(toServer := Send(s.toServer, Frame(doc))) else failed
    else if w.value == CREATE_STREAMS then s1.(client := c.(at := CreateNext(Total(c.settings))))
    else if w.value == TEST_START || w.value == TEST_RUNNING || w.value == IPERF_DONE then s1
    else if w.value == EXCHANGE_RESULTS then
      var doc := ResultsDoc(c.test);
      if R.Printable(doc) then s1.(client := c.(at := ClientResults), toServer := Send(s.toServer, Frame(doc)))
      else failed
    else if w.value == DISPLAY_RESULTS then
      s1.(client := c.(state := IPERF_DONE), toServer := Send(s.toServer, States([IPERF_DONE])))
    else failed
  }

  /** One turn of the loop in iperf_create_streams. */
  function ClientConnect(s: System): System
    requires s.client.at.Creating? && s.client.at.left > 0
  {
    var c := s.client;
    var k := |c.test.streams|;
    var streams := Added(c.test.streams, NewStream(ClientSends(c.settings, k)));
    s.(client := c.(test := c.test.(streams := streams), at := CreateNext(c.at.left - 1)), pending := s.pending + 1)
  }

  /** The end of iperf_exchange_results on the client: JSON_read and get_results. */
  function ClientGetsResults(s: System): System
    requires !F.Read(Values(s.toClient.arrived)).Waiting?
  {
    var r := F.Read(Values(s.toClient.arrived));
    var s1 := s.(toClient := Take(s.toClient, r.used));
    if r.Malformed? then s1.(client := s.client.(at := ClientFailed))
    else
      var (test, ok) := GetResults(s.client.test, r.value);
      s1.(client := s.client.(test := test, at := if ok then ClientLoop else ClientFailed))
  }

  function ClientEnd(s: System): System {
    s.(client := s.client.(state := TEST_END), toServer := Send(s.toServer, States([TEST_END])))
  }

  // ---------- Steps of the server ----------

  /** iperf_accept, up to the point where it has to wait for the parameters */
  function ServerAcceptsClient(s: System): System
    requires |s.toServer.arrived| >= COOKIE_SIZE
  {
    s.(server := s.server.(state := PARAM_EXCHANGE, at := AwaitParameters),
       toServer := Take(s.toServer, COOKIE_SIZE), toClient := Send(s.toClient, States([PARAM_EXCHANGE])))
  }

  /** The end of the accept branch: once every stream is there, the test starts. */
  function StartIfReady(s: System): System {
    if s.server.state == CREATE_STREAMS
       && s.server.receiving == s.server.toReceive && s.server.sending == s.server.toSend then
      s.(server := s.server.(state := TEST_RUNNING), toClient := Send(s.toClient, States([TEST_START, TEST_RUNNING])))
    else s
  }

  /** The rest of iperf_accept: get_parameters, then the streams are asked for. */
  function ServerGetsParameters(s: System): System
    requires !F.Read(Values(s.toServer.arrived)).Waiting?
  {
    var r := F.Read(Values(s.toServer.arrived));
    var s1 := s.(toServer := Take(s.toServer, r.used));
    if r.Malformed? then s1.(server := s.server.(at := ServerFailed))
    else
      var p := GetParameters(r.value);
      var server := s.server.(
        test := s.server.test.(mode := p.mode), state := CREATE_STREAMS, at := ServerLoop,
        toReceive := if p.mode == Sender then 0 else p.streams,
        toSend := if p.mode == Receiver then 0 else p.streams);
      StartIfReady(s1.(server := server, toClient := Send(s.toClient, States([CREATE_STREAMS]))))
  }

  /** A stream connection is accepted: first the ones to receive on, then the ones to send on. */
  function TakeStream(v: Server): Server {
    if v.receiving != v.toReceive then
      v.(receiving := v.receiving + 1, test := v.test.(streams := Added(v.test.streams, NewStream(false))))
    else if v.sending != v.toSend then
      v.(sending := v.sending + 1, test := v.test.(streams := Added(v.test.streams, NewStream(true))))
    else v
  }

  function ServerAcceptsStream(s: System): System
    requires s.pending > 0
  {
    StartIfReady(s.(pending := s.pending - 1, server := TakeStream(s.server)))
  }

  /** iperf_handle_message_server, up to the point where it has to wait */
  function ServerMessage(s: System): System
    requires s.toServer.arrived != []
  {
    var w := s.toServer.arrived[0];
    var v := s.server.(state := w.value);
    var s1 := s.(server := v, toServer := Take(s.toServer, 1));
    if w.value == TEST_START || w.value == IPERF_DONE then s1
    else if w.value == TEST_END then
      s1.(server := v.(state := EXCHANGE_RESULTS, at := ServerResults),
          toClient := Send(s.toClient, States([EXCHANGE_RESULTS])))
    else if w.value == CLIENT_TERMINATE then s1.(server := v.(state := IPERF_DONE))
    else s1.(server := v.(at := ServerFailed))
  }

  /** The end of iperf_exchange_results on the server: its results go out after the client's came in. */
  function ServerGetsResults(s: System): System
    requires !F.Read(Values(s.toServer.arrived)).Waiting?
  {
    var r := F.Read(Values(s.toServer.arrived));
    var s1 := s.(toServer := Take(s.toServer, r.used));
    var failed := s1.(server := s.server.(at := ServerFailed));
    if r.Malformed? then failed
    else
      var (test, ok) := GetResults(s.server.test, r.value);
      var doc := ResultsDoc(test);
      if !ok || !R.Printable(doc) then failed
      else
        s1.(server := s.server.(test := test, state := DISPLAY_RESULTS, at := ServerLoop),
            toClient := Send(s.toClient, Frame(doc) + States([DISPLAY_RESULTS])))
  }

  // ---------- Runs ----------

  /** A side of a test goes on measuring: its counters change in any way within their ranges. */
  predicate Remeasured(t: Test, t': Test) {
    && ValidTest(t') && t'.mode == t.mode && |t'.streams| == |t.streams|
    && forall i :: 0 <= i < |t.streams| ==>
         t'.streams[i].id == t.streams[i].id && t'.streams[i].sender == t.streams[i].sender
  }

  datatype Step =
    | StepClientMessage | StepClientConnect | StepClientResults | StepClientEnd | StepClientMeasures(test: Test)
    | StepServerCookie | StepServerParameters | StepServerStream | StepServerMessage | StepServerResults
    | StepServerMeasures(test: Test)
    | StepToServer(n: nat) | StepToClient(n: nat)

  predicate Enabled(s: System, step: Step) {
    var c, v := s.client, s.server;
    match step
    case StepClientMessage => c.at.ClientLoop? && c.state != IPERF_DONE && s.toClient.arrived != []
    case StepClientConnect => c.at.Creating? && c.at.left > 0
    case StepClientResults => c.at.ClientResults? && !F.Read(Values(s.toClient.arrived)).Waiting?
    case StepClientEnd => c.at.ClientLoop? && c.state == TEST_RUNNING
    case StepClientMeasures(t) =>
      && c.at.ClientLoop? && Remeasured(c.test, t)
      && (c.state == TEST_RUNNING || (c.state == TEST_END && c.test.mode == Receiver))
    case StepServerCookie => v.at.AwaitCookie? && |s.toServer.arrived| >= COOKIE_SIZE
    case StepServerParameters => v.at.AwaitParameters? && !F.Read(Values(s.toServer.arrived)).Waiting?
    case StepServerStream => v.at.ServerLoop? && v.state == CREATE_STREAMS && s.pending > 0
    case StepServerMessage => v.at.ServerLoop? && v.state != IPERF_DONE && s.toServer.arrived != []
    case StepServerResults => v.at.ServerResults? && !F.Read(Values(s.toServer.arrived)).Waiting?
    case StepServerMeasures(t) => v.at.ServerLoop? && v.state == TEST_RUNNING && Remeasured(v.test, t)
    case StepToServer(n) => 0 < n <= |s.toServer.coming|
    case StepToClient(n) => 0 < n <= |s.toClient.coming|
  }

  /** What the step takes off a channel was written as what the step reads it as. */
  predicate ReadsOwn(s: System, step: Step)
    requires Enabled(s, step)
  {
    match step
    case StepClientMessage => s.toClient.arrived[0].kind == State
    case StepClientResults => AllOf(s.toClient.arrived[..F.Read(Values(s.toClient.arrived)).used], Document)
    case StepServerCookie => AllOf(s.toServer.arrived[..COOKIE_SIZE], Cookie)
    case StepServerMessage => s.toServer.arrived[0].kind == State
    case StepServerParameters => AllOf(s.toServer.arrived[..F.Read(Values(s.toServer.arrived)).used], Document)
    case StepServerResults => AllOf(s.toServer.arrived[..F.Read(Values(s.toServer.arrived)).used], Document)
    case _ => true
  }

  function After(s: System, step: Step): System
    requires Enabled(s, step)
  {
    match step
    case StepClientMessage => ClientMessage(s)
    case StepClientConnect => ClientConnect(s)
    case StepClientResults => ClientGetsResults(s)
    case StepClientEnd => ClientEnd(s)
    case StepClientMeasures(t) => s.(client := s.client.(test := t))
    case StepServerCookie => ServerAcceptsClient(s)
    case StepServerParameters => ServerGetsParameters(s)
    case StepServerStream => ServerAcceptsStream(s)
    case StepServerMessage => ServerMessage(s)
    case StepServerResults => ServerGetsResults(s)
    case StepServerMeasures(t) => s.(server := s.server.(test := t))
    case StepToServer(n) => s.(toServer := Deliver(s.toServer, n))
    case StepToClient(n) => s.(toClient := Deliver(s.toClient, n))
  }

  /** A client that has just connected and sent its cookie, and a server that has just accepted it. */
  predicate Initial(s: System) {
    && ValidSettings(s.client.settings)
    && s.client.test.mode == ClientMode(s.client.settings)
    && ValidTest(s.client.test) && s.client.test.streams == [] && s.client.state == 0 && s.client.at.ClientLoop?
    && ValidTest(s.server.test) && s.server.test.streams == [] && s.server.state == IPERF_START
    && s.server.at.AwaitCookie? && s.server.receiving == 0 && s.server.sending == 0
    && s.toClient == Channel([], [])
    && s.toServer.arrived == [] && |s.toServer.coming| == COOKIE_SIZE && AllOf(s.toServer.coming, Cookie)
    && s.pending == 0
  }

  /** `s` is reached from `start` by these steps. */
  predicate Run(start: System, steps: seq<Step>, s: System)
    decreases |steps|
  {
    if steps == [] then s == start
    else
      Enabled(start, steps[0]) && Run(After(start, steps[0]), steps[1..], s)
  }
}
