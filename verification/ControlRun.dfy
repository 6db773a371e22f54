/** What holds in every state of every run of the control connection. */
module ControlRun {
  import opened Bytes
  import opened Json
  import R = JsonRender
  import F = ControlFrame
  import opened ControlMessages
  import opened ControlResults
  import opened ControlProtocol

  // ---------- Phases ----------

  /** How far the client has come, from connected (0) to done (9); -1 outside the protocol. */
  function ClientStage(c: Client): int {
    match c.at
    case Creating(_) => if c.state == CREATE_STREAMS then 2 else -1
    case ClientResults => if c.state == EXCHANGE_RESULTS then 7 else -1
    case ClientFailed => -1
    case ClientLoop =>
      if c.state == 0 then 0
      else if c.state == PARAM_EXCHANGE then 1
      else if c.state == CREATE_STREAMS then 3
      else if c.state == TEST_START then 4
      else if c.state == TEST_RUNNING then 5
      else if c.state == TEST_END then 6
      else if c.state == EXCHANGE_RESULTS then 8
      else if c.state == IPERF_DONE then 9
      else -1
  }

  /** How far the server has come, from accepted (0) to done (6). */
  function ServerStage(v: Server): int {
    match v.at
    case AwaitCookie => if v.state == IPERF_START then 0 else -1
    case AwaitParameters => if v.state == PARAM_EXCHANGE then 1 else -1
    case ServerResults => if v.state == EXCHANGE_RESULTS then 4 else -1
    case ServerFailed => -1
    case ServerLoop =>
      if v.state == CREATE_STREAMS then 2
      else if v.state == TEST_RUNNING then 3
      else if v.state == DISPLAY_RESULTS then 5
      else if v.state == IPERF_DONE then 6
      else -1
  }

  /** The stages that the two sides can be in at the same time. */
  predicate Together(cs: int, ss: int) {
    || (cs == 0 && 0 <= ss <= 1) || (cs == 1 && 1 <= ss <= 3) || (cs == 2 && ss == 2) || (cs == 3 && 2 <= ss <= 3)
    || (4 <= cs <= 5 && ss == 3) || (cs == 6 && 3 <= ss <= 4) || (cs == 7 && 4 <= ss <= 5) || (cs == 8 && ss == 5)
    || (cs == 9 && 5 <= ss <= 6)
  }

  /** What is on its way to the client. */
  function TowardsClient(cs: int, ss: int, results: seq<Wire>): seq<Wire> {
    if cs == 0 && ss == 1 then States([PARAM_EXCHANGE])
    else if cs == 1 && ss == 2 then States([CREATE_STREAMS])
    else if cs == 1 && ss == 3 then States([CREATE_STREAMS, TEST_START, TEST_RUNNING])
    else if cs == 3 && ss == 3 then States([TEST_START, TEST_RUNNING])
    else if cs == 4 then States([TEST_RUNNING])
    else if cs == 6 && ss == 4 then States([EXCHANGE_RESULTS])
    else if cs == 7 && ss == 5 then results + States([DISPLAY_RESULTS])
    else if cs == 8 then States([DISPLAY_RESULTS])
    else []
  }

  /** What is on its way to the server, after the cookie. */
  function TowardsServer(cs: int, ss: int, parameters: seq<Wire>, results: seq<Wire>): seq<Wire> {
    if cs == 1 && ss == 1 then parameters
    else if cs == 6 && ss == 3 then States([TEST_END])
    else if cs == 7 && ss == 4 then results
    else if cs == 9 && ss == 5 then States([IPERF_DONE])
    else []
  }

  function FrameOf(t: Test): seq<Wire>
    requires ValidTest(t)
  {
    ResultsPrintable(t);
    Frame(ResultsDoc(t))
  }

  predicate Channels(s: System)
    requires ValidSettings(s.client.settings) && ValidTest(s.client.test) && ValidTest(s.server.test)
  {
    var cs, ss := ClientStage(s.client), ServerStage(s.server);
    && All(s.toClient) == TowardsClient(cs, ss, FrameOf(s.server.test))
    && if ss == 0 then |All(s.toServer)| == COOKIE_SIZE && AllOf(All(s.toServer), Cookie)
       else All(s.toServer) ==
            TowardsServer(cs, ss, Frame(ParametersDoc(s.client.settings)), FrameOf(s.client.test))
  }

  // ---------- Streams ----------

  /** The k-th stream of each side has the k-th id, and sends on the client exactly when it receives on the server. */
  predicate ClientStreams(st: Settings, streams: seq<Stream>) {
    forall i :: 0 <= i < |streams| ==> streams[i].id == IdAt(i) && streams[i].sender == ClientSends(st, i)
  }

  predicate ServerStreams(st: Settings, streams: seq<Stream>) {
    forall i :: 0 <= i < |streams| ==> streams[i].id == IdAt(i) && streams[i].sender == !ClientSends(st, i)
  }

  predicate Streams(s: System) {
    var c, v, st := s.client, s.server, s.client.settings;
    var cs, ss := ClientStage(c), ServerStage(v);
    var made, accepted := |c.test.streams|, |v.test.streams|;
    && ClientStreams(st, c.test.streams) && ServerStreams(st, v.test.streams)
    && c.test.mode == ClientMode(st)
    && accepted <= made <= Total(st) && s.pending == made - accepted
    && (cs < 2 ==> made == 0) && (cs > 2 ==> made == Total(st))
    && (c.at.Creating? ==> c.at.left == Total(st) - made && c.at.left > 0)
    && (ss < 2 ==> v.receiving == 0 && v.sending == 0)
    && (ss >= 2 ==> v.test.mode == Opposite(ClientMode(st)) && Counted(st, v))
    && (ss == 2 ==> accepted < Total(st) || st.streams < 0) && (ss > 2 ==> accepted == Total(st) && st.streams >= 0)
  }

  /** How many streams of each direction the server expects and has. */
  predicate Counted(st: Settings, v: Server) {
    && v.toReceive == (if ClientMode(st) == Receiver then 0 else Heard(st))
    && v.toSend == (if ClientMode(st) == Sender then 0 else Heard(st))
    && v.receiving == (if |v.test.streams| < v.toReceive then |v.test.streams| else if v.toReceive < 0 then 0 else v.toReceive)
    && v.sending == |v.test.streams| - v.receiving
  }

  /** What the sides know of each other's results. */
  predicate Knowledge(s: System) {
    && (ServerStage(s.server) >= 5 ==> AllKnow(s.server.test, s.client.test))
    && (ClientStage(s.client) >= 8 ==> AllKnow(s.client.test, s.server.test))
  }

  /** The invariant of the protocol. */
  predicate Inv(s: System) {
    && ValidSettings(s.client.settings) && ValidTest(s.client.test) && ValidTest(s.server.test)
    && Together(ClientStage(s.client), ServerStage(s.server))
    && Channels(s) && Streams(s) && Knowledge(s)
  }

  lemma {:induction false} InitialHolds(s: System)
    requires Initial(s)
    ensures Inv(s)
  {
    hide ValidTest, ValidSettings;
    assert All(s.toServer) == s.toServer.coming;
  }

  // ---------- Reading from a channel ----------

  /** A reader of one byte takes the first byte of what is on the way. */
  lemma {:induction false} FirstByte(ch: Channel, ws: seq<Wire>)
    requires ch.arrived != [] && All(ch) == ws
    ensures ws != [] && ch.arrived[0] == ws[0] && All(Take(ch, 1)) == ws[1..]
  {
    assert All(Take(ch, 1)) == All(ch)[1..];
  }

  lemma {:induction false} SendAll(ch: Channel, ws: seq<Wire>)
    ensures All(Send(ch, ws)) == All(ch) + ws
  {
  }

  lemma {:induction false} DeliverAll(ch: Channel, n: nat)
    requires n <= |ch.coming|
    ensures All(Deliver(ch, n)) == All(ch)
  {
  }

  /** A reader of a document takes exactly the frame that is on the way, once all of it has arrived. */
  lemma {:induction false} FrameFirst(ch: Channel, v: Value, rest: seq<Wire>)
    requires F.Fits(v) && All(ch) == Frame(v) + rest
    ensures var r := F.Read(Values(ch.arrived));
            && r == (if |ch.arrived| < |Frame(v)| then F.Waiting else F.Got(R.ReadBack(v), |Frame(v)|))
            && (!r.Waiting? ==> AllOf(ch.arrived[..r.used], Document) && All(Take(ch, r.used)) == rest)
  {
    hide F.Write, F.Read, R.ReadBack, F.Fits, R.Printable;
    var n := |ch.arrived|;
    assert F.Fits(v) ==> R.Printable(v) by {
      FitsPrintable(v);
    }
    var stream := F.Write(v) + Values(rest);
    assert Values(All(ch)) == stream;
    assert Values(ch.arrived) == Values(All(ch))[..n];
    F.FrameArrives(v, Values(rest), n);
    if n >= |Frame(v)| {
      var k := |Frame(v)|;
      assert ch.arrived[..k] == All(ch)[..k] == Frame(v);
      assert All(Take(ch, k)) == All(ch)[k..] == rest;
    }
  }

  lemma {:induction false} FitsPrintable(v: Value)
    requires F.Fits(v)
    ensures R.Printable(v)
  {
  }

  // ---------- Every step keeps the invariant ----------

  lemma {:induction false} StatesSplit()
    ensures States([CREATE_STREAMS, TEST_START, TEST_RUNNING])[1..] == States([TEST_START, TEST_RUNNING])
    ensures States([TEST_START, TEST_RUNNING])[1..] == States([TEST_RUNNING])
    ensures forall a: byte :: States([a])[1..] == []
    ensures States([CREATE_STREAMS]) + States([TEST_START, TEST_RUNNING]) ==
            States([CREATE_STREAMS, TEST_START, TEST_RUNNING])
  {
  }

  lemma {:induction false} ClientMessageHolds(s: System)
    requires Inv(s) && Enabled(s, StepClientMessage)
    ensures Inv(After(s, StepClientMessage))
  {
    hide ValidTest, ValidSettings, R.Printable, ParametersDoc, ResultsDoc, F.Write, AllKnow, Frame, ClientStreams,
         ServerStreams, Counted, Send, All;
    var cs, ss := ClientStage(s.client), ServerStage(s.server);
    FirstByte(s.toClient, TowardsClient(cs, ss, FrameOf(s.server.test)));
    StatesSplit();
    ParametersPrintable(s.client.settings);
    ResultsPrintable(s.client.test);
    var s' := ClientMessage(s);
    if cs == 0 {
      SendAll(s.toServer, Frame(ParametersDoc(s.client.settings)));
    } else if cs == 6 {
      SendAll(s.toServer, FrameOf(s.client.test));
    } else if cs == 8 {
      SendAll(s.toServer, States([IPERF_DONE]));
    }
  }

  lemma {:induction false} ParametersPrintable(st: Settings)
    requires ValidSettings(st)
    ensures R.Printable(ParametersDoc(st)) && F.Fits(ParametersDoc(st)) && st.streams <= MAX_STREAMS
  {
  }

  lemma {:induction false} ClientConnectHolds(s: System)
    requires Inv(s) && Enabled(s, StepClientConnect)
    ensures Inv(After(s, StepClientConnect))
  {
    hide ValidSettings, R.Printable, ParametersDoc, ResultsDoc, F.Write, AllKnow, Frame, ValidTest,
         ServerStreams, Counted, All;
    ParametersPrintable(s.client.settings);
    StreamAdded(s.client.test, ClientSends(s.client.settings, |s.client.test.streams|));
  }

  /** A new stream has the next id and its counters in range. */
  lemma {:induction false} StreamAdded(t: Test, sender: bool)
    requires ValidTest(t) && |t.streams| < 2 * MAX_STREAMS
    ensures ValidTest(t.(streams := Added(t.streams, NewStream(sender))))
  {
    hide ValidExtras;
  }

  lemma {:induction false} ClientEndHolds(s: System)
    requires Inv(s) && Enabled(s, StepClientEnd)
    ensures Inv(After(s, StepClientEnd))
  {
    hide ValidTest, ValidSettings, R.Printable, ParametersDoc, ResultsDoc, F.Write, AllKnow, Frame, ClientStreams,
         ServerStreams, Counted, Send, All;
    SendAll(s.toServer, States([TEST_END]));
  }

  lemma {:induction false} MeasuresHold(s: System, step: Step)
    requires Inv(s) && Enabled(s, step) && (step.StepClientMeasures? || step.StepServerMeasures?)
    ensures Inv(After(s, step))
  {
    hide ValidTest, ValidSettings, R.Printable, ParametersDoc, ResultsDoc, F.Write, AllKnow, Frame, All;
  }

  lemma {:induction false} DeliveryHolds(s: System, step: Step)
    requires Inv(s) && Enabled(s, step) && (step.StepToServer? || step.StepToClient?)
    ensures Inv(After(s, step))
  {
    hide ValidTest, ValidSettings, R.Printable, ParametersDoc, ResultsDoc, F.Write, AllKnow, Frame, ClientStreams,
         ServerStreams, Counted, Deliver, All;
    if step.StepToServer? {
      DeliverAll(s.toServer, step.n);
    } else {
      DeliverAll(s.toClient, step.n);
    }
  }

  lemma {:induction false} ServerCookieHolds(s: System)
    requires Inv(s) && Enabled(s, StepServerCookie)
    ensures Inv(After(s, StepServerCookie))
  {
    hide ValidTest, ValidSettings, R.Printable, ParametersDoc, ResultsDoc, F.Write, AllKnow, Frame, ClientStreams,
         ServerStreams, Counted, Send;
    SendAll(s.toClient, States([PARAM_EXCHANGE]));
    assert All(Take(s.toServer, COOKIE_SIZE)) == [];
    assert s.toServer.arrived[..COOKIE_SIZE] == All(s.toServer);
  }

  /** The accepted stream faces the client's, and the counts are complete with the last one. */
  lemma {:induction false} StreamTaken(st: Settings, v: Server)
    requires Counted(st, v) && ServerStreams(st, v.test.streams) && |v.test.streams| < Total(st) <= 2 * MAX_STREAMS
    requires ValidTest(v.test)
    ensures var v' := TakeStream(v);
            && v'.state == v.state && v'.at == v.at && v'.test.mode == v.test.mode && ValidTest(v'.test)
            && |v'.test.streams| == |v.test.streams| + 1
            && Counted(st, v') && Counted(st, v'.(state := TEST_RUNNING)) && ServerStreams(st, v'.test.streams)
            && (v'.receiving == v'.toReceive && v'.sending == v'.toSend <==> |v'.test.streams| == Total(st))
  {
    hide ValidTest;
    StreamAdded(v.test, !ClientSends(st, |v.test.streams|));
  }

  lemma {:induction false} ServerStreamHolds(s: System)
    requires Inv(s) && Enabled(s, StepServerStream)
    ensures Inv(After(s, StepServerStream))
  {
    hide ValidTest, ValidSettings, R.Printable, ParametersDoc, ResultsDoc, F.Write, AllKnow, Frame, ClientStreams,
         ServerStreams, Counted, TakeStream, All, Send;
    ParametersPrintable(s.client.settings);
    StreamTaken(s.client.settings, s.server);
    SendAll(s.toClient, States([TEST_START, TEST_RUNNING]));
  }

  lemma {:induction false} ServerMessageHolds(s: System)
    requires Inv(s) && Enabled(s, StepServerMessage)
    ensures Inv(After(s, StepServerMessage))
  {
    hide ValidTest, ValidSettings, R.Printable, ParametersDoc, ResultsDoc, F.Write, AllKnow, Frame, ClientStreams,
         ServerStreams, Send, All;
    var cs, ss := ClientStage(s.client), ServerStage(s.server);
    ParametersPrintable(s.client.settings);
    FirstByte(s.toServer, TowardsServer(cs, ss, Frame(ParametersDoc(s.client.settings)), FrameOf(s.client.test)));
    StatesSplit();
    SendAll(s.toClient, States([EXCHANGE_RESULTS]));
  }

  lemma {:induction false} ServerParametersHolds(s: System)
    requires Inv(s) && Enabled(s, StepServerParameters)
    ensures Inv(After(s, StepServerParameters))
  {
    hide ValidTest, ValidSettings, R.Printable, ParametersDoc, ResultsDoc, F.Write, AllKnow, Frame, ClientStreams,
         ServerStreams, Send, All, F.Read, R.ReadBack, GetParameters, Values, AllOf, F.Fits;
    var cs, ss, st := ClientStage(s.client), ServerStage(s.server), s.client.settings;
    ParametersPrintable(st);
    var doc := ParametersDoc(st);
    WaitsWhenEmpty(s.toServer);
    FrameAlone(s.toServer, doc);
    ParametersArrive(st);
    ModeIsFree(s.server.test, Opposite(ClientMode(st)));
    SendAll(s.toClient, States([CREATE_STREAMS]));
    SendAll(Send(s.toClient, States([CREATE_STREAMS])), States([TEST_START, TEST_RUNNING]));
    StatesSplit();
  }

  lemma {:induction false} ModeIsFree(t: Test, mode: Mode)
    requires ValidTest(t)
    ensures ValidTest(t.(mode := mode))
  {
  }

  lemma {:induction false} WaitsWhenEmpty(ch: Channel)
    ensures All(ch) == [] ==> F.Read(Values(ch.arrived)).Waiting?
  {
  }

  /** A channel that holds one frame and nothing else. */
  lemma {:induction false} FrameAlone(ch: Channel, v: Value)
    requires F.Fits(v)
    ensures R.Printable(v)
    ensures All(ch) == Frame(v) && !F.Read(Values(ch.arrived)).Waiting? ==>
              var r := F.Read(Values(ch.arrived));
              r.Got? && r.value == R.ReadBack(v) && AllOf(ch.arrived[..r.used], Document) && All(Take(ch, r.used)) == []
  {
    hide F.Fits, F.Read, Frame, R.ReadBack;
    FitsPrintable(v);
    if All(ch) == Frame(v) {
      assert All(ch) == Frame(v) + [];
      FrameFirst(ch, v, []);
    }
  }

  lemma {:induction false} ServerResultsHolds(s: System)
    requires Inv(s) && Enabled(s, StepServerResults)
    ensures Inv(After(s, StepServerResults))
  {
    hide ValidTest, ValidSettings, R.Printable, ParametersDoc, ResultsDoc, F.Write, AllKnow, Frame, ClientStreams,
         ServerStreams, Send, All, F.Read, R.ReadBack, GetResults, Values, AllOf, F.Fits, Facing, Told;
    var mine, theirs := s.server.test, s.client.test;
    ParametersPrintable(s.client.settings);
    ResultsFit(theirs);
    WaitsWhenEmpty(s.toServer);
    FrameAlone(s.toServer, ResultsDoc(theirs));
    StreamsFace(s.client.settings, theirs.streams, mine.streams);
    ResultsArrive(mine, theirs);
    ToldIsValid(mine, theirs);
    ToldKnows(mine, theirs);
    var told := Told(mine, theirs);
    ResultsPrintable(told);
    SendAll(s.toClient, FrameOf(told) + States([DISPLAY_RESULTS]));
    assert [] + (FrameOf(told) + States([DISPLAY_RESULTS])) == FrameOf(told) + States([DISPLAY_RESULTS]);
    ToldKeepsStreams(s.client.settings, mine, theirs);
  }

  lemma {:induction false} StreamsFace(st: Settings, ours: seq<Stream>, theirs: seq<Stream>)
    requires ClientStreams(st, ours) && ServerStreams(st, theirs) && |ours| == |theirs|
    ensures Facing(ours, theirs) && Facing(theirs, ours)
  {
  }

  lemma {:induction false} ToldKeepsStreams(st: Settings, mine: Test, theirs: Test)
    requires |mine.streams| == |theirs.streams|
    ensures var told := Told(mine, theirs);
            && told.mode == mine.mode && |told.streams| == |mine.streams|
            && (ClientStreams(st, mine.streams) ==> ClientStreams(st, told.streams))
            && (ServerStreams(st, mine.streams) ==> ServerStreams(st, told.streams))
  {
    KeepsId(mine.streams, theirs.streams, theirs.hasRetransmits, |mine.streams|);
  }

  lemma {:induction false} ClientResultsHolds(s: System)
    requires Inv(s) && Enabled(s, StepClientResults)
    ensures Inv(After(s, StepClientResults))
  {
    hide ValidTest, ValidSettings, R.Printable, ParametersDoc, ResultsDoc, F.Write, AllKnow, Frame, ClientStreams,
         ServerStreams, Send, All, F.Read, R.ReadBack, GetResults, Values, AllOf, F.Fits, Facing, Told, Counted;
    var mine, theirs := s.client.test, s.server.test;
    ParametersPrintable(s.client.settings);
    ResultsFit(theirs);
    WaitsWhenEmpty(s.toClient);
    assert All(s.toClient) == FrameOf(theirs) + States([DISPLAY_RESULTS]);
    FrameFirst(s.toClient, ResultsDoc(theirs), States([DISPLAY_RESULTS]));
    StreamsFace(s.client.settings, mine.streams, theirs.streams);
    ResultsArrive(mine, theirs);
    ToldIsValid(mine, theirs);
    ClientModeFits(s.client.settings, mine);
    ToldKnows(mine, theirs);
    ToldKeepsStreams(s.client.settings, mine, theirs);
  }

  lemma {:induction false} ClientModeFits(st: Settings, t: Test)
    requires ClientStreams(st, t.streams) && t.mode == ClientMode(st)
    ensures ModeFits(t)
  {
  }

  lemma {:induction false} StepHolds(s: System, step: Step)
    requires Inv(s) && Enabled(s, step)
    ensures Inv(After(s, step))
  {
    hide Inv, Enabled, ClientMessage, ClientConnect, ClientGetsResults, ClientEnd, ServerAcceptsClient,
         ServerGetsParameters, ServerAcceptsStream, ServerMessage, ServerGetsResults, Deliver;
    match step
    case StepClientMessage => ClientMessageHolds(s);
    case StepClientConnect => ClientConnectHolds(s);
    case StepClientResults => ClientResultsHolds(s);
    case StepClientEnd => ClientEndHolds(s);
    case StepClientMeasures(_) => MeasuresHold(s, step);
    case StepServerCookie => ServerCookieHolds(s);
    case StepServerParameters => ServerParametersHolds(s);
    case StepServerStream => ServerStreamHolds(s);
    case StepServerMessage => ServerMessageHolds(s);
    case StepServerResults => ServerResultsHolds(s);
    case StepServerMeasures(_) => MeasuresHold(s, step);
    case StepToServer(_) => DeliveryHolds(s, step);
    case StepToClient(_) => DeliveryHolds(s, step);
  }

  lemma {:induction false} RunHolds(start: System, steps: seq<Step>, s: System)
    requires Inv(start) && Run(start, steps, s)
    ensures Inv(s)
    decreases |steps|
  {
    hide Inv, Enabled, After;
    if steps == [] {
    } else {
      StepHolds(start, steps[0]);
      RunHolds(After(start, steps[0]), steps[1..], s);
    }
  }

  // ---------- What this means for a run ----------

  /** In a state of the invariant, every step that can be taken reads only what was written for it. */
  lemma {:induction false} StepReadsOwn(s: System, step: Step)
    requires Inv(s) && Enabled(s, step)
    ensures ReadsOwn(s, step)
  {
    hide Inv, F.Read, Values, AllOf;
    match step
    case StepClientMessage => ClientReadsState(s);
    case StepServerMessage => ServerReadsState(s);
    case StepServerCookie => ServerReadsCookie(s);
    case StepClientResults => ClientReadsDocument(s);
    case StepServerParameters => ServerReadsParameters(s);
    case StepServerResults => ServerReadsResults(s);
    case _ =>
  }

  lemma {:induction false} ClientReadsState(s: System)
    requires Inv(s) && Enabled(s, StepClientMessage)
    ensures s.toClient.arrived[0].kind == State
  {
    hide ValidTest, ValidSettings, Streams, Knowledge, All, Frame, FrameOf;
    FirstByte(s.toClient, TowardsClient(ClientStage(s.client), ServerStage(s.server), FrameOf(s.server.test)));
  }

  lemma {:induction false} ServerReadsState(s: System)
    requires Inv(s) && Enabled(s, StepServerMessage)
    ensures s.toServer.arrived[0].kind == State
  {
    hide ValidTest, ValidSettings, Streams, Knowledge, All, Frame, FrameOf, ParametersDoc;
    ParametersPrintable(s.client.settings);
    FirstByte(s.toServer, TowardsServer(ClientStage(s.client), ServerStage(s.server),
                                        Frame(ParametersDoc(s.client.settings)), FrameOf(s.client.test)));
  }

  lemma {:induction false} ServerReadsCookie(s: System)
    requires Inv(s) && Enabled(s, StepServerCookie)
    ensures AllOf(s.toServer.arrived[..COOKIE_SIZE], Cookie)
  {
    hide ValidTest, ValidSettings, Streams, Knowledge;
    assert s.toServer.arrived[..COOKIE_SIZE] == All(s.toServer);
  }

  lemma {:induction false} ClientReadsDocument(s: System)
    requires Inv(s) && Enabled(s, StepClientResults)
    ensures AllOf(s.toClient.arrived[..F.Read(Values(s.toClient.arrived)).used], Document)
  {
    hide ValidTest, ValidSettings, R.Printable, ResultsDoc, Frame, Streams, Knowledge, All, F.Read, Values, AllOf, F.Fits,
         R.ReadBack;
    ResultsFit(s.server.test);
    WaitsWhenEmpty(s.toClient);
    FrameFirst(s.toClient, ResultsDoc(s.server.test), States([DISPLAY_RESULTS]));
  }

  lemma {:induction false} ServerReadsParameters(s: System)
    requires Inv(s) && Enabled(s, StepServerParameters)
    ensures AllOf(s.toServer.arrived[..F.Read(Values(s.toServer.arrived)).used], Document)
  {
    hide ValidTest, ValidSettings, R.Printable, ParametersDoc, ResultsDoc, Frame, Streams, Knowledge, All, F.Read, Values,
         AllOf, F.Fits, R.ReadBack;
    ParametersPrintable(s.client.settings);
    WaitsWhenEmpty(s.toServer);
    FrameAlone(s.toServer, ParametersDoc(s.client.settings));
  }

  lemma {:induction false} ServerReadsResults(s: System)
    requires Inv(s) && Enabled(s, StepServerResults)
    ensures AllOf(s.toServer.arrived[..F.Read(Values(s.toServer.arrived)).used], Document)
  {
    hide ValidTest, ValidSettings, R.Printable, ParametersDoc, ResultsDoc, Frame, Streams, Knowledge, All, F.Read, Values,
         AllOf, F.Fits, R.ReadBack;
    ResultsFit(s.client.test);
    WaitsWhenEmpty(s.toServer);
    FrameAlone(s.toServer, ResultsDoc(s.client.test));
  }

  /**
   In every state of every run, whatever step comes next reads only bytes that were
   written for it, and neither side has got an unknown message or a bad document.
   */
  lemma {:induction false} NothingIsMisread(start: System, steps: seq<Step>, s: System)
    requires Initial(start) && Run(start, steps, s)
    ensures forall step :: Enabled(s, step) ==> ReadsOwn(s, step)
    ensures !s.client.at.ClientFailed? && !s.server.at.ServerFailed?
  {
    hide Initial, Run, Channels, Streams, Knowledge, ValidTest, ValidSettings, Enabled, ReadsOwn;
    InitialHolds(start);
    RunHolds(start, steps, s);
    forall step | Enabled(s, step) ensures ReadsOwn(s, step) {
      StepReadsOwn(s, step);
    }
  }

  /** Streams at equal positions have equal ids and opposite directions. */
  lemma {:induction false} StreamsMatch(start: System, steps: seq<Step>, s: System, i: nat)
    requires Initial(start) && Run(start, steps, s)
    requires i < |s.server.test.streams|
    ensures |s.server.test.streams| <= |s.client.test.streams| <= Total(s.client.settings)
    ensures s.client.test.streams[i].id == s.server.test.streams[i].id
    ensures s.client.test.streams[i].sender != s.server.test.streams[i].sender
  {
    hide Initial, Run, Channels, Knowledge, ValidTest, ValidSettings, Counted;
    InitialHolds(start);
    RunHolds(start, steps, s);
  }

  /** When both sides are done, every stream was made, and both sides hold the same totals for it. */
  lemma {:induction false} DoneAgrees(start: System, steps: seq<Step>, s: System)
    requires Initial(start) && Run(start, steps, s)
    requires s.client.state == IPERF_DONE && s.server.state == IPERF_DONE
    ensures |s.client.test.streams| == |s.server.test.streams| == Total(s.client.settings)
    ensures AllKnow(s.client.test, s.server.test) && AllKnow(s.server.test, s.client.test)
    ensures Facing(s.client.test.streams, s.server.test.streams)
    ensures SameTotals(s.client.test, s.server.test)
  {
    hide Initial, Run, Channels, ValidTest, ValidSettings, Counted, AllKnow, ClientStreams, ServerStreams, Facing,
         SameTotals;
    InitialHolds(start);
    RunHolds(start, steps, s);
    StreamsFace(s.client.settings, s.client.test.streams, s.server.test.streams);
    KnowingIsAgreeing(s.client.test, s.server.test);
  }

  // ---------- Progress ----------

  /** What is left of the protocol: stages of both sides, and streams to make and to accept. */
  function Left(s: System): int {
    9 - ClientStage(s.client) + 6 - ServerStage(s.server)
    + 2 * Total(s.client.settings) - |s.client.test.streams| - |s.server.test.streams|
  }

  function OnTheWay(s: System): nat { |s.toServer.coming| + |s.toClient.coming| }

  predicate Measures(step: Step) { step.StepClientMeasures? || step.StepServerMeasures? }

  /** Neither a measurement nor a delivery of more than one byte. */
  predicate Direct(step: Step) {
    !Measures(step) && (step.StepToServer? || step.StepToClient? ==> step.n == 1)
  }

  lemma {:induction false} LeftIsNat(s: System)
    requires Inv(s)
    ensures Left(s) >= 0
  {
    hide Channels, Knowledge, ValidTest, ValidSettings, Counted, ClientStreams, ServerStreams;
  }

  /** Every step but measuring brings the protocol forward, or a byte closer to its reader. */
  lemma {:induction false} StepProgresses(s: System, step: Step)
    requires Inv(s) && Enabled(s, step) && !Measures(step)
    ensures var s' := After(s, step); 0 <= Left(s') <= Left(s) && (Left(s') == Left(s) ==> OnTheWay(s') < OnTheWay(s))
  {
    var s' := After(s, step);
    StepHolds(s, step);
    LeftIsNat(s');
    if step.StepToServer? || step.StepToClient? {
      hide Inv;
    } else {
      OneStageOn(s, step);
    }
  }

  lemma {:induction false} OneStageOn(s: System, step: Step)
    requires Inv(s) && Enabled(s, step) && !Measures(step) && !step.StepToServer? && !step.StepToClient?
    requires Inv(After(s, step))
    ensures Left(After(s, step)) < Left(s)
  {
    hide Knowledge, ValidTest, ValidSettings, Counted, ClientStreams, ServerStreams, R.Printable, F.Read, GetResults,
         GetParameters, ParametersDoc, ResultsDoc, Send, Take, Values, AllOf, Channels, All, Frame, ClientMessage,
         ServerMessage;
    if step.StepClientMessage? {
      ClientMessageOn(s);
    } else if step.StepServerMessage? {
      ServerMessageOn(s);
    }
  }

  lemma {:induction false} ClientMessageOn(s: System)
    requires Inv(s) && Enabled(s, StepClientMessage)
    ensures Left(After(s, StepClientMessage)) < Left(s)
  {
    hide ValidTest, ValidSettings, R.Printable, ParametersDoc, ResultsDoc, AllKnow, Frame, ClientStreams,
         ServerStreams, Counted, Send, All, Knowledge;
    FirstByte(s.toClient, TowardsClient(ClientStage(s.client), ServerStage(s.server), FrameOf(s.server.test)));
    ParametersPrintable(s.client.settings);
    ResultsPrintable(s.client.test);
  }

  lemma {:induction false} ServerMessageOn(s: System)
    requires Inv(s) && Enabled(s, StepServerMessage)
    ensures Left(After(s, StepServerMessage)) < Left(s)
  {
    hide ValidTest, ValidSettings, R.Printable, ParametersDoc, ResultsDoc, AllKnow, Frame, ClientStreams,
         ServerStreams, Counted, Send, All, Knowledge;
    ParametersPrintable(s.client.settings);
    FirstByte(s.toServer, TowardsServer(ClientStage(s.client), ServerStage(s.server),
                                        Frame(ParametersDoc(s.client.settings)), FrameOf(s.client.test)));
  }

  predicate Done(s: System) { s.client.state == IPERF_DONE && s.server.state == IPERF_DONE }

  /** The client asked for a negative number of streams and made none; the server waits for them for ever. */
  predicate Deadlocked(s: System) {
    s.client.settings.streams < 0 && ClientStage(s.client) == 3 && ServerStage(s.server) == 2
  }

  /** Otherwise some step other than measuring can be taken. */
  lemma {:induction false} NeverStuck(s: System) returns (step: Step)
    requires Inv(s) && !Done(s) && !Deadlocked(s)
    ensures Enabled(s, step) && Direct(step)
  {
    hide Inv, F.Read, Values, Remeasured, ClientStage, ServerStage;
    var cs, ss := ClientStage(s.client), ServerStage(s.server);
    if s.toServer.coming != [] {
      step := StepToServer(1);
    } else if s.toClient.coming != [] {
      step := StepToClient(1);
    } else if cs == 2 || (cs == 3 && ss == 2) || cs == 5 {
      hide Enabled;
      step := NeedsNoMessage(s);
    } else if (cs == 1 && ss == 1) || cs == 7 {
      hide Enabled;
      step := DocumentIsThere(s);
    } else {
      hide Enabled;
      step := MessageIsThere(s);
    }
  }

  lemma {:induction false} NeedsNoMessage(s: System) returns (step: Step)
    requires Inv(s) && !Deadlocked(s)
    requires var cs, ss := ClientStage(s.client), ServerStage(s.server); cs == 2 || (cs == 3 && ss == 2) || cs == 5
    ensures Enabled(s, step) && Direct(step)
  {
    hide Knowledge, ValidTest, ValidSettings, Counted, ClientStreams, ServerStreams, Channels, Remeasured, F.Read, Values;
    var cs := ClientStage(s.client);
    step := if cs == 2 then StepClientConnect else if cs == 3 then StepServerStream else StepClientEnd;
  }

  lemma {:induction false} DocumentIsThere(s: System) returns (step: Step)
    requires Inv(s) && s.toServer.coming == [] && s.toClient.coming == []
    requires (ClientStage(s.client) == 1 && ServerStage(s.server) == 1) || ClientStage(s.client) == 7
    ensures Enabled(s, step) && Direct(step)
  {
    hide Knowledge, ValidTest, ValidSettings, Streams, R.Printable, F.Read, F.Fits, ParametersDoc, ResultsDoc, Values,
         Frame, Channels, Remeasured, All;
    var cs, ss := ClientStage(s.client), ServerStage(s.server);
    NothingComing(s);
    if cs == 1 {
      step := StepServerParameters;
      ParametersPrintable(s.client.settings);
      FrameIsThere(s.toServer, ParametersDoc(s.client.settings), []);
    } else if ss == 4 {
      step := StepServerResults;
      ResultsFit(s.client.test);
      FrameIsThere(s.toServer, ResultsDoc(s.client.test), []);
    } else {
      step := StepClientResults;
      ResultsFit(s.server.test);
      FrameIsThere(s.toClient, ResultsDoc(s.server.test), States([DISPLAY_RESULTS]));
    }
  }

  lemma {:induction false} MessageIsThere(s: System) returns (step: Step)
    requires Inv(s) && !Done(s) && s.toServer.coming == [] && s.toClient.coming == []
    requires var cs, ss := ClientStage(s.client), ServerStage(s.server);
             !(cs == 1 && ss == 1) && !(cs == 3 && ss == 2) && cs != 2 && cs != 5 && cs != 7
    ensures Enabled(s, step) && Direct(step)
  {
    hide Knowledge, ValidTest, ValidSettings, Streams, R.Printable, F.Read, ParametersDoc, ResultsDoc, Values, Frame,
         Channels, Remeasured, All;
    var cs, ss := ClientStage(s.client), ServerStage(s.server);
    NothingComing(s);
    if cs == 0 && ss == 0 {
      step := StepServerCookie;
    } else if (cs == 6 && ss == 3) || (cs == 9 && ss == 5) {
      step := StepServerMessage;
    } else {
      step := StepClientMessage;
    }
  }

  /** With nothing on its way, all that was sent has arrived. */
  lemma {:induction false} NothingComing(s: System)
    requires Inv(s) && s.toServer.coming == [] && s.toClient.coming == []
    ensures R.Printable(ParametersDoc(s.client.settings))
    ensures var cs, ss := ClientStage(s.client), ServerStage(s.server);
            && s.toClient.arrived == All(s.toClient) == TowardsClient(cs, ss, FrameOf(s.server.test))
            && s.toServer.arrived == All(s.toServer)
            && if ss == 0 then |s.toServer.arrived| == COOKIE_SIZE
               else s.toServer.arrived ==
                    TowardsServer(cs, ss, Frame(ParametersDoc(s.client.settings)), FrameOf(s.client.test))
  {
    hide Knowledge, ValidTest, ValidSettings, Streams, R.Printable, ParametersDoc, ResultsDoc, Frame, Together,
         TowardsClient, TowardsServer;
    ParametersPrintable(s.client.settings);
    assert s.toClient.arrived + [] == s.toClient.arrived && s.toServer.arrived + [] == s.toServer.arrived;
  }

  lemma {:induction false} FrameIsThere(ch: Channel, v: Value, rest: seq<Wire>)
    requires F.Fits(v) && ch.coming == []
    ensures R.Printable(v) && (All(ch) == Frame(v) + rest ==> !F.Read(Values(ch.arrived)).Waiting?)
  {
    hide F.Fits, F.Read, R.ReadBack, Frame;
    FitsPrintable(v);
    if All(ch) == Frame(v) + rest {
      FrameFirst(ch, v, rest);
    }
  }

  /** No step at all can be taken exactly when both sides are done or the streams will never come. */
  lemma {:induction false} StuckIff(s: System)
    requires Inv(s)
    ensures (forall step :: !Enabled(s, step)) <==> Done(s) || Deadlocked(s)
  {
    hide Inv, Enabled;
    if Done(s) || Deadlocked(s) {
      forall step ensures !Enabled(s, step) {
        NoStepIsLeft(s, step);
      }
    } else {
      var step := NeverStuck(s);
    }
  }

  lemma {:induction false} NoStepIsLeft(s: System, step: Step)
    requires Inv(s) && (Done(s) || Deadlocked(s))
    ensures !Enabled(s, step)
  {
    hide Knowledge, ValidTest, ValidSettings, Counted, ClientStreams, ServerStreams, R.Printable, ParametersDoc,
         ResultsDoc, Frame, Remeasured, F.Read;
    assert All(s.toClient) == [] && All(s.toServer) == [];
    WaitsWhenEmpty(s.toClient);
    WaitsWhenEmpty(s.toServer);
  }

  /**
   Every run can be brought to its end: both sides done for every stream count from
   zero on, both sides waiting for each other for every negative one.
   */
  lemma {:induction false} CanFinish(s: System) returns (steps: seq<Step>, end: System)
    requires Inv(s)
    ensures Run(s, steps, end) && Inv(end) && if s.client.settings.streams >= 0 then Done(end) else Deadlocked(end)
    decreases Left(s), OnTheWay(s)
  {
    hide Inv, Enabled, After;
    if Done(s) || Deadlocked(s) {
      steps, end := [], s;
      OneEnd(s);
    } else {
      var step := NeverStuck(s);
      LeftIsNat(s);
      StepProgresses(s, step);
      StepHolds(s, step);
      StepKeepsSettings(s, step);
      var more;
      more, end := CanFinish(After(s, step));
      steps := [step] + more;
      assert steps[1..] == more;
    }
  }

  lemma {:induction false} OneEnd(s: System)
    requires Inv(s)
    ensures Done(s) ==> s.client.settings.streams >= 0
  {
    hide Knowledge, ValidTest, ValidSettings, Counted, ClientStreams, ServerStreams, Channels;
  }

  lemma {:induction false} StepKeepsSettings(s: System, step: Step)
    requires Enabled(s, step)
    ensures After(s, step).client.settings == s.client.settings
  {
    hide ParametersDoc, ResultsDoc, R.Printable, F.Read, GetResults, GetParameters, Values, Send, Take, Deliver, AllOf,
         Remeasured, Frame;
  }

  lemma {:induction false} RunKeepsSettings(start: System, steps: seq<Step>, s: System)
    requires Run(start, steps, s)
    ensures s.client.settings == start.client.settings
    decreases |steps|
  {
    hide Enabled, After;
    if steps == [] {
    } else {
      StepKeepsSettings(start, steps[0]);
      RunKeepsSettings(After(start, steps[0]), steps[1..], s);
    }
  }

  /** A test can come to its end on both sides if and only if its stream count is not negative. */
  lemma {:induction false} FinishesIff(start: System)
    requires Initial(start)
    ensures (exists steps, end :: Run(start, steps, end) && Done(end)) <==> start.client.settings.streams >= 0
  {
    hide Initial, Run, Inv, Done, Deadlocked;
    InitialHolds(start);
    if start.client.settings.streams >= 0 {
      var steps, end := CanFinish(start);
    }
    forall steps, end | Run(start, steps, end) && Done(end) ensures start.client.settings.streams >= 0 {
      RunHolds(start, steps, end);
      OneEnd(end);
      RunKeepsSettings(start, steps, end);
    }
  }

  /** "-P -1": whatever the two sides do, they can only come to wait for each other. */
  lemma {:induction false} MinusOneNeverFinishes(start: System, steps: seq<Step>, s: System)
    requires Initial(start) && start.client.settings.streams == -1 && Run(start, steps, s)
    ensures !Done(s) && exists more, end :: Run(s, more, end) && Deadlocked(end) && forall step :: !Enabled(end, step)
  {
    hide Initial, Run, Inv, Done, Deadlocked, Enabled;
    InitialHolds(start);
    RunHolds(start, steps, s);
    RunKeepsSettings(start, steps, s);
    OneEnd(s);
    var more, end := CanFinish(s);
    StuckIff(end);
  }
}
