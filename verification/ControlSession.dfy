/**
 One test between an iperf3 client and the server, as the two objects run it under
 any schedule of their turns and of the deliveries between their sockets. What
 ControlRun proves of the protocol is carried over to the objects.
 */
module ControlSession {
  import opened Bytes
  import R = JsonRender
  import F = ControlFrame
  import opened ControlMessages
  import opened ControlResults
  import opened ControlProtocol
  import opened ControlRun
  import opened ControlObjects

  /** Every stream has the same id on both sides, opposite directions, and the same totals. */
  predicate Agree(mine: Test, theirs: Test) {
    && SameTotals(mine, theirs)
    && forall i :: 0 <= i < |mine.streams| ==>
         mine.streams[i].id == theirs.streams[i].id && mine.streams[i].sender != theirs.streams[i].sender
  }

  lemma {:induction false} DoneIsAgreed(s: System)
    requires Inv(s) && Done(s)
    ensures Agree(s.client.test, s.server.test)
    ensures |s.client.test.streams| == Total(s.client.settings)
  {
    hide Channels, ValidTest, ValidSettings, Counted, AllKnow, ClientStreams, ServerStreams;
    StreamsFace(s.client.settings, s.client.test.streams, s.server.test.streams);
    KnowingIsAgreeing(s.client.test, s.server.test);
  }

  lemma {:induction false} NoneFailed(s: System)
    requires Inv(s)
    ensures !s.client.at.ClientFailed? && !s.server.at.ServerFailed?
  {
    hide Channels, ValidTest, ValidSettings, Streams, Knowledge;
  }

  /** The state that a schedule leads to, when steps that cannot be taken are passed over. */
  function Played(s: System, schedule: seq<Step>): System {
    if schedule == [] then s
    else
      var before, step := Played(s, schedule[..|schedule| - 1]), schedule[|schedule| - 1];
      if Enabled(before, step) then After(before, step) else before
  }

  class Session {
    const client: IperfClient
    const server: IperfServer
    ghost var system: System

    constructor (settings: Settings, mine: Test, theirs: Test, cookie: bytes)
      requires ValidSettings(settings) && |cookie| == COOKIE_SIZE
      requires ValidTest(mine) && mine.mode == ClientMode(settings) && mine.streams == []
      requires ValidTest(theirs) && theirs.streams == []
      ensures Valid() && Initial(system) && fresh(client) && fresh(server) && client.settings == settings
    {
      hide ValidSettings, ValidTest;
      client := new IperfClient(settings, mine, cookie);
      server := new IperfServer(theirs);
      system := System(Client(settings, mine, 0, ClientLoop), Server(theirs, IPERF_START, AwaitCookie, 0, 0, 0, 0),
                       Channel([], Marked(Cookie, cookie)), Channel([], []), 0);
      new;
      InitialHolds(system);
      ValuesOfMarked(Cookie, cookie);
    }

    ghost predicate Stand(s: System)
      reads this, client, server
    {
      client.Stands(s) && server.Stands(s)
    }

    ghost predicate Valid()
      reads this, client, server
    {
      Stand(system) && Inv(system)
    }

    /** Whether a step can be taken now, from what the two objects hold. */
    predicate Possible(step: Step)
      reads client, server
    {
      match step
      case StepClientMessage => client.at.ClientLoop? && client.state != IPERF_DONE && client.input != []
      case StepClientConnect => client.at.Creating? && client.at.left > 0
      case StepClientResults => client.at.ClientResults? && !F.Read(client.input).Waiting?
      case StepClientEnd => client.at.ClientLoop? && client.state == TEST_RUNNING
      case StepClientMeasures(t) =>
        && client.at.ClientLoop? && Remeasured(client.test, t)
        && (client.state == TEST_RUNNING || (client.state == TEST_END && client.test.mode == Receiver))
      case StepServerCookie => server.at.AwaitCookie? && |server.input| >= COOKIE_SIZE
      case StepServerParameters => server.at.AwaitParameters? && !F.Read(server.input).Waiting?
      case StepServerStream => server.at.ServerLoop? && server.state == CREATE_STREAMS && server.pending > 0
      case StepServerMessage => server.at.ServerLoop? && server.state != IPERF_DONE && server.input != []
      case StepServerResults => server.at.ServerResults? && !F.Read(server.input).Waiting?
      case StepServerMeasures(t) => server.at.ServerLoop? && server.state == TEST_RUNNING && Remeasured(server.test, t)
      case StepToServer(n) => 0 < n <= |client.output|
      case StepToClient(n) => 0 < n <= |server.output|
    }

    lemma {:induction false} PossibleIsEnabled(s: System, step: Step)
      requires Stand(s)
      ensures Possible(step) <==> Enabled(s, step)
    {
      hide F.Read, Remeasured;
    }

    /** A turn of the client. */
    method ClientTurn(step: Step)
      requires Stand(system) && Enabled(system, step)
      requires step.StepClientMessage? || step.StepClientConnect? || step.StepClientResults? || step.StepClientEnd?
      modifies client, server`pending
      ensures Stand(After(system, step))
    {
      hide F.Read, F.Write, GetResults, ParametersDoc, ResultsDoc, R.Printable, Values, Marked;
      match step
      case StepClientMessage => client.HandleMessage(system);
      case StepClientConnect =>
        client.CreateStream(system);
        server.pending := server.pending + 1;
      case StepClientResults => client.ReceiveResults(system);
      case StepClientEnd => client.EndTest(system);
    }

    /** A turn of the server. */
    method ServerTurn(step: Step)
      requires Stand(system) && Enabled(system, step) && Inv(After(system, step))
      requires step.StepServerCookie? || step.StepServerParameters? || step.StepServerStream? ||
               step.StepServerMessage? || step.StepServerResults?
      modifies server
      ensures Stand(After(system, step))
    {
      hide F.Read, F.Write, GetResults, GetParameters, ParametersDoc, ResultsDoc, R.Printable, Values, Marked, Inv;
      NoneFailed(After(system, step));
      match step
      case StepServerCookie => server.AcceptClient(system);
      case StepServerParameters => server.GetParameters(system);
      case StepServerStream => server.AcceptOne(system);
      case StepServerMessage => server.HandleMessage(system);
      case StepServerResults => server.ExchangeResults(system);
    }

    /** The network moves some bytes from one socket to the other. */
    method Transport(step: Step)
      requires Stand(system) && Enabled(system, step) && (step.StepToServer? || step.StepToClient?)
      modifies client, server
      ensures Stand(After(system, step))
    {
      hide Values;
      if step.StepToServer? {
        Delivered(system.toServer, step.n);
        server.input, client.output := server.input + client.output[..step.n], client.output[step.n..];
      } else {
        Delivered(system.toClient, step.n);
        client.input, server.output := client.input + server.output[..step.n], server.output[step.n..];
      }
    }

    /** One step of the schedule, if it can be taken; the counters change only while the test runs. */
    method Turn(step: Step) returns (taken: bool)
      requires Valid()
      modifies this, client, server
      ensures Valid() && taken == old(Enabled(system, step))
      ensures system == if taken then After(old(system), step) else old(system)
      ensures taken ==> old(ReadsOwn(system, step))
    {
      hide Inv, Enabled, After, Remeasured, F.Read, Values, ReadsOwn;
      PossibleIsEnabled(system, step);
      taken := Possible(step);
      if !taken {
        return;
      }
      StepHolds(system, step);
      StepReadsOwn(system, step);
      match step {
        case StepClientMeasures(t) =>
          MeasuredClient(system, t);
          client.test := t;
        case StepServerMeasures(t) =>
          MeasuredServer(system, t);
          server.test := t;
        case StepToServer(_) => Transport(step);
        case StepToClient(_) => Transport(step);
        case StepServerCookie => ServerTurn(step);
        case StepServerParameters => ServerTurn(step);
        case StepServerStream => ServerTurn(step);
        case StepServerMessage => ServerTurn(step);
        case StepServerResults => ServerTurn(step);
        case _ => ClientTurn(step);
      }
      system := After(system, step);
    }

    /**
     Whatever the schedule, neither side fails; and once both sides are done, they hold
     the same totals for every stream that was asked for.
     */
    method Run(schedule: seq<Step>)
      requires Valid()
      modifies this, client, server
      ensures Valid()
      ensures system == Played(old(system), schedule)
      ensures !client.at.ClientFailed? && !server.at.ServerFailed?
      ensures client.state == IPERF_DONE && server.state == IPERF_DONE ==>
                && Agree(client.test, server.test)
                && |client.test.streams| == Total(client.settings)
    {
      hide Inv, Enabled, After, Total, Agree;
      for i := 0 to |schedule|
        invariant Valid() && system == Played(old(system), schedule[..i])
      {
        var _ := Turn(schedule[i]);
        assert schedule[..i + 1][..i] == schedule[..i];
      }
      assert schedule[..|schedule|] == schedule;
      NoneFailed(system);
      if client.state == IPERF_DONE && server.state == IPERF_DONE {
        DoneIsAgreed(system);
      }
    }

    /** A step that can be taken, if there is one. */
    method Choose() returns (step: Option<Step>)
      requires Valid()
      ensures step.Some? ==> Enabled(system, step.value) && Direct(step.value)
      ensures step.None? ==> Done(system) || Deadlocked(system)
    {
      hide Inv, Enabled, Possible, Done, Deadlocked;
      for i := 0 to |CANDIDATES|
        invariant forall j :: 0 <= j < i ==> !Enabled(system, CANDIDATES[j])
      {
        PossibleIsEnabled(system, CANDIDATES[i]);
        if Possible(CANDIDATES[i]) {
          return Some(CANDIDATES[i]);
        }
      }
      if !Done(system) && !Deadlocked(system) {
        ghost var missed := NeverStuck(system);
        IsCandidate(missed);
      }
      return None;
    }

    /**
     The two sides are run as long as one of them can do something. They end done and
     agreed, or, for a negative stream count, both waiting for the streams.
     */
    method Finish()
      requires Valid()
      modifies this, client, server
      ensures Valid()
      ensures client.settings.streams >= 0 ==>
                && client.state == IPERF_DONE && server.state == IPERF_DONE
                && Agree(client.test, server.test)
                && |client.test.streams| == Total(client.settings)
      ensures client.settings.streams < 0 ==>
                client.state == CREATE_STREAMS && server.state == CREATE_STREAMS && client.test.streams == []
    {
      hide Inv, Enabled, After, Total, Agree, Direct;
      LeftIsNat(system);
      var step := Choose();
      while step.Some?
        invariant Valid() && Left(system) >= 0
        invariant step.Some? ==> Enabled(system, step.value) && Direct(step.value)
        invariant step.None? ==> Done(system) || Deadlocked(system)
        decreases Left(system), OnTheWay(system), step.Some?
      {
        DirectProgresses(system, step.value);
        var _ := Turn(step.value);
        step := Choose();
      }
      EndOf(system);
    }
  }

  const CANDIDATES: seq<Step> := [
    StepToServer(1), StepToClient(1), StepClientMessage, StepClientConnect, StepClientResults, StepClientEnd,
    StepServerCookie, StepServerParameters, StepServerStream, StepServerMessage, StepServerResults]

  lemma {:induction false} IsCandidate(step: Step)
    requires Direct(step)
    ensures exists j :: 0 <= j < |CANDIDATES| && CANDIDATES[j] == step
  {
    var j := match step
      case StepToServer(_) => 0
      case StepToClient(_) => 1
      case StepClientMessage => 2
      case StepClientConnect => 3
      case StepClientResults => 4
      case StepClientEnd => 5
      case StepServerCookie => 6
      case StepServerParameters => 7
      case StepServerStream => 8
      case StepServerMessage => 9
      case _ => 10;
    assert CANDIDATES[j] == step;
  }

  lemma {:induction false} Delivered(ch: Channel, n: nat)
    requires n <= |ch.coming|
    ensures Values(Deliver(ch, n).arrived) == Values(ch.arrived) + Values(ch.coming)[..n]
    ensures Values(Deliver(ch, n).coming) == Values(ch.coming)[n..]
  {
  }

  lemma {:induction false} MeasuredClient(s: System, t: Test)
    requires Enabled(s, StepClientMeasures(t))
    ensures After(s, StepClientMeasures(t)) == s.(client := s.client.(test := t))
  {
  }

  lemma {:induction false} MeasuredServer(s: System, t: Test)
    requires Enabled(s, StepServerMeasures(t))
    ensures After(s, StepServerMeasures(t)) == s.(server := s.server.(test := t))
  {
  }

  lemma {:induction false} DirectProgresses(s: System, step: Step)
    requires Inv(s) && Enabled(s, step) && Direct(step)
    ensures var s' := After(s, step); 0 <= Left(s') <= Left(s) && (Left(s') == Left(s) ==> OnTheWay(s') < OnTheWay(s))
  {
    hide Inv, Enabled, After, Left, OnTheWay;
    StepProgresses(s, step);
  }

  lemma {:induction false} EndOf(s: System)
    requires Inv(s) && (Done(s) || Deadlocked(s))
    ensures s.client.settings.streams >= 0 ==>
              && Done(s) && Agree(s.client.test, s.server.test)
              && |s.client.test.streams| == Total(s.client.settings)
    ensures s.client.settings.streams < 0 ==>
              s.client.state == CREATE_STREAMS && s.server.state == CREATE_STREAMS && s.client.test.streams == []
  {
    hide Channels, Knowledge, ValidTest, ValidSettings, Counted, ClientStreams, ServerStreams, Agree;
    OneEnd(s);
    if Done(s) {
      DoneIsAgreed(s);
    }
  }
}
