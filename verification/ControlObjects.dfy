/**
 Client and server as iperf3 has them: objects that are updated in place, with the
 bytes their control socket has received and the bytes it has still to deliver. Each
 method is proved to take exactly the step of the protocol that it stands for.
 */
module ControlObjects {
  import opened Bytes
  import opened Json
  import R = JsonRender
  import F = ControlFrame
  import opened ControlMessages
  import opened ControlResults
  import opened ControlProtocol

  lemma {:induction false} ValuesOfMarked(kind: Kind, b: bytes)
    ensures Values(Marked(kind, b)) == b
  {
  }

  lemma {:induction false} ValuesOfSum(a: seq<Wire>, b: seq<Wire>)
    ensures Values(a + b) == Values(a) + Values(b)
  {
  }

  lemma {:induction false} ValuesOfRest(a: seq<Wire>, n: nat)
    requires n <= |a|
    ensures Values(a[n..]) == Values(a)[n..]
  {
  }

  /** What a write adds to the bytes that are on their way. */
  lemma {:induction false} SendAdds(ch: Channel, kind: Kind, b: bytes)
    ensures Values(Send(ch, Marked(kind, b)).coming) == Values(ch.coming) + b
  {
    ValuesOfMarked(kind, b);
    ValuesOfSum(ch.coming, Marked(kind, b));
  }

  class IperfClient {
    const settings: Settings
    var test: Test
    var state: byte
    var at: ClientAt
    var input: bytes
    var output: bytes

    constructor (settings: Settings, test: Test, cookie: bytes)
      ensures this.settings == settings && this.test == test && state == 0 && at == ClientLoop
      ensures input == [] && output == cookie
    {
      this.settings, this.test := settings, test;
      state, at, input, output := 0, ClientLoop, [], cookie;
    }

    /** The object is the client of this state of the protocol. */
    ghost predicate Stands(s: System)
      reads this
    {
      && s.client == Client(settings, test, state, at)
      && Values(s.toClient.arrived) == input && Values(s.toServer.coming) == output
    }

    /** JSON_write */
    method WriteDocument(doc: Value) returns (ok: bool)
      modifies `output
      ensures ok == R.Printable(doc)
      ensures output == old(output) + if ok then F.Write(doc) else []
    {
      ok := R.Printable(doc);
      if ok {
        output := output + F.Write(doc);
      } else {
        assert output + [] == output;
      }
    }

    /** iperf_handle_message_client */
    method HandleMessage(ghost s: System)
      requires Stands(s) && input != []
      modifies this
      ensures Stands(ClientMessage(s))
    {
      hide F.Write, ParametersDoc, ResultsDoc, R.Printable, Marked, Values;
      ValuesOfRest(s.toClient.arrived, 1);
      state, input := input[0], input[1..];
      if state == PARAM_EXCHANGE {
        var ok := WriteDocument(ParametersDoc(settings));
        if ok {
          SendAdds(s.toServer, Document, F.Write(ParametersDoc(settings)));
        } else {
          at := ClientFailed;
        }
      } else if state == CREATE_STREAMS {
        at := CreateNext(Total(settings));
      } else if state == TEST_START || state == TEST_RUNNING || state == IPERF_DONE {
      } else if state == EXCHANGE_RESULTS {
        var ok := WriteDocument(ResultsDoc(test));
        if ok {
          SendAdds(s.toServer, Document, F.Write(ResultsDoc(test)));
          at := ClientResults;
        } else {
          at := ClientFailed;
        }
      } else if state == DISPLAY_RESULTS {
        SendAdds(s.toServer, State, [IPERF_DONE]);
        state := IPERF_DONE;
        output := output + [IPERF_DONE];
      } else {
        at := ClientFailed;
      }
    }

    /** One turn of the loop in iperf_create_streams. */
    method CreateStream(ghost s: System)
      requires Stands(s) && at.Creating? && at.left > 0
      modifies this
      ensures Stands(ClientConnect(s))
    {
      var stream := NewStream(ClientSends(settings, |test.streams|));
      var streams := AddStream(test.streams, stream);
      test := test.(streams := streams);
      at := CreateNext(at.left - 1);
    }

    /** get_results, once the document has arrived */
    method ReceiveResults(ghost s: System)
      requires Stands(s) && !F.Read(input).Waiting?
      modifies this
      ensures Stands(ClientGetsResults(s))
    {
      hide F.Read, GetResults, Values;
      var r := F.Read(input);
      ValuesOfRest(s.toClient.arrived, r.used);
      input := input[r.used..];
      if r.Malformed? {
        at := ClientFailed;
        return;
      }
      var (results, ok) := GetResults(test, r.value);
      test := results;
      at := if ok then ClientLoop else ClientFailed;
    }

    /** The end of the test in iperf_run_client. */
    method EndTest(ghost s: System)
      requires Stands(s)
      modifies this
      ensures Stands(ClientEnd(s))
    {
      SendAdds(s.toServer, State, [TEST_END]);
      state := TEST_END;
      output := output + [TEST_END];
    }
  }

  class IperfServer {
    var test: Test
    var state: byte
    var at: ServerAt
    var toReceive: int
    var toSend: int
    var receiving: int
    var sending: int
    var pending: nat
    var input: bytes
    var output: bytes

    constructor (test: Test)
      ensures this.test == test && state == IPERF_START && at == AwaitCookie && receiving == 0 && sending == 0
      ensures toReceive == 0 && toSend == 0 && pending == 0 && input == [] && output == []
    {
      this.test := test;
      state, at, toReceive, toSend, receiving, sending := IPERF_START, AwaitCookie, 0, 0, 0, 0;
      pending, input, output := 0, [], [];
    }

    /** The object is the server of this state of the protocol. */
    ghost predicate Stands(s: System)
      reads this
    {
      && s.server == Server(test, state, at, toReceive, toSend, receiving, sending) && s.pending == pending
      && Values(s.toServer.arrived) == input && Values(s.toClient.coming) == output
    }

    /** iperf_set_send_state */
    method SendState(b: byte)
      modifies `state, `output
      ensures state == b && output == old(output) + [b]
    {
      state := b;
      output := output + [b];
    }

    /** iperf_accept, up to the parameters */
    method AcceptClient(ghost s: System)
      requires Stands(s) && |input| >= COOKIE_SIZE
      modifies this
      ensures Stands(ServerAcceptsClient(s))
    {
      ValuesOfRest(s.toServer.arrived, COOKIE_SIZE);
      SendAdds(s.toClient, State, [PARAM_EXCHANGE]);
      input := input[COOKIE_SIZE..];
      SendState(PARAM_EXCHANGE);
      at := AwaitParameters;
    }

    /** The rest of iperf_accept: the parameters, and the call for the streams. */
    method GetParameters(ghost s: System)
      requires Stands(s) && !F.Read(input).Waiting?
      modifies this
      ensures Stands(ServerGetsParameters(s))
    {
      hide F.Read, ControlMessages.GetParameters, Values, Marked;
      var r := F.Read(input);
      ValuesOfRest(s.toServer.arrived, r.used);
      input := input[r.used..];
      if r.Malformed? {
        at := ServerFailed;
        return;
      }
      var p := ControlMessages.GetParameters(r.value);
      test := test.(mode := p.mode);
      at := ServerLoop;
      SendAdds(s.toClient, State, [CREATE_STREAMS]);
      SendState(CREATE_STREAMS);
      toReceive := if p.mode == Sender then 0 else p.streams;
      toSend := if p.mode == Receiver then 0 else p.streams;
      StartWhenReady(Called(s));
    }

    /** The state of the protocol right after the streams were called for. */
    ghost function Called(s: System): System
      requires !F.Read(Values(s.toServer.arrived)).Waiting? && F.Read(Values(s.toServer.arrived)).Got?
    {
      var r := F.Read(Values(s.toServer.arrived));
      var p := ControlMessages.GetParameters(r.value);
      s.(toServer := Take(s.toServer, r.used),
         server := s.server.(
           test := s.server.test.(mode := p.mode), state := CREATE_STREAMS, at := ServerLoop,
           toReceive := if p.mode == Sender then 0 else p.streams,
           toSend := if p.mode == Receiver then 0 else p.streams),
         toClient := Send(s.toClient, States([CREATE_STREAMS])))
    }

    /** The end of the accept branch of iperf_run_server. */
    method StartWhenReady(ghost s: System)
      requires Stands(s)
      modifies this
      ensures Stands(StartIfReady(s))
    {
      if state == CREATE_STREAMS && receiving == toReceive && sending == toSend {
        SendAdds(s.toClient, State, [TEST_START, TEST_RUNNING]);
        ghost var before := output;
        SendState(TEST_START);
        SendState(TEST_RUNNING);
        assert output == before + [TEST_START, TEST_RUNNING];
      }
    }

    /** The accept branch of iperf_run_server for one stream connection. */
    method AcceptOne(ghost s: System)
      requires Stands(s) && pending > 0
      modifies this
      ensures Stands(ServerAcceptsStream(s))
    {
      pending := pending - 1;
      var flag := -1;
      if receiving != toReceive {
        flag := 0;
        receiving := receiving + 1;
      } else if sending != toSend {
        flag := 1;
        sending := sending + 1;
      }
      if flag != -1 {
        var streams := AddStream(test.streams, NewStream(flag == 1));
        test := test.(streams := streams);
      }
      StartWhenReady(s.(pending := pending,
                        server := Server(test, state, at, toReceive, toSend, receiving, sending)));
    }

    /** iperf_handle_message_server, up to the results */
    method HandleMessage(ghost s: System)
      requires Stands(s) && input != []
      modifies this
      ensures Stands(ServerMessage(s))
    {
      ValuesOfRest(s.toServer.arrived, 1);
      SendAdds(s.toClient, State, [EXCHANGE_RESULTS]);
      state, input := input[0], input[1..];
      if state == TEST_START || state == IPERF_DONE {
      } else if state == TEST_END {
        SendState(EXCHANGE_RESULTS);
        at := ServerResults;
      } else if state == CLIENT_TERMINATE {
        state := IPERF_DONE;
      } else {
        at := ServerFailed;
      }
    }

    /** The rest of the TEST_END branch: get_results, send_results, and the last state. */
    method ExchangeResults(ghost s: System)
      requires Stands(s) && !F.Read(input).Waiting?
      modifies this
      ensures ServerGetsResults(s).server.at == ServerFailed ==> at == ServerFailed
      ensures ServerGetsResults(s).server.at != ServerFailed ==> Stands(ServerGetsResults(s))
    {
      hide F.Read, F.Write, ResultsDoc, R.Printable, Values, Marked, ControlResults.GetResults;
      var r := F.Read(input);
      ValuesOfRest(s.toServer.arrived, r.used);
      input := input[r.used..];
      if r.Malformed? {
        at := ServerFailed;
        return;
      }
      var (results, ok) := ControlResults.GetResults(test, r.value);
      test := results;
      var doc := ResultsDoc(test);
      if !ok || !R.Printable(doc) {
        at := ServerFailed;
        return;
      }
      output := output + F.Write(doc);
      SendAdds(s.toClient, Document, F.Write(doc));
      SendAdds(Send(s.toClient, Frame(doc)), State, [DISPLAY_RESULTS]);
      assert s.toClient.coming + (Frame(doc) + States([DISPLAY_RESULTS])) ==
             s.toClient.coming + Frame(doc) + States([DISPLAY_RESULTS]);
      SendState(DISPLAY_RESULTS);
      at := ServerLoop;
    }
  }
}
