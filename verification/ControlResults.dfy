/** The results that both sides exchange at the end of a test: send_results and get_results. */
module ControlResults {
  import opened Bytes
  import opened Json
  import R = JsonRender
  import opened ControlFrame
  import opened ControlMessages

  /** What a stream has measured, and what it was told about its other end. */
  datatype Stream = Stream(
    id: int, sender: bool,
    sent: int, sentOmit: int, received: int, retrans: int, jitter: real, errors: int, omittedErrors: int,
    packets: int, omittedPackets: int, elapsed: real,
    peerPackets: int, peerOmittedPackets: int, peerElapsed: real)

  datatype Test = Test(mode: Mode, hasRetransmits: int, otherHasRetransmits: int,
                       cpu: (real, real, real), remoteCpu: (real, real, real),
                       extras: seq<Member>, streams: seq<Stream>)

  // ---------- One stream ----------

  /** The bytes that a stream reports: sent outside the omitted time, or received. */
  function Transferred(s: Stream): int { if s.sender then s.sent - s.sentOmit else s.received }

  function Retransmits(s: Stream, has: int): int { if s.sender && has != 0 then s.retrans else -1 }

  function StreamMembers(s: Stream, has: int): seq<Member> {
    [Member(ID, Num(s.id)), Member(BYTES, Num(Transferred(s))), Member(RETRANSMITS, Num(Retransmits(s, has))),
     Member(JITTER, Number(s.jitter)), Member(ERRORS, Num(s.errors)), Member(OMITTED_ERRORS, Num(s.omittedErrors)),
     Member(PACKETS, Num(s.packets)), Member(OMITTED_PACKETS, Num(s.omittedPackets)),
     Member(START_TIME, Num(0)), Member(END_TIME, Number(s.elapsed))]
  }

  /** What get_results reads of one stream. */
  datatype Report = Report(id: int, bytes: int, retransmits: int, jitter: real, errors: int, packets: int,
                           omitted: Option<(int, int)>, elapsed: Option<real>)

  function ReadReport(v: Value): Option<Report> {
    var id, bytes, retransmits := Get(v, ID), Get(v, BYTES), Get(v, RETRANSMITS);
    var jitter, errors, packets := Get(v, JITTER), Get(v, ERRORS), Get(v, PACKETS);
    var omittedErrors, omittedPackets := Get(v, OMITTED_ERRORS), Get(v, OMITTED_PACKETS);
    var start, end := Get(v, START_TIME), Get(v, END_TIME);
    if id.None? || bytes.None? || retransmits.None? || jitter.None? || errors.None? || packets.None? then None
    else if omittedErrors.None? != omittedPackets.None? then None
    else
      Some(Report(
        ToInt(ValueInt(id.value)), ValueInt(bytes.value) % R.TWO_64, ToInt(ValueInt(retransmits.value)),
        ValueDouble(jitter.value), ToInt(ValueInt(errors.value)), ToInt(ValueInt(packets.value)),
        if omittedPackets.None? then None
        else Some((ToInt(ValueInt(omittedErrors.value)), ToInt(ValueInt(omittedPackets.value)))),
        if start.None? || end.None? then None else Some(ValueDouble(end.value) - ValueDouble(start.value))))
  }

  /** The ranges of the counters: byte counts that a double holds exactly, and `int` for the rest; times are any reals. */
  predicate InRange(s: Stream) {
    && 0 <= s.id < TWO_31 && -1 <= s.retrans < TWO_31
    && 0 <= Transferred(s) < TWO_53
    && 0 <= s.errors < TWO_31 && 0 <= s.omittedErrors < TWO_31
    && 0 <= s.packets < TWO_31 && 0 <= s.omittedPackets < TWO_31
  }

  function ReportOf(s: Stream, has: int): Report {
    Report(s.id, Transferred(s), Retransmits(s, has), R.Arrival(s.jitter), s.errors, s.packets,
           Some((s.omittedErrors, s.omittedPackets)), Some(R.Arrival(s.elapsed)))
  }

  lemma {:induction false} StreamNames(s: Stream, has: int)
    ensures var ms := StreamMembers(s, has);
            && FirstAt(ms, 0, ID) && FirstAt(ms, 1, BYTES) && FirstAt(ms, 2, RETRANSMITS) && FirstAt(ms, 3, JITTER)
            && FirstAt(ms, 4, ERRORS) && FirstAt(ms, 5, OMITTED_ERRORS) && FirstAt(ms, 6, PACKETS)
            && FirstAt(ms, 7, OMITTED_PACKETS) && FirstAt(ms, 8, START_TIME) && FirstAt(ms, 9, END_TIME)
  {
    hide FirstAt;
    FirstStreamNames(s, has);
    LastStreamNames(s, has);
  }

  lemma {:induction false} FirstStreamNames(s: Stream, has: int)
    ensures var ms := StreamMembers(s, has);
            && FirstAt(ms, 0, ID) && FirstAt(ms, 1, BYTES) && FirstAt(ms, 2, RETRANSMITS) && FirstAt(ms, 3, JITTER)
            && FirstAt(ms, 4, ERRORS)
  {
    hide SameName, FirstAt;
    var ms := StreamMembers(s, has);
    FirstByLength(ms, 0);
    FirstByLength(ms, 1);
    FirstByLength(ms, 2);
    FirstByLength(ms, 3);
    assert FirstAt(ms, 4, ERRORS) by {
      FirstByLength(ms[..3] + ms[4..5], 3);
      JitterIsNotErrors(ms);
    }
  }

  lemma {:induction false} LastStreamNames(s: Stream, has: int)
    ensures var ms := StreamMembers(s, has);
            && FirstAt(ms, 5, OMITTED_ERRORS) && FirstAt(ms, 6, PACKETS) && FirstAt(ms, 7, OMITTED_PACKETS)
            && FirstAt(ms, 8, START_TIME) && FirstAt(ms, 9, END_TIME)
  {
    hide SameName, FirstAt;
    var ms := StreamMembers(s, has);
    FirstByLength(ms, 5);
    FirstByLength(ms, 6);
    FirstByLength(ms, 7);
    FirstByLength(ms, 8);
    FirstByLength(ms, 9);
  }

  lemma {:induction false} JitterIsNotErrors(ms: seq<Member>)
    requires |ms| > 4 && ms[3].name == JITTER && ms[4].name == ERRORS
    requires FirstAt(ms[..3] + ms[4..5], 3, ERRORS)
    ensures FirstAt(ms, 4, ERRORS)
  {
    var others := ms[..3] + ms[4..5];
    assert forall j :: 0 <= j < 3 ==> others[j] == ms[j];
    assert Lower(JITTER[0]) != Lower(ERRORS[0]);
  }

  lemma {:induction false} FirstByLength(ms: seq<Member>, i: nat)
    requires i < |ms| && forall j :: 0 <= j < i ==> |ms[j].name| != |ms[i].name|
    ensures FirstAt(ms, i, ms[i].name)
  {
  }

  lemma {:induction false} StreamPrintable(s: Stream, has: int)
    requires InRange(s)
    ensures AllPrintable(StreamMembers(s, has)) && R.Printable(Object(StreamMembers(s, has)))
  {
    hide R.Printable, R.ReadBack, ValueInt, ToInt, R.PrintableMembers;
    CountArrives(s.id);
    CountArrives(Transferred(s));
    IntArrives(Retransmits(s, has));
    RealArrives(s.jitter);
    RealArrives(s.elapsed);
    CountArrives(s.errors);
    CountArrives(s.omittedErrors);
    CountArrives(s.packets);
    CountArrives(s.omittedPackets);
    CountArrives(0);
    var ms := StreamMembers(s, has);
    assert forall i :: 0 <= i < 10 ==> R.Printable(ms[i].value);
    assert forall i :: 0 <= i < 10 ==> 0 !in ms[i].name;
    PrintableObject(ms);
    ObjectReads(ms);
  }

  /** The report of a stream is read as it was sent. */
  lemma {:induction false} ReportArrives(s: Stream, has: int)
    requires InRange(s)
    ensures R.Printable(Object(StreamMembers(s, has)))
    ensures ReadReport(R.ReadBack(Object(StreamMembers(s, has)))) == Some(ReportOf(s, has))
  {
    hide R.Printable, R.ReadBack, R.ReadMembers, FirstNamed, ValueInt, ToInt, FirstAt, AllPrintable, R.Arrival;
    var ms := StreamMembers(s, has);
    StreamPrintable(s, has);
    StreamNames(s, has);
    MemberArrives(ms, 0, ID);
    MemberArrives(ms, 1, BYTES);
    MemberArrives(ms, 2, RETRANSMITS);
    MemberArrives(ms, 3, JITTER);
    MemberArrives(ms, 4, ERRORS);
    MemberArrives(ms, 5, OMITTED_ERRORS);
    MemberArrives(ms, 6, PACKETS);
    MemberArrives(ms, 7, OMITTED_PACKETS);
    MemberArrives(ms, 8, START_TIME);
    MemberArrives(ms, 9, END_TIME);
    ObjectReads(ms);
    CountArrives(s.id);
    CountArrives(Transferred(s));
    IntArrives(Retransmits(s, has));
    RealArrives(s.jitter);
    RealArrives(s.elapsed);
    CountArrives(s.errors);
    CountArrives(s.omittedErrors);
    CountArrives(s.packets);
    CountArrives(s.omittedPackets);
    CountArrives(0);
  }

  // ---------- Taking reports in ----------

  /** What a stream learns from the report of its other end. */
  function Absorb(s: Stream, r: Report): Stream {
    var elapsed := if r.elapsed.Some? then r.elapsed.value else 0.0;
    if s.sender then
      s.(jitter := r.jitter, errors := r.errors, peerPackets := r.packets, received := r.bytes,
         omittedErrors := if r.omitted.Some? then r.omitted.value.0
                          else if s.omittedPackets > 0 then (if r.errors > 0 then -1 else 0)
                          else r.errors,
         peerOmittedPackets := if r.omitted.Some? then r.omitted.value.1 else s.omittedPackets,
         peerElapsed := elapsed)
    else
      s.(peerPackets := r.packets, sent := r.bytes, retrans := r.retransmits,
         peerOmittedPackets := if r.omitted.Some? then r.omitted.value.1 else r.packets,
         peerElapsed := elapsed)
  }

  /**
   A peer that does not report what was omitted: a sender takes the errors for omitted
   ones where it omitted nothing itself, and otherwise as unknown if there are any.
   */
  lemma {:induction false} OlderPeer(s: Stream, r: Report)
    requires r.omitted.None?
    ensures var t := Absorb(s, r);
            && (s.sender && s.omittedPackets <= 0 ==> t.omittedErrors == r.errors)
            && (s.sender && s.omittedPackets > 0 ==> t.omittedErrors == (if r.errors <= 0 then 0 else -1))
            && t.peerOmittedPackets == (if s.sender then s.omittedPackets else r.packets)
            && (!s.sender ==> t.omittedErrors == s.omittedErrors)
  {
  }

  /** The position of the first stream with an id, or the number of streams. */
  function IndexOf(streams: seq<Stream>, id: int): (k: nat)
    ensures k <= |streams| && (k < |streams| ==> streams[k].id == id)
    ensures forall i :: 0 <= i < k ==> streams[i].id != id
  {
    if streams == [] || streams[0].id == id then 0 else 1 + IndexOf(streams[1..], id)
  }

  /** One report of the list: the streams after it, and whether it was well formed and had a stream. */
  function AbsorbOne(streams: seq<Stream>, item: Value): (seq<Stream>, bool) {
    var r := ReadReport(item);
    if r.None? then (streams, false)
    else
      var k := IndexOf(streams, r.value.id);
      if k == |streams| then (streams, false)
      else (streams[k := Absorb(streams[k], r.value)], true)
  }

  function AbsorbAll(streams: seq<Stream>, items: seq<Value>): (seq<Stream>, bool)
    decreases |items|
  {
    if items == [] then (streams, true)
    else
      var front := AbsorbAll(streams, items[..|items| - 1]);
      var last := AbsorbOne(front.0, items[|items| - 1]);
      (last.0, front.1 && last.1)
  }

  /** The loop of get_results over the reports, with its search for the stream, in place. */
  method AbsorbReports(streams: array<Stream>, items: seq<Value>) returns (ok: bool)
    modifies streams
    ensures (streams[..], ok) == AbsorbAll(old(streams[..]), items)
  {
    hide ReadReport, Absorb;
    ok := true;
    for i := 0 to |items|
      invariant (streams[..], ok) == AbsorbAll(old(streams[..]), items[..i])
    {
      ghost var was := streams[..];
      assert items[..i + 1][..i] == items[..i];
      var r := ReadReport(items[i]);
      if r.None? {
        ok := false;
      } else {
        var k := 0;
        while k < streams.Length && streams[k].id != r.value.id
          invariant 0 <= k <= streams.Length
          invariant forall j :: 0 <= j < k ==> streams[j].id != r.value.id
        {
          k := k + 1;
        }
        assert IndexOf(was, r.value.id) == k by {
          assert forall j :: 0 <= j < k ==> was[j].id != r.value.id;
        }
        if k == streams.Length {
          ok := false;
        } else {
          streams[k] := Absorb(streams[k], r.value);
        }
      }
    }
    assert items[..|items|] == items;
  }

  /** Both ends of every stream stand at the same position, under the same id, in opposite directions. */
  predicate Facing(mine: seq<Stream>, theirs: seq<Stream>) {
    && |mine| == |theirs|
    && (forall i :: 0 <= i < |mine| ==> mine[i].id == theirs[i].id && mine[i].sender != theirs[i].sender)
    && forall i, j :: 0 <= i < j < |mine| ==> mine[i].id != mine[j].id
  }

  predicate AllInRange(streams: seq<Stream>) {
    forall i :: 0 <= i < |streams| ==> InRange(streams[i])
  }

  function StreamDocs(streams: seq<Stream>, has: int): (r: seq<Value>)
    ensures |r| == |streams| && forall i :: 0 <= i < |r| ==> r[i] == Object(StreamMembers(streams[i], has))
  {
    seq(|streams|, i requires 0 <= i < |streams| => Object(StreamMembers(streams[i], has)))
  }

  /** My streams after the first n reports of the other side. */
  function Informed(mine: seq<Stream>, theirs: seq<Stream>, has: int, n: nat): (r: seq<Stream>)
    requires |mine| == |theirs| && n <= |mine|
    ensures |r| == |mine|
    ensures forall i :: 0 <= i < |r| ==> r[i] == if i < n then Absorb(mine[i], ReportOf(theirs[i], has)) else mine[i]
  {
    seq(|mine|, i requires 0 <= i < |mine| => if i < n then Absorb(mine[i], ReportOf(theirs[i], has)) else mine[i])
  }

  /** Every report finds its stream, and each stream absorbs the report of its other end. */
  lemma {:induction false} ReportsArrive(mine: seq<Stream>, theirs: seq<Stream>, has: int, arrived: seq<Value>, n: nat)
    requires Facing(mine, theirs) && n <= |mine| == |arrived|
    requires forall i :: 0 <= i < n ==> ReadReport(arrived[i]) == Some(ReportOf(theirs[i], has))
    ensures AbsorbAll(mine, arrived[..n]) == (Informed(mine, theirs, has, n), true)
  {
    hide ReadReport, Absorb, Informed, IndexOf, R.Arrival;
    if n == 0 {
      assert arrived[..0] == [];
      assert Informed(mine, theirs, has, 0) == mine;
    } else {
      ReportsArrive(mine, theirs, has, arrived, n - 1);
      assert arrived[..n][..n - 1] == arrived[..n - 1] && arrived[..n][n - 1] == arrived[n - 1];
      ReportFindsStream(mine, theirs, has, n - 1);
    }
  }

  lemma {:induction false} ReportFindsStream(mine: seq<Stream>, theirs: seq<Stream>, has: int, n: nat)
    requires Facing(mine, theirs) && n < |mine|
    ensures var front := Informed(mine, theirs, has, n);
            && IndexOf(front, theirs[n].id) == n
            && front[n := Absorb(front[n], ReportOf(theirs[n], has))] == Informed(mine, theirs, has, n + 1)
  {
    hide Absorb, Informed, IndexOf;
    var front := Informed(mine, theirs, has, n);
    KeepsId(mine, theirs, has, n);
    var k := IndexOf(front, theirs[n].id);
    assert front[n].id == theirs[n].id;
  }

  lemma {:induction false} KeepsId(mine: seq<Stream>, theirs: seq<Stream>, has: int, n: nat)
    requires |mine| == |theirs| && n <= |mine|
    ensures var r := Informed(mine, theirs, has, n);
            forall i :: 0 <= i < |mine| ==> r[i].id == mine[i].id && r[i].sender == mine[i].sender
  {
  }

  // ---------- The whole document ----------

  function Head(t: Test): seq<Member> {
    [Member(CPU_UTIL_TOTAL, Number(t.cpu.0)), Member(CPU_UTIL_USER, Number(t.cpu.1)),
     Member(CPU_UTIL_SYSTEM, Number(t.cpu.2)),
     Member(SENDER_HAS_RETRANSMITS, Num(if t.mode == Receiver then -1 else t.hasRetransmits))]
  }

  /** send_results; `extras` are the optional members in the middle */
  function ResultsDoc(t: Test): Value {
    Object(Head(t) + t.extras + [Member(STREAMS, Array(StreamDocs(t.streams, t.hasRetransmits)))])
  }

  function Children(v: Value): seq<Value> {
    match v
    case Array(items) => items
    case Object(members) => seq(|members|, i requires 0 <= i < |members| => members[i].value)
    case _ => []
  }

  /** get_results */
  function GetResults(t: Test, v: Value): (Test, bool) {
    var total, user, system := Get(v, CPU_UTIL_TOTAL), Get(v, CPU_UTIL_USER), Get(v, CPU_UTIL_SYSTEM);
    var has, streams := Get(v, SENDER_HAS_RETRANSMITS), Get(v, STREAMS);
    if total.None? || user.None? || system.None? || has.None? then (t, false)
    else
      var result := ToInt(ValueInt(has.value));
      var t1 := t.(remoteCpu := (ValueDouble(total.value), ValueDouble(user.value), ValueDouble(system.value)),
                   hasRetransmits := if t.mode == Receiver then result else t.hasRetransmits,
                   otherHasRetransmits := if t.mode == Receiver then 0
                                          else if t.mode == Bidirectional then result
                                          else t.otherHasRetransmits);
      if streams.None? then (t1, false)
      else
        var (r, ok) := AbsorbAll(t1.streams, Children(streams.value));
        (t1.(streams := r), ok)
  }

  predicate ValidExtras(extras: seq<Member>) {
    && |extras| <= 2 && AllPrintable(extras)
    && Unnamed(extras, STREAMS)
    && forall i :: 0 <= i < |extras| ==>
         |extras[i].name| <= 22 && Depth(extras[i].value) <= 900
         && |R.Render(extras[i].value, false, 1)| <= 0x1000_0000
  }

  predicate ValidTest(t: Test) {
    && AllInRange(t.streams) && |t.streams| <= 2 * MAX_STREAMS
    && -1 <= t.hasRetransmits < TWO_31
    && ValidExtras(t.extras)
  }

  lemma {:induction false} HeadNames(t: Test)
    ensures var ms := Head(t);
            && FirstAt(ms, 0, CPU_UTIL_TOTAL) && FirstAt(ms, 1, CPU_UTIL_USER) && FirstAt(ms, 2, CPU_UTIL_SYSTEM)
            && FirstAt(ms, 3, SENDER_HAS_RETRANSMITS) && Unnamed(ms, STREAMS)
  {
    FirstByLength(Head(t), 0);
    FirstByLength(Head(t), 1);
    FirstByLength(Head(t), 2);
    FirstByLength(Head(t), 3);
  }

  lemma {:induction false} HeadPrintable(t: Test)
    requires ValidTest(t)
    ensures AllPrintable(Head(t))
  {
    hide R.Printable, R.ReadBack, ToInt, ValueInt, ValidExtras;
    RealArrives(t.cpu.0);
    RealArrives(t.cpu.1);
    RealArrives(t.cpu.2);
    IntArrives(if t.mode == Receiver then -1 else t.hasRetransmits);
  }

  lemma {:induction false} DocsPrintable(streams: seq<Stream>, has: int)
    requires AllInRange(streams)
    ensures R.PrintableItems(StreamDocs(streams, has)) && R.Printable(Array(StreamDocs(streams, has)))
  {
    hide R.PrintableMembers, StreamMembers;
    var docs := StreamDocs(streams, has);
    forall i | 0 <= i < |docs| ensures R.Printable(docs[i]) {
      StreamPrintable(streams[i], has);
    }
    R.PrintableArray(docs);
  }

  lemma {:induction false} ResultsPrintable(t: Test)
    requires ValidTest(t)
    ensures AllPrintable(ResultsDoc(t).members) && R.Printable(ResultsDoc(t))
  {
    hide R.Printable, R.ReadBack, Head, StreamDocs, AllPrintable, InRange;
    var last := [Member(STREAMS, Array(StreamDocs(t.streams, t.hasRetransmits)))];
    HeadPrintable(t);
    DocsPrintable(t.streams, t.hasRetransmits);
    OnePrintable(last[0]);
    MembersBetween(Head(t), t.extras, last);
    PrintableObject(ResultsDoc(t).members);
    ObjectReads(ResultsDoc(t).members);
  }

  lemma {:induction false} OnePrintable(m: Member)
    requires 0 !in m.name && R.Printable(m.value)
    ensures AllPrintable([m])
  {
  }

  lemma {:induction false} HeadArrives(t: Test, i: nat, name: bytes)
    requires ValidTest(t) && FirstAt(Head(t), i, name)
    ensures R.Printable(ResultsDoc(t)) && R.Printable(Head(t)[i].value)
    ensures Get(R.ReadBack(ResultsDoc(t)), name) == Some(R.ReadBack(Head(t)[i].value))
  {
    hide R.Printable, R.ReadBack, Head, StreamDocs, R.ReadMembers, FirstNamed, InRange;
    var ms := ResultsDoc(t).members;
    ResultsPrintable(t);
    HeadPrintable(t);
    var last := [Member(STREAMS, Array(StreamDocs(t.streams, t.hasRetransmits)))];
    assert ms == [] + Head(t) + (t.extras + last);
    FirstBetween([], Head(t), t.extras + last, i, name);
    MemberArrives(ms, i, name);
    ObjectReads(ms);
  }

  lemma {:induction false} StreamsArrive(t: Test)
    requires ValidTest(t)
    ensures R.Printable(ResultsDoc(t)) && R.PrintableItems(StreamDocs(t.streams, t.hasRetransmits))
    ensures Get(R.ReadBack(ResultsDoc(t)), STREAMS) ==
            Some(Array(R.ReadItems(StreamDocs(t.streams, t.hasRetransmits))))
  {
    hide R.Printable, R.ReadMembers, FirstNamed, InRange, Head, StreamDocs, AllPrintable, R.ReadItems;
    var ms := ResultsDoc(t).members;
    var docs := StreamDocs(t.streams, t.hasRetransmits);
    ResultsPrintable(t);
    DocsPrintable(t.streams, t.hasRetransmits);
    HeadNames(t);
    var last := [Member(STREAMS, Array(docs))];
    var front := Head(t) + t.extras;
    assert ms == front + last + [];
    assert FirstAt(last, 0, STREAMS);
    assert Unnamed(front, STREAMS);
    FirstBetween(front, last, [], 0, STREAMS);
    MemberArrives(ms, |front|, STREAMS);
    ObjectReads(ms);
    assert ms[|front|] == last[0];
  }

  /** My side of the test after it was told the results of the other side. */
  function Told(mine: Test, theirs: Test): Test
    requires |mine.streams| == |theirs.streams|
  {
    var result := if theirs.mode == Receiver then -1 else theirs.hasRetransmits;
    mine.(remoteCpu := (R.Arrival(theirs.cpu.0), R.Arrival(theirs.cpu.1), R.Arrival(theirs.cpu.2)),
          hasRetransmits := if mine.mode == Receiver then result else mine.hasRetransmits,
          otherHasRetransmits := if mine.mode == Receiver then 0
                                 else if mine.mode == Bidirectional then result
                                 else mine.otherHasRetransmits,
          streams := Informed(mine.streams, theirs.streams, theirs.hasRetransmits, |mine.streams|))
  }

  /** The results are taken in without an error, each report by the stream it is about. */
  lemma {:induction false} ResultsArrive(mine: Test, theirs: Test)
    requires ValidTest(theirs) && Facing(mine.streams, theirs.streams)
    ensures R.Printable(ResultsDoc(theirs))
    ensures GetResults(mine, R.ReadBack(ResultsDoc(theirs))) == (Told(mine, theirs), true)
  {
    hide R.Printable, R.ReadBack, R.ReadItems, InRange, StreamDocs, AbsorbAll, ResultsDoc, ValueInt, ToInt,
         ReadReport, Informed, ValidExtras, Facing, Get, FirstAt, R.Arrival, ReportOf;
    var has, docs := theirs.hasRetransmits, StreamDocs(theirs.streams, theirs.hasRetransmits);
    HeadNames(theirs);
    HeadArrives(theirs, 0, CPU_UTIL_TOTAL);
    HeadArrives(theirs, 1, CPU_UTIL_USER);
    HeadArrives(theirs, 2, CPU_UTIL_SYSTEM);
    HeadArrives(theirs, 3, SENDER_HAS_RETRANSMITS);
    RealArrives(theirs.cpu.0);
    RealArrives(theirs.cpu.1);
    RealArrives(theirs.cpu.2);
    IntArrives(if theirs.mode == Receiver then -1 else has);
    StreamsArrive(theirs);
    ReportsRead(theirs.streams, has);
    var arrived := R.ReadItems(docs);
    AllReportsArrive(mine.streams, theirs.streams, has, arrived);
  }

  lemma {:induction false} AllReportsArrive(mine: seq<Stream>, theirs: seq<Stream>, has: int, arrived: seq<Value>)
    requires Facing(mine, theirs) && |theirs| == |arrived|
    requires forall i :: 0 <= i < |theirs| ==> ReadReport(arrived[i]) == Some(ReportOf(theirs[i], has))
    ensures |mine| == |theirs| && AbsorbAll(mine, arrived) == (Informed(mine, theirs, has, |mine|), true)
  {
    hide ReadReport, AbsorbAll, Informed, ReportOf;
    ReportsArrive(mine, theirs, has, arrived, |mine|);
    assert arrived[..|mine|] == arrived;
  }

  lemma {:induction false} ReportsRead(streams: seq<Stream>, has: int)
    requires AllInRange(streams)
    ensures R.PrintableItems(StreamDocs(streams, has))
    ensures var arrived := R.ReadItems(StreamDocs(streams, has));
            && |arrived| == |streams|
            && forall i :: 0 <= i < |streams| ==> ReadReport(arrived[i]) == Some(ReportOf(streams[i], has))
  {
    hide ReadReport, InRange, R.ReadBack, R.Printable, R.ReadItems, ReportOf, StreamMembers;
    DocsPrintable(streams, has);
    var docs := StreamDocs(streams, has);
    R.ReadItemsAt(docs);
    forall i | 0 <= i < |streams| ensures ReadReport(R.ReadItems(docs)[i]) == Some(ReportOf(streams[i], has)) {
      ReportArrives(streams[i], has);
    }
  }

  // ---------- Agreement ----------

  /** What side `a` of a stream was told is what side `b` measured; times and jitter as their printed text gives them. */
  predicate Knows(a: Stream, b: Stream, bHas: int) {
    && a.peerPackets == b.packets && a.peerOmittedPackets == b.omittedPackets && a.peerElapsed == R.Arrival(b.elapsed)
    && if b.sender then a.sent == b.sent - b.sentOmit && a.retrans == (if bHas != 0 then b.retrans else -1)
       else
         && a.received == b.received && a.errors == b.errors && a.omittedErrors == b.omittedErrors
         && a.jitter == R.Arrival(b.jitter)
  }

  predicate AllKnow(a: Test, b: Test) {
    && |a.streams| == |b.streams|
    && a.remoteCpu == (R.Arrival(b.cpu.0), R.Arrival(b.cpu.1), R.Arrival(b.cpu.2))
    && forall i :: 0 <= i < |a.streams| ==> Knows(a.streams[i], b.streams[i], b.hasRetransmits)
  }

  /** No sender in a receiving test, no receiver in a sending one. */
  predicate ModeFits(t: Test) {
    forall i :: 0 <= i < |t.streams| ==> (t.mode == Receiver ==> !t.streams[i].sender)
  }

  /** Being told the results makes a side know them, and does not change what it measured itself. */
  lemma {:induction false} ToldKnows(mine: Test, theirs: Test)
    requires Facing(mine.streams, theirs.streams)
    ensures AllKnow(Told(mine, theirs), theirs)
    ensures AllKnow(theirs, mine) && ModeFits(mine) ==> AllKnow(theirs, Told(mine, theirs))
  {
    hide Absorb;
    var told := Told(mine, theirs);
    forall i | 0 <= i < |mine.streams|
      ensures Knows(told.streams[i], theirs.streams[i], theirs.hasRetransmits)
    {
      AbsorbKnows(mine.streams[i], theirs.streams[i], theirs.hasRetransmits);
    }
    if AllKnow(theirs, mine) && ModeFits(mine) {
      forall i | 0 <= i < |mine.streams|
        ensures Knows(theirs.streams[i], told.streams[i], told.hasRetransmits)
      {
        AbsorbKeeps(theirs.streams[i], mine.streams[i], mine.hasRetransmits, told.hasRetransmits,
                    ReportOf(theirs.streams[i], theirs.hasRetransmits));
      }
    }
  }

  lemma {:induction false} AbsorbKnows(a: Stream, b: Stream, has: int)
    requires a.sender != b.sender
    ensures Knows(Absorb(a, ReportOf(b, has)), b, has)
  {
  }

  lemma {:induction false} AbsorbKeeps(a: Stream, b: Stream, has: int, has': int, r: Report)
    requires a.sender != b.sender && Knows(a, b, has) && (b.sender ==> has == has')
    ensures Knows(a, Absorb(b, r), has')
  {
  }

  /**
   The receiver of a stream holds what the sender has sent outside the omitted time,
   and its retransmits if the sender's test counts them; the sender holds what the
   receiver has received, its errors, and its jitter as printed.
   */
  predicate Settled(sender: Stream, receiver: Stream, has: int) {
    && receiver.sent == sender.sent - sender.sentOmit && sender.received == receiver.received
    && receiver.retrans == (if has != 0 then sender.retrans else -1)
    && sender.errors == receiver.errors && sender.omittedErrors == receiver.omittedErrors
    && sender.jitter == R.Arrival(receiver.jitter)
  }

  /** Both ends of every stream hold the same totals. */
  predicate SameTotals(a: Test, b: Test) {
    && |a.streams| == |b.streams|
    && forall i :: 0 <= i < |a.streams| ==>
         if a.streams[i].sender then Settled(a.streams[i], b.streams[i], a.hasRetransmits)
         else Settled(b.streams[i], a.streams[i], b.hasRetransmits)
  }

  /** Once both sides know each other's results, they hold the same totals for every stream. */
  lemma {:induction false} KnowingIsAgreeing(a: Test, b: Test)
    requires Facing(a.streams, b.streams) && AllKnow(a, b) && AllKnow(b, a)
    ensures SameTotals(a, b)
  {
    hide R.Arrival;
    forall i | 0 <= i < |a.streams|
      ensures if a.streams[i].sender then Settled(a.streams[i], b.streams[i], a.hasRetransmits)
              else Settled(b.streams[i], a.streams[i], b.hasRetransmits)
    {
      assert Knows(a.streams[i], b.streams[i], b.hasRetransmits);
      assert Knows(b.streams[i], a.streams[i], a.hasRetransmits);
    }
  }

  /** Being told the results keeps the counters in their ranges. */
  lemma {:induction false} ToldIsValid(mine: Test, theirs: Test)
    requires ValidTest(mine) && ValidTest(theirs) && Facing(mine.streams, theirs.streams)
    ensures ValidTest(Told(mine, theirs)) && Facing(Told(mine, theirs).streams, theirs.streams)
    ensures ModeFits(mine) ==> ModeFits(Told(mine, theirs))
  {
    hide ValidExtras;
  }

  // ---------- The document fits its frame ----------

  lemma {:induction false} EscapedSize(s: bytes)
    requires 0 !in s
    ensures |R.Escaped(s)| <= 6 * |s|
  {
    if s == [] {
    } else {
      EscapedSize(s[1..]);
    }
  }

  lemma {:induction false} MembersSize(ms: seq<Member>, depth: nat, bound: nat)
    requires AllPrintable(ms)
    requires forall i :: 0 <= i < |ms| ==> |ms[i].name| <= 22 && |R.Render(ms[i].value, false, depth)| <= bound
    ensures R.PrintableMembers(ms) && |R.RenderMembers(ms, false, depth)| <= |ms| * (bound + 136)
  {
    hide R.Render, R.Printable, R.RenderMembers;
    PrintableObject(ms);
    if ms == [] {
      NoMembers(depth);
    } else {
      var rest := ms[1..];
      assert forall i :: 0 <= i < |rest| ==> rest[i] == ms[i + 1];
      MemberSize(ms, depth);
      MembersSize(rest, depth, bound);
      assert |ms| * (bound + 136) == |rest| * (bound + 136) + (bound + 136);
    }
  }

  lemma {:induction false} MemberSize(ms: seq<Member>, depth: nat)
    requires ms != [] && R.PrintableMembers(ms)
    ensures |R.RenderMembers(ms, false, depth)| <=
            6 * |ms[0].name| + 4 + |R.Render(ms[0].value, false, depth)| + |R.RenderMembers(ms[1..], false, depth)|
  {
    hide R.Render, R.Printable, R.Escaped;
    EscapedSize(ms[0].name);
  }

  lemma {:induction false} NoMembers(depth: nat)
    ensures R.RenderMembers([], false, depth) == []
  {
  }

  lemma {:induction false} ItemsSize(items: seq<Value>, depth: nat, bound: nat)
    requires forall i :: 0 <= i < |items| ==> R.Printable(items[i]) && |R.Render(items[i], false, depth)| <= bound
    ensures R.PrintableItems(items) && |R.RenderItems(items, false, depth)| <= |items| * (bound + 1)
  {
    hide R.Render, R.Printable;
    R.PrintableArray(items);
    if items == [] {
    } else {
      var rest := items[1..];
      assert forall i :: 0 <= i < |rest| ==> rest[i] == items[i + 1];
      ItemsSize(rest, depth, bound);
    }
  }

  lemma {:induction false} NumberSize(x: real, depth: nat)
    ensures |R.Render(Number(x), false, depth)| <= R.NUMBER_MAX
  {
    R.NumberSpells(x);
  }

  lemma {:induction false} StreamSize(s: Stream, has: int, depth: nat)
    requires InRange(s)
    ensures R.Printable(Object(StreamMembers(s, has)))
    ensures |R.Render(Object(StreamMembers(s, has)), false, depth)| <= 1612
  {
    hide R.RenderMembers, InRange, R.PrintableMembers, R.Printable;
    var ms := StreamMembers(s, has);
    StreamPrintable(s, has);
    NumbersOnly(s, has, depth);
    MembersSize(ms, depth + 1, R.NUMBER_MAX);
    ObjectSize(ms, depth);
  }

  lemma {:induction false} ObjectSize(ms: seq<Member>, depth: nat)
    requires R.PrintableMembers(ms)
    ensures R.Printable(Object(ms))
    ensures |R.Render(Object(ms), false, depth)| == |R.RenderMembers(ms, false, depth + 1)| + 2
  {
  }

  lemma {:induction false} NumbersOnly(s: Stream, has: int, depth: nat)
    requires InRange(s)
    ensures AllPrintable(StreamMembers(s, has))
    ensures var ms := StreamMembers(s, has);
            forall i :: 0 <= i < |ms| ==> |ms[i].name| <= 22 && |R.Render(ms[i].value, false, depth + 1)| <= R.NUMBER_MAX
  {
    hide R.Render, R.Printable, InRange;
    StreamPrintable(s, has);
    var ms := StreamMembers(s, has);
    assert forall i :: 0 <= i < |ms| ==> |ms[i].name| <= 22;
    forall i | 0 <= i < |ms| ensures |R.Render(ms[i].value, false, depth + 1)| <= R.NUMBER_MAX {
      assert ms[i].value.Number?;
      NumberSize(ms[i].value.number, depth + 1);
    }
  }

  lemma {:induction false} DocsSize(streams: seq<Stream>, has: int, depth: nat)
    requires AllInRange(streams)
    ensures R.Printable(Array(StreamDocs(streams, has)))
    ensures |R.Render(Array(StreamDocs(streams, has)), false, depth)| <= |streams| * 1613 + 2
  {
    hide R.RenderItems, R.PrintableMembers, InRange, StreamMembers;
    var docs := StreamDocs(streams, has);
    forall i | 0 <= i < |docs|
      ensures R.Printable(docs[i]) && |R.Render(docs[i], false, depth + 1)| <= 1612
    {
      StreamSize(streams[i], has, depth + 1);
    }
    ItemsSize(docs, depth + 1, 1612);
  }

  lemma {:induction false} MembersDepthBound(ms: seq<Member>, bound: nat)
    requires forall i :: 0 <= i < |ms| ==> Depth(ms[i].value) <= bound
    ensures MembersDepth(ms) <= bound
  {
    hide Depth;
    if ms == [] {
    } else {
      var rest := ms[1..];
      assert forall i :: 0 <= i < |rest| ==> rest[i] == ms[i + 1];
      MembersDepthBound(rest, bound);
    }
  }

  lemma {:induction false} ItemsDepthBound(items: seq<Value>, bound: nat)
    requires forall i :: 0 <= i < |items| ==> Depth(items[i]) <= bound
    ensures ItemsDepth(items) <= bound
  {
    hide Depth;
    if items == [] {
    } else {
      var rest := items[1..];
      assert forall i :: 0 <= i < |rest| ==> rest[i] == items[i + 1];
      ItemsDepthBound(rest, bound);
    }
  }

  lemma {:induction false} DocsDepth(streams: seq<Stream>, has: int)
    ensures Depth(Array(StreamDocs(streams, has))) <= 2
  {
    var docs := StreamDocs(streams, has);
    forall i | 0 <= i < |docs| ensures Depth(docs[i]) <= 1 {
      var ms := StreamMembers(streams[i], has);
      forall j | 0 <= j < |ms| ensures Depth(ms[j].value) <= 0 {
        assert ms[j].value.Number?;
      }
      MembersDepthBound(ms, 0);
    }
    ItemsDepthBound(docs, 1);
  }

  /** The results of any test with at most MAX_STREAMS streams in each direction fit one frame. */
  lemma {:induction false} ResultsFit(t: Test)
    requires ValidTest(t)
    ensures Fits(ResultsDoc(t))
  {
    hide R.Printable, R.Render, InRange, StreamDocs, Depth, R.PrintableMembers, R.RenderMembers, AllPrintable;
    var ms := ResultsDoc(t).members;
    ResultsPrintable(t);
    DocsSize(t.streams, t.hasRetransmits, 1);
    DocsDepth(t.streams, t.hasRetransmits);
    HeadSizes(t);
    var last := [Member(STREAMS, Array(StreamDocs(t.streams, t.hasRetransmits)))];
    OnePrintable(last[0]);
    SizesBetween(Head(t), t.extras, last);
    MembersSize(ms, 1, 0x1000_0000);
    ObjectSize(ms, 0);
    MembersDepthBound(ms, 900);
    ObjectDepth(ms);
  }

  lemma {:induction false} ObjectDepth(ms: seq<Member>)
    ensures Depth(Object(ms)) == 1 + MembersDepth(ms)
  {
  }

  predicate Sizes(ms: seq<Member>) {
    && AllPrintable(ms)
    && forall i :: 0 <= i < |ms| ==>
         |ms[i].name| <= 22 && |R.Render(ms[i].value, false, 1)| <= 0x1000_0000 && Depth(ms[i].value) <= 900
  }

  lemma {:induction false} SizesBetween(a: seq<Member>, b: seq<Member>, c: seq<Member>)
    requires Sizes(a) && Sizes(b) && Sizes(c)
    ensures Sizes(a + b + c)
  {
  }

  lemma {:induction false} HeadSizes(t: Test)
    requires ValidTest(t)
    ensures Sizes(Head(t))
  {
    hide R.Render, R.Printable, InRange;
    HeadPrintable(t);
    var ms := Head(t);
    forall i | 0 <= i < |ms| ensures |R.Render(ms[i].value, false, 1)| <= R.NUMBER_MAX && Depth(ms[i].value) <= 900 {
      assert ms[i].value.Number?;
      NumberSize(ms[i].value.number, 1);
    }
  }
}
