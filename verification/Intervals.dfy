/** Interval accounting: what sends, receives, stats callbacks and the end of omitting do to the counters of a test. */
module Intervals {
  import U = UdpLoss

  datatype Interval = Interval(bytes: nat, omitted: bool, start: nat, end: nat,
                               packets: int, errors: int, outOfOrder: int,
                               packetCount: int, cntError: int, outOfOrderCount: int, retrans: int)

  datatype Stream = Stream(sender: bool, sent: nat, sentNow: nat, sentOmit: nat, received: nat, receivedNow: nat,
                           packetCount: nat, cntError: nat, outOfOrder: nat, omittedPackets: nat, omittedErrors: nat,
                           omittedOutOfOrder: nat, start: nat, end: nat, retrans: int, lastTotal: int, intervals: seq<Interval>)

  // ---------- Steps of one stream ----------

  /**
   What a test measures: UDP counters, or for TCP the retransmits that the system
   reports, where it does so.
   */
  datatype Kind = Udp | Tcp(retransmits: bool)

  /** The interval that iperf_stats_callback adds; `total` is the system's count of retransmits so far. */
  function NextInterval(s: Stream, omitting: bool, kind: Kind, now: nat, total: int): Interval {
    var bytes := if s.sender then s.sentNow else s.receivedNow;
    var n := |s.intervals|;
    var start := if n > 0 then s.end else s.start;
    if kind.Tcp? then
      Interval(bytes, omitting, start, now, 0, 0, 0, 0, 0, 0, if kind.retransmits then total - s.lastTotal else 0)
    else if n == 0 then
      Interval(bytes, omitting, start, now, s.packetCount, s.cntError, s.outOfOrder,
               s.packetCount, s.cntError, s.outOfOrder, 0)
    else
      var last := s.intervals[n - 1];
      Interval(bytes, omitting, start, now, s.packetCount - last.packetCount, s.cntError - last.cntError,
               s.outOfOrder - last.outOfOrderCount, s.packetCount, s.cntError, s.outOfOrder, 0)
  }

  function Closed(s: Stream, omitting: bool, kind: Kind, now: nat, total: int): Stream {
    var i := NextInterval(s, omitting, kind, now, total);
    s.(intervals := s.intervals + [i], end := now, sentNow := 0, receivedNow := 0, retrans := s.retrans + i.retrans,
       lastTotal := if kind == Tcp(true) then total else s.lastTotal)
  }

  /** iperf_reset_stats */
  function Reset(s: Stream, kind: Kind, now: nat, total: int): Stream {
    s.(omittedPackets := s.packetCount, omittedErrors := s.cntError, omittedOutOfOrder := s.outOfOrder,
       sentOmit := s.sent, received := 0, sentNow := 0, receivedNow := 0, start := now, retrans := 0,
       lastTotal := if kind == Tcp(true) then total else s.lastTotal)
  }

  // ---------- The balance ----------

  function KeptBytes(list: seq<Interval>): nat {
    if list == [] then 0
    else KeptBytes(list[..|list| - 1]) + if list[|list| - 1].omitted then 0 else list[|list| - 1].bytes
  }

  function KeptRetrans(list: seq<Interval>): int {
    if list == [] then 0
    else KeptRetrans(list[..|list| - 1]) + if list[|list| - 1].omitted then 0 else list[|list| - 1].retrans
  }

  function Packets(list: seq<Interval>): int {
    if list == [] then 0 else Packets(list[..|list| - 1]) + list[|list| - 1].packets
  }

  function Errors(list: seq<Interval>): int {
    if list == [] then 0 else Errors(list[..|list| - 1]) + list[|list| - 1].errors
  }

  function OutOfOrder(list: seq<Interval>): int {
    if list == [] then 0 else OutOfOrder(list[..|list| - 1]) + list[|list| - 1].outOfOrder
  }

  /** What the final report gives as the bytes of a stream. */
  function Reported(s: Stream): int { if s.sender then s.sent - s.sentOmit else s.received }

  function Partial(s: Stream): nat { if s.sender then s.sentNow else s.receivedNow }

  /**
   The intervals that count, and the one under way, add up to what is reported, and
   their retransmits to those of the stream.
   */
  predicate Balanced(s: Stream, omitting: bool) {
    if omitting then KeptBytes(s.intervals) == 0 && s.sentOmit == 0 && KeptRetrans(s.intervals) == 0
    else KeptBytes(s.intervals) + Partial(s) == Reported(s) && KeptRetrans(s.intervals) == s.retrans
  }

  /** The packet and error counts of the intervals add up to the counters at the last callback. */
  predicate Telescopes(s: Stream, kind: Kind) {
    kind.Udp? ==>
      var n := |s.intervals|;
      && Packets(s.intervals) == (if n == 0 then 0 else s.intervals[n - 1].packetCount)
      && Errors(s.intervals) == (if n == 0 then 0 else s.intervals[n - 1].cntError)
      && OutOfOrder(s.intervals) == (if n == 0 then 0 else s.intervals[n - 1].outOfOrderCount)
  }

  /** Each interval starts where the one before it ended. */
  predicate Tiled(s: Stream) {
    && (s.intervals != [] ==> s.intervals[|s.intervals| - 1].end == s.end)
    && forall i :: 1 <= i < |s.intervals| ==> s.intervals[i].start == s.intervals[i - 1].end
  }

  /** The retransmits of a stream are what the system counted since `base`, if it counts them at all. */
  predicate Based(s: Stream, kind: Kind, base: int) {
    s.retrans == if kind == Tcp(true) then s.lastTotal - base else 0
  }

  predicate Sound(s: Stream, omitting: bool, kind: Kind, base: int) {
    Balanced(s, omitting) && Telescopes(s, kind) && Tiled(s) && Based(s, kind, base)
  }

  /** The interval that was just closed: what was transferred, and when. */
  predicate Follows(s: Stream, last: Interval, omitting: bool, now: nat) {
    && last.bytes == Partial(s) && last.omitted == omitting && last.end == now
    && last.start == (if s.intervals == [] then s.start else s.end)
  }

  /**
   What a callback makes of a stream: one more interval, and sums over the intervals
   that agree with what is reported, with the counters, and with the system's total.
   */
  predicate Reckoned(s: Stream, c: Stream, omitting: bool, kind: Kind, now: nat, total: int, base: int) {
    && |c.intervals| == |s.intervals| + 1 && c.intervals[..|s.intervals|] == s.intervals
    && Follows(s, c.intervals[|s.intervals|], omitting, now)
    && Reported(c) == Reported(s) && c.sent == s.sent && c.received == s.received && Partial(c) == 0
    && (!omitting ==> KeptBytes(c.intervals) == Reported(c) && KeptRetrans(c.intervals) == c.retrans)
    && c.retrans == (if kind == Tcp(true) then total - base else 0)
    && (kind.Udp? ==>
          && Packets(c.intervals) == s.packetCount == c.packetCount
          && Errors(c.intervals) == s.cntError == c.cntError
          && OutOfOrder(c.intervals) == s.outOfOrder == c.outOfOrder)
  }

  lemma {:induction false} ClosedIsSound(s: Stream, omitting: bool, kind: Kind, now: nat, total: int, base: int)
    requires Sound(s, omitting, kind, base)
    ensures var c := Closed(s, omitting, kind, now, total);
            Sound(c, omitting, kind, base) && Reckoned(s, c, omitting, kind, now, total, base)
  {
    hide KeptBytes, KeptRetrans, Packets, Errors, OutOfOrder;
    SumsWithLast(s.intervals, NextInterval(s, omitting, kind, now, total));
  }

  lemma {:induction false} SumsWithLast(list: seq<Interval>, i: Interval)
    ensures var r := list + [i];
            && KeptBytes(r) == KeptBytes(list) + (if i.omitted then 0 else i.bytes)
            && KeptRetrans(r) == KeptRetrans(list) + (if i.omitted then 0 else i.retrans)
            && Packets(r) == Packets(list) + i.packets && Errors(r) == Errors(list) + i.errors
            && OutOfOrder(r) == OutOfOrder(list) + i.outOfOrder
            && (list == [] ==> Packets(list) == 0 && Errors(list) == 0 && OutOfOrder(list) == 0)
  {
    assert (list + [i])[..|list|] == list;
  }

  /** The start over: nothing is reported yet, and retransmits count from the system's total on. */
  predicate Restarted(s: Stream, c: Stream, now: nat) {
    && Reported(c) == 0 && Partial(c) == 0 && c.retrans == 0 && c.intervals == s.intervals
    && c.omittedPackets == s.packetCount == c.packetCount && c.omittedErrors == s.cntError == c.cntError
    && c.omittedOutOfOrder == s.outOfOrder == c.outOfOrder && c.sent == s.sent && c.start == now
  }

  lemma {:induction false} ResetIsSound(s: Stream, kind: Kind, now: nat, total: int, base: int)
    requires Sound(s, true, kind, base)
    ensures var c := Reset(s, kind, now, total);
            Sound(c, false, kind, total) && Restarted(s, c, now)
  {
  }

  class Test {
    const kind: Kind
    const streams: array<Stream>
    var omitting: bool
    var running: bool
    /** The system's counts of retransmits from which those of the streams are counted. */
    ghost var base: seq<int>

    ghost predicate Valid()
      reads this, streams
    {
      |base| == streams.Length && forall i :: 0 <= i < streams.Length ==> Sound(streams[i], omitting, kind, base[i])
    }

    /** The start of a test; with a time to omit, measuring begins in omitting mode. */
    constructor (kind: Kind, senders: seq<bool>, omit: nat, now: nat)
      ensures Valid() && fresh(streams) && streams.Length == |senders| && running && (omitting <==> omit != 0)
      ensures this.kind == kind && forall i :: 0 <= i < |senders| ==>
                base[i] == 0 && streams[i] == Stream(senders[i], 0, 0, 0, 0, 0, 0, 0, 0, 0, 0, 0, now, now, 0, 0, [])
    {
      this.kind := kind;
      streams := new Stream[|senders|](i requires 0 <= i < |senders| =>
        Stream(senders[i], 0, 0, 0, 0, 0, 0, 0, 0, 0, 0, 0, now, now, 0, 0, []));
      omitting, running := omit != 0, true;
      base := seq(|senders|, _ => 0);
    }

    /** The counters of iperf_tcp_send and iperf_udp_send; `r` is what the socket took, negative for an error. */
    method Send(k: nat, r: int)
      requires Valid() && k < streams.Length
      modifies streams
      ensures Valid()
      ensures var s, taken := old(streams[k]), if r >= 0 then r else 0;
              streams[..] == old(streams[..])[k := s.(
                sent := s.sent + taken, sentNow := s.sentNow + taken,
                packetCount := if kind.Udp? then s.packetCount + 1 else s.packetCount)]
    {
      hide KeptBytes, KeptRetrans, Packets, Errors, OutOfOrder;
      if kind.Udp? {
        streams[k] := streams[k].(packetCount := streams[k].packetCount + 1);
      }
      if r >= 0 {
        streams[k] := streams[k].(sent := streams[k].sent + r, sentNow := streams[k].sentNow + r);
      }
    }

    /** The counters of iperf_tcp_recv and iperf_udp_recv; `pcount` is the number in a UDP packet. */
    method Receive(k: nat, r: nat, pcount: nat)
      requires Valid() && k < streams.Length
      modifies streams
      ensures Valid()
      ensures var s := old(streams[k]);
              var c := U.Counters(s.packetCount, s.cntError, s.outOfOrder);
              var c' := if kind.Udp? then U.Count(c, pcount) else c;
              streams[..] ==
              if !running || (kind.Udp? && r == 0) then old(streams[..])
              else old(streams[..])[k := s.(
                received := s.received + r, receivedNow := s.receivedNow + r,
                packetCount := c'.packetCount, cntError := c'.cntError, outOfOrder := c'.outOfOrder)]
    {
      hide KeptBytes, KeptRetrans, Packets, Errors, OutOfOrder, U.Count;
      if kind.Udp? && r == 0 {
        return;
      }
      if running {
        streams[k] := streams[k].(received := streams[k].received + r, receivedNow := streams[k].receivedNow + r);
        if kind.Udp? {
          var c := U.Count(U.Counters(streams[k].packetCount, streams[k].cntError, streams[k].outOfOrder), pcount);
          streams[k] := streams[k].(packetCount := c.packetCount, cntError := c.cntError, outOfOrder := c.outOfOrder);
        }
      }
    }

    /** iperf_stats_callback; `totals` are the counts of retransmits that the system gives for the streams. */
    method StatsCallback(now: nat, totals: seq<int>)
      requires Valid() && |totals| == streams.Length
      modifies streams
      ensures Valid() && forall i :: 0 <= i < streams.Length ==>
                Reckoned(old(streams[i]), streams[i], omitting, kind, now, totals[i], base[i])
    {
      hide Closed, Sound, Reckoned;
      for k := 0 to streams.Length
        invariant forall i :: 0 <= i < k ==> streams[i] == Closed(old(streams[i]), omitting, kind, now, totals[i])
        invariant forall i :: k <= i < streams.Length ==> streams[i] == old(streams[i])
      {
        streams[k] := Closed(streams[k], omitting, kind, now, totals[k]);
      }
      forall i | 0 <= i < streams.Length
        ensures Sound(streams[i], omitting, kind, base[i])
        ensures Reckoned(old(streams[i]), streams[i], omitting, kind, now, totals[i], base[i])
      {
        ClosedIsSound(old(streams[i]), omitting, kind, now, totals[i], base[i]);
      }
    }

    /**
     The end of the test: a last callback, and then TEST_RUNNING is left. What is
     received later is not counted.
     */
    method EndTest(now: nat, totals: seq<int>)
      requires Valid() && |totals| == streams.Length
      modifies `running, streams
      ensures Valid() && !running && forall i :: 0 <= i < streams.Length ==>
                Reckoned(old(streams[i]), streams[i], omitting, kind, now, totals[i], base[i])
    {
      hide Sound, Reckoned;
      StatsCallback(now, totals);
      running := false;
    }

    /** The omit timer: omitting ends and the statistics start over. */
    method EndOmitting(now: nat, totals: seq<int>)
      requires Valid() && omitting && |totals| == streams.Length
      modifies `omitting, `base, streams
      ensures Valid() && !omitting && base == totals
      ensures forall i :: 0 <= i < streams.Length ==> Restarted(old(streams[i]), streams[i], now)
    {
      hide Reset, Sound, Restarted;
      omitting := false;
      for k := 0 to streams.Length
        invariant !omitting
        invariant forall i :: 0 <= i < k ==> streams[i] == Reset(old(streams[i]), kind, now, totals[i])
        invariant forall i :: k <= i < streams.Length ==> streams[i] == old(streams[i])
      {
        streams[k] := Reset(streams[k], kind, now, totals[k]);
      }
      forall i | 0 <= i < streams.Length
        ensures Sound(streams[i], false, kind, totals[i]) && Restarted(old(streams[i]), streams[i], now)
      {
        ResetIsSound(old(streams[i]), kind, now, totals[i], old(base[i]));
      }
      base := totals;
    }
  }
}
