/**
 Rate pacing: iperf_check_throttle, iperf_send, the send timer, and the send
 functions of TCP and UDP. Elapsed time is in seconds since the start of a stream,
 in exact arithmetic.
 */
module Pacing {
  import opened Arithmetic

  datatype Settings = Settings(rate: nat, burst: nat, blksize: nat, udp: bool, bytes: nat, blocks: nat)

  /** The part of a stream that pacing looks at. */
  datatype Paced = Paced(sender: bool, bytesSent: nat, pending: nat, green: bool)

  /** iperf_check_throttle, with its integer number of bits per second */
  function Throttle(rate: nat, s: Paced, elapsed: real): Paced
    requires elapsed > 0.0
  {
    if rate == 0 then s
    else
      var bitsPerSecond := (s.bytesSent as real * 8.0 / elapsed).Floor;
      s.(green := bitsPerSecond < rate)
  }

  /** What a send function does when the socket took `r` bytes. */
  function Sent(st: Settings, s: Paced, r: nat): Paced
    requires r <= Offered(st, s)
  {
    if st.udp then s.(bytesSent := s.bytesSent + r)
    else s.(bytesSent := s.bytesSent + r, pending := Offered(st, s) - r)
  }

  /** What a send function leaves when the write fails: a block on offer stays on offer. */
  function Refused(st: Settings, s: Paced): Paced { if st.udp then s else s.(pending := Offered(st, s)) }

  /** How many bytes a send function offers to the socket: a block, or what is left of one. */
  function Offered(st: Settings, s: Paced): nat {
    if st.udp || s.pending == 0 then st.blksize else s.pending
  }

  function Least(a: nat, b: nat): nat { if a < b then a else b }

  function Bursts(st: Settings): nat { if st.burst == 0 then 1 else st.burst }

  // ---------- The bound ----------

  /** The bits sent are at most `ahead` blocks more than the target rate, if there is one, allows by now. */
  predicate Within(st: Settings, s: Paced, elapsed: real, ahead: nat) {
    st.rate > 0 ==> 8.0 * s.bytesSent as real <= st.rate as real * elapsed + 8.0 * (st.blksize * ahead) as real
  }

  /** The bound, and at most `unchecked` blocks since the stream was last below its target rate. */
  predicate Rolling(st: Settings, s: Paced, elapsed: real, unchecked: nat) {
    && s.pending <= st.blksize
    && Within(st, s, elapsed, Bursts(st))
    && (s.green && s.sender ==> Within(st, s, elapsed, unchecked))
  }

  lemma {:induction false} FloorBelow(x: real, n: nat)
    ensures x.Floor < n <==> x < n as real
  {
  }

  /** A check gives the green light exactly when the stream is below its target rate; without one nothing changes. */
  lemma {:induction false} ThrottleDecides(rate: nat, s: Paced, elapsed: real)
    requires elapsed > 0.0
    ensures var t := Throttle(rate, s, elapsed);
            && t.bytesSent == s.bytesSent && t.pending == s.pending && t.sender == s.sender
            && (t.green <==> if rate == 0 then s.green else 8.0 * s.bytesSent as real < rate as real * elapsed)
  {
    var bits := s.bytesSent as real * 8.0;
    FloorBelow(bits / elapsed, rate);
    DivideBelow(bits, elapsed, rate as real);
  }

  lemma {:induction false} DivideBelow(a: real, b: real, c: real)
    requires b > 0.0
    ensures a / b < c <==> a < c * b
  {
    var q := a / b;
    assert q * b == a;
    if q < c {
      assert q * b < c * b;
    }
    if q >= c {
      assert q * b >= c * b;
    }
  }

  lemma {:induction false} Later(st: Settings, s: Paced, t: real, t': real, ahead: nat)
    requires Within(st, s, t, ahead) && t <= t'
    ensures Within(st, s, t', ahead)
  {
    assert st.rate as real * t <= st.rate as real * t';
  }

  /** A round of sends on one stream keeps the bound as long as no more than a burst goes unchecked. */
  lemma {:induction false} SendRolls(st: Settings, s: Paced, t: real, unchecked: nat, r: nat)
    requires Rolling(st, s, t, unchecked) && s.green && s.sender && r <= Offered(st, s)
    requires st.rate > 0 ==> unchecked < Bursts(st)
    ensures Rolling(st, Sent(st, s, r), t, unchecked + 1)
  {
    var blk := st.blksize;
    assert r <= blk;
    assert blk * (unchecked + 1) == blk * unchecked + blk;
    if st.rate > 0 {
      assert blk * (unchecked + 1) <= blk * Bursts(st) by {
        MulGrows(blk, unchecked + 1, Bursts(st));
      }
    }
  }

  lemma {:induction false} MulGrows(a: nat, b: nat, c: nat)
    requires b <= c
    ensures a * b <= a * c
  {
  }

  lemma {:induction false} MoreUnchecked(st: Settings, s: Paced, t: real, n: nat, n': nat)
    requires Rolling(st, s, t, n) && n <= n'
    ensures Rolling(st, s, t, n')
  {
    MulGrows(st.blksize, n, n');
  }

  /** A check settles whatever went unchecked. */
  lemma {:induction false} CheckSettles(st: Settings, s: Paced, t: real, n: nat)
    requires Rolling(st, s, t, n) && t > 0.0
    ensures Rolling(st, Throttle(st.rate, s, t), t, 0)
  {
    if st.rate > 0 {
      ThrottleDecides(st.rate, s, t);
    }
  }

  lemma {:induction false} LaterRolls(st: Settings, s: Paced, t: real, t': real, n: nat)
    requires Rolling(st, s, t, n) && t <= t'
    ensures Rolling(st, s, t', n)
  {
    if s.green && s.sender {
      Later(st, s, t, t', n);
    }
    Later(st, s, t, t', Bursts(st));
  }

  // ---------- Turns over the streams ----------

  const SOFT_ERROR: int := -1

  /**
   The streams and totals in the course of iperf_send, how many writes succeeded,
   whether a stream was active, and the error to return.
   */
  datatype Round = Round(streams: seq<Paced>, bytes: nat, blocks: nat, sends: nat, active: bool, r: int)

  /** The throttle is checked after each send, and not only at the end. */
  predicate PerSend(st: Settings) { st.rate != 0 && st.burst == 0 }

  /** The k-th stream sends to a socket that takes up to w bytes. */
  function SendOne(st: Settings, rd: Round, k: nat, w: nat, elapsed: real): (r: Round)
    requires k < |rd.streams| && elapsed > 0.0
    ensures |r.streams| == |rd.streams| && r.active && r.r == rd.r
  {
    var taken := Least(w, Offered(st, rd.streams[k]));
    var sent := Sent(st, rd.streams[k], taken);
    var next := if PerSend(st) then Throttle(st.rate, sent, elapsed) else sent;
    Round(rd.streams[k := next], rd.bytes + taken, if sent.pending == 0 then rd.blocks + 1 else rd.blocks,
          rd.sends + 1, true, rd.r)
  }

  /** One turn over the streams from the k-th on; the limits and errors of a write end it early. */
  function Turn(st: Settings, rd: Round, k: nat, ready: seq<bool>, writes: (nat, nat) -> int, turn: nat, left: nat,
                elapsed: real): (r: Round)
    requires k <= |rd.streams| == |ready| && elapsed > 0.0
    ensures |r.streams| == |rd.streams| && (r.r == rd.r || r.r < 0)
    decreases |ready| - k
  {
    if k == |ready| then rd
    else if !(rd.streams[k].green && rd.streams[k].sender && ready[k]) then
      Turn(st, rd, k + 1, ready, writes, turn, left, elapsed)
    else if left > 1 && st.bytes != 0 && rd.bytes >= st.bytes then rd
    else if left > 1 && st.blocks != 0 && rd.blocks >= st.blocks then rd
    else
      var w := writes(turn, k);
      if w < 0 then
        rd.(streams := rd.streams[k := Refused(st, rd.streams[k])], r := if w == SOFT_ERROR then rd.r else w)
      else Turn(st, SendOne(st, rd, k, w, elapsed), k + 1, ready, writes, turn, left, elapsed)
  }

  /** The turns of iperf_send, until none are left, no stream was active, or a write failed. */
  function Turns(st: Settings, rd: Round, ready: seq<bool>, writes: (nat, nat) -> int, turn: nat, left: nat,
                 elapsed: real): (r: Round)
    requires |rd.streams| == |ready| && elapsed > 0.0
    ensures |r.streams| == |rd.streams|
    decreases left
  {
    if left == 0 then rd
    else
      var r := Turn(st, rd.(active := false), 0, ready, writes, turn, left, elapsed);
      if r.r < 0 || !r.active then r else Turns(st, r, ready, writes, turn + 1, left - 1, elapsed)
  }

  /** The check of all senders at the end of a burst. */
  function Settled(st: Settings, ss: seq<Paced>, elapsed: real): (r: seq<Paced>)
    requires elapsed > 0.0
    ensures |r| == |ss|
    ensures forall i :: 0 <= i < |r| ==> r[i] == if ss[i].sender then Throttle(st.rate, ss[i], elapsed) else ss[i]
  {
    seq(|ss|, i requires 0 <= i < |ss| => if ss[i].sender then Throttle(st.rate, ss[i], elapsed) else ss[i])
  }

  function TurnCount(st: Settings, multisend: nat): nat {
    if st.burst != 0 then st.burst else if st.rate == 0 then multisend else 1
  }

  /** iperf_send as a whole. */
  function Sending(st: Settings, multisend: nat, rd: Round, ready: seq<bool>, writes: (nat, nat) -> int, elapsed: real)
    : (r: Round)
    requires |rd.streams| == |ready| && elapsed > 0.0
    ensures |r.streams| == |rd.streams|
  {
    var r := Turns(st, rd, ready, writes, 0, TurnCount(st, multisend), elapsed);
    if r.r < 0 || PerSend(st) then r else r.(streams := Settled(st, r.streams, elapsed))
  }

  // ---------- What a round keeps ----------

  /** The bytes of all streams. */
  function Total(ss: seq<Paced>): nat {
    if ss == [] then 0 else Total(ss[..|ss| - 1]) + ss[|ss| - 1].bytesSent
  }

  lemma {:induction false} TotalUpdate(ss: seq<Paced>, k: nat, s: Paced)
    requires k < |ss|
    ensures Total(ss[k := s]) == Total(ss) + s.bytesSent - ss[k].bytesSent
  {
    var n := |ss| - 1;
    if k == n {
      assert ss[k := s][..n] == ss[..n];
    } else {
      TotalUpdate(ss[..n], k, s);
      assert ss[k := s][..n] == ss[..n][k := s];
    }
  }

  lemma {:induction false} TotalSettled(st: Settings, ss: seq<Paced>, elapsed: real)
    requires elapsed > 0.0
    ensures Total(Settled(st, ss, elapsed)) == Total(ss)
  {
    if ss == [] {
    } else {
      var n := |ss| - 1;
      TotalSettled(st, ss[..n], elapsed);
      assert Settled(st, ss, elapsed)[..n] == Settled(st, ss[..n], elapsed);
    }
  }

  /** The first `k` streams have at most `done` unchecked blocks, the others at most `rest`. */
  ghost predicate AllRolling(st: Settings, ss: seq<Paced>, t: real, k: nat, done: nat, rest: nat) {
    forall i :: 0 <= i < |ss| ==> Rolling(st, ss[i], t, if i < k then done else rest)
  }

  /** Every stream is within the bound. */
  ghost predicate AllWithin(st: Settings, ss: seq<Paced>, t: real) {
    forall i :: 0 <= i < |ss| ==> Within(st, ss[i], t, Bursts(st))
  }

  lemma {:induction false} RollingIsWithin(st: Settings, ss: seq<Paced>, t: real, t': real, n: nat)
    requires AllRolling(st, ss, t, 0, 0, n) && t <= t'
    ensures AllWithin(st, ss, t')
  {
    hide Within;
    forall i | 0 <= i < |ss| ensures Within(st, ss[i], t', Bursts(st)) {
      Later(st, ss[i], t, t', Bursts(st));
    }
  }

  lemma {:induction false} AllLater(st: Settings, ss: seq<Paced>, t: real, t': real)
    requires AllRolling(st, ss, t, 0, 0, 0) && t <= t'
    ensures AllRolling(st, ss, t', 0, 0, 0)
  {
    hide Rolling;
    forall i | 0 <= i < |ss| ensures Rolling(st, ss[i], t', 0) {
      LaterRolls(st, ss[i], t, t', 0);
    }
  }

  /** The blocks that can go unchecked before and after a turn. */
  function Unchecked(st: Settings, turn: nat): nat { if PerSend(st) then 0 else turn }

  /** The time at which a turn is compared with the target rate: the check's, or that of the last check. */
  predicate Compared(st: Settings, t: real, elapsed: real) {
    elapsed > 0.0 && t <= elapsed && (PerSend(st) ==> t == elapsed)
  }

  /** One send: the bound holds at that moment, and the totals grow by the same amount. */
  lemma {:induction false} SendOneKeeps(st: Settings, rd: Round, k: nat, w: nat, t: real, elapsed: real, turn: nat)
    requires k < |rd.streams| && Compared(st, t, elapsed) && rd.streams[k].green && rd.streams[k].sender
    requires st.rate > 0 ==> turn < Bursts(st)
    requires AllRolling(st, rd.streams, t, k, Unchecked(st, turn + 1), Unchecked(st, turn))
    ensures var r := SendOne(st, rd, k, w, elapsed);
            && AllRolling(st, r.streams, t, k + 1, Unchecked(st, turn + 1), Unchecked(st, turn))
            && r.bytes - rd.bytes == Total(r.streams) - Total(rd.streams)
            && r.streams[k].bytesSent == rd.streams[k].bytesSent + Least(w, Offered(st, rd.streams[k]))
  {
    hide Rolling, Throttle, Sent;
    var s := rd.streams[k];
    var taken := Least(w, Offered(st, s));
    var sent := Sent(st, s, taken);
    var n := Unchecked(st, turn);
    SendRolls(st, s, t, n, taken);
    SentCounts(st, s, taken, elapsed);
    if PerSend(st) {
      CheckSettles(st, sent, t, n + 1);
    }
    var next := if PerSend(st) then Throttle(st.rate, sent, elapsed) else sent;
    TotalUpdate(rd.streams, k, next);
  }

  lemma {:induction false} SentCounts(st: Settings, s: Paced, r: nat, t: real)
    requires r <= Offered(st, s) && t > 0.0
    ensures Sent(st, s, r).bytesSent == Throttle(st.rate, Sent(st, s, r), t).bytesSent == s.bytesSent + r
  {
  }

  /** One turn, whether it comes to its end or not. */
  lemma {:induction false} TurnKeeps(st: Settings, rd: Round, k: nat, ready: seq<bool>, writes: (nat, nat) -> int,
                                     turn: nat, left: nat, t: real, elapsed: real)
    requires k <= |rd.streams| == |ready| && Compared(st, t, elapsed) && (st.rate > 0 ==> turn < Bursts(st))
    requires AllRolling(st, rd.streams, t, k, Unchecked(st, turn + 1), Unchecked(st, turn))
    ensures var r := Turn(st, rd, k, ready, writes, turn, left, elapsed);
            && AllRolling(st, r.streams, t, 0, 0, Unchecked(st, turn + 1))
            && r.bytes - rd.bytes == Total(r.streams) - Total(rd.streams)
    decreases |ready| - k
  {
    hide AllRolling, Rolling, Total, SendOne;
    TurnEnds(st, rd.streams, t, k, Unchecked(st, turn + 1), Unchecked(st, turn));
    if k < |ready| {
      if !(rd.streams[k].green && rd.streams[k].sender && ready[k]) {
        Passed(st, rd.streams, t, k, Unchecked(st, turn + 1), Unchecked(st, turn));
        TurnKeeps(st, rd, k + 1, ready, writes, turn, left, t, elapsed);
      } else if writes(turn, k) >= 0 {
        var w := writes(turn, k);
        SendOneKeeps(st, rd, k, w, t, elapsed, turn);
        TurnKeeps(st, SendOne(st, rd, k, w, elapsed), k + 1, ready, writes, turn, left, t, elapsed);
      } else {
        RefusedRolls(st, rd.streams, k, t, Unchecked(st, turn + 1));
      }
    }
  }

  lemma {:induction false} RefusedStays(st: Settings, s: Paced, t: real, n: nat)
    requires Rolling(st, s, t, n)
    ensures Rolling(st, Refused(st, s), t, n)
  {
  }

  lemma {:induction false} RefusedRolls(st: Settings, ss: seq<Paced>, k: nat, t: real, n: nat)
    requires k < |ss| && AllRolling(st, ss, t, 0, 0, n)
    ensures AllRolling(st, ss[k := Refused(st, ss[k])], t, 0, 0, n)
    ensures Total(ss[k := Refused(st, ss[k])]) == Total(ss)
  {
    hide Rolling, Total;
    TotalUpdate(ss, k, Refused(st, ss[k]));
    RefusedStays(st, ss[k], t, n);
  }

  lemma {:induction false} TurnEnds(st: Settings, ss: seq<Paced>, t: real, k: nat, done: nat, rest: nat)
    requires AllRolling(st, ss, t, k, done, rest) && rest <= done
    ensures AllRolling(st, ss, t, 0, 0, done)
  {
    hide Rolling;
    forall i | 0 <= i < |ss| ensures Rolling(st, ss[i], t, done) {
      MoreUnchecked(st, ss[i], t, if i < k then done else rest, done);
    }
  }

  /** A stream that is passed over stays as it is. */
  lemma {:induction false} Passed(st: Settings, ss: seq<Paced>, t: real, k: nat, done: nat, rest: nat)
    requires k < |ss| && rest <= done && AllRolling(st, ss, t, k, done, rest)
    ensures AllRolling(st, ss, t, k + 1, done, rest)
  {
    hide Rolling;
    MoreUnchecked(st, ss[k], t, rest, done);
  }

  lemma {:induction false} TurnStarts(st: Settings, ss: seq<Paced>, t: real, done: nat, rest: nat)
    requires AllRolling(st, ss, t, 0, 0, rest)
    ensures AllRolling(st, ss, t, 0, done, rest)
  {
  }

  /** All turns: at most a burst of blocks goes unchecked. Returns how many. */
  lemma {:induction false} TurnsKeep(st: Settings, rd: Round, ready: seq<bool>, writes: (nat, nat) -> int,
                                     turn: nat, left: nat, t: real, elapsed: real) returns (n: nat)
    requires |rd.streams| == |ready| && Compared(st, t, elapsed) && (st.rate > 0 ==> turn + left == Bursts(st))
    requires AllRolling(st, rd.streams, t, 0, 0, Unchecked(st, turn))
    ensures var r := Turns(st, rd, ready, writes, turn, left, elapsed);
            && AllRolling(st, r.streams, t, 0, 0, n) && (PerSend(st) ==> n == 0)
            && r.bytes - rd.bytes == Total(r.streams) - Total(rd.streams)
    decreases left
  {
    hide AllRolling, Total, Turn;
    n := Unchecked(st, turn);
    if left == 0 {
    } else {
      var start := rd.(active := false);
      TurnStarts(st, rd.streams, t, Unchecked(st, turn + 1), n);
      TurnKeeps(st, start, 0, ready, writes, turn, left, t, elapsed);
      var r := Turn(st, start, 0, ready, writes, turn, left, elapsed);
      n := Unchecked(st, turn + 1);
      if !(r.r < 0 || !r.active) {
        n := TurnsKeep(st, r, ready, writes, turn + 1, left - 1, t, elapsed);
      }
    }
  }

  lemma {:induction false} SettledRolls(st: Settings, ss: seq<Paced>, t: real, elapsed: real, n: nat)
    requires AllRolling(st, ss, t, 0, 0, n) && t <= elapsed && elapsed > 0.0
    ensures AllRolling(st, Settled(st, ss, elapsed), elapsed, 0, 0, 0)
  {
    hide Rolling, Throttle;
    var r := Settled(st, ss, elapsed);
    forall i | 0 <= i < |r| ensures Rolling(st, r[i], elapsed, 0) {
      LaterRolls(st, ss[i], t, elapsed, n);
      if ss[i].sender {
        CheckSettles(st, ss[i], elapsed, n);
      } else {
        NoSender(st, ss[i], elapsed, n);
      }
    }
  }

  lemma {:induction false} NoSender(st: Settings, s: Paced, t: real, n: nat)
    requires Rolling(st, s, t, n) && !s.sender
    ensures Rolling(st, s, t, 0)
  {
  }

  /**
   The bound on pacing: from streams that are within it and green only below their
   target rate, one call of iperf_send, whatever the sockets take, leaves all streams
   within it; unless a write fails, they are green only below their target rate again.
   The total of the test grows by exactly what its streams have sent.
   */
  lemma {:induction false} SendingKeeps(st: Settings, multisend: nat, rd: Round, ready: seq<bool>,
                                        writes: (nat, nat) -> int, now: real, elapsed: real)
    requires |rd.streams| == |ready| && now <= elapsed && elapsed > 0.0
    requires AllRolling(st, rd.streams, now, 0, 0, 0)
    ensures var r := Sending(st, multisend, rd, ready, writes, elapsed);
            && AllWithin(st, r.streams, elapsed)
            && (r.r >= 0 ==> AllRolling(st, r.streams, elapsed, 0, 0, 0))
            && r.bytes - rd.bytes == Total(r.streams) - Total(rd.streams)
  {
    hide AllRolling, AllWithin, Turns, Total, Settled;
    var t := if PerSend(st) then elapsed else now;
    AllLater(st, rd.streams, now, t);
    var n := TurnsKeep(st, rd, ready, writes, 0, TurnCount(st, multisend), t, elapsed);
    var r := Turns(st, rd, ready, writes, 0, TurnCount(st, multisend), elapsed);
    RollingIsWithin(st, r.streams, t, elapsed, n);
    if !PerSend(st) {
      SettledRolls(st, r.streams, t, elapsed, n);
      TotalSettled(st, r.streams, elapsed);
      RollingIsWithin(st, Settled(st, r.streams, elapsed), elapsed, elapsed, 0);
    }
  }

  // ---------- Blocks ----------

  /** A TCP stream has sent whole blocks but for what is pending of the last one; nothing is pending on UDP. */
  predicate Blockwise(st: Settings, s: Paced) {
    && s.pending <= st.blksize && (st.udp ==> s.pending == 0)
    && (!st.udp && st.blksize > 0 ==> (s.bytesSent + s.pending) % st.blksize == 0)
  }

  predicate AllBlockwise(st: Settings, ss: seq<Paced>) { forall i :: 0 <= i < |ss| ==> Blockwise(st, ss[i]) }

  /** The blocks that all streams have finished. */
  function Finished(st: Settings, ss: seq<Paced>): nat
    requires st.blksize > 0
  {
    if ss == [] then 0 else Finished(st, ss[..|ss| - 1]) + ss[|ss| - 1].bytesSent / st.blksize
  }

  /** The blocks counted from one round to another: those that TCP streams finished, the writes that succeeded on UDP. */
  predicate CountsBlocks(st: Settings, rd: Round, r: Round) {
    && (st.udp ==> r.blocks - rd.blocks == r.sends - rd.sends)
    && (!st.udp && st.blksize > 0 ==> r.blocks - rd.blocks == Finished(st, r.streams) - Finished(st, rd.streams))
  }

  lemma {:induction false} FinishedUpdate(st: Settings, ss: seq<Paced>, k: nat, s: Paced)
    requires k < |ss| && st.blksize > 0
    ensures Finished(st, ss[k := s]) == Finished(st, ss) + s.bytesSent / st.blksize - ss[k].bytesSent / st.blksize
  {
    var n := |ss| - 1;
    if k == n {
      assert ss[k := s][..n] == ss[..n];
    } else {
      FinishedUpdate(st, ss[..n], k, s);
      assert ss[k := s][..n] == ss[..n][k := s];
    }
  }

  lemma {:induction false} FinishedSettled(st: Settings, ss: seq<Paced>, elapsed: real)
    requires elapsed > 0.0 && st.blksize > 0
    ensures Finished(st, Settled(st, ss, elapsed)) == Finished(st, ss)
  {
    if ss == [] {
    } else {
      var n := |ss| - 1;
      FinishedSettled(st, ss[..n], elapsed);
      assert Settled(st, ss, elapsed)[..n] == Settled(st, ss[..n], elapsed);
    }
  }

  /** A write on TCP finishes a block exactly when nothing of it is left. */
  lemma {:induction false} SentBlocks(st: Settings, s: Paced, r: nat)
    requires Blockwise(st, s) && r <= Offered(st, s) && st.blksize > 0 && !st.udp
    ensures var s' := Sent(st, s, r);
            && Blockwise(st, s')
            && s'.bytesSent / st.blksize == s.bytesSent / st.blksize + if s'.pending == 0 then 1 else 0
  {
    hide Blockwise;
    var b := st.blksize;
    assert s.pending <= b && (s.bytesSent + s.pending) % b == 0 by {
      BlockwiseIs(st, s);
    }
    var s' := Sent(st, s, r);
    var q := MultipleIs(s.bytesSent + s.pending, b);
    var q' := if s.pending == 0 then q + 1 else q;
    assert q' * b == if s.pending == 0 then q * b + b else q * b;
    assert q' * b > 0;
    assert q' > 0 && (q' - 1) * b == q' * b - b;
    assert s'.bytesSent + s'.pending == q' * b;
    ModOfMultiple(q', b);
    QuotientIs(s.bytesSent, b, q' - 1);
    QuotientIs(s'.bytesSent, b, if s'.pending == 0 then q' else q' - 1);
    BlockwiseIs(st, s');
  }

  lemma {:induction false} BlockwiseIs(st: Settings, s: Paced)
    requires !st.udp && st.blksize > 0
    ensures Blockwise(st, s) <==> s.pending <= st.blksize && (s.bytesSent + s.pending) % st.blksize == 0
  {
  }

  lemma {:induction false} SentBlockwise(st: Settings, s: Paced, r: nat)
    requires Blockwise(st, s) && r <= Offered(st, s)
    ensures Blockwise(st, Sent(st, s, r)) && Blockwise(st, Refused(st, s))
    ensures st.udp ==> Sent(st, s, r).pending == 0
  {
    if st.blksize > 0 && !st.udp {
      hide Blockwise;
      SentBlocks(st, s, r);
      SentBlocks(st, s, 0);
      assert Sent(st, s, 0) == Refused(st, s);
    }
  }

  lemma {:induction false} ThrottleKeepsBlocks(st: Settings, s: Paced, elapsed: real)
    requires elapsed > 0.0
    ensures var t := Throttle(st.rate, s, elapsed);
            t.bytesSent == s.bytesSent && t.pending == s.pending && t.sender == s.sender
    ensures Blockwise(st, s) ==> Blockwise(st, Throttle(st.rate, s, elapsed))
  {
  }

  lemma {:induction false} SendOneBlocks(st: Settings, rd: Round, k: nat, w: nat, elapsed: real)
    requires k < |rd.streams| && elapsed > 0.0 && AllBlockwise(st, rd.streams)
    ensures var r := SendOne(st, rd, k, w, elapsed); AllBlockwise(st, r.streams) && CountsBlocks(st, rd, r)
  {
    hide Blockwise, Throttle, Sent, Finished;
    var s := rd.streams[k];
    var taken := Least(w, Offered(st, s));
    SentBlockwise(st, s, taken);
    ThrottleKeepsBlocks(st, Sent(st, s, taken), elapsed);
    var r := SendOne(st, rd, k, w, elapsed);
    if !st.udp && st.blksize > 0 {
      SentBlocks(st, s, taken);
      FinishedUpdate(st, rd.streams, k, r.streams[k]);
    }
  }

  lemma {:induction false} TurnBlocks(st: Settings, rd: Round, k: nat, ready: seq<bool>, writes: (nat, nat) -> int,
                                      turn: nat, left: nat, elapsed: real)
    requires k <= |rd.streams| == |ready| && elapsed > 0.0 && AllBlockwise(st, rd.streams)
    ensures var r := Turn(st, rd, k, ready, writes, turn, left, elapsed);
            AllBlockwise(st, r.streams) && CountsBlocks(st, rd, r)
    decreases |ready| - k
  {
    hide Blockwise, SendOne, Finished, Refused;
    if k < |ready| {
      if !(rd.streams[k].green && rd.streams[k].sender && ready[k]) {
        TurnBlocks(st, rd, k + 1, ready, writes, turn, left, elapsed);
      } else if writes(turn, k) >= 0 {
        var w := writes(turn, k);
        SendOneBlocks(st, rd, k, w, elapsed);
        TurnBlocks(st, SendOne(st, rd, k, w, elapsed), k + 1, ready, writes, turn, left, elapsed);
      } else {
        RefusedBlocks(st, rd.streams, k);
      }
    }
  }

  lemma {:induction false} RefusedBlocks(st: Settings, ss: seq<Paced>, k: nat)
    requires k < |ss| && AllBlockwise(st, ss)
    ensures AllBlockwise(st, ss[k := Refused(st, ss[k])])
    ensures st.blksize > 0 ==> Finished(st, ss[k := Refused(st, ss[k])]) == Finished(st, ss)
  {
    hide Blockwise, Finished;
    SentBlockwise(st, ss[k], 0);
    if st.blksize > 0 {
      FinishedUpdate(st, ss, k, Refused(st, ss[k]));
    }
  }

  lemma {:induction false} TurnsBlocks(st: Settings, rd: Round, ready: seq<bool>, writes: (nat, nat) -> int,
                                       turn: nat, left: nat, elapsed: real)
    requires |rd.streams| == |ready| && elapsed > 0.0 && AllBlockwise(st, rd.streams)
    ensures var r := Turns(st, rd, ready, writes, turn, left, elapsed);
            AllBlockwise(st, r.streams) && CountsBlocks(st, rd, r)
    decreases left
  {
    hide AllBlockwise, Finished, Turn;
    if left == 0 {
    } else {
      var start := rd.(active := false);
      TurnBlocks(st, start, 0, ready, writes, turn, left, elapsed);
      var r := Turn(st, start, 0, ready, writes, turn, left, elapsed);
      if !(r.r < 0 || !r.active) {
        TurnsBlocks(st, r, ready, writes, turn + 1, left - 1, elapsed);
      }
    }
  }

  /**
   One call of iperf_send, whatever the sockets take: every TCP stream has sent whole
   blocks but for what is pending, and the blocks counted are those that were finished;
   on UDP they are the writes that succeeded.
   */
  lemma {:induction false} SendingBlocks(st: Settings, multisend: nat, rd: Round, ready: seq<bool>,
                                         writes: (nat, nat) -> int, elapsed: real)
    requires |rd.streams| == |ready| && elapsed > 0.0 && AllBlockwise(st, rd.streams)
    ensures var r := Sending(st, multisend, rd, ready, writes, elapsed);
            AllBlockwise(st, r.streams) && CountsBlocks(st, rd, r)
  {
    hide Blockwise, Finished, Turns, Throttle;
    TurnsBlocks(st, rd, ready, writes, 0, TurnCount(st, multisend), elapsed);
    var r := Turns(st, rd, ready, writes, 0, TurnCount(st, multisend), elapsed);
    if st.blksize > 0 {
      FinishedSettled(st, r.streams, elapsed);
    }
    forall i | 0 <= i < |r.streams| ensures Blockwise(st, Settled(st, r.streams, elapsed)[i]) {
      ThrottleKeepsBlocks(st, r.streams[i], elapsed);
    }
  }

  // ---------- What a turn sends ----------

  predicate Goes(s: Paced, ready: bool) { s.green && s.sender && ready }

  /** A stream that was served: it has sent what the socket took of the block, or of what was left of one. */
  predicate Served(st: Settings, s: Paced, s': Paced, w: int) {
    var offer := if st.udp || s.pending == 0 then st.blksize else s.pending;
    && w >= 0 && s'.bytesSent == s.bytesSent + (if w < offer then w else offer) && s'.sender == s.sender
    && s'.pending == (if st.udp then s.pending else if w < offer then offer - w else 0)
    && (!PerSend(st) ==> s'.green == s.green)
  }

  /** A turn ends before the j-th stream: its write failed, or a limit of the test was reached. */
  predicate CutShort(st: Settings, r: Round, w: int, left: nat) {
    w < 0 || (left > 1 && ((st.bytes != 0 && r.bytes >= st.bytes) || (st.blocks != 0 && r.blocks >= st.blocks)))
  }

  /**
   What one turn does: from the k-th stream up to the one where it is cut short, every
   stream that has a green light and a ready socket is served, and no other is touched.
   Returns where the turn was cut short, which is at the end if it was not.
   */
  lemma {:induction false} TurnServes(st: Settings, rd: Round, k: nat, ready: seq<bool>, writes: (nat, nat) -> int,
                                      turn: nat, left: nat, elapsed: real) returns (j: nat)
    requires k <= |rd.streams| == |ready| && elapsed > 0.0
    ensures var r := Turn(st, rd, k, ready, writes, turn, left, elapsed);
            && k <= j <= |ready|
            && (forall i :: k <= i < j ==>
                  if Goes(rd.streams[i], ready[i]) then Served(st, rd.streams[i], r.streams[i], writes(turn, i))
                  else r.streams[i] == rd.streams[i])
            && (forall i :: 0 <= i < k || j < i < |ready| ==> r.streams[i] == rd.streams[i])
            && (j < |ready| ==>
                  && Goes(rd.streams[j], ready[j]) && CutShort(st, r, writes(turn, j), left)
                  && r.streams[j].bytesSent == rd.streams[j].bytesSent)
            && r.sends - rd.sends == |Going(rd.streams, ready, k, j)|
            && (r.active <==> rd.active || Going(rd.streams, ready, k, j) != {})
            && (j == |ready| ==> r.r == rd.r)
    decreases |ready| - k
  {
    hide SendOne, Goes, Served, Going, CutShort;
    if k == |ready| {
      j := k;
      NoneGoing(rd.streams, ready, k);
    } else if !(rd.streams[k].green && rd.streams[k].sender && ready[k]) {
      j := TurnServes(st, rd, k + 1, ready, writes, turn, left, elapsed);
      GoingStep(rd.streams, rd.streams, ready, k, j);
    } else if (left > 1 && st.bytes != 0 && rd.bytes >= st.bytes)
              || (left > 1 && st.blocks != 0 && rd.blocks >= st.blocks) || writes(turn, k) < 0 {
      j := k;
      NoneGoing(rd.streams, ready, k);
      IsCut(st, rd, ready, k, writes(turn, k), left);
    } else {
      var next := SendOne(st, rd, k, writes(turn, k), elapsed);
      SendOneServes(st, rd, k, writes(turn, k), elapsed);
      j := TurnServes(st, next, k + 1, ready, writes, turn, left, elapsed);
      GoingStep(rd.streams, next.streams, ready, k, j);
    }
  }

  /** The streams from the k-th up to the j-th that go. */
  function Going(ss: seq<Paced>, ready: seq<bool>, k: nat, j: nat): set<nat>
    requires j <= |ss| == |ready|
  {
    set i: nat | k <= i < j && Goes(ss[i], ready[i])
  }

  lemma {:induction false} NoneGoing(ss: seq<Paced>, ready: seq<bool>, k: nat)
    requires k <= |ss| == |ready|
    ensures Going(ss, ready, k, k) == {}
  {
  }

  lemma {:induction false} GoingStep(ss: seq<Paced>, next: seq<Paced>, ready: seq<bool>, k: nat, j: nat)
    requires k < j <= |ss| == |ready| == |next| && forall i :: k < i < j ==> next[i] == ss[i]
    ensures Goes(ss[k], ready[k]) <==> ss[k].green && ss[k].sender && ready[k]
    ensures |Going(ss, ready, k, j)| == |Going(next, ready, k + 1, j)| + if Goes(ss[k], ready[k]) then 1 else 0
    ensures Going(ss, ready, k, j) != {} <==> Goes(ss[k], ready[k]) || Going(next, ready, k + 1, j) != {}
  {
    hide Goes;
    var more := Going(next, ready, k + 1, j);
    assert Going(ss, ready, k, j) == if Goes(ss[k], ready[k]) then more + {k} else more;
    assert Goes(ss[k], ready[k]) <==> ss[k].green && ss[k].sender && ready[k] by {
      GoesIs(ss[k], ready[k]);
    }
  }

  lemma {:induction false} GoesIs(s: Paced, ready: bool)
    ensures Goes(s, ready) <==> s.green && s.sender && ready
  {
  }

  lemma {:induction false} IsCut(st: Settings, rd: Round, ready: seq<bool>, k: nat, w: int, left: nat)
    requires k < |rd.streams| == |ready| && rd.streams[k].green && rd.streams[k].sender && ready[k]
    requires w < 0 || (left > 1 && st.bytes != 0 && rd.bytes >= st.bytes)
             || (left > 1 && st.blocks != 0 && rd.blocks >= st.blocks)
    ensures Goes(rd.streams[k], ready[k])
    ensures forall r: Round :: r.bytes == rd.bytes && r.blocks == rd.blocks ==> CutShort(st, r, w, left)
  {
  }

  lemma {:induction false} SendOneServes(st: Settings, rd: Round, k: nat, w: nat, elapsed: real)
    requires k < |rd.streams| && elapsed > 0.0
    ensures var r := SendOne(st, rd, k, w, elapsed);
            && Served(st, rd.streams[k], r.streams[k], w) && r.sends == rd.sends + 1 && r.active && r.r == rd.r
            && forall i :: 0 <= i < |rd.streams| && i != k ==> r.streams[i] == rd.streams[i]
  {
    ThrottleKeepsBlocks(st, Sent(st, rd.streams[k], Least(w, Offered(st, rd.streams[k]))), elapsed);
  }

  /** A turn that is not the last does not go past a limit of the test by more than the block it was reached with. */
  lemma {:induction false} TurnKeepsLimits(st: Settings, rd: Round, k: nat, ready: seq<bool>, writes: (nat, nat) -> int,
                                           turn: nat, left: nat, elapsed: real)
    requires k <= |rd.streams| == |ready| && elapsed > 0.0 && AllBlockwise(st, rd.streams) && left > 1
    ensures var r := Turn(st, rd, k, ready, writes, turn, left, elapsed);
            && (st.bytes != 0 && r.bytes != rd.bytes ==> r.bytes < st.bytes + st.blksize)
            && (st.blocks != 0 && r.blocks != rd.blocks ==> r.blocks <= st.blocks)
    decreases |ready| - k
  {
    hide SendOne, Blockwise, Refused;
    if k == |ready| {
    } else if !(rd.streams[k].green && rd.streams[k].sender && ready[k]) {
      TurnKeepsLimits(st, rd, k + 1, ready, writes, turn, left, elapsed);
    } else if writes(turn, k) >= 0 {
      var next := SendOne(st, rd, k, writes(turn, k), elapsed);
      SendOneBlocks(st, rd, k, writes(turn, k), elapsed);
      OneBlockMore(st, rd, k, writes(turn, k), elapsed);
      TurnKeepsLimits(st, next, k + 1, ready, writes, turn, left, elapsed);
    }
  }

  lemma {:induction false} OneBlockMore(st: Settings, rd: Round, k: nat, w: nat, elapsed: real)
    requires k < |rd.streams| && elapsed > 0.0 && Blockwise(st, rd.streams[k])
    ensures var r := SendOne(st, rd, k, w, elapsed);
            rd.bytes <= r.bytes <= rd.bytes + st.blksize && rd.blocks <= r.blocks <= rd.blocks + 1
  {
  }

  /** Sockets that take whatever is offered. */
  ghost predicate TakeAll(writes: (nat, nat) -> int, blksize: nat) {
    forall turn: nat, k: nat :: writes(turn, k) >= blksize
  }

  lemma {:induction false} FullTurn(st: Settings, rd: Round, ready: seq<bool>, writes: (nat, nat) -> int,
                                    turn: nat, left: nat, elapsed: real, k: nat)
    requires k < |rd.streams| == |ready| && elapsed > 0.0 && rd.streams[k].pending <= st.blksize
    requires TakeAll(writes, st.blksize) && st.bytes == 0 && st.blocks == 0 && Goes(rd.streams[k], ready[k])
    ensures var r := Turn(st, rd, 0, ready, writes, turn, left, elapsed);
            && Served(st, rd.streams[k], r.streams[k], st.blksize) && r.active && r.r == rd.r
  {
    hide Turn;
    var j := TurnServes(st, rd, 0, ready, writes, turn, left, elapsed);
    forall i: nat ensures writes(turn, i) >= 0 {
    }
    assert writes(turn, k) >= st.blksize;
    assert k in Going(rd.streams, ready, 0, j);
  }

  lemma {:induction false} FullTurns(st: Settings, rd: Round, ready: seq<bool>, writes: (nat, nat) -> int,
                                     turn: nat, left: nat, elapsed: real, k: nat)
    requires k < |rd.streams| == |ready| && elapsed > 0.0 && rd.streams[k].pending <= st.blksize && rd.r >= 0
    requires TakeAll(writes, st.blksize) && st.bytes == 0 && st.blocks == 0 && Goes(rd.streams[k], ready[k])
    requires left > 0 && (PerSend(st) ==> left == 1) && (st.udp ==> rd.streams[k].pending == 0)
    ensures var s, r := rd.streams[k], Turns(st, rd, ready, writes, turn, left, elapsed);
            && r.r >= 0 && r.streams[k].pending == 0
            && r.streams[k].bytesSent ==
               s.bytesSent + (if s.pending == 0 then st.blksize else s.pending) + (left - 1) * st.blksize
    decreases left
  {
    hide Turn, TakeAll;
    var start := rd.(active := false);
    FullTurn(st, start, ready, writes, turn, left, elapsed, k);
    OneTurn(st, rd, ready, writes, turn, left, elapsed);
    var r := Turn(st, start, 0, ready, writes, turn, left, elapsed);
    if left == 1 {
      NoTurn(st, r, ready, writes, turn + 1, elapsed);
    } else {
      FullTurns(st, r, ready, writes, turn + 1, left - 1, elapsed, k);
      assert (left - 1) * st.blksize == (left - 2) * st.blksize + st.blksize;
    }
  }

  /**
   On a test without limits whose sockets take whatever is offered, a stream that may
   send does so once in every turn: as many times as the burst says, else as often as
   the test can without a target rate, else once.
   */
  lemma {:induction false} SendsInEveryTurn(st: Settings, multisend: nat, rd: Round, ready: seq<bool>,
                                            writes: (nat, nat) -> int, elapsed: real, k: nat)
    requires k < |rd.streams| == |ready| && elapsed > 0.0 && AllBlockwise(st, rd.streams) && rd.r >= 0
    requires TakeAll(writes, st.blksize) && st.bytes == 0 && st.blocks == 0 && Goes(rd.streams[k], ready[k])
    ensures var turns := if st.burst > 0 then st.burst else if st.rate > 0 then 1 else multisend;
            var s, r := rd.streams[k], Sending(st, multisend, rd, ready, writes, elapsed);
            r.streams[k].bytesSent ==
            if turns == 0 then s.bytesSent
            else s.bytesSent + (if s.pending == 0 then st.blksize else s.pending) + (turns - 1) * st.blksize
  {
    hide Turns, TakeAll, Throttle;
    var turns := TurnCount(st, multisend);
    if turns == 0 {
      NoTurn(st, rd, ready, writes, 0, elapsed);
    } else {
      FullTurns(st, rd, ready, writes, 0, turns, elapsed, k);
    }
    var r := Turns(st, rd, ready, writes, 0, turns, elapsed);
    ThrottleKeepsBlocks(st, r.streams[k], elapsed);
  }

  // ---------- The object ----------

  /** The streams of a test, and the totals that its limits look at. */
  class Test {
    const settings: Settings
    const multisend: nat
    const streams: array<Paced>
    var bytesSent: nat
    var blocksSent: nat
    ghost var now: real
    /** The writes that have succeeded, and what the totals were before they were last reset. */
    ghost var sends: nat
    ghost var bytesBefore: nat
    ghost var blocksBefore: nat

    /** Every stream is within the bound at the time `now`, and green only below its target rate. */
    ghost predicate Valid()
      reads this, streams
    {
      AllRolling(settings, streams[..], now, 0, 0, 0) && Counted()
    }

    /** The totals are those of the streams: bytes, and blocks finished on TCP or written on UDP. */
    ghost predicate Counted()
      reads this, streams
    {
      && AllBlockwise(settings, streams[..])
      && bytesSent + bytesBefore == Total(streams[..])
      && (settings.udp ==> blocksSent + blocksBefore == sends)
      && (!settings.udp && settings.blksize > 0 ==> blocksSent + blocksBefore == Finished(settings, streams[..]))
    }

    ghost function State(active: bool, r: int): Round
      reads `bytesSent, `blocksSent, `sends, streams
    {
      Round(streams[..], bytesSent, blocksSent, sends, active, r)
    }

    constructor (st: Settings, multisend: nat, senders: seq<bool>)
      ensures Valid() && settings == st && this.multisend == multisend && fresh(streams)
      ensures bytesSent == 0 && blocksSent == 0 && streams.Length == |senders|
    {
      settings := st;
      this.multisend := multisend;
      streams := new Paced[|senders|](i requires 0 <= i < |senders| => Paced(senders[i], 0, 0, true));
      bytesSent, blocksSent, now := 0, 0, 0.0;
      sends, bytesBefore, blocksBefore := 0, 0, 0;
      new;
      NothingSent(settings, streams[..]);
    }

    /** iperf_reset_stats starts the totals of the test over; those of the streams go on. */
    method ResetStats()
      requires Valid()
      modifies `bytesSent, `blocksSent, `bytesBefore, `blocksBefore
      ensures Valid() && bytesSent == 0 && blocksSent == 0
      ensures bytesBefore == old(bytesBefore + bytesSent) && blocksBefore == old(blocksBefore + blocksSent)
    {
      bytesBefore, blocksBefore := bytesBefore + bytesSent, blocksBefore + blocksSent;
      bytesSent, blocksSent := 0, 0;
    }

    /** send_timer_proc: one stream is checked when its pacing timer fires. */
    method SendTimer(k: nat, elapsed: real)
      requires Valid() && k < streams.Length && elapsed > 0.0 && now <= elapsed
      modifies `now, streams
      ensures Valid() && now == elapsed
      ensures streams[..] == old(streams[..][k := Throttle(settings.rate, streams[k], elapsed)])
    {
      hide Blockwise, Total, Finished, Throttle;
      ghost var ss := streams[..];
      AllLater(settings, ss, now, elapsed);
      CheckSettles(settings, streams[k], elapsed, 0);
      ThrottleKeepsBlocks(settings, streams[k], elapsed);
      streams[k] := Throttle(settings.rate, streams[k], elapsed);
      now := elapsed;
      assert streams[..] == ss[k := streams[k]];
      TotalUpdate(ss, k, streams[k]);
      if settings.blksize > 0 {
        FinishedUpdate(settings, ss, k, streams[k]);
      }
    }

    /** iperf_send: `writes` is what the socket of a stream takes in a turn, `elapsed` the one reading of the clock. */
    method Send(ready: seq<bool>, writes: (nat, nat) -> int, elapsed: real) returns (r: int)
      requires Valid() && |ready| == streams.Length && elapsed > 0.0 && now <= elapsed
      modifies `bytesSent, `blocksSent, `sends, `now, streams
      ensures now == elapsed && AllWithin(settings, streams[..], now) && Counted()
      ensures r >= 0 ==> Valid()
      ensures bytesSent - old(bytesSent) == Total(streams[..]) - old(Total(streams[..]))
      ensures var done := Sending(settings, multisend, old(State(false, 0)), ready, writes, elapsed);
              streams[..] == done.streams && bytesSent == done.bytes && blocksSent == done.blocks && r == done.r
              && sends == done.sends
    {
      hide AllRolling, AllWithin, Turn, Turns, Total, Throttle, AllBlockwise, Finished;
      ghost var start := State(false, 0);
      SendingKeeps(settings, multisend, start, ready, writes, now, elapsed);
      SendingBlocks(settings, multisend, start, ready, writes, elapsed);
      now := elapsed;
      var left := if settings.burst != 0 then settings.burst else if settings.rate == 0 then multisend else 1;
      ghost var all := Turns(settings, start, ready, writes, 0, left, elapsed);
      var turn, active := 0, false;
      r := 0;
      while left > 0
        invariant now == elapsed && 0 <= left && 0 <= turn && r == 0
        invariant all == Turns(settings, State(active, 0), ready, writes, turn, left, elapsed)
        decreases left
      {
        OneTurn(settings, State(active, 0), ready, writes, turn, left, elapsed);
        active, r := SendTurn(ready, writes, elapsed, turn, left);
        if r < 0 || !active {
          break;
        }
        left, turn := left - 1, turn + 1;
      }
      NoTurn(settings, State(active, r), ready, writes, turn, elapsed);
      assert all == State(active, r);
      if r < 0 {
        return;
      }
      if !(settings.rate != 0 && settings.burst == 0) {
        CheckAll(elapsed);
      }
    }

    /** One turn of iperf_send over all streams. */
    method SendTurn(ready: seq<bool>, writes: (nat, nat) -> int, elapsed: real, turn: nat, left: nat)
      returns (active: bool, r: int)
      requires |ready| == streams.Length && elapsed > 0.0
      modifies `bytesSent, `blocksSent, `sends, streams
      ensures State(active, r) == Turn(settings, old(State(false, 0)), 0, ready, writes, turn, left, elapsed)
    {
      hide SendOne;
      ghost var all := Turn(settings, State(false, 0), 0, ready, writes, turn, left, elapsed);
      active, r := false, 0;
      var k := 0;
      while k < streams.Length
        invariant 0 <= k <= streams.Length && r == 0
        invariant all == Turn(settings, State(active, r), k, ready, writes, turn, left, elapsed)
      {
        var s := streams[k];
        if s.green && s.sender && ready[k] {
          if left > 1 && settings.bytes != 0 && bytesSent >= settings.bytes {
            break;
          }
          if left > 1 && settings.blocks != 0 && blocksSent >= settings.blocks {
            break;
          }
          var w := writes(turn, k);
          if w < 0 {
            if !settings.udp {
              streams[k] := streams[k].(pending := Offered(settings, streams[k]));
            }
            if w != SOFT_ERROR {
              r := w;
            }
            break;
          }
          SendStream(k, w, elapsed, active);
          active := true;
        }
        k := k + 1;
      }
    }

    /** One stream with a green light and a ready socket that takes up to `w` bytes. */
    method SendStream(k: nat, w: nat, elapsed: real, ghost active: bool)
      requires k < streams.Length && elapsed > 0.0
      modifies `bytesSent, `blocksSent, `sends, streams
      ensures State(true, 0) == SendOne(settings, old(State(active, 0)), k, w, elapsed)
    {
      var offered := Offered(settings, streams[k]);
      var taken := if w < offered then w else offered;
      ghost var was := streams[..];
      streams[k] := Sent(settings, streams[k], taken);
      bytesSent := bytesSent + taken;
      sends := sends + 1;
      if streams[k].pending == 0 {
        blocksSent := blocksSent + 1;
      }
      if settings.rate != 0 && settings.burst == 0 {
        streams[k] := Throttle(settings.rate, streams[k], elapsed);
      }
      assert streams[..] == was[k := streams[k]];
    }

    /** The check of all senders after a burst. */
    method CheckAll(elapsed: real)
      requires elapsed > 0.0
      modifies streams
      ensures streams[..] == Settled(settings, old(streams[..]), elapsed)
    {
      hide Throttle;
      for k := 0 to streams.Length
        invariant forall i :: 0 <= i < streams.Length ==>
                    streams[i] == if i < k && old(streams[i]).sender
                                  then Throttle(settings.rate, old(streams[i]), elapsed) else old(streams[i])
      {
        if streams[k].sender {
          streams[k] := Throttle(settings.rate, streams[k], elapsed);
        }
      }
    }
  }

  lemma {:induction false} NothingSent(st: Settings, ss: seq<Paced>)
    requires forall i :: 0 <= i < |ss| ==> ss[i].bytesSent == 0
    ensures Total(ss) == 0 && (st.blksize > 0 ==> Finished(st, ss) == 0)
  {
    if ss == [] {
    } else {
      NothingSent(st, ss[..|ss| - 1]);
    }
  }

  lemma {:induction false} OneTurn(st: Settings, rd: Round, ready: seq<bool>, writes: (nat, nat) -> int, turn: nat,
                                   left: nat, elapsed: real)
    requires |rd.streams| == |ready| && elapsed > 0.0 && left > 0
    ensures var r := Turn(st, rd.(active := false), 0, ready, writes, turn, left, elapsed);
            Turns(st, rd, ready, writes, turn, left, elapsed) ==
            if r.r < 0 || !r.active then r else Turns(st, r, ready, writes, turn + 1, left - 1, elapsed)
  {
    hide Turn;
  }

  lemma {:induction false} NoTurn(st: Settings, rd: Round, ready: seq<bool>, writes: (nat, nat) -> int, turn: nat,
                                  elapsed: real)
    requires |rd.streams| == |ready| && elapsed > 0.0
    ensures Turns(st, rd, ready, writes, turn, 0, elapsed) == rd
  {
  }
}
