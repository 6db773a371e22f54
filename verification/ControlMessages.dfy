/**
 The two documents that the control connection carries, and what their reader makes
 of them: send_parameters, get_parameters, send_results and get_results of iperf_api.c.
 */
module ControlMessages {
  import opened Bytes
  import opened Json
  import R = JsonRender
  import opened ControlFrame

  // ---------- Looking up members ----------

  /** tolower in the C locale */
  function Lower(b: byte): byte { if 65 <= b <= 90 then b + 32 else b }

  /** case_insensitive_strcmp(a, b) == 0 */
  predicate SameName(a: bytes, b: bytes) {
    |a| == |b| && forall k :: 0 <= k < |a| ==> Lower(a[k]) == Lower(b[k])
  }

  predicate IsLetter(b: byte) { 65 <= b <= 90 || 97 <= b <= 122 }

  /** Two bytes are the same in a name exactly when they are equal, or one letter in its two cases. */
  lemma {:induction false} CaseIsIgnored(a: byte, b: byte)
    ensures Lower(a) == Lower(b) <==> a == b || (IsLetter(a) && IsLetter(b) && (a == b + 32 || b == a + 32))
  {
  }

  function FirstNamed(members: seq<Member>, name: bytes): Option<Value> {
    if members == [] then None
    else if SameName(name, members[0].name) then Some(members[0].value)
    else FirstNamed(members[1..], name)
  }

  /** cJSON_GetObjectItem */
  function Get(v: Value, name: bytes): Option<Value> {
    if v.Object? then FirstNamed(v.members, name) else None
  }

  /** Names that the list carries under no other member before the i-th. */
  predicate FirstAt(members: seq<Member>, i: nat, name: bytes) {
    && i < |members| && SameName(name, members[i].name)
    && forall j :: 0 <= j < i ==> !SameName(name, members[j].name)
  }

  predicate Unnamed(members: seq<Member>, name: bytes) {
    forall j :: 0 <= j < |members| ==> !SameName(name, members[j].name)
  }

  predicate AllPrintable(members: seq<Member>) {
    forall i :: 0 <= i < |members| ==> 0 !in members[i].name && R.Printable(members[i].value)
  }

  lemma {:induction false} PrintableObject(members: seq<Member>)
    ensures R.PrintableMembers(members) <==> AllPrintable(members)
  {
    if members == [] {
    } else {
      PrintableObject(members[1..]);
      var rest := members[1..];
      assert AllPrintable(members) ==> AllPrintable(rest);
      assert forall i :: 0 < i < |members| ==> members[i] == rest[i - 1];
    }
  }

  /** A member is found in the document that arrives exactly where it stood in the one that was sent. */
  lemma {:induction false} MemberArrives(members: seq<Member>, i: nat, name: bytes)
    requires AllPrintable(members) && FirstAt(members, i, name)
    ensures R.PrintableMembers(members)
    ensures FirstNamed(R.ReadMembers(members), name) == Some(R.ReadBack(members[i].value))
  {
    PrintableObject(members);
    if i == 0 {
    } else {
      var rest := members[1..];
      assert forall j :: 0 <= j < |rest| ==> rest[j] == members[j + 1];
      MemberArrives(rest, i - 1, name);
      var r := R.ReadMembers(members);
      assert r[1..] == R.ReadMembers(rest);
    }
  }

  /** A member that was not sent is not found. */
  lemma {:induction false} AbsentArrives(members: seq<Member>, name: bytes)
    requires AllPrintable(members) && Unnamed(members, name)
    ensures R.PrintableMembers(members)
    ensures FirstNamed(R.ReadMembers(members), name) == None
  {
    PrintableObject(members);
    if members == [] {
    } else {
      var rest := members[1..];
      assert forall j :: 0 <= j < |rest| ==> rest[j] == members[j + 1];
      AbsentArrives(rest, name);
      var r := R.ReadMembers(members);
      assert r[1..] == R.ReadMembers(rest);
    }
  }

  // ---------- Numbers ----------

  const TWO_31: int := 0x8000_0000
  const TWO_53: int := 0x20_0000_0000_0000

  function Num(n: int): Value { Number(n as real) }

  /** The `valueint` that parse_number stores, with saturation; a true literal stores 1. */
  function ValueInt(v: Value): int {
    if v.True? then 1
    else if !v.Number? then 0
    else if v.number >= R.TWO_63 as real then R.TWO_63 - 1
    else if v.number <= -R.TWO_63 as real then -R.TWO_63
    else if v.number >= 0.0 then v.number.Floor else -((-v.number).Floor)
  }

  /** The integer part of the number, towards zero, kept within 64 bits. */
  lemma {:induction false} ValueIntIs(x: real)
    ensures var n := ValueInt(Number(x));
            && -R.TWO_63 <= n < R.TWO_63
            && (x >= R.TWO_63 as real ==> n == R.TWO_63 - 1) && (x <= -R.TWO_63 as real ==> n == -R.TWO_63)
            && (0.0 <= x < R.TWO_63 as real ==> n as real <= x < n as real + 1.0)
            && (-R.TWO_63 as real < x <= 0.0 ==> n as real - 1.0 < x <= n as real)
    ensures ValueInt(True) == 1 && ValueInt(False) == 0 && ValueInt(Null) == 0
  {
  }

  function ValueDouble(v: Value): real { if v.Number? then v.number else 0.0 }

  /** The conversion of a 64-bit integer to `int`. */
  function ToInt(n: int): int { (n + TWO_31) % TWO_32 - TWO_31 }

  lemma {:induction false} CountArrives(n: nat)
    requires n < TWO_53
    ensures R.Printable(Num(n)) && R.ReadBack(Num(n)) == Num(n) && ValueInt(Num(n)) == n
    ensures n < TWO_31 ==> ToInt(ValueInt(Num(n))) == n
  {
    assert (n as real).Floor == n;
  }

  /** Every negative `int` arrives as -1: it is printed unsigned, saturates on the way in and is then cut. */
  lemma {:induction false} IntArrives(n: int)
    requires -TWO_31 <= n < TWO_31
    ensures R.Printable(Num(n)) && ToInt(ValueInt(R.ReadBack(Num(n)))) == if n >= 0 then n else -1
  {
    assert (n as real).Floor == n;
    if n < 0 {
      assert R.ReadBack(Num(n)) == Num(n + R.TWO_64);
      assert ValueInt(Num(n + R.TWO_64)) == R.TWO_63 - 1;
    } else {
      CountArrives(n);
    }
  }

  lemma {:induction false} RealArrives(x: real)
    ensures R.Printable(Number(x)) && R.ReadBack(Number(x)) == Number(R.Arrival(x))
  {
  }

  // ---------- Names ----------

  type text = s: bytes | 0 !in s

  const PARALLEL: text := [112, 97, 114, 97, 108, 108, 101, 108] // "parallel"
  const REVERSE: text := [114, 101, 118, 101, 114, 115, 101] // "reverse"
  const BIDIRECTIONAL: text := [98, 105, 100, 105, 114, 101, 99, 116, 105, 111, 110, 97, 108] // "bidirectional"
  const CPU_UTIL_TOTAL: text := [99, 112, 117, 95, 117, 116, 105, 108, 95, 116, 111, 116, 97, 108] // "cpu_util_total"
  const CPU_UTIL_USER: text := [99, 112, 117, 95, 117, 116, 105, 108, 95, 117, 115, 101, 114] // "cpu_util_user"
  // "cpu_util_system"
  const CPU_UTIL_SYSTEM: text := [99, 112, 117, 95, 117, 116, 105, 108, 95, 115, 121, 115, 116, 101, 109]
  // "sender_has_retransmits"
  const SENDER_HAS_RETRANSMITS: text := [
    115, 101, 110, 100, 101, 114, 95, 104, 97, 115, 95,
    114, 101, 116, 114, 97, 110, 115, 109, 105, 116, 115]
  const STREAMS: text := [115, 116, 114, 101, 97, 109, 115] // "streams"
  const ID: text := [105, 100] // "id"
  const BYTES: text := [98, 121, 116, 101, 115] // "bytes"
  const RETRANSMITS: text := [114, 101, 116, 114, 97, 110, 115, 109, 105, 116, 115] // "retransmits"
  const JITTER: text := [106, 105, 116, 116, 101, 114] // "jitter"
  const ERRORS: text := [101, 114, 114, 111, 114, 115] // "errors"
  // "omitted_errors"
  const OMITTED_ERRORS: text := [111, 109, 105, 116, 116, 101, 100, 95, 101, 114, 114, 111, 114, 115]
  const PACKETS: text := [112, 97, 99, 107, 101, 116, 115] // "packets"
  // "omitted_packets"
  const OMITTED_PACKETS: text := [111, 109, 105, 116, 116, 101, 100, 95, 112, 97, 99, 107, 101, 116, 115]
  const START_TIME: text := [115, 116, 97, 114, 116, 95, 116, 105, 109, 101] // "start_time"
  const END_TIME: text := [101, 110, 100, 95, 116, 105, 109, 101] // "end_time"

  // ---------- Parameters ----------

  datatype Mode = Sender | Receiver | Bidirectional

  const MAX_STREAMS: nat := 128

  /**
   What the client asks for; `before` and `after` are the other members of the
   document. The command line refuses only stream counts above the limit.
   */
  datatype Settings = Settings(streams: int, reverse: bool, bidirectional: bool,
                               before: seq<Member>, after: seq<Member>)

  /** iperf_set_test_reverse and iperf_set_test_bidirectional on the client */
  function ClientMode(s: Settings): Mode {
    if s.bidirectional then Bidirectional else if s.reverse then Receiver else Sender
  }

  function Flag(on: bool, name: bytes): seq<Member> { if on then [Member(name, True)] else [] }

  /** send_parameters */
  function ParametersDoc(s: Settings): Value {
    Object(s.before + Requested(s) + s.after)
  }

  function Requested(s: Settings): seq<Member> {
    [Member(PARALLEL, Num(s.streams))] + Flag(s.reverse, REVERSE) + Flag(s.bidirectional, BIDIRECTIONAL)
  }

  datatype Parameters = Parameters(streams: int, mode: Mode)

  /** get_parameters, starting from the settings of an idle server */
  function GetParameters(v: Value): Parameters {
    var parallel := Get(v, PARALLEL);
    Parameters(if parallel.Some? then ToInt(ValueInt(parallel.value)) else 1,
               if Get(v, BIDIRECTIONAL).Some? then Bidirectional
               else if Get(v, REVERSE).Some? then Sender
               else Receiver)
  }

  predicate OtherParameters(members: seq<Member>) {
    && AllPrintable(members)
    && Unnamed(members, PARALLEL) && Unnamed(members, REVERSE) && Unnamed(members, BIDIRECTIONAL)
  }

  predicate ValidSettings(s: Settings) {
    && -TWO_31 <= s.streams <= MAX_STREAMS
    && OtherParameters(s.before) && OtherParameters(s.after)
    && Fits(ParametersDoc(s))
  }

  function Opposite(m: Mode): Mode {
    match m
    case Sender => Receiver
    case Receiver => Sender
    case Bidirectional => Bidirectional
  }

  /** The stream count that the server hears: every negative one is heard as -1. */
  function Heard(s: Settings): int { if s.streams < 0 then -1 else s.streams }

  /** The server takes the stream count of the client and the mode that faces the client's. */
  lemma {:induction false} ParametersArrive(s: Settings)
    requires ValidSettings(s)
    ensures GetParameters(R.ReadBack(ParametersDoc(s))) == Parameters(Heard(s), Opposite(ClientMode(s)))
  {
    hide Fits, R.Printable, R.ReadBack, R.ReadMembers, FirstNamed, ValueInt, Requested, FirstAt, Unnamed, AllPrintable;
    var ms := ParametersDoc(s).members;
    IntArrives(s.streams);
    RequestedMembers(s);
    MembersBetween(s.before, Requested(s), s.after);
    FirstBetween(s.before, Requested(s), s.after, 0, PARALLEL);
    MemberArrives(ms, |s.before|, PARALLEL);
    ArrivesIff(s, s.reverse, 1, REVERSE);
    ArrivesIff(s, s.bidirectional, if s.reverse then 2 else 1, BIDIRECTIONAL);
    ObjectReads(ms);
    assert (s.before + Requested(s) + s.after)[|s.before|] == Requested(s)[0];
  }

  /** Without any of these parameters the server takes one stream, to receive on. */
  lemma {:induction false} NothingRequested(ms: seq<Member>)
    requires Unnamed(ms, PARALLEL) && Unnamed(ms, REVERSE) && Unnamed(ms, BIDIRECTIONAL)
    ensures GetParameters(Object(ms)) == Parameters(1, Receiver)
  {
    NoneNamed(ms, PARALLEL);
    NoneNamed(ms, REVERSE);
    NoneNamed(ms, BIDIRECTIONAL);
  }

  lemma {:induction false} NoneNamed(ms: seq<Member>, name: bytes)
    requires Unnamed(ms, name)
    ensures FirstNamed(ms, name) == None
  {
    hide SameName;
    if ms == [] {
    } else {
      NoneNamed(ms[1..], name);
    }
  }

  lemma {:induction false} ArrivesIff(s: Settings, on: bool, i: nat, name: bytes)
    requires AllPrintable(ParametersDoc(s).members) && Unnamed(s.before, name) && Unnamed(s.after, name)
    requires if on then FirstAt(Requested(s), i, name) else Unnamed(Requested(s), name)
    ensures R.PrintableMembers(ParametersDoc(s).members)
    ensures FirstNamed(R.ReadMembers(ParametersDoc(s).members), name).Some? <==> on
  {
    var ms := ParametersDoc(s).members;
    if on {
      FirstBetween(s.before, Requested(s), s.after, i, name);
      MemberArrives(ms, |s.before| + i, name);
    } else {
      UnnamedBetween(s.before, Requested(s), s.after, name);
      AbsentArrives(ms, name);
    }
  }

  lemma {:induction false} RequestedMembers(s: Settings)
    requires -TWO_31 <= s.streams <= MAX_STREAMS
    ensures var ms := Requested(s);
            && AllPrintable(ms) && ms != [] && ms[0] == Member(PARALLEL, Num(s.streams)) && FirstAt(ms, 0, PARALLEL)
            && (if s.reverse then FirstAt(ms, 1, REVERSE) else Unnamed(ms, REVERSE))
            && if s.bidirectional then FirstAt(ms, if s.reverse then 2 else 1, BIDIRECTIONAL)
               else Unnamed(ms, BIDIRECTIONAL)
  {
    IntArrives(s.streams);
    DifferentNames();
  }

  lemma {:induction false} MembersBetween(a: seq<Member>, b: seq<Member>, c: seq<Member>)
    requires AllPrintable(a) && AllPrintable(b) && AllPrintable(c)
    ensures AllPrintable(a + b + c)
  {
  }

  lemma {:induction false} FirstBetween(a: seq<Member>, b: seq<Member>, c: seq<Member>, i: nat, name: bytes)
    requires Unnamed(a, name) && FirstAt(b, i, name)
    ensures FirstAt(a + b + c, |a| + i, name)
  {
  }

  lemma {:induction false} UnnamedBetween(a: seq<Member>, b: seq<Member>, c: seq<Member>, name: bytes)
    requires Unnamed(a, name) && Unnamed(b, name) && Unnamed(c, name)
    ensures Unnamed(a + b + c, name)
  {
  }

  lemma {:induction false} DifferentNames()
    ensures !SameName(REVERSE, PARALLEL) && !SameName(BIDIRECTIONAL, PARALLEL) && !SameName(PARALLEL, REVERSE)
    ensures !SameName(BIDIRECTIONAL, REVERSE) && !SameName(REVERSE, BIDIRECTIONAL)
    ensures !SameName(PARALLEL, BIDIRECTIONAL)
  {
  }

  lemma {:induction false} ObjectReads(ms: seq<Member>)
    requires R.PrintableMembers(ms)
    ensures R.Printable(Object(ms)) && R.ReadBack(Object(ms)) == Object(R.ReadMembers(ms))
  {
  }
}
