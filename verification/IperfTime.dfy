/** Time stamps of iperf_time.c: seconds and microseconds. Seconds do not wrap in this model. */
module IperfTime {

  datatype Time = Time(secs: nat, usecs: nat)

  const MILLION: nat := 1000000

  predicate Normal(t: Time) { t.usecs < MILLION }

  /** iperf_time_in_usecs */
  function InUsecs(t: Time): nat { t.secs * MILLION + t.usecs }

  /** iperf_time_add_usecs: carries into the seconds whatever the microseconds were before. */
  function AddUsecs(t: Time, usecs: nat): (r: Time)
    ensures Normal(r) && InUsecs(r) == InUsecs(t) + usecs
  {
    var secs, us := t.secs + usecs / MILLION, t.usecs + usecs % MILLION;
    if us >= MILLION then Time(secs + us / MILLION, us % MILLION) else Time(secs, us)
  }

  /** iperf_time_compare: the sign of the difference, for normalised stamps. */
  function Compare(a: Time, b: Time): (r: int)
    requires Normal(a) && Normal(b)
    ensures r == -1 <==> InUsecs(a) < InUsecs(b)
    ensures r == 0 <==> InUsecs(a) == InUsecs(b)
    ensures r == 1 <==> InUsecs(a) > InUsecs(b)
  {
    if a.secs < b.secs then -1
    else if a.secs > b.secs then 1
    else if a.usecs < b.usecs then -1
    else if a.usecs > b.usecs then 1
    else 0
  }

  /** The difference of two stamps when the first is later, with a borrow. */
  function Minus(a: Time, b: Time): (d: Time)
    requires Normal(a) && Normal(b) && InUsecs(a) > InUsecs(b)
    ensures Normal(d) && InUsecs(d) == InUsecs(a) - InUsecs(b)
  {
    if a.usecs < b.usecs then Time(a.secs - b.secs - 1, a.usecs + MILLION - b.usecs)
    else Time(a.secs - b.secs, a.usecs - b.usecs)
  }

  /** iperf_time_diff: the distance between two stamps, and whether the first is not later. */
  function Diff(a: Time, b: Time): (r: (bool, Time))
    requires Normal(a) && Normal(b)
    ensures r.0 <==> InUsecs(a) <= InUsecs(b)
    ensures Normal(r.1)
    ensures InUsecs(r.1) == if r.0 then InUsecs(b) - InUsecs(a) else InUsecs(a) - InUsecs(b)
  {
    var cmp := Compare(a, b);
    if cmp == 0 then (true, Time(0, 0))
    else if cmp == 1 then (false, Minus(a, b))
    else (true, Minus(b, a))
  }
}
