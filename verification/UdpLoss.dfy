/** Loss counting of iperf_udp_recv: constant storage, exact when no packet arrives twice. */
module UdpLoss {

  datatype Counters = Counters(packetCount: nat, cntError: nat, outOfOrder: nat)

  /** One arrival; `p` is the sequence number in the packet. */
  function Count(c: Counters, p: nat): Counters {
    if p >= c.packetCount + 1 then
      c.(packetCount := p,
         cntError := if p > c.packetCount + 1 then c.cntError + (p - 1 - c.packetCount) else c.cntError)
    else
      c.(outOfOrder := c.outOfOrder + 1, cntError := if c.cntError > 0 then c.cntError - 1 else 0)
  }

  function Counted(arrivals: seq<nat>): Counters {
    if arrivals == [] then Counters(0, 0, 0)
    else Count(Counted(arrivals[..|arrivals| - 1]), arrivals[|arrivals| - 1])
  }

  lemma {:induction false} CountedNext(a: seq<nat>, p: nat)
    ensures Counted([]) == Counters(0, 0, 0) && Counted(a + [p]) == Count(Counted(a), p)
  {
    assert (a + [p])[..|a|] == a;
  }

  class Receiver {
    var packetCount: nat
    var cntError: nat
    var outOfOrder: nat
    ghost var seen: seq<nat>

    ghost predicate Valid()
      reads this
    {
      Counters(packetCount, cntError, outOfOrder) == Counted(seen)
    }

    constructor ()
      ensures Valid() && seen == []
    {
      packetCount, cntError, outOfOrder, seen := 0, 0, 0, [];
    }

    /** The counting part of iperf_udp_recv. */
    method Receive(pcount: nat)
      requires Valid()
      modifies this
      ensures Valid() && seen == old(seen) + [pcount]
      ensures packetCount == Highest(seen) && outOfOrder == |Late(seen)|
      ensures FromOne(seen) ==> cntError <= |Missing(seen)|
      ensures FromOne(seen) && NoRepeatInGap(seen) ==> cntError == |Missing(seen)|
    {
      hide Missing, Highest, FromOne, NoRepeatInGap, Late, Counted;
      if pcount >= packetCount + 1 {
        if pcount > packetCount + 1 {
          cntError := cntError + (pcount - 1 - packetCount);
        }
        packetCount := pcount;
      } else {
        outOfOrder := outOfOrder + 1;
        if cntError > 0 {
          cntError := cntError - 1;
        }
      }
      seen := seen + [pcount];
      CountedNext(old(seen), pcount);
      LateIsCounted(seen);
      WhatTheyMean(seen);
    }
  }

  /** What the counters say about the arrivals. */
  lemma {:induction false} WhatTheyMean(arrivals: seq<nat>)
    ensures FromOne(arrivals) ==>
              Counted(arrivals).packetCount == Highest(arrivals) && Counted(arrivals).cntError <= |Missing(arrivals)|
    ensures FromOne(arrivals) && NoRepeatInGap(arrivals) ==> Counted(arrivals).cntError == |Missing(arrivals)|
  {
    hide Counted, Missing, Highest;
    if FromOne(arrivals) {
      LossIsNeverOverstated(arrivals);
      LossIsExactIff(arrivals);
      assert arrivals[..|arrivals|] == arrivals;
    }
  }

  // ---------- What was lost ----------

  function Highest(arrivals: seq<nat>): (h: nat)
    ensures forall i :: 0 <= i < |arrivals| ==> arrivals[i] <= h
    ensures h == 0 || h in arrivals
  {
    if arrivals == [] then 0
    else
      var h := Highest(arrivals[..|arrivals| - 1]);
      if arrivals[|arrivals| - 1] > h then arrivals[|arrivals| - 1] else h
  }

  /** The sequence numbers below the highest one that have not arrived. */
  function Missing(arrivals: seq<nat>): set<nat> {
    set k: nat | 1 <= k < Highest(arrivals) && k !in arrivals
  }

  /** The arrivals that are not above the highest number before them. */
  function Late(arrivals: seq<nat>): set<nat> {
    set n: nat | n < |arrivals| && arrivals[n] <= Highest(arrivals[..n])
  }

  predicate Distinct(arrivals: seq<nat>) {
    forall i, j :: 0 <= i < j < |arrivals| ==> arrivals[i] != arrivals[j]
  }

  predicate FromOne(arrivals: seq<nat>) { forall i :: 0 <= i < |arrivals| ==> arrivals[i] >= 1 }

  function Between(a: nat, b: nat): (r: set<nat>)
    requires a < b
    ensures |r| == b - a - 1 && forall k :: k in r <==> a < k < b
    decreases b
  {
    if a + 1 == b then {} else Between(a, b - 1) + {b - 1}
  }

  lemma {:induction false} HighestStep(a: seq<nat>, p: nat)
    ensures Highest(a + [p]) == if p > Highest(a) then p else Highest(a)
    ensures forall k :: k in a + [p] <==> k in a || k == p
  {
    assert (a + [p])[..|a|] == a;
  }

  /** An arrival above the highest number leaves a gap. */
  lemma {:induction false} MissingGap(a: seq<nat>, p: nat)
    requires p > Highest(a)
    ensures |Missing(a + [p])| == |Missing(a)| + (p - Highest(a) - 1)
  {
    hide Highest;
    HighestStep(a, p);
    var h, m, m' := Highest(a), Missing(a), Missing(a + [p]);
    var gap := Between(h, p);
    forall k: nat ensures k in m' <==> k in m || k in gap {
    }
    assert m' == m + gap;
    assert m * gap == {};
  }

  /** A late arrival fills a gap, unless it is a repetition. */
  lemma {:induction false} MissingFilled(a: seq<nat>, p: nat)
    requires 1 <= p <= Highest(a)
    ensures |Missing(a + [p])| == if p in a then |Missing(a)| else |Missing(a)| - 1
  {
    hide Highest;
    HighestStep(a, p);
    var m, m' := Missing(a), Missing(a + [p]);
    forall k: nat ensures k in m' <==> k in m && k != p {
    }
    assert m' == m - {p};
  }

  /** For all arrivals, the highest number is kept and every late arrival is counted once. */
  lemma {:induction false} LateIsCounted(arrivals: seq<nat>)
    ensures Counted(arrivals).packetCount == Highest(arrivals) && Counted(arrivals).outOfOrder == |Late(arrivals)|
  {
    hide Highest, Late;
    if arrivals == [] {
      NoneLate();
    } else {
      var front, p := arrivals[..|arrivals| - 1], arrivals[|arrivals| - 1];
      LateIsCounted(front);
      HighestStep(front, p);
      assert arrivals == front + [p];
      LateStep(front, p);
    }
  }

  lemma {:induction false} LateStep(a: seq<nat>, p: nat)
    ensures |Late(a + [p])| == |Late(a)| + if p <= Highest(a) then 1 else 0
  {
    hide Highest;
    var all, n := a + [p], |a|;
    assert all[..n] == a && all[n] == p;
    forall k: nat ensures k in Late(all) <==> k in Late(a) || (k == n && p <= Highest(a)) {
      if k < n {
        assert all[k] == a[k] && all[..k] == a[..k];
      }
    }
    assert Late(all) == if p <= Highest(a) then Late(a) + {n} else Late(a);
  }

  lemma {:induction false} NoneLate()
    ensures Highest([]) == 0 && Late([]) == {}
  {
  }

  /** With packets that arrive at most once, in any order, the loss counter is exactly what is missing. */
  lemma {:induction false} LossIsExact(arrivals: seq<nat>)
    requires Distinct(arrivals) && FromOne(arrivals)
    ensures Counted(arrivals).packetCount == Highest(arrivals)
    ensures Counted(arrivals).cntError == |Missing(arrivals)|
  {
    if arrivals == [] {
      assert Missing(arrivals) == {};
    } else {
      var front, p := arrivals[..|arrivals| - 1], arrivals[|arrivals| - 1];
      LossIsExact(front);
      assert arrivals == front + [p] && p !in front;
      if p > Highest(front) {
        MissingGap(front, p);
      } else {
        MissingFilled(front, p);
      }
    }
  }

  /** Packets that arrive twice can hide losses but never invent them. */
  lemma {:induction false} LossIsNeverOverstated(arrivals: seq<nat>)
    requires FromOne(arrivals)
    ensures Counted(arrivals).packetCount == Highest(arrivals)
    ensures Counted(arrivals).cntError <= |Missing(arrivals)|
  {
    if arrivals == [] {
      assert Missing(arrivals) == {};
    } else {
      var front, p := arrivals[..|arrivals| - 1], arrivals[|arrivals| - 1];
      LossIsNeverOverstated(front);
      assert arrivals == front + [p];
      if p > Highest(front) {
        MissingGap(front, p);
      } else {
        MissingFilled(front, p);
      }
    }
  }

  /** The order of arrival does not matter. */
  lemma {:induction false} OrderDoesNotMatter(a: seq<nat>, b: seq<nat>)
    requires Distinct(a) && FromOne(a) && multiset(a) == multiset(b)
    ensures Counted(a).packetCount == Counted(b).packetCount && Counted(a).cntError == Counted(b).cntError
  {
    assert forall x :: x in a <==> x in multiset(a);
    assert forall x :: x in b <==> x in multiset(b);
    assert FromOne(b) by {
      forall i | 0 <= i < |b| ensures b[i] >= 1 {
        assert b[i] in a;
      }
    }
    assert Distinct(b) by {
      OnceEach(a);
      EachOnce(b);
    }
    LossIsExact(a);
    LossIsExact(b);
    assert Highest(a) == Highest(b) by {
      assert Highest(a) > 0 ==> Highest(a) in b;
      assert Highest(b) > 0 ==> Highest(b) in a;
    }
    assert Missing(a) == Missing(b);
  }

  lemma {:induction false} OnceEach(a: seq<nat>)
    requires Distinct(a)
    ensures forall x :: multiset(a)[x] <= 1
  {
    if a == [] {
    } else {
      var front := a[..|a| - 1];
      assert a == front + [a[|a| - 1]];
      OnceEach(front);
      assert a[|a| - 1] !in front;
    }
  }

  lemma {:induction false} EachOnce(b: seq<nat>)
    requires forall x :: multiset(b)[x] <= 1
    ensures Distinct(b)
  {
    forall i, j | 0 <= i < j < |b| ensures b[i] != b[j] {
      assert b == b[..j] + b[j..];
      assert b[i] == b[..j][i] && b[j] == b[j..][0];
      assert multiset(b)[b[j]] == multiset(b[..j])[b[j]] + multiset(b[j..])[b[j]];
      assert b[j] in b[j..] && b[i] in b[..j];
    }
  }

  /** The loss counter is right after every arrival so far. */
  predicate AlwaysExact(arrivals: seq<nat>) {
    forall n :: 0 <= n <= |arrivals| ==> Counted(arrivals[..n]).cntError == |Missing(arrivals[..n])|
  }

  /** No packet comes again while another one is missing. */
  predicate NoRepeatInGap(arrivals: seq<nat>) {
    forall n :: 0 <= n < |arrivals| && arrivals[n] in arrivals[..n] ==> Missing(arrivals[..n]) == {}
  }

  /** One arrival: a right counter stays right exactly when the packet does not come again while one is missing. */
  lemma {:induction false} StaysExact(a: seq<nat>, p: nat)
    requires FromOne(a) && p >= 1 && Counted(a).cntError == |Missing(a)|
    ensures Counted(a + [p]).cntError == |Missing(a + [p])| <==> (p in a ==> Missing(a) == {})
  {
    LossIsNeverOverstated(a);
    assert (a + [p])[..|a|] == a;
    if p > Highest(a) {
      MissingGap(a, p);
    } else {
      MissingFilled(a, p);
      if p !in a {
        assert p in Missing(a);
      }
    }
  }

  /**
   The exact condition for the loss counter, over all orders, losses and repetitions:
   it is right after every arrival if and only if no packet comes again while another
   one is missing.
   */
  lemma {:induction false} LossIsExactIff(arrivals: seq<nat>)
    requires FromOne(arrivals)
    ensures AlwaysExact(arrivals) <==> NoRepeatInGap(arrivals)
  {
    hide Counted, Missing;
    if arrivals == [] {
      NothingMissing();
    } else {
      var n := |arrivals| - 1;
      var front, p := arrivals[..n], arrivals[n];
      LossIsExactIff(front);
      assert arrivals == front + [p];
      assert forall k :: 0 <= k <= n ==> front[..k] == arrivals[..k];
      assert arrivals[..n + 1] == arrivals && front[..n] == front;
      if AlwaysExact(front) {
        StaysExact(front, p);
      }
    }
  }

  lemma {:induction false} NothingMissing()
    ensures Counted([]).cntError == |Missing([])| == 0
  {
    assert Missing([]) == {};
  }

  /** A packet that arrives twice hides a loss. */
  lemma {:induction false} DuplicateHidesLoss()
    ensures Counted([1, 3, 1]).cntError == 0 && Missing([1, 3, 1]) == {2}
  {
    assert [1, 3, 1][..2] == [1, 3] && [1, 3][..1] == [1] && [1][..0] == [];
    assert Counted([1]) == Counters(1, 0, 0);
    assert Counted([1, 3]) == Counters(3, 1, 0);
    assert Highest([1, 3, 1]) == 3;
  }
}
