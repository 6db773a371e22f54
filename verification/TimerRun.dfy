/**
 One pass of tmr_run over the sorted list of active timers, as a function: which
 timers fire, in which order, and what the list is afterwards.
 */
module TimerRun {

  /** An active timer: its owner, its deadline in microseconds, and how it repeats. */
  datatype Entry<T> = Entry(who: T, at: nat, period: nat, periodic: bool)

  datatype Firing<T> = Firing(who: T, at: nat)

  datatype Outcome<T> = Outcome(list: seq<Entry<T>>, fired: seq<Firing<T>>, freed: seq<T>)

  predicate Sorted<T>(es: seq<Entry<T>>) {
    forall i, j :: 0 <= i < j < |es| ==> es[i].at <= es[j].at
  }

  predicate DistinctWho<T(==)>(es: seq<Entry<T>>) {
    forall i, j :: 0 <= i < j < |es| ==> es[i].who != es[j].who
  }

  /** A due timer whose deadline does not move when it fires. */
  predicate Standing<T>(e: Entry<T>, now: nat) { e.periodic && e.period == 0 && e.at <= now }

  /** No two such timers have the same deadline. */
  predicate Ends<T>(es: seq<Entry<T>>, now: nat) {
    && Sorted(es)
    && forall i, j :: 0 <= i < j < |es| && Standing(es[i], now) && Standing(es[j], now) ==> es[i].at != es[j].at
  }

  /** list_add: after every timer that is not later. */
  function Insert<T>(es: seq<Entry<T>>, e: Entry<T>): (r: seq<Entry<T>>)
    ensures |r| == |es| + 1
  {
    if es == [] || e.at < es[0].at then [e] + es else [es[0]] + Insert(es[1..], e)
  }

  function Next<T>(e: Entry<T>): Entry<T> { e.(at := e.at + e.period) }

  function Overdue<T>(e: Entry<T>, now: nat): nat { if e.at > now then 0 else now - e.at + 1 }

  /** The termination measure of the walk, together with whether its first timer stands. */
  function Backlog<T>(es: seq<Entry<T>>, now: nat): nat {
    if es == [] then 0 else Overdue(es[0], now) + Backlog(es[1..], now)
  }

  lemma {:induction false} InsertBacklog<T>(es: seq<Entry<T>>, e: Entry<T>, now: nat)
    ensures Backlog(Insert(es, e), now) == Overdue(e, now) + Backlog(es, now)
  {
    if es == [] || e.at < es[0].at {
      assert ([e] + es)[1..] == es;
    } else {
      InsertBacklog(es[1..], e, now);
      var r := [es[0]] + Insert(es[1..], e);
      assert r[1..] == Insert(es[1..], e);
    }
  }

  function FirstStands<T>(es: seq<Entry<T>>, now: nat): nat {
    if es != [] && Standing(es[0], now) then 1 else 0
  }

  /** The measure of the walk is smaller. */
  predicate Sooner<T>(a: seq<Entry<T>>, b: seq<Entry<T>>, now: nat) {
    Backlog(a, now) < Backlog(b, now) || (Backlog(a, now) == Backlog(b, now) && FirstStands(a, now) < FirstStands(b, now))
  }

  /** A timer that goes back into the rest of the list brings the walk closer to its end. */
  lemma {:induction false} Shrinks<T>(rest: seq<Entry<T>>, now: nat)
    requires rest != [] && Ends(rest, now) && rest[0].at <= now && rest[0].periodic
    ensures rest[1..] == [] || Next(rest[0]).at < rest[1].at || Sooner(Insert(rest[1..], Next(rest[0])), rest, now)
    ensures Sooner(rest[1..], rest, now)
  {
    InsertBacklog(rest[1..], Next(rest[0]), now);
    InsertHead(rest[1..], Next(rest[0]));
  }

  /**
   The walk: `done` is what the list holds before the saved next timer, `rest` is
   what it holds from there on. A periodic timer that fires goes back in by its new
   deadline, either before the saved next timer, where the walk no longer looks, or
   further on.
   */
  function Walk<T>(done: seq<Entry<T>>, rest: seq<Entry<T>>, now: nat): Outcome<T>
    requires Ends(rest, now)
    decreases Backlog(rest, now), FirstStands(rest, now)
  {
    if rest == [] || rest[0].at > now then Outcome(done + rest, [], [])
    else
      var t, others := rest[0], rest[1..];
      FiringEnds(rest, now);
      var fired := Firing(t.who, t.at);
      if !t.periodic then
        var r := Walk(done, others, now);
        Outcome(r.list, [fired] + r.fired, [t.who] + r.freed)
      else
        Shrinks(rest, now);
        var r := if others == [] || Next(t).at < others[0].at then Walk(done + [Next(t)], others, now)
                 else Walk(done, Insert(others, Next(t)), now);
        Outcome(r.list, [fired] + r.fired, r.freed)
  }

  // ---------- Order ----------

  lemma {:induction false} InsertMembers<T>(es: seq<Entry<T>>, e: Entry<T>)
    ensures forall x :: x in Insert(es, e) <==> x == e || x in es
  {
    if es == [] || e.at < es[0].at {
    } else {
      InsertMembers(es[1..], e);
      assert es == [es[0]] + es[1..];
    }
  }

  predicate AllFrom<T>(es: seq<Entry<T>>, d: nat) { forall i :: 0 <= i < |es| ==> d <= es[i].at }

  lemma {:induction false} InsertAllFrom<T>(es: seq<Entry<T>>, e: Entry<T>, d: nat)
    requires AllFrom(es, d) && d <= e.at
    ensures AllFrom(Insert(es, e), d)
  {
    if es == [] || e.at < es[0].at {
    } else {
      InsertAllFrom(es[1..], e, d);
    }
  }

  lemma {:induction false} InsertSorted<T>(es: seq<Entry<T>>, e: Entry<T>)
    requires Sorted(es)
    ensures Sorted(Insert(es, e))
  {
    if es == [] || e.at < es[0].at {
    } else {
      InsertSorted(es[1..], e);
      InsertAllFrom(es[1..], e, es[0].at);
    }
  }

  lemma {:induction false} InsertHead<T>(es: seq<Entry<T>>, e: Entry<T>)
    ensures es != [] && es[0].at <= e.at ==> Insert(es, e)[0] == es[0]
  {
  }

  lemma {:induction false} InsertEnds<T>(es: seq<Entry<T>>, e: Entry<T>, now: nat)
    requires Ends(es, now)
    requires forall i :: 0 <= i < |es| && Standing(e, now) && Standing(es[i], now) ==> es[i].at != e.at
    ensures Ends(Insert(es, e), now)
  {
    hide Standing;
    InsertSorted(es, e);
    if es == [] || e.at < es[0].at {
    } else {
      var rest := es[1..];
      SortedTail(es);
      InsertEnds(rest, e, now);
      InsertMembers(rest, e);
      var r := Insert(rest, e);
      forall j | 0 <= j < |r| && Standing(es[0], now) && Standing(r[j], now) ensures es[0].at != r[j].at {
        assert r[j] in r;
      }
    }
  }

  /** The condition is kept by every firing. */
  lemma {:induction false} FiringEnds<T>(rest: seq<Entry<T>>, now: nat)
    requires rest != [] && Ends(rest, now)
    ensures Ends(rest[1..], now) && Ends(Insert(rest[1..], Next(rest[0])), now)
  {
    SortedTail(rest);
    InsertEnds(rest[1..], Next(rest[0]), now);
  }

  lemma {:induction false} SortedTail<T>(rest: seq<Entry<T>>)
    requires rest != [] && Sorted(rest)
    ensures Sorted(rest[1..])
  {
  }

  /** Insertion into a sorted list puts the timer after all that are not later and before all that are. */
  lemma {:induction false} InsertSplits<T>(es: seq<Entry<T>>, e: Entry<T>, k: nat)
    requires Sorted(es) && k <= |es|
    requires forall i :: 0 <= i < k ==> es[i].at <= e.at
    requires k < |es| ==> e.at < es[k].at
    ensures Insert(es, e) == es[..k] + [e] + es[k..]
    decreases |es|
  {
    if k == 0 {
    } else {
      InsertSplits(es[1..], e, k - 1);
      assert es[1..][..k - 1] == es[1..k];
      assert es[..k] == [es[0]] + es[1..k];
    }
  }

  lemma {:induction false} SortedPrefix<T>(done: seq<Entry<T>>, rest: seq<Entry<T>>)
    requires Sorted(done + rest)
    ensures Sorted(done) && Sorted(rest)
    ensures forall i, j :: 0 <= i < |done| && 0 <= j < |rest| ==> done[i].at <= rest[j].at
  {
    assert forall i :: 0 <= i < |done| ==> (done + rest)[i] == done[i];
    assert forall j :: 0 <= j < |rest| ==> (done + rest)[|done| + j] == rest[j];
  }

  /** One firing keeps the list sorted, wherever the timer goes. */
  lemma {:induction false} FiringKeepsSorted<T>(done: seq<Entry<T>>, rest: seq<Entry<T>>)
    requires rest != [] && Sorted(done + rest)
    ensures Sorted(done + rest[1..])
    ensures rest[1..] == [] || Next(rest[0]).at < rest[1].at ==> Sorted(done + [Next(rest[0])] + rest[1..])
    ensures Sorted(done + Insert(rest[1..], Next(rest[0])))
  {
    SortedPrefix(done, rest);
    var t, others := rest[0], rest[1..];
    InsertSorted(others, Next(t));
    InsertAllFrom(others, Next(t), t.at);
  }

  /** The list is sorted after the walk. */
  lemma {:induction false} WalkSorted<T>(done: seq<Entry<T>>, rest: seq<Entry<T>>, now: nat)
    requires Sorted(done + rest) && Ends(rest, now)
    ensures Sorted(Walk(done, rest, now).list)
    decreases Backlog(rest, now), FirstStands(rest, now)
  {
    if rest != [] && rest[0].at <= now {
      hide Sorted;
      var t, others := rest[0], rest[1..];
      FiringEnds(rest, now);
      FiringKeepsSorted(done, rest);
      if !t.periodic {
        WalkSorted(done, others, now);
      } else {
        Shrinks(rest, now);
        if others == [] || Next(t).at < others[0].at {
          WalkSorted(done + [Next(t)], others, now);
        } else {
          WalkSorted(done, Insert(others, Next(t)), now);
        }
      }
    }
  }

  predicate FiredWithin<T>(fired: seq<Firing<T>>, d: nat, now: nat) {
    forall i :: 0 <= i < |fired| ==> d <= fired[i].at <= now
  }

  predicate InOrder<T>(fired: seq<Firing<T>>) {
    forall i, j :: 0 <= i < j < |fired| ==> fired[i].at <= fired[j].at
  }

  /** Only timers that are due fire, and their deadlines never go back. */
  lemma {:induction false} WalkFiresInOrder<T>(done: seq<Entry<T>>, rest: seq<Entry<T>>, now: nat, d: nat)
    requires Sorted(rest) && AllFrom(rest, d) && Ends(rest, now)
    ensures FiredWithin(Walk(done, rest, now).fired, d, now) && InOrder(Walk(done, rest, now).fired)
    decreases Backlog(rest, now), FirstStands(rest, now)
  {
    if rest != [] && rest[0].at <= now {
      var t, others := rest[0], rest[1..];
      FiringEnds(rest, now);
      if !t.periodic {
        WalkFiresInOrder(done, others, now, t.at);
        PrependFiring(t, Walk(done, others, now).fired, d, now);
      } else {
        Shrinks(rest, now);
        if others == [] || Next(t).at < others[0].at {
          WalkFiresInOrder(done + [Next(t)], others, now, t.at);
          PrependFiring(t, Walk(done + [Next(t)], others, now).fired, d, now);
        } else {
          InsertSorted(others, Next(t));
          InsertAllFrom(others, Next(t), t.at);
          WalkFiresInOrder(done, Insert(others, Next(t)), now, t.at);
          PrependFiring(t, Walk(done, Insert(others, Next(t)), now).fired, d, now);
        }
      }
    }
  }

  lemma {:induction false} PrependFiring<T>(t: Entry<T>, fired: seq<Firing<T>>, d: nat, now: nat)
    requires d <= t.at <= now && FiredWithin(fired, t.at, now) && InOrder(fired)
    ensures FiredWithin([Firing(t.who, t.at)] + fired, d, now) && InOrder([Firing(t.who, t.at)] + fired)
  {
  }

  // ---------- What happens to each timer ----------

  ghost function Count<T>(fired: seq<Firing<T>>, who: T): nat {
    if fired == [] then 0 else (if fired[0].who == who then 1 else 0) + Count(fired[1..], who)
  }

  ghost predicate Absent<T>(es: seq<Entry<T>>, who: T) {
    forall i :: 0 <= i < |es| ==> es[i].who != who
  }

  lemma {:induction false} AbsentInsert<T>(es: seq<Entry<T>>, e: Entry<T>, who: T)
    ensures Absent(Insert(es, e), who) <==> Absent(es, who) && e.who != who
  {
    InsertMembers(es, e);
    var r := Insert(es, e);
    if Absent(r, who) {
      forall i | 0 <= i < |es| ensures es[i].who != who {
        assert es[i] in r;
      }
      assert e in r;
    }
    if Absent(es, who) && e.who != who {
      forall i | 0 <= i < |r| ensures r[i].who != who {
        assert r[i] in r;
      }
    }
  }

  /** A timer that the walk has passed neither fires nor moves. */
  lemma {:induction false} PassedStays<T>(done: seq<Entry<T>>, rest: seq<Entry<T>>, now: nat, who: T)
    requires Absent(rest, who) && Ends(rest, now)
    ensures var r := Walk(done, rest, now);
            && Count(r.fired, who) == 0 && who !in r.freed
            && (forall e :: e in done ==> e in r.list)
            && (Absent(done, who) ==> Absent(r.list, who))
    decreases Backlog(rest, now), FirstStands(rest, now)
  {
    if rest != [] && rest[0].at <= now {
      var t, others := rest[0], rest[1..];
      FiringEnds(rest, now);
      var r := Walk(done, rest, now);
      if !t.periodic {
        PassedStays(done, others, now, who);
      } else {
        Shrinks(rest, now);
        AbsentInsert(others, Next(t), who);
        if others == [] || Next(t).at < others[0].at {
          PassedStays(done + [Next(t)], others, now, who);
        } else {
          PassedStays(done, Insert(others, Next(t)), now, who);
        }
      }
      assert r.fired[1..] == (if !t.periodic then Walk(done, others, now)
                              else if others == [] || Next(t).at < others[0].at then Walk(done + [Next(t)], others, now)
                              else Walk(done, Insert(others, Next(t)), now)).fired;
    }
  }

  lemma {:induction false} CountFirst<T>(f: Firing<T>, fired: seq<Firing<T>>, who: T)
    ensures Count([f] + fired, who) == (if f.who == who then 1 else 0) + Count(fired, who)
  {
    assert ([f] + fired)[1..] == fired;
  }

  /** What the walk owes to one timer of the list. */
  ghost predicate Served<T>(e: Entry<T>, now: nat, r: Outcome<T>) {
    var n := Count(r.fired, e.who);
    if e.at > now then n == 0 && e in r.list && e.who !in r.freed
    else if e.periodic then n >= 1 && e.(at := e.at + n * e.period) in r.list && e.who !in r.freed
    else n == 1 && Absent(r.list, e.who) && e.who in r.freed
  }

  /** Firing a periodic timer once and then serving it by its new deadline serves it. */
  lemma {:induction false} ServedAgain<T>(t: Entry<T>, now: nat, r: Outcome<T>)
    requires t.periodic && t.at <= now && Served(Next(t), now, r)
    ensures Served(t, now, Outcome(r.list, [Firing(t.who, t.at)] + r.fired, r.freed))
  {
    var n := Count(r.fired, t.who);
    CountFirst(Firing(t.who, t.at), r.fired, t.who);
    assert Next(t).at + n * t.period == t.at + (n + 1) * t.period;
    assert n == 0 ==> Next(t) == t.(at := t.at + (n + 1) * t.period);
  }

  /** A timer served by the rest of the walk is served by the walk with another firing in front. */
  lemma {:induction false} ServedAfter<T>(e: Entry<T>, now: nat, f: Firing<T>, r: Outcome<T>, freed: seq<T>)
    requires Served(e, now, r) && f.who != e.who
    requires freed == r.freed || freed == [f.who] + r.freed
    ensures Served(e, now, Outcome(r.list, [f] + r.fired, freed))
  {
    CountFirst(f, r.fired, e.who);
  }

  /**
   Every timer in the list is served: one that is not due stays as it is; a one-shot
   timer that is due fires exactly once and leaves the list for the free list; a
   periodic timer that is due fires at least once, and its deadline moves on by
   exactly one period for each firing.
   */
  lemma {:induction false} WalkServes<T>(done: seq<Entry<T>>, rest: seq<Entry<T>>, now: nat, k: nat)
    requires k < |rest| && DistinctWho(done + rest) && Sorted(rest)
    requires Ends(rest, now)
    ensures Served(rest[k], now, Walk(done, rest, now))
    decreases Backlog(rest, now), FirstStands(rest, now)
  {
    hide Served, DistinctWho, Sorted, Absent, Insert;
    var t, others, e := rest[0], rest[1..], rest[k];
    var f := Firing(t.who, t.at);
    DistinctTail(done, rest);
    FiringEnds(rest, now);
    if t.at > now {
      NotDue(done, rest, now, k);
    } else if !t.periodic {
      var r := Walk(done, others, now);
      if k == 0 {
        OneShot(done, rest, now);
      } else {
        WalkServes(done, others, now, k - 1);
        ServedAfter(e, now, f, r, [t.who] + r.freed);
      }
    } else {
      Shrinks(rest, now);
      if others == [] || Next(t).at < others[0].at {
        var r := Walk(done + [Next(t)], others, now);
        DistinctMoved(done, rest);
        if k == 0 {
          LeftBehind(done, rest, now);
        } else {
          WalkServes(done + [Next(t)], others, now, k - 1);
          ServedAfter(e, now, f, r, r.freed);
        }
      } else {
        var inserted := Insert(others, Next(t));
        var r := Walk(done, inserted, now);
        InsertSorted(others, Next(t));
        DistinctInserted(done, rest);
        InsertMembers(others, Next(t));
        if k == 0 {
          assert Next(t) in inserted;
          var j :| 0 <= j < |inserted| && inserted[j] == Next(t);
          WalkServes(done, inserted, now, j);
          ServedAgain(t, now, r);
        } else {
          assert e == others[k - 1] && e in others && e in inserted;
          var j :| 0 <= j < |inserted| && inserted[j] == e;
          WalkServes(done, inserted, now, j);
          ServedAfter(e, now, f, r, r.freed);
        }
      }
    }
  }

  /** A whole run: the list stays sorted, deadlines fire in order and none early, and every timer is served. */
  lemma {:induction false} RunServesAll<T>(es: seq<Entry<T>>, now: nat)
    requires Sorted(es) && DistinctWho(es) && Ends(es, now)
    ensures var r := Walk([], es, now);
            && Sorted(r.list)
            && FiredWithin(r.fired, 0, now) && InOrder(r.fired)
            && forall k :: 0 <= k < |es| ==> Served(es[k], now, r)
  {
    hide Walk, Served, Sorted, DistinctWho;
    assert [] + es == es;
    WalkSorted([], es, now);
    WalkFiresInOrder([], es, now, 0);
    forall k | 0 <= k < |es| ensures Served(es[k], now, Walk([], es, now)) {
      WalkServes([], es, now, k);
    }
  }

  lemma {:induction false} NotDue<T>(done: seq<Entry<T>>, rest: seq<Entry<T>>, now: nat, k: nat)
    requires k < |rest| && Sorted(rest) && rest[0].at > now
    requires Ends(rest, now)
    ensures Served(rest[k], now, Walk(done, rest, now))
  {
    assert rest[k].at > now;
    assert (done + rest)[|done| + k] == rest[k];
  }

  lemma {:induction false} DistinctTail<T>(done: seq<Entry<T>>, rest: seq<Entry<T>>)
    requires rest != [] && DistinctWho(done + rest)
    ensures DistinctWho(done + rest[1..])
    ensures Absent(done, rest[0].who) && Absent(rest[1..], rest[0].who)
    ensures forall i :: 0 < i < |rest| ==> rest[i].who != rest[0].who
  {
    var all := done + rest;
    assert forall i :: 0 <= i < |rest| ==> all[|done| + i] == rest[i];
    assert forall i :: 0 <= i < |done| ==> all[i] == done[i];
    assert done + rest[1..] == all[..|done|] + all[|done| + 1..];
  }

  lemma {:induction false} DistinctMoved<T>(done: seq<Entry<T>>, rest: seq<Entry<T>>)
    requires rest != [] && DistinctWho(done + rest)
    ensures DistinctWho(done + [Next(rest[0])] + rest[1..])
  {
    var moved := done + [Next(rest[0])] + rest[1..];
    forall i | 0 <= i < |moved| ensures moved[i].who == (done + rest)[i].who {
    }
  }

  lemma {:induction false} DistinctInserted<T>(done: seq<Entry<T>>, rest: seq<Entry<T>>)
    requires rest != [] && DistinctWho(done + rest)
    ensures DistinctWho(done + Insert(rest[1..], Next(rest[0])))
  {
    DistinctTail(done, rest);
    DistinctInsert(done, rest[1..], Next(rest[0]));
  }

  lemma {:induction false} DistinctInsert<T>(done: seq<Entry<T>>, es: seq<Entry<T>>, e: Entry<T>)
    requires DistinctWho(done + es) && Absent(done, e.who) && Absent(es, e.who)
    ensures DistinctWho(done + Insert(es, e))
    decreases |es|
  {
    if es == [] || e.at < es[0].at {
      var all, r := done + es, done + ([e] + es);
      forall i, j | 0 <= i < j < |r| ensures r[i].who != r[j].who {
        assert i < |done| ==> r[i] == all[i];
        assert i > |done| ==> r[i] == all[i - 1] == es[i - |done| - 1];
        assert j < |done| ==> r[j] == all[j];
        assert j > |done| ==> r[j] == all[j - 1] == es[j - |done| - 1];
      }
    } else {
      assert done + [es[0]] + es[1..] == done + es;
      DistinctInsert(done + [es[0]], es[1..], e);
      assert done + [es[0]] + Insert(es[1..], e) == done + ([es[0]] + Insert(es[1..], e));
    }
  }

  lemma {:induction false} OneShot<T>(done: seq<Entry<T>>, rest: seq<Entry<T>>, now: nat)
    requires rest != [] && DistinctWho(done + rest) && rest[0].at <= now && !rest[0].periodic
    requires Ends(rest, now)
    ensures Served(rest[0], now, Walk(done, rest, now))
  {
    var t := rest[0];
    DistinctTail(done, rest);
    PassedStays(done, rest[1..], now, t.who);
    CountFirst(Firing(t.who, t.at), Walk(done, rest[1..], now).fired, t.who);
  }

  lemma {:induction false} LeftBehind<T>(done: seq<Entry<T>>, rest: seq<Entry<T>>, now: nat)
    requires rest != [] && DistinctWho(done + rest) && rest[0].at <= now && rest[0].periodic
    requires rest[1..] == [] || Next(rest[0]).at < rest[1].at
    requires Ends(rest, now)
    ensures Served(rest[0], now, Walk(done, rest, now))
  {
    var t := rest[0];
    DistinctTail(done, rest);
    PassedStays(done + [Next(t)], rest[1..], now, t.who);
    CountFirst(Firing(t.who, t.at), Walk(done + [Next(t)], rest[1..], now).fired, t.who);
    assert Next(t) in done + [Next(t)];
  }

  /** Insertion behind a part of the list that is not later happens in the other part. */
  lemma {:induction false} InsertBehind<T>(done: seq<Entry<T>>, others: seq<Entry<T>>, e: Entry<T>)
    requires forall i :: 0 <= i < |done| ==> done[i].at <= e.at
    ensures Insert(done + others, e) == done + Insert(others, e)
    decreases |done|
  {
    if done == [] {
      assert done + others == others;
    } else {
      assert (done + others)[1..] == done[1..] + others;
      InsertBehind(done[1..], others, e);
      assert done == [done[0]] + done[1..];
    }
  }

  // ---------- What may still be due ----------

  /** No periodic timer is a whole period late. */
  predicate Timely<T>(es: seq<Entry<T>>, now: nat) {
    forall i :: 0 <= i < |es| ==> es[i].periodic ==> es[i].at + es[i].period > now
  }

  lemma {:induction false} InsertTimely<T>(es: seq<Entry<T>>, e: Entry<T>, now: nat)
    requires Timely(es, now) && Timely([e], now)
    ensures Timely(Insert(es, e), now)
  {
    assert [e][0] == e;
    if es == [] || e.at < es[0].at {
    } else {
      InsertTimely(es[1..], e, now);
    }
  }

  /** When no periodic timer is a whole period late, nothing in the list is due after the walk. */
  lemma {:induction false} NothingLeftDue<T>(done: seq<Entry<T>>, rest: seq<Entry<T>>, now: nat)
    requires AllFrom(done, now + 1) && Sorted(rest)
    requires Timely(rest, now) && Ends(rest, now)
    ensures AllFrom(Walk(done, rest, now).list, now + 1)
    decreases Backlog(rest, now), FirstStands(rest, now)
  {
    if rest != [] && rest[0].at <= now {
      var t, others := rest[0], rest[1..];
      FiringEnds(rest, now);
      if !t.periodic {
        NothingLeftDue(done, others, now);
      } else {
        Shrinks(rest, now);
        if others == [] || Next(t).at < others[0].at {
          NothingLeftDue(done + [Next(t)], others, now);
        } else {
          InsertSorted(others, Next(t));
          InsertTimely(others, Next(t), now);
          NothingLeftDue(done, Insert(others, Next(t)), now);
        }
      }
    }
  }

  /** A lone periodic timer fires only once however late it is: it is still due exactly when its next deadline is. */
  lemma {:induction false} LoneTimerFiresOnce<T>(e: Entry<T>, now: nat)
    requires e.periodic && e.at <= now
    ensures Walk([], [e], now) == Outcome([Next(e)], [Firing(e.who, e.at)], [])
    ensures AllFrom(Walk([], [e], now).list, now + 1) <==> e.at + e.period > now
  {
    var r := Walk([Next(e)], [], now);
    assert [e][1..] == [] && [] + [Next(e)] == [Next(e)] && [Next(e)] + [] == [Next(e)];
    assert r == Outcome([Next(e)], [], []);
    assert [Firing(e.who, e.at)] + [] == [Firing(e.who, e.at)];
    InsertBacklog([], Next(e), now);
    assert Walk([], [e], now).list == [Next(e)];
  }

  /** The n-th deadline of a timer after the current one. */
  function Deadline<T>(e: Entry<T>, n: nat): nat { e.at + n * e.period }

  lemma {:induction false} NextDeadline<T>(e: Entry<T>, n: nat)
    ensures Deadline(e, 0) == e.at && Deadline(e, 1) == Next(e).at && Deadline(Next(e), n) == Deadline(e, n + 1)
    ensures Deadline(e, n + 1) >= Deadline(e, 1) && Deadline(e, n) >= e.at
  {
    assert (n + 1) * e.period == n * e.period + e.period;
  }

  /** The i-th timer is the only periodic one. */
  predicate LonePeriodic<T>(es: seq<Entry<T>>, i: nat) {
    i < |es| && forall j :: 0 <= j < |es| ==> (es[j].periodic <==> j == i)
  }

  /** A later timer has a deadline in the period of the i-th timer that ends with its n-th deadline. */
  predicate PeriodHolds<T>(es: seq<Entry<T>>, i: nat, n: nat)
    requires i < |es| && n > 0
  {
    exists j :: i < j < |es| && InPeriod(es[i], n, es[j])
  }

  predicate InPeriod<T>(e: Entry<T>, n: nat, other: Entry<T>)
    requires n > 0
  {
    (n == 1 || Deadline(e, n - 1) < other.at) && other.at <= Deadline(e, n)
  }

  /** Every period of the i-th timer that ends by now holds another deadline. */
  ghost predicate PeriodsHold<T>(es: seq<Entry<T>>, i: nat, now: nat)
    requires i < |es|
  {
    forall n: nat :: n > 0 && Deadline(es[i], n) <= now ==> PeriodHolds(es, i, n)
  }

  /**
   A periodic timer among one-shot timers: nothing is due after the walk if and only if
   every period of it that ends by now holds another deadline. The firing of that other
   timer is what brings the walk back to the periodic one.
   */
  lemma {:induction false} NothingLeftDueIff<T>(done: seq<Entry<T>>, rest: seq<Entry<T>>, now: nat, i: nat)
    requires Ends(rest, now) && LonePeriodic(rest, i) && AllFrom(done, now + 1)
    ensures AllFrom(Walk(done, rest, now).list, now + 1) <==> PeriodsHold(rest, i, now)
    decreases Backlog(rest, now), FirstStands(rest, now)
  {
    hide PeriodHolds, Deadline, Backlog, FirstStands;
    var t, others := rest[0], rest[1..];
    if t.at > now {
      NothingDue(done, rest, now, i);
    } else {
      FiringEnds(rest, now);
      if i > 0 {
        DropFirst(rest, now, i);
        OneShotSooner(rest, now);
        NothingLeftDueIff(done, others, now, i - 1);
      } else if others == [] || Next(t).at < others[0].at {
        LeftForGood(done, rest, now);
      } else {
        Shrinks(rest, now);
        var c := Moves(rest, now);
        NothingLeftDueIff(done, Insert(others, Next(t)), now, c);
      }
    }
  }

  lemma {:induction false} NothingDue<T>(done: seq<Entry<T>>, rest: seq<Entry<T>>, now: nat, i: nat)
    requires Ends(rest, now) && i < |rest| && rest[0].at > now && AllFrom(done, now + 1)
    ensures AllFrom(Walk(done, rest, now).list, now + 1) && PeriodsHold(rest, i, now)
  {
    hide Deadline;
    forall n: nat ensures Deadline(rest[i], n) > now {
      NextDeadline(rest[i], n);
    }
  }

  lemma {:induction false} OneShotSooner<T>(rest: seq<Entry<T>>, now: nat)
    requires rest != [] && rest[0].at <= now
    ensures Sooner(rest[1..], rest, now)
  {
  }

  /** A one-shot timer in front of the periodic one does not matter. */
  lemma {:induction false} DropFirst<T>(rest: seq<Entry<T>>, now: nat, i: nat)
    requires LonePeriodic(rest, i) && i > 0
    ensures LonePeriodic(rest[1..], i - 1)
    ensures PeriodsHold(rest, i, now) <==> PeriodsHold(rest[1..], i - 1, now)
  {
    hide Deadline, InPeriod;
    var others := rest[1..];
    assert forall j :: 0 <= j < |others| ==> others[j] == rest[j + 1];
    forall n: nat | n > 0 ensures PeriodHolds(rest, i, n) <==> PeriodHolds(others, i - 1, n) {
      if PeriodHolds(rest, i, n) {
        var j :| i < j < |rest| && InPeriod(rest[i], n, rest[j]);
        assert others[j - 1] == rest[j];
      }
      if PeriodHolds(others, i - 1, n) {
        var j :| i - 1 < j < |others| && InPeriod(others[i - 1], n, others[j]);
        assert rest[j + 1] == others[j];
      }
    }
  }

  /** The periodic timer is left behind: it is due afterwards exactly when its next deadline is. */
  lemma {:induction false} LeftForGood<T>(done: seq<Entry<T>>, rest: seq<Entry<T>>, now: nat)
    requires Ends(rest, now) && LonePeriodic(rest, 0) && AllFrom(done, now + 1) && rest[0].at <= now
    requires rest[1..] == [] || Next(rest[0]).at < rest[1].at
    ensures AllFrom(Walk(done, rest, now).list, now + 1) <==> PeriodsHold(rest, 0, now)
  {
    hide Deadline;
    var t, others := rest[0], rest[1..];
    FiringEnds(rest, now);
    var r := Walk(done + [Next(t)], others, now);
    assert Walk(done, rest, now).list == r.list by {
      Shrinks(rest, now);
    }
    NextDeadline(t, 0);
    if Next(t).at > now {
      assert Timely(others, now);
      NothingLeftDue(done + [Next(t)], others, now);
      forall n: nat | n > 0 ensures Deadline(t, n) > now {
        NextDeadline(t, n - 1);
      }
    } else {
      StaysInList(done + [Next(t)], others, now, |done|);
      assert Deadline(rest[0], 1) <= now && !PeriodHolds(rest, 0, 1);
    }
  }

  /** What the walk has passed stays in the list. */
  lemma {:induction false} StaysInList<T>(done: seq<Entry<T>>, rest: seq<Entry<T>>, now: nat, k: nat)
    requires Ends(rest, now) && k < |done|
    ensures var r := Walk(done, rest, now); |r.list| > k && r.list[k] == done[k]
    decreases Backlog(rest, now), FirstStands(rest, now)
  {
    if rest == [] || rest[0].at > now {
    } else {
      var t, others := rest[0], rest[1..];
      FiringEnds(rest, now);
      if !t.periodic {
        StaysInList(done, others, now, k);
      } else {
        Shrinks(rest, now);
        if others == [] || Next(t).at < others[0].at {
          StaysInList(done + [Next(t)], others, now, k);
        } else {
          StaysInList(done, Insert(others, Next(t)), now, k);
        }
      }
    }
  }

  /** The periodic timer goes back into the list: its periods from the second on are what is left to hold. */
  lemma {:induction false} Moves<T>(rest: seq<Entry<T>>, now: nat) returns (c: nat)
    requires Ends(rest, now) && LonePeriodic(rest, 0) && |rest| > 1 && rest[1].at <= Next(rest[0]).at
    ensures LonePeriodic(Insert(rest[1..], Next(rest[0])), c)
    ensures PeriodsHold(rest, 0, now) <==> PeriodsHold(Insert(rest[1..], Next(rest[0])), c, now)
  {
    hide PeriodsHold, Insert, Sorted;
    var t, others := rest[0], rest[1..];
    SortedTail(rest);
    c := Place(others, Next(t));
    InsertSplits(others, Next(t), c);
    var r := others[..c] + [Next(t)] + others[c..];
    assert forall j :: 0 <= j < |r| ==> r[j] == if j < c then others[j] else if j == c then Next(t) else others[j - 1];
    PeriodsMove(rest, r, c, now);
  }

  lemma {:induction false} PeriodsMove<T>(rest: seq<Entry<T>>, r: seq<Entry<T>>, c: nat, now: nat)
    requires |rest| > 1 && rest[1].at <= Next(rest[0]).at && c < |r| == |rest| && r[c] == Next(rest[0])
    requires forall j :: 0 < j <= c ==> rest[j].at <= Next(rest[0]).at
    requires forall j :: c < j < |rest| ==> r[j] == rest[j] && Next(rest[0]).at < rest[j].at
    ensures PeriodsHold(rest, 0, now) <==> PeriodsHold(r, c, now)
  {
    hide Deadline, PeriodHolds;
    var t := rest[0];
    HeldAtOnce(rest);
    forall n: nat | n > 0 ensures Deadline(r[c], n) == Deadline(t, n + 1) {
      NextDeadline(t, n);
    }
    forall n: nat | n > 0 ensures PeriodHolds(rest, 0, n + 1) <==> PeriodHolds(r, c, n) {
      OnePeriodOn(rest, r, c, n);
    }
    if PeriodsHold(r, c, now) {
      forall n: nat | n > 0 && Deadline(t, n) <= now ensures PeriodHolds(rest, 0, n) {
        if n > 1 {
          var m := n - 1;
          assert Deadline(r[c], m) == Deadline(t, m + 1) && (PeriodHolds(rest, 0, m + 1) <==> PeriodHolds(r, c, m));
        }
      }
    }
    if PeriodsHold(rest, 0, now) {
      forall n: nat | n > 0 && Deadline(r[c], n) <= now ensures PeriodHolds(r, c, n) {
        assert Deadline(rest[0], n + 1) <= now;
        assert PeriodHolds(rest, 0, n + 1);
      }
    }
  }

  lemma {:induction false} HeldAtOnce<T>(rest: seq<Entry<T>>)
    requires |rest| > 1 && rest[1].at <= Next(rest[0]).at
    ensures PeriodHolds(rest, 0, 1)
  {
    NextDeadline(rest[0], 0);
    assert InPeriod(rest[0], 1, rest[1]);
  }

  lemma {:induction false} OnePeriodOn<T>(rest: seq<Entry<T>>, r: seq<Entry<T>>, c: nat, n: nat)
    requires |rest| > 1 && n > 0 && c < |r| == |rest| && r[c] == Next(rest[0])
    requires forall j :: 0 < j <= c ==> rest[j].at <= Next(rest[0]).at
    requires forall j :: c < j < |rest| ==> r[j] == rest[j] && Next(rest[0]).at < rest[j].at
    ensures PeriodHolds(rest, 0, n + 1) <==> PeriodHolds(r, c, n)
  {
    var t := rest[0];
    forall x: Entry<T> | Next(t).at < x.at ensures InPeriod(t, n + 1, x) <==> InPeriod(r[c], n, x) {
      LaterPeriod(t, n, x);
    }
    hide InPeriod;
    if PeriodHolds(rest, 0, n + 1) {
      var j :| 0 < j < |rest| && InPeriod(rest[0], n + 1, rest[j]);
      NotInFirst(t, n, rest[j]);
      assert r[j] == rest[j];
    }
    if PeriodHolds(r, c, n) {
      var j :| c < j < |r| && InPeriod(r[c], n, r[j]);
      assert rest[j] == r[j];
    }
  }

  lemma {:induction false} LaterPeriod<T>(t: Entry<T>, n: nat, x: Entry<T>)
    requires n > 0 && Next(t).at < x.at
    ensures InPeriod(t, n + 1, x) <==> InPeriod(Next(t), n, x)
  {
    hide Deadline;
    NextDeadline(t, 0);
    NextDeadline(t, n);
    NextDeadline(t, n - 1);
  }

  lemma {:induction false} NotInFirst<T>(t: Entry<T>, n: nat, x: Entry<T>)
    requires n > 0 && InPeriod(t, n + 1, x)
    ensures Next(t).at < x.at
  {
    hide Deadline;
    NextDeadline(t, n - 1);
  }

  /** Where insertion puts a timer. */
  lemma {:induction false} Place<T>(es: seq<Entry<T>>, e: Entry<T>) returns (c: nat)
    requires Sorted(es)
    ensures c <= |es| && (forall j :: 0 <= j < c ==> es[j].at <= e.at) && forall j :: c <= j < |es| ==> e.at < es[j].at
  {
    c := 0;
    while c < |es| && es[c].at <= e.at
      invariant c <= |es| && forall j :: 0 <= j < c ==> es[j].at <= e.at
    {
      c := c + 1;
    }
  }

  // ---------- When the walk ends ----------

  /** The loop of tmr_run between two turns. */
  datatype Loop<T> = Loop(done: seq<Entry<T>>, rest: seq<Entry<T>>)

  predicate Stopped<T>(l: Loop<T>, now: nat) { l.rest == [] || l.rest[0].at > now }

  /** One turn of the loop, whatever the periods are. */
  function TurnOf<T>(l: Loop<T>, now: nat): Loop<T> {
    if Stopped(l, now) then l
    else
      var t, others := l.rest[0], l.rest[1..];
      if !t.periodic then Loop(l.done, others)
      else if others == [] || Next(t).at < others[0].at then Loop(l.done + [Next(t)], others)
      else Loop(l.done, Insert(others, Next(t)))
  }

  function TurnsOf<T>(l: Loop<T>, now: nat, n: nat): Loop<T>
    decreases n
  {
    if n == 0 then l else TurnsOf(TurnOf(l, now), now, n - 1)
  }

  /** The loop comes to its end with the list of the walk. */
  lemma {:induction false} WalkStops<T>(l: Loop<T>, now: nat) returns (n: nat)
    requires Ends(l.rest, now)
    ensures var e := TurnsOf(l, now, n); Stopped(e, now) && e.done + e.rest == Walk(l.done, l.rest, now).list
    decreases Backlog(l.rest, now), FirstStands(l.rest, now)
  {
    if Stopped(l, now) {
      n := 0;
    } else {
      FiringEnds(l.rest, now);
      if l.rest[0].periodic {
        Shrinks(l.rest, now);
      }
      n := WalkStops(TurnOf(l, now), now);
      n := n + 1;
    }
  }

  /** Two standing timers with one deadline. */
  predicate Pair<T>(es: seq<Entry<T>>, i: nat, j: nat, now: nat) {
    i < j < |es| && Standing(es[i], now) && Standing(es[j], now) && es[i].at == es[j].at
  }

  /** Such a pair is never left behind. */
  lemma {:induction false} PairStays<T>(l: Loop<T>, now: nat, i: nat, j: nat) returns (i': nat, j': nat)
    requires Sorted(l.rest) && Pair(l.rest, i, j, now)
    ensures !Stopped(l, now) && Sorted(TurnOf(l, now).rest) && Pair(TurnOf(l, now).rest, i', j', now)
  {
    var t, others := l.rest[0], l.rest[1..];
    SortedTail(l.rest);
    assert t.at <= l.rest[i].at;
    assert others[j - 1] == l.rest[j] && (i > 0 ==> others[i - 1] == l.rest[i]);
    if i > 0 {
      if !t.periodic || others == [] || Next(t).at < others[0].at {
        i', j' := i - 1, j - 1;
      } else {
        InsertSorted(others, Next(t));
        var c := Place(others, Next(t));
        InsertedAt(others, Next(t), c, i - 1);
        InsertedAt(others, Next(t), c, j - 1);
        i' := if i - 1 < c then i - 1 else i;
        j' := if j - 1 < c then j - 1 else j;
      }
    } else {
      assert others[0].at <= others[j - 1].at == Next(t).at;
      InsertSorted(others, Next(t));
      var c := Place(others, Next(t));
      InsertedAt(others, Next(t), c, j - 1);
      assert j - 1 < c;
      i', j' := j - 1, c;
    }
  }

  /** Where a timer of the list and the new one stand after insertion. */
  lemma {:induction false} InsertedAt<T>(es: seq<Entry<T>>, e: Entry<T>, c: nat, k: nat)
    requires Sorted(es) && k < |es| && c <= |es|
    requires (forall j :: 0 <= j < c ==> es[j].at <= e.at) && forall j :: c <= j < |es| ==> e.at < es[j].at
    ensures var r := Insert(es, e); r[c] == e && r[if k < c then k else k + 1] == es[k]
  {
    hide Insert;
    InsertSplits(es, e, c);
  }

  lemma {:induction false} NeverStops<T>(l: Loop<T>, now: nat, i: nat, j: nat, n: nat)
    requires Sorted(l.rest) && Pair(l.rest, i, j, now)
    ensures !Stopped(TurnsOf(l, now, n), now)
    decreases n
  {
    var i', j' := PairStays(l, now, i, j);
    if n == 0 {
    } else {
      NeverStops(TurnOf(l, now), now, i', j', n - 1);
    }
  }

  /** The loop of tmr_run ends if and only if no two due timers of period zero have the same deadline. */
  lemma {:induction false} RunEndsIff<T>(es: seq<Entry<T>>, now: nat)
    requires Sorted(es)
    ensures (exists n :: Stopped(TurnsOf(Loop([], es), now, n), now)) <==> Ends(es, now)
  {
    hide TurnsOf, Stopped;
    var l := Loop([], es);
    if Ends(es, now) {
      var n := WalkStops(l, now);
    } else {
      var i, j :| 0 <= i < j < |es| && Standing(es[i], now) && Standing(es[j], now) && es[i].at == es[j].at;
      forall n ensures !Stopped(TurnsOf(l, now, n), now) {
        NeverStops(l, now, i, j, n);
      }
    }
  }

  // ---------- The walk, one round at a time ----------

  /** The outcome of the rest of the walk, after `fired` have fired and `freed` were freed. */
  function After<T>(fired: seq<Firing<T>>, freed: seq<T>, r: Outcome<T>): Outcome<T> {
    Outcome(r.list, fired + r.fired, freed + r.freed)
  }

  lemma {:induction false} RoundStart<T>(es: seq<Entry<T>>, now: nat)
    requires Ends(es, now)
    ensures Ends(es[0..], now) && After([], [], Walk(es[..0], es[0..], now)) == Walk([], es, now)
  {
    hide Walk;
    var r := Walk([], es, now);
    assert es[0..] == es && es[..0] == [];
    assert [] + r.fired == r.fired && [] + r.freed == r.freed;
  }

  lemma {:induction false} RoundEnd<T>(es: seq<Entry<T>>, m: nat, now: nat, fired: seq<Firing<T>>, freed: seq<T>)
    requires m <= |es| && Ends(es[m..], now) && (m < |es| ==> es[m].at > now)
    ensures After(fired, freed, Walk(es[..m], es[m..], now)) == Outcome(es, fired, freed)
  {
    assert es[..m] + es[m..] == es;
    assert fired + [] == fired && freed + [] == freed;
  }

  /** A one-shot timer that is due leaves the list. */
  lemma {:induction false} RoundOnce<T>(es: seq<Entry<T>>, m: nat, now: nat, fired: seq<Firing<T>>, freed: seq<T>)
    requires m < |es| && Ends(es[m..], now) && es[m].at <= now && !es[m].periodic
    ensures var e, next := es[m], es[..m] + es[m + 1..];
            && Ends(next[m..], now) && Sooner(next[m..], es[m..], now)
            && After(fired, freed, Walk(es[..m], es[m..], now)) ==
               After(fired + [Firing(e.who, e.at)], freed + [e.who], Walk(next[..m], next[m..], now))
  {
    var e, next := es[m], es[..m] + es[m + 1..];
    assert es[m..][1..] == es[m + 1..];
    assert next[..m] == es[..m] && next[m..] == es[m + 1..];
    var r := Walk(next[..m], next[m..], now);
    assert fired + ([Firing(e.who, e.at)] + r.fired) == fired + [Firing(e.who, e.at)] + r.fired;
    assert freed + ([e.who] + r.freed) == freed + [e.who] + r.freed;
  }

  /** A periodic timer that is due goes back into the list, before or behind the saved next timer. */
  lemma {:induction false} RoundPeriodic<T>(es: seq<Entry<T>>, m: nat, now: nat, fired: seq<Firing<T>>, freed: seq<T>)
    requires m < |es| && Ends(es[m..], now) && es[m].at <= now && es[m].periodic
    ensures var e, next := es[m], es[..m] + Insert(es[m + 1..], Next(es[m]));
            var m' := if m + 1 == |es| || Next(e).at < es[m + 1].at then m + 1 else m;
            && Ends(next[m'..], now) && Sooner(next[m'..], es[m..], now)
            && After(fired, freed, Walk(es[..m], es[m..], now)) ==
               After(fired + [Firing(e.who, e.at)], freed, Walk(next[..m'], next[m'..], now))
  {
    var e, others, rest := es[m], es[m + 1..], es[m..];
    var next := es[..m] + Insert(others, Next(e));
    assert rest[0] == e && rest[1..] == others;
    FiringEnds(rest, now);
    Shrinks(rest, now);
    var left := m + 1 == |es| || Next(e).at < es[m + 1].at;
    hide Ends, Backlog, FirstStands;
    var m' := if left then m + 1 else m;
    if left {
      assert next == es[..m] + [Next(e)] + others by {
        InsertFirst(others, Next(e));
      }
      assert next[..m'] == es[..m] + [Next(e)] && next[m'..] == others;
    } else {
      hide Insert;
      assert next[..m'] == es[..m] && next[m'..] == Insert(others, Next(e));
    }
    var r := Walk(next[..m'], next[m'..], now);
    assert fired + ([Firing(e.who, e.at)] + r.fired) == fired + [Firing(e.who, e.at)] + r.fired;
  }

  lemma {:induction false} InsertFirst<T>(es: seq<Entry<T>>, e: Entry<T>)
    requires es == [] || e.at < es[0].at
    ensures Insert(es, e) == [e] + es
  {
  }
}
