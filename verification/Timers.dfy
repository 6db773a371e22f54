/** The timer list of timer.c: a sorted doubly linked list of active timers and a list of free ones. */
module Timers {
  import opened Bytes
  import opened IperfTime
  import opened TimerRun

  class Timer {
    var usecs: nat
    var periodic: bool
    var time: Time
    var prev: Timer?
    var next: Timer?

    constructor ()
    {
      usecs, periodic, time, prev, next := 0, false, Time(0, 0), null, null;
    }
  }

  ghost function EntryOf(t: Timer): Entry<Timer>
    reads t`time, t`usecs, t`periodic
  {
    Entry(t, InUsecs(t.time), t.usecs, t.periodic)
  }

  ghost function Entries(ts: seq<Timer>): (es: seq<Entry<Timer>>)
    reads ts`time, ts`usecs, ts`periodic
    ensures |es| == |ts| && forall i :: 0 <= i < |ts| ==> es[i] == EntryOf(ts[i])
  {
    if ts == [] then [] else [EntryOf(ts[0])] + Entries(ts[1..])
  }

  ghost predicate Distinct(ts: seq<Timer>) {
    forall i, j :: 0 <= i < j < |ts| ==> ts[i] != ts[j]
  }

  /** `ts` is a chain along `next` that starts at `head`. */
  ghost predicate Chain(head: Timer?, ts: seq<Timer>)
    reads ts`next
  {
    && head == (if ts == [] then null else ts[0])
    && forall i {:trigger ts[i].next} :: 0 <= i < |ts| ==> ts[i].next == if i + 1 < |ts| then ts[i + 1] else null
  }

  ghost predicate BackLinks(ts: seq<Timer>)
    reads ts`prev
  {
    forall i {:trigger ts[i].prev} :: 0 <= i < |ts| ==> ts[i].prev == if i == 0 then null else ts[i - 1]
  }

  /** A doubly linked list of distinct timers. */
  ghost predicate DoublyLinked(head: Timer?, ts: seq<Timer>)
    reads ts`next, ts`prev
  {
    Distinct(ts) && Chain(head, ts) && BackLinks(ts)
  }

  ghost predicate Apart(a: seq<Timer>, b: seq<Timer>) {
    forall i, j :: 0 <= i < |a| && 0 <= j < |b| ==> a[i] != b[j]
  }

  ghost predicate Outside(t: Timer, ts: seq<Timer>) {
    forall i :: 0 <= i < |ts| ==> ts[i] != t
  }

  /** All of `a` is among `b`. */
  ghost predicate Among(a: seq<Timer>, b: seq<Timer>) {
    forall i :: 0 <= i < |a| ==> a[i] in b
  }

  /** Links `t` in between two neighbours of the list, or at one of its ends. */
  method LinkBetween(head: Timer?, t: Timer, before: Timer?, after: Timer?, ghost ts: seq<Timer>, ghost k: nat)
    returns (newHead: Timer?)
    requires DoublyLinked(head, ts) && k <= |ts| && Outside(t, ts)
    requires before == if k == 0 then null else ts[k - 1]
    requires after == if k < |ts| then ts[k] else null
    modifies ts`next, ts`prev, t`next, t`prev
    ensures DoublyLinked(newHead, ts[..k] + [t] + ts[k..])
  {
    t.prev := before;
    t.next := after;
    newHead := head;
    if before == null {
      newHead := t;
    } else {
      before.next := t;
    }
    if after != null {
      after.prev := t;
    }
    ghost var r := ts[..k] + [t] + ts[k..];
    assert forall i :: 0 <= i < |r| ==> r[i] == if i < k then ts[i] else if i == k then t else ts[i - 1];
  }

  /** list_remove: the neighbours of the k-th timer are linked to each other. */
  method Unlink(head: Timer?, t: Timer, ghost ts: seq<Timer>, ghost k: nat) returns (newHead: Timer?)
    requires DoublyLinked(head, ts) && k < |ts| && ts[k] == t
    modifies ts`next, ts`prev
    ensures DoublyLinked(newHead, ts[..k] + ts[k + 1..])
  {
    hide DoublyLinked, Chain, BackLinks, Distinct;
    Around(head, ts, k);
    newHead := head;
    if t.prev == null {
      newHead := t.next;
    } else {
      t.prev.next := t.next;
    }
    if t.next != null {
      t.next.prev := t.prev;
    }
    PassedBy(newHead, ts, k);
  }

  /** The links of a doubly linked list, and which timers are not the same. */
  lemma {:induction false} Around(head: Timer?, ts: seq<Timer>, k: nat)
    requires DoublyLinked(head, ts) && k < |ts|
    ensures head == ts[0] && Distinct(ts)
    ensures forall i {:trigger ts[i].next} :: 0 <= i < |ts| ==> ts[i].next == if i + 1 < |ts| then ts[i + 1] else null
    ensures forall i {:trigger ts[i].prev} :: 0 <= i < |ts| ==> ts[i].prev == if i == 0 then null else ts[i - 1]
    ensures forall i :: 0 <= i < |ts| ==>
              && (k > 0 && i != k - 1 ==> ts[i] != ts[k - 1]) && (k + 1 < |ts| && i != k + 1 ==> ts[i] != ts[k + 1])
  {
  }

  /** Links that pass the k-th timer by make the list without it. */
  lemma {:induction false} PassedBy(head: Timer?, ts: seq<Timer>, k: nat)
    requires k < |ts| && Distinct(ts)
    requires head == (if k > 0 then ts[0] else if |ts| > 1 then ts[1] else null)
    requires forall i {:trigger ts[i].next} :: 0 <= i < |ts| && i != k ==>
               ts[i].next == var j := (if i + 1 == k then i + 2 else i + 1); if j < |ts| then ts[j] else null
    requires forall i {:trigger ts[i].prev} :: 0 <= i < |ts| && i != k ==>
               ts[i].prev == var j := (if i == k + 1 then i - 2 else i - 1); if j >= 0 then ts[j] else null
    ensures DoublyLinked(head, ts[..k] + ts[k + 1..])
  {
    var r := ts[..k] + ts[k + 1..];
    assert forall i :: 0 <= i < |r| ==> r[i] == if i < k then ts[i] else ts[i + 1];
  }

  /** The timers are in order of their deadlines. */
  ghost predicate Ordered(ts: seq<Timer>)
    reads ts`time, ts`usecs, ts`periodic
  {
    && (forall i :: 0 <= i < |ts| ==> Normal(ts[i].time))
    && Sorted(Entries(ts))
  }

  lemma {:induction false} OrderedInsert(ts: seq<Timer>, t: Timer, k: nat)
    requires k <= |ts| && Ordered(ts) && Normal(t.time)
    requires forall i :: 0 <= i < k ==> InUsecs(ts[i].time) <= InUsecs(t.time)
    requires k < |ts| ==> InUsecs(t.time) < InUsecs(ts[k].time)
    ensures var r := ts[..k] + [t] + ts[k..];
            Ordered(r) && Entries(r) == Insert(Entries(ts), EntryOf(t))
  {
    hide Entries, Insert, Sorted;
    var r, es := ts[..k] + [t] + ts[k..], Entries(ts);
    InsertSplits(es, EntryOf(t), k);
    InsertSorted(es, EntryOf(t));
    forall i | 0 <= i < |r|
      ensures Entries(r)[i] == (es[..k] + [EntryOf(t)] + es[k..])[i]
      ensures r[i] == if i < k then ts[i] else if i == k then t else ts[i - 1]
    {
    }
    assert Entries(r) == es[..k] + [EntryOf(t)] + es[k..];
  }

  /** The walk along the list to the first timer that is later. */
  method FindPlace(head: Timer?, t: Timer, ghost ts: seq<Timer>) returns (before: Timer?, after: Timer?, ghost k: nat)
    requires Chain(head, ts) && Normal(t.time) && forall i :: 0 <= i < |ts| ==> Normal(ts[i].time)
    ensures k <= |ts|
    ensures before == if k == 0 then null else ts[k - 1]
    ensures after == if k < |ts| then ts[k] else null
    ensures forall i :: 0 <= i < k ==> InUsecs(ts[i].time) <= InUsecs(t.time)
    ensures k < |ts| ==> InUsecs(t.time) < InUsecs(ts[k].time)
  {
    hide InUsecs;
    before, after, k := null, head, 0;
    while after != null && Compare(t.time, after.time) >= 0
      invariant 0 <= k <= |ts|
      invariant before == if k == 0 then null else ts[k - 1]
      invariant after == if k < |ts| then ts[k] else null
      invariant forall i :: 0 <= i < k ==> InUsecs(ts[i].time) <= InUsecs(t.time)
      decreases |ts| - k
    {
      before, after := after, after.next;
      k := k + 1;
    }
  }

  class TimerList {
    var timers: Timer?
    var freeTimers: Timer?
    ghost var active: seq<Timer>
    ghost var free: seq<Timer>

    constructor ()
      ensures Valid() && active == [] && free == []
    {
      timers, freeTimers := null, null;
      active, free := [], [];
    }

    /** Active and free timers are disjoint lists; the active ones are linked backwards too. */
    ghost predicate Linked()
      reads this, active`next, active`prev, free`next
      ensures Linked() ==> Chain(timers, active) && Distinct(active)
    {
      && DoublyLinked(timers, active)
      && Distinct(free) && Chain(freeTimers, free)
      && Apart(active, free)
    }

    ghost predicate Valid()
      reads this, active, free`next
    {
      Linked() && Ordered(active)
    }

    /** Every timer that is kept, active or free. */
    ghost function Held(): multiset<Timer>
      reads `active, `free
    {
      HeldBy(active, free)
    }

    /** list_add: after every timer that is not later. */
    method ListAdd(t: Timer) returns (ghost k: nat)
      requires Valid() && Outside(t, active) && Outside(t, free)
      requires Normal(t.time)
      modifies `timers, `active, active`next, active`prev, t`next, t`prev
      ensures k <= |old(active)| && active == old(active[..k]) + [t] + old(active[k..])
      ensures Valid()
      ensures Entries(active) == Insert(old(Entries(active)), old(EntryOf(t)))
      ensures forall i :: 0 <= i < k ==> old(Entries(active))[i].at <= old(EntryOf(t)).at
      ensures k < |old(active)| ==> old(EntryOf(t)).at < old(Entries(active))[k].at
    {
      hide Linked, Insert, Entries, InUsecs, Normal, Ordered, Chain;
      NormalTimes(active);
      var before, after;
      before, after, k := FindPlace(timers, t, active);
      OrderedInsert(active, t, k);
      ghost var r := active[..k] + [t] + active[k..];
      ghost var es := Entries(r);
      Hook(t, before, after, k);
      assert active == r && Entries(r) == es;
    }

    method Hook(t: Timer, before: Timer?, after: Timer?, ghost k: nat)
      requires Linked() && Outside(t, active) && Outside(t, free) && k <= |active|
      requires before == if k == 0 then null else active[k - 1]
      requires after == if k < |active| then active[k] else null
      modifies `timers, `active, active`next, active`prev, t`next, t`prev
      ensures Linked() && active == old(active[..k] + [t] + active[k..])
      ensures forall i :: 0 <= i < |active| ==>
                active[i] == if i < k then old(active)[i] else if i == k then t else old(active)[i - 1]
    {
      hide Chain, DoublyLinked;
      ghost var was := active;
      timers := LinkBetween(timers, t, before, after, active, k);
      active := was[..k] + [t] + was[k..];
    }

    /** list_remove of the k-th active timer; the order of the rest is not its concern. */
    method ListRemove(t: Timer, ghost k: nat)
      requires Linked() && k < |active| && active[k] == t
      modifies `timers, `active, active`next, active`prev
      ensures Linked() && active == old(active[..k] + active[k + 1..])
      ensures Outside(t, active) && Outside(t, free)
    {
      hide Chain, DoublyLinked;
      ghost var was := active;
      DistinctOf(timers, was);
      timers := Unlink(timers, t, active, k);
      active := was[..k] + was[k + 1..];
      assert forall i :: 0 <= i < |active| ==> active[i] == if i < k then was[i] else was[i + 1];
    }

    /** list_resort: the m-th active timer, whatever its deadline now is, goes to its place in the order. */
    method ListResort(t: Timer, ghost m: nat) returns (ghost k: nat)
      requires Linked() && m < |active| && active[m] == t
      requires Ordered(active[..m] + active[m + 1..]) && Normal(t.time)
      modifies `timers, `active, active`next, active`prev
      ensures Valid() && k < |old(active)| && active == Moved(old(active), m, k) && Held() == old(Held())
      ensures var others := old(Entries(active[..m] + active[m + 1..]));
              && Entries(active) == Insert(others, old(EntryOf(t)))
              && (forall i :: 0 <= i < k ==> others[i].at <= old(EntryOf(t)).at)
              && (k < |others| ==> old(EntryOf(t)).at < others[k].at)
    {
      hide Linked, Ordered, InUsecs, Entries, Insert, Chain, Normal, HeldBy, Among, Outside, Distinct;
      ListRemove(t, m);
      k := ListAdd(t);
      MovedHolds(old(active), m, k, free);
    }

    /** tmr_create: a free timer is used again before a new one is allocated. */
    method TmrCreate(now: Time, usecs: nat, periodic: bool, outOfMemory: bool) returns (t: Timer?)
      requires Valid() && Normal(now)
      modifies this, active`next, active`prev, free
      ensures Valid()
      ensures t == null <==> old(free) == [] && outOfMemory
      ensures t == null ==> unchanged(this)
      ensures t != null ==>
                && Entries(active) == Insert(old(Entries(active)), Entry(t, InUsecs(now) + usecs, usecs, periodic))
                && (if old(free) == [] then fresh(t) && free == [] && Held() == multiset{t} + old(Held())
                    else old(free) == [t] + free && Held() == old(Held()))
    {
      hide Linked, Ordered, InUsecs, Entries, Insert, Normal, Chain, HeldBy, Distinct;
      t := Take(outOfMemory);
      if t == null {
        return;
      }
      t.usecs, t.periodic := usecs, periodic;
      t.time := AddUsecs(now, usecs);
      ghost var k := ListAdd(t);
      InsertedHolds(old(active), t, k, free);
    }

    /** Takes the first free timer off its list. */
    method PopFree() returns (t: Timer)
      requires Linked() && freeTimers != null
      modifies `freeTimers, `free
      ensures Linked() && old(free) != [] && t == old(free)[0] && old(free) == [t] + free
      ensures Outside(t, active) && Outside(t, free)
    {
      hide DoublyLinked;
      t := freeTimers;
      freeTimers := t.next;
      free := free[1..];
      assert old(free) == [t] + free;
    }

    /** A timer that is in neither list: the first free one or a new one. */
    method Take(outOfMemory: bool) returns (t: Timer?)
      requires Linked()
      modifies `freeTimers, `free
      ensures Linked()
      ensures t == null <==> old(free) == [] && outOfMemory
      ensures t == null ==> unchanged(this)
      ensures t != null ==> Outside(t, active) && Outside(t, free)
      ensures old(free) != [] && t != null ==> t == old(free)[0] && old(free) == [t] + free
      ensures old(free) == [] ==> free == [] && (t != null ==> fresh(t))
    {
      hide DoublyLinked;
      if freeTimers != null {
        t := PopFree();
      } else if outOfMemory {
        t := null;
      } else {
        t := new Timer();
      }
    }

    /** tmr_timeout: how long until the earliest deadline, which is that of the first timer. */
    method TmrTimeout(now: Time) returns (timeout: Option<Time>)
      requires Valid() && Normal(now)
      ensures timeout.None? <==> active == []
      ensures timeout.Some? ==>
                && Normal(timeout.value)
                && (forall i :: 0 <= i < |active| ==> InUsecs(timeout.value) <= Remaining(active[i], now))
                && (exists i :: 0 <= i < |active| && InUsecs(timeout.value) == Remaining(active[i], now))
    {
      if timers == null {
        return None;
      }
      var (past, diff) := Diff(timers.time, now);
      var usecs := if past then 0 else InUsecs(diff);
      timeout := Some(Time(usecs / MILLION, usecs % MILLION));
      assert timers == active[0] && usecs == Remaining(active[0], now);
      assert forall i :: 0 <= i < |active| ==> Entries(active)[0].at <= Entries(active)[i].at;
    }

    /** tmr_reset: the k-th active timer starts its period over. */
    method TmrReset(now: Time, t: Timer, ghost m: nat)
      requires Valid() && Normal(now) && m < |active| && active[m] == t
      modifies `timers, `active, active`next, active`prev, t`time
      ensures Valid() && Held() == old(Held())
      ensures var es := old(Entries(active));
              Entries(active) == Insert(es[..m] + es[m + 1..], es[m].(at := InUsecs(now) + es[m].period))
    {
      hide Linked, Ordered, InUsecs, Entries, Insert, Chain, Normal, HeldBy, Moved, Among, Distinct;
      ghost var es := Entries(active);
      RemoveOrdered(active, m);
      assert es[m] == EntryOf(t);
      t.time := AddUsecs(now, t.usecs);
      assert EntryOf(t) == es[m].(at := InUsecs(now) + es[m].period);
      ghost var k := ListResort(t, m);
    }

    /** tmr_cancel: the k-th active timer becomes the first free one. */
    method TmrCancel(t: Timer, ghost k: nat)
      requires Linked() && k < |active| && active[k] == t
      modifies this, active`next, active`prev
      ensures Linked() && (old(Ordered(active)) ==> Valid()) && Held() == old(Held())
      ensures active == old(active[..k] + active[k + 1..]) && free == [t] + old(free)
    {
      hide Linked, HeldBy, Ordered, Among, Entries, Distinct, InUsecs;
      RemovedHolds(active, k, free);
      if Ordered(active) {
        RemoveOrdered(active, k);
      }
      ListRemove(t, k);
      PushFree(t);
    }

    /** A timer that is in neither list becomes the first free one. */
    method PushFree(t: Timer)
      requires Linked() && Outside(t, active) && Outside(t, free)
      modifies `freeTimers, `free, t`next, t`prev
      ensures Linked() && free == [t] + old(free) && t.prev == null
    {
      t.next := freeTimers;
      freeTimers := t;
      t.prev := null;
      free := [t] + free;
    }

    /** tmr_cleanup: the free timers are given back, in their order. */
    method TmrCleanup() returns (released: seq<Timer>)
      requires Valid()
      modifies `freeTimers, `free
      ensures Valid() && free == [] && released == old(free)
    {
      hide Linked, Ordered, Chain;
      released := [];
      while freeTimers != null
        invariant Valid() && released + free == old(free)
        decreases |free|
      {
        ghost var was := free;
        var t := PopFree();
        assert released + was == released + [t] + free;
        released := released + [t];
      }
      NoneFree();
    }

    lemma {:induction false} NoneFree()
      requires Linked() && freeTimers == null
      ensures free == []
    {
    }

    /** tmr_destroy: every timer is given back, the active ones too, each once. */
    method TmrDestroy() returns (released: seq<Timer>)
      requires Valid()
      modifies this, active
      ensures Valid() && active == [] && free == [] && multiset(released) == old(Held())
    {
      hide Linked, Ordered, Held, Chain;
      while timers != null
        invariant Valid() && Held() == old(Held()) && Among(active, old(active))
        decreases |active|
      {
        CancelFirst();
      }
      FirstOf();
      assert Held() == multiset(free) by {
        HeldWhenEmpty();
      }
      released := TmrCleanup();
    }

    lemma {:induction false} FirstOf()
      requires Linked()
      ensures timers == if active == [] then null else active[0]
    {
    }

    lemma {:induction false} HeldWhenEmpty()
      requires active == []
      ensures Held() == multiset(free)
    {
    }

    method CancelFirst()
      requires Valid() && timers != null
      modifies this, active`next, active`prev
      ensures Valid() && Held() == old(Held()) && Among(active, old(active)) && |active| < |old(active)|
    {
      hide Linked, Ordered, Insert, InUsecs, Entries, Normal, Among, Chain, HeldBy;
      FirstOf();
      RemovedHolds(active, 0, free);
      TmrCancel(timers, 0);
    }

    /** A due periodic timer after its callback: a new deadline, and back into the list by it. */
    method Reschedule(t: Timer, ghost m: nat) returns (ghost k: nat)
      requires Valid() && m < |active| && active[m] == t && t.periodic
      modifies `timers, `active, active`next, active`prev, t`time
      ensures Valid()
      ensures var es := old(Entries(active));
              Entries(active) == es[..m] + Insert(es[m + 1..], Next(es[m]))
      ensures m <= k < |active| == |old(active)| && active == Moved(old(active), m, k)
      ensures var es := old(Entries(active));
              k == m <==> m + 1 == |es| || Next(es[m]).at < es[m + 1].at
    {
      hide Linked, Ordered, InUsecs, Entries, Insert, Chain, Normal, HeldBy, Moved, Among, Distinct;
      ghost var es := Entries(active);
      RemoveOrdered(active, m);
      assert es[m] == EntryOf(t);
      t.time := AddUsecs(t.time, t.usecs);
      assert EntryOf(t) == Next(es[m]);
      k := ListResort(t, m);
      InsertBehind(es[..m], es[m + 1..], Next(es[m]));
      PlaceOf(es, m, k);
    }

    /** tmr_run: the walk of TimerRun.Walk over the linked list; the callbacks are reported in order. */
    method TmrRun(now: Time) returns (fired: seq<Firing<Timer>>, ghost freed: seq<Timer>)
      requires Valid() && Normal(now) && Ends(Entries(active), InUsecs(now))
      modifies this, active
      ensures Valid()
      ensures Outcome(Entries(active), fired, freed) == Walk([], old(Entries(active)), InUsecs(now))
      ensures free == Pushed(freed, old(free)) && Held() == old(Held())
      ensures FiredWithin(fired, 0, InUsecs(now)) && InOrder(fired)
      ensures forall i :: 0 <= i < |old(active)| ==>
                Served(old(Entries(active))[i], InUsecs(now), Outcome(Entries(active), fired, freed))
    {
      hide Served, FiredWithin, InOrder, Distinct;
      hide Walk, Linked, Ordered, Insert, InUsecs, Entries, Backlog, Normal, Chain, Pushed, Ends, FirstStands;
      fired, freed := [], [];
      ghost var m, n := 0, InUsecs(now);
      ghost var es0 := Entries(active);
      RunFacts(active);
      RunServesAll(es0, n);
      RoundStart(es0, n);
      PushedOne([], null, free);
      var t := timers;
      assert Chain(timers, active);
      HeadOf(timers, active);
      while t != null
        invariant Valid() && 0 <= m <= |active| && t == (if m < |active| then active[m] else null)
        invariant Among(active, old(active)) && Held() == old(Held())
        invariant Ends(Entries(active)[m..], n)
        invariant Walk([], es0, n) == After(fired, freed, Walk(Entries(active)[..m], Entries(active)[m..], n))
        invariant free == Pushed(freed, old(free))
        decreases Backlog(Entries(active)[m..], n), FirstStands(Entries(active)[m..], n)
      {
        ghost var es := Entries(active);
        NormalTimes(active);
        if Compare(t.time, now) > 0 {
          break;
        }
        if t.periodic {
          RoundPeriodic(es, m, n, fired, freed);
        } else {
          RoundOnce(es, m, n, fired, freed);
          PushedOne(freed, t, old(free));
          freed := freed + [t];
        }
        fired := fired + [Firing(t, InUsecs(t.time))];
        t, m := Fire(t, m);
      }
      RoundEnd(Entries(active), m, n, fired, freed);
    }

    /** One due timer after its callback; returns the timer that was saved as the next one. */
    method Fire(t: Timer, ghost m: nat) returns (next: Timer?, ghost m': nat)
      requires Valid() && m < |active| && active[m] == t
      modifies this, active
      ensures Valid() && m' <= |active| && next == (if m' < |active| then active[m'] else null)
      ensures Held() == old(Held()) && Among(active, old(active))
      ensures var es := old(Entries(active));
              if es[m].periodic then
                && Entries(active) == es[..m] + Insert(es[m + 1..], Next(es[m])) && free == old(free)
                && m' == (if m + 1 == |es| || Next(es[m]).at < es[m + 1].at then m + 1 else m)
              else Entries(active) == es[..m] + es[m + 1..] && free == [t] + old(free) && m' == m
    {
      hide Linked, Ordered, Insert, InUsecs, Entries, Normal, Among, Moved, HeldBy;
      next := t.next;
      ghost var was := active;
      assert Chain(timers, active) && next == if m + 1 < |was| then was[m + 1] else null;
      if t.periodic {
        ghost var k := Reschedule(t, m);
        m' := if k == m then m + 1 else m;
        MovedHolds(was, m, k, free);
      } else {
        RemoveOrdered(active, m);
        TmrCancel(t, m);
        m' := m;
        RemovedHolds(was, m, free);
      }
    }
  }

  /** The timers after the m-th of them was taken out and put back as the k-th. */
  ghost function Moved(ts: seq<Timer>, m: nat, k: nat): seq<Timer>
    requires m < |ts| && k < |ts|
  {
    var rest := ts[..m] + ts[m + 1..];
    rest[..k] + [ts[m]] + rest[k..]
  }

  lemma {:induction false} MovedHolds(ts: seq<Timer>, m: nat, k: nat, free: seq<Timer>)
    requires m < |ts| && k < |ts|
    ensures var r := Moved(ts, m, k);
            && |r| == |ts| && Among(r, ts) && HeldBy(r, free) == HeldBy(ts, free)
            && (m + 1 < |ts| && m <= k ==> ts[m + 1] == if k == m then r[m + 1] else r[m])
  {
    hide HeldBy, Among;
    var rest := ts[..m] + ts[m + 1..];
    RemovedHolds(ts, m, free);
    InsertedHolds(rest, ts[m], k, free);
    AmongMoved(ts, m, k);
    assert m + 1 < |ts| ==> rest[m] == ts[m + 1];
  }

  lemma {:induction false} AmongMoved(ts: seq<Timer>, m: nat, k: nat)
    requires m < |ts| && k < |ts|
    ensures Among(Moved(ts, m, k), ts)
  {
    var r, rest := Moved(ts, m, k), ts[..m] + ts[m + 1..];
    forall i | 0 <= i < |r| ensures r[i] in ts {
      assert r[i] == if i < k then rest[i] else if i == k then ts[m] else rest[i - 1];
    }
  }

  lemma {:induction false} InsertedHolds(ts: seq<Timer>, t: Timer, k: nat, free: seq<Timer>)
    requires k <= |ts|
    ensures HeldBy(ts[..k] + [t] + ts[k..], free) == multiset{t} + HeldBy(ts, free)
    ensures HeldBy(ts[..k] + [t] + ts[k..], free) == HeldBy(ts, [t] + free)
  {
    assert ts == ts[..k] + ts[k..];
  }

  lemma {:induction false} RemovedHolds(ts: seq<Timer>, m: nat, free: seq<Timer>)
    requires m < |ts|
    ensures var r := ts[..m] + ts[m + 1..];
            && Among(r, ts) && HeldBy(r, [ts[m]] + free) == HeldBy(ts, free)
            && (m + 1 < |ts| ==> ts[m + 1] == r[m])
  {
    assert ts == ts[..m] + [ts[m]] + ts[m + 1..];
  }

  ghost function HeldBy(active: seq<Timer>, free: seq<Timer>): multiset<Timer> {
    multiset(active) + multiset(free)
  }

  /** The microseconds until a timer is due. */
  ghost function Remaining(t: Timer, now: Time): nat
    reads t`time
  {
    if InUsecs(t.time) <= InUsecs(now) then 0 else InUsecs(t.time) - InUsecs(now)
  }

  lemma {:induction false} HeadOf(head: Timer?, ts: seq<Timer>)
    requires Chain(head, ts)
    ensures head == if ts == [] then null else ts[0]
  {
  }

  lemma {:induction false} PushedOne(freed: seq<Timer>, t: Timer?, free: seq<Timer>)
    ensures Pushed([], free) == free
    ensures t != null ==> Pushed(freed + [t], free) == [t] + Pushed(freed, free)
  {
    if t != null {
      assert (freed + [t])[..|freed|] == freed;
    }
  }

  /** The free list after the timers of `freed` were pushed on it one by one. */
  ghost function Pushed(freed: seq<Timer>, free: seq<Timer>): seq<Timer> {
    if freed == [] then free else [freed[|freed| - 1]] + Pushed(freed[..|freed| - 1], free)
  }

  lemma {:induction false} RunFacts(ts: seq<Timer>)
    requires Ordered(ts) && Distinct(ts)
    ensures Sorted(Entries(ts)) && DistinctWho(Entries(ts))
  {
  }

  /** A fired timer goes back right where it was exactly when the next timer is later than its new deadline. */
  lemma {:induction false} PlaceOf(es: seq<Entry<Timer>>, m: nat, k: nat)
    requires m < |es| && k < |es| && forall i :: 0 <= i < m ==> es[i].at <= es[m].at
    requires var others := es[..m] + es[m + 1..];
             && (forall i :: 0 <= i < k ==> others[i].at <= Next(es[m]).at)
             && (k < |others| ==> Next(es[m]).at < others[k].at)
    ensures m <= k
    ensures k == m <==> m + 1 == |es| || Next(es[m]).at < es[m + 1].at
  {
    var others := es[..m] + es[m + 1..];
    assert forall i :: 0 <= i < |others| ==> others[i] == if i < m then es[i] else es[i + 1];
  }

  /** Taking one timer out of an ordered list, whatever its deadline becomes. */
  lemma {:induction false} RemoveOrdered(ts: seq<Timer>, m: nat)
    requires m < |ts| && Ordered(ts)
    ensures Normal(ts[m].time)
    ensures forall i :: 0 <= i < m ==> Entries(ts)[i].at <= Entries(ts)[m].at
    ensures var r := ts[..m] + ts[m + 1..];
            && Ordered(r) && Entries(r) == Entries(ts)[..m] + Entries(ts)[m + 1..]
            && (Distinct(ts) ==> Outside(ts[m], r) && ts[m] !in r)
  {
    hide Entries;
    var r := ts[..m] + ts[m + 1..];
    assert forall i :: 0 <= i < |r| ==> r[i] == if i < m then ts[i] else ts[i + 1];
    assert Entries(r) == Entries(ts)[..m] + Entries(ts)[m + 1..];
  }

  lemma {:induction false} NormalTimes(ts: seq<Timer>)
    requires Ordered(ts)
    ensures forall i :: 0 <= i < |ts| ==> Normal(ts[i].time)
  {
  }

  lemma {:induction false} DistinctOf(head: Timer?, ts: seq<Timer>)
    requires DoublyLinked(head, ts)
    ensures Distinct(ts)
  {
  }
}
