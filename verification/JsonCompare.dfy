/** cJSON_Compare in its case-sensitive form, and what it decides. */
module JsonCompare {
  import opened Bytes
  import opened Json

  // ---------- cJSON_Compare ----------

  function Size(v: Value): nat
    decreases v, 1
  {
    match v
    case Array(items) => 1 + ItemsSize(items)
    case Object(members) => 1 + MembersSize(members)
    case _ => 1
  }

  function ItemsSize(items: seq<Value>): nat
    decreases items, 0
  {
    if items == [] then 0 else Size(items[0]) + ItemsSize(items[1..])
  }

  function MembersSize(members: seq<Member>): nat
    decreases members, 0
  {
    if members == [] then 0 else Size(members[0].value) + MembersSize(members[1..])
  }

  /** get_object_item: the position of the first member of that name, or -1. */
  function Find(members: seq<Member>, name: bytes): (i: int)
    ensures -1 <= i < |members|
    ensures i >= 0 ==> members[i].name == name && forall k :: 0 <= k < i ==> members[k].name != name
    ensures i < 0 ==> forall k :: 0 <= k < |members| ==> members[k].name != name
  {
    if members == [] then -1
    else if members[0].name == name then 0
    else
      var i := Find(members[1..], name);
      if i < 0 then -1 else i + 1
  }

  lemma {:induction false} MemberIsSmaller(members: seq<Member>, i: nat)
    requires i < |members|
    ensures Size(members[i].value) <= MembersSize(members)
  {
    if i == 0 {
    } else {
      MemberIsSmaller(members[1..], i - 1);
    }
  }

  predicate Compare(a: Value, b: Value)
    decreases Size(a) + Size(b), 1
  {
    match (a, b)
    case (Null, Null) => true
    case (False, False) => true
    case (True, True) => true
    case (Number(x), Number(y)) => Close(x, y)
    case (String(s), String(t)) => s == t
    case (Array(xs), Array(ys)) => CompareItems(xs, ys)
    case (Object(ms), Object(ns)) => Covers(ms, ns, |ms|) && Covers(ns, ms, |ns|)
    case _ => false
  }

  /** The walk along both element chains. */
  predicate CompareItems(xs: seq<Value>, ys: seq<Value>)
    decreases ItemsSize(xs) + ItemsSize(ys), 2, |xs|
  {
    if xs == [] || ys == [] then xs == [] && ys == []
    else Compare(xs[0], ys[0]) && CompareItems(xs[1..], ys[1..])
  }

  /** One of the two member loops, over the first `n` members: each is looked up in the other object and compared. */
  predicate Covers(ms: seq<Member>, ns: seq<Member>, n: nat)
    requires n <= |ms|
    decreases MembersSize(ms) + MembersSize(ns), 2, n
  {
    n == 0 ||
    (Covers(ms, ns, n - 1) &&
     var j := Find(ns, ms[n - 1].name);
     j >= 0 &&
     (MemberIsSmaller(ms, n - 1); MemberIsSmaller(ns, j);
      Compare(ms[n - 1].value, ns[j].value)))
  }

  /** The k-th member is found in the other object and compares equal to what is found. */
  predicate LooksUp(ms: seq<Member>, ns: seq<Member>, k: nat)
    requires k < |ms|
  {
    var j := Find(ns, ms[k].name);
    j >= 0 && Compare(ms[k].value, ns[j].value)
  }

  lemma {:induction false} CoversIff(ms: seq<Member>, ns: seq<Member>, n: nat)
    requires n <= |ms|
    ensures Covers(ms, ns, n) <==> forall k :: 0 <= k < n ==> LooksUp(ms, ns, k)
    decreases n
  {
    hide Find, Compare;
    if n == 0 {
    } else {
      CoversIff(ms, ns, n - 1);
      CoverStep(ms, ns, n - 1);
      assert Covers(ms, ns, n) <==> Covers(ms, ns, n - 1) && LooksUp(ms, ns, n - 1);
    }
  }

  // ---------- Equality up to the order of members ----------

  predicate DistinctNames(ms: seq<Member>) {
    forall i, j :: 0 <= i < j < |ms| ==> ms[i].name != ms[j].name
  }

  /** No object in the tree has two members of one name. */
  predicate DistinctKeys(v: Value)
    decreases v
  {
    match v
    case Array(items) => forall k :: 0 <= k < |items| ==> DistinctKeys(items[k])
    case Object(ms) => DistinctNames(ms) && forall k :: 0 <= k < |ms| ==> DistinctKeys(ms[k].value)
    case _ => true
  }

  /** The trees are equal up to the order of members and the tolerance on numbers. */
  ghost predicate Same(a: Value, b: Value)
    decreases a
  {
    match (a, b)
    case (Null, Null) => true
    case (False, False) => true
    case (True, True) => true
    case (Number(x), Number(y)) => Close(x, y)
    case (String(s), String(t)) => s == t
    case (Array(xs), Array(ys)) => |xs| == |ys| && forall k :: 0 <= k < |xs| ==> Same(xs[k], ys[k])
    case (Object(ms), Object(ns)) =>
      |ms| == |ns| && forall i :: 0 <= i < |ms| ==> HasMatch(ms[i], ns)
    case _ => false
  }

  /** Some member of the other object has the same name and the same value. */
  ghost predicate HasMatch(m: Member, ns: seq<Member>)
    decreases m
  {
    exists j :: 0 <= j < |ns| && m.name == ns[j].name && Same(m.value, ns[j].value)
  }

  function NameSet(ms: seq<Member>): set<bytes> {
    set k | 0 <= k < |ms| :: ms[k].name
  }

  lemma {:induction false} NameCount(ms: seq<Member>)
    requires DistinctNames(ms)
    ensures |NameSet(ms)| == |ms|
    decreases |ms|
  {
    if ms == [] {
    } else {
      var rest, last := ms[..|ms| - 1], ms[|ms| - 1];
      NameCount(rest);
      assert forall k :: 0 <= k < |rest| ==> ms[k] == rest[k];
      assert NameSet(ms) == NameSet(rest) + {last.name};
    }
  }

  ghost predicate Names(ms: seq<Member>, ns: seq<Member>) {
    forall i :: 0 <= i < |ms| ==> Find(ns, ms[i].name) >= 0
  }

  lemma {:induction false} NamesAreSubset(ms: seq<Member>, ns: seq<Member>)
    ensures Names(ms, ns) <==> NameSet(ms) <= NameSet(ns)
  {
    if NameSet(ms) <= NameSet(ns) {
      forall i | 0 <= i < |ms| ensures Find(ns, ms[i].name) >= 0 {
        assert ms[i].name in NameSet(ms);
      }
    }
  }

  /** Objects with distinct names that name the same members have as many of them, and one inclusion suffices then. */
  lemma {:induction false} NamesAgree(ms: seq<Member>, ns: seq<Member>)
    requires DistinctNames(ms) && DistinctNames(ns) && Names(ms, ns)
    ensures Names(ns, ms) <==> |ms| == |ns|
  {
    NamesAreSubset(ms, ns);
    NamesAreSubset(ns, ms);
    NameCount(ms);
    NameCount(ns);
    SubsetOfSameSize(NameSet(ms), NameSet(ns));
  }

  lemma {:induction false} SubsetOfSameSize<T>(a: set<T>, b: set<T>)
    requires a <= b
    ensures b <= a <==> |a| == |b|
  {
    assert b == a + (b - a);
    assert |b| == |a| + |b - a|;
    assert b <= a <==> b - a == {};
  }

  lemma {:induction false} FindUnique(ms: seq<Member>, i: nat)
    requires DistinctNames(ms) && i < |ms|
    ensures Find(ms, ms[i].name) == i
  {
  }

  /** The first `n` members, each against the member of its name in the other object. */
  ghost predicate Includes(ms: seq<Member>, ns: seq<Member>, n: nat)
    requires n <= |ms|
  {
    forall i :: 0 <= i < n ==> IncludesOne(ms[i], ns)
  }

  ghost predicate IncludesOne(m: Member, ns: seq<Member>) {
    var j := Find(ns, m.name);
    j >= 0 && Same(m.value, ns[j].value)
  }

  lemma {:induction false} SameObjects(ms: seq<Member>, ns: seq<Member>)
    requires DistinctNames(ns)
    ensures Same(Object(ms), Object(ns)) <==> |ms| == |ns| && Includes(ms, ns, |ms|)
  {
    hide IncludesOne, HasMatch;
    forall i | 0 <= i < |ms| ensures HasMatch(ms[i], ns) <==> IncludesOne(ms[i], ns) {
      MatchedByFind(ms[i], ns);
    }
  }

  lemma {:induction false} MatchedByFind(m: Member, ns: seq<Member>)
    requires DistinctNames(ns)
    ensures HasMatch(m, ns) <==> IncludesOne(m, ns)
  {
    hide Find;
    if HasMatch(m, ns) {
      var j :| 0 <= j < |ns| && m.name == ns[j].name && Same(m.value, ns[j].value);
      FindUnique(ns, j);
    }
  }

  lemma {:induction false} IncludesNames(ms: seq<Member>, ns: seq<Member>)
    requires Includes(ms, ns, |ms|)
    ensures Names(ms, ns)
  {
    hide Same, Find;
    forall i | 0 <= i < |ms| ensures Find(ns, ms[i].name) >= 0 {
      assert IncludesOne(ms[i], ns);
    }
  }

  lemma {:induction false} SameIsSymmetric(a: Value, b: Value)
    requires DistinctKeys(a) && DistinctKeys(b) && Same(a, b)
    ensures Same(b, a)
    decreases a
  {
    match (a, b)
    case (Array(xs), Array(ys)) =>
      forall k | 0 <= k < |ys| ensures Same(ys[k], xs[k]) {
        SameIsSymmetric(xs[k], ys[k]);
      }
    case (Object(ms), Object(ns)) =>
      SameObjects(ms, ns);
      SameObjects(ns, ms);
      SameObjectsBack(ms, ns);
    case _ =>
  }

  lemma {:induction false} SameObjectsBack(ms: seq<Member>, ns: seq<Member>)
    requires DistinctKeys(Object(ms)) && DistinctKeys(Object(ns))
    requires |ms| == |ns| && Includes(ms, ns, |ms|)
    ensures Includes(ns, ms, |ns|)
    decreases ms
  {
    hide Same, Find;
    IncludesNames(ms, ns);
    NamesAgree(ms, ns);
    forall j | 0 <= j < |ns| ensures IncludesOne(ns[j], ms) {
      var i := Find(ms, ns[j].name);
      assert i >= 0;
      assert IncludesOne(ms[i], ns);
      FindUnique(ns, j);
      SameIsSymmetric(ms[i].value, ns[j].value);
    }
  }

  /** On trees with distinct keys, cJSON_Compare decides equality up to the order of members. */
  lemma {:induction false} CompareDecidesSame(a: Value, b: Value)
    requires DistinctKeys(a) && DistinctKeys(b)
    ensures Compare(a, b) <==> Same(a, b)
    decreases Size(a) + Size(b), 1
  {
    match (a, b)
    case (Array(xs), Array(ys)) => CompareItemsDecides(xs, ys);
    case (Object(ms), Object(ns)) => CompareObjectsDecides(ms, ns);
    case _ =>
  }

  lemma {:induction false} CompareItemsDecides(xs: seq<Value>, ys: seq<Value>)
    requires forall k :: 0 <= k < |xs| ==> DistinctKeys(xs[k])
    requires forall k :: 0 <= k < |ys| ==> DistinctKeys(ys[k])
    ensures CompareItems(xs, ys) <==> |xs| == |ys| && forall k :: 0 <= k < |xs| ==> Same(xs[k], ys[k])
    decreases ItemsSize(xs) + ItemsSize(ys), 2, |xs|
  {
    hide Same, Compare, DistinctKeys;
    if xs != [] && ys != [] {
      CompareDecidesSame(xs[0], ys[0]);
      CompareItemsDecides(xs[1..], ys[1..]);
      if |xs| == |ys| && forall k :: 0 <= k < |xs[1..]| ==> Same(xs[1..][k], ys[1..][k]) {
        assert forall k :: 1 <= k < |xs| ==> xs[k] == xs[1..][k - 1] && ys[k] == ys[1..][k - 1];
      }
    }
  }

  lemma {:induction false} CoversDecides(ms: seq<Member>, ns: seq<Member>, n: nat)
    requires n <= |ms| && (forall k :: 0 <= k < |ms| ==> DistinctKeys(ms[k].value))
    requires forall k :: 0 <= k < |ns| ==> DistinctKeys(ns[k].value)
    ensures Covers(ms, ns, n) <==> Includes(ms, ns, n)
    decreases MembersSize(ms) + MembersSize(ns), 2, n
  {
    hide Same, Compare, DistinctKeys, Find;
    if n == 0 {
    } else {
      CoversDecides(ms, ns, n - 1);
      var j := Find(ns, ms[n - 1].name);
      if j >= 0 {
        MemberIsSmaller(ms, n - 1);
        MemberIsSmaller(ns, j);
        CompareDecidesSame(ms[n - 1].value, ns[j].value);
      }
    }
  }

  /** Two objects are the same exactly when each covers the other. */
  lemma {:induction false} CompareObjectsDecides(ms: seq<Member>, ns: seq<Member>)
    requires DistinctKeys(Object(ms)) && DistinctKeys(Object(ns))
    ensures Compare(Object(ms), Object(ns)) <==> Same(Object(ms), Object(ns))
    decreases MembersSize(ms) + MembersSize(ns), 3
  {
    hide Same, Includes, Covers;
    CoversDecides(ms, ns, |ms|);
    CoversDecides(ns, ms, |ns|);
    SameObjects(ms, ns);
    if Includes(ms, ns, |ms|) && Includes(ns, ms, |ns|) {
      IncludesNames(ms, ns);
      IncludesNames(ns, ms);
      NamesAgree(ms, ns);
    }
    if |ms| == |ns| && Includes(ms, ns, |ms|) {
      SameObjectsBack(ms, ns);
    }
  }

  /** The comparison does not depend on which tree comes first, whatever names are repeated. */
  lemma {:induction false} CompareIsSymmetric(a: Value, b: Value)
    ensures Compare(a, b) == Compare(b, a)
    decreases Size(a) + Size(b), 1
  {
    match (a, b)
    case (Array(xs), Array(ys)) => CompareItemsIsSymmetric(xs, ys);
    case _ =>
  }

  lemma {:induction false} CompareItemsIsSymmetric(xs: seq<Value>, ys: seq<Value>)
    ensures CompareItems(xs, ys) == CompareItems(ys, xs)
    decreases ItemsSize(xs) + ItemsSize(ys), 2, |xs|
  {
    hide Compare;
    if xs == [] || ys == [] {
    } else {
      CompareIsSymmetric(xs[0], ys[0]);
      CompareItemsIsSymmetric(xs[1..], ys[1..]);
    }
  }

  /** In every object, a member that is not the first of its name compares equal to the first. */
  predicate RepeatsAgree(v: Value)
    decreases v
  {
    match v
    case Array(items) => forall k :: 0 <= k < |items| ==> RepeatsAgree(items[k])
    case Object(ms) =>
      forall k :: 0 <= k < |ms| ==>
        var j := Find(ms, ms[k].name);
        if j == k then RepeatsAgree(ms[k].value) else Compare(ms[k].value, ms[j].value)
    case _ => true
  }

  /** A tree compares equal to a tree with the same contents if and only if its repeated names agree. */
  lemma {:induction false} CompareIsReflexive(v: Value)
    ensures Compare(v, v) <==> RepeatsAgree(v)
    decreases Size(v), 1
  {
    match v
    case Array(items) => ItemsReflexive(items);
    case Object(ms) => CoversItself(ms, |ms|);
    case _ =>
  }

  lemma {:induction false} ItemsReflexive(items: seq<Value>)
    ensures CompareItems(items, items) <==> forall k :: 0 <= k < |items| ==> RepeatsAgree(items[k])
    decreases ItemsSize(items), 2, |items|
  {
    if items == [] {
    } else {
      var rest := items[1..];
      CompareIsReflexive(items[0]);
      ItemsReflexive(rest);
      assert forall k :: 0 < k < |items| ==> items[k] == rest[k - 1];
    }
  }

  lemma {:induction false} CoversItself(ms: seq<Member>, n: nat)
    requires n <= |ms|
    ensures Covers(ms, ms, n) <==>
            forall k :: 0 <= k < n ==>
              var j := Find(ms, ms[k].name);
              if j == k then RepeatsAgree(ms[k].value) else Compare(ms[k].value, ms[j].value)
    decreases MembersSize(ms), 2, n
  {
    hide Compare, RepeatsAgree, Find;
    if n == 0 {
    } else {
      CoversItself(ms, n - 1);
      MemberIsSmaller(ms, n - 1);
      CompareIsReflexive(ms[n - 1].value);
      CoverStep(ms, ms, n - 1);
    }
  }

  /** Distinct names leave nothing to agree on. */
  lemma {:induction false} DistinctKeysAgree(v: Value)
    requires DistinctKeys(v)
    ensures RepeatsAgree(v)
    decreases v
  {
    match v
    case Array(items) =>
      forall k | 0 <= k < |items| ensures RepeatsAgree(items[k]) {
        DistinctKeysAgree(items[k]);
      }
    case Object(ms) =>
      forall k | 0 <= k < |ms| ensures Find(ms, ms[k].name) == k && RepeatsAgree(ms[k].value) {
        FindUnique(ms, k);
        DistinctKeysAgree(ms[k].value);
      }
    case _ =>
  }

  /**
   An object with one more member compares equal to the object without it if and only
   if the repeated names of the object agree and the new member repeats a name with an
   equal value: the comparison does not see such a member.
   */
  lemma {:induction false} RepeatIsInvisible(ms: seq<Member>, m: Member)
    ensures Compare(Object(ms + [m]), Object(ms)) <==>
            RepeatsAgree(Object(ms)) && var j := Find(ms, m.name); j >= 0 && Compare(m.value, ms[j].value)
  {
    hide Find, RepeatsAgree;
    var more, n := ms + [m], |ms|;
    CompareIsReflexive(Object(ms));
    CoversPrefix(more, ms, ms, n);
    CoverStep(more, ms, n);
    if Covers(ms, ms, n) {
      FindsItself(ms);
    }
    CoversMore(ms, ms, m, n);
  }

  lemma {:induction false} FindsItself(ms: seq<Member>)
    ensures forall k :: 0 <= k < |ms| ==> Find(ms, ms[k].name) >= 0
  {
  }

  /** A loop over a prefix only looks at that prefix. */
  lemma {:induction false} CoversPrefix(ms: seq<Member>, front: seq<Member>, ns: seq<Member>, n: nat)
    requires n <= |front| <= |ms| && ms[..|front|] == front
    ensures Covers(ms, ns, n) <==> Covers(front, ns, n)
    decreases n
  {
    hide Find, Compare;
    if n == 0 {
    } else {
      CoversPrefix(ms, front, ns, n - 1);
      assert ms[n - 1] == front[n - 1];
      CoverStep(ms, ns, n - 1);
      CoverStep(front, ns, n - 1);
    }
  }

  /** A member at the end changes nothing for names that occur before it. */
  lemma {:induction false} CoversMore(ms: seq<Member>, ns: seq<Member>, m: Member, n: nat)
    requires n <= |ms| && forall k :: 0 <= k < n ==> Find(ns, ms[k].name) >= 0
    ensures Covers(ms, ns + [m], n) <==> Covers(ms, ns, n)
    decreases n
  {
    hide Find, Compare;
    if n == 0 {
    } else {
      CoversMore(ms, ns, m, n - 1);
      FindMore(ns, m, ms[n - 1].name);
      var j := Find(ns, ms[n - 1].name);
      assert (ns + [m])[j] == ns[j];
      CoverStep(ms, ns + [m], n - 1);
      CoverStep(ms, ns, n - 1);
    }
  }

  lemma {:induction false} FindMore(ns: seq<Member>, m: Member, name: bytes)
    requires Find(ns, name) >= 0
    ensures Find(ns + [m], name) == Find(ns, name)
  {
    hide Find;
    var i, j := Find(ns, name), Find(ns + [m], name);
    assert (ns + [m])[i] == ns[i];
    assert forall k :: 0 <= k < |ns| ==> (ns + [m])[k] == ns[k];
  }

  /** With repeated names, different objects can compare equal, and an object can differ from its own copy. */
  lemma {:induction false} RepeatedNamesMislead(name: bytes)
    ensures var one, two := Member(name, Number(1.0)), Member(name, Number(2.0));
            && Compare(Object([one, one]), Object([one])) && Object([one, one]) != Object([one])
            && !Compare(Object([one, two]), Object([one, two]))
  {
    var one, two := Member(name, Number(1.0)), Member(name, Number(2.0));
    hide Find, Covers;
    assert Compare(one.value, one.value) && !Compare(two.value, one.value) by {
      assert Close(1.0, 1.0) && !Close(2.0, 1.0);
    }
    assert [one][0].name == name && [one, two][0].name == name && [one, two][1].name == name;
    assert Find([one], name) == 0 && Find([one, two], name) == 0;
    assert RepeatsAgree(Object([one]));
    RepeatIsInvisible([one], one);
    assert [one] + [one] == [one, one];
    CompareIsReflexive(Object([one, two]));
  }

  lemma {:induction false} CoverStep(ms: seq<Member>, ns: seq<Member>, n: nat)
    requires n < |ms|
    ensures Covers(ms, ns, 0)
    ensures Covers(ms, ns, n + 1) <==>
            Covers(ms, ns, n) && var j := Find(ns, ms[n].name); j >= 0 && Compare(ms[n].value, ns[j].value)
  {
  }
}
