/** A printed and parsed tree against the tree it was printed from, as cJSON_Compare sees the two. */
module JsonTrip {
  import opened Bytes
  import opened Json
  import opened JsonCompare
  import N = JsonNumber
  import P = JsonParser
  import R = JsonRender

  /** An integer that is not negative, or a number that one of its two decimal texts is close to. */
  predicate AccurateNumber(x: real) {
    if R.IsInt64(x) then x >= 0.0
    else Close(N.NumeralValue(R.FORMAT_15(x)), x) || Close(N.NumeralValue(R.FORMAT_17(x)), x)
  }

  /**
   Every number comes back close; where a name is repeated, what comes back of either
   member is compared with the other one as it was.
   */
  predicate Returns(v: Value)
    requires R.Printable(v)
    decreases v
  {
    match v
    case Number(x) => AccurateNumber(x)
    case Array(items) =>
      R.PrintableArray(items);
      forall k :: 0 <= k < |items| ==> Returns(items[k])
    case Object(ms) =>
      R.ReadMembersAt(ms);
      forall k :: 0 <= k < |ms| ==> MemberReturns(ms, k, Find(ms, ms[k].name))
    case _ => true
  }

  /** The k-th member, whose name is first borne by the j-th. */
  predicate MemberReturns(ms: seq<Member>, k: nat, j: nat)
    requires k < |ms| && j < |ms| && R.Printable(ms[k].value) && R.Printable(ms[j].value)
    decreases ms, 0
  {
    if j == k then Returns(ms[k].value)
    else Compare(R.ReadBack(ms[k].value), ms[j].value) && Compare(ms[k].value, R.ReadBack(ms[j].value))
  }

  predicate Accurate(v: Value)
    decreases v
  {
    match v
    case Number(x) => AccurateNumber(x)
    case Array(items) => forall k :: 0 <= k < |items| ==> Accurate(items[k])
    case Object(ms) => forall k :: 0 <= k < |ms| ==> Accurate(ms[k].value)
    case _ => true
  }

  /** print_number falls back on 17 digits exactly so that a number comes back close to itself. */
  lemma {:induction false} NumberComesBackClose(x: real)
    ensures Close(R.Arrival(x), x) <==> AccurateNumber(x)
  {
    hide N.NumeralValue;
  }

  /** What comes back compares equal exactly so. */
  lemma {:induction false} ComparesAsReturned(v: Value)
    requires R.Printable(v)
    ensures Compare(R.ReadBack(v), v) <==> Returns(v)
    decreases v, 1
  {
    hide AccurateNumber, R.Arrival, Close, Covers;
    match v
    case Number(x) => NumberComesBackClose(x);
    case Array(items) => ItemsReturned(items);
    case Object(ms) => MembersReturned(ms);
    case _ =>
  }

  lemma {:induction false} ItemsReturned(items: seq<Value>)
    requires R.PrintableItems(items)
    ensures R.Printable(Array(items))
    ensures CompareItems(R.ReadItems(items), items) <==> Returns(Array(items))
    decreases items, 0
  {
    hide R.Printable, Compare, R.ReadBack;
    R.PrintableArray(items);
    ArrayReturns(items);
    if items == [] {
    } else {
      var rest := items[1..];
      ComparesAsReturned(items[0]);
      ItemsReturned(rest);
      ArrayReturns(rest);
      assert forall k :: 0 < k < |items| ==> items[k] == rest[k - 1];
      var r := R.ReadItems(items);
      assert r[0] == R.ReadBack(items[0]) && r[1..] == R.ReadItems(rest);
    }
  }

  lemma {:induction false} ArrayReturns(items: seq<Value>)
    requires R.PrintableItems(items)
    ensures R.Printable(Array(items)) && forall k :: 0 <= k < |items| ==> R.Printable(items[k])
    ensures Returns(Array(items)) <==> forall k :: 0 <= k < |items| ==> Returns(items[k])
  {
    R.PrintableArray(items);
  }

  lemma {:induction false} MembersReturned(ms: seq<Member>)
    requires R.PrintableMembers(ms)
    ensures R.Printable(Object(ms))
    ensures Compare(R.ReadBack(Object(ms)), Object(ms)) <==> Returns(Object(ms))
    decreases ms, 2
  {
    hide Covers, Compare, Find, MemberReturns;
    R.ReadMembersAt(ms);
    var ns := R.ReadMembers(ms);
    forall k | 0 <= k < |ms|
      ensures LooksUp(ns, ms, k) && LooksUp(ms, ns, k) <==> MemberReturns(ms, k, Find(ms, ms[k].name))
    {
      MemberReturned(ms, k);
    }
    CoversIff(ns, ms, |ns|);
    CoversIff(ms, ns, |ms|);
    ObjectCompares(ns, ms);
  }

  /** What both loops do with one member. */
  lemma {:induction false} MemberReturned(ms: seq<Member>, k: nat)
    requires R.PrintableMembers(ms) && k < |ms|
    ensures forall i :: 0 <= i < |ms| ==> R.Printable(ms[i].value)
    ensures |R.ReadMembers(ms)| == |ms|
    ensures var ns := R.ReadMembers(ms);
            LooksUp(ns, ms, k) && LooksUp(ms, ns, k) <==> MemberReturns(ms, k, Find(ms, ms[k].name))
    decreases ms, 1
  {
    hide Compare, Find, R.ReadBack, Returns, R.Printable, R.ReadMembers, R.PrintableMembers;
    R.ReadMembersAt(ms);
    var ns := R.ReadMembers(ms);
    var j, i := Find(ms, ms[k].name), Find(ns, ms[k].name);
    assert ns[k].name == ms[k].name;
    assert i == j by {
      assert i >= 0 ==> ns[i].name == ms[i].name;
      assert j >= 0 ==> ns[j].name == ms[j].name;
    }
    if j == k {
      ComparesAsReturned(ms[k].value);
      CompareIsSymmetric(ms[k].value, R.ReadBack(ms[k].value));
    }
  }

  lemma {:induction false} ObjectCompares(ms: seq<Member>, ns: seq<Member>)
    ensures Compare(Object(ms), Object(ns)) <==> Covers(ms, ns, |ms|) && Covers(ns, ms, |ns|)
  {
  }

  /** With distinct names only the numbers matter. */
  lemma {:induction false} DistinctKeysReturn(v: Value)
    requires R.Printable(v) && DistinctKeys(v)
    ensures Returns(v) <==> Accurate(v)
    decreases v
  {
    hide AccurateNumber, Find;
    match v
    case Array(items) =>
      R.PrintableArray(items);
      forall k | 0 <= k < |items| ensures Returns(items[k]) <==> Accurate(items[k]) {
        DistinctKeysReturn(items[k]);
      }
    case Object(ms) =>
      R.ReadMembersAt(ms);
      forall k | 0 <= k < |ms| ensures MemberReturns(ms, k, Find(ms, ms[k].name)) <==> Accurate(ms[k].value) {
        FindUnique(ms, k);
        DistinctKeysReturn(ms[k].value);
      }
    case _ =>
  }

  /**
   For every tree: its printed text is parsed exactly when it nests at most 1000 deep,
   and what comes back compares equal to the tree if and only if the tree returns. With
   distinct names that is: it holds no negative integer, and the C library prints its
   other numbers accurately.
   */
  lemma {:induction false} TripComparesEqual(v: Value, format: bool, requireEnd: bool)
    requires R.Printable(v)
    ensures var r := P.ParseText(R.Render(v, format, 0), requireEnd);
            && (r.Done? <==> Depth(v) <= P.NESTING_LIMIT)
            && (r.Done? ==> (Compare(r.value, v) <==> Returns(v)))
    ensures DistinctKeys(v) ==> (Returns(v) <==> Accurate(v))
  {
    hide R.Render, P.ParseText, R.ReadBack, Compare, Returns, Accurate, R.Printable, DistinctKeys, Depth;
    R.RoundTrip(v, format, requireEnd);
    ComparesAsReturned(v);
    if DistinctKeys(v) {
      DistinctKeysReturn(v);
    }
  }
}
