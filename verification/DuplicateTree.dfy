/** cJSON_Duplicate on a tree of linked items. */
module DuplicateTree {
  import opened Bytes
  import opened SiblingList
  import J = Json
  import C = JsonCompare

  /** The items of a tree, in the order of the sibling chains. */
  datatype Tree = Tree(node: Item, kids: seq<Tree>)

  ghost function Roots(ts: seq<Tree>): (r: seq<Item>)
    ensures |r| == |ts| && forall i :: 0 <= i < |ts| ==> r[i] == ts[i].node
  {
    seq(|ts|, i requires 0 <= i < |ts| => ts[i].node)
  }

  /** Every chain of children in the tree is linked as cJSON promises; `below` holds all items but the root. */
  ghost predicate Shape(t: Tree, below: set<Item>)
    reads t.node`child, below
    decreases t
  {
    && (forall i :: 0 <= i < |t.kids| ==> t.kids[i].node in below)
    && Links(t.node, Roots(t.kids))
    && forall i :: 0 <= i < |t.kids| ==> Shape(t.kids[i], below)
  }

  lemma {:induction false} Widen(t: Tree, below: set<Item>, more: set<Item>)
    requires Shape(t, below) && below <= more
    ensures Shape(t, more)
    decreases t
  {
    forall i | 0 <= i < |t.kids| ensures Shape(t.kids[i], more) {
      Widen(t.kids[i], below, more);
    }
  }

  /** The items from the root down, each child's tree before the next child. */
  ghost function Preorder(t: Tree): seq<Item>
    decreases t, 0
  {
    [t.node] + PreorderAll(t.kids)
  }

  ghost function PreorderAll(ts: seq<Tree>): seq<Item>
    decreases ts, 1
  {
    if ts == [] then [] else PreorderAll(ts[..|ts| - 1]) + Preorder(ts[|ts| - 1])
  }

  /** What the tree holds, without its items' identities. */
  datatype Image = Image(payload: Payload, kids: seq<Image>)

  ghost function ImageOf(t: Tree): Image
    decreases t
  {
    Image(t.node.payload, seq(|t.kids|, i requires 0 <= i < |t.kids| => ImageOf(t.kids[i])))
  }

  /** The copied children so far: linked forwards and backwards, but the head's `prev` is not set yet. */
  ghost predicate Chain(copy: Item, us: seq<Tree>, within: set<Item>)
    reads copy, Roots(us), within
  {
    var s := Roots(us);
    && copy !in within && copy !in s && Distinct(s)
    && copy.child == (if s == [] then null else s[0])
    && (forall j :: 0 <= j < |us| ==> us[j].node == s[j] && s[j] !in within && Shape(us[j], within))
    && (forall j {:trigger s[j].next} :: 0 <= j < |s| ==> s[j].next == if j + 1 < |s| then s[j + 1] else null)
    && (forall j {:trigger s[j].prev} :: 0 < j < |s| ==> s[j].prev == s[j - 1])
  }

  lemma {:induction false} WidenAll(us: seq<Tree>, within: set<Item>, more: set<Item>)
    requires within <= more && forall j :: 0 <= j < |us| ==> Shape(us[j], within)
    ensures forall j :: 0 <= j < |us| ==> Shape(us[j], more)
  {
    forall j | 0 <= j < |us| ensures Shape(us[j], more) {
      Widen(us[j], within, more);
    }
  }

  /** Hangs one more copied child at the end of the chain. */
  method Attach(copy: Item, last: Item?, newchild: Item, ghost us: seq<Tree>, ghost v: Tree,
                ghost within: set<Item>, ghost more: set<Item>)
    requires Chain(copy, us, within)
    requires last == if us == [] then null else us[|us| - 1].node
    requires v.node == newchild && Shape(v, more) && newchild.next == null
    requires newchild != copy && newchild !in Set(Roots(us)) && newchild !in within && newchild !in more
    requires copy !in more && forall j :: 0 <= j < |us| ==> us[j].node !in more
    modifies copy`child, newchild`prev, Set(Roots(us))`next
    ensures Chain(copy, us + [v], within + more)
  {
    hide Shape;
    WidenAll(us, within, within + more);
    Widen(v, more, within + more);
    if last != null {
      last.next := newchild;
      newchild.prev := last;
    } else {
      copy.child := newchild;
    }
    ghost var s, s' := Roots(us), Roots(us + [v]);
    assert s' == s + [newchild];
  }

  /** Closes the chain: the head's `prev` becomes the last child. */
  method Close(copy: Item, last: Item?, ghost us: seq<Tree>, ghost within: set<Item>)
    requires Chain(copy, us, within)
    requires last == if us == [] then null else us[|us| - 1].node
    modifies copy`kids, Roots(us)`prev
    ensures copy.kids == Roots(us)
    ensures Shape(Tree(copy, us), within + Set(Roots(us)))
  {
    hide Shape;
    ghost var s := Roots(us);
    if copy.child != null {
      copy.child.prev := last;
    }
    copy.kids := s;
    assert Links(copy, s);
    WidenAll(us, within, within + Set(s));
    ShapeOf(copy, us, within + Set(s));
  }

  lemma {:induction false} ShapeOf(node: Item, us: seq<Tree>, below: set<Item>)
    requires Links(node, Roots(us))
    requires forall j :: 0 <= j < |us| ==> us[j].node in below && Shape(us[j], below)
    ensures Shape(Tree(node, us), below)
  {
  }

  ghost function Set(s: seq<Item>): (r: set<Item>)
    ensures forall j :: 0 <= j < |s| ==> s[j] in r
    ensures forall n :: n in r ==> n in s
  {
    set n | n in s
  }

  /** The items of `ts` are distinct and lie in `among`. */
  ghost predicate Once(items: seq<Item>, among: set<Item>) {
    Distinct(items) && forall i :: 0 <= i < |items| ==> items[i] in among
  }

  lemma {:induction false} OnceMore(a: seq<Item>, b: seq<Item>, among: set<Item>, more: set<Item>)
    requires Once(a, among) && Once(b, more) && among !! more
    ensures Once(a + b, among + more)
  {
  }

  /** cJSON_Duplicate with recursion: a copy made of new items, none of them used twice. */
  method Duplicate(item: Item, ghost t: Tree, ghost below: set<Item>)
    returns (copy: Item, ghost u: Tree, ghost within: set<Item>)
    requires t.node == item && Shape(t, below)
    ensures u.node == copy && fresh(within + {copy}) && copy !in within
    ensures Shape(u, within) && Once(Preorder(u), within + {copy})
    ensures copy.next == null && copy.prev == null
    ensures ImageOf(u) == ImageOf(t)
    decreases t, 0
  {
    hide Once, ImageOf, Shape, Chain, PreorderAll, Roots, Set;
    copy := new Item(item.payload);
    var child, last := item.child, null;
    ghost var us: seq<Tree> := [];
    ghost var i := 0;
    ghost var inner: set<Item> := {};
    Start(copy);
    FirstKid(t, below);
    while child != null
      invariant 0 <= i == |us| <= |t.kids| && Shape(t, below)
      invariant child == if i < |t.kids| then t.kids[i].node else null
      invariant last == if us == [] then null else us[i - 1].node
      invariant Chain(copy, us, inner) && fresh(inner) && fresh(Set(Roots(us)))
      invariant Once(PreorderAll(us), inner + Set(Roots(us)))
      invariant copy.next == null && copy.prev == null
      invariant forall j :: 0 <= j < i ==> ImageOf(us[j]) == ImageOf(t.kids[j])
      decreases |t.kids| - i
    {
      NextKid(t, below, i);
      InChain(copy, us, inner);
      var newchild;
      ghost var v, more;
      newchild, v, more := DuplicateChild(copy, last, child, t.kids[i], below, us, inner);
      inner := inner + more;
      us := us + [v];
      last := newchild;
      child := child.next;
      i := i + 1;
    }
    InChain(copy, us, inner);
    Close(copy, last, us, inner);
    u := Tree(copy, us);
    within := inner + Set(Roots(us));
    OnceRoot(copy, PreorderAll(us), within);
    SameImage(t, u);
  }

  /** Copies one child and hangs it at the end of the chain of copies. */
  method DuplicateChild(copy: Item, last: Item?, child: Item, ghost t: Tree, ghost below: set<Item>,
                        ghost us: seq<Tree>, ghost inner: set<Item>)
    returns (newchild: Item, ghost v: Tree, ghost more: set<Item>)
    requires t.node == child && Shape(t, below)
    requires Chain(copy, us, inner) && last == (if us == [] then null else us[|us| - 1].node)
    requires Once(PreorderAll(us), inner + Set(Roots(us)))
    modifies copy`child, Set(Roots(us))`next
    ensures v.node == newchild && fresh(more + {newchild}) && ImageOf(v) == ImageOf(t)
    ensures Chain(copy, us + [v], inner + more)
    ensures Set(Roots(us + [v])) == Set(Roots(us)) + {newchild}
    ensures Once(PreorderAll(us + [v]), inner + more + Set(Roots(us + [v])))
    decreases t, 1
  {
    hide Once, ImageOf, Shape, Chain, PreorderAll, Roots, Set;
    InChain(copy, us, inner);
    newchild, v, more := Duplicate(child, t, below);
    Attach(copy, last, newchild, us, v, inner, more);
    OnceMore(PreorderAll(us), Preorder(v), inner + Set(Roots(us)), more + {newchild});
    Extend(us, v, inner, more);
  }

  lemma {:induction false} FirstKid(t: Tree, below: set<Item>)
    requires Shape(t, below)
    ensures t.node.child == if t.kids == [] then null else t.kids[0].node
  {
  }

  lemma {:induction false} NextKid(t: Tree, below: set<Item>, i: nat)
    requires Shape(t, below) && i < |t.kids|
    ensures Shape(t.kids[i], below)
    ensures t.kids[i].node.next == if i + 1 < |t.kids| then t.kids[i + 1].node else null
  {
    assert Roots(t.kids)[i] == t.kids[i].node;
  }

  lemma {:induction false} InChain(copy: Item, us: seq<Tree>, within: set<Item>)
    requires Chain(copy, us, within)
    ensures copy !in within && copy !in Set(Roots(us))
    ensures forall j :: 0 <= j < |us| ==> us[j].node in Set(Roots(us))
  {
  }

  lemma {:induction false} Extend(us: seq<Tree>, v: Tree, inner: set<Item>, more: set<Item>)
    ensures inner + more + Set(Roots(us + [v])) == inner + Set(Roots(us)) + (more + {v.node})
    ensures Set(Roots(us + [v])) == Set(Roots(us)) + {v.node}
    ensures PreorderAll(us + [v]) == PreorderAll(us) + Preorder(v)
  {
    assert (us + [v])[..|us|] == us;
    assert Roots(us + [v]) == Roots(us) + [v.node];
  }

  lemma {:induction false} Start(copy: Item)
    requires copy.child == null
    ensures Once(PreorderAll([]), {} + Set(Roots([]))) && Chain(copy, [], {}) && Set(Roots([])) == {}
  {
  }

  lemma {:induction false} OnceRoot(copy: Item, rest: seq<Item>, within: set<Item>)
    requires Once(rest, within) && copy !in within
    ensures Once([copy] + rest, within + {copy})
  {
  }

  lemma {:induction false} SameImage(t: Tree, u: Tree)
    requires t.node.payload == u.node.payload && |t.kids| == |u.kids|
    requires forall j :: 0 <= j < |t.kids| ==> ImageOf(u.kids[j]) == ImageOf(t.kids[j])
    ensures ImageOf(u) == ImageOf(t)
  {
    assert ImageOf(u).kids == ImageOf(t).kids;
  }

  // ---------- Comparing items ----------

  function Weight(m: Image): nat
    decreases m
  {
    1 + KidsWeight(m.kids)
  }

  function KidsWeight(kids: seq<Image>): nat
    decreases kids
  {
    if kids == [] then 0 else Weight(kids[0]) + KidsWeight(kids[1..])
  }

  lemma {:induction false} KidIsLighter(kids: seq<Image>, i: nat)
    requires i < |kids|
    ensures Weight(kids[i]) <= KidsWeight(kids)
  {
    if i == 0 {
    } else {
      KidIsLighter(kids[1..], i - 1);
    }
  }

  /** get_object_item: nothing is found without a name to look for, and a child without one ends the search. */
  function Lookup(kids: seq<Image>, name: Option<bytes>): (i: int)
    ensures -1 <= i < |kids|
  {
    if name.None? || kids == [] || kids[0].payload.name.None? then -1
    else if kids[0].payload.name == name then 0
    else
      var i := Lookup(kids[1..], name);
      if i < 0 then -1 else i + 1
  }

  /** cJSON_Compare of two trees that share no item. */
  predicate Compare(a: Image, b: Image)
    decreases Weight(a) + Weight(b), 1
  {
    match (a.payload.content, b.payload.content)
    case (Leaf(v), Leaf(w)) => C.Compare(v, w)
    case (ArrayOf, ArrayOf) => CompareKids(a.kids, b.kids)
    case (ObjectOf, ObjectOf) => Covers(a.kids, b.kids, |a.kids|) && Covers(b.kids, a.kids, |b.kids|)
    case _ => false
  }

  predicate CompareKids(xs: seq<Image>, ys: seq<Image>)
    decreases KidsWeight(xs) + KidsWeight(ys), 2, |xs|
  {
    if xs == [] || ys == [] then xs == [] && ys == []
    else Compare(xs[0], ys[0]) && CompareKids(xs[1..], ys[1..])
  }

  /** One of the two loops over the children of an object, up to the n-th. */
  predicate Covers(xs: seq<Image>, ys: seq<Image>, n: nat)
    requires n <= |xs|
    decreases KidsWeight(xs) + KidsWeight(ys), 2, n
  {
    n == 0 ||
    (Covers(xs, ys, n - 1) &&
     var j := Lookup(ys, xs[n - 1].payload.name);
     j >= 0 && (KidIsLighter(xs, n - 1); KidIsLighter(ys, j); Compare(xs[n - 1], ys[j])))
  }

  lemma {:induction false} CoverStep(xs: seq<Image>, ys: seq<Image>, n: nat)
    requires n < |xs|
    ensures Covers(xs, ys, 0)
    ensures Covers(xs, ys, n + 1) <==>
            Covers(xs, ys, n) && var j := Lookup(ys, xs[n].payload.name); j >= 0 && Compare(xs[n], ys[j])
  {
  }

  /** Every child of every object in the tree has a name. */
  predicate Named(m: Image)
    decreases m
  {
    match m.payload.content
    case Leaf(_) => true
    case ArrayOf => forall i :: 0 <= i < |m.kids| ==> Named(m.kids[i])
    case ObjectOf => forall i :: 0 <= i < |m.kids| ==> m.kids[i].payload.name.Some? && Named(m.kids[i])
  }

  predicate NamedKids(kids: seq<Image>) {
    forall i :: 0 <= i < |kids| ==> kids[i].payload.name.Some? && Named(kids[i])
  }

  /** The JSON value that an image stands for, if all that should have names have them. */
  function JsonOf(m: Image): J.Value
    decreases m
  {
    match m.payload.content
    case Leaf(v) => v
    case ArrayOf => J.Array(seq(|m.kids|, i requires 0 <= i < |m.kids| => JsonOf(m.kids[i])))
    case ObjectOf =>
      J.Object(seq(|m.kids|, i requires 0 <= i < |m.kids| => J.Member(NameOf(m.kids[i]), JsonOf(m.kids[i]))))
  }

  function NameOf(m: Image): bytes { if m.payload.name.None? then [] else m.payload.name.value }

  function ItemsOf(kids: seq<Image>): (r: seq<J.Value>)
    ensures |r| == |kids| && forall i :: 0 <= i < |kids| ==> r[i] == JsonOf(kids[i])
  {
    seq(|kids|, i requires 0 <= i < |kids| => JsonOf(kids[i]))
  }

  function MembersOf(kids: seq<Image>): (r: seq<J.Member>)
    ensures |r| == |kids| && forall i :: 0 <= i < |kids| ==> r[i] == J.Member(NameOf(kids[i]), JsonOf(kids[i]))
  {
    seq(|kids|, i requires 0 <= i < |kids| => J.Member(NameOf(kids[i]), JsonOf(kids[i])))
  }

  lemma {:induction false} ContainerOf(m: Image)
    ensures m.payload.content.ArrayOf? ==> JsonOf(m) == J.Array(ItemsOf(m.kids))
    ensures m.payload.content.ObjectOf? ==> JsonOf(m) == J.Object(MembersOf(m.kids))
    ensures m.payload.content.Leaf? ==> JsonOf(m) == m.payload.content.value
  {
  }

  /** Where all children have names, the search is the search for a member. */
  lemma {:induction false} LookupFinds(kids: seq<Image>, name: bytes)
    requires NamedKids(kids)
    ensures Lookup(kids, Some(name)) == C.Find(MembersOf(kids), name)
  {
    hide Named, JsonOf;
    if kids == [] {
    } else {
      LookupFinds(kids[1..], name);
      assert MembersOf(kids)[1..] == MembersOf(kids[1..]);
    }
  }

  /**
   Two trees of items compare equal if and only if no object in either has a child
   without a name and the values they stand for compare equal.
   */
  lemma {:induction false} CompareIff(a: Image, b: Image)
    ensures Compare(a, b) <==> Named(a) && Named(b) && C.Compare(JsonOf(a), JsonOf(b))
    decreases Weight(a) + Weight(b), 1
  {
    hide JsonOf, Covers, CompareKids, C.Covers, C.CompareItems;
    ContainerOf(a);
    ContainerOf(b);
    match (a.payload.content, b.payload.content) {
      case (ArrayOf, ArrayOf) => CompareKidsIff(a.kids, b.kids);
      case (ObjectOf, ObjectOf) =>
        CoversNames(a.kids, b.kids, |a.kids|);
        CoversNames(b.kids, a.kids, |b.kids|);
        if NamedKids(a.kids) && NamedKids(b.kids) {
          CoversMembers(a.kids, b.kids, |a.kids|);
          CoversMembers(b.kids, a.kids, |b.kids|);
        }
      case _ =>
    }
  }

  lemma {:induction false} CompareKidsIff(xs: seq<Image>, ys: seq<Image>)
    ensures CompareKids(xs, ys) <==>
            && (forall i :: 0 <= i < |xs| ==> Named(xs[i])) && (forall i :: 0 <= i < |ys| ==> Named(ys[i]))
            && C.CompareItems(ItemsOf(xs), ItemsOf(ys))
    decreases KidsWeight(xs) + KidsWeight(ys), 2, |xs|
  {
    hide JsonOf, Compare, C.Compare, Named;
    if xs == [] || ys == [] {
    } else {
      CompareIff(xs[0], ys[0]);
      CompareKidsIff(xs[1..], ys[1..]);
      assert ItemsOf(xs)[1..] == ItemsOf(xs[1..]) && ItemsOf(ys)[1..] == ItemsOf(ys[1..]);
      assert forall i :: 0 < i < |xs| ==> xs[i] == xs[1..][i - 1];
      assert forall i :: 0 < i < |ys| ==> ys[i] == ys[1..][i - 1];
    }
  }

  /** A loop that succeeds has found a name at every child it passed. */
  lemma {:induction false} CoversNames(xs: seq<Image>, ys: seq<Image>, n: nat)
    requires n <= |xs|
    ensures Covers(xs, ys, n) ==> forall i :: 0 <= i < n ==> xs[i].payload.name.Some? && Named(xs[i])
    decreases KidsWeight(xs) + KidsWeight(ys), 2, n
  {
    hide JsonOf, Compare, C.Compare, Named;
    if n == 0 {
    } else {
      CoversNames(xs, ys, n - 1);
      CoverStep(xs, ys, n - 1);
      var j := Lookup(ys, xs[n - 1].payload.name);
      if j >= 0 {
        KidIsLighter(xs, n - 1);
        KidIsLighter(ys, j);
        CompareIff(xs[n - 1], ys[j]);
      }
    }
  }

  /** Where all children have names, the loop is the loop over the members. */
  lemma {:induction false} CoversMembers(xs: seq<Image>, ys: seq<Image>, n: nat)
    requires n <= |xs| && NamedKids(xs) && NamedKids(ys)
    ensures Covers(xs, ys, n) <==> C.Covers(MembersOf(xs), MembersOf(ys), n)
    decreases KidsWeight(xs) + KidsWeight(ys), 2, n
  {
    hide JsonOf, Compare, C.Compare, Named, Covers, C.Covers;
    if n == 0 {
      NothingToCover(xs, ys);
    } else {
      CoversMembers(xs, ys, n - 1);
      CoverStep(xs, ys, n - 1);
      C.CoverStep(MembersOf(xs), MembersOf(ys), n - 1);
      LookupFinds(ys, NameOf(xs[n - 1]));
      var j := Lookup(ys, xs[n - 1].payload.name);
      if j >= 0 {
        KidIsLighter(xs, n - 1);
        KidIsLighter(ys, j);
        CompareIff(xs[n - 1], ys[j]);
      }
    }
  }

  lemma {:induction false} NothingToCover(xs: seq<Image>, ys: seq<Image>)
    ensures Covers(xs, ys, 0) && C.Covers(MembersOf(xs), MembersOf(ys), 0)
  {
  }

  /**
   A copy compares equal to its source if and only if every child of an object has a
   name and the repeated names agree.
   */
  lemma {:induction false} DuplicateComparesEqual(t: Tree, u: Tree)
    requires ImageOf(u) == ImageOf(t)
    ensures Compare(ImageOf(t), ImageOf(u)) <==> Named(ImageOf(t)) && C.RepeatsAgree(JsonOf(ImageOf(t)))
    ensures Named(ImageOf(t)) && C.DistinctKeys(JsonOf(ImageOf(t))) ==> Compare(ImageOf(t), ImageOf(u))
  {
    hide Compare, Named, C.Compare, C.RepeatsAgree, JsonOf, C.DistinctKeys;
    CompareIff(ImageOf(t), ImageOf(u));
    C.CompareIsReflexive(JsonOf(ImageOf(t)));
    if C.DistinctKeys(JsonOf(ImageOf(t))) {
      C.DistinctKeysAgree(JsonOf(ImageOf(t)));
    }
  }

  /** An object with a child that has no name, here a null, differs from its copy. */
  lemma {:induction false} UnnamedChildDiffers(t: Tree, u: Tree)
    requires ImageOf(u) == ImageOf(t)
    requires ImageOf(t) == Image(Payload(ObjectOf, None), [Image(Payload(Leaf(J.Null), None), [])])
    ensures C.RepeatsAgree(JsonOf(ImageOf(t))) && !Compare(ImageOf(t), ImageOf(u))
  {
    hide Compare;
    var m := ImageOf(t);
    assert m.kids[0].payload.name.None?;
    CompareIff(m, m);
    ContainerOf(m);
    ContainerOf(m.kids[0]);
  }
}
