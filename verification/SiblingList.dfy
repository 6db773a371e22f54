/**
 The children of an array or object: a chain of siblings whose last `next` is
 null, whose inner `prev` links are inverse, and whose head's `prev` is the last
 sibling.
 */
module SiblingList {
  import opened Bytes
  import J = Json

  /** A value without children. */
  type Scalar = v: J.Value | !v.Array? && !v.Object? witness J.Null

  /** What an item holds besides its links: a leaf value or the kind of container, and its name if it has one. */
  datatype Content = Leaf(value: Scalar) | ArrayOf | ObjectOf
  datatype Payload = Payload(content: Content, name: Option<bytes>)

  class Item {
    const payload: Payload
    var next: Item?
    var prev: Item?
    var child: Item?
    ghost var kids: seq<Item>

    constructor (payload: Payload)
      ensures this.payload == payload
      ensures next == null && prev == null && child == null && kids == [] && WellShaped()
    {
      this.payload := payload;
      next, prev, child := null, null, null;
      kids := [];
    }

    /** The children, read off the ghost sequence, are linked as cJSON promises. */
    ghost predicate WellShaped()
      reads this, kids
    {
      Links(this, kids)
    }
  }

  ghost predicate Distinct(s: seq<Item>) {
    forall i, j :: 0 <= i < j < |s| ==> s[i] != s[j]
  }

  ghost predicate Links(parent: Item, s: seq<Item>)
    reads parent`child, s
  {
    && parent !in s && Distinct(s)
    && parent.child == (if s == [] then null else s[0])
    && (forall i {:trigger s[i].next} :: 0 <= i < |s| ==> s[i].next == if i + 1 < |s| then s[i + 1] else null)
    && (forall i {:trigger s[i].prev} :: 0 <= i < |s| ==> s[i].prev == if i == 0 then s[|s| - 1] else s[i - 1])
  }

  /**
   get_array_item: the walk along `next`. Every index past the end, and a null
   array, yield null.
   */
  method GetArrayItem(parent: Item?, index: nat) returns (item: Item?)
    requires parent != null ==> parent.WellShaped()
    ensures item == if parent != null && index < |parent.kids| then parent.kids[index] else null
  {
    if parent == null {
      return null;
    }
    item := parent.child;
    var left := index;
    ghost var i := 0;
    while item != null && left > 0
      invariant 0 <= i <= |parent.kids| && i + left == index
      invariant item == if i < |parent.kids| then parent.kids[i] else null
      decreases left
    {
      item := item.next;
      left, i := left - 1, i + 1;
    }
  }

  /**
   add_item_to_array. Appending to a chain that has children leaves the item's own
   `next` as it was, so the result is well shaped exactly when that was null.
   */
  method AddItemToArray(parent: Item?, item: Item?) returns (ok: bool)
    requires parent != null ==> parent.WellShaped() && item !in parent.kids
    modifies parent, item, if parent == null then [] else parent.kids
    ensures ok == (item != null && parent != null && parent != item)
    ensures ok ==> parent.kids == old(parent.kids) + [item]
    ensures ok ==> (parent.WellShaped() <==> old(parent.kids) == [] || old(item.next) == null)
    ensures ok ==> item.child == old(item.child) && item.kids == old(item.kids)
    ensures !ok && parent != null ==> parent.kids == old(parent.kids) && parent.WellShaped()
  {
    if item == null || parent == null || parent == item {
      return false;
    }
    var child := parent.child;
    ghost var kids := parent.kids;
    if child == null {
      parent.child := item;
      item.prev := item;
      item.next := null;
    } else if child.prev != null {
      child.prev.next := item;
      item.prev := child.prev;
      parent.child.prev := item;
    }
    parent.kids := kids + [item];
    assert parent.kids[|kids|] == item && parent.kids[|kids|].next == item.next;
    ok := true;
  }

  /** cJSON_DetachItemViaPointer: takes the k-th child out of the chain and clears its links. */
  method DetachItemViaPointer(parent: Item?, item: Item?, ghost k: nat) returns (detached: Item?)
    requires parent != null && item != null ==> parent.WellShaped() && k < |parent.kids| && parent.kids[k] == item
    modifies parent, if parent == null then [] else parent.kids
    ensures detached == if parent == null then null else item
    ensures detached != null ==>
              && parent.kids == old(parent.kids[..k] + parent.kids[k + 1..]) && parent.WellShaped()
              && item.next == null && item.prev == null
              && item.child == old(item.child) && item.kids == old(item.kids)
  {
    if parent == null || item == null {
      return null;
    }
    Unhook(parent, item, k);
    return item;
  }

  method Unhook(parent: Item, item: Item, ghost k: nat)
    requires parent.WellShaped() && k < |parent.kids| && parent.kids[k] == item
    modifies parent`child, parent`kids, parent.kids`next, parent.kids`prev
    ensures parent.kids == old(parent.kids[..k] + parent.kids[k + 1..]) && parent.WellShaped()
    ensures item.next == null && item.prev == null
    ensures item.kids == old(item.kids)
  {
    hide Links, Distinct;
    ghost var kids, n := parent.kids, |parent.kids|;
    Neighbours(parent, kids, k);
    if item != parent.child {
      item.prev.next := item.next;
    }
    if item.next != null {
      item.next.prev := item.prev;
    }
    if item == parent.child {
      parent.child := item.next;
    } else if item.next == null {
      parent.child.prev := item.prev;
    }
    item.prev := null;
    item.next := null;
    Unhooked(parent, kids, k);
    parent.kids := kids[..k] + kids[k + 1..];
  }

  /** The siblings next to the k-th, and that no others are the same items. */
  lemma {:induction false} Neighbours(parent: Item, s: seq<Item>, k: nat)
    requires Links(parent, s) && k < |s|
    ensures parent !in s && Distinct(s) && parent.child == s[0]
    ensures forall i {:trigger s[i].next} :: 0 <= i < |s| ==> s[i].next == if i + 1 < |s| then s[i + 1] else null
    ensures forall i {:trigger s[i].prev} :: 0 <= i < |s| ==> s[i].prev == if i == 0 then s[|s| - 1] else s[i - 1]
    ensures forall i :: 0 <= i < |s| ==>
              && (i != k ==> s[i] != s[k]) && (i != 0 ==> s[i] != s[0])
              && (k > 0 && i != k - 1 ==> s[i] != s[k - 1]) && (k + 1 < |s| && i != k + 1 ==> s[i] != s[k + 1])
  {
  }

  /** The position of the sibling after the i-th when the k-th is left out. */
  function Following(k: nat, i: nat): nat { if i + 1 == k then i + 2 else i + 1 }

  /** The position of the sibling before the i-th when the k-th is left out; before the head stands the last. */
  function Preceding(n: nat, k: nat, i: nat): (j: nat)
    requires k < n && i < n && i != k
    ensures j < n
  {
    if i == k + 1 then (if k == 0 then n - 1 else k - 1)
    else if i == 0 then (if k == n - 1 then k - 1 else n - 1)
    else i - 1
  }

  /** Links that pass the k-th sibling by make the chain without it. */
  lemma {:induction false} Unhooked(parent: Item, s: seq<Item>, k: nat)
    requires k < |s| && parent !in s && Distinct(s)
    requires parent.child == (if k > 0 then s[0] else if |s| > 1 then s[1] else null)
    requires forall i {:trigger s[i].next} :: 0 <= i < |s| && i != k ==>
               s[i].next == if Following(k, i) < |s| then s[Following(k, i)] else null
    requires forall i {:trigger s[i].prev} :: 0 <= i < |s| && i != k ==> s[i].prev == s[Preceding(|s|, k, i)]
    ensures Links(parent, s[..k] + s[k + 1..])
  {
    var r := s[..k] + s[k + 1..];
    assert forall i :: 0 <= i < |r| ==> r[i] == s[if i < k then i else i + 1];
    forall i | 0 <= i < |r|
      ensures r[i].next == if i + 1 < |r| then r[i + 1] else null
      ensures r[i].prev == if i == 0 then r[|r| - 1] else r[i - 1]
    {
      var x := if i < k then i else i + 1;
      assert r[i] == s[x];
      assert s[x].next == if Following(k, x) < |s| then s[Following(k, x)] else null;
      assert s[x].prev == s[Preceding(|s|, k, x)];
    }
  }

  /**
   cJSON_InsertItemInArray: before the child at `which`, or appended when there is
   none. A null item is dereferenced when there is such a child.
   */
  method InsertItemInArray(parent: Item?, which: int, newitem: Item?) returns (ok: bool)
    requires parent != null ==> parent.WellShaped() && newitem !in parent.kids
    requires parent != null && 0 <= which < |parent.kids| ==> newitem != null && newitem != parent
    modifies parent, newitem, if parent == null then [] else parent.kids
    ensures ok == (which >= 0 && parent != null && newitem != null && parent != newitem)
    ensures ok && which < |old(parent.kids)| ==>
              parent.WellShaped() && parent.kids == old(parent.kids[..which] + [newitem] + parent.kids[which..])
    ensures ok && which >= |old(parent.kids)| ==>
              && parent.kids == old(parent.kids) + [newitem]
              && (parent.WellShaped() <==> old(parent.kids) == [] || old(newitem.next) == null)
    ensures !ok && parent != null ==> parent.kids == old(parent.kids) && parent.WellShaped()
  {
    if which < 0 {
      return false;
    }
    var after := GetArrayItem(parent, which);
    if after == null {
      ok := AddItemToArray(parent, newitem);
      return;
    }
    InsertBefore(parent, after, newitem, which);
    ok := true;
  }

  method InsertBefore(parent: Item, after: Item, newitem: Item, ghost which: nat)
    requires parent.WellShaped() && which < |parent.kids| && parent.kids[which] == after
    requires newitem !in parent.kids && newitem != parent
    modifies parent, newitem, parent.kids
    ensures parent.WellShaped() && parent.kids == old(parent.kids[..which] + [newitem] + parent.kids[which..])
  {
    hide Links, Distinct;
    ghost var kids := parent.kids;
    Neighbours(parent, kids, which);
    newitem.next := after;
    newitem.prev := after.prev;
    after.prev := newitem;
    if after == parent.child {
      parent.child := newitem;
    } else {
      newitem.prev.next := newitem;
    }
    Inserted(parent, kids, newitem, which);
    parent.kids := kids[..which] + [newitem] + kids[which..];
  }

  /** Links that pass through `x` before the w-th sibling make the chain with it. */
  lemma {:induction false} Inserted(parent: Item, s: seq<Item>, x: Item, w: nat)
    requires w < |s| && parent !in s && Distinct(s) && x !in s && x != parent
    requires parent.child == (if w == 0 then x else s[0])
    requires x.next == s[w] && x.prev == (if w == 0 then s[|s| - 1] else s[w - 1])
    requires forall i {:trigger s[i].next} :: 0 <= i < |s| ==>
               s[i].next == if i + 1 == w then x else if i + 1 < |s| then s[i + 1] else null
    requires forall i {:trigger s[i].prev} :: 0 <= i < |s| ==>
               s[i].prev == if i == w then x else if i == 0 then s[|s| - 1] else s[i - 1]
    ensures Links(parent, s[..w] + [x] + s[w..])
  {
    var r := s[..w] + [x] + s[w..];
    assert forall i :: 0 <= i < |r| ==> r[i] == if i < w then s[i] else if i == w then x else s[i - 1];
  }

  /** cJSON_ReplaceItemViaPointer: the k-th child gives its place to the replacement. */
  method ReplaceItemViaPointer(parent: Item?, item: Item?, replacement: Item?, ghost k: nat) returns (ok: bool)
    requires parent != null && item != null ==> parent.WellShaped() && k < |parent.kids| && parent.kids[k] == item
    requires parent != null && item != null && replacement != item ==> replacement !in parent.kids && replacement != parent
    modifies parent, replacement, if parent == null then [] else parent.kids
    ensures ok == (parent != null && replacement != null && item != null)
    ensures ok ==> parent.WellShaped() && parent.kids == old(parent.kids)[k := replacement]
    ensures ok && replacement != item ==> item.next == null && item.prev == null
  {
    if parent == null || replacement == null || item == null {
      return false;
    }
    if replacement == item {
      assert parent.kids[k := item] == parent.kids;
      return true;
    }
    ghost var kids := parent.kids;
    replacement.next := item.next;
    replacement.prev := item.prev;
    if replacement.next != null {
      replacement.next.prev := replacement;
    }
    if parent.child == item {
      if parent.child.prev == parent.child {
        replacement.prev := replacement;
      }
      parent.child := replacement;
    } else {
      if replacement.prev != null {
        replacement.prev.next := replacement;
      }
      if replacement.next == null {
        parent.child.prev := replacement;
      }
    }
    item.next := null;
    item.prev := null;
    parent.kids := kids[k := replacement];
    ok := true;
  }
}
