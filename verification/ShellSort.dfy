/** qsort_r of ulibc.c: a Shell sort of elements of any width, by swaps of single bytes. */
module ShellSort {
  import opened Bytes

  // ---------- The elements in a byte array ----------

  /** The elements of width `w` that a byte sequence holds. */
  function Elements(s: bytes, w: nat): (es: seq<bytes>)
    requires w > 0
    ensures Blocks(es, w)
  {
    if |s| < w then [] else [s[..w]] + Elements(s[w..], w)
  }

  lemma {:induction false} ElementAt(s: bytes, w: nat, n: nat, i: nat)
    requires w > 0 && |s| == n * w && i < n
    ensures i * w + w <= |s| && |Elements(s, w)| == n && Elements(s, w)[i] == s[i * w..i * w + w]
  {
    ElementAtOffset(s, w, n, i);
  }

  /** The byte offset of an element. */
  function Offset(k: nat, w: nat): nat { k * w }

  lemma {:induction false} ElementAtOffset(s: bytes, w: nat, n: nat, i: nat)
    requires w > 0 && |s| == Offset(n, w) && i < n
    ensures Offset(i, w) + w <= |s| && |Elements(s, w)| == n
    ensures Elements(s, w)[i] == s[Offset(i, w)..Offset(i, w) + w]
    decreases n
  {
    hide Offset;
    OneLess(n, w);
    var rest := s[w..];
    if n == 1 {
      assert rest == [];
    } else if i == 0 {
      ElementAtOffset(rest, w, n - 1, 0);
    } else {
      ElementAtOffset(rest, w, n - 1, i - 1);
      OneLess(i, w);
      Shifted(s, w, Offset(i - 1, w));
    }
  }

  lemma {:induction false} OneLess(n: nat, w: nat)
    requires n > 0
    ensures Offset(n, w) == Offset(n - 1, w) + w && Offset(0, w) == 0
  {
  }

  lemma {:induction false} Shifted(s: bytes, w: nat, o: nat)
    requires w + o + w <= |s|
    ensures s[w..][o..o + w] == s[o + w..o + w + w]
  {
  }

  lemma {:induction false} ElementCount(s: bytes, w: nat, n: nat)
    requires w > 0 && |s| == n * w
    ensures |Elements(s, w)| == n
  {
    if n > 0 {
      ElementAt(s, w, n, 0);
    }
  }

  lemma {:induction false} Apart(i: nat, j: nat, w: nat)
    requires i < j
    ensures i * w + w <= j * w
  {
    assert j * w == i * w + w + (j - i - 1) * w;
  }

  /** Two blocks of w bytes have changed places, at byte offsets `a` and `b`. */
  predicate Exchanged(s: bytes, t: bytes, a: nat, b: nat, w: nat) {
    && |t| == |s| && a + w <= b && b + w <= |s|
    && forall k {:trigger t[k]} :: 0 <= k < |s| ==>
         t[k] == if a <= k < a + w then s[b + (k - a)] else if b <= k < b + w then s[a + (k - b)] else s[k]
  }

  /** Exchanging the bytes of two elements exchanges the elements and nothing else. */
  lemma {:induction false} ExchangeElements(s: bytes, t: bytes, w: nat, n: nat, p: nat, q: nat)
    requires w > 0 && |s| == n * w && p < q < n && Exchanged(s, t, p * w, q * w, w)
    ensures var es := Elements(s, w);
            |es| == n && Elements(t, w) == Swapped(es, p, q)
  {
    hide Elements, Exchanged;
    var es, et := Elements(s, w), Elements(t, w);
    SameLength(s, t, p * w, q * w, w);
    ElementCount(s, w, n);
    ElementCount(t, w, n);
    forall i | 0 <= i < n ensures et[i] == if i == p then es[q] else if i == q then es[p] else es[i] {
      ElementAt(t, w, n, i);
      ElementAt(s, w, n, if i == p then q else if i == q then p else i);
      if i != p && i != q {
        BlocksApart(i, p, w);
        BlocksApart(i, q, w);
      }
      BlockMoves(s, t, p * w, q * w, w, i * w);
    }
  }

  lemma {:induction false} BlocksApart(i: nat, j: nat, w: nat)
    requires i != j
    ensures i * w + w <= j * w || j * w + w <= i * w
  {
    if i < j {
      Apart(i, j, w);
    } else {
      Apart(j, i, w);
    }
  }

  lemma {:induction false} SameLength(s: bytes, t: bytes, a: nat, b: nat, w: nat)
    requires Exchanged(s, t, a, b, w)
    ensures |t| == |s|
  {
  }

  /** A block of the result is one of the two that changed places, or is where it was. */
  lemma {:induction false} BlockMoves(s: bytes, t: bytes, a: nat, b: nat, w: nat, o: nat)
    requires Exchanged(s, t, a, b, w) && o + w <= |s|
    requires o == a || o == b || ((o + w <= a || a + w <= o) && (o + w <= b || b + w <= o))
    ensures t[o..o + w] == if o == a then s[b..b + w] else if o == b then s[a..a + w] else s[o..o + w]
  {
    var from := if o == a then b else if o == b then a else o;
    var x, y := t[o..o + w], s[from..from + w];
    forall k | 0 <= k < w ensures x[k] == y[k] {
      var at := o + k;
      assert t[at] == if a <= at < a + w then s[b + (at - a)] else if b <= at < b + w then s[a + (at - b)] else s[at];
      assert x[k] == t[at] && y[k] == s[from + k];
    }
  }

  // ---------- The order ----------

  /** The comparator is a total preorder on blocks of `w` bytes. */
  ghost predicate TotalPreorder(comp: (bytes, bytes) -> int, w: nat) {
    && (forall a: bytes, b: bytes :: |a| == |b| == w ==> comp(a, b) <= 0 || comp(b, a) <= 0)
    && (forall a: bytes, b: bytes, c: bytes ::
          |a| == |b| == |c| == w && comp(a, b) <= 0 && comp(b, c) <= 0 ==> comp(a, c) <= 0)
  }

  predicate Blocks(es: seq<bytes>, w: nat) { forall i :: 0 <= i < |es| ==> |es[i]| == w }

  predicate Sorted(es: seq<bytes>, comp: (bytes, bytes) -> int) {
    forall i, j :: 0 <= i < j < |es| ==> comp(es[i], es[j]) <= 0
  }

  /** Among the first n elements, those that are `gap` apart are in order, with one exception. */
  predicate GapSortedExcept(es: seq<bytes>, comp: (bytes, bytes) -> int, gap: nat, n: nat, hole: int) {
    gap > 0 && n <= |es| && forall p :: gap <= p < n && p != hole ==> comp(es[p - gap], es[p]) <= 0
  }

  /** The elements around the one that is being moved are in order. */
  predicate Bridged(es: seq<bytes>, comp: (bytes, bytes) -> int, gap: nat, n: nat, hole: nat) {
    n <= |es| && (gap <= hole && hole + gap < n ==> comp(es[hole - gap], es[hole + gap]) <= 0)
  }

  lemma {:induction false} AdjacentIsSorted(es: seq<bytes>, w: nat, comp: (bytes, bytes) -> int)
    requires TotalPreorder(comp, w) && Blocks(es, w) && GapSortedExcept(es, comp, 1, |es|, -1)
    ensures Sorted(es, comp)
  {
    forall i, j | 0 <= i < j < |es| ensures comp(es[i], es[j]) <= 0 {
      Chain(es, w, comp, i, j);
    }
  }

  lemma {:induction false} Chain(es: seq<bytes>, w: nat, comp: (bytes, bytes) -> int, i: nat, j: nat)
    requires TotalPreorder(comp, w) && Blocks(es, w) && GapSortedExcept(es, comp, 1, |es|, -1) && i < j < |es|
    ensures comp(es[i], es[j]) <= 0
    decreases j
  {
    assert comp(es[j - 1], es[j]) <= 0;
    if i < j - 1 {
      Chain(es, w, comp, i, j - 1);
    }
  }

  /** Moving the element one gap down keeps the others in order. */
  lemma {:induction false} MoveDown(es: seq<bytes>, w: nat, comp: (bytes, bytes) -> int, gap: nat, n: nat, hole: nat)
    requires TotalPreorder(comp, w) && Blocks(es, w) && gap <= hole < n
    requires GapSortedExcept(es, comp, gap, n, hole) && Bridged(es, comp, gap, n, hole)
    requires comp(es[hole - gap], es[hole]) > 0
    ensures var r := Swapped(es, hole - gap, hole);
            GapSortedExcept(r, comp, gap, n, hole - gap) && Bridged(r, comp, gap, n, hole - gap)
  {
    hide TotalPreorder;
    var a, x, y := hole - gap, es[hole], es[hole - gap];
    var r := Swapped(es, a, hole);
    Flip(comp, w, y, x);
    forall p | gap <= p < n && p != a ensures comp(r[p - gap], r[p]) <= 0 {
      if p == hole {
        assert r[p - gap] == x && r[p] == y;
      } else if p == hole + gap {
        assert r[p - gap] == y && r[p] == es[p];
      } else {
        assert r[p - gap] == es[p - gap] && r[p] == es[p];
      }
    }
    assert gap <= a ==> comp(es[a - gap], es[a]) <= 0;
  }

  lemma {:induction false} Flip(comp: (bytes, bytes) -> int, w: nat, a: bytes, b: bytes)
    requires TotalPreorder(comp, w) && |a| == |b| == w && comp(a, b) > 0
    ensures comp(b, a) <= 0
  {
  }

  // ---------- The sort ----------

  /** Swaps two elements byte by byte. */
  method SwapBlocks(base: array<byte>, a0: nat, b0: nat, width: nat)
    requires width > 0 && a0 + width <= b0 && b0 + width <= base.Length
    modifies base
    ensures Exchanged(old(base[..]), base[..], a0, b0, width)
  {
    var a, b, k := a0, b0, width;
    while k > 0
      invariant 0 <= k <= width && a == a0 + (width - k) && b == b0 + (width - k)
      invariant forall x {:trigger base[x]} :: 0 <= x < base.Length ==>
                  base[x] == if a0 <= x < a then old(base[b0 + (x - a0)])
                             else if b0 <= x < b then old(base[a0 + (x - b0)]) else old(base[x])
    {
      var tmp := base[a];
      base[a] := base[b];
      base[b] := tmp;
      a, b, k := a + 1, b + 1, k - 1;
    }
  }

  ghost predicate Permutes(a: seq<bytes>, b: seq<bytes>) { multiset(a) == multiset(b) }

  lemma {:induction false} SamePermutes(a: seq<bytes>)
    ensures Permutes(a, a)
  {
  }

  lemma {:induction false} PermutesOn(a: seq<bytes>, b: seq<bytes>, c: seq<bytes>)
    requires Permutes(a, b) && Permutes(b, c)
    ensures Permutes(a, c)
  {
  }

  lemma {:induction false} SwapIsPermutation(es: seq<bytes>, p: nat, q: nat)
    requires p < q < |es|
    ensures Permutes(es, Swapped(es, p, q))
  {
    var r := Swapped(es, p, q);
    assert es == es[..p] + [es[p]] + es[p + 1..q] + [es[q]] + es[q + 1..];
    assert r == es[..p] + [es[q]] + es[p + 1..q] + [es[p]] + es[q + 1..];
  }

  lemma {:induction false} Offsets(a: nat, b: nat, w: nat)
    requires w > 0
    ensures Offset(a, w) >= Offset(b, w) <==> a >= b
    ensures a >= b ==> Offset(a - b, w) == Offset(a, w) - Offset(b, w)
    ensures Offset(a + b, w) == Offset(a, w) + Offset(b, w) && Offset(1, w) == w
  {
    if a < b {
      Apart(a, b, w);
    }
  }

  function Swapped(es: seq<bytes>, p: nat, q: nat): (r: seq<bytes>)
    requires p < q < |es|
    ensures |r| == |es|
  {
    es[p := es[q]][q := es[p]]
  }

  /** The array holds n elements of this width. */
  ghost predicate Holds(base: array<byte>, width: nat, n: nat)
    reads base
    ensures Holds(base, width, n) ==> width > 0 && base.Length == n * width && |Elements(base[..], width)| == n
  {
    width > 0 && base.Length == n * width && |Elements(base[..], width)| == n
  }

  /** One step of the innermost loop: compares two elements that are a gap apart and swaps them if need be. */
  method CompareAndSwap(base: array<byte>, width: nat, comp: (bytes, bytes) -> int, a: nat, b: nat,
                        ghost n: nat, ghost p: nat, ghost q: nat)
    returns (swapped: bool)
    requires Holds(base, width, n) && p < q < n && a == Offset(p, width) && b == Offset(q, width)
    modifies base
    ensures Holds(base, width, n)
    ensures var es := old(Elements(base[..], width));
            && (swapped <==> comp(es[p], es[q]) > 0)
            && Elements(base[..], width) == (if swapped then Swapped(es, p, q) else es)
  {
    hide Elements, Exchanged, Swapped;
    ElementAt(base[..], width, n, p);
    ElementAt(base[..], width, n, q);
    Apart(p, q, width);
    assert base[..][a..a + width] == base[a..a + width] && base[..][b..b + width] == base[b..b + width];
    swapped := comp(base[a..a + width], base[b..b + width]) > 0;
    if swapped {
      ghost var s := base[..];
      SwapBlocks(base, a, b, width);
      ExchangeElements(s, base[..], width, n, p, q);
    }
  }

  lemma {:induction false} HoleAtEnd(es: seq<bytes>, comp: (bytes, bytes) -> int, gap: nat, at: nat)
    requires gap > 0 && at < |es|
    ensures GapSortedExcept(es, comp, gap, at, -1) ==> GapSortedExcept(es, comp, gap, at + 1, at)
    ensures Bridged(es, comp, gap, at + 1, at)
  {
  }

  /** The element has found its place: nothing is left to compare it with, or it is not less. */
  lemma {:induction false} HoleFilled(es: seq<bytes>, comp: (bytes, bytes) -> int, gap: nat, n: nat, hole: nat)
    requires hole < n && GapSortedExcept(es, comp, gap, n, hole)
    requires gap <= hole ==> comp(es[hole - gap], es[hole]) <= 0
    ensures GapSortedExcept(es, comp, gap, n, -1)
  {
  }

  /** The element at `i` moves down by gaps until it meets one that is not greater. */
  method Sink(base: array<byte>, width: nat, comp: (bytes, bytes) -> int, wgap: nat, i: nat,
              ghost n: nat, ghost gap: nat, ghost at: nat)
    requires Holds(base, width, n) && 0 < gap <= at < n && wgap == Offset(gap, width) && i == Offset(at, width)
    modifies base
    ensures Holds(base, width, n)
    ensures Permutes(old(Elements(base[..], width)), Elements(base[..], width))
    ensures TotalPreorder(comp, width) && old(GapSortedExcept(Elements(base[..], width), comp, gap, at, -1)) ==>
              GapSortedExcept(Elements(base[..], width), comp, gap, at + 1, -1)
  {
    hide Elements, TotalPreorder, Holds, Bridged, Offset, GapSortedExcept, Swapped, Permutes;
    ghost var ordered := TotalPreorder(comp, width) && GapSortedExcept(Elements(base[..], width), comp, gap, at, -1);
    ghost var hole := at;
    var j := i;
    ghost var es0 := Elements(base[..], width);
    HoleAtEnd(es0, comp, gap, at);
    assert Permutes(es0, es0) by {
      SamePermutes(es0);
    }
    while true
      invariant Holds(base, width, n) && gap <= hole <= at && j == Offset(hole, width)
      invariant Permutes(old(Elements(base[..], width)), Elements(base[..], width))
      invariant ordered ==> GapSortedExcept(Elements(base[..], width), comp, gap, at + 1, hole)
      invariant ordered ==> Bridged(Elements(base[..], width), comp, gap, at + 1, hole)
      decreases hole
    {
      Offsets(hole, gap, width);
      ghost var es := Elements(base[..], width);
      j := j - wgap;
      var swapped := CompareAndSwap(base, width, comp, j, j + wgap, n, hole - gap, hole);
      if !swapped {
        if ordered {
          HoleFilled(es, comp, gap, at + 1, hole);
        }
        break;
      }
      SwapIsPermutation(es, hole - gap, hole);
      PermutesOn(es0, es, Elements(base[..], width));
      if ordered {
        MoveDown(es, width, comp, gap, at + 1, hole);
      }
      hole := hole - gap;
      Offsets(hole, gap, width);
      if j < wgap {
        if ordered {
          HoleFilled(Elements(base[..], width), comp, gap, at + 1, hole);
        }
        break;
      }
    }
  }

  /** One pass over the array: afterwards all elements that are a gap apart are in order. */
  method Pass(base: array<byte>, width: nat, comp: (bytes, bytes) -> int, wgap: nat, wnel: nat,
              ghost n: nat, ghost gap: nat)
    requires Holds(base, width, n) && 0 < gap < n && wgap == Offset(gap, width) && wnel == Offset(n, width)
    modifies base
    ensures Holds(base, width, n)
    ensures Permutes(old(Elements(base[..], width)), Elements(base[..], width))
    ensures TotalPreorder(comp, width) ==> GapSortedExcept(Elements(base[..], width), comp, gap, n, -1)
  {
    hide Elements, TotalPreorder, Holds, Offset, GapSortedExcept, Permutes;
    ghost var es0 := Elements(base[..], width);
    SamePermutes(es0);
    NothingToOrder(es0, comp, gap);
    ghost var at := gap;
    var i := wgap;
    while true
      invariant Holds(base, width, n) && gap <= at < n && i == Offset(at, width)
      invariant Permutes(es0, Elements(base[..], width))
      invariant TotalPreorder(comp, width) ==> GapSortedExcept(Elements(base[..], width), comp, gap, at, -1)
      decreases n - at
    {
      ghost var es := Elements(base[..], width);
      Sink(base, width, comp, wgap, i, n, gap, at);
      PermutesOn(es0, es, Elements(base[..], width));
      Offsets(at, 1, width);
      Offsets(at + 1, n, width);
      i := i + width;
      at := at + 1;
      if i >= wnel {
        break;
      }
    }
  }

  lemma {:induction false} NothingToOrder(es: seq<bytes>, comp: (bytes, bytes) -> int, gap: nat)
    requires 0 < gap <= |es|
    ensures GapSortedExcept(es, comp, gap, gap, -1)
  {
  }

  /** The gaps that are tried: each is three times the next one plus one, and the last is one. */
  predicate IsGap(g: nat) { g == 1 || (g > 1 && (g - 1) % 3 == 0 && IsGap((g - 1) / 3)) }

  lemma {:induction false} NextGap(g: nat, w: nat)
    requires IsGap(g) && w > 0
    ensures (Offset(g, w) - w) / 3 == Offset((g - 1) / 3, w) && Offset(g, w) >= w
    ensures g > 1 ==> IsGap((g - 1) / 3)
  {
    var h := (g - 1) / 3;
    assert g == 3 * h + 1;
    assert g * w == 3 * (h * w) + w;
  }

  /** The first gap: the loop that grows it stops below the number of elements. */
  method FirstGap(nel: nat) returns (g: nat)
    requires nel > 1
    ensures IsGap(g) && 0 < g < nel && (nel - 1) / 3 <= g
  {
    hide IsGap;
    g := 1;
    GapGrows(g);
    while g < (nel - 1) / 3
      invariant IsGap(g) && 0 < g < nel
    {
      GapGrows(g);
      g := 3 * g + 1;
    }
  }

  lemma {:induction false} GapGrows(g: nat)
    ensures IsGap(1) && (IsGap(g) ==> IsGap(3 * g + 1))
  {
    assert (3 * g + 1 - 1) % 3 == 0 && (3 * g + 1 - 1) / 3 == g;
  }

  /** qsort_r */
  method QsortR(base: array<byte>, nel: nat, width: nat, comp: (bytes, bytes) -> int)
    requires base.Length == nel * width
    modifies base
    ensures width > 0 ==>
              && |Elements(base[..], width)| == nel
              && multiset(Elements(base[..], width)) == old(multiset(Elements(base[..], width)))
              && (TotalPreorder(comp, width) ==> Sorted(Elements(base[..], width), comp))
  {
    if nel > 1 && width > 0 {
      ShellPasses(base, nel, width, comp);
    } else if width > 0 {
      ElementCount(base[..], width, nel);
    }
  }

  method ShellPasses(base: array<byte>, nel: nat, width: nat, comp: (bytes, bytes) -> int)
    requires nel > 1 && width > 0 && base.Length == nel * width
    modifies base
    ensures |Elements(base[..], width)| == nel
    ensures Permutes(old(Elements(base[..], width)), Elements(base[..], width))
    ensures TotalPreorder(comp, width) ==> Sorted(Elements(base[..], width), comp)
  {
    hide Elements, TotalPreorder, Offset, GapSortedExcept, Permutes, Sorted, IsGap;
    ElementCount(base[..], width, nel);
    ghost var es0 := Elements(base[..], width);
    SamePermutes(es0);
    var first := FirstGap(nel);
    ghost var gap := first;
    var wgap, wnel := first * width, nel * width;
    assert wgap == Offset(gap, width) && wnel == Offset(nel, width) by {
      OffsetIs(first, width);
      OffsetIs(nel, width);
    }
    assert Holds(base, width, nel);
    hide Holds;
    while true
      invariant Holds(base, width, nel) && 0 < gap < nel && IsGap(gap) && wgap == Offset(gap, width)
      invariant Permutes(es0, Elements(base[..], width))
      decreases gap
    {
      ghost var es := Elements(base[..], width);
      Pass(base, width, comp, wgap, wnel, nel, gap);
      PermutesOn(es0, es, Elements(base[..], width));
      NextGap(gap, width);
      GapEnds(gap, width);
      wgap := (wgap - width) / 3;
      if wgap == 0 {
        if TotalPreorder(comp, width) {
          AdjacentIsSorted(Elements(base[..], width), width, comp);
        }
        break;
      }
      gap := (gap - 1) / 3;
    }
  }

  lemma {:induction false} OffsetIs(k: nat, w: nat)
    ensures Offset(k, w) == k * w
  {
  }

  lemma {:induction false} GapEnds(gap: nat, w: nat)
    requires w > 0 && IsGap(gap)
    ensures Offset((gap - 1) / 3, w) == 0 <==> gap == 1
    ensures gap > 1 ==> 0 < (gap - 1) / 3 < gap
  {
    if gap > 1 {
      assert (gap - 1) / 3 >= 1;
      Apart(0, (gap - 1) / 3, w);
    }
  }
}
