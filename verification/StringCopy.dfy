/** __stpcpy of ulibc.c: a string copy that goes a word at a time where it can. */
module StringCopy {

  const ALIGN: nat := 8
  const ONES: bv64 := 0x0101_0101_0101_0101
  const HIGHS: bv64 := 0x8080_8080_8080_8080

  /** HASZERO */
  function HasZero(x: bv64): bv64 { (x - ONES) & !x & HIGHS }

  /** A word from its bytes, lowest first. */
  function Word(b: seq<bv8>): bv64
    requires |b| == 8
  {
    Join(b[0] as bv64, b[1] as bv64, b[2] as bv64, b[3] as bv64,
         b[4] as bv64, b[5] as bv64, b[6] as bv64, b[7] as bv64)
  }

  /** A byte of a word, lowest first. */
  function ByteOf(x: bv64, k: nat): bv8
    requires k < 8
  {
    var shifted :=
      if k == 0 then x else if k == 1 then x >> 8 else if k == 2 then x >> 16 else if k == 3 then x >> 24
      else if k == 4 then x >> 32 else if k == 5 then x >> 40 else if k == 6 then x >> 48 else x >> 56;
    (shifted & 0xFF) as bv8
  }

  function Split(x: bv64): (b: seq<bv8>)
    ensures |b| == 8 && forall k :: 0 <= k < 8 ==> b[k] == ByteOf(x, k)
  {
    seq(8, k requires 0 <= k < 8 => ByteOf(x, k))
  }

  function Join(c0: bv64, c1: bv64, c2: bv64, c3: bv64, c4: bv64, c5: bv64, c6: bv64, c7: bv64): bv64 {
    c0 | (c1 << 8) | (c2 << 16) | (c3 << 24) | (c4 << 32) | (c5 << 40) | (c6 << 48) | (c7 << 56)
  }

  lemma {:induction false} JoinLow(b0: bv8, b1: bv8, b2: bv8, b3: bv8, b4: bv8, b5: bv8, b6: bv8, b7: bv8)
    ensures var x := Join(b0 as bv64, b1 as bv64, b2 as bv64, b3 as bv64,
                          b4 as bv64, b5 as bv64, b6 as bv64, b7 as bv64);
            && ByteOf(x, 0) == b0 && ByteOf(x, 1) == b1 && ByteOf(x, 2) == b2 && ByteOf(x, 3) == b3
            && ByteOf(x, 4) == b4 && ByteOf(x, 5) == b5 && ByteOf(x, 6) == b6 && ByteOf(x, 7) == b7
  {
  }

  lemma {:induction false} SplitWord(b: seq<bv8>)
    requires |b| == 8
    ensures Split(Word(b)) == b
  {
    hide Join, ByteOf, Split, Word;
    var x, c := Word(b), Split(Word(b));
    WordBytes(b);
    assert c[0] == ByteOf(x, 0) && c[1] == ByteOf(x, 1) && c[2] == ByteOf(x, 2) && c[3] == ByteOf(x, 3);
    assert c[4] == ByteOf(x, 4) && c[5] == ByteOf(x, 5) && c[6] == ByteOf(x, 6) && c[7] == ByteOf(x, 7);
  }

  lemma {:induction false} WordBytes(b: seq<bv8>)
    requires |b| == 8
    ensures var x := Word(b);
            && ByteOf(x, 0) == b[0] && ByteOf(x, 1) == b[1] && ByteOf(x, 2) == b[2] && ByteOf(x, 3) == b[3]
            && ByteOf(x, 4) == b[4] && ByteOf(x, 5) == b[5] && ByteOf(x, 6) == b[6] && ByteOf(x, 7) == b[7]
  {
    hide Join, ByteOf;
    JoinLow(b[0], b[1], b[2], b[3], b[4], b[5], b[6], b[7]);
  }

  lemma {:induction false} HasZeroBytes(x: bv64)
    ensures HasZero(x) == 0 <==>
            && ByteOf(x, 0) != 0 && ByteOf(x, 1) != 0 && ByteOf(x, 2) != 0 && ByteOf(x, 3) != 0
            && ByteOf(x, 4) != 0 && ByteOf(x, 5) != 0 && ByteOf(x, 6) != 0 && ByteOf(x, 7) != 0
  {
  }

  /** HASZERO is nonzero exactly when some byte of the word is zero. */
  lemma {:induction false} HasZeroIff(x: bv64)
    ensures HasZero(x) != 0 <==> 0 in Split(x)
  {
    hide HasZero, ByteOf, Split;
    HasZeroBytes(x);
    var b := Split(x);
    assert ByteOf(x, 0) == b[0] && ByteOf(x, 1) == b[1] && ByteOf(x, 2) == b[2] && ByteOf(x, 3) == b[3];
    assert ByteOf(x, 4) == b[4] && ByteOf(x, 5) == b[5] && ByteOf(x, 6) == b[6] && ByteOf(x, 7) == b[7];
  }

  // ---------- Copying ----------

  /** A string of n bytes stands at `s`. */
  predicate StringAt(mem: seq<bv8>, s: nat, n: nat) {
    s + n < |mem| && mem[s + n] == 0 && forall k :: s <= k < s + n ==> mem[k] != 0
  }

  /** `after` is `before` with the first m bytes at `s` copied to `d`. */
  predicate Copied(before: seq<bv8>, after: seq<bv8>, d: nat, s: nat, m: nat) {
    && |after| == |before| && d + m <= |before| && s + m <= |before|
    && forall i {:trigger after[i]} :: 0 <= i < |before| ==>
         after[i] == if d <= i < d + m then before[s + (i - d)] else before[i]
  }

  /**
   The memory holds whole words. The source is a string, there is room for it and its
   NUL at the destination, and the two do not overlap.
   */
  ghost predicate Ready(mem: seq<bv8>, d: nat, s: nat, n: nat) {
    && |mem| % ALIGN == 0 && StringAt(mem, s, n) && d + n < |mem|
    && (d + n < s || s + n < d)
  }

  /** Copies byte by byte from where the copy stands, and stops after the NUL. */
  method CopyBytes(mem: array<bv8>, d0: nat, s0: nat, ghost before: seq<bv8>, ghost d: nat, ghost s: nat, ghost n: nat)
    returns (r: nat)
    requires Ready(before, d, s, n) && d <= d0 <= d + n && s0 - s == d0 - d
    requires Copied(before, mem[..], d, s, d0 - d)
    modifies mem
    ensures r == d + n && Copied(before, mem[..], d, s, n + 1)
  {
    r := d0;
    var p := s0;
    while true
      invariant d0 <= r <= d + n && p - s == r - d
      invariant Copied(before, mem[..], d, s, r - d)
      decreases d + n - r
    {
      CopyOne(before, mem[..], d, s, n, r - d);
      var c := mem[p];
      mem[r] := c;
      if c == 0 {
        break;
      }
      r, p := r + 1, p + 1;
    }
  }

  lemma {:induction false} CopyOne(before: seq<bv8>, mem: seq<bv8>, d: nat, s: nat, n: nat, m: nat)
    requires Ready(before, d, s, n) && m <= n && Copied(before, mem, d, s, m)
    ensures mem[s + m] == before[s + m] && (mem[s + m] == 0 <==> m == n)
    ensures Copied(before, mem[d + m := mem[s + m]], d, s, m + 1)
  {
  }

  /** A word without a zero byte lies before the NUL; storing it copies eight more bytes. */
  lemma {:induction false} CopyEight(before: seq<bv8>, mem: seq<bv8>, d: nat, s: nat, n: nat, m: nat)
    requires Ready(before, d, s, n) && m <= n && Copied(before, mem, d, s, m)
    requires s + m + 8 <= |mem|
    ensures 0 in mem[s + m..s + m + 8] <==> n < m + 8
    ensures n >= m + 8 ==>
              && d + m + 8 <= |mem|
              && Copied(before, mem[..d + m] + mem[s + m..s + m + 8] + mem[d + m + 8..], d, s, m + 8)
  {
    var word := mem[s + m..s + m + 8];
    assert forall k :: 0 <= k < 8 ==> word[k] == mem[s + m + k];
    if n < m + 8 {
      assert word[n - m] == 0;
    } else {
      assert forall k :: 0 <= k < 8 ==> word[k] == before[s + (m + k)];
    }
  }

  /** Loads the word at `s`, stores it at `d`; both are word boundaries. */
  method CopyWord(mem: array<bv8>, d: nat, s: nat)
    requires s + 8 <= mem.Length && d + 8 <= mem.Length && s % ALIGN == 0 && d % ALIGN == 0
    modifies mem
    ensures mem[..] == old(mem[..d] + mem[s..s + 8] + mem[d + 8..])
  {
    hide Word, Split;
    var x := Word(mem[s..s + 8]);
    SplitWord(mem[s..s + 8]);
    StoreWord(mem, d, Split(x));
  }

  method StoreWord(mem: array<bv8>, d: nat, b: seq<bv8>)
    requires |b| == 8 && d + 8 <= mem.Length
    modifies mem
    ensures mem[..] == old(mem[..d]) + b + old(mem[d + 8..])
  {
    for k := 0 to 8
      invariant forall i {:trigger mem[i]} :: 0 <= i < mem.Length ==>
                  mem[i] == if d <= i < d + k then b[i - d] else old(mem[i])
    {
      mem[d + k] := b[k];
    }
  }

  /** Where the copy stands: the bytes before `d` and `s` are done. */
  ghost predicate Standing(before: seq<bv8>, mem: seq<bv8>, d0: nat, s0: nat, n: nat, d: nat, s: nat) {
    && Ready(before, d0, s0, n) && |mem| == |before|
    && d0 <= d <= d0 + n && s - s0 == d - d0 && Copied(before, mem, d0, s0, d - d0)
  }

  /** Copies byte by byte up to a word boundary of the source. */
  method CopyToBoundary(mem: array<bv8>, d0: nat, s0: nat, ghost n: nat) returns (d: nat, s: nat, done: bool)
    requires Ready(mem[..], d0, s0, n)
    modifies mem
    ensures if done then d == d0 + n && Copied(old(mem[..]), mem[..], d0, s0, n + 1)
            else s % ALIGN == 0 && Standing(old(mem[..]), mem[..], d0, s0, n, d, s)
  {
    ghost var before := mem[..];
    d, s, done := d0, s0, false;
    while s % ALIGN != 0
      invariant Standing(before, mem[..], d0, s0, n, d, s)
      decreases d0 + n - d
    {
      CopyOne(before, mem[..], d0, s0, n, d - d0);
      var c := mem[s];
      mem[d] := c;
      if c == 0 {
        return d, s, true;
      }
      s, d := s + 1, d + 1;
    }
  }

  /** Copies word by word up to the word that holds the NUL. */
  method CopyWords(mem: array<bv8>, d1: nat, s1: nat, ghost before: seq<bv8>, ghost d0: nat, ghost s0: nat, ghost n: nat)
    returns (d: nat, s: nat)
    requires s1 % ALIGN == 0 && d1 % ALIGN == 0 && Standing(before, mem[..], d0, s0, n, d1, s1)
    modifies mem
    ensures Standing(before, mem[..], d0, s0, n, d, s)
  {
    hide HasZero, Word, Split, Copied, Ready;
    d, s := d1, s1;
    while true
      invariant s % ALIGN == 0 && d % ALIGN == 0 && Standing(before, mem[..], d0, s0, n, d, s)
      decreases d0 + n - d
    {
      WordInMemory(before, d0, s0, n, s);
      var b := mem[s..s + 8];
      assert mem[..][s..s + 8] == b;
      SplitWord(b);
      HasZeroIff(Word(b));
      CopyEight(before, mem[..], d0, s0, n, d - d0);
      if HasZero(Word(b)) != 0 {
        break;
      }
      ghost var was := mem[..];
      CopyWord(mem, d, s);
      assert mem[..] == was[..d] + was[s..s + 8] + was[d + 8..];
      s, d := s + 8, d + 8;
    }
  }

  lemma {:induction false} WordInMemory(mem: seq<bv8>, d0: nat, s0: nat, n: nat, s: nat)
    requires Ready(mem, d0, s0, n) && s <= s0 + n && s % ALIGN == 0
    ensures s + 8 <= |mem|
  {
  }

  /** __stpcpy: exactly the string and its NUL are copied, for every alignment, and the result is where the NUL went. */
  method Stpcpy(mem: array<bv8>, d0: nat, s0: nat, ghost n: nat) returns (r: nat)
    requires Ready(mem[..], d0, s0, n)
    modifies mem
    ensures r == d0 + n && Copied(old(mem[..]), mem[..], d0, s0, n + 1)
  {
    ghost var before := mem[..];
    var d, s := d0, s0;
    if s % ALIGN == d % ALIGN {
      var done;
      d, s, done := CopyToBoundary(mem, d, s, n);
      if done {
        return d;
      }
      assert d % ALIGN == 0;
      d, s := CopyWords(mem, d, s, before, d0, s0, n);
    }
    r := CopyBytes(mem, d, s, before, d0, s0, n);
  }
}
