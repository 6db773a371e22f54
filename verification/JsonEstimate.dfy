/**
 The buffer that parse_string allocates is large enough. Its size comes from a
 first pass that counts escapes; the second pass can disagree with the first on
 where escapes start, because four characters that are not hexadecimal digits
 still count as a `\u` escape.
 */
module JsonEstimate {
  import opened Bytes
  import opened JsonString

  /** What the first pass counts from `p`: an escape as one, any other byte as one. */
  function Units(buf: bytes, p: nat, end: nat): nat
    requires FindEnd(buf, p) == Some(end)
    decreases end - p
  {
    if p == end then 0
    else if buf[p] == BACKSLASH then 1 + Units(buf, p + 2, end)
    else 1 + Units(buf, p + 1, end)
  }

  /** What the second pass writes from `p` before it ends or fails. */
  function Written(buf: bytes, p: nat, end: nat): nat
    requires end < |buf|
    decreases end - p
  {
    if p >= end then 0
    else if buf[p] != BACKSLASH then 1 + Written(buf, p + 1, end)
    else if ShortMeaning(buf[p + 1]) >= 0 then 1 + Written(buf, p + 2, end)
    else if buf[p + 1] == LETTER_U then
      var u := Utf16Literal(buf, p, end);
      if u.Bad? then 0 else |u.output| + Written(buf, p + u.length, end)
    else 0
  }

  /**
   The second pass stands at `p`, the first pass at `q`: at the same byte, or one
   further when the second pass has landed inside an escape of the first.
   */
  ghost predicate Passes(buf: bytes, p: nat, q: nat, end: nat) {
    p <= q <= p + 1 && p <= end && FindEnd(buf, q) == Some(end)
  }

  /** An upper bound on what is still to be written. */
  ghost function Budget(buf: bytes, p: nat, q: nat, end: nat): nat
    requires Passes(buf, p, q, end)
  {
    q - p + Units(buf, q, end)
  }

  /** The budget after one byte: spent, unless that byte starts an escape of both passes. */
  lemma {:induction false} Advance(buf: bytes, p: nat, q: nat, end: nat) returns (r: nat)
    requires Passes(buf, p, q, end) && p < end
    ensures Passes(buf, p + 1, r, end)
    ensures if q == p && buf[p] == BACKSLASH then r == p + 2 && Budget(buf, p + 1, r, end) == Budget(buf, p, q, end)
            else Budget(buf, p + 1, r, end) == Budget(buf, p, q, end) - 1
  {
    r := if q == p + 1 then q else if buf[p] == BACKSLASH then p + 2 else p + 1;
  }

  lemma {:induction false} AdvanceBy(buf: bytes, p: nat, q: nat, end: nat, n: nat) returns (r: nat)
    requires Passes(buf, p, q, end) && p + n <= end
    ensures Passes(buf, p + n, r, end) && Budget(buf, p + n, r, end) <= Budget(buf, p, q, end)
    ensures (forall k :: p <= k < p + n ==> buf[k] != BACKSLASH) ==>
              Budget(buf, p + n, r, end) <= Budget(buf, p, q, end) - n
    decreases n
  {
    hide Budget, Passes;
    if n == 0 {
      r := q;
    } else {
      var q' := Advance(buf, p, q, end);
      r := AdvanceBy(buf, p + 1, q', end, n - 1);
    }
  }

  /** An escape of the second pass spends at least one. */
  lemma {:induction false} AdvanceEscape(buf: bytes, p: nat, q: nat, end: nat) returns (r: nat)
    requires Passes(buf, p, q, end) && p + 2 <= end && buf[p] == BACKSLASH
    ensures Passes(buf, p + 2, r, end) && Budget(buf, p + 2, r, end) <= Budget(buf, p, q, end) - 1
  {
    hide Budget;
    var q' := Advance(buf, p, q, end);
    r := Advance(buf, p + 1, q', end);
  }

  lemma {:induction false} AdvanceUnit(buf: bytes, p: nat, q: nat, end: nat) returns (r: nat)
    requires Passes(buf, p, q, end) && buf[p] == BACKSLASH && Utf16Literal(buf, p, end).Good?
    ensures var u := Utf16Literal(buf, p, end);
            Passes(buf, p + u.length, r, end) && Budget(buf, p + u.length, r, end) <= Budget(buf, p, q, end) - |u.output|
  {
    hide Budget, Utf8;
    var u := Utf16Literal(buf, p, end);
    r := AdvanceEscape(buf, p, q, end);
    r := AdvanceBy(buf, p + 2, r, end, 4);
    if IsHex4(buf[p + 2..p + 6]) {
      HexIsNoBackslash(buf, p + 2);
    } else {
      assert u.output == Utf8(0);
      OneByteZero();
    }
    if u.length == 12 {
      r := AdvanceBy(buf, p + 6, r, end, 6);
    }
  }

  lemma {:induction false} OneByteZero()
    ensures Utf8(0) == [0]
  {
  }

  lemma {:induction false} HexIsNoBackslash(buf: bytes, p: nat)
    requires p + 4 <= |buf| && IsHex4(buf[p..p + 4])
    ensures forall k :: p <= k < p + 4 ==> buf[k] != BACKSLASH
  {
    forall k | p <= k < p + 4 ensures buf[k] != BACKSLASH {
      assert HexVal(buf[p..p + 4][k - p]) >= 0;
    }
  }

  lemma {:induction false} WrittenWithinBudget(buf: bytes, p: nat, q: nat, end: nat)
    requires Passes(buf, p, q, end) && end < |buf|
    ensures Written(buf, p, end) <= Budget(buf, p, q, end)
    decreases end - p
  {
    hide Budget, Utf16Literal;
    if p < end {
      if buf[p] != BACKSLASH {
        var r := Advance(buf, p, q, end);
        WrittenWithinBudget(buf, p + 1, r, end);
      } else if p + 1 == end {
        var r := Advance(buf, p, q, end);
        assert q == p + 1;
      } else if ShortMeaning(buf[p + 1]) >= 0 {
        var r := AdvanceEscape(buf, p, q, end);
        WrittenWithinBudget(buf, p + 2, r, end);
      } else if buf[p + 1] == LETTER_U && Utf16Literal(buf, p, end).Good? {
        var r := AdvanceUnit(buf, p, q, end);
        WrittenWithinBudget(buf, p + Utf16Literal(buf, p, end).length, r, end);
      }
    }
  }

  /** The number of escapes that the first pass sees from `p`. */
  function Skipped(buf: bytes, p: nat, end: nat): nat
    requires FindEnd(buf, p) == Some(end)
    decreases end - p
  {
    if p == end then 0
    else if buf[p] == BACKSLASH then 1 + Skipped(buf, p + 2, end)
    else Skipped(buf, p + 1, end)
  }

  lemma {:induction false} UnitsAreBytesLessSkipped(buf: bytes, p: nat, end: nat)
    requires FindEnd(buf, p) == Some(end)
    ensures Units(buf, p, end) == end - p - Skipped(buf, p, end)
    decreases end - p
  {
    if p < end {
      UnitsAreBytesLessSkipped(buf, if buf[p] == BACKSLASH then p + 2 else p + 1, end);
    }
  }

  /** The size that parse_string allocates for the literal that starts at `i`. */
  function Allocated(buf: bytes, i: nat, end: nat): int
    requires FindEnd(buf, i + 1) == Some(end)
  {
    end - i - Skipped(buf, i + 1, end) + 1
  }

  /**
   For every input and every outcome of the second pass, the bytes it writes and
   the terminator fit the allocation, with a byte to spare.
   */
  lemma {:induction false} EstimateSuffices(buf: bytes, i: nat, end: nat)
    requires FindEnd(buf, i + 1) == Some(end)
    ensures Written(buf, i + 1, end) + 1 < Allocated(buf, i, end)
  {
    UnitsAreBytesLessSkipped(buf, i + 1, end);
    WrittenWithinBudget(buf, i + 1, i + 1, end);
  }
}
