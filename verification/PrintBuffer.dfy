/**
 The imperative printer of cjson.c: text is written into a buffer that grows by
 reallocation, or into a caller's buffer that must not grow. Reallocation fails
 above a fixed limit of the heap.
 */
module PrintBuffer {
  import opened Bytes
  import opened Json
  import N = JsonNumber
  import P = JsonParser
  import R = JsonRender

  const SIZE_MAX: nat := 0xFFFF_FFFF_FFFF_FFFF

  class Buffer {
    var buffer: array?<byte>
    var length: nat
    var offset: nat
    var depth: nat
    const noalloc: bool
    const format: bool
    const heapLimit: nat

    constructor (buffer: array<byte>, length: nat, noalloc: bool, format: bool, heapLimit: nat)
      requires length <= buffer.Length
      ensures this.buffer == buffer && this.length == length && this.noalloc == noalloc && this.format == format
      ensures this.heapLimit == heapLimit && offset == 0 && depth == 0 && Ready()
    {
      this.buffer, this.length := buffer, length;
      offset, depth := 0, 0;
      this.noalloc, this.format, this.heapLimit := noalloc, format, heapLimit;
    }

    ghost predicate Ready()
      reads `buffer, `length, `offset
    {
      buffer != null && length <= buffer.Length && (if length == 0 then offset == 0 else offset < length)
    }

    /** The finished text: what stands before the offset. */
    ghost function Written(): (r: bytes)
      requires Ready()
      reads `buffer, `length, `offset, buffer
      ensures |r| == offset
    {
      buffer[..offset]
    }

    /** `text` stands in the buffer and is terminated; what is past the offset is pending. */
    ghost predicate Complete(text: bytes)
      reads `buffer, `length, `offset, buffer
    {
      Ready() && offset <= |text| < length && buffer[..|text|] == text && buffer[|text|] == 0 && 0 !in text[offset..]
    }

    /** What a buffer for `size` bytes is enlarged to. */
    ghost function Doubled(size: nat): nat { if size <= SIZE_MAX / 2 then 2 * size else SIZE_MAX }

    /** A reallocation for `size` bytes is granted. */
    ghost predicate Grantable(size: nat) {
      2 * size <= SIZE_MAX && 2 * size <= heapLimit
    }

    /** Whether a print that needs `size` bytes in all succeeds. */
    ghost predicate Outcome(ok: bool, size: nat)
      reads this
    {
      && (noalloc ==> (ok <==> size <= length))
      && (!noalloc && Grantable(size) ==> ok)
    }

    /** A failed print was too big for the buffer or for the heap. */
    ghost predicate TooBig(size: nat)
      reads this
    {
      if noalloc then size > length else !Grantable(size)
    }

    twostate predicate Kept()
      reads this, buffer
    {
      && (buffer == old(buffer) || (buffer != null && fresh(buffer)))
      && (noalloc ==> buffer == old(buffer) && length == old(length))
    }

    /** ensure: room for `needed` bytes and one more after the offset. */
    method Ensure(needed: nat) returns (ok: bool)
      requires Ready()
      modifies this, buffer
      ensures offset == old(offset) && depth == old(depth)
      ensures ok ==> Ready() && Kept() && offset + needed + 1 <= length && Written() == old(Written())
      ensures noalloc ==> buffer == old(buffer) && length == old(length)
      ensures Outcome(ok, offset + needed + 1)
      ensures !noalloc ==>
                var size := offset + needed + 1;
                ok <==> size <= old(length) || (size <= SIZE_MAX && Doubled(size) <= heapLimit)
    {
      if length > 0 && offset >= length {
        return false;
      }
      var size := needed + offset + 1;
      if size <= length {
        return true;
      }
      if noalloc {
        return false;
      }
      var newsize := size * 2;
      if size > SIZE_MAX / 2 {
        if size <= SIZE_MAX {
          newsize := SIZE_MAX;
        } else {
          return false;
        }
      }
      ok := Reallocate(newsize);
    }

    /** realloc: a larger block that starts with the old bytes, or nothing. */
    method Reallocate(newsize: nat) returns (ok: bool)
      requires Ready() && newsize > length
      modifies this
      ensures ok == (newsize <= heapLimit) && (!ok ==> buffer == null && length == 0)
      ensures offset == old(offset) && depth == old(depth)
      ensures ok ==> buffer != null && fresh(buffer) && buffer.Length == length == newsize
      ensures ok ==> buffer[..old(length)] == old(buffer[..length])
    {
      if newsize > heapLimit {
        buffer, length := null, 0;
        return false;
      }
      var block := new byte[newsize](_ => 0);
      var i := 0;
      while i < length
        invariant 0 <= i <= length && block[..i] == buffer[..i]
        modifies block
      {
        block[i] := buffer[i];
        i := i + 1;
      }
      buffer, length := block, newsize;
      ok := true;
    }

    /** Stores `s` from position `at`, as strcpy, memcpy or single stores do. */
    method Store(at: nat, s: bytes)
      requires buffer != null && at + |s| <= buffer.Length
      modifies buffer
      ensures buffer[at..at + |s|] == s
      ensures buffer[..at] == old(buffer[..at]) && buffer[at + |s|..] == old(buffer[at + |s|..])
    {
      var i := 0;
      while i < |s|
        invariant 0 <= i <= |s|
        invariant buffer[at..at + i] == s[..i]
        invariant buffer[..at] == old(buffer[..at]) && buffer[at + |s|..] == old(buffer[at + |s|..])
      {
        buffer[at + i] := s[i];
        i := i + 1;
      }
      assert s[..|s|] == s;
    }

    /** Stores a terminated text after the finished text. */
    method StoreText(s: bytes)
      requires Ready() && offset + |s| < length && 0 !in s
      modifies buffer
      ensures Complete(old(Written()) + s)
    {
      Store(offset, s + [0]);
      ghost var text := old(Written()) + s;
      assert buffer[offset..offset + |s| + 1] == s + [0];
      assert buffer[..|text|] == buffer[..offset] + buffer[offset..offset + |s| + 1][..|s|];
      assert buffer[|text|] == buffer[offset..offset + |s| + 1][|s|];
    }

    /** update_offset: the pending text is finished. */
    method UpdateOffset(ghost text: bytes)
      requires Complete(text)
      modifies `offset
      ensures Ready() && offset == |text| && Written() == text
    {
      assert forall k :: offset <= k < |text| ==> buffer[k] == text[k] == text[offset..][k - offset] != 0;
      var i := offset;
      while buffer[i] != 0
        invariant offset <= i <= |text|
        decreases |text| - i
      {
        i := i + 1;
      }
      offset := i;
    }

    // ---------- Values ----------

    /** print_number: the text of the number, already counted in the offset. */
    method PrintNumber(x: real) returns (ok: bool)
      requires Ready()
      modifies this, buffer
      ensures offset >= old(offset) && depth == old(depth)
      ensures ok ==> Kept() && Complete(old(Written()) + R.NumberText(x)) && offset == old(offset) + |R.NumberText(x)|
      ensures noalloc ==> buffer == old(buffer) && length == old(length)
      ensures Outcome(ok, old(offset) + |R.NumberText(x)| + 2)
    {
      hide R.NumberText;
      var digits := R.NumberText(x);
      ok := Ensure(|digits| + 1);
      if ok {
        assert 0 !in digits;
        StoreText(digits);
        offset := offset + |digits|;
      }
    }

    /** The text of a word or of a string, left pending. */
    method PrintWord(word: bytes) returns (ok: bool)
      requires Ready() && 0 !in word
      modifies this, buffer
      ensures offset == old(offset) && depth == old(depth)
      ensures ok ==> Kept() && Complete(old(Written()) + word)
      ensures noalloc ==> buffer == old(buffer) && length == old(length)
      ensures Outcome(ok, old(offset) + |word| + 2)
    {
      ok := Ensure(|word| + 1);
      if ok {
        StoreText(word);
      }
    }

    /** Text that is written without a terminator and finished at once. */
    method PutRaw(s: bytes, needed: nat) returns (ok: bool)
      requires Ready() && |s| <= needed
      modifies this, buffer
      ensures depth == old(depth)
      ensures ok ==> Ready() && Kept() && Written() == old(Written()) + s
      ensures noalloc ==> buffer == old(buffer) && length == old(length)
      ensures Outcome(ok, old(offset) + needed + 1)
    {
      ok := Ensure(needed);
      if ok {
        Store(offset, s);
        assert buffer[..offset + |s|] == buffer[..offset] + buffer[offset..offset + |s|];
        offset := offset + |s|;
      }
    }

    /** Text that is written with a terminator and finished at once. */
    method PutText(s: bytes) returns (ok: bool)
      requires Ready() && 0 !in s
      modifies this, buffer
      ensures depth == old(depth)
      ensures ok ==> Ready() && Kept() && Written() == old(Written()) + s
      ensures noalloc ==> buffer == old(buffer) && length == old(length)
      ensures Outcome(ok, old(offset) + |s| + 2)
    {
      ok := PrintWord(s);
      if ok {
        offset := offset + |s|;
      }
    }

    /** print_string_ptr: count the escapes, make room, write the quoted text. */
    method PrintString(s: bytes) returns (ok: bool)
      requires Ready() && 0 !in s
      modifies this, buffer
      ensures offset == old(offset) && depth == old(depth)
      ensures ok ==> Kept() && Complete(old(Written()) + R.Quoted(s))
      ensures noalloc ==> buffer == old(buffer) && length == old(length)
      ensures Outcome(ok, old(offset) + |R.Quoted(s)| + 2)
    {
      var escapes := CountEscapes(s);
      var outputLength := |s| + escapes;
      ok := Ensure(outputLength + 3);
      if !ok {
        return;
      }
      if escapes == 0 {
        NothingEscaped(s);
        StoreText([QUOTE] + s + [QUOTE]);
      } else {
        StoreEscaped(s);
      }
    }

    method StoreEscaped(s: bytes)
      requires Ready() && 0 !in s && offset + |R.Quoted(s)| < length
      modifies buffer
      ensures Complete(old(Written()) + R.Quoted(s))
    {
      hide R.Escaped, R.Quoted, Written;
      var output, start := buffer, offset;
      ghost var before := Written();
      WrittenIs();
      QuotedLength(s);
      output[start] := QUOTE;
      var at := EscapeInto(s, output, start + 1);
      ghost var block := output[..];
      output[at] := QUOTE;
      output[at + 1] := 0;
      QuotedInPlace(before, s, block, output[..], at);
    }

    lemma {:induction false} WrittenIs()
      requires Ready()
      ensures Written() == buffer[..offset]
    {
    }

    // ---------- Containers ----------

    method PrintValue(v: Value) returns (ok: bool)
      requires Ready() && R.Printable(v)
      modifies this, buffer
      ensures ok ==> Kept() && depth == old(depth)
      ensures ok ==> Complete(old(Written()) + R.Render(v, format, old(depth)))
      ensures noalloc ==> buffer == old(buffer) && length == old(length)
      ensures Outcome(ok, old(offset) + |R.Render(v, format, old(depth))| + 2)
      decreases v, 0
    {
      hide Written, Complete, N.Decimal, R.Quoted, R.RenderItems, R.RenderMembers;
      match v {
        case Null => ok := PrintWord(P.NULL_TEXT);
        case False => ok := PrintWord(P.FALSE_TEXT);
        case True => ok := PrintWord(P.TRUE_TEXT);
        case Number(x) => ok := PrintNumber(x);
        case String(text) => ok := PrintString(text);
        case Array(items) => ok := PrintArray(items);
        case Object(members) => ok := PrintObject(members);
      }
    }

    method PrintArray(items: seq<Value>) returns (ok: bool)
      requires Ready() && R.PrintableItems(items)
      modifies this, buffer
      ensures ok ==> Kept() && depth == old(depth)
      ensures ok ==> Complete(old(Written()) + R.Render(Array(items), format, old(depth)))
      ensures noalloc ==> buffer == old(buffer) && length == old(length)
      ensures Outcome(ok, old(offset) + |R.Render(Array(items), format, old(depth))| + 2)
      decreases items, 2
    {
      hide R.Render, R.RenderItems, R.PrintableItems, R.Printable, Written, Complete;
      ArrayText(Written(), items, format, depth);
      ok := PutRaw([LBRACKET], 1);
      if !ok {
        return;
      }
      depth := depth + 1;
      ok := PrintItems(items);
      if !ok {
        return;
      }
      ok := PrintWord([RBRACKET]);
      depth := depth - 1;
    }

    /** The loop over the elements. */
    method PrintItems(items: seq<Value>) returns (ok: bool)
      requires Ready() && R.PrintableItems(items)
      modifies this, buffer
      ensures ok ==> Ready() && Kept() && depth == old(depth)
      ensures ok ==> Written() == old(Written()) + R.RenderItems(items, format, depth)
      ensures noalloc ==> buffer == old(buffer) && length == old(length)
      ensures !ok ==> TooBig(old(offset) + |R.RenderItems(items, format, old(depth))| + 2)
      decreases items, 1
    {
      hide R.Render, R.Printable, R.RenderItems, R.PrintableItems, Written, Complete, RenderItem;
      ghost var before, body := Written(), R.RenderItems(items, format, depth);
      ghost var done: bytes := [];
      var i := 0;
      ItemsStart(items, format, depth);
      while i < |items|
        invariant 0 <= i <= |items| && R.PrintableItems(items[i..])
        invariant Ready() && Kept() && depth == old(depth)
        invariant Written() == before + done && done + R.RenderItems(items[i..], format, depth) == body
      {
        ItemsStep(items, i, format, depth, done);
        ghost var text := RenderItem(items[i], i + 1 == |items|, format, depth);
        ok := PrintItem(items[i], i + 1 < |items|);
        if !ok {
          return;
        }
        assert before + done + text == before + (done + text);
        done := done + text;
        i := i + 1;
      }
      ok := true;
    }

    method PrintItem(v: Value, more: bool) returns (ok: bool)
      requires Ready() && R.Printable(v)
      modifies this, buffer
      ensures ok ==> Ready() && Kept() && depth == old(depth)
      ensures ok ==> Written() == old(Written()) + RenderItem(v, !more, format, depth)
      ensures noalloc ==> buffer == old(buffer) && length == old(length)
      ensures !ok ==> TooBig(old(offset) + |RenderItem(v, !more, format, old(depth))| + 2)
      decreases v, 4
    {
      hide R.Render, R.Printable, Written, Complete;
      ghost var before, text := Written(), R.Render(v, format, depth);
      ok := PrintValue(v);
      if !ok {
        return;
      }
      UpdateOffset(before + text);
      if more {
        ok := PutText(if format then [COMMA, SPACE] else [COMMA]);
        assert before + text + R.Separator(format) == before + (text + R.Separator(format));
      } else {
        assert text + [] == text;
      }
    }

    method PrintObject(members: seq<Member>) returns (ok: bool)
      requires Ready() && R.PrintableMembers(members)
      modifies this, buffer
      ensures ok ==> Kept() && depth == old(depth)
      ensures ok ==> Complete(old(Written()) + R.Render(Object(members), format, old(depth)))
      ensures noalloc ==> buffer == old(buffer) && length == old(length)
      ensures Outcome(ok, old(offset) + |R.Render(Object(members), format, old(depth))| + 2)
      decreases members, 2
    {
      hide R.Render, R.RenderMembers, R.PrintableMembers, R.Printable, Written, Complete, R.Tabs;
      ObjectText(Written(), members, format, depth);
      ok := PutRaw(Opening(format), if format then 3 else 2);
      if !ok {
        return;
      }
      depth := depth + 1;
      ok := PrintMembers(members);
      if !ok {
        return;
      }
      ok := PrintWord(Closing(depth - 1, format));
      depth := depth - 1;
    }

    /** The loop over the members. */
    method PrintMembers(members: seq<Member>) returns (ok: bool)
      requires Ready() && R.PrintableMembers(members)
      modifies this, buffer
      ensures ok ==> Ready() && Kept() && depth == old(depth)
      ensures ok ==> Written() == old(Written()) + R.RenderMembers(members, format, depth)
      ensures noalloc ==> buffer == old(buffer) && length == old(length)
      ensures !ok ==> TooBig(old(offset) + |R.RenderMembers(members, format, old(depth))| + 2)
      decreases members, 1
    {
      hide R.Render, R.Printable, R.RenderMembers, R.PrintableMembers, Written, Complete, RenderMember;
      ghost var before, body := Written(), R.RenderMembers(members, format, depth);
      ghost var done: bytes := [];
      var i := 0;
      MembersStart(members, format, depth);
      while i < |members|
        invariant 0 <= i <= |members| && R.PrintableMembers(members[i..])
        invariant Ready() && Kept() && depth == old(depth)
        invariant Written() == before + done && done + R.RenderMembers(members[i..], format, depth) == body
      {
        MembersStep(members, i, format, depth, done);
        ghost var text := RenderMember(members[i], i + 1 == |members|, format, depth);
        ok := PrintMember(members[i], i + 1 < |members|);
        if !ok {
          return;
        }
        assert before + done + text == before + (done + text);
        done := done + text;
        i := i + 1;
      }
      ok := true;
    }

    method PrintMember(m: Member, more: bool) returns (ok: bool)
      requires Ready() && 0 !in m.name && R.Printable(m.value)
      modifies this, buffer
      ensures ok ==> Ready() && Kept() && depth == old(depth)
      ensures ok ==> Written() == old(Written()) + RenderMember(m, !more, format, depth)
      ensures noalloc ==> buffer == old(buffer) && length == old(length)
      ensures !ok ==> TooBig(old(offset) + |RenderMember(m, !more, format, old(depth))| + 2)
      decreases m, 0
    {
      hide R.Render, R.Printable, Written, Complete, R.RenderName, R.MemberEnd;
      ghost var before := Written();
      ghost var name, text := R.RenderName(m.name, format, depth), R.Render(m.value, format, depth);
      ok := PrintName(m.name);
      if !ok {
        return;
      }
      ok := PrintValue(m.value);
      if !ok {
        return;
      }
      UpdateOffset(before + name + text);
      ok := PutText(MemberEndText(more, format));
      Append3(before, name, text, R.MemberEnd(!more, format));
    }

    /** The indentation, the name, the colon and its tab. */
    method PrintName(name: bytes) returns (ok: bool)
      requires Ready() && 0 !in name
      modifies this, buffer
      ensures depth == old(depth)
      ensures ok ==> Ready() && Kept() && Written() == old(Written()) + R.RenderName(name, format, depth)
      ensures noalloc ==> buffer == old(buffer) && length == old(length)
      ensures !ok ==> TooBig(old(offset) + |R.RenderName(name, format, depth)| + 2)
    {
      hide R.Quoted, Written, Complete, R.Tabs;
      ghost var before, tabs, colon := Written(), R.Only(format, R.Tabs(depth)), [COLON] + R.Only(format, [TAB]);
      if format {
        ok := PutRaw(R.Tabs(depth), depth);
        if !ok {
          return;
        }
      }
      assert Written() == before + tabs;
      ok := PrintString(name);
      if !ok {
        return;
      }
      UpdateOffset(before + tabs + R.Quoted(name));
      ok := PutRaw(if format then [COLON, TAB] else [COLON], if format then 2 else 1);
      Append3(before, tabs, R.Quoted(name), colon);
    }
  }

  lemma {:induction false} QuotedLength(s: bytes)
    requires 0 !in s
    ensures |R.Quoted(s)| == |R.Escaped(s)| + 2
  {
  }

  /** The block after the closing quote and the terminator were stored behind the escaped bytes. */
  lemma {:induction false} QuotedInPlace(before: bytes, s: bytes, block: bytes, after: bytes, at: nat)
    requires 0 !in s && |before| + 1 <= at < at + 1 < |block| == |after|
    requires block[..|before|] == before && block[|before|] == QUOTE && block[|before| + 1..at] == R.Escaped(s)
    requires after == block[at := QUOTE][at + 1 := 0]
    ensures var text := before + R.Quoted(s);
            && |text| == at + 1 && after[..|text|] == text && after[|text|] == 0 && text[|before|..] == R.Quoted(s)
  {
    hide R.Escaped;
    var e := R.Escaped(s);
    assert |e| == at - |before| - 1;
    assert block[..at] == before + [QUOTE] + e by {
      assert block[..at] == block[..|before|] + [block[|before|]] + block[|before| + 1..at];
    }
    assert after[..at + 1] == block[..at] + [QUOTE];
    assert before + [QUOTE] + e + [QUOTE] == before + ([QUOTE] + e + [QUOTE]);
  }

  /** One element as the loop writes it. */
  function RenderItem(v: Value, last: bool, format: bool, depth: nat): bytes
    requires R.Printable(v)
  {
    R.Render(v, format, depth) + if last then [] else R.Separator(format)
  }

  /** One member as the loop writes it. */
  function RenderMember(m: Member, last: bool, format: bool, depth: nat): bytes
    requires 0 !in m.name && R.Printable(m.value)
  {
    R.RenderName(m.name, format, depth) + R.Render(m.value, format, depth) + R.MemberEnd(last, format)
  }

  function MemberEndText(more: bool, format: bool): (r: bytes)
    ensures r == R.MemberEnd(!more, format)
  {
    if more then (if format then [COMMA, NEWLINE] else [COMMA]) else if format then [NEWLINE] else []
  }

  function Opening(format: bool): bytes { if format then [LBRACE, NEWLINE] else [LBRACE] }

  function Closing(depth: nat, format: bool): (r: bytes)
    ensures 0 !in r
  {
    if format then R.Tabs(depth) + [RBRACE] else [RBRACE]
  }

  lemma {:induction false} ObjectText(before: bytes, members: seq<Member>, format: bool, depth: nat)
    requires R.PrintableMembers(members)
    ensures R.Printable(Object(members))
    ensures before + R.Render(Object(members), format, depth) ==
            before + Opening(format) + R.RenderMembers(members, format, depth + 1) + Closing(depth, format)
  {
    hide R.RenderMembers, R.Tabs;
  }

  lemma {:induction false} ArrayText(before: bytes, items: seq<Value>, format: bool, depth: nat)
    requires R.PrintableItems(items)
    ensures R.Printable(Array(items))
    ensures before + R.Render(Array(items), format, depth) ==
            before + [LBRACKET] + R.RenderItems(items, format, depth + 1) + [RBRACKET]
  {
    hide R.RenderItems;
  }

  /** What is left of the members before and after one round of the loop. */
  lemma {:induction false} MembersStep(members: seq<Member>, i: nat, format: bool, depth: nat, done: bytes)
    requires i < |members| && R.PrintableMembers(members[i..])
    ensures 0 !in members[i].name && R.Printable(members[i].value) && R.PrintableMembers(members[i + 1..])
    ensures var text := RenderMember(members[i], i + 1 == |members|, format, depth);
            done + R.RenderMembers(members[i..], format, depth) ==
            done + text + R.RenderMembers(members[i + 1..], format, depth)
  {
    hide R.Render, R.Printable, R.RenderName, R.MemberEnd;
    var left := members[i..];
    assert left[0] == members[i] && left[1..] == members[i + 1..];
    Regroup(done, R.RenderName(members[i].name, format, depth), R.Render(members[i].value, format, depth),
            R.MemberEnd(|left| == 1, format), R.RenderMembers(left[1..], format, depth));
  }

  lemma {:induction false} Regroup(done: bytes, a: bytes, b: bytes, c: bytes, rest: bytes)
    ensures done + (a + (b + (c + rest))) == done + (a + b + c) + rest
  {
  }

  lemma {:induction false} Append3(before: bytes, a: bytes, b: bytes, c: bytes)
    ensures before + a + b + c == before + (a + (b + c)) == before + (a + b + c)
  {
  }

  lemma {:induction false} MembersStart(members: seq<Member>, format: bool, depth: nat)
    requires R.PrintableMembers(members)
    ensures members[0..] == members && members[|members|..] == []
    ensures [] + R.RenderMembers(members, format, depth) == R.RenderMembers(members, format, depth)
    ensures R.RenderMembers([], format, depth) == []
  {
  }

  /** What is left of the elements before and after one round of the loop. */
  lemma {:induction false} ItemsStep(items: seq<Value>, i: nat, format: bool, depth: nat, done: bytes)
    requires i < |items| && R.PrintableItems(items[i..])
    ensures R.Printable(items[i]) && R.PrintableItems(items[i + 1..])
    ensures var text := RenderItem(items[i], i + 1 == |items|, format, depth);
            done + R.RenderItems(items[i..], format, depth) ==
            done + text + R.RenderItems(items[i + 1..], format, depth)
  {
    hide R.Render, R.Printable;
    var left := items[i..];
    assert left[0] == items[i] && left[1..] == items[i + 1..];
    var text := R.Render(items[i], format, depth);
    if |left| == 1 {
      assert text + [] == text && done + text + [] == done + text;
    } else {
      RegroupTwo(done, text, R.Separator(format), R.RenderItems(left[1..], format, depth));
    }
  }

  lemma {:induction false} RegroupTwo(done: bytes, a: bytes, b: bytes, rest: bytes)
    ensures done + (a + (b + rest)) == done + (a + b) + rest
  {
  }

  lemma {:induction false} ItemsStart(items: seq<Value>, format: bool, depth: nat)
    requires R.PrintableItems(items)
    ensures items[0..] == items && items[|items|..] == []
    ensures [] + R.RenderItems(items, format, depth) == R.RenderItems(items, format, depth)
    ensures R.RenderItems([], format, depth) == []
  {
  }

  lemma {:induction false} EscapedStep(s: bytes, i: nat, done: bytes)
    requires 0 !in s && i < |s|
    ensures |R.Escaped(s[i..])| == |R.EscapeByte(s[i])| + |R.Escaped(s[i + 1..])|
    ensures done + R.Escaped(s[i..]) == done + R.EscapeByte(s[i]) + R.Escaped(s[i + 1..])
  {
    assert s[i..][1..] == s[i + 1..];
  }

  // ---------- Entry points ----------

  /**
   cJSON_Print and cJSON_PrintUnformatted: start with 256 bytes and grow. The
   text is the rendered value, and the print succeeds whenever the heap can hold
   twice the text.
   */
  method Print(v: Value, format: bool, heapLimit: nat) returns (ok: bool, printed: bytes)
    requires R.Printable(v)
    ensures ok ==> printed == R.Render(v, format, 0)
    ensures var size := |R.Render(v, format, 0)| + 2;
            256 <= heapLimit && 2 * size <= SIZE_MAX && 2 * size <= heapLimit ==> ok
  {
    hide R.Render, R.Printable;
    printed := [];
    if 256 > heapLimit {
      return false, [];
    }
    var memory := new byte[256](_ => 0);
    var p := new Buffer(memory, 256, false, format, heapLimit);
    ok := p.PrintValue(v);
    if ok {
      ghost var text := R.Render(v, format, 0);
      assert [] + text == text;
      p.UpdateOffset(text);
      ok := p.offset + 1 <= heapLimit;
      printed := p.buffer[..p.offset];
    }
  }

  /** cJSON_PrintBuffered: the caller guesses the size; the terminated text starts the returned block. */
  method PrintBuffered(v: Value, prebuffer: int, format: bool, heapLimit: nat) returns (ok: bool, block: bytes)
    requires R.Printable(v)
    ensures ok ==> CString(block) == R.Render(v, format, 0)
    ensures var size := |R.Render(v, format, 0)| + 2;
            0 <= prebuffer <= heapLimit && 2 * size <= SIZE_MAX && 2 * size <= heapLimit ==> ok
  {
    hide R.Render, R.Printable;
    block := [];
    if prebuffer < 0 || prebuffer > heapLimit {
      return false, [];
    }
    var memory := new byte[prebuffer](_ => 0);
    var p := new Buffer(memory, prebuffer, false, format, heapLimit);
    ok := p.PrintValue(v);
    if ok {
      ghost var text := R.Render(v, format, 0);
      assert [] + text == text;
      block := p.buffer[..];
      assert block == text + [0] + block[|text| + 1..];
      CStringStops(text, block[|text| + 1..]);
      CStringIsWholeIffNulFree(text);
    }
  }

  /**
   cJSON_PrintPreallocated: the print into a caller's buffer succeeds exactly when
   the buffer has two bytes more than the text (one more than the text and its
   terminator need), and then holds the same text as the growing print.
   */
  method PrintPreallocated(v: Value, buffer: array<byte>, length: int, format: bool) returns (ok: bool)
    requires R.Printable(v) && length <= buffer.Length
    modifies buffer
    ensures ok <==> |R.Render(v, format, 0)| + 2 <= length
    ensures ok ==> var n := |R.Render(v, format, 0)|; buffer[..n] == R.Render(v, format, 0) && buffer[n] == 0
  {
    hide R.Render, R.Printable;
    if length < 0 {
      return false;
    }
    var p := new Buffer(buffer, length, true, format, 0);
    ok := p.PrintValue(v);
    assert [] + R.Render(v, format, 0) == R.Render(v, format, 0);
  }

  /** The loop that writes the escaped bytes from position `start`. */
  method EscapeInto(s: bytes, output: array<byte>, start: nat) returns (at: nat)
    requires 0 !in s && start + |R.Escaped(s)| <= output.Length
    modifies output
    ensures at == start + |R.Escaped(s)| && output[start..at] == R.Escaped(s)
    ensures output[..start] == old(output[..start])
  {
    hide R.EscapeByte, R.Escaped;
    var i := 0;
    at := start;
    assert s[0..] == s;
    while i < |s|
      invariant 0 <= i <= |s| && start <= at && at + |R.Escaped(s[i..])| == start + |R.Escaped(s)|
      invariant output[start..at] + R.Escaped(s[i..]) == R.Escaped(s)
      invariant output[..start] == old(output[..start])
    {
      ghost var done := output[start..at];
      var text := EscapeText(s[i]);
      EscapedStep(s, i, done);
      var k := 0;
      while k < |text|
        invariant 0 <= k <= |text| && output[start..at] == done && output[at..at + k] == text[..k]
        invariant output[..start] == old(output[..start])
      {
        output[at + k] := text[k];
        k := k + 1;
      }
      assert output[start..at + |text|] == done + text;
      i, at := i + 1, at + |text|;
    }
    EscapedEnd(s);
  }

  lemma {:induction false} EscapedEnd(s: bytes)
    requires 0 !in s
    ensures R.Escaped(s[|s|..]) == []
  {
  }

  /** The number of characters that escaping adds. */
  method CountEscapes(s: bytes) returns (n: nat)
    requires 0 !in s
    ensures n == |R.Escaped(s)| - |s|
  {
    n := 0;
    var i := 0;
    while i < |s|
      invariant 0 <= i <= |s| && n + i + |R.Escaped(s[i..])| == |R.Escaped(s)|
    {
      assert s[i..] == [s[i]] + s[i + 1..];
      var b := s[i];
      if b == QUOTE || b == BACKSLASH || b == BACKSPACE || b == FORMFEED || b == NEWLINE || b == RETURN || b == TAB {
        n := n + 1;
      } else if b < 32 {
        n := n + 5;
      }
      i := i + 1;
    }
  }

  /** What is written for one byte of a string; a control character without a letter becomes four hexadecimal digits. */
  method EscapeText(b: byte) returns (text: bytes)
    requires b != 0
    ensures text == R.EscapeByte(b)
  {
    if b > 31 && b != QUOTE && b != BACKSLASH {
      return [b];
    }
    text := [BACKSLASH];
    if b == BACKSLASH {
      text := text + [BACKSLASH];
    } else if b == QUOTE {
      text := text + [QUOTE];
    } else if b == BACKSPACE {
      text := text + [98];
    } else if b == FORMFEED {
      text := text + [102];
    } else if b == NEWLINE {
      text := text + [110];
    } else if b == RETURN {
      text := text + [114];
    } else if b == TAB {
      text := text + [116];
    } else {
      text := text + [LETTER_U, 48, 48, R.HexDigit(b / 16), R.HexDigit(b % 16)];
    }
  }

  lemma {:induction false} NothingEscaped(s: bytes)
    requires 0 !in s && |R.Escaped(s)| == |s|
    ensures R.Escaped(s) == s
  {
    if s == [] {
    } else {
      NothingEscaped(s[1..]);
      assert s == [s[0]] + s[1..];
    }
  }
}
