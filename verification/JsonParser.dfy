/**
 The recursive-descent parser of cjson.c as functions of the whole input buffer,
 the offset and the nesting depth. ParseBuffer.dfy proves the imperative parser
 equal to these functions.
 */
module JsonParser {
  import opened Bytes
  import opened Json
  import S = JsonString
  import N = JsonNumber

  const NESTING_LIMIT: nat := 1000

  const NULL_TEXT: bytes := [110, 117, 108, 108]
  const FALSE_TEXT: bytes := [102, 97, 108, 115, 101]
  const TRUE_TEXT: bytes := [116, 114, 117, 101]

  datatype Parsed<T> = Fail | Done(value: T, next: nat)

  /** The first offset from `i` whose byte is above 32. */
  function BlankEnd(buf: bytes, i: nat): (e: nat)
    requires i <= |buf|
    ensures i <= e <= |buf|
    ensures e < |buf| ==> buf[e] > 32
    decreases |buf| - i
  {
    if i < |buf| && buf[i] <= 32 then BlankEnd(buf, i + 1) else i
  }

  /** buffer_skip_whitespace: a skip that runs off the buffer steps back onto its last byte. */
  function Skip(buf: bytes, i: nat): (e: nat)
    requires i <= |buf|
    ensures i <= e <= |buf|
    ensures i < |buf| ==> e < |buf|
  {
    if i == |buf| then i
    else if BlankEnd(buf, i) == |buf| then |buf| - 1
    else BlankEnd(buf, i)
  }

  /** The byte at `i`, or -1 when the buffer cannot be accessed there. */
  function Peek(buf: bytes, i: nat): int { if i < |buf| then buf[i] else -1 }

  function ParseValue(buf: bytes, i: nat, depth: nat): (r: Parsed<Value>)
    requires i <= |buf|
    ensures r.Done? ==> i < r.next <= |buf|
    decreases |buf| - i, 2
  {
    if At(buf, i, NULL_TEXT) then Done(Null, i + 4)
    else if At(buf, i, FALSE_TEXT) then Done(False, i + 5)
    else if At(buf, i, TRUE_TEXT) then Done(True, i + 4)
    else if Peek(buf, i) == QUOTE then
      var s := S.ParseString(buf, i);
      if s.NoString? then Fail else Done(String(CString(s.output)), s.next)
    else if i < |buf| && (buf[i] == MINUS || IsDigit(buf[i])) then
      var n := N.ParseNumber(buf, i);
      if n.NotNumber? then Fail else Done(Number(n.value), n.next)
    else if Peek(buf, i) == LBRACKET then ParseArray(buf, i, depth)
    else if Peek(buf, i) == LBRACE then ParseObject(buf, i, depth)
    else Fail
  }

  function ParseArray(buf: bytes, i: nat, depth: nat): (r: Parsed<Value>)
    requires i < |buf| && buf[i] == LBRACKET
    ensures r.Done? ==> i < r.next <= |buf| && r.value.Array?
    decreases |buf| - i, 1
  {
    if depth >= NESTING_LIMIT then Fail
    else
      var j := Skip(buf, i + 1);
      if Peek(buf, j) == RBRACKET then Done(Array([]), j + 1)
      else if j >= |buf| then Fail
      else
        var r := ParseItems(buf, j, depth + 1);
        if r.Fail? then Fail else Done(Array(r.value), r.next)
  }

  /** The elements from `i`, the offset after an opening bracket or a comma, up to and with the closing bracket. */
  function ParseItems(buf: bytes, i: nat, depth: nat): (r: Parsed<seq<Value>>)
    requires i <= |buf|
    ensures r.Done? ==> i < r.next <= |buf| && |r.value| > 0
    decreases |buf| - i, 3
  {
    var v := ParseValue(buf, Skip(buf, i), depth);
    if v.Fail? then Fail
    else
      var j := Skip(buf, v.next);
      if Peek(buf, j) == COMMA then
        var rest := ParseItems(buf, j + 1, depth);
        if rest.Fail? then Fail else Done([v.value] + rest.value, rest.next)
      else if Peek(buf, j) == RBRACKET then Done([v.value], j + 1)
      else Fail
  }

  function ParseObject(buf: bytes, i: nat, depth: nat): (r: Parsed<Value>)
    requires i < |buf| && buf[i] == LBRACE
    ensures r.Done? ==> i < r.next <= |buf| && r.value.Object?
    decreases |buf| - i, 1
  {
    if depth >= NESTING_LIMIT then Fail
    else
      var j := Skip(buf, i + 1);
      if Peek(buf, j) == RBRACE then Done(Object([]), j + 1)
      else if j >= |buf| then Fail
      else
        var r := ParseMembers(buf, j, depth + 1);
        if r.Fail? then Fail else Done(Object(r.value), r.next)
  }

  /** The name of a member at `i`, with its colon: the offset where the value starts. */
  function ParseName(buf: bytes, i: nat): (r: Parsed<bytes>)
    requires i <= |buf|
    ensures r.Done? ==> i < r.next <= |buf|
  {
    var start := Skip(buf, i);
    if start >= |buf| then Fail
    else
      var s := S.ParseString(buf, start);
      if s.NoString? then Fail
      else
        var j := Skip(buf, s.next);
        if Peek(buf, j) != COLON then Fail else Done(CString(s.output), Skip(buf, j + 1))
  }

  function ParseMembers(buf: bytes, i: nat, depth: nat): (r: Parsed<seq<Member>>)
    requires i <= |buf|
    ensures r.Done? ==> i < r.next <= |buf| && |r.value| > 0
    decreases |buf| - i, 3
  {
    var name := ParseName(buf, i);
    if name.Fail? then Fail
    else
      var v := ParseValue(buf, name.next, depth);
      if v.Fail? then Fail
      else
        var m, j := Member(name.value, v.value), Skip(buf, v.next);
        if Peek(buf, j) == COMMA then
          var rest := ParseMembers(buf, j + 1, depth);
          if rest.Fail? then Fail else Done([m] + rest.value, rest.next)
        else if Peek(buf, j) == RBRACE then Done([m], j + 1)
        else Fail
  }

  /** cJSON_ParseWithOpts on a C string: the value and the offset where the parse ended. */
  function ParseText(text: bytes, requireEnd: bool): (r: Parsed<Value>)
    requires 0 !in text
    ensures r.Done? && requireEnd ==> r.next == |text|
  {
    var buf := text + [0];
    var start := if |buf| > 4 && At(buf, 0, [0xEF, 0xBB, 0xBF]) then 3 else 0;
    var v := ParseValue(buf, Skip(buf, start), 0);
    if v.Fail? || !requireEnd then v
    else
      var e := Skip(buf, v.next);
      if e >= |buf| || buf[e] != 0 then Fail else Done(v.value, e)
  }

  // ---------- What every run of the parser keeps ----------

  /** Containers come from their own parsers. */
  lemma {:induction false} Dispatch(buf: bytes, i: nat, depth: nat)
    requires i <= |buf|
    ensures var r := ParseValue(buf, i, depth);
            && (r.Done? && r.value.Array? ==> i < |buf| && buf[i] == LBRACKET && r == ParseArray(buf, i, depth))
            && (r.Done? && r.value.Object? ==> i < |buf| && buf[i] == LBRACE && r == ParseObject(buf, i, depth))
  {
    hide S.ParseString, N.ParseNumber, At, ParseArray, ParseObject;
  }

  /** No value nested deeper than the limit is ever accepted. */
  lemma {:induction false} DepthLimited(buf: bytes, i: nat, depth: nat)
    requires i <= |buf| && depth <= NESTING_LIMIT
    ensures var r := ParseValue(buf, i, depth); r.Done? ==> depth + Depth(r.value) <= NESTING_LIMIT
    decreases |buf| - i, 2
  {
    hide ParseValue, ParseItems, ParseMembers, Skip;
    var r := ParseValue(buf, i, depth);
    Dispatch(buf, i, depth);
    if r.Done? && r.value.Array? && r.value.items != [] {
      ItemsDepthLimited(buf, Skip(buf, i + 1), depth + 1);
    } else if r.Done? && r.value.Object? && r.value.members != [] {
      MembersDepthLimited(buf, Skip(buf, i + 1), depth + 1);
    }
  }

  lemma {:induction false} ItemsDepthLimited(buf: bytes, i: nat, depth: nat)
    requires i <= |buf| && depth <= NESTING_LIMIT
    ensures var r := ParseItems(buf, i, depth); r.Done? ==> depth + ItemsDepth(r.value) <= NESTING_LIMIT
    decreases |buf| - i, 3
  {
    hide ParseValue, Skip, Depth;
    var v := ParseValue(buf, Skip(buf, i), depth);
    if v.Done? {
      DepthLimited(buf, Skip(buf, i), depth);
      var j := Skip(buf, v.next);
      if Peek(buf, j) == COMMA {
        ItemsDepthLimited(buf, j + 1, depth);
        var rest := ParseItems(buf, j + 1, depth);
        assert rest.Done? ==> ([v.value] + rest.value)[1..] == rest.value;
      } else {
        assert [v.value][1..] == [];
      }
    }
  }

  lemma {:induction false} MembersDepthLimited(buf: bytes, i: nat, depth: nat)
    requires i <= |buf| && depth <= NESTING_LIMIT
    ensures var r := ParseMembers(buf, i, depth); r.Done? ==> depth + MembersDepth(r.value) <= NESTING_LIMIT
    decreases |buf| - i, 3
  {
    hide ParseValue, ParseName, Skip, Depth;
    var name := ParseName(buf, i);
    if name.Done? {
      var v := ParseValue(buf, name.next, depth);
      if v.Done? {
        DepthLimited(buf, name.next, depth);
        var m, j := Member(name.value, v.value), Skip(buf, v.next);
        if Peek(buf, j) == COMMA {
          MembersDepthLimited(buf, j + 1, depth);
          var rest := ParseMembers(buf, j + 1, depth);
          assert rest.Done? ==> ([m] + rest.value)[1..] == rest.value;
        } else {
          assert [m][1..] == [];
        }
      }
    }
  }
}
