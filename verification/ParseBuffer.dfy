/** The imperative parser of cjson.c: a buffer whose offset and depth move as it reads. */
module ParseBuffer {
  import opened Bytes
  import opened Json
  import S = JsonString
  import N = JsonNumber
  import P = JsonParser
  import L = JsonLanguage
  import E = JsonEstimate

  // ---------- Strings ----------

  method ParseHex4(content: bytes, i: nat) returns (h: nat)
    requires i + 4 <= |content|
    ensures h == S.Hex4(content, i)
  {
    h := 0;
    var k := 0;
    ghost var hex := content[i..i + 4];
    while k < 4
      invariant 0 <= k <= 4
      invariant forall j :: 0 <= j < k ==> S.HexVal(hex[j]) >= 0
      invariant k == 0 ==> h == 0
      invariant k == 1 ==> h == S.HexVal(hex[0]) * 16
      invariant k == 2 ==> h == (S.HexVal(hex[0]) * 16 + S.HexVal(hex[1])) * 16
      invariant k == 3 ==> h == ((S.HexVal(hex[0]) * 16 + S.HexVal(hex[1])) * 16 + S.HexVal(hex[2])) * 16
      invariant k == 4 ==> h == S.HexCode(hex)
    {
      var b := content[i + k];
      assert b == hex[k];
      if 48 <= b <= 57 {
        h := h + (b - 48);
      } else if 65 <= b <= 70 {
        h := h + (10 + b - 65);
      } else if 97 <= b <= 102 {
        h := h + (10 + b - 97);
      } else {
        return 0;
      }
      if k < 3 {
        h := h * 16;
      }
      k := k + 1;
    }
  }

  /** Writes the UTF-8 bytes of a code point from the last one back to the first. */
  method EncodeUtf8(cp: S.CodePoint, output: array<byte>, pos: nat) returns (length: nat)
    requires pos + |S.Utf8(cp)| <= output.Length
    modifies output
    ensures length == |S.Utf8(cp)|
    ensures output[pos..pos + length] == S.Utf8(cp)
    ensures forall k :: 0 <= k < output.Length && !(pos <= k < pos + length) ==> output[k] == old(output[k])
  {
    hide S.Utf8, Shift;
    var mark;
    if cp < 0x80 {
      length, mark := 1, 0;
    } else if cp < 0x800 {
      length, mark := 2, 0xC0;
    } else if cp < 0x10000 {
      length, mark := 3, 0xE0;
    } else {
      length, mark := 4, 0xF0;
    }
    ghost var text := S.Utf8(cp);
    Utf8Digits(cp, length, mark);
    var c: nat, k := cp, length - 1;
    assert c == Shift(cp, 0) by {
      ShiftNext(cp, 0);
    }
    while k > 0
      invariant 0 <= k < length == |text| && pos + length <= output.Length
      invariant c == Shift(cp, length - 1 - k)
      invariant forall j :: k < j < length ==> output[pos + j] == text[j]
      invariant forall j :: 0 <= j < output.Length && !(pos <= j < pos + length) ==> output[j] == old(output[j])
    {
      output[pos + k] := 0x80 + c % 64;
      ShiftNext(cp, length - 1 - k);
      c := c / 64;
      k := k - 1;
    }
    output[pos] := mark + c;
    SameBytes(text, output[..], pos);
  }

  /** A code point without its last i groups of six bits. */
  function Shift(cp: nat, i: nat): nat { if i == 0 then cp else Shift(cp, i - 1) / 64 }

  lemma {:induction false} ShiftNext(cp: nat, i: nat)
    ensures Shift(cp, 0) == cp && Shift(cp, i + 1) == Shift(cp, i) / 64
  {
  }

  lemma {:induction false} Utf8Digits(cp: S.CodePoint, length: nat, mark: nat)
    requires (length, mark) ==
             if cp < 0x80 then (1, 0) else if cp < 0x800 then (2, 0xC0)
             else if cp < 0x10000 then (3, 0xE0) else (4, 0xF0)
    ensures |S.Utf8(cp)| == length && S.Utf8(cp)[0] == mark + Shift(cp, length - 1)
    ensures forall j :: 0 < j < length ==> S.Utf8(cp)[j] == 0x80 + Shift(cp, length - 1 - j) % 64
  {
    assert Shift(cp, 1) == cp / 64 && Shift(cp, 2) == cp / 4096 && Shift(cp, 3) == cp / 262144;
  }

  /** utf16_literal_to_utf8: the length of the escape read, or 0, and the new end of the output. */
  method Utf16LiteralToUtf8(content: bytes, p: nat, end: nat, output: array<byte>, pos: nat)
    returns (sequenceLength: nat, next: nat)
    requires p < end < |content|
    requires var u := S.Utf16Literal(content, p, end); u.Good? ==> pos + |u.output| <= output.Length
    modifies output
    ensures var u := S.Utf16Literal(content, p, end);
            if u.Bad? then sequenceLength == 0 && next == pos && output[..] == old(output[..])
            else sequenceLength == u.length && next == pos + |u.output| && output[pos..next] == u.output
    ensures forall k :: 0 <= k < output.Length && !(pos <= k < next) ==> output[k] == old(output[k])
  {
    hide S.Utf8, S.Hex4;
    next := pos;
    if end - p < 6 {
      return 0, pos;
    }
    var codepoint;
    var first := ParseHex4(content, p + 2);
    if 0xDC00 <= first <= 0xDFFF {
      return 0, pos;
    }
    if 0xD800 <= first <= 0xDBFF {
      sequenceLength := 12;
      if end - (p + 6) < 6 {
        return 0, pos;
      }
      if content[p + 6] != BACKSLASH || content[p + 7] != LETTER_U {
        return 0, pos;
      }
      var second := ParseHex4(content, p + 8);
      if second < 0xDC00 || second > 0xDFFF {
        return 0, pos;
      }
      codepoint := 0x10000 + (first - 0xD800) * 1024 + (second - 0xDC00);
    } else {
      sequenceLength := 6;
      codepoint := first;
    }
    var length := EncodeUtf8(codepoint, output, pos);
    next := pos + length;
  }

  lemma {:induction false} PrependTwice(a: bytes, b: bytes, r: Option<bytes>)
    ensures S.Prepend(a, S.Prepend(b, r)) == S.Prepend(a + b, r)
  {
    if r.Some? {
      assert a + (b + r.value) == a + b + r.value;
    }
  }

  lemma {:induction false} NothingPrepended(r: Option<bytes>)
    ensures S.Prepend([], r) == r
  {
    if r.Some? {
      assert [] + r.value == r.value;
    }
  }

  // ---------- The buffer ----------

  lemma {:induction false} TokenGoesOn(buf: bytes, i: nat, limit: nat)
    requires limit > 0 && i < |buf| && N.IsTokenByte(buf[i])
    ensures N.TokenEnd(buf, i, limit) == N.TokenEnd(buf, i + 1, limit - 1)
  {
  }

  lemma {:induction false} TokenStops(buf: bytes, i: nat, limit: nat)
    requires i <= |buf| && (limit == 0 || i == |buf| || !N.IsTokenByte(buf[i]))
    ensures N.TokenEnd(buf, i, limit) == i
  {
  }

  lemma {:induction false} UpToNul(s: bytes, i: nat)
    requires i < |s| && s[i] == 0 && forall k :: 0 <= k < i ==> s[k] != 0
    ensures CString(s) == s[..i]
  {
    hide CString;
    assert s == s[..i] + [0] + s[i + 1..];
    CStringStops(s[..i], s[i + 1..]);
    CStringIsWholeIffNulFree(s[..i]);
  }

  lemma {:induction false} NotNul(b: byte)
    requires N.IsTokenByte(b)
    ensures b != 0
  {
  }

  lemma {:induction false} SameBytes(a: bytes, b: bytes, i: nat)
    requires i + |a| <= |b| && forall k :: 0 <= k < |a| ==> a[k] == b[i + k]
    ensures a == b[i..i + |a|]
  {
  }

  class Buffer {
    const content: bytes
    var offset: nat
    var depth: nat

    constructor (text: bytes)
      requires 0 !in text
      ensures content == text + [0] && offset == 0 && depth == 0 && Valid()
    {
      content := text + [0];
      offset := 0;
      depth := 0;
    }

    ghost predicate Valid()
      reads this
    {
      Terminated(content) && offset <= |content| && depth <= P.NESTING_LIMIT
    }

    method SkipWhitespace()
      requires Valid()
      modifies `offset
      ensures Valid() && offset == P.Skip(content, old(offset))
    {
      if offset >= |content| {
        return;
      }
      while offset < |content| && content[offset] <= 32
        invariant old(offset) <= offset <= |content|
        invariant P.BlankEnd(content, offset) == P.BlankEnd(content, old(offset))
      {
        offset := offset + 1;
      }
      if offset == |content| {
        offset := offset - 1;
      }
    }

    method ParseNumber() returns (ok: bool, value: real)
      requires Valid()
      modifies `offset
      ensures Valid()
      ensures var n := N.ParseNumber(content, old(offset));
              ok == n.GotNumber? && (ok ==> value == n.value && offset == n.next)
    {
      hide N.Strtod, N.TokenEnd;
      var token := CopyToken();
      var scan := N.Strtod(token);
      if scan.NoNumber? {
        return false, 0.0;
      }
      offset := offset + scan.length;
      return true, scan.value;
    }

    /** The number, copied into a buffer of 64 bytes and terminated. */
    method CopyToken() returns (token: bytes)
      requires Valid()
      ensures token == content[offset..N.TokenEnd(content, offset, N.TOKEN_MAX)]
    {
      hide N.TokenEnd, N.IsTokenByte, CString;
      var number := new byte[64];
      var i := 0;
      while i < 63 && offset + i < |content| && N.IsTokenByte(content[offset + i])
        invariant 0 <= i <= 63 && offset + i <= |content|
        invariant forall k :: 0 <= k < i ==> number[k] == content[offset + k] != 0
        invariant N.TokenEnd(content, offset, 63) == N.TokenEnd(content, offset + i, 63 - i)
      {
        TokenGoesOn(content, offset + i, 63 - i);
        NotNul(content[offset + i]);
        number[i] := content[offset + i];
        i := i + 1;
      }
      TokenStops(content, offset + i, 63 - i);
      number[i] := 0;
      token := CString(number[..]);
      UpToNul(number[..], i);
      SameBytes(token, content, offset);
    }

    /** parse_string: measure the literal, allocate, unescape. */
    method ParseString() returns (ok: bool, text: bytes)
      requires Valid() && offset < |content|
      modifies `offset
      ensures Valid()
      ensures var s := S.ParseString(content, old(offset));
              ok == s.GotString? && (ok ==> text == CString(s.output) && offset == s.next)
    {
      hide S.FindEnd, S.Unescape, E.Written, E.Skipped, CString;
      text := [];
      var start := offset + 1;
      if content[offset] != QUOTE {
        offset := start;
        return false, [];
      }
      var found, end, output := MeasureString();
      if !found {
        offset := start;
        return false, [];
      }
      E.EstimateSuffices(content, offset, end);
      var p, pos;
      ok, p, pos := UnescapeInto(start, end, output);
      if !ok {
        offset := p;
        return false, [];
      }
      output[pos] := 0;
      assert output[..] == output[..pos] + [0] + output[pos + 1..];
      CStringStops(output[..pos], output[pos + 1..]);
      text := CString(output[..]);
      offset := end + 1;
    }

    /** The second pass: fills the output, or stops at the escape it cannot decode. */
    method UnescapeInto(start: nat, end: nat, output: array<byte>) returns (ok: bool, p: nat, pos: nat)
      requires start <= end < |content| && E.Written(content, start, end) < output.Length
      modifies output
      ensures ok == S.Unescape(content, start, end).Some?
      ensures p <= end + 1 && pos < output.Length
      ensures ok ==> S.Unescape(content, start, end) == Some(output[..pos])
    {
      hide S.Utf16Literal, S.ShortMeaning;
      p, pos := start, 0;
      ghost var whole := S.Unescape(content, start, end);
      NothingPrepended(whole);
      while p < end
        invariant start <= p <= end + 1
        invariant pos + E.Written(content, p, end) == E.Written(content, start, end)
        invariant whole == S.Prepend(output[..pos], S.Unescape(content, p, end))
        decreases end + 1 - p
      {
        ghost var done := output[..pos];
        if content[p] != BACKSLASH {
          output[pos] := content[p];
          assert output[..pos + 1] == done + [content[p]];
          PrependTwice(done, [content[p]], S.Unescape(content, p + 1, end));
          p, pos := p + 1, pos + 1;
        } else {
          var short := S.ShortMeaning(content[p + 1]);
          if short >= 0 {
            output[pos] := short;
            assert output[..pos + 1] == done + [short];
            PrependTwice(done, [short], S.Unescape(content, p + 2, end));
            p, pos := p + 2, pos + 1;
          } else if content[p + 1] == LETTER_U {
            var length, next := Utf16LiteralToUtf8(content, p, end, output, pos);
            if length == 0 {
              return false, p, pos;
            }
            assert output[..next] == done + output[pos..next];
            PrependTwice(done, output[pos..next], S.Unescape(content, p + length, end));
            p, pos := p + length, next;
          } else {
            return false, p, pos;
          }
        }
      }
      assert output[..pos] + [] == output[..pos];
      ok := true;
    }

    /** The first pass: the closing quote, and a buffer of the estimated size. */
    method MeasureString() returns (found: bool, end: nat, output: array<byte>)
      requires offset < |content|
      ensures found == S.FindEnd(content, offset + 1).Some?
      ensures found ==> S.FindEnd(content, offset + 1) == Some(end) && output.Length == E.Allocated(content, offset, end)
      ensures fresh(output)
    {
      var e, skipped := offset + 1, 0;
      output := new byte[0];
      ghost var goal := S.FindEnd(content, offset + 1);
      while e < |content| && content[e] != QUOTE
        invariant offset + 1 + skipped <= e
        invariant S.FindEnd(content, e) == goal
        invariant goal.Some? ==> skipped + E.Skipped(content, e, goal.value) == E.Skipped(content, offset + 1, goal.value)
        decreases |content| - e
      {
        if content[e] == BACKSLASH {
          if e + 1 >= |content| {
            return false, e, output;
          }
          skipped := skipped + 1;
          e := e + 1;
        }
        e := e + 1;
      }
      if e >= |content| {
        return false, e, output;
      }
      output := new byte[e - offset - skipped + 1];
      return true, e, output;
    }

    // ---------- Values ----------

    /** Whether `word` stands at the offset, as can_read and strncmp tell. */
    predicate LooksAt(word: bytes)
      reads this
    {
      offset + |word| <= |content| && content[offset..offset + |word|] == word
    }

    method ParseValue() returns (ok: bool, value: Value)
      requires Valid()
      modifies this
      ensures Valid()
      ensures Matches(P.ParseValue(content, old(offset), old(depth)), ok, value, old(depth))
      decreases |content| - offset, 2
    {
      hide S.ParseString, N.ParseNumber, P.ParseArray, P.ParseObject;
      value := Null;
      if LooksAt(P.NULL_TEXT) {
        offset := offset + 4;
        return true, Null;
      }
      if LooksAt(P.FALSE_TEXT) {
        offset := offset + 5;
        return true, False;
      }
      if LooksAt(P.TRUE_TEXT) {
        offset := offset + 4;
        return true, True;
      }
      if offset >= |content| {
        return false, Null;
      }
      var b := content[offset];
      if b == QUOTE {
        var text;
        ok, text := ParseString();
        value := String(text);
      } else if b == MINUS || IsDigit(b) {
        var number;
        ok, number := ParseNumber();
        value := Number(number);
      } else if b == LBRACKET {
        ok, value := ParseArray();
      } else if b == LBRACE {
        ok, value := ParseObject();
      } else {
        ok := false;
      }
    }

    /** The outcome that the parser functions promise; a failed parse leaves the offset and the depth where it stopped. */
    ghost predicate Matches<T>(r: P.Parsed<T>, ok: bool, value: T, depthBefore: nat)
      reads this
    {
      ok == r.Done? && (ok ==> value == r.value && offset == r.next && depth == depthBefore)
    }

    method ParseArray() returns (ok: bool, value: Value)
      requires Valid() && offset < |content| && content[offset] == LBRACKET
      modifies this
      ensures Valid()
      ensures Matches(P.ParseArray(content, old(offset), old(depth)), ok, value, old(depth))
      decreases |content| - offset, 1
    {
      hide P.ParseItems, P.Skip;
      if depth >= P.NESTING_LIMIT {
        return false, Null;
      }
      depth := depth + 1;
      offset := offset + 1;
      SkipWhitespace();
      if offset < |content| && content[offset] == RBRACKET {
        depth := depth - 1;
        offset := offset + 1;
        return true, Array([]);
      }
      if offset >= |content| {
        // The bracket is not the last byte of a terminated text.
        assert false;
      }
      // Step back to the character in front of the first element.
      offset := offset - 1;
      var items;
      ok, items := ParseItems();
      if ok {
        depth := depth - 1;
        offset := offset + 1;
      }
      value := Array(items);
    }

    /** The loop over the elements, from the byte in front of the first one to the closing bracket. */
    method ParseItems() returns (ok: bool, items: seq<Value>)
      requires Valid() && offset + 1 < |content|
      modifies this
      ensures Valid()
      ensures var r := P.ParseItems(content, old(offset) + 1, old(depth));
              ok == r.Done? && (ok ==> items == r.value && offset + 1 == r.next && depth == old(depth))
      decreases |content| - offset - 1, 3
    {
      hide P.ParseValue, P.Skip, P.ParseItems;
      items := [];
      ghost var whole := P.ParseItems(content, offset + 1, depth);
      After0(whole);
      while true
        invariant Valid() && old(offset) <= offset < |content| && depth == old(depth)
        invariant whole == After(items, P.ParseItems(content, offset + 1, depth))
        decreases |content| - offset
      {
        offset := offset + 1;
        ItemsStep(content, offset, depth, items);
        SkipWhitespace();
        var value;
        ok, value := ParseValue();
        if !ok {
          return;
        }
        items := items + [value];
        SkipWhitespace();
        if !(offset < |content| && content[offset] == COMMA) {
          break;
        }
      }
      ok := offset < |content| && content[offset] == RBRACKET;
    }

    method ParseObject() returns (ok: bool, value: Value)
      requires Valid() && offset < |content| && content[offset] == LBRACE
      modifies this
      ensures Valid()
      ensures Matches(P.ParseObject(content, old(offset), old(depth)), ok, value, old(depth))
      decreases |content| - offset, 1
    {
      hide P.ParseMembers, P.Skip;
      if depth >= P.NESTING_LIMIT {
        return false, Null;
      }
      depth := depth + 1;
      offset := offset + 1;
      SkipWhitespace();
      if offset < |content| && content[offset] == RBRACE {
        depth := depth - 1;
        offset := offset + 1;
        return true, Object([]);
      }
      if offset >= |content| {
        // The brace is not the last byte of a terminated text.
        assert false;
      }
      // Step back to the character in front of the first member.
      offset := offset - 1;
      var members;
      ok, members := ParseMembers();
      if ok {
        depth := depth - 1;
        offset := offset + 1;
      }
      value := Object(members);
    }

    /** The loop over the members, from the byte in front of the first name to the closing brace. */
    method ParseMembers() returns (ok: bool, members: seq<Member>)
      requires Valid() && offset + 1 < |content|
      modifies this
      ensures Valid()
      ensures var r := P.ParseMembers(content, old(offset) + 1, old(depth));
              ok == r.Done? && (ok ==> members == r.value && offset + 1 == r.next && depth == old(depth))
      decreases |content| - offset - 1, 3
    {
      hide P.ParseValue, P.Skip, P.ParseMembers, P.ParseName;
      members := [];
      ghost var whole := P.ParseMembers(content, offset + 1, depth);
      After0(whole);
      while true
        invariant Valid() && old(offset) <= offset && offset + 1 < |content| && depth == old(depth)
        invariant whole == After(members, P.ParseMembers(content, offset + 1, depth))
        decreases |content| - offset
      {
        MembersStep(content, offset + 1, depth, members);
        var name;
        ok, name := ParseName();
        if !ok {
          return;
        }
        var value;
        ok, value := ParseValue();
        if !ok {
          return;
        }
        members := members + [Member(name, value)];
        SkipWhitespace();
        if !(offset < |content| && content[offset] == COMMA) {
          break;
        }
      }
      ok := offset < |content| && content[offset] == RBRACE;
    }

    /** A member's name and colon, from the byte in front of it to the start of the value. */
    method ParseName() returns (ok: bool, name: bytes)
      requires Valid() && offset + 1 < |content|
      modifies `offset
      ensures Valid()
      ensures Matches(P.ParseName(content, old(offset) + 1), ok, name, old(depth))
    {
      hide S.ParseString, P.Skip, CString;
      offset := offset + 1;
      SkipWhitespace();
      ok, name := ParseString();
      if !ok {
        return;
      }
      SkipWhitespace();
      if offset >= |content| || content[offset] != COLON {
        return false, [];
      }
      offset := offset + 1;
      SkipWhitespace();
    }
  }

  /** cJSON_ParseWithOpts: skip a byte order mark and blanks, parse, and on request insist on the terminator. */
  method ParseWithOpts(text: bytes, requireEnd: bool) returns (ok: bool, value: Value, end: nat)
    requires 0 !in text
    ensures var r := P.ParseText(text, requireEnd);
            ok == r.Done? && (ok ==> value == r.value && end == r.next)
    ensures requireEnd ==> (ok <==> exists marked, x, v :: L.Denotes(text, marked, x, v))
    ensures requireEnd && ok ==> end == |text| && exists marked, x :: L.Denotes(text, marked, x, value)
  {
    hide P.ParseValue, P.Skip, L.Denotes;
    L.AcceptedIff(text);
    var buffer := new Buffer(text);
    if 4 < |buffer.content| && buffer.content[0..3] == [0xEF, 0xBB, 0xBF] {
      buffer.offset := 3;
    }
    buffer.SkipWhitespace();
    ok, value := buffer.ParseValue();
    end := buffer.offset;
    if ok && requireEnd {
      buffer.SkipWhitespace();
      end := buffer.offset;
      ok := end < |buffer.content| && buffer.content[end] == 0;
    }
  }

  ghost function After<T>(done: seq<T>, r: P.Parsed<seq<T>>): P.Parsed<seq<T>> {
    if r.Fail? then P.Fail else P.Done(done + r.value, r.next)
  }

  lemma {:induction false} After0<T>(r: P.Parsed<seq<T>>)
    ensures After([], r) == r
  {
    if r.Done? {
      assert [] + r.value == r.value;
    }
  }

  /** One round of the element loop, from `i`, after the elements `done`. */
  lemma {:induction false} ItemsStep(buf: bytes, i: nat, depth: nat, done: seq<Value>)
    requires i <= |buf|
    ensures var v := P.ParseValue(buf, P.Skip(buf, i), depth);
            var r := After(done, P.ParseItems(buf, i, depth));
            if v.Fail? then r.Fail?
            else
              var j := P.Skip(buf, v.next);
              if P.Peek(buf, j) == COMMA then r == After(done + [v.value], P.ParseItems(buf, j + 1, depth))
              else if P.Peek(buf, j) == RBRACKET then r == P.Done(done + [v.value], j + 1)
              else r.Fail?
  {
    hide P.ParseValue, P.Skip;
    var v := P.ParseValue(buf, P.Skip(buf, i), depth);
    if v.Done? {
      var j := P.Skip(buf, v.next);
      if P.Peek(buf, j) == COMMA {
        var rest := P.ParseItems(buf, j + 1, depth);
        assert rest.Done? ==> done + ([v.value] + rest.value) == done + [v.value] + rest.value;
      }
    }
  }

  /** One round of the member loop, from `i`, after the members `done`. */
  lemma {:induction false} MembersStep(buf: bytes, i: nat, depth: nat, done: seq<Member>)
    requires i <= |buf|
    ensures var name := P.ParseName(buf, i);
            var r := After(done, P.ParseMembers(buf, i, depth));
            if name.Fail? then r.Fail?
            else
              var v := P.ParseValue(buf, name.next, depth);
              if v.Fail? then r.Fail?
              else
                var more, j := done + [Member(name.value, v.value)], P.Skip(buf, v.next);
                if P.Peek(buf, j) == COMMA then r == After(more, P.ParseMembers(buf, j + 1, depth))
                else if P.Peek(buf, j) == RBRACE then r == P.Done(more, j + 1)
                else r.Fail?
  {
    hide P.ParseValue, P.Skip, P.ParseName;
    var name := P.ParseName(buf, i);
    if name.Done? {
      var v := P.ParseValue(buf, name.next, depth);
      if v.Done? {
        var m, j := Member(name.value, v.value), P.Skip(buf, v.next);
        if P.Peek(buf, j) == COMMA {
          var rest := P.ParseMembers(buf, j + 1, depth);
          assert rest.Done? ==> done + ([m] + rest.value) == done + [m] + rest.value;
        }
      }
    }
  }
}
