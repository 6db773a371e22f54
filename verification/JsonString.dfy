/**
 String literals (section 7 of RFC 8259): what the literal means, and what
 parse_string computes from it.
 */
module JsonString {
  import opened Bytes

  // ---------- UTF-8 ----------

  type CodePoint = n: int | 0 <= n <= 0x10FFFF

  /** The table of section 3 of RFC 3629. */
  function Utf8(cp: CodePoint): (r: bytes)
    ensures 1 <= |r| <= 4
    ensures cp < 0x10000 ==> |r| <= 3
    ensures cp == 0 <==> 0 in r
  {
    if cp < 0x80 then [cp]
    else if cp < 0x800 then [0xC0 + cp / 64, 0x80 + cp % 64]
    else if cp < 0x10000 then [0xE0 + cp / 4096, 0x80 + cp / 64 % 64, 0x80 + cp % 64]
    else [0xF0 + cp / 262144, 0x80 + cp / 4096 % 64, 0x80 + cp / 64 % 64, 0x80 + cp % 64]
  }

  // ---------- Hexadecimal digits ----------

  function HexVal(b: byte): (v: int)
    ensures -1 <= v < 16
  {
    if 48 <= b <= 57 then b - 48
    else if 65 <= b <= 70 then b - 55
    else if 97 <= b <= 102 then b - 87
    else -1
  }

  predicate IsHex4(h: bytes) {
    |h| == 4 && forall k :: 0 <= k < 4 ==> HexVal(h[k]) >= 0
  }

  function HexCode(h: bytes): (c: int)
    requires IsHex4(h)
    ensures 0 <= c <= 0xFFFF
  {
    ((HexVal(h[0]) * 16 + HexVal(h[1])) * 16 + HexVal(h[2])) * 16 + HexVal(h[3])
  }

  predicate IsHigh(c: int) { 0xD800 <= c <= 0xDBFF }
  predicate IsLow(c: int) { 0xDC00 <= c <= 0xDFFF }

  function Join(hi: int, lo: int): CodePoint
    requires IsHigh(hi) && IsLow(lo)
  {
    0x10000 + (hi - 0xD800) * 1024 + (lo - 0xDC00)
  }

  // ---------- What a literal means ----------

  /**
   One element between the quotes: a plain byte, a two-character escape, or a UTF-16
   code unit. `Dangling` is a backslash that the closing quote completes; it is not
   part of the standard.
   */
  datatype Element = Plain(b: byte) | Short(c: byte) | Unit(hex: bytes) | Dangling

  /** The two-character escapes of section 7 of RFC 8259. */
  const SHORT: map<byte, byte> := map[
    QUOTE := QUOTE, BACKSLASH := BACKSLASH, SLASH := SLASH,
    98 := BACKSPACE, 102 := FORMFEED, 110 := NEWLINE, 114 := RETURN, 116 := TAB]

  predicate IsShort(c: byte) { c in SHORT }

  function ShortValue(c: byte): byte
    requires IsShort(c)
  {
    SHORT[c]
  }

  /** The elements of section 7 of RFC 8259. */
  predicate WellFormed(e: Element) {
    match e
    case Plain(b) => 0x20 <= b && b != QUOTE && b != BACKSLASH
    case Short(c) => IsShort(c)
    case Unit(hex) => IsHex4(hex)
    case Dangling => false
  }

  predicate AllWellFormed(es: seq<Element>) {
    forall k :: 0 <= k < |es| ==> WellFormed(es[k])
  }

  /** The elements that parse_string takes: control characters too, and code units of any four bytes. */
  predicate Taken(e: Element) {
    match e
    case Plain(b) => b != 0 && b != BACKSLASH
    case Short(c) => IsShort(c)
    case Unit(hex) => |hex| == 4 && 0 !in hex
    case Dangling => true
  }

  predicate AllTaken(es: seq<Element>) {
    forall k :: 0 <= k < |es| ==> Taken(es[k]) && (es[k].Dangling? ==> k == |es| - 1)
  }

  /** A quote after the text closes the literal: no quote before it stands alone, and no backslash is left over. */
  predicate Closes(s: bytes) {
    s == [] ||
    (if s[0] == BACKSLASH then |s| > 1 && Closes(s[2..]) else s[0] != QUOTE && Closes(s[1..]))
  }

  /** What can stand between the quotes of a literal that parse_string takes. */
  predicate Readable(es: seq<Element>) { AllTaken(es) && Closes(ElementsText(es)) }

  function ElementText(e: Element): (r: bytes)
    ensures |r| >= 1
  {
    match e
    case Plain(b) => [b]
    case Short(c) => [BACKSLASH, c]
    case Unit(hex) => [BACKSLASH, LETTER_U] + hex
    case Dangling => [BACKSLASH]
  }

  function ElementsText(es: seq<Element>): bytes {
    if es == [] then [] else ElementText(es[0]) + ElementsText(es[1..])
  }

  function LiteralText(es: seq<Element>): bytes {
    [QUOTE] + ElementsText(es) + [QUOTE]
  }

  /** The code unit of an escape; four bytes that are not all digits count as zero. */
  function Code(hex: bytes): (c: int)
    ensures 0 <= c <= 0xFFFF
  {
    if IsHex4(hex) then HexCode(hex) else 0
  }

  /**
   The UTF-8 encoding of the code points that the elements denote; a surrogate
   pair is one code point and a lone surrogate denotes nothing.
   */
  function Meaning(es: seq<Element>): Option<bytes>
    requires AllTaken(es)
  {
    if es == [] then Some([])
    else if es[0].Unit? && IsLow(Code(es[0].hex)) then None
    else if es[0].Unit? && IsHigh(Code(es[0].hex)) then
      if |es| > 1 && es[1].Unit? && IsLow(Code(es[1].hex)) then
        Prepend(Utf8(Join(Code(es[0].hex), Code(es[1].hex))), Meaning(es[2..]))
      else None
    else Prepend(OneMeaning(es[0]), Meaning(es[1..]))
  }

  function OneMeaning(e: Element): bytes
    requires Taken(e)
  {
    match e
    case Plain(b) => [b]
    case Short(c) => [ShortValue(c)]
    case Unit(hex) => Utf8(Code(hex))
    case Dangling => [QUOTE]
  }

  function Prepend(s: bytes, r: Option<bytes>): Option<bytes> {
    if r.None? then None else Some(s + r.value)
  }

  /** Every literal of the standard is readable. */
  lemma {:induction false} WellFormedIsReadable(es: seq<Element>)
    requires AllWellFormed(es)
    ensures Readable(es)
  {
    hide HexVal;
    forall k | 0 <= k < |es| ensures Taken(es[k]) && !es[k].Dangling? {
      assert WellFormed(es[k]);
      if es[k].Unit? {
        HexIsPlain(es[k].hex);
      }
    }
    if es == [] {
    } else {
      WellFormedIsReadable(es[1..]);
      assert WellFormed(es[0]);
      ClosesAfter(es[0], ElementsText(es[1..]));
    }
  }

  lemma {:induction false} HexIsPlain(hex: bytes)
    requires IsHex4(hex)
    ensures 0 !in hex && forall k :: 0 <= k < 4 ==> hex[k] != QUOTE && hex[k] != BACKSLASH
  {
    assert HexVal(hex[0]) >= 0 && HexVal(hex[1]) >= 0 && HexVal(hex[2]) >= 0 && HexVal(hex[3]) >= 0;
  }

  lemma {:induction false} ClosesAfter(e: Element, rest: bytes)
    requires WellFormed(e) && Closes(rest)
    ensures Closes(ElementText(e) + rest)
  {
    var s := ElementText(e) + rest;
    match e
    case Plain(b) => assert s[1..] == rest;
    case Short(c) => assert s[2..] == rest;
    case Unit(hex) =>
      HexIsPlain(hex);
      PlainCloses(hex, rest);
      assert s[2..] == hex + rest;
  }

  lemma {:induction false} PlainCloses(a: bytes, rest: bytes)
    requires Closes(rest) && forall k :: 0 <= k < |a| ==> a[k] != QUOTE && a[k] != BACKSLASH
    ensures Closes(a + rest)
  {
    if a == [] {
      assert a + rest == rest;
    } else {
      PlainCloses(a[1..], rest);
      assert (a + rest)[1..] == a[1..] + rest;
    }
  }

  /** An escape for code point zero is in the literal, or one that is no hexadecimal number. */
  predicate HasZeroEscape(es: seq<Element>) {
    exists i :: 0 <= i < |es| && es[i].Unit? && Code(es[i].hex) == 0
  }

  /** A decoded literal holds a NUL, and is cut short there for a C caller, exactly when it has such an escape. */
  lemma {:induction false} NulComesFromEscape(es: seq<Element>)
    requires AllTaken(es) && Meaning(es).Some?
    ensures 0 in Meaning(es).value <==> HasZeroEscape(es)
  {
    hide Code, Utf8;
    if es == [] {
    } else {
      var e := es[0];
      assert Taken(e);
      if e.Unit? && IsHigh(Code(e.hex)) {
        NulComesFromEscape(es[2..]);
        assert forall i :: 2 <= i < |es| ==> es[i] == es[2..][i - 2];
        assert HasZeroEscape(es) <==> HasZeroEscape(es[2..]);
      } else {
        NulComesFromEscape(es[1..]);
        assert forall i :: 1 <= i < |es| ==> es[i] == es[1..][i - 1];
        assert 0 in OneMeaning(e) <==> e.Unit? && Code(e.hex) == 0;
        assert HasZeroEscape(es) <==> (e.Unit? && Code(e.hex) == 0) || HasZeroEscape(es[1..]);
      }
    }
  }

  // ---------- What parse_string computes ----------

  /** parse_hex4: any character that is not a hexadecimal digit turns the whole number into 0. */
  function Hex4(buf: bytes, i: nat): (c: int)
    requires i + 4 <= |buf|
    ensures 0 <= c <= 0xFFFF
  {
    if IsHex4(buf[i..i + 4]) then HexCode(buf[i..i + 4]) else 0
  }

  /** The switch over two-character escapes; -1 for any other character. */
  function ShortMeaning(c: byte): (v: int)
    ensures -1 <= v < 256
    ensures v == if IsShort(c) then ShortValue(c) else -1
    ensures (c == LETTER_U ==> v == -1) && (c == QUOTE ==> v == QUOTE)
  {
    if c == 98 then BACKSPACE
    else if c == 102 then FORMFEED
    else if c == 110 then NEWLINE
    else if c == 114 then RETURN
    else if c == 116 then TAB
    else if c == QUOTE || c == BACKSLASH || c == SLASH then c
    else -1
  }

  datatype Literal16 = Bad | Good(length: nat, output: bytes)

  /** utf16_literal_to_utf8 on the escape that starts at `p` in a literal that ends at `end`. */
  function Utf16Literal(buf: bytes, p: nat, end: nat): (r: Literal16)
    requires p < end < |buf|
    ensures r.Good? ==> p + r.length <= end
    ensures r.Good? ==> (r.length == 6 && |r.output| <= 3) || (r.length == 12 && |r.output| <= 4)
  {
    if end - p < 6 then Bad
    else
      var first := Hex4(buf, p + 2);
      if IsLow(first) then Bad
      else if IsHigh(first) then
        if end - (p + 6) < 6 || buf[p + 6] != BACKSLASH || buf[p + 7] != LETTER_U then Bad
        else
          var second := Hex4(buf, p + 8);
          if !IsLow(second) then Bad else Good(12, Utf8(Join(first, second)))
      else Good(6, Utf8(first))
  }

  /** The first pass: the offset of the closing quote. */
  function FindEnd(buf: bytes, p: nat): (r: Option<nat>)
    ensures r.Some? ==> p <= r.value < |buf| && buf[r.value] == QUOTE
    decreases |buf| - p
  {
    if p >= |buf| then None
    else if buf[p] == QUOTE then Some(p)
    else if buf[p] == BACKSLASH then
      if p + 1 >= |buf| then None else FindEnd(buf, p + 2)
    else FindEnd(buf, p + 1)
  }

  /** The second pass: the bytes written for the text from `p` up to the closing quote. */
  function Unescape(buf: bytes, p: nat, end: nat): Option<bytes>
    requires end < |buf|
    decreases end - p
  {
    if p >= end then Some([])
    else if buf[p] != BACKSLASH then Prepend([buf[p]], Unescape(buf, p + 1, end))
    else if ShortMeaning(buf[p + 1]) >= 0 then
      Prepend([ShortMeaning(buf[p + 1])], Unescape(buf, p + 2, end))
    else if buf[p + 1] == LETTER_U then
      var u := Utf16Literal(buf, p, end);
      if u.Bad? then None else Prepend(u.output, Unescape(buf, p + u.length, end))
    else None
  }

  datatype ParsedString = NoString | GotString(output: bytes, next: nat)

  /** parse_string at offset `i`: the bytes put in the output buffer before its terminator, and the new offset. */
  function ParseString(buf: bytes, i: nat): (r: ParsedString)
    requires i < |buf|
    ensures r.GotString? ==> i + 2 <= r.next <= |buf| && buf[r.next - 1] == QUOTE
  {
    if buf[i] != QUOTE then NoString
    else
      var end := FindEnd(buf, i + 1);
      if end.None? then NoString
      else
        var out := Unescape(buf, i + 1, end.value);
        if out.None? then NoString else GotString(out.value, end.value + 1)
  }

  // ---------- parse_string decodes every readable literal ----------

  lemma {:induction false} ElementAt(buf: bytes, i: nat, e: Element, rest: bytes)
    requires At(buf, i, ElementText(e) + rest)
    ensures At(buf, i, ElementText(e)) && At(buf, i + |ElementText(e)|, rest)
    ensures e.Plain? ==> buf[i] == e.b
    ensures e.Short? ==> buf[i] == BACKSLASH && buf[i + 1] == e.c
    ensures e.Unit? ==> buf[i] == BACKSLASH && buf[i + 1] == LETTER_U && buf[i + 2..i + 2 + |e.hex|] == e.hex
    ensures e.Dangling? ==> buf[i] == BACKSLASH
  {
    AtConcat(buf, i, ElementText(e), rest);
    AtByte(buf, i, ElementText(e), 0);
    if e.Short? || e.Unit? {
      AtByte(buf, i, ElementText(e), 1);
    }
    if e.Unit? {
      AtConcat(buf, i, [BACKSLASH, LETTER_U], e.hex);
    }
  }

  lemma {:induction false} FindsEnd(buf: bytes, i: nat, s: bytes)
    requires Closes(s) && At(buf, i, s + [QUOTE])
    ensures FindEnd(buf, i) == Some(i + |s|)
    decreases |s|
  {
    hide At;
    AtByte(buf, i, s + [QUOTE], 0);
    if s == [] {
    } else {
      var n := if s[0] == BACKSLASH then 2 else 1;
      assert s + [QUOTE] == s[..n] + (s[n..] + [QUOTE]);
      AtConcat(buf, i, s[..n], s[n..] + [QUOTE]);
      FindsEnd(buf, i + n, s[n..]);
    }
  }

  lemma {:induction false} Unescapes(buf: bytes, i: nat, es: seq<Element>, end: nat)
    requires AllTaken(es) && end == i + |ElementsText(es)| && At(buf, i, ElementsText(es) + [QUOTE])
    ensures Unescape(buf, i, end) == Meaning(es)
    decreases |es|, 1
  {
    hide At, Utf16Literal, Utf8, Code, IsShort, ShortValue, ShortMeaning, IsHigh, IsLow;
    if es == [] {
    } else {
      var e, rest := es[0], ElementsText(es[1..]) + [QUOTE];
      assert Taken(e);
      assert ElementsText(es) + [QUOTE] == ElementText(e) + rest;
      ElementAt(buf, i, e, rest);
      assert |ElementsText(es)| == |ElementText(e)| + |ElementsText(es[1..])|;
      if e.Dangling? {
        assert es[1..] == [] && rest == [QUOTE];
        AtByte(buf, i + 1, rest, 0);
        assert Unescape(buf, i + 2, end) == Some([]);
      } else {
        Unescapes(buf, i + |ElementText(e)|, es[1..], end);
        if e.Unit? {
          UnescapesUnit(buf, i, es, end);
        }
      }
    }
  }

  lemma {:induction false} UnescapesUnit(buf: bytes, i: nat, es: seq<Element>, end: nat)
    requires es != [] && es[0].Unit? && AllTaken(es)
    requires end == i + |ElementsText(es)| && At(buf, i, ElementsText(es) + [QUOTE])
    requires buf[i] == BACKSLASH && buf[i + 1] == LETTER_U && buf[i + 2..i + 6] == es[0].hex
    requires At(buf, i + 6, ElementsText(es[1..]) + [QUOTE])
    requires Unescape(buf, i + 6, end) == Meaning(es[1..])
    ensures Unescape(buf, i, end) == Meaning(es)
    decreases |es|, 0
  {
    hide At, Utf8, HexCode, IsHex4, IsHigh, IsLow, Join, IsShort, ShortValue, ShortMeaning;
    var first := Code(es[0].hex);
    assert Taken(es[0]);
    assert |ElementsText(es)| == 6 + |ElementsText(es[1..])|;
    assert Hex4(buf, i + 2) == first;
    if IsHigh(first) && !IsLow(first) {
      if |es| > 1 {
        ReadsSecond(buf, i + 6, es[1..], end);
        if es[1].Unit? && IsLow(Code(es[1].hex)) {
          assert es[1..][1..] == es[2..];
          Unescapes(buf, i + 12, es[2..], end);
        }
      }
    }
  }

  /** What stands after a high surrogate: another code unit, or something that does not start with `\u`. */
  lemma {:induction false} ReadsSecond(buf: bytes, i: nat, es: seq<Element>, end: nat)
    requires es != [] && AllTaken(es) && end == i + |ElementsText(es)| && At(buf, i, ElementsText(es) + [QUOTE])
    ensures if es[0].Unit? then
              && i + 6 <= end && buf[i] == BACKSLASH && buf[i + 1] == LETTER_U && Hex4(buf, i + 2) == Code(es[0].hex)
              && At(buf, i + 6, ElementsText(es[1..]) + [QUOTE]) && end == i + 6 + |ElementsText(es[1..])|
            else i < end && (buf[i] != BACKSLASH || buf[i + 1] != LETTER_U)
  {
    hide At, HexCode, IsHex4, IsShort;
    var e, rest := es[0], ElementsText(es[1..]) + [QUOTE];
    assert Taken(e);
    assert ElementsText(es) + [QUOTE] == ElementText(e) + rest;
    ElementAt(buf, i, e, rest);
    assert ShortMeaning(LETTER_U) == -1;
    if e.Dangling? {
      assert es[1..] == [] && rest == [QUOTE];
      AtByte(buf, i + 1, rest, 0);
    }
  }

  /**
   Every readable literal, and so every literal of the standard, is decoded to the
   UTF-8 of its code points and consumed exactly; it is rejected exactly when it holds
   a lone surrogate.
   */
  lemma {:induction false} ParsesLiteral(buf: bytes, i: nat, es: seq<Element>)
    requires Readable(es) && At(buf, i, LiteralText(es))
    ensures ParseString(buf, i) ==
            if Meaning(es).None? then NoString else GotString(Meaning(es).value, i + |LiteralText(es)|)
  {
    hide FindEnd, Unescape, At, Meaning, ElementsText, Closes;
    var body := ElementsText(es) + [QUOTE];
    assert LiteralText(es) == [QUOTE] + body;
    AtConcat(buf, i, [QUOTE], body);
    AtByte(buf, i, [QUOTE], 0);
    FindsEnd(buf, i + 1, ElementsText(es));
    Unescapes(buf, i + 1, es, i + 1 + |ElementsText(es)|);
  }

  // ---------- Whatever parse_string takes is a readable literal ----------

  lemma {:induction false} EndCloses(buf: bytes, p: nat)
    requires p <= |buf| && FindEnd(buf, p).Some?
    ensures Closes(buf[p..FindEnd(buf, p).value])
    decreases |buf| - p
  {
    var end := FindEnd(buf, p).value;
    if buf[p] == QUOTE {
    } else {
      var n := if buf[p] == BACKSLASH then 2 else 1;
      EndCloses(buf, p + n);
      assert buf[p..end][n..] == buf[p + n..end];
    }
  }

  /** The elements of one step of the second pass. */
  lemma {:induction false} UnescapedElements(buf: bytes, p: nat, end: nat) returns (es: seq<Element>)
    requires p <= end < |buf| && buf[end] == QUOTE && Unescape(buf, p, end).Some?
    requires forall k :: p <= k < end ==> buf[k] != 0
    ensures AllTaken(es) && ElementsText(es) == buf[p..end] && Meaning(es) == Unescape(buf, p, end)
    decreases end - p
  {
    hide Utf16Literal, Utf8, Code, IsShort, ShortValue, ShortMeaning, IsHigh, IsLow, Meaning, ElementsText, AllTaken;
    LastElements();
    if p == end {
      es := [];
    } else if buf[p] != BACKSLASH {
      es := UnescapedElements(buf, p + 1, end);
      es := PutFirst(buf, p, end, Plain(buf[p]), es);
    } else if ShortMeaning(buf[p + 1]) >= 0 {
      if p + 1 == end {
        es := [Dangling];
        assert buf[p..end] == [BACKSLASH];
        assert Unescape(buf, p + 2, end) == Some([]) && [QUOTE] + [] == [QUOTE];
      } else {
        es := UnescapedElements(buf, p + 2, end);
        es := PutFirst(buf, p, end, Short(buf[p + 1]), es);
      }
    } else {
      es := UnescapedUnits(buf, p, end);
    }
  }

  lemma {:induction false} LastElements()
    ensures AllTaken([]) && ElementsText([]) == [] && Meaning([]) == Some([])
    ensures AllTaken([Dangling]) && ElementsText([Dangling]) == [BACKSLASH] && Meaning([Dangling]) == Some([QUOTE])
  {
    assert [Dangling][1..] == [] && [QUOTE] + [] == [QUOTE];
    assert [BACKSLASH] + [] == [BACKSLASH];
  }

  lemma {:induction false} PutFirst(buf: bytes, p: nat, end: nat, e: Element, rest: seq<Element>)
    returns (es: seq<Element>)
    requires p + |ElementText(e)| <= end <= |buf| && buf[p..p + |ElementText(e)|] == ElementText(e)
    requires Taken(e) && !e.Dangling? && AllTaken(rest) && ElementsText(rest) == buf[p + |ElementText(e)|..end]
    ensures es == [e] + rest && AllTaken(es) && ElementsText(es) == buf[p..end]
    ensures !e.Unit? ==> Meaning(es) == Prepend(OneMeaning(e), Meaning(rest))
  {
    hide OneMeaning, Code;
    es := [e] + rest;
    var n := p + |ElementText(e)|;
    assert es[1..] == rest;
    assert buf[p..end] == buf[p..n] + buf[n..end];
    forall k | 0 <= k < |es| ensures Taken(es[k]) && (es[k].Dangling? ==> k == |es| - 1) {
      assert k > 0 ==> es[k] == rest[k - 1];
    }
  }

  lemma {:induction false} UnescapedUnits(buf: bytes, p: nat, end: nat) returns (es: seq<Element>)
    requires p < end < |buf| && buf[end] == QUOTE && Unescape(buf, p, end).Some?
    requires buf[p] == BACKSLASH && ShortMeaning(buf[p + 1]) < 0
    requires forall k :: p <= k < end ==> buf[k] != 0
    ensures AllTaken(es) && ElementsText(es) == buf[p..end] && Meaning(es) == Unescape(buf, p, end)
    decreases end - p, 0
  {
    hide Utf8, HexCode, IsHex4, Join, IsHigh, IsLow, ShortMeaning, IsShort, ShortValue;
    var u := Utf16Literal(buf, p, end);
    var rest := UnescapedElements(buf, p + u.length, end);
    var first := UnitAt(buf, p, end);
    if u.length == 12 {
      var second := UnitAt(buf, p + 6, end);
      var tail := PutFirst(buf, p + 6, end, second, rest);
      es := PutFirst(buf, p, end, first, tail);
      assert es[1] == second && es[2..] == rest;
    } else {
      es := PutFirst(buf, p, end, first, rest);
      assert es[1..] == rest;
    }
  }

  lemma {:induction false} UnitAt(buf: bytes, p: nat, end: nat) returns (e: Element)
    requires p + 6 <= end < |buf| && buf[p] == BACKSLASH && buf[p + 1] == LETTER_U
    requires forall k :: p <= k < end ==> buf[k] != 0
    ensures e == Unit(buf[p + 2..p + 6]) && Taken(e) && buf[p..p + 6] == ElementText(e) && |ElementText(e)| == 6
    ensures Code(e.hex) == Hex4(buf, p + 2)
  {
    e := Unit(buf[p + 2..p + 6]);
    assert buf[p..p + 6] == [buf[p], buf[p + 1]] + buf[p + 2..p + 6];
  }

  /** Whatever parse_string reads is a readable literal with that meaning. */
  lemma {:induction false} StringIsLiteral(buf: bytes, i: nat) returns (es: seq<Element>)
    requires i < |buf| && ParseString(buf, i).GotString?
    requires forall k :: i <= k < |buf| - 1 ==> buf[k] != 0
    ensures Readable(es) && At(buf, i, LiteralText(es)) && Meaning(es).Some?
    ensures ParseString(buf, i) == GotString(Meaning(es).value, i + |LiteralText(es)|)
  {
    hide Unescape, FindEnd, Meaning, AllTaken, Closes, ElementsText;
    var end := FindEnd(buf, i + 1).value;
    EndCloses(buf, i + 1);
    es := UnescapedElements(buf, i + 1, end);
    assert buf[i..end + 1] == [QUOTE] + buf[i + 1..end] + [QUOTE];
  }
}
