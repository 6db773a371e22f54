/**
 The text that print_value writes for a value, and the round trip: parsing that
 text. PrintBuffer.dfy proves that the buffer printer writes exactly this text.
 */
module JsonRender {
  import opened Bytes
  import opened Json
  import S = JsonString
  import N = JsonNumber
  import P = JsonParser
  import G = JsonGrammar

  // ---------- The text ----------

  const TWO_63: int := 0x8000_0000_0000_0000
  const TWO_64: int := 0x1_0000_0000_0000_0000

  predicate IsInt64(x: real) {
    x.Floor as real == x && -TWO_63 <= x.Floor < TWO_63
  }

  /** The "%lu" conversion of a signed 64-bit integer. */
  function Unsigned64(x: real): (n: nat)
    requires IsInt64(x)
    ensures n < TWO_64
  {
    if x.Floor < 0 then x.Floor + TWO_64 else x.Floor
  }

  /** Characters that print_number's own buffer holds. */
  const NUMBER_MAX: nat := 25

  /** A conversion of the C library: for every number some literal that fits print_number's buffer. */
  type Conversion = f: real -> N.Numeral | forall x: real :: N.ValidNumeral(f(x)) && |N.NumeralText(f(x))| <= NUMBER_MAX
    witness (x: real) => N.Numeral(false, [48], false, [], N.NoExponent)

  /** "%1.15g" and "%1.17g"; nothing else is known of them. */
  const FORMAT_15: Conversion
  const FORMAT_17: Conversion

  /** The literal for a number that is no 64-bit integer: 15 digits unless they are not close enough. */
  function Formatted(x: real): (n: N.Numeral)
    ensures N.ValidNumeral(n) && |N.NumeralText(n)| <= NUMBER_MAX
  {
    if Close(N.NumeralValue(FORMAT_15(x)), x) then FORMAT_15(x) else FORMAT_17(x)
  }

  /** print_number */
  function NumberText(x: real): (r: bytes)
    ensures |r| > 0 && 0 !in r
  {
    if IsInt64(x) then N.Decimal(Unsigned64(x))
    else
      N.NumeralTokenBytes(Formatted(x));
      N.NumeralText(Formatted(x))
  }

  /** The number that a printed number is read back as. */
  function Arrival(x: real): real {
    if IsInt64(x) then Unsigned64(x) as real else N.NumeralValue(Formatted(x))
  }

  function HexDigit(d: nat): (b: byte)
    requires d < 16
    ensures S.HexVal(b) == d
  {
    if d < 10 then 48 + d else 87 + d
  }

  function EscapeByte(b: byte): (r: bytes)
    requires b != 0
    ensures |r| >= 1 && 0 !in r
  {
    if b > 31 && b != QUOTE && b != BACKSLASH then [b]
    else if b == BACKSLASH then [BACKSLASH, BACKSLASH]
    else if b == QUOTE then [BACKSLASH, QUOTE]
    else if b == BACKSPACE then [BACKSLASH, 98]
    else if b == FORMFEED then [BACKSLASH, 102]
    else if b == NEWLINE then [BACKSLASH, 110]
    else if b == RETURN then [BACKSLASH, 114]
    else if b == TAB then [BACKSLASH, 116]
    else [BACKSLASH, LETTER_U, 48, 48, HexDigit(b / 16), HexDigit(b % 16)]
  }

  function Escaped(s: bytes): (r: bytes)
    requires 0 !in s
    ensures |r| >= |s| && 0 !in r
  {
    if s == [] then [] else EscapeByte(s[0]) + Escaped(s[1..])
  }

  function Quoted(s: bytes): (r: bytes)
    requires 0 !in s
    ensures 0 !in r
  {
    [QUOTE] + Escaped(s) + [QUOTE]
  }

  function Tabs(n: nat): (r: bytes)
    ensures |r| == n && G.IsBlank(r) && G.IsSkipped(r)
  {
    seq(n, _ => TAB)
  }

  /** The text `s` in a formatted print, nothing in a compact one. */
  function Only(format: bool, s: bytes): bytes { if format then s else [] }

  /** A value that can be printed: its strings are C strings. */
  predicate Printable(v: Value)
    decreases v, 1
  {
    match v
    case String(s) => 0 !in s
    case Array(items) => PrintableItems(items)
    case Object(members) => PrintableMembers(members)
    case _ => true
  }

  predicate PrintableItems(items: seq<Value>)
    decreases items, 0
  {
    items == [] || (Printable(items[0]) && PrintableItems(items[1..]))
  }

  predicate PrintableMembers(members: seq<Member>)
    decreases members, 0
  {
    members == [] ||
    (0 !in members[0].name && Printable(members[0].value) && PrintableMembers(members[1..]))
  }

  function Render(v: Value, format: bool, depth: nat): (r: bytes)
    requires Printable(v)
    ensures |r| > 0 && 0 !in r
    decreases v, 1
  {
    match v
    case Null => P.NULL_TEXT
    case False => P.FALSE_TEXT
    case True => P.TRUE_TEXT
    case Number(x) => NumberText(x)
    case String(s) => Quoted(s)
    case Array(items) => [LBRACKET] + (RenderItems(items, format, depth + 1) + [RBRACKET])
    case Object(members) =>
      [LBRACE] + (Only(format, [NEWLINE]) +
      (RenderMembers(members, format, depth + 1) + (Only(format, Tabs(depth)) + [RBRACE])))
  }

  function Separator(format: bool): bytes { [COMMA] + Only(format, [SPACE]) }

  function RenderItems(items: seq<Value>, format: bool, depth: nat): (r: bytes)
    requires PrintableItems(items)
    ensures 0 !in r
    decreases items, 0
  {
    if items == [] then []
    else if |items| == 1 then Render(items[0], format, depth)
    else Render(items[0], format, depth) + (Separator(format) + RenderItems(items[1..], format, depth))
  }

  /** The part of a member before its value. */
  function RenderName(name: bytes, format: bool, depth: nat): (r: bytes)
    requires 0 !in name
    ensures 0 !in r
  {
    Only(format, Tabs(depth)) + (Quoted(name) + ([COLON] + Only(format, [TAB])))
  }

  /** The part of a member after its value. */
  function MemberEnd(last: bool, format: bool): bytes {
    (if last then [] else [COMMA]) + Only(format, [NEWLINE])
  }

  function RenderMembers(members: seq<Member>, format: bool, depth: nat): (r: bytes)
    requires PrintableMembers(members)
    ensures 0 !in r
    decreases members, 0
  {
    if members == [] then []
    else
      RenderName(members[0].name, format, depth) + (Render(members[0].value, format, depth) +
      (MemberEnd(|members| == 1, format) + RenderMembers(members[1..], format, depth)))
  }

  // ---------- The text as a tree of the grammar ----------

  function EscapeElement(b: byte): (e: S.Element)
    requires b != 0
    ensures S.WellFormed(e) && S.Taken(e) && S.ElementText(e) == EscapeByte(b)
    ensures e.Unit? ==> S.Code(e.hex) == b && b < 32
    ensures S.OneMeaning(e) == [b]
  {
    if b > 31 && b != QUOTE && b != BACKSLASH then S.Plain(b)
    else if b == BACKSLASH || b == QUOTE then S.Short(b)
    else if b == BACKSPACE then S.Short(98)
    else if b == FORMFEED then S.Short(102)
    else if b == NEWLINE then S.Short(110)
    else if b == RETURN then S.Short(114)
    else if b == TAB then S.Short(116)
    else S.Unit([48, 48, HexDigit(b / 16), HexDigit(b % 16)])
  }

  /** Of all literals of a byte the printed one is the shortest, and its digits are in lower case. */
  lemma {:induction false} EscapesAreShortest(b: byte, e: S.Element)
    requires b != 0 && S.WellFormed(e) && S.Taken(e) && S.OneMeaning(e) == [b]
    ensures |EscapeByte(b)| <= |S.ElementText(e)|
    ensures |EscapeByte(b)| > 1 ==> forall k :: 0 <= k < |EscapeByte(b)| ==> !(65 <= EscapeByte(b)[k] <= 90)
  {
    match e
    case Short(c) => assert S.ShortValue(c) == b;
    case _ =>
  }

  function Elements(s: bytes): (es: seq<S.Element>)
    requires 0 !in s
    ensures |es| == |s| && forall k :: 0 <= k < |s| ==> es[k] == EscapeElement(s[k])
  {
    seq(|s|, k requires 0 <= k < |s| => EscapeElement(s[k]))
  }

  lemma {:induction false} ElementsSpell(s: bytes)
    requires 0 !in s
    ensures S.AllWellFormed(Elements(s)) && S.Readable(Elements(s))
    ensures S.ElementsText(Elements(s)) == Escaped(s)
    ensures S.Meaning(Elements(s)) == Some(s)
  {
    hide S.Readable, S.Closes;
    var es := Elements(s);
    forall k | 0 <= k < |es| ensures S.WellFormed(es[k]) {
      assert es[k] == EscapeElement(s[k]);
    }
    S.WellFormedIsReadable(es);
    if s == [] {
    } else {
      ElementsSpell(s[1..]);
      assert es[1..] == Elements(s[1..]);
      assert es[0] == EscapeElement(s[0]);
      assert [s[0]] + s[1..] == s;
    }
  }

  /** The value that a printed value is read back as. */
  function ReadBack(v: Value): Value
    requires Printable(v)
    decreases v, 1
  {
    match v
    case Number(x) => Number(Arrival(x))
    case Array(items) => Array(ReadItems(items))
    case Object(members) => Object(ReadMembers(members))
    case _ => v
  }

  function ReadItems(items: seq<Value>): seq<Value>
    requires PrintableItems(items)
    decreases items, 0
  {
    if items == [] then [] else [ReadBack(items[0])] + ReadItems(items[1..])
  }

  function ReadMembers(members: seq<Member>): seq<Member>
    requires PrintableMembers(members)
    decreases members, 0
  {
    if members == [] then []
    else [Member(members[0].name, ReadBack(members[0].value))] + ReadMembers(members[1..])
  }

  function Syntax(v: Value, format: bool, depth: nat): G.Syntax
    requires Printable(v)
    decreases v, 1
  {
    match v
    case Null => G.NullWord
    case False => G.FalseWord
    case True => G.TrueWord
    case Number(x) => G.Numeral(NumberNumeral(x))
    case String(s) => G.Literal(Elements(s))
    case Array(items) => if items == [] then G.NoItems([]) else G.Items(SyntaxItems(items, format, depth + 1, []))
    case Object(members) =>
      if members == [] then G.NoMembers(Only(format, [NEWLINE] + Tabs(depth)))
      else G.Members(SyntaxMembers(members, format, depth + 1))
  }

  function SyntaxItems(items: seq<Value>, format: bool, depth: nat, before: G.Blank): (r: seq<G.Item>)
    requires PrintableItems(items)
    ensures |r| == |items|
    decreases items, 0
  {
    if items == [] then []
    else
      [G.Item(before, Syntax(items[0], format, depth), [])] +
      SyntaxItems(items[1..], format, depth, Only(format, [SPACE]))
  }

  function SyntaxMembers(members: seq<Member>, format: bool, depth: nat): (r: seq<G.Pair>)
    requires PrintableMembers(members) && depth > 0
    ensures |r| == |members|
    decreases members, 0
  {
    if members == [] then []
    else
      var after := if |members| == 1 then Only(format, [NEWLINE] + Tabs(depth - 1)) else [];
      [PairOf(members[0].name, Syntax(members[0].value, format, depth), after, format, depth)] +
      SyntaxMembers(members[1..], format, depth)
  }

  function PairOf(name: bytes, x: G.Syntax, after: G.Blank, format: bool, depth: nat): G.Pair
    requires 0 !in name
  {
    G.Pair(Only(format, [NEWLINE] + Tabs(depth)), Elements(name), [], Only(format, [TAB]), x, after)
  }

  function NumberNumeral(x: real): N.Numeral {
    if IsInt64(x) then N.Numeral(false, N.Decimal(Unsigned64(x)), false, [], N.NoExponent) else Formatted(x)
  }

  /** Integers of 64 bits are printed as they are, negative ones with 2^64 added; all others by the C library. */
  lemma {:induction false} IntegersArePrinted(n: int)
    ensures 0 <= n < TWO_63 ==> NumberText(n as real) == N.Decimal(n)
    ensures -TWO_63 <= n < 0 ==> NumberText(n as real) == N.Decimal(n + TWO_64)
    ensures n < -TWO_63 || TWO_63 <= n ==> NumberText(n as real) == N.NumeralText(Formatted(n as real))
  {
  }

  /** Every printed number is a literal that fits print_number's buffer and denotes what is read back. */
  lemma {:induction false} NumberSpells(x: real)
    ensures var n := NumberNumeral(x);
            && N.ValidNumeral(n) && N.TakenNumeral(n) && N.NumeralText(n) == NumberText(x) && |NumberText(x)| <= NUMBER_MAX
            && N.NumeralValue(n) == Arrival(x)
  {
    hide Unsigned64, IsInt64, N.NumeralText, N.NumeralValue, N.TakenNumeral;
    if IsInt64(x) {
      TwentyDigits();
      DecimalIsNumeral(Unsigned64(x));
      N.DecimalLength(Unsigned64(x), 20);
    }
  }

  lemma {:induction false} DecimalIsNumeral(k: nat)
    ensures var n := N.Numeral(false, N.Decimal(k), false, [], N.NoExponent);
            N.ValidNumeral(n) && N.NumeralText(n) == N.Decimal(k) && N.NumeralValue(n) == k as real
  {
    hide N.DigitsValue, N.Power;
    var d := N.Decimal(k);
    N.DecimalValue(k);
    assert d + [] == d && [] + d == d;
    assert N.Pow10(0) == 1.0;
    assert k == 0 ==> |d| == 1;
  }

  lemma {:induction false} TwentyDigits()
    ensures TWO_64 < N.Power(10, 20)
  {
    assert N.Power(10, 4) == 10000;
    assert N.Power(10, 8) == 100000000;
    assert N.Power(10, 12) == 1000000000000;
    assert N.Power(10, 16) == 10000000000000000;
    assert N.Power(10, 20) == 100000000000000000000;
  }

  /** The syntax tree is valid, spells the rendered text, denotes the read-back value and is as deep as the value. */
  lemma {:induction false} Spells(v: Value, format: bool, depth: nat)
    requires Printable(v)
    ensures var x := Syntax(v, format, depth);
            && G.Standard(x) && G.Valid(x) && G.Short(x) && G.Text(x) == Render(v, format, depth)
            && G.Meaning(x) == Some(ReadBack(v)) && G.Depth(x) == Depth(v)
    decreases v, 1
  {
    hide N.NumeralText, N.NumeralValue, N.ValidNumeral, N.TakenNumeral, NumberText, NumberNumeral, Arrival, CString,
         S.Readable, S.AllWellFormed;
    match v {
      case Number(x) => NumberSpells(x);
      case String(s) =>
        ElementsSpell(s);
        CStringIsWholeIffNulFree(s);
      case Array(items) => SpellsArray(items, format, depth);
      case Object(members) => SpellsObject(members, format, depth);
      case _ =>
    }
  }

  lemma {:induction false} SpellsArray(items: seq<Value>, format: bool, depth: nat)
    requires PrintableItems(items)
    ensures var v := Array(items);
            var x := Syntax(v, format, depth);
            && G.Standard(x) && G.Valid(x) && G.Short(x) && G.Text(x) == Render(v, format, depth)
            && G.Meaning(x) == Some(ReadBack(v)) && G.Depth(x) == Depth(v)
    decreases items, 2
  {
    hide G.ItemsText, G.ItemsMeaning, G.ItemsDepth, G.ValidItems, G.ShortItems, G.StandardItems, ItemsDepth,
         SyntaxItems, ReadItems, RenderItems, PrintableItems, G.IsBlank;
    if items == [] {
      SpellsEmptyArray(format, depth);
    } else {
      assert G.IsBlank([]) by {
        EmptyIsBlank();
      }
      SpellsItems(items, format, depth + 1, []);
      assert [] + (RenderItems(items, format, depth + 1) + [RBRACKET]) == RenderItems(items, format, depth + 1) + [RBRACKET];
    }
  }

  lemma {:induction false} EmptyIsBlank()
    ensures G.IsBlank([])
  {
  }

  lemma {:induction false} SpellsEmptyArray(format: bool, depth: nat)
    ensures var v := Array([]);
            var x := Syntax(v, format, depth);
            && Printable(v) && G.Standard(x) && G.Valid(x) && G.Short(x) && G.Text(x) == Render(v, format, depth)
            && G.Meaning(x) == Some(ReadBack(v)) && G.Depth(x) == Depth(v)
  {
    NoItemsDepth();
  }

  lemma {:induction false} NoItemsDepth()
    ensures ItemsDepth([]) == 0 && MembersDepth([]) == 0
  {
  }

  lemma {:induction false} RegroupItem(before: bytes, text: bytes, space: bytes, more: bytes)
    ensures before + (text + ([] + ([COMMA] + (space + (more + [RBRACKET]))))) ==
            before + ((text + (([COMMA] + space) + more)) + [RBRACKET])
  {
  }

  lemma {:induction false} RegroupLastMember(newline: bytes, name: bytes, text: bytes, after: bytes, close: bytes)
    requires after + [RBRACE] == newline + close
    ensures (newline + name) + (text + (after + [RBRACE])) == newline + ((name + (text + newline)) + close)
  {
  }

  lemma {:induction false} RegroupMember(newline: bytes, name: bytes, text: bytes, more: bytes, close: bytes)
    ensures (newline + name) + (text + ([] + ([COMMA] + (newline + (more + close))))) ==
            newline + ((name + (text + (([COMMA] + newline) + more))) + close)
  {
  }

  lemma {:induction false} SpellsItems(items: seq<Value>, format: bool, depth: nat, before: G.Blank)
    requires items != [] && PrintableItems(items) && G.IsBlank(before)
    ensures var xs := SyntaxItems(items, format, depth, before);
            && G.StandardItems(xs) && G.ValidItems(xs) && G.ShortItems(xs)
            && G.ItemsText(xs) == before + (RenderItems(items, format, depth) + [RBRACKET])
            && G.ItemsMeaning(xs) == Some(ReadItems(items)) && G.ItemsDepth(xs) == ItemsDepth(items)
    decreases items, 0
  {
    hide G.Valid, G.Short, G.Standard, G.Text, G.Meaning, G.Depth, Depth, Render, ReadBack, Syntax, Printable;
    var v, rest, space := items[0], items[1..], Only(format, [SPACE]);
    var xs, ys := SyntaxItems(items, format, depth, before), SyntaxItems(rest, format, depth, space);
    assert xs[0] == G.Item(before, Syntax(v, format, depth), []) && xs[1..] == ys;
    Spells(v, format, depth);
    var text := Render(v, format, depth);
    if |items| == 1 {
      assert rest == [] && ys == [];
      assert [] + [RBRACKET] == [RBRACKET];
      assert [ReadBack(v)] + [] == [ReadBack(v)];
    } else {
      SpellsItems(rest, format, depth, space);
      RegroupItem(before, text, space, RenderItems(rest, format, depth));
    }
  }

  lemma {:induction false} SpellsObject(members: seq<Member>, format: bool, depth: nat)
    requires PrintableMembers(members)
    ensures var v := Object(members);
            var x := Syntax(v, format, depth);
            && G.Standard(x) && G.Valid(x) && G.Short(x) && G.Text(x) == Render(v, format, depth)
            && G.Meaning(x) == Some(ReadBack(v)) && G.Depth(x) == Depth(v)
    decreases members, 2
  {
    hide G.MembersText, G.MembersMeaning, G.MembersDepth, G.ValidMembers, G.ShortMembers, G.StandardMembers, MembersDepth,
         SyntaxMembers, ReadMembers, RenderMembers, PrintableMembers, Tabs;
    if members == [] {
      SpellsEmptyObject(format, depth);
    } else {
      SpellsMembers(members, format, depth + 1);
    }
  }

  lemma {:induction false} SpellsEmptyObject(format: bool, depth: nat)
    ensures var v := Object([]);
            var x := Syntax(v, format, depth);
            && Printable(v) && G.Standard(x) && G.Valid(x) && G.Short(x) && G.Text(x) == Render(v, format, depth)
            && G.Meaning(x) == Some(ReadBack(v)) && G.Depth(x) == Depth(v)
  {
    hide Tabs;
    var newline, tabs := Only(format, [NEWLINE]), Only(format, Tabs(depth));
    NoItemsDepth();
    assert Only(format, [NEWLINE] + Tabs(depth)) + [RBRACE] == newline + ([] + (tabs + [RBRACE]));
    assert Only(format, [NEWLINE] + Tabs(depth)) == newline + tabs;
  }

  lemma {:induction false} SpellsName(name: bytes, x: G.Syntax, after: G.Blank, format: bool, depth: nat)
    requires 0 !in name
    ensures var p := PairOf(name, x, after, format, depth);
            && S.AllWellFormed(p.name) && S.Readable(p.name) && G.StringMeaning(p.name) == Some(name)
            && G.NameText(p) == Only(format, [NEWLINE]) + RenderName(name, format, depth)
  {
    hide Tabs, Escaped, S.ElementsText, S.Meaning, Elements;
    var p := PairOf(name, x, after, format, depth);
    ElementsSpell(name);
    CStringIsWholeIffNulFree(name);
    NameRegroups(Only(format, [NEWLINE]), Only(format, Tabs(depth)), S.LiteralText(p.name), [COLON] + p.afterColon);
    assert p.before == Only(format, [NEWLINE]) + Only(format, Tabs(depth));
  }

  lemma {:induction false} NameRegroups(newline: bytes, tabs: bytes, literal: bytes, colon: bytes)
    ensures newline + tabs + (literal + ([] + colon)) == newline + (tabs + (literal + colon))
  {
    assert [] + colon == colon;
  }

  /** The rendered members as the grammar cuts them: from the line break before the first to the closing brace. */
  function MembersBody(members: seq<Member>, format: bool, depth: nat): bytes
    requires PrintableMembers(members) && depth > 0
  {
    Only(format, [NEWLINE]) + (RenderMembers(members, format, depth) + (Only(format, Tabs(depth - 1)) + [RBRACE]))
  }

  lemma {:induction false} MembersTextStep(members: seq<Member>, format: bool, depth: nat)
    requires members != [] && PrintableMembers(members) && depth > 0
    requires G.Text(Syntax(members[0].value, format, depth)) == Render(members[0].value, format, depth)
    requires |members| > 1 ==>
               G.MembersText(SyntaxMembers(members[1..], format, depth)) == MembersBody(members[1..], format, depth)
    ensures G.MembersText(SyntaxMembers(members, format, depth)) == MembersBody(members, format, depth)
  {
    hide G.Text, Render, Syntax, Printable, G.NameText, RenderName, Elements, Tabs, S.Readable, S.AllWellFormed,
         G.StringMeaning, G.IsSkipped;
    var m, rest := members[0], members[1..];
    var xs := SyntaxMembers(members, format, depth);
    assert xs[1..] == SyntaxMembers(rest, format, depth);
    SpellsName(m.name, xs[0].value, xs[0].after, format, depth);
    var newline, close := Only(format, [NEWLINE]), Only(format, Tabs(depth - 1)) + [RBRACE];
    var name, text := RenderName(m.name, format, depth), Render(m.value, format, depth);
    if |members| == 1 {
      assert rest == [] && RenderMembers(rest, format, depth) == [];
      assert MemberEnd(true, format) + [] == newline;
      assert RenderMembers(members, format, depth) == name + (text + newline);
      RegroupLastMember(newline, name, text, xs[0].after, close);
    } else {
      RegroupMember(newline, name, text, RenderMembers(rest, format, depth), close);
    }
  }

  lemma {:induction false} SpellsMembers(members: seq<Member>, format: bool, depth: nat)
    requires members != [] && PrintableMembers(members) && depth > 0
    ensures var xs := SyntaxMembers(members, format, depth);
            && G.StandardMembers(xs) && G.ValidMembers(xs) && G.ShortMembers(xs) && G.MembersText(xs) == MembersBody(members, format, depth)
            && G.MembersMeaning(xs) == Some(ReadMembers(members)) && G.MembersDepth(xs) == MembersDepth(members)
    decreases members, 0
  {
    hide G.Valid, G.Short, G.Standard, G.Text, G.Meaning, G.Depth, Depth, Render, ReadBack, Syntax, Printable,
         G.MembersText, MembersBody, G.StringMeaning, Elements, Tabs;
    var m, rest := members[0], members[1..];
    var xs := SyntaxMembers(members, format, depth);
    assert xs[1..] == SyntaxMembers(rest, format, depth);
    SpellsName(m.name, xs[0].value, xs[0].after, format, depth);
    Spells(m.value, format, depth);
    if |members| == 1 {
      assert rest == [] && xs[1..] == [];
      assert G.MembersMeaning([]) == Some([]) && G.MembersDepth([]) == 0;
    } else {
      SpellsMembers(rest, format, depth);
    }
    MembersTextStep(members, format, depth);
  }

  // ---------- The elements one by one ----------

  lemma {:induction false} PrintableArray(items: seq<Value>)
    ensures PrintableItems(items) <==> forall i :: 0 <= i < |items| ==> Printable(items[i])
  {
    if items == [] {
    } else {
      PrintableArray(items[1..]);
      var rest := items[1..];
      assert forall i :: 0 < i < |items| ==> items[i] == rest[i - 1];
    }
  }

  lemma {:induction false} ReadItemsAt(items: seq<Value>)
    requires PrintableItems(items)
    ensures var r := ReadItems(items);
            |r| == |items| && forall i :: 0 <= i < |items| ==> Printable(items[i]) && r[i] == ReadBack(items[i])
  {
    PrintableArray(items);
    if items == [] {
    } else {
      ReadItemsAt(items[1..]);
      var rest := items[1..];
      assert forall i :: 0 < i < |items| ==> items[i] == rest[i - 1];
    }
  }

  lemma {:induction false} ReadMembersAt(members: seq<Member>)
    requires PrintableMembers(members)
    ensures var r := ReadMembers(members);
            && |r| == |members|
            && forall i :: 0 <= i < |members| ==>
                 Printable(members[i].value) && r[i] == Member(members[i].name, ReadBack(members[i].value))
  {
    if members == [] {
    } else {
      ReadMembersAt(members[1..]);
      var rest := members[1..];
      assert forall i :: 0 < i < |members| ==> members[i] == rest[i - 1];
    }
  }

  // ---------- The round trip ----------

  /**
   Parsing the printed text of any printable value, formatted or not, consumes
   exactly that text. It yields the value with every negative integer replaced by
   that integer plus 2^64 and every number that is no 64-bit integer by the value
   of its printed text, and fails exactly when more than 1000 containers nest.
   */
  lemma {:induction false} RoundTrip(v: Value, format: bool, requireEnd: bool)
    requires Printable(v)
    ensures var text := Render(v, format, 0);
            P.ParseText(text, requireEnd) ==
            if Depth(v) <= P.NESTING_LIMIT then P.Done(ReadBack(v), |text|) else P.Fail
  {
    hide Render, P.ParseText, Syntax, G.Text, G.Meaning, G.Depth, Depth, ReadBack, G.Valid, G.Short, G.Standard;
    Spells(v, format, 0);
    var x := G.Item([], Syntax(v, format, 0), []);
    assert [] + (G.Text(x.value) + []) == G.Text(x.value);
    assert [] + (x.before + (G.Text(x.value) + x.after)) == G.Text(x.value);
    G.ParsesEveryText(false, x, requireEnd);
  }

  /** No integer of the tree is negative, and the text of every other number denotes it exactly. */
  predicate Survives(v: Value)
    decreases v, 1
  {
    match v
    case Number(x) => if IsInt64(x) then x >= 0.0 else N.NumeralValue(Formatted(x)) == x
    case Array(items) => SurvivesItems(items)
    case Object(members) => SurvivesMembers(members)
    case _ => true
  }

  predicate SurvivesItems(items: seq<Value>)
    decreases items, 0
  {
    items == [] || (Survives(items[0]) && SurvivesItems(items[1..]))
  }

  predicate SurvivesMembers(members: seq<Member>)
    decreases members, 0
  {
    members == [] || (Survives(members[0].value) && SurvivesMembers(members[1..]))
  }

  lemma {:induction false} ReadBackIsIdentity(v: Value)
    requires Printable(v)
    ensures ReadBack(v) == v <==> Survives(v)
    decreases v, 1
  {
    match v
    case Array(items) => ReadItemsIsIdentity(items);
    case Object(members) => ReadMembersIsIdentity(members);
    case _ =>
  }

  lemma {:induction false} ReadItemsIsIdentity(items: seq<Value>)
    requires PrintableItems(items)
    ensures ReadItems(items) == items <==> SurvivesItems(items)
    decreases items, 0
  {
    if items == [] {
    } else {
      ReadBackIsIdentity(items[0]);
      ReadItemsIsIdentity(items[1..]);
      assert items == [items[0]] + items[1..];
      assert ReadItems(items)[0] == ReadBack(items[0]) && ReadItems(items)[1..] == ReadItems(items[1..]);
    }
  }

  lemma {:induction false} ReadMembersIsIdentity(members: seq<Member>)
    requires PrintableMembers(members)
    ensures ReadMembers(members) == members <==> SurvivesMembers(members)
    decreases members, 0
  {
    if members == [] {
    } else {
      ReadBackIsIdentity(members[0].value);
      ReadMembersIsIdentity(members[1..]);
      assert members == [members[0]] + members[1..];
      assert ReadMembers(members)[0] == Member(members[0].name, ReadBack(members[0].value));
      assert ReadMembers(members)[1..] == ReadMembers(members[1..]);
    }
  }

  /** Printing and parsing give the value back exactly when it nests at most 1000 deep and its numbers survive. */
  lemma {:induction false} RoundTripsExactly(v: Value, format: bool, requireEnd: bool)
    requires Printable(v)
    ensures var text := Render(v, format, 0);
            P.ParseText(text, requireEnd) == P.Done(v, |text|) <==> Depth(v) <= P.NESTING_LIMIT && Survives(v)
  {
    hide Render, P.ParseText, Depth, ReadBack, Survives, Printable;
    RoundTrip(v, format, requireEnd);
    ReadBackIsIdentity(v);
  }
}
