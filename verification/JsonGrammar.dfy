/**
 The language that cJSON reads, as concrete syntax trees: the text each tree spells,
 with every optional blank, and the value it denotes. It is the JSON grammar of RFC
 8259, which the standard trees are, made wider: any control character is a blank,
 numbers and literals are less strict, and a byte order mark may come first. The
 main result here is that the parser reads every text of the language as the value
 it denotes; JsonLanguage.dfy has the converse.
 */
module JsonGrammar {
  import opened Bytes
  import J = Json
  import S = JsonString
  import N = JsonNumber
  import P = JsonParser

  /** What buffer_skip_whitespace passes over. */
  type Blank = s: bytes | IsSkipped(s)

  predicate IsSkipped(s: bytes) { forall k :: 0 <= k < |s| ==> 0 < s[k] <= 32 }

  /** The whitespace of section 2 of RFC 8259. */
  predicate IsBlank(s: bytes) {
    forall k :: 0 <= k < |s| ==> s[k] == SPACE || s[k] == TAB || s[k] == NEWLINE || s[k] == RETURN
  }

  datatype Syntax =
    | NullWord
    | FalseWord
    | TrueWord
    | Numeral(numeral: N.Numeral)
    | Literal(elements: seq<S.Element>)
    | NoItems(inside: Blank)
    | Items(items: seq<Item>)
    | NoMembers(inside: Blank)
    | Members(members: seq<Pair>)

  datatype Item = Item(before: Blank, value: Syntax, after: Blank)

  datatype Pair = Pair(before: Blank, name: seq<S.Element>, beforeColon: Blank, afterColon: Blank,
                       value: Syntax, after: Blank)

  // ---------- Text ----------

  function Text(x: Syntax): bytes
    decreases x, 1
  {
    match x
    case NullWord => P.NULL_TEXT
    case FalseWord => P.FALSE_TEXT
    case TrueWord => P.TRUE_TEXT
    case Numeral(n) => N.NumeralText(n)
    case Literal(es) => S.LiteralText(es)
    case NoItems(inside) => [LBRACKET] + (inside + [RBRACKET])
    case Items(items) => [LBRACKET] + ItemsText(items)
    case NoMembers(inside) => [LBRACE] + (inside + [RBRACE])
    case Members(members) => [LBRACE] + MembersText(members)
  }

  /** The items with their commas and the closing bracket. */
  function ItemsText(items: seq<Item>): bytes
    decreases items, 0
  {
    if items == [] then []
    else
      items[0].before + (Text(items[0].value) + (items[0].after + (
        if |items| == 1 then [RBRACKET] else [COMMA] + ItemsText(items[1..]))))
  }

  function NameText(p: Pair): bytes {
    p.before + (S.LiteralText(p.name) + (p.beforeColon + ([COLON] + p.afterColon)))
  }

  function MembersText(members: seq<Pair>): bytes
    decreases members, 0
  {
    if members == [] then []
    else
      NameText(members[0]) + (Text(members[0].value) + (members[0].after + (
        if |members| == 1 then [RBRACE] else [COMMA] + MembersText(members[1..]))))
  }

  // ---------- Well-formed trees ----------

  predicate Valid(x: Syntax)
    decreases x, 1
  {
    match x
    case Numeral(n) => N.TakenNumeral(n)
    case Literal(es) => S.Readable(es)
    case Items(items) => items != [] && ValidItems(items)
    case Members(members) => members != [] && ValidMembers(members)
    case _ => true
  }

  predicate ValidItems(items: seq<Item>)
    decreases items, 0
  {
    items == [] || (Valid(items[0].value) && ValidItems(items[1..]))
  }

  predicate ValidMembers(members: seq<Pair>)
    decreases members, 0
  {
    members == [] ||
    (S.Readable(members[0].name) && Valid(members[0].value) && ValidMembers(members[1..]))
  }

  /** The trees of RFC 8259. */
  predicate Standard(x: Syntax)
    decreases x, 1
  {
    match x
    case Numeral(n) => N.ValidNumeral(n)
    case Literal(es) => S.AllWellFormed(es)
    case NoItems(inside) => IsBlank(inside)
    case Items(items) => items != [] && StandardItems(items)
    case NoMembers(inside) => IsBlank(inside)
    case Members(members) => members != [] && StandardMembers(members)
    case _ => true
  }

  predicate StandardItems(items: seq<Item>)
    decreases items, 0
  {
    items == [] ||
    (IsBlank(items[0].before) && IsBlank(items[0].after) && Standard(items[0].value) && StandardItems(items[1..]))
  }

  predicate StandardMembers(members: seq<Pair>)
    decreases members, 0
  {
    members == [] ||
    (&& IsBlank(members[0].before) && IsBlank(members[0].beforeColon) && IsBlank(members[0].afterColon)
     && IsBlank(members[0].after) && S.AllWellFormed(members[0].name)
     && Standard(members[0].value) && StandardMembers(members[1..]))
  }

  lemma {:induction false} StandardIsValid(x: Syntax)
    requires Standard(x)
    ensures Valid(x)
    decreases x, 1
  {
    match x
    case Literal(es) => S.WellFormedIsReadable(es);
    case Items(items) => StandardItemsAreValid(items);
    case Members(members) => StandardMembersAreValid(members);
    case _ =>
  }

  lemma {:induction false} StandardItemsAreValid(items: seq<Item>)
    requires StandardItems(items)
    ensures ValidItems(items)
    decreases items, 0
  {
    if items == [] {
    } else {
      StandardIsValid(items[0].value);
      StandardItemsAreValid(items[1..]);
    }
  }

  lemma {:induction false} StandardMembersAreValid(members: seq<Pair>)
    requires StandardMembers(members)
    ensures ValidMembers(members)
    decreases members, 0
  {
    if members == [] {
    } else {
      S.WellFormedIsReadable(members[0].name);
      StandardIsValid(members[0].value);
      StandardMembersAreValid(members[1..]);
    }
  }

  /** No numeral of the tree is longer than the parser copies. */
  predicate Short(x: Syntax)
    decreases x, 1
  {
    match x
    case Numeral(n) => |N.NumeralText(n)| <= N.TOKEN_MAX
    case Items(items) => ShortItems(items)
    case Members(members) => ShortMembers(members)
    case _ => true
  }

  predicate ShortItems(items: seq<Item>)
    decreases items, 0
  {
    items == [] || (Short(items[0].value) && ShortItems(items[1..]))
  }

  predicate ShortMembers(members: seq<Pair>)
    decreases members, 0
  {
    members == [] || (Short(members[0].value) && ShortMembers(members[1..]))
  }

  // ---------- Meaning ----------

  /** The text that a C caller finds in a decoded string. */
  function StringMeaning(es: seq<S.Element>): Option<bytes>
    requires S.AllTaken(es)
  {
    var m := S.Meaning(es);
    if m.None? then None else Some(CString(m.value))
  }

  /** The value that the tree denotes; nothing when a string holds a lone surrogate. */
  function Meaning(x: Syntax): Option<J.Value>
    requires Valid(x)
    decreases x, 1
  {
    match x
    case NullWord => Some(J.Null)
    case FalseWord => Some(J.False)
    case TrueWord => Some(J.True)
    case Numeral(n) => Some(J.Number(N.NumeralValue(n)))
    case Literal(es) =>
      var s := StringMeaning(es);
      if s.None? then None else Some(J.String(s.value))
    case NoItems(_) => Some(J.Array([]))
    case Items(items) =>
      var vs := ItemsMeaning(items);
      if vs.None? then None else Some(J.Array(vs.value))
    case NoMembers(_) => Some(J.Object([]))
    case Members(members) =>
      var ms := MembersMeaning(members);
      if ms.None? then None else Some(J.Object(ms.value))
  }

  function ItemsMeaning(items: seq<Item>): Option<seq<J.Value>>
    requires ValidItems(items)
    decreases items, 0
  {
    if items == [] then Some([])
    else
      var v, rest := Meaning(items[0].value), ItemsMeaning(items[1..]);
      if v.None? || rest.None? then None else Some([v.value] + rest.value)
  }

  function MembersMeaning(members: seq<Pair>): Option<seq<J.Member>>
    requires ValidMembers(members)
    decreases members, 0
  {
    if members == [] then Some([])
    else
      var name, v, rest := StringMeaning(members[0].name), Meaning(members[0].value), MembersMeaning(members[1..]);
      if name.None? || v.None? || rest.None? then None else Some([J.Member(name.value, v.value)] + rest.value)
  }

  /** The value that the parser reads; nothing when a numeral is too long for it. */
  function ReadAs(x: Syntax): Option<J.Value>
    requires Valid(x)
  {
    if Short(x) then Meaning(x) else None
  }

  function ItemsReadAs(items: seq<Item>): Option<seq<J.Value>>
    requires ValidItems(items)
  {
    if ShortItems(items) then ItemsMeaning(items) else None
  }

  function MembersReadAs(members: seq<Pair>): Option<seq<J.Member>>
    requires ValidMembers(members)
  {
    if ShortMembers(members) then MembersMeaning(members) else None
  }

  function Depth(x: Syntax): nat
    decreases x, 1
  {
    match x
    case NoItems(_) => 1
    case Items(items) => 1 + ItemsDepth(items)
    case NoMembers(_) => 1
    case Members(members) => 1 + MembersDepth(members)
    case _ => 0
  }

  function ItemsDepth(items: seq<Item>): nat
    decreases items, 0
  {
    if items == [] then 0 else J.Max(Depth(items[0].value), ItemsDepth(items[1..]))
  }

  function MembersDepth(members: seq<Pair>): nat
    decreases members, 0
  {
    if members == [] then 0 else J.Max(Depth(members[0].value), MembersDepth(members[1..]))
  }

  // ---------- The parser reads every text of the grammar ----------

  function Expect<T>(m: Option<T>, depth: nat, next: nat): P.Parsed<T> {
    if m.None? || depth > P.NESTING_LIMIT then P.Fail else P.Done(m.value, next)
  }

  predicate LongNumeral(x: Syntax) { x.Numeral? && !Short(x) }

  /**
   What the parser makes of the tree at `i`: a long numeral is cut, so that the
   parse ends inside it; any other value is read whole or not at all.
   */
  predicate Reads(buf: bytes, r: P.Parsed<J.Value>, i: nat, x: Syntax, depth: nat)
    requires Valid(x)
  {
    if LongNumeral(x) then r.Done? && i < r.next < i + |Text(x)| && r.next < |buf| && N.IsTokenByte(buf[r.next])
    else r == Expect(ReadAs(x), depth + Depth(x), i + |Text(x)|)
  }

  lemma {:induction false} StopsInside(buf: bytes, e: nat)
    requires e < |buf| && N.IsTokenByte(buf[e])
    ensures P.Skip(buf, e) == e
    ensures P.Peek(buf, e) != COMMA && P.Peek(buf, e) != RBRACKET && P.Peek(buf, e) != RBRACE && P.Peek(buf, e) != 0
  {
  }

  lemma {:induction false} SkipsBlank(buf: bytes, i: nat, w: Blank)
    requires At(buf, i, w) && i + |w| < |buf| && buf[i + |w|] > 32
    ensures P.Skip(buf, i) == i + |w|
    decreases |w|
  {
    if w == [] {
    } else {
      AtByte(buf, i, w, 0);
      assert w == [w[0]] + w[1..];
      AtConcat(buf, i, [w[0]], w[1..]);
      SkipsBlank(buf, i + 1, w[1..]);
    }
  }

  /** A value starts with none of the bytes that end a list or count as blank. */
  lemma {:induction false} FirstByte(x: Syntax)
    requires Valid(x)
    ensures |Text(x)| > 0 && 32 < Text(x)[0] < 126 && Text(x)[0] != RBRACKET && Text(x)[0] != RBRACE
  {
    match x
    case Numeral(n) => N.NumeralStart(n);
    case _ =>
  }

  /** `e` can follow a value: the buffer goes on with a byte that does not extend a number. */
  predicate Delimited(buf: bytes, e: nat) {
    e < |buf| && !N.IsTokenByte(buf[e])
  }

  lemma {:induction false} ParsesSyntax(buf: bytes, i: nat, x: Syntax, depth: nat)
    requires Valid(x) && At(buf, i, Text(x)) && Delimited(buf, i + |Text(x)|) && depth <= P.NESTING_LIMIT
    ensures Reads(buf, P.ParseValue(buf, i, depth), i, x, depth)
    decreases x, 1
  {
    hide P.ParseValue, At, Delimited, N.NumeralText, S.LiteralText, StringMeaning, N.NumeralValue;
    match x {
      case NullWord => ParsesWord(buf, i, x, depth);
      case FalseWord => ParsesWord(buf, i, x, depth);
      case TrueWord => ParsesWord(buf, i, x, depth);
      case Numeral(n) => ParsesNumeral(buf, i, n, depth);
      case Literal(es) => ParsesLiteral(buf, i, es, depth);
      case NoItems(inside) => ParsesEmpty(buf, i, inside, depth, true);
      case Items(items) => ParsesItemsBetweenBrackets(buf, i, items, depth);
      case NoMembers(inside) => ParsesEmpty(buf, i, inside, depth, false);
      case Members(members) => ParsesMembersBetweenBraces(buf, i, members, depth);
    }
  }

  lemma {:induction false} ParsesWord(buf: bytes, i: nat, x: Syntax, depth: nat)
    requires (x.NullWord? || x.FalseWord? || x.TrueWord?) && At(buf, i, Text(x))
    ensures P.ParseValue(buf, i, depth) == Expect(Meaning(x), 0, i + |Text(x)|)
  {
    hide S.ParseString, N.ParseNumber, P.ParseArray, P.ParseObject;
    AtByte(buf, i, Text(x), 0);
  }

  lemma {:induction false} ParsesNumeral(buf: bytes, i: nat, n: N.Numeral, depth: nat)
    requires N.TakenNumeral(n) && At(buf, i, N.NumeralText(n)) && Delimited(buf, i + |N.NumeralText(n)|)
    requires depth <= P.NESTING_LIMIT
    ensures Reads(buf, P.ParseValue(buf, i, depth), i, Numeral(n), depth)
  {
    hide S.ParseString, N.ParseNumber, P.ParseArray, P.ParseObject, At, N.NumeralValue;
    N.ParsesNumeral(buf, i, n);
    N.NumeralStart(n);
    AtByte(buf, i, N.NumeralText(n), 0);
    NotWord(buf, i);
  }

  lemma {:induction false} ParsesLiteral(buf: bytes, i: nat, es: seq<S.Element>, depth: nat)
    requires S.Readable(es) && At(buf, i, S.LiteralText(es))
    ensures P.ParseValue(buf, i, depth) ==
            if StringMeaning(es).None? then P.Fail else P.Done(J.String(StringMeaning(es).value), i + |S.LiteralText(es)|)
  {
    hide S.ParseString, N.ParseNumber, P.ParseArray, P.ParseObject, At, S.Meaning, CString;
    S.ParsesLiteral(buf, i, es);
    AtByte(buf, i, S.LiteralText(es), 0);
    NotWord(buf, i);
  }

  /** An opening bracket or brace leads to the container's own parser. */
  lemma {:induction false} Opens(buf: bytes, i: nat, open: bytes, depth: nat)
    requires (open == [LBRACKET] || open == [LBRACE]) && At(buf, i, open)
    ensures buf[i] == open[0]
    ensures P.ParseValue(buf, i, depth) ==
            if buf[i] == LBRACKET then P.ParseArray(buf, i, depth) else P.ParseObject(buf, i, depth)
  {
    hide S.ParseString, N.ParseNumber, P.ParseArray, P.ParseObject, At;
    AtByte(buf, i, open, 0);
    NotWord(buf, i);
  }

  lemma {:induction false} ParsesEmpty(buf: bytes, i: nat, inside: Blank, depth: nat, isArray: bool)
    requires At(buf, i, if isArray then Text(NoItems(inside)) else Text(NoMembers(inside)))
    ensures P.ParseValue(buf, i, depth) ==
            if depth >= P.NESTING_LIMIT then P.Fail
            else P.Done(if isArray then J.Array([]) else J.Object([]), i + 2 + |inside|)
  {
    hide P.ParseValue, P.ParseItems, P.ParseMembers, P.Skip, At;
    var open, close := [if isArray then LBRACKET else LBRACE], [if isArray then RBRACKET else RBRACE];
    AtConcat(buf, i, open, inside + close);
    AtConcat(buf, i + 1, inside, close);
    AtByte(buf, i + 1 + |inside|, close, 0);
    Opens(buf, i, open, depth);
    SkipsBlank(buf, i + 1, inside);
  }

  /** A byte that starts none of the three words. */
  lemma {:induction false} NotWord(buf: bytes, i: nat)
    requires i < |buf| && buf[i] != 110 && buf[i] != 102 && buf[i] != 116
    ensures !At(buf, i, P.NULL_TEXT) && !At(buf, i, P.FALSE_TEXT) && !At(buf, i, P.TRUE_TEXT)
  {
    if At(buf, i, P.NULL_TEXT) { AtByte(buf, i, P.NULL_TEXT, 0); }
    if At(buf, i, P.FALSE_TEXT) { AtByte(buf, i, P.FALSE_TEXT, 0); }
    if At(buf, i, P.TRUE_TEXT) { AtByte(buf, i, P.TRUE_TEXT, 0); }
  }

  lemma {:induction false} SkipIsIdempotent(buf: bytes, i: nat)
    requires i < |buf|
    ensures P.Skip(buf, P.Skip(buf, i)) == P.Skip(buf, i)
  {
    if P.BlankEnd(buf, i) == |buf| {
      assert P.BlankEnd(buf, |buf| - 1) >= |buf| - 1;
    }
  }

  /** A value between blanks, with the byte that comes after them. */
  lemma {:induction false} ParsesBetweenBlanks(buf: bytes, i: nat, x: Syntax, after: Blank, tail: bytes, depth: nat)
    requires Valid(x) && At(buf, i, Text(x) + (after + tail)) && depth <= P.NESTING_LIMIT
    requires |tail| > 0 && tail[0] > 32 && !N.IsTokenByte(tail[0])
    ensures var e := i + |Text(x)|;
            && Reads(buf, P.ParseValue(buf, i, depth), i, x, depth)
            && e <= |buf| && P.Skip(buf, e) == e + |after|
            && At(buf, e + |after|, tail) && buf[e + |after|] == tail[0]
    decreases x, 2
  {
    hide P.ParseValue, P.Skip, At, Text, Reads, Depth, Valid;
    var e := i + |Text(x)|;
    AtConcat(buf, i, Text(x), after + tail);
    AtConcat(buf, e, after, tail);
    AtByte(buf, e, after + tail, 0);
    AtByte(buf, e + |after|, tail, 0);
    assert (after + tail)[0] == if after == [] then tail[0] else after[0];
    ParsesSyntax(buf, i, x, depth);
    SkipsBlank(buf, e, after);
  }

  function ItemsTail(items: seq<Item>): (r: bytes)
    requires items != []
    ensures r != [] && (r[0] == COMMA || r[0] == RBRACKET) && r[0] > 32 && !N.IsTokenByte(r[0])
  {
    if |items| == 1 then [RBRACKET] else [COMMA] + ItemsText(items[1..])
  }

  lemma {:induction false} ParsesItem(buf: bytes, i: nat, x: Item, tail: bytes, depth: nat)
    requires Valid(x.value) && At(buf, i, x.before + (Text(x.value) + (x.after + tail))) && depth <= P.NESTING_LIMIT
    requires |tail| > 0 && tail[0] > 32 && !N.IsTokenByte(tail[0])
    ensures var start := i + |x.before|;
            var e := start + |Text(x.value)|;
            && i < |buf| && P.Skip(buf, i) == start && start < |buf|
            && P.Peek(buf, start) != RBRACKET
            && Reads(buf, P.ParseValue(buf, start, depth), start, x.value, depth)
            && e <= |buf| && P.Skip(buf, e) == e + |x.after|
            && At(buf, e + |x.after|, tail) && buf[e + |x.after|] == tail[0]
    decreases x.value, 3
  {
    hide P.ParseValue, P.Skip, At, Text, Reads, Depth, Valid, IsSkipped;
    var body := Text(x.value) + (x.after + tail);
    var start := i + |x.before|;
    AtConcat(buf, i, x.before, body);
    FirstByte(x.value);
    AtByte(buf, start, body, 0);
    SkipsBlank(buf, i, x.before);
    ParsesBetweenBlanks(buf, start, x.value, x.after, tail, depth);
  }

  lemma {:induction false} ParsesItems(buf: bytes, i: nat, items: seq<Item>, depth: nat)
    requires items != [] && ValidItems(items) && At(buf, i, ItemsText(items)) && depth <= P.NESTING_LIMIT
    ensures P.ParseItems(buf, i, depth) == Expect(ItemsReadAs(items), depth + ItemsDepth(items), i + |ItemsText(items)|)
    ensures i < |buf| && P.Peek(buf, P.Skip(buf, i)) != RBRACKET
    decreases items, 0
  {
    hide P.ParseValue, P.Skip, At, Text, ReadAs, Depth, Valid, IsSkipped, ItemsText, ItemsReadAs, ItemsDepth, ItemsTail,
         ValidItems, P.ParseItems, LongNumeral, N.IsTokenByte;
    var item, tail := items[0], ItemsTail(items);
    ItemsParts(items);
    ParsesItem(buf, i, item, tail, depth);
    var j := i + |item.before| + |Text(item.value)| + |item.after|;
    if LongNumeral(item.value) {
      StopsInside(buf, P.ParseValue(buf, i + |item.before|, depth).next);
    } else if |items| > 1 {
      AtConcat(buf, j, [COMMA], ItemsText(items[1..]));
      ParsesItems(buf, j + 1, items[1..], depth);
    }
    ItemsRound(buf, i, depth);
  }

  /** One round of the loop over the elements. */
  lemma {:induction false} ItemsRound(buf: bytes, i: nat, depth: nat)
    requires i <= |buf|
    ensures var v := P.ParseValue(buf, P.Skip(buf, i), depth);
            P.ParseItems(buf, i, depth) ==
            if v.Fail? then P.Fail
            else
              var j := P.Skip(buf, v.next);
              if P.Peek(buf, j) == COMMA then
                var rest := P.ParseItems(buf, j + 1, depth);
                if rest.Fail? then P.Fail else P.Done([v.value] + rest.value, rest.next)
              else if P.Peek(buf, j) == RBRACKET then P.Done([v.value], j + 1)
              else P.Fail
  {
    hide P.ParseValue, P.Skip;
  }

  /** The first element and the rest. */
  lemma {:induction false} ItemsParts(items: seq<Item>)
    requires items != [] && ValidItems(items)
    ensures Valid(items[0].value) && (LongNumeral(items[0].value) ==> ItemsReadAs(items).None?)
    ensures ItemsText(items) == items[0].before + (Text(items[0].value) + (items[0].after + ItemsTail(items)))
    ensures |items| == 1 ==>
              && ItemsTail(items) == [RBRACKET] && ItemsDepth(items) == Depth(items[0].value)
              && ItemsReadAs(items) == if ReadAs(items[0].value).None? then None else Some([ReadAs(items[0].value).value])
    ensures |items| > 1 ==>
              && ItemsTail(items) == [COMMA] + ItemsText(items[1..]) && ValidItems(items[1..])
              && ItemsDepth(items) == J.Max(Depth(items[0].value), ItemsDepth(items[1..]))
              && ItemsReadAs(items) == var v, rest := ReadAs(items[0].value), ItemsReadAs(items[1..]);
                   if v.None? || rest.None? then None else Some([v.value] + rest.value)
  {
    hide Text, Meaning, Depth, Valid, Short;
    if |items| == 1 {
      assert items[1..] == [] && ItemsMeaning([]) == Some([]) && ItemsDepth([]) == 0 && ShortItems([]);
      assert Meaning(items[0].value).Some? ==> [Meaning(items[0].value).value] + [] == [Meaning(items[0].value).value];
    }
  }

  lemma {:induction false} ParsesFirstItem(buf: bytes, i: nat, items: seq<Item>, depth: nat)
    requires items != [] && ValidItems(items) && At(buf, i, ItemsText(items)) && depth <= P.NESTING_LIMIT
    ensures i < |buf| && P.Peek(buf, P.Skip(buf, i)) != RBRACKET
    ensures P.ParseItems(buf, P.Skip(buf, i), depth) ==
            Expect(ItemsReadAs(items), depth + ItemsDepth(items), i + |ItemsText(items)|)
    decreases items, 1
  {
    hide P.ParseValue, P.Skip, P.BlankEnd, At, ItemsText, ItemsReadAs, ItemsDepth;
    ParsesItems(buf, i, items, depth);
    SkipIsIdempotent(buf, i);
  }

  lemma {:induction false} ParsesItemsBetweenBrackets(buf: bytes, i: nat, items: seq<Item>, depth: nat)
    requires Valid(Items(items)) && At(buf, i, Text(Items(items))) && depth <= P.NESTING_LIMIT
    ensures P.ParseValue(buf, i, depth) ==
            Expect(ReadAs(Items(items)), depth + Depth(Items(items)), i + |Text(Items(items))|)
    decreases items, 2
  {
    hide P.ParseValue, P.ParseItems, P.Skip, At, ItemsText, ItemsMeaning, ItemsDepth;
    AtConcat(buf, i, [LBRACKET], ItemsText(items));
    Opens(buf, i, [LBRACKET], depth);
    if depth < P.NESTING_LIMIT {
      ParsesFirstItem(buf, i + 1, items, depth + 1);
    }
  }

  lemma {:induction false} LiteralStart(es: seq<S.Element>)
    ensures |S.LiteralText(es)| > 0 && S.LiteralText(es)[0] == QUOTE
  {
  }

  lemma {:induction false} ParsesName(buf: bytes, i: nat, p: Pair)
    requires S.Readable(p.name) && At(buf, i, NameText(p))
    requires i + |NameText(p)| < |buf| && buf[i + |NameText(p)|] > 32
    ensures P.ParseName(buf, i) ==
            if StringMeaning(p.name).None? then P.Fail else P.Done(StringMeaning(p.name).value, i + |NameText(p)|)
    ensures P.Peek(buf, P.Skip(buf, i)) == QUOTE
  {
    hide S.ParseString, P.Skip, At, S.Meaning, S.LiteralText, CString, IsSkipped;
    var colon := [COLON] + p.afterColon;
    var literal := S.LiteralText(p.name);
    LiteralStart(p.name);
    var start := i + |p.before|;
    var e := start + |literal|;
    AtConcat(buf, i, p.before, literal + (p.beforeColon + colon));
    AtConcat(buf, start, literal, p.beforeColon + colon);
    AtConcat(buf, e, p.beforeColon, colon);
    AtConcat(buf, e + |p.beforeColon|, [COLON], p.afterColon);
    AtByte(buf, start, literal, 0);
    AtByte(buf, e + |p.beforeColon|, [COLON], 0);
    SkipsBlank(buf, i, p.before);
    S.ParsesLiteral(buf, start, p.name);
    SkipsBlank(buf, e, p.beforeColon);
    SkipsBlank(buf, e + |p.beforeColon| + 1, p.afterColon);
  }

  function MembersTail(members: seq<Pair>): (r: bytes)
    requires members != []
    ensures r != [] && (r[0] == COMMA || r[0] == RBRACE) && r[0] > 32 && !N.IsTokenByte(r[0])
  {
    if |members| == 1 then [RBRACE] else [COMMA] + MembersText(members[1..])
  }

  lemma {:induction false} ParsesPair(buf: bytes, i: nat, x: Pair, tail: bytes, depth: nat)
    requires S.Readable(x.name) && Valid(x.value) && depth <= P.NESTING_LIMIT
    requires At(buf, i, NameText(x) + (Text(x.value) + (x.after + tail)))
    requires |tail| > 0 && tail[0] > 32 && !N.IsTokenByte(tail[0])
    ensures var start := i + |NameText(x)|;
            var e := start + |Text(x.value)|;
            && i < |buf| && P.Peek(buf, P.Skip(buf, i)) == QUOTE && start < |buf|
            && P.ParseName(buf, i) == Expect(StringMeaning(x.name), 0, start)
            && Reads(buf, P.ParseValue(buf, start, depth), start, x.value, depth)
            && e <= |buf| && P.Skip(buf, e) == e + |x.after|
            && At(buf, e + |x.after|, tail) && buf[e + |x.after|] == tail[0]
    decreases x.value, 3
  {
    hide P.ParseValue, P.ParseName, P.Skip, At, Text, Reads, Depth, Valid, IsSkipped, NameText, StringMeaning;
    var body := Text(x.value) + (x.after + tail);
    var start := i + |NameText(x)|;
    AtConcat(buf, i, NameText(x), body);
    FirstByte(x.value);
    AtByte(buf, start, body, 0);
    ParsesName(buf, i, x);
    ParsesBetweenBlanks(buf, start, x.value, x.after, tail, depth);
  }

  lemma {:induction false} ParsesMembers(buf: bytes, i: nat, members: seq<Pair>, depth: nat)
    requires members != [] && ValidMembers(members) && At(buf, i, MembersText(members)) && depth <= P.NESTING_LIMIT
    ensures P.ParseMembers(buf, i, depth) ==
            Expect(MembersReadAs(members), depth + MembersDepth(members), i + |MembersText(members)|)
    ensures i < |buf| && P.Peek(buf, P.Skip(buf, i)) == QUOTE
    decreases members, 0
  {
    hide P.ParseValue, P.ParseName, P.Skip, At, Text, ReadAs, Depth, Valid, IsSkipped, NameText, StringMeaning,
         MembersText, MembersReadAs, MembersDepth, MembersTail, ValidMembers, P.ParseMembers, LongNumeral, N.IsTokenByte;
    var p, tail := members[0], MembersTail(members);
    MembersParts(members);
    ParsesPair(buf, i, p, tail, depth);
    var j := i + |NameText(p)| + |Text(p.value)| + |p.after|;
    if LongNumeral(p.value) {
      StopsInside(buf, P.ParseValue(buf, i + |NameText(p)|, depth).next);
    } else if |members| > 1 {
      AtConcat(buf, j, [COMMA], MembersText(members[1..]));
      ParsesMembers(buf, j + 1, members[1..], depth);
    }
    MembersRound(buf, i, depth);
  }

  /** One round of the loop over the members. */
  lemma {:induction false} MembersRound(buf: bytes, i: nat, depth: nat)
    requires i <= |buf|
    ensures var name := P.ParseName(buf, i);
            name.Fail? ==> P.ParseMembers(buf, i, depth).Fail?
    ensures var name := P.ParseName(buf, i);
            name.Done? ==>
              var v := P.ParseValue(buf, name.next, depth);
              P.ParseMembers(buf, i, depth) ==
              if v.Fail? then P.Fail
              else
                var m, j := J.Member(name.value, v.value), P.Skip(buf, v.next);
                if P.Peek(buf, j) == COMMA then
                  var rest := P.ParseMembers(buf, j + 1, depth);
                  if rest.Fail? then P.Fail else P.Done([m] + rest.value, rest.next)
                else if P.Peek(buf, j) == RBRACE then P.Done([m], j + 1)
                else P.Fail
  {
    hide P.ParseValue, P.ParseName, P.Skip;
  }

  /** The first member and the rest. */
  lemma {:induction false} MembersParts(members: seq<Pair>)
    requires members != [] && ValidMembers(members)
    ensures S.Readable(members[0].name) && Valid(members[0].value)
    ensures LongNumeral(members[0].value) ==> MembersReadAs(members).None?
    ensures MembersText(members) ==
            NameText(members[0]) + (Text(members[0].value) + (members[0].after + MembersTail(members)))
    ensures |members| == 1 ==>
              && MembersTail(members) == [RBRACE] && MembersDepth(members) == Depth(members[0].value)
              && MembersReadAs(members) ==
                 var name, v := StringMeaning(members[0].name), ReadAs(members[0].value);
                 if name.None? || v.None? then None else Some([J.Member(name.value, v.value)])
    ensures |members| > 1 ==>
              && MembersTail(members) == [COMMA] + MembersText(members[1..]) && ValidMembers(members[1..])
              && MembersDepth(members) == J.Max(Depth(members[0].value), MembersDepth(members[1..]))
              && MembersReadAs(members) ==
                 var name, v, rest := StringMeaning(members[0].name), ReadAs(members[0].value), MembersReadAs(members[1..]);
                 if name.None? || v.None? || rest.None? then None else Some([J.Member(name.value, v.value)] + rest.value)
  {
    hide Text, Meaning, Depth, Valid, NameText, StringMeaning, Short;
    if |members| == 1 {
      assert members[1..] == [] && MembersMeaning([]) == Some([]) && MembersDepth([]) == 0 && ShortMembers([]);
      var name, v := StringMeaning(members[0].name), Meaning(members[0].value);
      assert name.Some? && v.Some? ==> [J.Member(name.value, v.value)] + [] == [J.Member(name.value, v.value)];
    }
  }

  lemma {:induction false} ParsesFirstMember(buf: bytes, i: nat, members: seq<Pair>, depth: nat)
    requires members != [] && ValidMembers(members) && At(buf, i, MembersText(members)) && depth <= P.NESTING_LIMIT
    ensures i < |buf| && P.Peek(buf, P.Skip(buf, i)) != RBRACE
    ensures P.ParseMembers(buf, P.Skip(buf, i), depth) ==
            Expect(MembersReadAs(members), depth + MembersDepth(members), i + |MembersText(members)|)
    decreases members, 1
  {
    hide P.ParseValue, S.ParseString, P.BlankEnd, P.Skip, At, MembersText, MembersReadAs, MembersDepth;
    ParsesMembers(buf, i, members, depth);
    SkipIsIdempotent(buf, i);
  }

  lemma {:induction false} ParsesMembersBetweenBraces(buf: bytes, i: nat, members: seq<Pair>, depth: nat)
    requires Valid(Members(members)) && At(buf, i, Text(Members(members))) && depth <= P.NESTING_LIMIT
    ensures P.ParseValue(buf, i, depth) ==
            Expect(ReadAs(Members(members)), depth + Depth(Members(members)), i + |Text(Members(members))|)
    decreases members, 2
  {
    hide P.ParseValue, P.ParseMembers, P.Skip, At, MembersText, MembersMeaning, MembersDepth;
    AtConcat(buf, i, [LBRACE], MembersText(members));
    Opens(buf, i, [LBRACE], depth);
    if depth < P.NESTING_LIMIT {
      ParsesFirstMember(buf, i + 1, members, depth + 1);
    }
  }

  const BYTE_ORDER_MARK: bytes := [0xEF, 0xBB, 0xBF]

  function Mark(marked: bool): bytes { if marked then BYTE_ORDER_MARK else [] }

  /** A JSON text: a value between blanks, with or without a byte order mark. */
  function DocumentText(marked: bool, x: Item): bytes {
    Mark(marked) + (x.before + (Text(x.value) + x.after))
  }

  /**
   The parser accepts every text of the language that is nested at most 1000 deep,
   holds no lone surrogate and no numeral of more than 63 characters, reads it as
   the value it denotes, and, when asked to require the terminator, stops exactly
   on it. It rejects all other texts of the language, but for a bare long numeral
   where the terminator is not required: that parse ends inside the numeral.
   */
  lemma {:induction false} ParsesEveryText(marked: bool, x: Item, requireEnd: bool)
    requires Valid(x.value)
    ensures 0 !in DocumentText(marked, x)
    ensures requireEnd || !LongNumeral(x.value) ==>
              var text := DocumentText(marked, x);
              P.ParseText(text, requireEnd) ==
              Expect(ReadAs(x.value), Depth(x.value), if requireEnd then |text| else |text| - |x.after|)
    ensures !requireEnd && LongNumeral(x.value) ==>
              var r := P.ParseText(DocumentText(marked, x), requireEnd);
              var start := |Mark(marked)| + |x.before|;
              r.Done? && start < r.next < start + |Text(x.value)|
  {
    hide P.ParseValue, P.Skip, At, Text, ReadAs, Depth, Valid, IsSkipped, DocumentText, LongNumeral, N.IsTokenByte;
    var text := DocumentText(marked, x);
    var buf := text + [0];
    NulFreeDocument(marked, x);
    MarkIsSeen(marked, x);
    ParsesDocument(buf, marked, x);
    if LongNumeral(x.value) {
      StopsInside(buf, P.ParseValue(buf, P.Skip(buf, |Mark(marked)|), 0).next);
      LongIsNotRead(x.value);
    }
  }

  lemma {:induction false} LongIsNotRead(x: Syntax)
    requires Valid(x) && LongNumeral(x)
    ensures ReadAs(x).None?
  {
  }

  lemma {:induction false} NulFreeDocument(marked: bool, x: Item)
    requires Valid(x.value)
    ensures 0 !in DocumentText(marked, x)
  {
    hide Text, Valid;
    NulFree(x.value);
  }

  lemma {:induction false} NulFree(x: Syntax)
    requires Valid(x)
    ensures 0 !in Text(x)
    decreases x, 1
  {
    match x
    case Numeral(n) => N.NumeralTokenBytes(n);
    case Literal(es) => NulFreeElements(es);
    case Items(items) => NulFreeItems(items);
    case Members(members) => NulFreeMembers(members);
    case _ =>
  }

  lemma {:induction false} NulFreeElements(es: seq<S.Element>)
    requires forall k :: 0 <= k < |es| ==> S.Taken(es[k])
    ensures 0 !in S.ElementsText(es)
  {
    if es == [] {
    } else {
      assert S.Taken(es[0]);
      NulFreeElements(es[1..]);
    }
  }

  lemma {:induction false} NulFreeItems(items: seq<Item>)
    requires ValidItems(items)
    ensures 0 !in ItemsText(items)
    decreases items, 0
  {
    hide Text, Valid;
    if items == [] {
    } else {
      NulFree(items[0].value);
      NulFreeItems(items[1..]);
    }
  }

  lemma {:induction false} NulFreeName(p: Pair)
    requires S.Readable(p.name)
    ensures 0 !in NameText(p)
  {
    hide S.ElementsText;
    NulFreeElements(p.name);
  }

  lemma {:induction false} NulFreeMembers(members: seq<Pair>)
    requires ValidMembers(members)
    ensures 0 !in MembersText(members)
    decreases members, 0
  {
    hide Text, Valid, NameText;
    if members == [] {
    } else {
      NulFreeName(members[0]);
      NulFree(members[0].value);
      NulFreeMembers(members[1..]);
    }
  }

  /** The mark is skipped exactly when it is there. */
  lemma {:induction false} MarkIsSeen(marked: bool, x: Item)
    requires Valid(x.value)
    ensures var buf := DocumentText(marked, x) + [0];
            (|buf| > 4 && At(buf, 0, BYTE_ORDER_MARK)) <==> marked
  {
    hide At, Text, Valid;
    FirstByte(x.value);
    var rest := x.before + (Text(x.value) + x.after);
    var buf := DocumentText(marked, x) + [0];
    if marked {
      assert buf == [] + BYTE_ORDER_MARK + (rest + [0]);
      AtMiddle([], BYTE_ORDER_MARK, rest + [0]);
    } else {
      assert [] + rest == rest;
      assert buf[0] == if x.before == [] then Text(x.value)[0] else x.before[0];
      if At(buf, 0, BYTE_ORDER_MARK) {
        AtByte(buf, 0, BYTE_ORDER_MARK, 0);
      }
    }
  }

  lemma {:induction false} AtDocument(buf: bytes, marked: bool, x: Item)
    requires buf == DocumentText(marked, x) + [0]
    ensures var i := |Mark(marked)|;
            && At(buf, i, x.before) && At(buf, i + |x.before|, Text(x.value))
            && At(buf, i + |x.before| + |Text(x.value)|, x.after)
            && |buf| == i + |x.before| + |Text(x.value)| + |x.after| + 1 && buf[|buf| - 1] == 0
  {
    hide At, Text;
    var i, rest := |Mark(marked)|, x.before + (Text(x.value) + x.after);
    AtMiddle(Mark(marked), rest, [0]);
    assert buf == Mark(marked) + rest + [0];
    AtConcat(buf, i, x.before, Text(x.value) + x.after);
    AtConcat(buf, i + |x.before|, Text(x.value), x.after);
  }

  lemma {:induction false} ParsesDocument(buf: bytes, marked: bool, x: Item)
    requires Valid(x.value) && buf == DocumentText(marked, x) + [0]
    ensures var i, e := |Mark(marked)|, |buf| - 1 - |x.after|;
            && i < |buf| && P.Skip(buf, i) == i + |x.before| && e == i + |x.before| + |Text(x.value)|
            && Reads(buf, P.ParseValue(buf, P.Skip(buf, i), 0), i + |x.before|, x.value, 0)
            && P.Skip(buf, e) == |buf| - 1
  {
    hide P.ParseValue, P.Skip, At, Text, Reads, Depth, Valid, DocumentText;
    var start, e := |Mark(marked)| + |x.before|, |buf| - 1 - |x.after|;
    AtDocument(buf, marked, x);
    FirstByte(x.value);
    AtByte(buf, start, Text(x.value), 0);
    SkipsBlank(buf, |Mark(marked)|, x.before);
    if x.after != [] {
      AtByte(buf, e, x.after, 0);
    }
    ParsesSyntax(buf, start, x.value, 0);
    SkipsToEnd(buf, e, x.after);
  }

  lemma {:induction false} SkipsToEnd(buf: bytes, i: nat, w: Blank)
    requires At(buf, i, w) && i + |w| + 1 == |buf| && buf[i + |w|] == 0
    ensures P.Skip(buf, i) == i + |w|
    decreases |w|
  {
    if w == [] {
    } else {
      AtByte(buf, i, w, 0);
      assert w == [w[0]] + w[1..];
      AtConcat(buf, i, [w[0]], w[1..]);
      SkipsToEnd(buf, i + 1, w[1..]);
    }
  }
}
