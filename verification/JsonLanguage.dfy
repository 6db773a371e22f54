/**
 The converse of JsonGrammar: whatever the parser accepts is a text of the language,
 read as the value that it denotes. Together they say exactly which texts are accepted.
 */
module JsonLanguage {
  import opened Bytes
  import J = Json
  import S = JsonString
  import N = JsonNumber
  import P = JsonParser
  import opened JsonGrammar

  // ---------- Blanks ----------

  lemma {:induction false} BlankBytes(buf: bytes, i: nat)
    requires i <= |buf|
    ensures forall k :: i <= k < P.BlankEnd(buf, i) ==> buf[k] <= 32
    decreases |buf| - i
  {
    if i < |buf| && buf[i] <= 32 {
      BlankBytes(buf, i + 1);
    }
  }

  /** What was skipped is a blank. */
  lemma {:induction false} Skipped(buf: bytes, i: nat) returns (w: Blank)
    requires Terminated(buf) && i < |buf|
    ensures At(buf, i, w) && P.Skip(buf, i) == i + |w|
  {
    BlankBytes(buf, i);
    w := buf[i..P.Skip(buf, i)];
  }

  lemma {:induction false} NotLast(buf: bytes, i: nat)
    requires Terminated(buf) && i < |buf| && buf[i] != 0
    ensures i + 1 < |buf|
  {
  }

  // ---------- Values ----------

  /** The tree stands at `i` and is what was read. */
  predicate IsRead(buf: bytes, i: nat, depth: nat, x: Syntax, r: P.Parsed<J.Value>) {
    && Valid(x) && Short(x) && At(buf, i, Text(x)) && depth + Depth(x) <= P.NESTING_LIMIT
    && Meaning(x).Some? && r == P.Done(Meaning(x).value, i + |Text(x)|)
  }

  predicate ItemsAreRead(buf: bytes, i: nat, depth: nat, items: seq<Item>, r: P.Parsed<seq<J.Value>>) {
    && items != [] && ValidItems(items) && ShortItems(items) && At(buf, i, ItemsText(items))
    && depth + ItemsDepth(items) <= P.NESTING_LIMIT
    && ItemsMeaning(items).Some? && r == P.Done(ItemsMeaning(items).value, i + |ItemsText(items)|)
  }

  predicate MembersAreRead(buf: bytes, i: nat, depth: nat, members: seq<Pair>, r: P.Parsed<seq<J.Member>>) {
    && members != [] && ValidMembers(members) && ShortMembers(members) && At(buf, i, MembersText(members))
    && depth + MembersDepth(members) <= P.NESTING_LIMIT
    && MembersMeaning(members).Some? && r == P.Done(MembersMeaning(members).value, i + |MembersText(members)|)
  }

  /** Whatever the parser reads as a value is one of the language. */
  lemma {:induction false} ValueIsSyntax(buf: bytes, i: nat, depth: nat) returns (x: Syntax)
    requires Terminated(buf) && i <= |buf| && depth <= P.NESTING_LIMIT && P.ParseValue(buf, i, depth).Done?
    ensures IsRead(buf, i, depth, x, P.ParseValue(buf, i, depth))
    decreases |buf| - i, 2
  {
    hide S.ParseString, N.ParseNumber, P.ParseArray, P.ParseObject, At, Terminated, S.Readable, S.Meaning,
         S.LiteralText, N.TakenNumeral, N.NumeralText, N.NumeralValue;
    if At(buf, i, P.NULL_TEXT) {
      x := NullWord;
    } else if At(buf, i, P.FALSE_TEXT) {
      x := FalseWord;
    } else if At(buf, i, P.TRUE_TEXT) {
      x := TrueWord;
    } else if P.Peek(buf, i) == QUOTE {
      assert forall k :: i <= k < |buf| - 1 ==> buf[k] != 0 by {
        NulIsLast(buf);
      }
      var es := S.StringIsLiteral(buf, i);
      x := Literal(es);
      ReadableIsTaken(es);
    } else if i < |buf| && (buf[i] == MINUS || IsDigit(buf[i])) {
      var n := N.NumberIsNumeral(buf, i);
      x := Numeral(n);
    } else if P.Peek(buf, i) == LBRACKET {
      x := ArrayIsSyntax(buf, i, depth);
    } else {
      x := ObjectIsSyntax(buf, i, depth);
    }
  }

  lemma {:induction false} NulIsLast(buf: bytes)
    requires Terminated(buf)
    ensures buf != [] && forall k :: 0 <= k < |buf| - 1 ==> buf[k] != 0
  {
  }

  lemma {:induction false} ReadableIsTaken(es: seq<S.Element>)
    requires S.Readable(es)
    ensures S.AllTaken(es)
  {
  }

  lemma {:induction false} ArrayIsSyntax(buf: bytes, i: nat, depth: nat) returns (x: Syntax)
    requires Terminated(buf) && i < |buf| && buf[i] == LBRACKET && depth <= P.NESTING_LIMIT
    requires P.ParseArray(buf, i, depth).Done?
    ensures IsRead(buf, i, depth, x, P.ParseArray(buf, i, depth))
    decreases |buf| - i, 1
  {
    hide P.ParseItems, P.Skip, At, Terminated, ItemsText, ItemsMeaning, ItemsDepth, ValidItems, ShortItems;
    NotLast(buf, i);
    OneByte(buf, i);
    var j := P.Skip(buf, i + 1);
    if P.Peek(buf, j) == RBRACKET {
      var w := Skipped(buf, i + 1);
      OneByte(buf, j);
      AtConcat(buf, i + 1, w, [RBRACKET]);
      AtConcat(buf, i, [LBRACKET], w + [RBRACKET]);
      x := NoItems(w);
    } else {
      SameItems(buf, i + 1, depth + 1);
      var items := ItemsAreSyntax(buf, i + 1, depth + 1);
      AtConcat(buf, i, [LBRACKET], ItemsText(items));
      x := Items(items);
    }
  }

  lemma {:induction false} OneByte(buf: bytes, i: nat)
    requires i < |buf|
    ensures At(buf, i, [buf[i]])
  {
  }

  lemma {:induction false} SameItems(buf: bytes, i: nat, depth: nat)
    requires i < |buf|
    ensures P.ParseItems(buf, P.Skip(buf, i), depth) == P.ParseItems(buf, i, depth)
  {
    hide P.Skip, P.ParseItems;
    SkipIsIdempotent(buf, i);
    ItemsRound(buf, i, depth);
    ItemsRound(buf, P.Skip(buf, i), depth);
  }

  lemma {:induction false} ItemsAreSyntax(buf: bytes, i: nat, depth: nat) returns (items: seq<Item>)
    requires Terminated(buf) && i < |buf| && depth <= P.NESTING_LIMIT && P.ParseItems(buf, i, depth).Done?
    ensures ItemsAreRead(buf, i, depth, items, P.ParseItems(buf, i, depth))
    decreases |buf| - i, 3
  {
    hide P.ParseValue, P.Skip, P.ParseItems, At, Terminated, Text, Meaning, Depth, Valid, Short, ItemsText,
         ItemsMeaning, ItemsDepth, ValidItems, ShortItems;
    ItemsRound(buf, i, depth);
    var before := Skipped(buf, i);
    var start := P.Skip(buf, i);
    var r := P.ParseValue(buf, start, depth);
    var x := ValueIsSyntax(buf, start, depth);
    var after := Behind(buf, r.next);
    var j := P.Skip(buf, r.next);
    OneByte(buf, j);
    var item := Item(before, x, after);
    if P.Peek(buf, j) == COMMA {
      NotLast(buf, j);
      var rest := ItemsAreSyntax(buf, j + 1, depth);
      items := [item] + rest;
      assert items[1..] == rest;
      ItemsText1(items);
      AtConcat(buf, j, [COMMA], ItemsText(rest));
    } else {
      items := [item];
      assert items[1..] == [];
      NoMore();
      ItemsText1(items);
    }
    AtItem(buf, i, item, if P.Peek(buf, j) == COMMA then [COMMA] + ItemsText(items[1..]) else [RBRACKET]);
  }

  lemma {:induction false} NoMore()
    ensures ValidItems([]) && ValidMembers([])
  {
  }

  /** After a value that the parser has read there is at least the terminator. */
  lemma {:induction false} Behind(buf: bytes, e: nat) returns (w: Blank)
    requires Terminated(buf) && e <= |buf| && P.Peek(buf, P.Skip(buf, e)) != -1
    ensures e < |buf| && At(buf, e, w) && P.Skip(buf, e) == e + |w| < |buf|
  {
    w := Skipped(buf, e);
  }

  lemma {:induction false} AtItem(buf: bytes, i: nat, x: Item, tail: bytes)
    requires At(buf, i, x.before) && At(buf, i + |x.before|, Text(x.value))
    requires At(buf, i + |x.before| + |Text(x.value)|, x.after)
    requires At(buf, i + |x.before| + |Text(x.value)| + |x.after|, tail)
    ensures At(buf, i, x.before + (Text(x.value) + (x.after + tail)))
  {
    hide At, Text;
    var start := i + |x.before|;
    AtConcat(buf, start + |Text(x.value)|, x.after, tail);
    AtConcat(buf, start, Text(x.value), x.after + tail);
    AtConcat(buf, i, x.before, Text(x.value) + (x.after + tail));
  }

  /** The first element and the rest, unfolded once. */
  lemma {:induction false} ItemsText1(items: seq<Item>)
    requires items != [] && Valid(items[0].value) && ValidItems(items[1..])
    ensures ValidItems(items)
    ensures ShortItems(items) <==> Short(items[0].value) && ShortItems(items[1..])
    ensures ItemsText(items) == items[0].before + (Text(items[0].value) + (items[0].after + (
              if |items| == 1 then [RBRACKET] else [COMMA] + ItemsText(items[1..]))))
    ensures ItemsDepth(items) == J.Max(Depth(items[0].value), ItemsDepth(items[1..]))
    ensures ItemsMeaning(items) == var v, rest := Meaning(items[0].value), ItemsMeaning(items[1..]);
              if v.None? || rest.None? then None else Some([v.value] + rest.value)
    ensures |items| == 1 ==> ItemsMeaning(items[1..]) == Some([]) && ItemsDepth(items[1..]) == 0
    ensures |items| == 1 ==> ShortItems(items[1..]) && forall v: J.Value :: [v] + [] == [v]
  {
    hide Text, Meaning, Depth, Valid, Short;
  }

  lemma {:induction false} ObjectIsSyntax(buf: bytes, i: nat, depth: nat) returns (x: Syntax)
    requires Terminated(buf) && i < |buf| && buf[i] == LBRACE && depth <= P.NESTING_LIMIT
    requires P.ParseObject(buf, i, depth).Done?
    ensures IsRead(buf, i, depth, x, P.ParseObject(buf, i, depth))
    decreases |buf| - i, 1
  {
    hide P.ParseMembers, P.Skip, At, Terminated, MembersText, MembersMeaning, MembersDepth, ValidMembers, ShortMembers;
    NotLast(buf, i);
    OneByte(buf, i);
    var j := P.Skip(buf, i + 1);
    if P.Peek(buf, j) == RBRACE {
      var w := Skipped(buf, i + 1);
      OneByte(buf, j);
      AtConcat(buf, i + 1, w, [RBRACE]);
      AtConcat(buf, i, [LBRACE], w + [RBRACE]);
      x := NoMembers(w);
    } else {
      SameMembers(buf, i + 1, depth + 1);
      var members := MembersAreSyntax(buf, i + 1, depth + 1);
      AtConcat(buf, i, [LBRACE], MembersText(members));
      x := Members(members);
    }
  }

  lemma {:induction false} SameMembers(buf: bytes, i: nat, depth: nat)
    requires i < |buf|
    ensures P.ParseMembers(buf, P.Skip(buf, i), depth) == P.ParseMembers(buf, i, depth)
  {
    hide P.Skip, P.ParseMembers, P.ParseName;
    SameName(buf, i);
    MembersRound(buf, i, depth);
    MembersRound(buf, P.Skip(buf, i), depth);
  }

  lemma {:induction false} SameName(buf: bytes, i: nat)
    requires i < |buf|
    ensures P.ParseName(buf, P.Skip(buf, i)) == P.ParseName(buf, i)
  {
    hide P.Skip, S.ParseString;
    SkipIsIdempotent(buf, i);
  }

  /** A name that was read, with its blanks and its colon; the value and the blank behind it are still to come. */
  lemma {:induction false} NameIsPair(buf: bytes, i: nat) returns (p: Pair)
    requires Terminated(buf) && i < |buf| && P.ParseName(buf, i).Done?
    ensures S.Readable(p.name) && At(buf, i, NameText(p)) && StringMeaning(p.name).Some?
    ensures P.ParseName(buf, i) == P.Done(StringMeaning(p.name).value, i + |NameText(p)|)
    ensures i + |NameText(p)| < |buf|
  {
    hide P.Skip, S.ParseString, At, Terminated, S.Meaning, S.LiteralText, CString, S.Readable;
    var before := Skipped(buf, i);
    var start := P.Skip(buf, i);
    NulIsLast(buf);
    var es := S.StringIsLiteral(buf, start);
    ReadableIsTaken(es);
    var e := start + |S.LiteralText(es)|;
    var beforeColon := Behind(buf, e);
    var j := P.Skip(buf, e);
    NotLast(buf, j);
    OneByte(buf, j);
    var afterColon := Skipped(buf, j + 1);
    p := Pair(before, es, beforeColon, afterColon, NullWord, []);
    AtConcat(buf, j, [COLON], afterColon);
    AtConcat(buf, e, beforeColon, [COLON] + afterColon);
    AtConcat(buf, start, S.LiteralText(es), beforeColon + ([COLON] + afterColon));
    AtConcat(buf, i, before, S.LiteralText(es) + (beforeColon + ([COLON] + afterColon)));
  }

  lemma {:induction false} MembersAreSyntax(buf: bytes, i: nat, depth: nat) returns (members: seq<Pair>)
    requires Terminated(buf) && i < |buf| && depth <= P.NESTING_LIMIT && P.ParseMembers(buf, i, depth).Done?
    ensures MembersAreRead(buf, i, depth, members, P.ParseMembers(buf, i, depth))
    decreases |buf| - i, 3
  {
    hide P.ParseValue, P.ParseName, P.Skip, P.ParseMembers, At, Terminated, Text, Meaning, Depth, Valid, Short, MembersText,
         MembersMeaning, MembersDepth, ValidMembers, ShortMembers, NameText, StringMeaning, S.Readable;
    MembersRound(buf, i, depth);
    var p := NameIsPair(buf, i);
    var start := i + |NameText(p)|;
    var r := P.ParseValue(buf, start, depth);
    var x := ValueIsSyntax(buf, start, depth);
    var after := Behind(buf, r.next);
    var j := P.Skip(buf, r.next);
    OneByte(buf, j);
    ReadableIsTaken(p.name);
    var pair := WithValue(p, x, after);
    if P.Peek(buf, j) == COMMA {
      NotLast(buf, j);
      var rest := MembersAreSyntax(buf, j + 1, depth);
      members := [pair] + rest;
      assert members[1..] == rest;
      MembersText1(members);
      AtConcat(buf, j, [COMMA], MembersText(rest));
    } else {
      members := [pair];
      assert members[1..] == [];
      NoMore();
      MembersText1(members);
    }
    AtPair(buf, i, pair, if P.Peek(buf, j) == COMMA then [COMMA] + MembersText(members[1..]) else [RBRACE]);
  }

  lemma {:induction false} WithValue(p: Pair, x: Syntax, after: Blank) returns (q: Pair)
    ensures q == p.(value := x, after := after) && NameText(q) == NameText(p)
  {
    q := p.(value := x, after := after);
  }

  lemma {:induction false} AtPair(buf: bytes, i: nat, x: Pair, tail: bytes)
    requires At(buf, i, NameText(x)) && At(buf, i + |NameText(x)|, Text(x.value))
    requires At(buf, i + |NameText(x)| + |Text(x.value)|, x.after)
    requires At(buf, i + |NameText(x)| + |Text(x.value)| + |x.after|, tail)
    ensures At(buf, i, NameText(x) + (Text(x.value) + (x.after + tail)))
  {
    hide At, Text, NameText;
    var start := i + |NameText(x)|;
    AtConcat(buf, start + |Text(x.value)|, x.after, tail);
    AtConcat(buf, start, Text(x.value), x.after + tail);
    AtConcat(buf, i, NameText(x), Text(x.value) + (x.after + tail));
  }

  /** The first member and the rest, unfolded once. */
  lemma {:induction false} MembersText1(members: seq<Pair>)
    requires members != [] && S.Readable(members[0].name) && Valid(members[0].value) && ValidMembers(members[1..])
    ensures ValidMembers(members) && S.AllTaken(members[0].name)
    ensures ShortMembers(members) <==> Short(members[0].value) && ShortMembers(members[1..])
    ensures MembersText(members) == NameText(members[0]) + (Text(members[0].value) + (members[0].after + (
              if |members| == 1 then [RBRACE] else [COMMA] + MembersText(members[1..]))))
    ensures MembersDepth(members) == J.Max(Depth(members[0].value), MembersDepth(members[1..]))
    ensures MembersMeaning(members) ==
            var name, v, rest := StringMeaning(members[0].name), Meaning(members[0].value), MembersMeaning(members[1..]);
            if name.None? || v.None? || rest.None? then None else Some([J.Member(name.value, v.value)] + rest.value)
    ensures |members| == 1 ==> MembersMeaning(members[1..]) == Some([]) && MembersDepth(members[1..]) == 0
    ensures |members| == 1 ==> ShortMembers(members[1..]) && forall m: J.Member :: [m] + [] == [m]
  {
    hide Text, Meaning, Depth, Valid, Short, NameText, StringMeaning;
  }

  // ---------- Texts ----------

  /** A text of the language that denotes `v` and that the parser can read. */
  predicate Denotes(text: bytes, marked: bool, x: Item, v: J.Value) {
    && Valid(x.value) && Short(x.value) && Depth(x.value) <= P.NESTING_LIMIT
    && DocumentText(marked, x) == text && Meaning(x.value) == Some(v)
  }

  /**
   Whatever part of a text is parsed, it is a text of the language up to where the
   parse ended, read as what it denotes; with the terminator required, it is all of it.
   */
  lemma {:induction false} AcceptedIsText(text: bytes, requireEnd: bool) returns (marked: bool, x: Item)
    requires 0 !in text && P.ParseText(text, requireEnd).Done?
    ensures var r := P.ParseText(text, requireEnd);
            r.next <= |text| && Denotes(text[..r.next], marked, x, r.value)
  {
    hide P.ParseValue, P.Skip, At, Text, Meaning, Depth, Valid, Short;
    var buf := text + [0];
    assert Terminated(buf);
    marked := |buf| > 4 && At(buf, 0, BYTE_ORDER_MARK);
    var start := |Mark(marked)|;
    var before := Skipped(buf, start);
    var i := P.Skip(buf, start);
    var v := ValueIsSyntax(buf, i, 0);
    var e := i + |Text(v)|;
    InText(buf, i, v);
    var after: Blank := [];
    if requireEnd {
      after := Skipped(buf, e);
    }
    x := Item(before, v, after);
    if marked {
      assert At(buf, 0, Mark(marked));
    } else {
      NothingThere(buf, 0);
    }
    NothingThere(buf, e);
    DocumentAt(buf, marked, x);
    assert buf[..e + |after|] == text[..e + |after|];
  }

  lemma {:induction false} NothingThere(buf: bytes, i: nat)
    requires i <= |buf|
    ensures At(buf, i, [])
  {
  }

  /** The text of a value does not reach the terminator. */
  lemma {:induction false} InText(buf: bytes, i: nat, x: Syntax)
    requires Terminated(buf) && Valid(x) && At(buf, i, Text(x))
    ensures i + |Text(x)| < |buf|
  {
    hide Text, Valid;
    NulFree(x);
    FirstByte(x);
    AtByte(buf, i, Text(x), |Text(x)| - 1);
    assert Text(x)[|Text(x)| - 1] in Text(x);
  }

  lemma {:induction false} DocumentAt(buf: bytes, marked: bool, x: Item)
    requires At(buf, 0, Mark(marked)) && At(buf, |Mark(marked)|, x.before)
    requires At(buf, |Mark(marked)| + |x.before|, Text(x.value))
    requires At(buf, |Mark(marked)| + |x.before| + |Text(x.value)|, x.after)
    ensures At(buf, 0, DocumentText(marked, x)) && buf[..|DocumentText(marked, x)|] == DocumentText(marked, x)
  {
    hide Text, At;
    var i := |Mark(marked)|;
    AtConcat(buf, i + |x.before|, Text(x.value), x.after);
    AtConcat(buf, i, x.before, Text(x.value) + x.after);
    AtConcat(buf, 0, Mark(marked), x.before + (Text(x.value) + x.after));
    AtFront(buf, DocumentText(marked, x));
  }

  lemma {:induction false} AtFront(buf: bytes, s: bytes)
    requires At(buf, 0, s)
    ensures buf[..|s|] == s
  {
  }

  /**
   Which texts are accepted, over all C strings: with the terminator required, a text
   is parsed as `v` if and only if it is a text of the language, nested at most 1000
   deep and with numerals of at most 63 characters, that denotes `v`.
   */
  lemma {:induction false} AcceptsExactly(text: bytes, v: J.Value)
    requires 0 !in text
    ensures P.ParseText(text, true) == P.Done(v, |text|) <==> exists marked, x :: Denotes(text, marked, x, v)
    ensures P.ParseText(text, true).Done? ==> P.ParseText(text, true).next == |text|
  {
    hide P.ParseText, Valid, Short, Depth, DocumentText, Meaning;
    if P.ParseText(text, true) == P.Done(v, |text|) {
      var marked, x := AcceptedIsText(text, true);
      assert text[..|text|] == text;
      assert Denotes(text, marked, x, v);
    }
    forall marked, x | Denotes(text, marked, x, v) ensures P.ParseText(text, true) == P.Done(v, |text|) {
      ParsesEveryText(marked, x, true);
    }
  }

  /** A text is accepted at all exactly when it denotes something, and then as that. */
  lemma {:induction false} AcceptedIff(text: bytes)
    requires 0 !in text
    ensures P.ParseText(text, true).Done? <==> exists marked, x, v :: Denotes(text, marked, x, v)
    ensures P.ParseText(text, true).Done? ==> exists marked, x :: Denotes(text, marked, x, P.ParseText(text, true).value)
  {
    hide P.ParseText, Denotes;
    var r := P.ParseText(text, true);
    if r.Done? {
      AcceptsExactly(text, r.value);
    }
    forall marked, x, v | Denotes(text, marked, x, v) ensures r.Done? {
      AcceptsExactly(text, v);
    }
  }
}
