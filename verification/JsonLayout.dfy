/**
 The layout of printed text, described on the text alone: a reader that goes over the
 bytes, knows what is inside a string literal and which containers are open, and
 judges every run of blanks between two tokens.
 */
module JsonLayout {
  import opened Bytes
  import opened Json
  import N = JsonNumber
  import P = JsonParser
  import R = JsonRender

  // ---------- The reader ----------

  /** The last token, as far as it decides what comes next. */
  datatype Last = Brace | Comma | Colon | Other

  /**
   What the reader has seen: whether it is in a literal and after a backslash, the
   containers that are open, the last token, the blanks since then, whether all gaps
   were right, and all bytes but the blanks between tokens.
   */
  datatype View = View(quoted: bool, escaped: bool, open: bytes, last: Last, gap: bytes, right: bool, kept: bytes)

  const START: View := View(false, false, [], Other, [], true, [])

  function LastOf(b: byte): Last {
    if b == LBRACE then Brace else if b == COMMA then Comma else if b == COLON then Colon else Other
  }

  predicate InArray(open: bytes) { open != [] && open[|open| - 1] == LBRACKET }

  /** A line break and `n` tabs. */
  predicate IsLineBreak(gap: bytes, n: int) {
    n >= 0 && |gap| == n + 1 && gap[0] == NEWLINE && forall k :: 1 <= k < |gap| ==> gap[k] == TAB
  }

  /**
   The blanks that formatted text has before a token: in an object, each member is on a
   line of its own, with a tab for every open container, and the closing brace is on a
   line with one tab less; a comma between array elements is followed by a space, a
   colon by a tab; and there are no other blanks.
   */
  predicate IsRight(open: bytes, last: Last, b: byte, gap: bytes) {
    if b == RBRACE then IsLineBreak(gap, |open| - 1)
    else if last.Brace? || (last.Comma? && !InArray(open)) then IsLineBreak(gap, |open|)
    else if last.Comma? then gap == [SPACE]
    else if last.Colon? then gap == [TAB]
    else gap == []
  }

  function Opened(open: bytes, b: byte): bytes {
    if b == LBRACKET || b == LBRACE then open + [b]
    else if (b == RBRACKET || b == RBRACE) && open != [] then open[..|open| - 1]
    else open
  }

  function Step(z: View, b: byte): View {
    if z.quoted then
      z.(quoted := z.escaped || b != QUOTE, escaped := !z.escaped && b == BACKSLASH, kept := z.kept + [b])
    else if b <= 32 then z.(gap := z.gap + [b])
    else View(b == QUOTE, false, Opened(z.open, b), LastOf(b), [],
              z.right && IsRight(z.open, z.last, b, z.gap), z.kept + [b])
  }

  function Scan(z: View, t: bytes): View {
    if t == [] then z else Step(Scan(z, t[..|t| - 1]), t[|t| - 1])
  }

  /** What the reader has seen before position `i`. */
  function Before(t: bytes, i: nat): View
    requires i <= |t|
  {
    Scan(START, t[..i])
  }

  /** The text without the blanks between its tokens. */
  function Stripped(t: bytes): bytes { Scan(START, t).kept }

  // ---------- What the reader's verdict means ----------

  lemma {:induction false} ScanConcat(z: View, a: bytes, b: bytes)
    ensures Scan(z, a + b) == Scan(Scan(z, a), b)
    decreases |b|
  {
    hide Step;
    if b == [] {
      assert a + b == a;
    } else {
      var n := |b| - 1;
      ScanConcat(z, a, b[..n]);
      assert (a + b)[..|a + b| - 1] == a + b[..n];
    }
  }

  lemma {:induction false} ScanByte(z: View, b: byte)
    ensures Scan(z, [b]) == Step(z, b)
  {
    hide Step;
    assert [b][..0] == [];
  }

  /** The gap is all the blanks that stand before position `i`. */
  predicate IsGap(t: bytes, i: nat, z: View)
    requires i <= |t|
  {
    && |z.gap| <= i && (forall k :: 0 <= k < |z.gap| ==> z.gap[k] == t[i - |z.gap| + k] <= 32)
    && (z.quoted ==> z.gap == []) && (!z.quoted && |z.gap| < i ==> t[i - |z.gap| - 1] > 32)
  }

  /** If every gap was right, it was right before each token; and the gap is what stands there. */
  lemma {:induction false} RightBefore(t: bytes, i: nat)
    requires Scan(START, t).right && i < |t|
    ensures var z := Before(t, i);
            IsGap(t, i, z) && (!z.quoted && t[i] > 32 ==> IsRight(z.open, z.last, t[i], z.gap))
    decreases |t|
  {
    hide IsRight;
    var n := |t| - 1;
    GapIsThere(t, i);
    if i == n {
    } else {
      RightBefore(t[..n], i);
      assert t[..n][..i] == t[..i];
    }
  }

  lemma {:induction false} GapIsThere(t: bytes, i: nat)
    requires i <= |t|
    ensures IsGap(t, i, Before(t, i))
  {
    hide IsRight;
    if i == 0 {
    } else {
      GapIsThere(t, i - 1);
      assert t[..i][..i - 1] == t[..i - 1] && t[..i][i - 1] == t[i - 1];
    }
  }

  /** A text from which nothing was stripped has no blank between its tokens. */
  lemma {:induction false} NoneStripped(t: bytes, i: nat)
    requires |Scan(START, t).kept| == |t| && i < |t|
    ensures !Before(t, i).quoted ==> t[i] > 32
    decreases |t|
  {
    hide IsRight;
    var n := |t| - 1;
    KeptIsShorter(t[..n]);
    if i == n {
    } else {
      NoneStripped(t[..n], i);
      assert t[..n][..i] == t[..i];
    }
  }

  lemma {:induction false} KeptIsShorter(t: bytes)
    ensures |Scan(START, t).kept| <= |t|
  {
    hide IsRight;
    if t == [] {
    } else {
      KeptIsShorter(t[..|t| - 1]);
    }
  }

  // ---------- The pieces of printed text ----------

  /** The reader stands before a value: the blanks there are right, or there are none in compact text. */
  predicate Awaits(z: View, format: bool) {
    && !z.quoted && !z.escaped
    && if format then z.right && Leads(z.open, z.last, z.gap) else z.gap == []
  }

  /** The blanks that come before any token but a closing brace. */
  predicate Leads(open: bytes, last: Last, gap: bytes) { IsRight(open, last, QUOTE, gap) }

  /** The reader has gone over a piece whose compact text is `k`. */
  predicate Passed(z: View, z': View, k: bytes, format: bool) {
    && !z'.quoted && !z'.escaped && z'.open == z.open && z'.last == Other && z'.gap == [] && z'.kept == z.kept + k
    && (format ==> z'.right)
  }

  /** Bytes that are a token of their own or part of one: no quotes, brackets, braces, commas or colons. */
  predicate Ordinary(t: bytes) {
    forall k :: 0 <= k < |t| ==>
      t[k] > 32 && t[k] != QUOTE && t[k] != COMMA && t[k] != COLON
      && t[k] != LBRACKET && t[k] != RBRACKET && t[k] != LBRACE && t[k] != RBRACE
  }

  lemma {:induction false} OrdinaryView(z: View, t: bytes, format: bool)
    requires Awaits(z, format) && t != [] && Ordinary(t)
    ensures Passed(z, Scan(z, t), t, format)
    decreases |t|
  {
    var n := |t| - 1;
    if n == 0 {
      ScanByte(z, t[0]);
      assert t == [t[0]];
    } else {
      OrdinaryView(z, t[..n], format);
      assert z.kept + t == z.kept + t[..n] + [t[n]];
    }
  }

  lemma {:induction false} BlankView(z: View, w: bytes)
    requires !z.quoted && forall k :: 0 <= k < |w| ==> w[k] <= 32
    ensures Scan(z, w) == z.(gap := z.gap + w)
    decreases |w|
  {
    if w == [] {
      assert z.gap + w == z.gap;
    } else {
      var n := |w| - 1;
      BlankView(z, w[..n]);
      assert z.gap + w == z.gap + w[..n] + [w[n]];
    }
  }

  // ---------- Literals ----------

  lemma {:induction false} EscapeShape(b: byte)
    requires b != 0
    ensures var t := R.EscapeByte(b);
            if |t| == 1 then t[0] != QUOTE && t[0] != BACKSLASH
            else t[0] == BACKSLASH && forall k :: 2 <= k < |t| ==> t[k] != QUOTE && t[k] != BACKSLASH
  {
  }

  lemma {:induction false} EscapeView(z: View, b: byte)
    requires z.quoted && !z.escaped && b != 0
    ensures Scan(z, R.EscapeByte(b)) == z.(kept := z.kept + R.EscapeByte(b))
  {
    hide Step, R.EscapeByte;
    var t := R.EscapeByte(b);
    EscapeShape(b);
    if |t| == 1 {
      PlainInside(z, t);
    } else {
      assert t == [BACKSLASH, t[1]] + t[2..];
      ScanConcat(z, [BACKSLASH, t[1]], t[2..]);
      BackslashView(z, t[1]);
      PlainInside(z.(kept := z.kept + [BACKSLASH, t[1]]), t[2..]);
      assert z.kept + t == z.kept + [BACKSLASH, t[1]] + t[2..];
    }
  }

  lemma {:induction false} BackslashView(z: View, c: byte)
    requires z.quoted && !z.escaped
    ensures Scan(z, [BACKSLASH, c]) == z.(kept := z.kept + [BACKSLASH, c])
  {
    assert [BACKSLASH, c][..1] == [BACKSLASH];
    ScanByte(z, BACKSLASH);
    assert z.kept + [BACKSLASH, c] == z.kept + [BACKSLASH] + [c];
  }

  lemma {:induction false} PlainInside(z: View, t: bytes)
    requires z.quoted && !z.escaped && forall k :: 0 <= k < |t| ==> t[k] != QUOTE && t[k] != BACKSLASH
    ensures Scan(z, t) == z.(kept := z.kept + t)
  {
    if t == [] {
      assert z.kept + t == z.kept;
    } else {
      var n := |t| - 1;
      PlainInside(z, t[..n]);
      assert z.kept + t == z.kept + t[..n] + [t[n]];
    }
  }

  lemma {:induction false} EscapedView(z: View, s: bytes)
    requires z.quoted && !z.escaped && 0 !in s
    ensures Scan(z, R.Escaped(s)) == z.(kept := z.kept + R.Escaped(s))
    decreases |s|
  {
    hide R.EscapeByte, Step;
    if s == [] {
      assert z.kept + [] == z.kept;
    } else {
      var t, more := R.EscapeByte(s[0]), R.Escaped(s[1..]);
      EscapeView(z, s[0]);
      ScanConcat(z, t, more);
      EscapedView(z.(kept := z.kept + t), s[1..]);
      assert z.kept + (t + more) == z.kept + t + more;
    }
  }

  lemma {:induction false} LiteralView(z: View, s: bytes, format: bool)
    requires Awaits(z, format) && 0 !in s
    ensures Passed(z, Scan(z, R.Quoted(s)), R.Quoted(s), format)
  {
    hide R.Escaped, IsLineBreak, InArray;
    var t := R.Escaped(s);
    ScanConcat(z, [QUOTE] + t, [QUOTE]);
    ScanConcat(z, [QUOTE], t);
    ScanByte(z, QUOTE);
    var z1 := Step(z, QUOTE);
    EscapedView(z1, s);
    ScanByte(z1.(kept := z1.kept + t), QUOTE);
    assert z.kept + R.Quoted(s) == z.kept + [QUOTE] + t + [QUOTE];
  }

  // ---------- Values ----------

  lemma {:induction false} NumberIsOrdinary(x: real)
    ensures Ordinary(R.NumberText(x)) && R.NumberText(x) != []
  {
    hide R.NumberText;
    R.NumberSpells(x);
    N.NumeralTokenBytes(R.NumberNumeral(x));
  }

  lemma {:induction false} ValueView(z: View, v: Value, format: bool, depth: nat)
    requires R.Printable(v) && Awaits(z, format) && |z.open| == depth
    ensures Passed(z, Scan(z, R.Render(v, format, depth)), R.Render(v, false, depth), format)
    decreases v, 1
  {
    hide Awaits, Passed, Scan, R.NumberText, R.Quoted;
    match v {
      case Number(x) =>
        NumberIsOrdinary(x);
        OrdinaryView(z, R.NumberText(x), format);
      case String(s) => LiteralView(z, s, format);
      case Array(items) => ArrayView(z, items, format, depth);
      case Object(members) => ObjectView(z, members, format, depth);
      case Null => OrdinaryView(z, P.NULL_TEXT, format);
      case False => OrdinaryView(z, P.FALSE_TEXT, format);
      case True => OrdinaryView(z, P.TRUE_TEXT, format);
    }
  }

  /** An opening bracket or brace, and what the reader then awaits. */
  lemma {:induction false} OpenView(z: View, b: byte, format: bool)
    requires Awaits(z, format) && (b == LBRACKET || b == LBRACE)
    ensures var z' := Scan(z, [b]);
            && !z'.quoted && !z'.escaped && z'.open == z.open + [b] && z'.gap == [] && z'.kept == z.kept + [b]
            && z'.last == (if b == LBRACE then Brace else Other) && (format ==> z'.right)
  {
    ScanByte(z, b);
  }

  /** A closing bracket or brace after blanks that are right for it. */
  lemma {:induction false} CloseView(z: View, b: byte, open: bytes, format: bool)
    requires !z.quoted && !z.escaped && (b == RBRACKET || b == RBRACE)
    requires z.open == open + [if b == RBRACKET then LBRACKET else LBRACE]
    requires format ==> z.right && IsRight(z.open, z.last, b, z.gap)
    ensures var z' := Scan(z, [b]);
            && !z'.quoted && !z'.escaped && z'.open == open && z'.gap == [] && z'.kept == z.kept + [b]
            && z'.last == Other && (format ==> z'.right)
  {
    hide IsRight;
    ScanByte(z, b);
    assert z.open[..|z.open| - 1] == open;
  }

  lemma {:induction false} ArrayView(z: View, items: seq<Value>, format: bool, depth: nat)
    requires R.PrintableItems(items) && Awaits(z, format) && |z.open| == depth
    ensures R.Printable(Array(items))
    ensures Passed(z, Scan(z, R.Render(Array(items), format, depth)), R.Render(Array(items), false, depth), format)
    decreases items, 2
  {
    hide Scan, R.RenderItems, R.PrintableItems;
    var t, k := R.RenderItems(items, format, depth + 1), R.RenderItems(items, false, depth + 1);
    ScanConcat(z, [LBRACKET], t + [RBRACKET]);
    OpenView(z, LBRACKET, format);
    var z1 := Scan(z, [LBRACKET]);
    ScanConcat(z1, t, [RBRACKET]);
    if items == [] {
      NothingPrinted(format, depth + 1);
      ScanNothing(z1);
    } else {
      ItemsView(z1, items, format, depth + 1);
    }
    var z2 := Scan(z1, t);
    CloseView(z2, RBRACKET, z.open, format);
    assert z.kept + ([LBRACKET] + (k + [RBRACKET])) == z.kept + [LBRACKET] + k + [RBRACKET];
    assert items == [] ==> z2.kept + k == z2.kept;
  }

  lemma {:induction false} NothingPrinted(format: bool, depth: nat)
    ensures R.RenderItems([], format, depth) == [] && R.RenderItems([], false, depth) == []
    ensures R.RenderMembers([], format, depth) == [] && R.RenderMembers([], false, depth) == []
  {
  }

  lemma {:induction false} ScanNothing(z: View)
    ensures Scan(z, []) == z
  {
  }

  /** A comma between elements, with its space in formatted text. */
  lemma {:induction false} SeparatorView(z: View, format: bool)
    requires !z.quoted && !z.escaped && z.last == Other && z.gap == [] && InArray(z.open) && (format ==> z.right)
    ensures var z' := Scan(z, R.Separator(format));
            Awaits(z', format) && z'.open == z.open && z'.kept == z.kept + R.Separator(false)
  {
    var w := R.Only(format, [SPACE]);
    ScanConcat(z, [COMMA], w);
    ScanByte(z, COMMA);
    BlankView(Step(z, COMMA), w);
    assert R.Separator(false) == [COMMA];
  }

  lemma {:induction false} ItemsView(z: View, items: seq<Value>, format: bool, depth: nat)
    requires items != [] && R.PrintableItems(items) && Awaits(z, format) && |z.open| == depth && InArray(z.open)
    ensures Passed(z, Scan(z, R.RenderItems(items, format, depth)), R.RenderItems(items, false, depth), format)
    decreases items, 0
  {
    hide Scan, R.Render, R.Printable, Awaits, R.Separator;
    var t, k := R.Render(items[0], format, depth), R.Render(items[0], false, depth);
    ValueView(z, items[0], format, depth);
    if |items| > 1 {
      var rest := items[1..];
      var more := R.RenderItems(rest, format, depth);
      var z1 := Scan(z, t);
      ScanConcat(z, t, R.Separator(format) + more);
      ScanConcat(z1, R.Separator(format), more);
      SeparatorView(z1, format);
      ItemsView(Scan(z1, R.Separator(format)), rest, format, depth);
      Regroup(z.kept, k, R.Separator(false), R.RenderItems(rest, false, depth));
    }
  }

  lemma {:induction false} Regroup(a: bytes, b: bytes, c: bytes, d: bytes)
    ensures a + (b + (c + d)) == a + b + c + d
  {
  }

  // ---------- Objects ----------

  /** The reader stands before the members, or before the closing brace: after a line break in formatted text. */
  predicate BeforeMembers(z: View, format: bool, depth: nat) {
    && !z.quoted && !z.escaped && |z.open| == depth && depth > 0 && !InArray(z.open) && z.gap == R.Only(format, [NEWLINE])
    && (format ==> z.right)
  }

  lemma {:induction false} ObjectView(z: View, members: seq<Member>, format: bool, depth: nat)
    requires R.PrintableMembers(members) && Awaits(z, format) && |z.open| == depth
    ensures R.Printable(Object(members))
    ensures Passed(z, Scan(z, R.Render(Object(members), format, depth)), R.Render(Object(members), false, depth), format)
    decreases members, 2
  {
    hide Scan, R.RenderMembers, R.PrintableMembers, Awaits, R.Tabs;
    var newline, tabs := R.Only(format, [NEWLINE]), R.Only(format, R.Tabs(depth));
    var t, k := R.RenderMembers(members, format, depth + 1), R.RenderMembers(members, false, depth + 1);
    ScanConcat(z, [LBRACE], newline + (t + (tabs + [RBRACE])));
    OpenView(z, LBRACE, format);
    var z1 := Scan(z, [LBRACE]);
    ScanConcat(z1, newline, t + (tabs + [RBRACE]));
    BlankView(z1, newline);
    assert [] + newline == newline;
    var z2 := Scan(z1, newline);
    ScanConcat(z2, t, tabs + [RBRACE]);
    MembersView(z2, members, format, depth + 1);
    var z3 := Scan(z2, t);
    ScanConcat(z3, tabs, [RBRACE]);
    TabsAreBlank(format, depth);
    BlankView(z3, tabs);
    var z4 := Scan(z3, tabs);
    assert format ==> IsLineBreak(z4.gap, depth);
    CloseView(z4, RBRACE, z.open, format);
    assert R.Render(Object(members), false, depth) == [LBRACE] + (k + [RBRACE]) by {
      Compact(members, depth);
    }
    Regroup(z.kept, [LBRACE], k, [RBRACE]);
  }

  lemma {:induction false} Compact(members: seq<Member>, depth: nat)
    requires R.PrintableMembers(members)
    ensures R.Printable(Object(members))
    ensures R.Render(Object(members), false, depth) ==
            [LBRACE] + (R.RenderMembers(members, false, depth + 1) + [RBRACE])
  {
    var k := R.RenderMembers(members, false, depth + 1);
    assert [] + (k + ([] + [RBRACE])) == k + [RBRACE];
  }

  lemma {:induction false} TabsAreBlank(format: bool, depth: nat)
    ensures var tabs := R.Only(format, R.Tabs(depth)); forall k :: 0 <= k < |tabs| ==> tabs[k] <= 32
    ensures |R.Tabs(depth)| == depth && IsLineBreak([NEWLINE] + R.Tabs(depth), depth)
  {
  }

  lemma {:induction false} MembersView(z: View, members: seq<Member>, format: bool, depth: nat)
    requires R.PrintableMembers(members) && BeforeMembers(z, format, depth)
    requires members != [] ==> z.last == Brace || z.last == Comma
    ensures var z' := Scan(z, R.RenderMembers(members, format, depth));
            && BeforeMembers(z', format, depth) && z'.open == z.open
            && z'.kept == z.kept + R.RenderMembers(members, false, depth)
    decreases members, 0
  {
    hide Scan, R.Render, R.RenderName, R.MemberEnd, R.Printable;
    if members == [] {
      ScanNothing(z);
      assert z.kept + [] == z.kept;
    } else {
      var m, rest := members[0], members[1..];
      var name, text, end := R.RenderName(m.name, format, depth), R.Render(m.value, format, depth),
                             R.MemberEnd(|members| == 1, format);
      var more := R.RenderMembers(rest, format, depth);
      ScanConcat(z, name, text + (end + more));
      NameView(z, m.name, format, depth);
      var z1 := Scan(z, name);
      ScanConcat(z1, text, end + more);
      ValueView(z1, m.value, format, depth);
      var z2 := Scan(z1, text);
      ScanConcat(z2, end, more);
      EndView(z2, |members| == 1, format, depth);
      MembersView(Scan(z2, end), rest, format, depth);
      Regroup(z.kept + R.RenderName(m.name, false, depth), R.Render(m.value, false, depth),
              R.MemberEnd(|members| == 1, false), R.RenderMembers(rest, false, depth));
      assert z.kept + R.RenderMembers(members, false, depth) ==
             z.kept + R.RenderName(m.name, false, depth) + (R.Render(m.value, false, depth) +
             (R.MemberEnd(|members| == 1, false) + R.RenderMembers(rest, false, depth)));
    }
  }

  /** The indentation, the name and the colon; then a value is awaited. */
  lemma {:induction false} NameView(z: View, name: bytes, format: bool, depth: nat)
    requires 0 !in name && BeforeMembers(z, format, depth) && (z.last == Brace || z.last == Comma)
    ensures var z' := Scan(z, R.RenderName(name, format, depth));
            && Awaits(z', format) && z'.open == z.open && z'.kept == z.kept + R.RenderName(name, false, depth)
  {
    hide Scan, R.Quoted, R.Tabs;
    var tabs, tab := R.Only(format, R.Tabs(depth)), R.Only(format, [TAB]);
    var q := R.Quoted(name);
    ScanConcat(z, tabs, q + ([COLON] + tab));
    TabsAreBlank(format, depth);
    BlankView(z, tabs);
    var z1 := Scan(z, tabs);
    LiteralView(z1, name, format);
    ScanConcat(z1, q, [COLON] + tab);
    var z2 := Scan(z1, q);
    ScanConcat(z2, [COLON], tab);
    ScanByte(z2, COLON);
    BlankView(Step(z2, COLON), tab);
    assert R.RenderName(name, false, depth) == q + [COLON] by {
      assert [] + (q + ([COLON] + [])) == q + [COLON];
    }
    assert z.kept + (q + [COLON]) == z.kept + q + [COLON];
  }

  lemma {:induction false} EndView(z: View, last: bool, format: bool, depth: nat)
    requires !z.quoted && !z.escaped && z.last == Other && z.gap == [] && (format ==> z.right)
    requires |z.open| == depth && depth > 0 && !InArray(z.open)
    ensures var z' := Scan(z, R.MemberEnd(last, format));
            && BeforeMembers(z', format, depth) && z'.open == z.open && z'.kept == z.kept + R.MemberEnd(last, false)
            && (!last ==> z'.last == Comma)
  {
    hide Scan;
    var comma, newline := if last then [] else [COMMA], R.Only(format, [NEWLINE]);
    ScanConcat(z, comma, newline);
    if last {
      ScanNothing(z);
    } else {
      ScanByte(z, COMMA);
    }
    BlankView(Scan(z, comma), newline);
    assert [] + newline == newline;
    assert R.MemberEnd(last, false) == comma;
    assert z.kept + [] == z.kept;
  }

  // ---------- The layout ----------

  /**
   The layout of every printed value: outside literals the compact text holds no blank,
   the formatted text without its blanks is the compact text, and before every token of
   the formatted text stand exactly the blanks that are right there.
   */
  lemma {:induction false} PrintedLayout(v: Value)
    requires R.Printable(v)
    ensures var compact := R.Render(v, false, 0);
            Stripped(compact) == compact && forall i :: 0 <= i < |compact| && !Before(compact, i).quoted ==> compact[i] > 32
    ensures Stripped(R.Render(v, true, 0)) == R.Render(v, false, 0)
    ensures var text := R.Render(v, true, 0);
            forall i :: 0 <= i < |text| ==>
              var z := Before(text, i);
              IsGap(text, i, z) && (!z.quoted && text[i] > 32 ==> IsRight(z.open, z.last, text[i], z.gap))
  {
    hide Scan, R.Render, IsRight;
    var compact, text := R.Render(v, false, 0), R.Render(v, true, 0);
    Starts();
    ValueView(START, v, false, 0);
    ValueView(START, v, true, 0);
    assert [] + compact == compact;
    forall i | 0 <= i < |compact| && !Before(compact, i).quoted ensures compact[i] > 32 {
      NoneStripped(compact, i);
    }
    forall i | 0 <= i < |text|
      ensures var z := Before(text, i);
              IsGap(text, i, z) && (!z.quoted && text[i] > 32 ==> IsRight(z.open, z.last, text[i], z.gap))
    {
      RightBefore(text, i);
    }
  }

  lemma {:induction false} Starts()
    ensures Awaits(START, true) && Awaits(START, false)
  {
  }
}
