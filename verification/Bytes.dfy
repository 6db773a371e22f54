/** Bytes, C strings, and the relation "this text stands at this offset". */
module Bytes {

  type byte = x: int | 0 <= x < 256
  type bytes = seq<byte>

  datatype Option<+T> = None | Some(value: T)

  const BACKSPACE: byte := 8
  const TAB: byte := 9
  const NEWLINE: byte := 10
  const FORMFEED: byte := 12
  const RETURN: byte := 13
  const SPACE: byte := 32
  const QUOTE: byte := 34
  const PLUS: byte := 43
  const COMMA: byte := 44
  const MINUS: byte := 45
  const DOT: byte := 46
  const SLASH: byte := 47
  const COLON: byte := 58
  const LBRACKET: byte := 91
  const BACKSLASH: byte := 92
  const RBRACKET: byte := 93
  const LETTER_U: byte := 117
  const LBRACE: byte := 123
  const RBRACE: byte := 125

  predicate IsDigit(b: byte) { 48 <= b <= 57 }

  /** Text `s` stands at offset `i` of `buf`. */
  predicate At(buf: bytes, i: int, s: bytes)
    ensures At(buf, i, s) ==> 0 <= i && i + |s| <= |buf|
  {
    0 <= i && i + |s| <= |buf| && buf[i..i + |s|] == s
  }

  lemma {:induction false} AtConcat(buf: bytes, i: int, a: bytes, b: bytes)
    ensures At(buf, i, a + b) <==> At(buf, i, a) && At(buf, i + |a|, b)
  {
    if At(buf, i, a + b) {
      var all := buf[i..i + |a + b|];
      assert all[..|a|] == a && all[|a|..] == b;
      assert buf[i..i + |a|] == all[..|a|];
      assert buf[i + |a|..i + |a| + |b|] == all[|a|..];
    }
    if At(buf, i, a) && At(buf, i + |a|, b) {
      assert buf[i..i + |a + b|] == buf[i..i + |a|] + buf[i + |a|..i + |a| + |b|];
    }
  }

  lemma {:induction false} AtByte(buf: bytes, i: int, s: bytes, k: int)
    requires At(buf, i, s) && 0 <= k < |s|
    ensures buf[i + k] == s[k]
  {
    assert buf[i..i + |s|][k] == s[k];
  }

  lemma {:induction false} AtMiddle(a: bytes, s: bytes, b: bytes)
    ensures At(a + s + b, |a|, s)
  {
    assert (a + s + b)[|a|..|a| + |s|] == s;
  }

  /** A C string with its terminator. */
  predicate Terminated(buf: bytes) {
    |buf| > 0 && buf[|buf| - 1] == 0 && forall k :: 0 <= k < |buf| - 1 ==> buf[k] != 0
  }

  /** What a C caller sees of a buffer: everything up to the first NUL. */
  function CString(s: bytes): (r: bytes)
    ensures r <= s && 0 !in r
    ensures |r| < |s| ==> s[|r|] == 0
  {
    if s == [] || s[0] == 0 then [] else [s[0]] + CString(s[1..])
  }

  lemma {:induction false} CStringIsWholeIffNulFree(s: bytes)
    ensures CString(s) == s <==> 0 !in s
  {
    assert |CString(s)| == |s| ==> CString(s) == s;
  }

  lemma {:induction false} CStringStops(a: bytes, b: bytes)
    ensures CString(a + [0] + b) == CString(a)
    decreases |a|
  {
    if a != [] && a[0] != 0 {
      assert (a + [0] + b)[1..] == a[1..] + [0] + b;
      CStringStops(a[1..], b);
    }
  }
}
