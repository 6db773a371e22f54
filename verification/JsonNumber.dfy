/**
 Numbers (section 6 of RFC 8259): the decimal literals of the grammar, the scan
 that strtod makes over the copied token, and the decimal text of an integer.
 Values are exact reals; rounding to the nearest double is not modelled.
 */
module JsonNumber {
  import opened Bytes

  // ---------- Decimal digits ----------

  predicate AllDigits(s: bytes) { forall k :: 0 <= k < |s| ==> IsDigit(s[k]) }

  /** The number that a run of digits denotes; bytes that are not digits do not occur in it. */
  function DigitsValue(s: bytes): nat
    requires AllDigits(s)
  {
    if s == [] then 0 else 10 * DigitsValue(s[..|s| - 1]) + (s[|s| - 1] - 48)
  }

  function Pow10(e: int): real
    decreases if e < 0 then -e else e
  {
    if e == 0 then 1.0 else if e > 0 then 10.0 * Pow10(e - 1) else Pow10(e + 1) / 10.0
  }

  function Decimal(n: nat): (s: bytes)
    ensures |s| >= 1 && AllDigits(s)
    ensures n < 10 ==> |s| == 1
    ensures n > 0 ==> s[0] != 48
  {
    if n < 10 then [48 + n] else Decimal(n / 10) + [48 + n % 10]
  }

  lemma {:induction false} DecimalValue(n: nat)
    ensures DigitsValue(Decimal(n)) == n
  {
    if n >= 10 {
      DecimalValue(n / 10);
      var s := Decimal(n);
      assert s[..|s| - 1] == Decimal(n / 10);
    } else {
      assert Decimal(n)[..0] == [];
    }
  }

  function Power(b: nat, e: nat): nat { if e == 0 then 1 else b * Power(b, e - 1) }

  lemma {:induction false} DecimalLength(n: nat, k: nat)
    requires 1 <= k && n < Power(10, k)
    ensures |Decimal(n)| <= k
  {
    if n >= 10 {
      assert k >= 2;
      DecimalLength(n / 10, k - 1);
    }
  }

  // ---------- Literals of the grammar ----------

  datatype Exponent = NoExponent | Exponent(upper: bool, sign: Option<byte>, digits: bytes)

  datatype Numeral = Numeral(negative: bool, whole: bytes, point: bool, fraction: bytes, exponent: Exponent)

  predicate ValidExponent(e: Exponent) {
    e.NoExponent? ||
    (|e.digits| > 0 && AllDigits(e.digits) && (e.sign.Some? ==> e.sign.value == PLUS || e.sign.value == MINUS))
  }

  /**
   What strtod takes whole, with a minus or a digit in front: leading zeros, and no
   digits on one side of the point, are not refused.
   */
  predicate TakenNumeral(n: Numeral) {
    && AllDigits(n.whole) && AllDigits(n.fraction) && (!n.point ==> n.fraction == [])
    && |n.whole| + |n.fraction| > 0 && (!n.negative ==> |n.whole| > 0)
    && ValidExponent(n.exponent)
  }

  /** The numbers of section 6 of RFC 8259. */
  predicate ValidNumeral(n: Numeral) {
    && TakenNumeral(n)
    && |n.whole| > 0 && (n.whole[0] == 48 ==> |n.whole| == 1) && (n.point ==> n.fraction != [])
  }

  function SignText(s: Option<byte>): bytes { if s.None? then [] else [s.value] }

  function ExponentText(e: Exponent): bytes {
    if e.NoExponent? then [] else [if e.upper then 69 else 101] + SignText(e.sign) + e.digits
  }

  function FractionText(point: bool, f: bytes): bytes { if point then [DOT] + f else [] }

  function NumeralText(n: Numeral): (r: bytes)
    ensures n.negative || |n.whole| > 0 ==> |r| > 0
  {
    (if n.negative then [MINUS] else []) + n.whole + FractionText(n.point, n.fraction) + ExponentText(n.exponent)
  }

  function ExponentValue(e: Exponent): int
    requires ValidExponent(e)
  {
    if e.NoExponent? then 0
    else if e.sign == Some(MINUS) then -(DigitsValue(e.digits) as int)
    else DigitsValue(e.digits)
  }

  function Scaled(negative: bool, whole: bytes, fraction: bytes, exponent: int): real
    requires AllDigits(whole) && AllDigits(fraction)
  {
    var m := DigitsValue(whole + fraction) as real * Pow10(exponent - |fraction|);
    if negative then -m else m
  }

  function NumeralValue(n: Numeral): real
    requires TakenNumeral(n)
  {
    Scaled(n.negative, n.whole, n.fraction, ExponentValue(n.exponent))
  }

  // ---------- What the value is ----------

  lemma {:induction false} Pow10Next(e: int)
    ensures Pow10(0) == 1.0 && Pow10(e + 1) == 10.0 * Pow10(e)
  {
  }

  lemma {:induction false} Pow10Adds(a: int, b: int)
    ensures Pow10(a + b) == Pow10(a) * Pow10(b)
    decreases if a < 0 then -a else a
  {
    hide Pow10;
    Pow10Next(0);
    if a == 0 {
    } else if a > 0 {
      Pow10Adds(a - 1, b);
      Pow10Next(a - 1);
      Pow10Next(a - 1 + b);
    } else {
      Pow10Adds(a + 1, b);
      Pow10Next(a);
      Pow10Next(a + b);
    }
  }

  lemma {:induction false} DigitsSplit(a: bytes, b: bytes)
    requires AllDigits(a) && AllDigits(b)
    ensures DigitsValue(a + b) as real == DigitsValue(a) as real * Pow10(|b|) + DigitsValue(b) as real
    decreases |b|
  {
    hide Pow10, DigitsValue;
    if b == [] {
      Pow10Next(0);
      NoDigitsValue();
      assert a + b == a;
    } else {
      var n := |b| - 1;
      assert (a + b)[..|a| + n] == a + b[..n];
      DigitsSplit(a, b[..n]);
      LastDigit(b);
      LastDigit(a + b);
      Pow10Next(n);
      Tenfold(DigitsValue(a) as real, Pow10(n));
    }
  }

  lemma {:induction false} NoDigitsValue()
    ensures DigitsValue([]) == 0
  {
  }

  lemma {:induction false} LastDigit(s: bytes)
    requires s != [] && AllDigits(s)
    ensures var n := |s| - 1;
            DigitsValue(s) as real == 10.0 * DigitsValue(s[..n]) as real + (s[n] - 48) as real
  {
  }

  lemma {:induction false} Tenfold(x: real, y: real)
    ensures x * (10.0 * y) == 10.0 * (x * y)
  {
  }

  /** The value of a numeral: its whole part and its fraction, times a power of ten, with its sign. */
  lemma {:induction false} NumeralMeans(n: Numeral)
    requires TakenNumeral(n)
    ensures var whole, fraction := DigitsValue(n.whole) as real, DigitsValue(n.fraction) as real;
            var size := (whole + fraction * Pow10(-|n.fraction|)) * Pow10(ExponentValue(n.exponent));
            NumeralValue(n) == if n.negative then -size else size
  {
    hide Pow10, DigitsValue, ExponentValue;
    var k, e := |n.fraction|, ExponentValue(n.exponent);
    DigitsSplit(n.whole, n.fraction);
    Pow10Adds(e, -k);
    Pow10Adds(k, -k);
    Pow10Next(0);
    Shifted(DigitsValue(n.whole) as real, DigitsValue(n.fraction) as real, Pow10(k), Pow10(-k), Pow10(e));
  }

  lemma {:induction false} Shifted(w: real, f: real, up: real, down: real, e: real)
    requires up * down == 1.0
    ensures (w * up + f) * (e * down) == (w + f * down) * e
  {
    assert w * up * (e * down) == w * e * (up * down);
    assert f * (e * down) == f * down * e;
  }

  // ---------- parse_number ----------

  /** The characters that parse_number copies. */
  predicate IsTokenByte(b: byte) {
    IsDigit(b) || b == PLUS || b == MINUS || b == 101 || b == 69 || b == DOT
  }

  const TOKEN_MAX: nat := 63

  /** The end of the copied token: at most `left` token bytes from `i`. */
  function TokenEnd(buf: bytes, i: nat, left: nat): (e: nat)
    requires i <= |buf|
    ensures i <= e <= |buf| && e <= i + left
    decreases left
  {
    if left == 0 || i >= |buf| || !IsTokenByte(buf[i]) then i else TokenEnd(buf, i + 1, left - 1)
  }

  function DigitsEnd(s: bytes, i: nat): (e: nat)
    requires i <= |s|
    ensures i <= e <= |s| && AllDigits(s[i..e])
    ensures e < |s| ==> !IsDigit(s[e])
    decreases |s| - i
  {
    if i < |s| && IsDigit(s[i]) then
      var e := DigitsEnd(s, i + 1);
      assert s[i..e] == [s[i]] + s[i + 1..e];
      e
    else i
  }

  predicate IsSign(b: byte) { b == PLUS || b == MINUS }

  datatype Scan = NoNumber | Scan(length: nat, value: real)

  /** The longest prefix of `s` that strtod accepts, and its exact value. */
  function Strtod(s: bytes): (r: Scan)
    ensures r.Scan? ==> 0 < r.length <= |s|
  {
    var i0 := if |s| > 0 && IsSign(s[0]) then 1 else 0;
    var i1 := DigitsEnd(s, i0);
    var point := i1 < |s| && s[i1] == DOT;
    var i2 := if point then DigitsEnd(s, i1 + 1) else i1;
    var fraction := if point then s[i1 + 1..i2] else [];
    if i1 == i0 && fraction == [] then NoNumber
    else
      var (end, e) := StrtodExponent(s, i2);
      Scan(end, Scaled(i0 == 1 && s[0] == MINUS, s[i0..i1], fraction, e))
  }

  /** The exponent part at `i`, if there is a complete one: its end and its value. */
  function StrtodExponent(s: bytes, i: nat): (r: (nat, int))
    requires i <= |s|
    ensures i <= r.0 <= |s|
  {
    if i < |s| && (s[i] == 101 || s[i] == 69) then
      var j := if i + 1 < |s| && IsSign(s[i + 1]) then i + 2 else i + 1;
      var k := DigitsEnd(s, j);
      if k > j then
        (k, if s[i + 1] == MINUS then -(DigitsValue(s[j..k]) as int) else DigitsValue(s[j..k]))
      else (i, 0)
    else (i, 0)
  }

  datatype ParsedNumber = NotNumber | GotNumber(value: real, next: nat)

  function ParseNumber(buf: bytes, i: nat): (r: ParsedNumber)
    requires i <= |buf|
    ensures r.GotNumber? ==> i < r.next <= |buf| && r.next <= i + TOKEN_MAX
  {
    var token := buf[i..TokenEnd(buf, i, TOKEN_MAX)];
    var scan := Strtod(token);
    if scan.NoNumber? then NotNumber else GotNumber(scan.value, i + scan.length)
  }

  // ---------- Every literal of at most 63 characters is read whole ----------

  lemma {:induction false} DigitsEndAt(s: bytes, i: nat, e: nat)
    requires i <= e <= |s| && AllDigits(s[i..e]) && (e < |s| ==> !IsDigit(s[e]))
    ensures DigitsEnd(s, i) == e
    decreases e - i
  {
    if i < e {
      assert s[i] == s[i..e][0];
      assert s[i + 1..e] == s[i..e][1..];
      DigitsEndAt(s, i + 1, e);
    }
  }

  lemma {:induction false} StrtodReadsExponent(s: bytes, i: nat, e: Exponent)
    requires ValidExponent(e) && i <= |s| && s[i..] == ExponentText(e)
    ensures StrtodExponent(s, i) == (|s|, ExponentValue(e))
  {
    if e.Exponent? {
      var t := ExponentText(e);
      assert s[i] == s[i..][0];
      var j := i + 1 + |SignText(e.sign)|;
      assert s[j..] == s[i..][1 + |SignText(e.sign)|..] == e.digits;
      assert s[j..|s|] == e.digits;
      assert e.sign.Some? ==> s[i + 1] == t[1] == e.sign.value;
      assert e.sign.None? ==> s[i + 1] == t[1] == e.digits[0];
      DigitsEndAt(s, j, |s|);
    }
  }

  lemma {:induction false} StrtodParts(s: bytes, negative: bool, i1: nat, point: bool, fraction: bytes, i2: nat,
                                       e: Exponent)
    requires ValidExponent(e) && AllDigits(fraction) && (!point ==> fraction == [])
    requires (if negative then 1 else 0) <= i1 <= i2 <= |s| && s != []
    requires if negative then s[0] == MINUS else i1 > 0
    requires i1 > (if negative then 1 else 0) || fraction != []
    requires AllDigits(s[if negative then 1 else 0..i1])
    requires s[i1..i2] == FractionText(point, fraction) && s[i2..] == ExponentText(e)
    ensures Strtod(s) == Scan(|s|, Scaled(negative, s[if negative then 1 else 0..i1], fraction, ExponentValue(e)))
  {
    hide StrtodExponent, Scaled, DigitsValue;
    var i0 := if negative then 1 else 0;
    StrtodReadsExponent(s, i2, e);
    assert i2 < |s| ==> s[i2] == s[i2..][0] == ExponentText(e)[0];
    if !negative {
      assert s[0] == s[0..i1][0];
    }
    if !point {
      assert i1 == i2;
      DigitsEndAt(s, i0, i1);
    } else {
      assert s[i1] == s[i1..i2][0] == DOT;
      assert s[i1 + 1..i2] == s[i1..i2][1..] == fraction;
      DigitsEndAt(s, i0, i1);
      DigitsEndAt(s, i1 + 1, i2);
    }
  }

  lemma {:induction false} StrtodReadsNumeral(n: Numeral)
    requires TakenNumeral(n)
    ensures Strtod(NumeralText(n)) == Scan(|NumeralText(n)|, NumeralValue(n))
  {
    hide Strtod, Scaled;
    var m := if n.negative then [MINUS] else [];
    var f, e := FractionText(n.point, n.fraction), ExponentText(n.exponent);
    var s := m + n.whole + f + e;
    var i1 := |m| + |n.whole|;
    assert n.negative ==> s[0] == (m + n.whole)[0];
    assert s[|m|..i1] == n.whole;
    assert s[i1..i1 + |f|] == f;
    assert s[i1 + |f|..] == e;
    StrtodParts(s, n.negative, i1, n.point, n.fraction, i1 + |f|, n.exponent);
  }

  lemma {:induction false} NumeralTokenBytes(n: Numeral)
    requires TakenNumeral(n)
    ensures forall k :: 0 <= k < |NumeralText(n)| ==> IsTokenByte(NumeralText(n)[k])
  {
    var m := if n.negative then [MINUS] else [];
    var f := FractionText(n.point, n.fraction);
    TokenBytesConcat(m, n.whole);
    TokenBytesConcat(m + n.whole, f);
    TokenBytesConcat(m + n.whole + f, ExponentText(n.exponent));
  }

  lemma {:induction false} TokenBytesConcat(a: bytes, b: bytes)
    requires forall k :: 0 <= k < |a| ==> IsTokenByte(a[k])
    requires forall k :: 0 <= k < |b| ==> IsTokenByte(b[k])
    ensures forall k :: 0 <= k < |a + b| ==> IsTokenByte((a + b)[k])
  {
  }

  lemma {:induction false} TokenEndAt(buf: bytes, i: nat, left: nat, e: nat)
    requires i <= e <= |buf| && e - i <= left
    requires forall k :: i <= k < e ==> IsTokenByte(buf[k])
    requires e == i + left || e == |buf| || !IsTokenByte(buf[e])
    ensures TokenEnd(buf, i, left) == e
    decreases left
  {
    if i < e {
      TokenEndAt(buf, i + 1, left - 1, e);
    }
  }

  /**
   What strtod takes of a token with a minus or a digit in front is a numeral, and
   its value is that of the numeral.
   */
  lemma {:induction false} StrtodTakesNumeral(s: bytes) returns (n: Numeral)
    requires s != [] && (s[0] == MINUS || IsDigit(s[0])) && Strtod(s).Scan?
    ensures TakenNumeral(n) && Strtod(s) == Scan(|NumeralText(n)|, NumeralValue(n))
    ensures s[..|NumeralText(n)|] == NumeralText(n)
  {
    hide Scaled, StrtodExponent, DigitsEnd, ExponentText, ValidExponent, AllDigits, ExponentValue;
    var i0 := if s[0] == MINUS then 1 else 0;
    var i1 := DigitsEnd(s, i0);
    var point := i1 < |s| && s[i1] == DOT;
    var i2 := if point then DigitsEnd(s, i1 + 1) else i1;
    var fraction := if point then s[i1 + 1..i2] else [];
    var e := ExponentTaken(s, i2);
    n := Numeral(s[0] == MINUS, s[i0..i1], point, fraction, e);
    assert i0 == 0 ==> i1 > 0;
    NoExponentText();
    var end := i2 + |ExponentText(e)|;
    Pieces(s, i0, i1, i2, end);
    assert point ==> s[i1..i2] == [DOT] + fraction;
    assert s[..i0] == if n.negative then [MINUS] else [];
    assert s[i1..i2] == FractionText(point, fraction);
    assert NumeralText(n) == s[..end];
  }

  lemma {:induction false} Pieces(s: bytes, i0: nat, i1: nat, i2: nat, end: nat)
    requires i0 <= i1 <= i2 <= end <= |s|
    ensures s[..end] == s[..i0] + s[i0..i1] + s[i1..i2] + s[i2..end]
  {
    assert s[..i1] == s[..i0] + s[i0..i1];
    assert s[..i2] == s[..i1] + s[i1..i2];
  }

  lemma {:induction false} ExponentTaken(s: bytes, i: nat) returns (e: Exponent)
    requires i <= |s|
    ensures ValidExponent(e) && i + |ExponentText(e)| <= |s| && s[i..i + |ExponentText(e)|] == ExponentText(e)
    ensures StrtodExponent(s, i) == (i + |ExponentText(e)|, ExponentValue(e))
  {
    hide DigitsValue, DigitsEnd, AllDigits, ExponentText, ExponentValue, ValidExponent;
    e := NoExponent;
    NoExponentText();
    if i < |s| && (s[i] == 101 || s[i] == 69) {
      var signed := i + 1 < |s| && IsSign(s[i + 1]);
      var j := if signed then i + 2 else i + 1;
      var k := DigitsEnd(s, j);
      if k > j {
        e := Exponent(s[i] == 69, if signed then Some(s[i + 1]) else None, s[j..k]);
        ExponentSpelled(s, i, j, k, e);
      }
    }
  }

  lemma {:induction false} NoExponentText()
    ensures ExponentText(NoExponent) == [] && ValidExponent(NoExponent) && ExponentValue(NoExponent) == 0
    ensures AllDigits([])
  {
  }

  lemma {:induction false} ExponentSpelled(s: bytes, i: nat, j: nat, k: nat, e: Exponent)
    requires i + 1 <= j <= i + 2 && j < k <= |s| && AllDigits(s[j..k]) && (s[i] == 101 || s[i] == 69)
    requires e == Exponent(s[i] == 69, if j == i + 1 then None else Some(s[i + 1]), s[j..k])
    requires j == i + 2 ==> IsSign(s[i + 1])
    ensures ValidExponent(e) && ExponentText(e) == s[i..k]
    ensures ExponentValue(e) ==
            if s[i + 1] == MINUS then -(DigitsValue(s[j..k]) as int) else DigitsValue(s[j..k])
  {
    hide DigitsValue;
    assert s[i..j] == [s[i]] + SignText(e.sign);
    assert s[i..k] == s[i..j] + s[j..k];
    assert s[j] == s[j..k][0];
  }

  /** A token that starts like a literal is read as some number. */
  lemma {:induction false} StrtodReadsSome(s: bytes)
    requires |s| > 0 && (s[0] == MINUS || IsDigit(s[0]))
    requires s[0] == MINUS ==> |s| > 1 && (IsDigit(s[1]) || (s[1] == DOT && |s| > 2 && IsDigit(s[2])))
    ensures Strtod(s).Scan?
  {
    hide Scaled, StrtodExponent;
    var i0 := if s[0] == MINUS then 1 else 0;
    if IsDigit(s[i0]) {
      assert DigitsEnd(s, i0) > i0;
    } else {
      assert DigitsEnd(s, 1) == 1 && DigitsEnd(s, 2) > 2;
    }
  }

  /**
   A literal that no token character follows is read whole when it has at most
   63 characters. A longer one is cut: some number is read, and the parse ends
   inside the literal.
   */
  lemma {:induction false} ParsesNumeral(buf: bytes, i: nat, n: Numeral)
    requires TakenNumeral(n) && At(buf, i, NumeralText(n))
    requires i + |NumeralText(n)| < |buf| ==> !IsTokenByte(buf[i + |NumeralText(n)|])
    ensures |NumeralText(n)| <= TOKEN_MAX ==>
              ParseNumber(buf, i) == GotNumber(NumeralValue(n), i + |NumeralText(n)|)
    ensures |NumeralText(n)| > TOKEN_MAX ==>
              var r := ParseNumber(buf, i);
              r.GotNumber? && r.next < i + |NumeralText(n)| && IsTokenByte(buf[r.next])
  {
    hide NumeralText, NumeralValue, Strtod, TokenEnd;
    var t := NumeralText(n);
    NumeralTokenBytes(n);
    assert forall k :: i <= k < i + |t| ==> buf[k] == buf[i..i + |t|][k - i];
    var e := i + if |t| <= TOKEN_MAX then |t| else TOKEN_MAX;
    TokenEndAt(buf, i, TOKEN_MAX, e);
    if |t| <= TOKEN_MAX {
      StrtodReadsNumeral(n);
    } else {
      NumeralStart(n);
      assert buf[i..e][0] == t[0] && buf[i..e][1] == t[1] && buf[i..e][2] == t[2];
      StrtodReadsSome(buf[i..e]);
    }
  }

  lemma {:induction false} NumeralStart(n: Numeral)
    requires TakenNumeral(n)
    ensures var t := NumeralText(n);
            && |t| > 0 && (n.negative <==> t[0] == MINUS) && (n.negative || IsDigit(t[0]))
            && (n.negative ==> |t| > 1 && (IsDigit(t[1]) || (t[1] == DOT && |t| > 2 && IsDigit(t[2]))))
  {
  }

  /** Whatever parse_number reads is the text of a numeral of at most 63 characters, with its value. */
  lemma {:induction false} NumberIsNumeral(buf: bytes, i: nat) returns (n: Numeral)
    requires i < |buf| && (buf[i] == MINUS || IsDigit(buf[i])) && ParseNumber(buf, i).GotNumber?
    ensures TakenNumeral(n) && At(buf, i, NumeralText(n)) && |NumeralText(n)| <= TOKEN_MAX
    ensures ParseNumber(buf, i) == GotNumber(NumeralValue(n), i + |NumeralText(n)|)
  {
    hide NumeralText, NumeralValue, Strtod, TokenEnd;
    var token := buf[i..TokenEnd(buf, i, TOKEN_MAX)];
    assert token != [] by {
      FirstToken(buf, i);
    }
    n := StrtodTakesNumeral(token);
    assert token[..|NumeralText(n)|] == buf[i..i + |NumeralText(n)|];
  }

  lemma {:induction false} FirstToken(buf: bytes, i: nat)
    requires i < |buf| && IsTokenByte(buf[i])
    ensures TokenEnd(buf, i, TOKEN_MAX) > i
  {
  }
}
