/** The frames of the control connection: JSON_write and JSON_read of iperf_api.c. */
module ControlFrame {
  import opened Bytes
  import opened Json
  import P = JsonParser
  import R = JsonRender

  const TWO_32: int := 0x1_0000_0000

  /** htonl */
  function BigEndian(n: nat): (b: bytes)
    requires n < TWO_32
    ensures |b| == 4
  {
    [n / 0x100_0000, n / 0x1_0000 % 256, n / 0x100 % 256, n % 256]
  }

  /** ntohl */
  function FromBigEndian(b: bytes): nat
    requires |b| == 4
  {
    (b[0] as int) * 0x100_0000 + (b[1] as int) * 0x1_0000 + (b[2] as int) * 0x100 + b[3] as int
  }

  lemma {:induction false} BigEndianRoundTrip(n: nat)
    requires n < TWO_32
    ensures FromBigEndian(BigEndian(n)) == n
  {
    var a, b, c := n / 0x100_0000, n / 0x1_0000, n / 0x100;
    assert c / 256 == b && b / 256 == a;
    assert n == 256 * c + n % 256 && c == 256 * b + c % 256 && b == 256 * a + b % 256;
  }

  /** JSON_write: the length of the compact text in four bytes, then the text. */
  function Write(v: Value): bytes
    requires R.Printable(v)
  {
    var text := R.Render(v, false, 0);
    var hsize := |text| % TWO_32;
    BigEndian(hsize) + text[..hsize]
  }

  /** JSON_read on the bytes that have arrived: it waits until the whole frame is there. */
  datatype Reading = Waiting | Malformed(used: nat) | Got(value: Value, used: nat)

  function Read(arrived: bytes): (r: Reading)
    ensures !r.Waiting? ==> 4 <= r.used <= |arrived|
  {
    if |arrived| < 4 then Waiting
    else
      var used := 4 + FromBigEndian(arrived[..4]);
      if |arrived| < used then Waiting
      else
        var r := P.ParseText(CString(arrived[4..used]), false);
        if r.Done? then Got(r.value, used) else Malformed(used)
  }

  /** A document that one frame can carry. */
  predicate Fits(v: Value) {
    R.Printable(v) && |R.Render(v, false, 0)| + 1 < TWO_32 && Depth(v) <= P.NESTING_LIMIT
  }

  lemma {:induction false} HeadAndText(head: bytes, text: bytes, after: bytes, k: nat)
    requires |head| == 4 <= k <= |head + text + after|
    ensures (head + text + after)[..k][..4] == head
    ensures k >= 4 + |text| ==> (head + text + after)[..k][4..4 + |text|] == text
  {
    var s := head + text + after;
    assert forall i :: 0 <= i < 4 ==> s[i] == head[i];
    assert forall i :: 0 <= i < |text| ==> s[4 + i] == text[i];
  }

  /**
   However the connection cuts the bytes into pieces, the reader of any frame waits
   until all of it has arrived, then takes exactly that frame, whatever follows on the
   connection; it gets what the parser makes of the text, which may be nothing.
   */
  lemma {:induction false} FrameIsRead(text: bytes, after: bytes, k: nat)
    requires |text| + 1 < TWO_32 && k <= 4 + |text| + |after|
    ensures Read((BigEndian(|text|) + text + after)[..k]) ==
            if k < 4 + |text| then Waiting
            else
              var r := P.ParseText(CString(text), false);
              if r.Done? then Got(r.value, 4 + |text|) else Malformed(4 + |text|)
  {
    hide P.ParseText, FromBigEndian, BigEndian, CString;
    if k >= 4 {
      HeadAndText(BigEndian(|text|), text, after, k);
      BigEndianRoundTrip(|text|);
    }
  }

  /** The frame of a document is read as that document, as it is read back. */
  lemma {:induction false} FrameArrives(v: Value, after: bytes, k: nat)
    requires Fits(v) && k <= |Write(v) + after|
    ensures Read((Write(v) + after)[..k]) == if k < |Write(v)| then Waiting else Got(R.ReadBack(v), |Write(v)|)
  {
    hide R.Render, P.ParseText, Read, BigEndian, R.ReadBack, R.Printable, Depth, CString;
    var text := R.Render(v, false, 0);
    assert |text| % TWO_32 == |text| && text[..|text|] == text;
    assert Write(v) + after == BigEndian(|text|) + text + after;
    FrameIsRead(text, after, k);
    CStringIsWholeIffNulFree(text);
    R.RoundTrip(v, false, false);
  }
}
