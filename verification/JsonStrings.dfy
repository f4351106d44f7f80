/** JSON.stringify on strings, code unit by code unit (section 7 of RFC 8259, with lone
    surrogates escaped as ECMAScript does), and a reader that undoes it. */
module JsonStrings {

  /** A UTF-16 code unit; strings of the source are sequences of them. */
  type Unit = n: nat | n < 0x1_0000
  type Text = seq<Unit>

  const QUOTE: Unit := 34
  const BACKSLASH: Unit := 92

  predicate IsHigh(c: Unit) { 0xD800 <= c < 0xDC00 }
  predicate IsLow(c: Unit) { 0xDC00 <= c < 0xE000 }

  function HexDigit(d: nat): Unit
    requires d < 16
  {
    if d < 10 then 48 + d else 87 + d
  }

  function DigitValue(c: Unit): nat {
    if 48 <= c < 58 then c - 48 else if 97 <= c < 103 then c - 87 else 0
  }

  function UnicodeEscape(c: Unit): Text {
    [BACKSLASH, 117, HexDigit(c / 4096), HexDigit(c / 256 % 16), HexDigit(c / 16 % 16), HexDigit(c % 16)]
  }

  function Escape(c: Unit): Text {
    if c == QUOTE then [BACKSLASH, QUOTE]
    else if c == BACKSLASH then [BACKSLASH, BACKSLASH]
    else if c == 8 then [BACKSLASH, 98]
    else if c == 9 then [BACKSLASH, 116]
    else if c == 10 then [BACKSLASH, 110]
    else if c == 12 then [BACKSLASH, 102]
    else if c == 13 then [BACKSLASH, 114]
    else if c < 32 || IsHigh(c) || IsLow(c) then UnicodeEscape(c)
    else [c]
  }

  /** The text between the quotes; a surrogate pair stays as it is. */
  function Body(s: Text): Text {
    if s == [] then []
    else if IsHigh(s[0]) && |s| > 1 && IsLow(s[1]) then [s[0], s[1]] + Body(s[2..])
    else Escape(s[0]) + Body(s[1..])
  }

  function Quote(s: Text): Text {
    [QUOTE] + Body(s) + [QUOTE]
  }

  function Unescape(c: Unit): Unit {
    if c == 98 then 8 else if c == 116 then 9 else if c == 110 then 10
    else if c == 102 then 12 else if c == 114 then 13 else c
  }

  function FromHex(a: Unit, b: Unit, c: Unit, d: Unit): Unit {
    DigitValue(a) * 4096 + DigitValue(b) * 256 + DigitValue(c) * 16 + DigitValue(d)
  }

  /** Reads up to the closing quote; what follows it is the second result. */
  function Read(text: Text): (Text, Text) {
    if text == [] || text[0] == QUOTE then ([], if text == [] then [] else text[1..])
    else if text[0] != BACKSLASH || |text| < 2 then
      var (s, rest) := Read(text[1..]);
      ([text[0]] + s, rest)
    else if text[1] != 117 || |text| < 6 then
      var (s, rest) := Read(text[2..]);
      ([Unescape(text[1])] + s, rest)
    else
      var (s, rest) := Read(text[6..]);
      ([FromHex(text[2], text[3], text[4], text[5])] + s, rest)
  }

  lemma DigitRoundTrip(d: nat)
    requires d < 16
    ensures DigitValue(HexDigit(d)) == d
  {
  }

  lemma Digits(c: Unit)
    ensures c / 4096 < 16 && c / 256 % 16 < 16 && c / 16 % 16 < 16 && c % 16 < 16
    ensures c == c / 4096 * 4096 + c / 256 % 16 * 256 + c / 16 % 16 * 16 + c % 16
  {
    var q, r := c / 16, c % 16;
    assert c == 16 * q + r;
    assert q / 16 == c / 256 && q / 256 == c / 4096;
    assert q == 16 * (q / 16) + q % 16;
    var p := q / 16;
    assert p / 16 == q / 256;
    assert p == 16 * (p / 16) + p % 16;
  }

  lemma HexRoundTrip(c: Unit)
    ensures FromHex(HexDigit(c / 4096), HexDigit(c / 256 % 16), HexDigit(c / 16 % 16), HexDigit(c % 16)) == c
  {
    Digits(c);
    DigitRoundTrip(c / 4096);
    DigitRoundTrip(c / 256 % 16);
    DigitRoundTrip(c / 16 % 16);
    DigitRoundTrip(c % 16);
    hide DigitValue, HexDigit;
  }

  lemma ReadPlain(c: Unit, tail: Text)
    requires c != QUOTE && c != BACKSLASH
    ensures Read([c] + tail) == ([c] + Read(tail).0, Read(tail).1)
  {
    assert ([c] + tail)[1..] == tail;
  }

  lemma ReadShort(e: Unit, tail: Text)
    requires e != 117
    ensures Read([BACKSLASH, e] + tail) == ([Unescape(e)] + Read(tail).0, Read(tail).1)
  {
    assert ([BACKSLASH, e] + tail)[2..] == tail;
  }

  lemma ReadLong(a: Unit, b: Unit, c: Unit, d: Unit, tail: Text)
    ensures Read([BACKSLASH, 117, a, b, c, d] + tail) == ([FromHex(a, b, c, d)] + Read(tail).0, Read(tail).1)
  {
    var text := [BACKSLASH, 117, a, b, c, d] + tail;
    assert text[6..] == tail && text[2] == a && text[3] == b && text[4] == c && text[5] == d;
    hide FromHex, Unescape;
  }

  /** One escaped code unit reads back as that unit. */
  lemma ReadEscaped(c: Unit, tail: Text)
    ensures Read(Escape(c) + tail) == ([c] + Read(tail).0, Read(tail).1)
  {
    hide Read, FromHex, HexDigit;
    if Escape(c) == UnicodeEscape(c) {
      HexRoundTrip(c);
      ReadLong(HexDigit(c / 4096), HexDigit(c / 256 % 16), HexDigit(c / 16 % 16), HexDigit(c % 16), tail);
    } else if |Escape(c)| == 2 {
      ReadShort(Escape(c)[1], tail);
    } else {
      ReadPlain(c, tail);
    }
  }

  lemma Regroup(a: Text, b: Text, c: Text, d: Text)
    ensures a + b + c + d == a + (b + c + d)
  {
  }

  lemma ReadPair(s: Text, rest: Text)
    requires |s| > 1 && IsHigh(s[0]) && IsLow(s[1])
    ensures Read([s[0], s[1]] + rest) == ([s[0], s[1]] + Read(rest).0, Read(rest).1)
  {
    hide Read;
    ReadPlain(s[0], [s[1]] + rest);
    ReadPlain(s[1], rest);
    assert [s[0], s[1]] + rest == [s[0]] + ([s[1]] + rest);
    assert [s[0]] + ([s[1]] + Read(rest).0) == [s[0], s[1]] + Read(rest).0;
  }

  lemma ReadEnd(tail: Text)
    ensures Read(Body([]) + [QUOTE] + tail) == ([], tail)
  {
    assert Body([]) + [QUOTE] + tail == [QUOTE] + tail;
    assert ([QUOTE] + tail)[1..] == tail;
  }

  /** Printing a string and reading it back gives the string and exactly what followed. */
  lemma {:induction false} ReadBody(s: Text, tail: Text)
    ensures Read(Body(s) + [QUOTE] + tail) == (s, tail)
  {
    hide Read, Escape;
    if s == [] {
      ReadEnd(tail);
    } else if IsHigh(s[0]) && |s| > 1 && IsLow(s[1]) {
      ReadBody(s[2..], tail);
      Regroup([s[0], s[1]], Body(s[2..]), [QUOTE], tail);
      ReadPair(s, Body(s[2..]) + [QUOTE] + tail);
      assert s == [s[0], s[1]] + s[2..];
    } else {
      ReadBody(s[1..], tail);
      Regroup(Escape(s[0]), Body(s[1..]), [QUOTE], tail);
      ReadEscaped(s[0], Body(s[1..]) + [QUOTE] + tail);
      assert s == [s[0]] + s[1..];
    }
  }

  /** Printed strings end where they say, so they can be compared in front of any text. */
  lemma QuoteInjective(s: Text, t: Text, after: Text, after': Text)
    requires Quote(s) + after == Quote(t) + after'
    ensures s == t && after == after'
  {
    hide Read, Body;
    ReadBody(s, after);
    ReadBody(t, after');
    assert (Quote(s) + after)[1..] == Body(s) + [QUOTE] + after;
    assert (Quote(t) + after')[1..] == Body(t) + [QUOTE] + after';
  }
}
