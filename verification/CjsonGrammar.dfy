// What the parser reads, as a grammar: the ways in which a value can be written, and what each of
// them means. Strings follow section 7 of RFC 8259 and sections 3 and 4 of RFC 3629.
module JsonGrammar {
  import opened Words
  import opened JsonText

  /* ---- UTF-8 ---- */

  predicate Continues(c: byte) {
    0x80 <= c < 0xC0
  }

  // The bits of a byte behind those that mark its place.
  function Bits(c: byte, mark: nat): nat
    requires mark <= c
  {
    c - mark
  }

  // The code point that a sequence of bytes stands for, if it is the shortest one for it.
  function Utf8Value(s: seq<byte>): Option<nat> {
    if |s| == 1 && s[0] < 0x80 then Some(s[0])
    else if |s| == 2 && 0xC0 <= s[0] < 0xE0 && Continues(s[1]) then
      AtLeast(0x80, 0x40 * Bits(s[0], 0xC0) + Bits(s[1], 0x80))
    else if |s| == 3 && 0xE0 <= s[0] < 0xF0 && Continues(s[1]) && Continues(s[2]) then
      AtLeast(0x800, 0x40 * (0x40 * Bits(s[0], 0xE0) + Bits(s[1], 0x80)) + Bits(s[2], 0x80))
    else if |s| == 4 && 0xF0 <= s[0] < 0xF8 && Continues(s[1]) && Continues(s[2]) && Continues(s[3]) then
      AtLeast(0x1_0000, 0x40 * (0x40 * (0x40 * Bits(s[0], 0xF0) + Bits(s[1], 0x80)) + Bits(s[2], 0x80)) + Bits(s[3], 0x80))
    else None
  }

  function AtLeast(least: nat, uc: nat): Option<nat> {
    if least <= uc < 0x11_0000 then Some(uc) else None
  }

  lemma SixBits(high: nat, low: nat)
    requires low < 0x40
    ensures (0x40 * high + low) / 0x40 == high && (0x40 * high + low) % 0x40 == low
  {
  }

  lemma Utf8Splits(uc: nat)
    ensures uc / 0x1000 == uc / 0x40 / 0x40 && uc / 0x4_0000 == uc / 0x40 / 0x40 / 0x40
    ensures uc == 0x40 * (uc / 0x40) + uc % 0x40
  {
  }

  // The parser writes the bytes that stand for the code point, and there are no others.
  lemma Utf8IsExact(uc: nat, s: seq<byte>)
    requires uc < 0x11_0000
    ensures Utf8Value(s) == Some(uc) <==> s == Utf8(uc)
  {
    Utf8Back(uc);
    if Utf8Value(s) == Some(uc) {
      Utf8Only(uc, s);
    }
  }

  lemma Utf8Back(uc: nat)
    requires uc < 0x11_0000
    ensures Utf8Value(Utf8(uc)) == Some(uc)
  {
    Utf8Splits(uc);
    Utf8Splits(uc / 0x40);
    Utf8Splits(uc / 0x1000);
  }

  lemma Utf8Only(uc: nat, s: seq<byte>)
    requires uc < 0x11_0000 && Utf8Value(s) == Some(uc)
    ensures s == Utf8(uc)
  {
    if |s| == 2 {
      SixBits(Bits(s[0], 0xC0), Bits(s[1], 0x80));
    } else if |s| == 3 {
      ThreeOnly(uc, s);
    } else if |s| == 4 {
      FourOnly(uc, s);
    }
  }

  lemma ThreeOnly(uc: nat, s: seq<byte>)
    requires uc < 0x11_0000 && |s| == 3 && Utf8Value(s) == Some(uc)
    ensures s == Utf8(uc)
  {
    Utf8Splits(uc);
    SixBits(0x40 * Bits(s[0], 0xE0) + Bits(s[1], 0x80), Bits(s[2], 0x80));
    SixBits(Bits(s[0], 0xE0), Bits(s[1], 0x80));
  }

  lemma FourOnly(uc: nat, s: seq<byte>)
    requires uc < 0x11_0000 && |s| == 4 && Utf8Value(s) == Some(uc)
    ensures s == Utf8(uc)
  {
    Utf8Splits(uc);
    Utf8Splits(uc / 0x40);
    var high := 0x40 * Bits(s[0], 0xF0) + Bits(s[1], 0x80);
    SixBits(0x40 * high + Bits(s[2], 0x80), Bits(s[3], 0x80));
    SixBits(high, Bits(s[2], 0x80));
    SixBits(Bits(s[0], 0xF0), Bits(s[1], 0x80));
  }

  /* ---- Strings ---- */

  // A character of a string: as it is, by a letter behind a backslash, or by the number of its
  // code point, where each digit may be upper or lower case.
  datatype Written = Raw(c: byte) | Short(k: nat) | Point(uc: nat, caps: seq<bool>)

  // The letters, and what they stand for.
  const SHORT: seq<(byte, byte)> :=
    [(0x22, 0x22), (0x5C, 0x5C), (0x2F, 0x2F), (0x62, 0x08), (0x66, 0x0C), (0x6E, 0x0A), (0x72, 0x0D), (0x74, 0x09)]

  predicate Surrogate(u: nat) {
    0xD800 <= u < 0xE000
  }

  predicate CanWrite(w: Written) {
    match w
    case Raw(c) => c != 0 && c != QUOTE && c != BACKSLASH
    case Short(k) => k < |SHORT|
    case Point(uc, caps) => 0 < uc < 0x11_0000 && !Surrogate(uc) && |caps| == 8
  }

  function HexText(v: nat, cap: bool): byte
    requires v < 16
  {
    if v < 10 then 0x30 + v else if cap then 0x41 + v - 10 else 0x61 + v - 10
  }

  // A code unit: a backslash, the letter u, and four digits.
  function Unit(u: nat, caps: seq<bool>): (r: seq<byte>)
    requires u < 0x1_0000 && |caps| == 4
    ensures |r| == 6
  {
    [BACKSLASH, 0x75, HexText(u / 0x1000, caps[0]), HexText(u / 0x100 % 0x10, caps[1]), HexText(u / 0x10 % 0x10, caps[2]),
     HexText(u % 0x10, caps[3])]
  }

  function WrittenText(w: Written): (r: seq<byte>)
    requires CanWrite(w)
    ensures r != []
  {
    match w
    case Raw(c) => [c]
    case Short(k) => [BACKSLASH, SHORT[k].0]
    case Point(uc, caps) =>
      if uc < 0x1_0000 then Unit(uc, caps[..4])
      else Unit(0xD800 + (uc - 0x1_0000) / 0x400, caps[..4]) + Unit(0xDC00 + (uc - 0x1_0000) % 0x400, caps[4..])
  }

  function WrittenValue(w: Written): (r: seq<byte>)
    requires CanWrite(w)
  {
    match w
    case Raw(c) => [c]
    case Short(k) => [SHORT[k].1]
    case Point(uc, _) => Utf8(uc)
  }

  predicate CanWriteAll(ws: seq<Written>) {
    forall i :: 0 <= i < |ws| ==> CanWrite(ws[i])
  }

  function WrittenTexts(ws: seq<Written>): seq<byte>
    requires CanWriteAll(ws)
  {
    if ws == [] then [] else WrittenText(ws[0]) + WrittenTexts(ws[1..])
  }

  function WrittenValues(ws: seq<Written>): seq<byte>
    requires CanWriteAll(ws)
  {
    if ws == [] then [] else WrittenValue(ws[0]) + WrittenValues(ws[1..])
  }

  lemma HexReads(v: nat, cap: bool)
    requires v < 16
    ensures HexValue(HexText(v, cap)) == v
    ensures HexText(v, cap) != 0 && HexText(v, cap) != QUOTE && HexText(v, cap) != BACKSLASH
  {
  }

  lemma UnitReads(u: nat, caps: seq<bool>, more: seq<byte>)
    requires u < 0x1_0000 && |caps| == 4
    ensures var t := Unit(u, caps) + more;
            && |t| == 6 + |more| && t[0] == BACKSLASH && t[1] == 0x75 && Hex4(t[2..]) == u && t[6..] == more
    ensures forall i :: 2 <= i < 6 ==> Unit(u, caps)[i] != 0 && Unit(u, caps)[i] != QUOTE && Unit(u, caps)[i] != BACKSLASH
  {
    HexReads(u / 0x1000, caps[0]);
    HexReads(u / 0x100 % 0x10, caps[1]);
    HexReads(u / 0x10 % 0x10, caps[2]);
    HexReads(u % 0x10, caps[3]);
    hide HexText, HexValue;
    var t := Unit(u, caps) + more;
    assert forall i :: 0 <= i < 4 ==> t[2..][i] == Unit(u, caps)[i + 2];
    Digits4(u);
  }

  lemma Digits4(u: nat)
    requires u < 0x1_0000
    ensures u == 0x1000 * (u / 0x1000) + 0x100 * (u / 0x100 % 0x10) + 0x10 * (u / 0x10 % 0x10) + u % 0x10
  {
    assert u / 0x10 / 0x10 == u / 0x100 && u / 0x100 / 0x10 == u / 0x1000;
  }

  // A code point outside the first 0x1_0000 is written as a pair of code units, and the parser
  // puts them together; one inside is written as one. Code units that do not belong to a pair
  // are refused.
  lemma PointReads(uc: nat, caps: seq<bool>, more: seq<byte>)
    requires CanWrite(Point(uc, caps))
    ensures UnicodeEscape(WrittenText(Point(uc, caps)) + more) == Some((Utf8(uc), if uc < 0x1_0000 then 6 else 12))
  {
    hide Unit, Hex4, Utf8;
    if uc < 0x1_0000 {
      UnitReads(uc, caps[..4], more);
    } else {
      var hi, lo := 0xD800 + (uc - 0x1_0000) / 0x400, 0xDC00 + (uc - 0x1_0000) % 0x400;
      var second := Unit(lo, caps[4..]) + more;
      UnitReads(hi, caps[..4], second);
      UnitReads(lo, caps[4..], more);
      Concat3(Unit(hi, caps[..4]), Unit(lo, caps[4..]), more);
      var t := Unit(hi, caps[..4]) + second;
      assert t[6] == t[6..][0] && t[7] == t[6..][1] && t[8..] == t[6..][2..];
      PairJoins(uc);
    }
  }

  lemma PairJoins(uc: nat)
    requires 0x1_0000 <= uc < 0x11_0000
    ensures var hi, lo := 0xD800 + (uc - 0x1_0000) / 0x400, 0xDC00 + (uc - 0x1_0000) % 0x400;
            && hi <= 0xDBFF && lo <= 0xDFFF && 0x1_0000 + hi % 0x400 * 0x400 + lo % 0x400 == uc
  {
  }

  lemma ShortReads(k: nat)
    requires k < |SHORT|
    ensures SHORT[k].0 != 0 && Unescaped(SHORT[k].0) == SHORT[k].1 != 0
  {
  }

  lemma WrittenReads(w: Written, more: seq<byte>)
    requires CanWrite(w)
    ensures Unescape(WrittenText(w) + more) == Prefixed(WrittenValue(w), Unescape(more))
  {
    var body := WrittenText(w) + more;
    match w
    case Raw(c) =>
      assert body[1..] == more;
    case Short(k) =>
      ShortReads(k);
      assert body[2..] == more;
    case Point(uc, caps) =>
      PointReads(uc, caps, more);
      hide UnicodeEscape, Utf8;
      UnitStarts(uc, caps, more);
      assert Unescaped(0x75) == 0;
      assert body[|WrittenText(w)|..] == more;
  }

  lemma UnitStarts(uc: nat, caps: seq<bool>, more: seq<byte>)
    requires CanWrite(Point(uc, caps))
    ensures var text := WrittenText(Point(uc, caps));
            |text| == (if uc < 0x1_0000 then 6 else 12) && text[0] == BACKSLASH && text[1] == 0x75
  {
    hide HexText;
  }

  lemma {:induction false} StringReads(ws: seq<Written>)
    requires CanWriteAll(ws)
    ensures Unescape(WrittenTexts(ws)) == Some(WrittenValues(ws))
    decreases |ws|
  {
    hide CanWrite, WrittenText, WrittenValue, Unescape;
    if ws == [] {
      Nothing();
    } else {
      StringReads(ws[1..]);
      WrittenReads(ws[0], WrittenTexts(ws[1..]));
    }
  }

  lemma Nothing()
    ensures Unescape([]) == Some([])
  {
  }

  // A string as the parser reads it; at the end of the text the closing quote may be missing.
  function QuotedText(ws: seq<Written>, closed: bool): seq<byte>
    requires CanWriteAll(ws)
  {
    [QUOTE] + (WrittenTexts(ws) + if closed then [QUOTE] else [])
  }

  // None of these bytes ends a string or begins an escape.
  predicate Plain(s: seq<byte>) {
    forall i :: 0 <= i < |s| ==> s[i] != 0 && s[i] != QUOTE && s[i] != BACKSLASH
  }

  function Longer(r: Option<nat>, n: nat): Option<nat> {
    match r
    case None => None
    case Some(m) => Some(n + m)
  }

  lemma {:induction false} PlainBody(s: seq<byte>, more: seq<byte>)
    requires Plain(s)
    ensures BodyLength(s + more) == Longer(BodyLength(more), |s|)
    decreases |s|
  {
    if s == [] {
      assert s + more == more;
    } else {
      assert (s + more)[1..] == s[1..] + more;
      PlainBody(s[1..], more);
    }
  }

  lemma EscapedBody(c: byte, s: seq<byte>, more: seq<byte>)
    requires c != 0 && Plain(s)
    ensures BodyLength([BACKSLASH, c] + s + more) == Longer(BodyLength(more), 2 + |s|)
  {
    var t := [BACKSLASH, c] + s + more;
    assert t[1..][0] == c && t[2..] == s + more;
    PlainBody(s, more);
  }

  lemma WrittenBody(w: Written, more: seq<byte>)
    requires CanWrite(w)
    ensures BodyLength(WrittenText(w) + more) == Longer(BodyLength(more), |WrittenText(w)|)
  {
    hide BodyLength;
    match w
    case Raw(c) =>
      PlainBody([c], more);
    case Short(k) =>
      ShortReads(k);
      EscapedBody(SHORT[k].0, [], more);
      assert [BACKSLASH, SHORT[k].0] + [] + more == WrittenText(w) + more;
    case Point(uc, caps) =>
      if uc < 0x1_0000 {
        UnitBody(uc, caps[..4], more);
      } else {
        var hi, lo := 0xD800 + (uc - 0x1_0000) / 0x400, 0xDC00 + (uc - 0x1_0000) % 0x400;
        UnitBody(lo, caps[4..], more);
        UnitBody(hi, caps[..4], Unit(lo, caps[4..]) + more);
        Concat3(Unit(hi, caps[..4]), Unit(lo, caps[4..]), more);
      }
  }

  lemma UnitBody(u: nat, caps: seq<bool>, more: seq<byte>)
    requires u < 0x1_0000 && |caps| == 4
    ensures BodyLength(Unit(u, caps) + more) == Longer(BodyLength(more), 6)
  {
    hide BodyLength;
    UnitReads(u, caps, more);
    var s := Unit(u, caps)[2..];
    EscapedBody(0x75, s, more);
    assert [BACKSLASH, 0x75] + s == Unit(u, caps);
  }

  lemma {:induction false} StringBody(ws: seq<Written>, end: seq<byte>)
    requires CanWriteAll(ws) && (Peek(end) == 0 || Peek(end) == QUOTE)
    ensures BodyLength(WrittenTexts(ws) + end) == Some(|WrittenTexts(ws)|)
    decreases |ws|
  {
    hide CanWrite, WrittenText;
    if ws == [] {
      assert WrittenTexts(ws) + end == end;
    } else {
      hide BodyLength;
      StringBody(ws[1..], end);
      WrittenBody(ws[0], WrittenTexts(ws[1..]) + end);
      Concat3(WrittenText(ws[0]), WrittenTexts(ws[1..]), end);
    }
  }

  // However a string is written, it is read as what that means.
  lemma QuotedReads(ws: seq<Written>, closed: bool, rest: seq<byte>)
    requires CanWriteAll(ws) && (closed || Peek(rest) == 0)
    ensures ParseString(QuotedText(ws, closed) + rest) == Parsed(WrittenValues(ws), rest)
  {
    hide BodyLength, Unescape, CanWriteAll, WrittenTexts, WrittenValues;
    var t, e := QuotedText(ws, closed) + rest, WrittenTexts(ws);
    var end := (if closed then [QUOTE] else []) + rest;
    StringBody(ws, end);
    StringReads(ws);
    assert t[1..] == e + end;
    assert (e + end)[..|e|] == e && (e + end)[|e|..] == end;
    assert closed ==> end[1..] == rest;
    assert !closed ==> end == rest;
  }

  /* ---- Nothing else is read as a string ---- */

  lemma HexOnly(c: byte)
    requires HexValue(c) < 16
    ensures HexText(HexValue(c), 0x41 <= c <= 0x46) == c
  {
  }

  lemma FourDigits(a: nat, b: nat, c: nat, d: nat)
    requires a < 0x10 && b < 0x10 && c < 0x10 && d < 0x10
    ensures var u := 0x1000 * a + 0x100 * b + 0x10 * c + d;
            u / 0x1000 == a && u / 0x100 % 0x10 == b && u / 0x10 % 0x10 == c && u % 0x10 == d
  {
    var u := 0x1000 * a + 0x100 * b + 0x10 * c + d;
    assert u / 0x10 == 0x100 * a + 0x10 * b + c && u / 0x100 == 0x10 * a + b;
  }

  lemma UnitOnly(t: seq<byte>) returns (caps: seq<bool>)
    requires 2 <= |t| && t[0] == BACKSLASH && t[1] == 0x75 && Hex4(t[2..]) != 0
    ensures |caps| == 4 && 6 <= |t| && t[..6] == Unit(Hex4(t[2..]), caps)
  {
    hide HexValue, HexText;
    var a, b, c, d := t[2..][0], t[2..][1], t[2..][2], t[2..][3];
    caps := [0x41 <= a <= 0x46, 0x41 <= b <= 0x46, 0x41 <= c <= 0x46, 0x41 <= d <= 0x46];
    FourDigits(HexValue(a), HexValue(b), HexValue(c), HexValue(d));
    HexOnly(a);
    HexOnly(b);
    HexOnly(c);
    HexOnly(d);
    assert t[..6] == [BACKSLASH, 0x75, a, b, c, d];
  }

  lemma PointOnly(body: seq<byte>) returns (w: Written)
    requires 2 <= |body| && body[0] == BACKSLASH && body[1] == 0x75 && UnicodeEscape(body).Some?
    ensures w.Point? && CanWrite(w)
    ensures UnicodeEscape(body).value == (WrittenValue(w), |WrittenText(w)|) && body[..|WrittenText(w)|] == WrittenText(w)
  {
    hide Unit, Hex4, Utf8;
    var uc := Hex4(body[2..]);
    var caps := UnitOnly(body);
    if 0xD800 <= uc <= 0xDBFF {
      var second := body[6..];
      assert second[0] == body[6] && second[1] == body[7] && second[2..] == body[8..];
      var uc2 := Hex4(body[8..]);
      var caps2 := UnitOnly(second);
      var point := 0x1_0000 + uc % 0x400 * 0x400 + uc2 % 0x400;
      PairOnly(uc, uc2);
      w := Point(point, caps + caps2);
      assert (caps + caps2)[..4] == caps && (caps + caps2)[4..] == caps2;
      assert body[..12] == body[..6] + second[..6];
    } else {
      w := Point(uc, caps + caps);
      assert (caps + caps)[..4] == caps;
    }
  }

  lemma PairOnly(hi: nat, lo: nat)
    requires 0xD800 <= hi <= 0xDBFF && 0xDC00 <= lo <= 0xDFFF
    ensures var uc := 0x1_0000 + hi % 0x400 * 0x400 + lo % 0x400;
            && 0x1_0000 <= uc < 0x11_0000 && hi == 0xD800 + (uc - 0x1_0000) / 0x400 && lo == 0xDC00 + (uc - 0x1_0000) % 0x400
  {
  }

  lemma ShortOnly(letter: byte) returns (k: nat)
    requires Unescaped(letter) != 0
    ensures k < |SHORT| && SHORT[k] == (letter, Unescaped(letter))
  {
    k := if letter == 0x22 then 0 else if letter == 0x5C then 1 else if letter == 0x2F then 2 else if letter == 0x62 then 3
         else if letter == 0x66 then 4 else if letter == 0x6E then 5 else if letter == 0x72 then 6 else 7;
  }

  // The first character of a body that can be unescaped.
  lemma FirstWritten(body: seq<byte>, end: seq<byte>) returns (w: Written)
    requires body != [] && Unescape(body).Some? && BodyLength(body + end) == Some(|body|)
    ensures CanWrite(w) && |WrittenText(w)| <= |body| && body[..|WrittenText(w)|] == WrittenText(w)
  {
    hide UnicodeEscape, Unescaped, Unit, Utf8;
    if body[0] != BACKSLASH {
      w := Raw(body[0]);
    } else if Unescaped(body[1]) != 0 {
      var k := ShortOnly(body[1]);
      w := Short(k);
    } else {
      w := PointOnly(body);
    }
  }

  lemma {:induction false} StringOnly(body: seq<byte>, end: seq<byte>) returns (ws: seq<Written>)
    requires Unescape(body).Some? && BodyLength(body + end) == Some(|body|)
    ensures CanWriteAll(ws) && WrittenTexts(ws) == body && WrittenValues(ws) == Unescape(body).value
    decreases |body|
  {
    if body == [] {
      ws := [];
    } else {
      var w := FirstWritten(body, end);
      hide CanWrite, WrittenText, WrittenValue, Unescape, BodyLength;
      var n := |WrittenText(w)|;
      var more := body[n..];
      assert body == WrittenText(w) + more;
      Concat3(WrittenText(w), more, end);
      WrittenBody(w, more + end);
      WrittenReads(w, more);
      ws := StringOnly(more, end);
      ws := [w] + ws;
      assert ws[1..] + [] == ws[1..];
    }
  }

  // What is read as a string is one that has been written in one of these ways.
  lemma QuotedOnly(t: seq<byte>) returns (ws: seq<Written>, closed: bool)
    requires ParseString(t).Parsed?
    ensures CanWriteAll(ws) && (closed || Peek(ParseString(t).rest) == 0)
    ensures ParseString(t).value == WrittenValues(ws) && t == QuotedText(ws, closed) + ParseString(t).rest
  {
    var body, end := QuotedParts(t);
    hide *;
    ws := StringOnly(body, end);
    closed := Peek(end) == QUOTE;
    QuotedJoins(t, ws, body, end);
  }

  lemma QuotedParts(t: seq<byte>) returns (body: seq<byte>, end: seq<byte>)
    requires ParseString(t).Parsed?
    ensures t == [QUOTE] + (body + end) && BodyLength(body + end) == Some(|body|)
    ensures (body + end)[..|body|] == body && Unescape(body) == Some(ParseString(t).value)
    ensures Peek(end) == 0 || Peek(end) == QUOTE
    ensures ParseString(t).rest == if Peek(end) == QUOTE then end[1..] else end
  {
    hide Unescape, BodyLength;
    var n := BodyLength(t[1..]).value;
    body, end := t[1..][..n], t[1..][n..];
    assert t[1..] == body + end;
    BodyEnds(t[1..]);
  }

  lemma QuotedJoins(t: seq<byte>, ws: seq<Written>, body: seq<byte>, end: seq<byte>)
    requires CanWriteAll(ws) && WrittenTexts(ws) == body && t == [QUOTE] + (body + end)
    requires Peek(end) == 0 || Peek(end) == QUOTE
    ensures t == QuotedText(ws, Peek(end) == QUOTE) + if Peek(end) == QUOTE then end[1..] else end
  {
    hide WrittenTexts, CanWriteAll;
    if Peek(end) == QUOTE {
      assert end == [QUOTE] + end[1..];
      Concat3(body, [QUOTE], end[1..]);
      Concat3([QUOTE], body + [QUOTE], end[1..]);
    } else {
      assert body + [] == body;
      Concat3([QUOTE], body, end);
    }
  }

  lemma {:induction false} BodyEnds(t: seq<byte>)
    ensures BodyLength(t).Some? ==> var end := t[BodyLength(t).value..];
                                    Peek(end) == 0 || Peek(end) == QUOTE
    decreases |t|
  {
    if Peek(t) == 0 || Peek(t) == QUOTE {
    } else if t[0] != BACKSLASH {
      BodyEnds(t[1..]);
    } else if Peek(t[1..]) != 0 {
      BodyEnds(t[2..]);
    }
  }

  /* ---- Values ---- */

  // How a value is written, with all white space. An integer may have a zero in front, and the
  // parser takes a minus alone for one as well.
  datatype Syntax =
    | NullWord | FalseWord | TrueWord
    | Num(minus: bool, zero: bool, n: nat)
    | Str(ws: seq<Written>, closed: bool)
    | Arr(space: seq<byte>, elements: Elements)
    | Obj(space: seq<byte>, pairs: Pairs)
  datatype Elements = NoElement | Element(before: seq<byte>, v: Syntax, after: seq<byte>, next: Elements)
  datatype Pairs =
    | NoPair
    | Pair(before: seq<byte>, key: seq<Written>, colon: seq<byte>, space: seq<byte>, v: Syntax, after: seq<byte>, next: Pairs)

  function NumText(minus: bool, zero: bool, n: nat): seq<byte> {
    When(minus, [MINUS]) + (When(zero, [0x30]) + if n == 0 then [] else Digits(n))
  }

  function SyntaxText(x: Syntax): seq<byte>
    requires Grammatical(x)
    decreases x
  {
    match x
    case NullWord => NULL_WORD
    case FalseWord => FALSE_WORD
    case TrueWord => TRUE_WORD
    case Num(minus, zero, n) => NumText(minus, zero, n)
    case Str(ws, closed) => QuotedText(ws, closed)
    case Arr(space, elements) => [OPEN_ARRAY] + (space + ElementsText(elements))
    case Obj(space, pairs) => [OPEN_OBJECT] + (space + PairsText(pairs))
  }

  // From the first element to the closing bracket.
  function ElementsText(e: Elements): seq<byte>
    requires GrammaticalElements(e)
    decreases e, 0
  {
    match e
    case NoElement => [CLOSE_ARRAY]
    case Element(before, v, after, next) => before + (SyntaxText(v) + (after + MoreElements(next)))
  }

  function MoreElements(e: Elements): seq<byte>
    requires GrammaticalElements(e)
    decreases e, 1
  {
    When(e.Element?, [COMMA]) + ElementsText(e)
  }

  function PairsText(p: Pairs): seq<byte>
    requires GrammaticalPairs(p)
    decreases p, 0
  {
    match p
    case NoPair => [CLOSE_OBJECT]
    case Pair(before, key, colon, space, v, after, next) =>
      before + (QuotedText(key, true) + (colon + ([COLON] + (space + (SyntaxText(v) + (after + MorePairs(next)))))))
  }

  function MorePairs(p: Pairs): seq<byte>
    requires GrammaticalPairs(p)
    decreases p, 1
  {
    When(p.Pair?, [COMMA]) + PairsText(p)
  }

  // White space where it may be, and characters as they can be written. White space in front
  // of the first element belongs to that.
  predicate Grammatical(x: Syntax)
    decreases x
  {
    match x
    case Num(minus, zero, n) => minus || zero || 0 < n
    case Str(ws, _) => CanWriteAll(ws)
    case Arr(space, elements) => White(space) && (elements.Element? ==> space == []) && GrammaticalElements(elements)
    case Obj(space, pairs) => White(space) && (pairs.Pair? ==> space == []) && GrammaticalPairs(pairs)
    case _ => true
  }

  predicate GrammaticalElements(e: Elements)
    decreases e
  {
    e.Element? ==> White(e.before) && White(e.after) && Grammatical(e.v) && GrammaticalElements(e.next)
  }

  predicate GrammaticalPairs(p: Pairs)
    decreases p
  {
    p.Pair? ==>
      && White(p.before) && CanWriteAll(p.key) && White(p.colon) && White(p.space) && White(p.after)
      && Grammatical(p.v) && GrammaticalPairs(p.next)
  }

  function Signed(minus: bool, n: nat): int {
    var m: int := n;
    if minus then -m else m
  }

  function Value(x: Syntax): Json
    requires Grammatical(x)
    decreases x
  {
    match x
    case NullWord => Null
    case FalseWord => False
    case TrueWord => True
    case Num(minus, _, n) => Number(Signed(minus, n))
    case Str(ws, _) => String(WrittenValues(ws))
    case Arr(_, elements) => Array(ElementsValue(elements))
    case Obj(_, pairs) => Object(PairsValue(pairs))
  }

  function ElementsValue(e: Elements): Items
    requires GrammaticalElements(e)
    decreases e
  {
    if e.NoElement? then NoItem else Item(Value(e.v), ElementsValue(e.next))
  }

  function PairsValue(p: Pairs): Members
    requires GrammaticalPairs(p)
    decreases p
  {
    if p.NoPair? then NoMember else Member(WrittenValues(p.key), Value(p.v), PairsValue(p.next))
  }

  // What comes next does not belong to the value. Only integers of 32 bits are read, and a
  // string without a closing quote is one at the end of the text.
  predicate Ends(x: Syntax, rest: seq<byte>)
    requires Grammatical(x)
    decreases x
  {
    match x
    case Num(minus, zero, n) =>
      && INT_MIN <= Value(x).n <= INT_MAX
      && (IsDigit(Peek(rest)) ==> n == 0 && zero && Peek(rest) == 0x30)
      && !(Peek(rest) == 0x2E && IsDigit(Peek(rest[1..]))) && Peek(rest) != 0x65 && Peek(rest) != 0x45
    case Str(_, closed) => closed || Peek(rest) == 0
    case Arr(_, elements) => ElementsEnd(elements, rest)
    case Obj(_, pairs) => PairsEnd(pairs, rest)
    case _ => true
  }

  predicate ElementsEnd(e: Elements, rest: seq<byte>)
    requires GrammaticalElements(e)
    decreases e
  {
    e.Element? ==> Ends(e.v, e.after + (MoreElements(e.next) + rest)) && ElementsEnd(e.next, rest)
  }

  predicate PairsEnd(p: Pairs, rest: seq<byte>)
    requires GrammaticalPairs(p)
    decreases p
  {
    p.Pair? ==> Ends(p.v, p.after + (MorePairs(p.next) + rest)) && PairsEnd(p.next, rest)
  }

  /* ---- What is written is read ---- */

  lemma NumReads(minus: bool, zero: bool, n: nat, rest: seq<byte>)
    requires Grammatical(Num(minus, zero, n)) && Ends(Num(minus, zero, n), rest)
    ensures ParseNumber(NumText(minus, zero, n) + rest) == Parsed(Number(Signed(minus, n)), rest)
    ensures Peek(NumText(minus, zero, n) + rest) == MINUS || IsDigit(Peek(NumText(minus, zero, n) + rest))
  {
    hide Digits, ParseDigits;
    var digits := if n == 0 then [] else Digits(n);
    var t := NumText(minus, zero, n) + rest;
    var t2 := digits + rest;
    var t1 := When(zero, [0x30]) + t2;
    Concat3(When(minus, [MINUS]), When(zero, [0x30]) + digits, rest);
    Concat3(When(zero, [0x30]), digits, rest);
    assert t == When(minus, [MINUS]) + t1;
    if n == 0 {
      assert t2 == rest;
    } else {
      FirstDigit(n);
      DigitsParse(n, rest);
      DigitsEnd(rest, n);
      assert Peek(t2) == Digits(n)[0];
    }
    assert zero ==> t1[1..] == t2;
    assert !zero ==> t1 == t2;
    assert minus ==> t[1..] == t1;
    assert !minus ==> t == t1;
  }

  lemma DigitsEnd(t: seq<byte>, n: nat)
    ensures !IsDigit(Peek(t)) ==> ParseDigits(t, n) == (n, t)
  {
  }

  lemma WordReads(x: Syntax, rest: seq<byte>)
    requires x.NullWord? || x.FalseWord? || x.TrueWord?
    ensures ParseValue(SyntaxText(x) + rest) == Parsed(Value(x), rest)
  {
    WordsParse(Value(x), 0, false, rest);
  }

  lemma SyntaxStarts(x: Syntax)
    requires Grammatical(x)
    ensures SyntaxText(x) != [] && Starts(SyntaxText(x)[0])
  {
    hide Digits, WrittenTexts, ElementsText, PairsText;
    if x.Num? && 0 < x.n {
      FirstDigit(x.n);
    }
  }

  // However a value is written, what is read is its meaning, and nothing behind it is taken.
  lemma {:induction false} SyntaxReads(x: Syntax, rest: seq<byte>)
    requires Grammatical(x) && Ends(x, rest)
    ensures ParseValue(SyntaxText(x) + rest) == Parsed(Value(x), rest)
    decreases x
  {
    var t := SyntaxText(x) + rest;
    match x
    case Num(minus, zero, n) =>
      NumReads(minus, zero, n, rest);
      NotAWord(t, t[0]);
    case Str(ws, closed) =>
      QuotedReads(ws, closed, rest);
      NotAWord(t, QUOTE);
    case Arr(space, elements) =>
      ArrReads(space, elements, rest);
    case Obj(space, pairs) =>
      ObjReads(space, pairs, rest);
    case _ =>
      WordReads(x, rest);
  }

  // An opening bracket, white space, and what comes behind.
  lemma Opened(c: byte, space: seq<byte>, inner: seq<byte>, rest: seq<byte>)
    requires White(space)
    ensures var t := [c] + (space + inner) + rest;
            Peek(t) == c && Skip(t[1..]) == Skip(inner + rest)
  {
    hide Skip;
    var t := [c] + (space + inner) + rest;
    Concat3(space, inner, rest);
    assert t[1..] == space + (inner + rest);
    SkipWhite(space, inner + rest);
  }

  lemma {:induction false} ArrReads(space: seq<byte>, elements: Elements, rest: seq<byte>)
    requires Grammatical(Arr(space, elements)) && ElementsEnd(elements, rest)
    ensures ParseValue(SyntaxText(Arr(space, elements)) + rest) == Parsed(Array(ElementsValue(elements)), rest)
    decreases elements, 1
  {
    hide ParseValue, ParseItems, Skip, White, ElementsText, Ends, ElementsEnd, ElementsValue;
    var t := SyntaxText(Arr(space, elements)) + rest;
    var inner := ElementsText(elements);
    Opened(OPEN_ARRAY, space, inner, rest);
    ValueIsArray(t);
    match elements
    case NoElement =>
      LastElement(rest);
    case Element(before, v, after, next) =>
      ElementStarts(elements, rest);
      SkipTwice(inner + rest);
      SpacedItems(Skip(inner + rest), inner + rest);
      ElementsRead(elements, rest);
  }

  lemma LastElement(rest: seq<byte>)
    ensures ElementsText(NoElement) + rest == [CLOSE_ARRAY] + rest && Skip([CLOSE_ARRAY] + rest) == [CLOSE_ARRAY] + rest
    ensures ([CLOSE_ARRAY] + rest)[1..] == rest && ElementsValue(NoElement) == NoItem
  {
  }

  lemma ElementSplits(e: Elements, rest: seq<byte>)
    requires GrammaticalElements(e) && e.Element?
    ensures ElementsText(e) + rest == e.before + (SyntaxText(e.v) + (e.after + (MoreElements(e.next) + rest)))
  {
    hide SyntaxText, MoreElements, White;
    Concat3(e.before, SyntaxText(e.v) + (e.after + MoreElements(e.next)), rest);
    Concat3(SyntaxText(e.v), e.after + MoreElements(e.next), rest);
    Concat3(e.after, MoreElements(e.next), rest);
  }

  lemma ElementStarts(e: Elements, rest: seq<byte>)
    requires GrammaticalElements(e) && e.Element?
    ensures Skip(ElementsText(e) + rest) == SyntaxText(e.v) + (e.after + (MoreElements(e.next) + rest))
    ensures Starts(Peek(Skip(ElementsText(e) + rest)))
  {
    ElementSplits(e, rest);
    SyntaxStarts(e.v);
    hide SyntaxText, ElementsText, MoreElements, White, Skip;
    var t := SyntaxText(e.v) + (e.after + (MoreElements(e.next) + rest));
    SkipWhite(e.before, t);
    SkipNone(t);
  }

  lemma {:induction false} ElementsRead(e: Elements, rest: seq<byte>)
    requires GrammaticalElements(e) && e.Element? && ElementsEnd(e, rest)
    ensures ParseItems(ElementsText(e) + rest) == Parsed(ElementsValue(e), rest)
    decreases e, 0
  {
    hide ParseValue, Skip, SyntaxText, ElementsText, White, Ends, Value;
    var more := MoreElements(e.next) + rest;
    ElementStarts(e, rest);
    SyntaxReads(e.v, e.after + more);
    SkipWhite(e.after, more);
    if e.next.NoElement? {
      LastElement(rest);
      assert more == ElementsText(NoElement) + rest;
    } else {
      Concat3([COMMA], ElementsText(e.next), rest);
      SkipNone(more);
      assert more[1..] == ElementsText(e.next) + rest;
      ElementsRead(e.next, rest);
    }
  }

  lemma {:induction false} ObjReads(space: seq<byte>, pairs: Pairs, rest: seq<byte>)
    requires Grammatical(Obj(space, pairs)) && PairsEnd(pairs, rest)
    ensures ParseValue(SyntaxText(Obj(space, pairs)) + rest) == Parsed(Object(PairsValue(pairs)), rest)
    decreases pairs, 1
  {
    hide ParseValue, ParseMembers, Skip, White, PairsText, Ends, PairsEnd, PairsValue, CanWriteAll;
    var t := SyntaxText(Obj(space, pairs)) + rest;
    var inner := PairsText(pairs);
    Opened(OPEN_OBJECT, space, inner, rest);
    ValueIsObject(t);
    match pairs
    case NoPair =>
      LastPair(rest);
    case Pair(_, _, _, _, _, _, _) =>
      PairStarts(pairs, rest);
      SkipTwice(inner + rest);
      SpacedMembers(Skip(inner + rest), inner + rest);
      PairsRead(pairs, rest);
  }

  lemma LastPair(rest: seq<byte>)
    ensures PairsText(NoPair) + rest == [CLOSE_OBJECT] + rest && Skip([CLOSE_OBJECT] + rest) == [CLOSE_OBJECT] + rest
    ensures ([CLOSE_OBJECT] + rest)[1..] == rest && PairsValue(NoPair) == NoMember
  {
  }

  // What comes behind the key of a pair, up to the value, and behind the value.
  function Behind(p: Pairs, rest: seq<byte>): seq<byte>
    requires GrammaticalPairs(p) && p.Pair?
  {
    SyntaxText(p.v) + (p.after + (MorePairs(p.next) + rest))
  }

  function Named(p: Pairs, rest: seq<byte>): seq<byte>
    requires GrammaticalPairs(p) && p.Pair?
  {
    p.colon + ([COLON] + (p.space + Behind(p, rest)))
  }

  lemma PairSplits(p: Pairs, rest: seq<byte>)
    requires GrammaticalPairs(p) && p.Pair?
    ensures PairsText(p) + rest == p.before + (QuotedText(p.key, true) + Named(p, rest))
  {
    hide SyntaxText, MorePairs, White, CanWriteAll, QuotedText;
    var key, value, more := QuotedText(p.key, true), SyntaxText(p.v), MorePairs(p.next);
    Concat3(p.before, key + (p.colon + ([COLON] + (p.space + (value + (p.after + more))))), rest);
    Concat3(key, p.colon + ([COLON] + (p.space + (value + (p.after + more)))), rest);
    Concat3(p.colon, [COLON] + (p.space + (value + (p.after + more))), rest);
    Concat3([COLON], p.space + (value + (p.after + more)), rest);
    Concat3(p.space, value + (p.after + more), rest);
    Concat3(value, p.after + more, rest);
    Concat3(p.after, more, rest);
  }

  lemma PairStarts(p: Pairs, rest: seq<byte>)
    requires GrammaticalPairs(p) && p.Pair?
    ensures Skip(PairsText(p) + rest) == QuotedText(p.key, true) + Named(p, rest)
    ensures Peek(Skip(PairsText(p) + rest)) == QUOTE
  {
    PairSplits(p, rest);
    hide SyntaxText, PairsText, White, Skip, CanWriteAll, WrittenTexts, Named;
    var t := QuotedText(p.key, true) + Named(p, rest);
    SkipWhite(p.before, t);
    SkipNone(t);
  }

  // The key and the colon.
  lemma NameReads(p: Pairs, rest: seq<byte>)
    requires GrammaticalPairs(p) && p.Pair?
    ensures var t1 := Skip(Named(p, rest));
            Peek(t1) == COLON && Skip(t1[1..]) == Behind(p, rest)
  {
    SyntaxStarts(p.v);
    hide SyntaxText, White, Skip, CanWriteAll, MorePairs;
    var t1 := [COLON] + (p.space + Behind(p, rest));
    SkipWhite(p.colon, t1);
    SkipNone(t1);
    assert t1[1..] == p.space + Behind(p, rest);
    SkipWhite(p.space, Behind(p, rest));
    SkipNone(Behind(p, rest));
  }

  lemma {:induction false} PairsRead(p: Pairs, rest: seq<byte>)
    requires GrammaticalPairs(p) && p.Pair? && PairsEnd(p, rest)
    ensures ParseMembers(PairsText(p) + rest) == Parsed(PairsValue(p), rest)
    decreases p, 0
  {
    hide ParseValue, ParseString, Skip, SyntaxText, PairsText, White, Ends, Value, CanWriteAll, Named, WrittenValues;
    var more := MorePairs(p.next) + rest;
    PairStarts(p, rest);
    QuotedReads(p.key, true, Named(p, rest));
    NameReads(p, rest);
    SyntaxReads(p.v, p.after + more);
    SkipWhite(p.after, more);
    if p.next.NoPair? {
      LastPair(rest);
      assert more == PairsText(NoPair) + rest;
    } else {
      Concat3([COMMA], PairsText(p.next), rest);
      SkipNone(more);
      assert more[1..] == PairsText(p.next) + rest;
      PairsRead(p.next, rest);
    }
  }

  /* ---- Nothing else is read ---- */

  lemma {:induction false} SkipSplits(t: seq<byte>) returns (w: seq<byte>)
    ensures White(w) && t == w + Skip(t)
    decreases |t|
  {
    if Peek(t) != 0 && Peek(t) <= 32 {
      var v := SkipSplits(t[1..]);
      w := [t[0]] + v;
      HeadTail(t);
      Concat3([t[0]], v, Skip(t[1..]));
    } else {
      w := [];
    }
  }

  // One digit more at the end of a number.
  lemma DigitMore(m: nat, d: nat)
    requires 0 < m && d < 10
    ensures Digits(10 * m + d) == Digits(m) + [0x30 + d]
  {
    assert (10 * m + d) / 10 == m && (10 * m + d) % 10 == d;
  }

  lemma {:induction false} DigitsOnly(t: seq<byte>, m: nat)
    requires 0 < m
    ensures var (n, rest) := ParseDigits(t, m);
            0 < n && Digits(m) + t == Digits(n) + rest && !IsDigit(Peek(rest))
    decreases |t|
  {
    if IsDigit(Peek(t)) {
      var d: nat := t[0];
      DigitMore(m, d - 0x30);
      DigitsOnly(t[1..], 10 * m + (d - 0x30));
      hide Digits;
      Concat3(Digits(m), [t[0]], t[1..]);
      HeadTail(t);
    }
  }

  lemma FirstDigits(t: seq<byte>)
    requires IsDigit(Peek(t)) && Peek(t) != 0x30
    ensures var (n, rest) := ParseDigits(t, 0);
            0 < n && t == Digits(n) + rest && !IsDigit(Peek(rest))
  {
    var d: nat := t[0];
    DigitsOnly(t[1..], d - 0x30);
    assert Digits(d - 0x30) == [t[0]];
    HeadTail(t);
  }

  lemma NumOnly(t: seq<byte>) returns (x: Syntax)
    requires (Peek(t) == MINUS || IsDigit(Peek(t))) && ParseNumber(t).Parsed?
    ensures x.Num? && Grammatical(x) && Ends(x, ParseNumber(t).rest) && Value(x) == ParseNumber(t).value
    ensures t == SyntaxText(x) + ParseNumber(t).rest
  {
    hide ParseDigits, Digits;
    var minus := Peek(t) == MINUS;
    var t1 := if minus then t[1..] else t;
    var zero := Peek(t1) == 0x30;
    var t2 := if zero then t1[1..] else t1;
    assert t == When(minus, [MINUS]) + t1 by { if minus { HeadTail(t); } }
    assert t1 == When(zero, [0x30]) + t2 by { if zero { HeadTail(t1); } }
    var some := IsDigit(Peek(t2)) && Peek(t2) != 0x30;
    var (n, rest) := if some then ParseDigits(t2, 0) else (0, t2);
    if some {
      FirstDigits(t2);
    }
    var digits := if n == 0 then [] else Digits(n);
    assert t2 == digits + rest;
    x := Num(minus, zero, n);
    Concat3(When(zero, [0x30]), digits, rest);
    Concat3(When(minus, [MINUS]), When(zero, [0x30]) + digits, rest);
  }

  lemma {:induction false} SyntaxOnly(t: seq<byte>) returns (x: Syntax)
    requires ParseValue(t).Parsed?
    ensures Grammatical(x) && Ends(x, ParseValue(t).rest) && Value(x) == ParseValue(t).value
    ensures t == SyntaxText(x) + ParseValue(t).rest
    decreases |t|, 2
  {
    hide ParseString, ParseNumber, ParseItems, ParseMembers, Skip, QuotedText, NumText, ElementsText, PairsText, Ends;
    if StartsWith(t, NULL_WORD) {
      x := NullWord;
      WordEnds(x, t[4..]);
    } else if StartsWith(t, FALSE_WORD) {
      x := FalseWord;
      WordEnds(x, t[5..]);
    } else if StartsWith(t, TRUE_WORD) {
      x := TrueWord;
      WordEnds(x, t[4..]);
    } else if Peek(t) == QUOTE {
      x := StrOnly(t);
    } else if Peek(t) == MINUS || IsDigit(Peek(t)) {
      x := NumOnly(t);
    } else if Peek(t) == OPEN_ARRAY {
      x := ArrOnly(t);
    } else {
      x := ObjOnly(t);
    }
  }

  lemma WordEnds(x: Syntax, rest: seq<byte>)
    requires x.NullWord? || x.FalseWord? || x.TrueWord?
    ensures Ends(x, rest)
  {
  }

  lemma StrOnly(t: seq<byte>) returns (x: Syntax)
    requires ParseString(t).Parsed?
    ensures Grammatical(x) && Ends(x, ParseString(t).rest) && Value(x) == String(ParseString(t).value)
    ensures t == SyntaxText(x) + ParseString(t).rest
  {
    hide ParseString, QuotedText, WrittenValues, CanWriteAll;
    var ws, closed := QuotedOnly(t);
    x := Str(ws, closed);
  }

  lemma {:induction false} ArrOnly(t: seq<byte>) returns (x: Syntax)
    requires Peek(t) == OPEN_ARRAY && ParseValue(t).Parsed?
    ensures Grammatical(x) && Ends(x, ParseValue(t).rest) && Value(x) == ParseValue(t).value
    ensures t == SyntaxText(x) + ParseValue(t).rest
    decreases |t|, 1
  {
    ValueIsArray(t);
    hide ParseValue, ParseItems, Skip, White;
    HeadTail(t);
    var t1, rest := Skip(t[1..]), ParseValue(t).rest;
    var space := SkipSplits(t[1..]);
    if Peek(t1) == CLOSE_ARRAY {
      x := Arr(space, NoElement);
      HeadTail(t1);
      Concat3(space, [CLOSE_ARRAY], rest);
      Concat3([OPEN_ARRAY], space + [CLOSE_ARRAY], rest);
    } else {
      SkipTwice(t[1..]);
      SpacedItems(t1, t[1..]);
      var elements := ElementsOnly(t[1..]);
      x := ArrOf(elements, rest);
    }
  }

  lemma ArrOf(elements: Elements, rest: seq<byte>) returns (x: Syntax)
    requires GrammaticalElements(elements) && ElementsEnd(elements, rest)
    ensures Grammatical(x) && Ends(x, rest) && Value(x) == Array(ElementsValue(elements))
    ensures SyntaxText(x) + rest == [OPEN_ARRAY] + (ElementsText(elements) + rest)
  {
    hide ElementsText, ElementsValue, ElementsEnd, GrammaticalElements;
    x := Arr([], elements);
    assert [] + ElementsText(elements) == ElementsText(elements);
    Concat3([OPEN_ARRAY], ElementsText(elements), rest);
  }

  lemma {:induction false} ElementsOnly(t: seq<byte>) returns (e: Elements)
    requires ParseItems(t).Parsed?
    ensures GrammaticalElements(e) && e.Element? && ElementsEnd(e, ParseItems(t).rest)
    ensures ElementsValue(e) == ParseItems(t).value && t == ElementsText(e) + ParseItems(t).rest
    decreases |t|, 4
  {
    hide ParseValue, Skip, White, SyntaxText, Value, Ends, Grammatical;
    var t1, rest := Skip(t), ParseItems(t).rest;
    var before := SkipSplits(t);
    var v := SyntaxOnly(t1);
    var behind := ParseValue(t1).rest;
    var t2 := Skip(behind);
    var after := SkipSplits(behind);
    HeadTail(t2);
    if Peek(t2) == COMMA {
      var next := ElementsOnly(t2[1..]);
      e := Element(before, v, after, next);
      Concat3([COMMA], ElementsText(next), rest);
    } else {
      e := Element(before, v, after, NoElement);
    }
    assert t2 == MoreElements(e.next) + rest;
    hide ElementsText, MoreElements, ElementsEnd;
    ElementSplits(e, rest);
  }

  lemma {:induction false} ObjOnly(t: seq<byte>) returns (x: Syntax)
    requires Peek(t) == OPEN_OBJECT && ParseValue(t).Parsed?
    ensures Grammatical(x) && Ends(x, ParseValue(t).rest) && Value(x) == ParseValue(t).value
    ensures t == SyntaxText(x) + ParseValue(t).rest
    decreases |t|, 1
  {
    ValueIsObject(t);
    hide ParseValue, ParseMembers, Skip, White;
    HeadTail(t);
    var t1, rest := Skip(t[1..]), ParseValue(t).rest;
    var space := SkipSplits(t[1..]);
    if Peek(t1) == CLOSE_OBJECT {
      x := Obj(space, NoPair);
      HeadTail(t1);
      Concat3(space, [CLOSE_OBJECT], rest);
      Concat3([OPEN_OBJECT], space + [CLOSE_OBJECT], rest);
    } else {
      SkipTwice(t[1..]);
      SpacedMembers(t1, t[1..]);
      var pairs := PairsOnly(t[1..]);
      x := ObjOf(pairs, rest);
    }
  }

  lemma ObjOf(pairs: Pairs, rest: seq<byte>) returns (x: Syntax)
    requires GrammaticalPairs(pairs) && PairsEnd(pairs, rest)
    ensures Grammatical(x) && Ends(x, rest) && Value(x) == Object(PairsValue(pairs))
    ensures SyntaxText(x) + rest == [OPEN_OBJECT] + (PairsText(pairs) + rest)
  {
    hide PairsText, PairsValue, PairsEnd, GrammaticalPairs;
    x := Obj([], pairs);
    assert [] + PairsText(pairs) == PairsText(pairs);
    Concat3([OPEN_OBJECT], PairsText(pairs), rest);
  }

  lemma KeyIsClosed(t: seq<byte>) returns (ws: seq<Written>)
    requires ParseString(t).Parsed? && Peek(Skip(ParseString(t).rest)) == COLON
    ensures CanWriteAll(ws) && ParseString(t).value == WrittenValues(ws) && t == QuotedText(ws, true) + ParseString(t).rest
  {
    hide ParseString, QuotedText, WrittenValues, CanWriteAll;
    var closed;
    ws, closed := QuotedOnly(t);
    SkipNone(ParseString(t).rest);
  }

  lemma {:induction false} PairsOnly(t: seq<byte>) returns (p: Pairs)
    requires ParseMembers(t).Parsed?
    ensures GrammaticalPairs(p) && p.Pair? && PairsEnd(p, ParseMembers(t).rest)
    ensures PairsValue(p) == ParseMembers(t).value && t == PairsText(p) + ParseMembers(t).rest
    decreases |t|, 4
  {
    hide ParseValue, ParseString, Skip, White, SyntaxText, Value, Ends, Grammatical, WrittenValues, CanWriteAll, QuotedText;
    var rest := ParseMembers(t).rest;
    var before := SkipSplits(t);
    var key := KeyIsClosed(Skip(t));
    var named := ParseString(Skip(t)).rest;
    var colon := SkipSplits(named);
    HeadTail(Skip(named));
    var space := SkipSplits(Skip(named)[1..]);
    var t1 := Skip(Skip(named)[1..]);
    var v := SyntaxOnly(t1);
    var behind := ParseValue(t1).rest;
    var t2 := Skip(behind);
    var after := SkipSplits(behind);
    HeadTail(t2);
    if Peek(t2) == COMMA {
      var next := PairsOnly(t2[1..]);
      p := Pair(before, key, colon, space, v, after, next);
      Concat3([COMMA], PairsText(next), rest);
    } else {
      p := Pair(before, key, colon, space, v, after, NoPair);
    }
    assert t2 == MorePairs(p.next) + rest;
    hide PairsText, MorePairs, PairsEnd;
    PairSplits(p, rest);
  }

  // The parser reads exactly what has been written in one of these ways.
  lemma ParsesIff(t: seq<byte>, v: Json, rest: seq<byte>)
    ensures ParseValue(t) == Parsed(v, rest) <==>
            exists x :: Grammatical(x) && Ends(x, rest) && Value(x) == v && t == SyntaxText(x) + rest
  {
    hide ParseValue, Grammatical, Ends, Value, SyntaxText;
    if ParseValue(t) == Parsed(v, rest) {
      var x := SyntaxOnly(t);
    }
    forall x | Grammatical(x) && Ends(x, rest) && Value(x) == v && t == SyntaxText(x) + rest
      ensures ParseValue(t) == Parsed(v, rest)
    {
      SyntaxReads(x, rest);
    }
  }
}
