// JSON text as the printer writes it and as the parser reads it.
module JsonText {
  import opened Words

  // A tree of items; the children of an item are a linked list, as are the members of an
  // object. Numbers are integers.
  datatype Json =
    | Null | False | True
    | Number(n: int)
    | String(s: seq<byte>)
    | Array(items: Items)
    | Object(members: Members)
  datatype Items = NoItem | Item(value: Json, next: Items)
  datatype Members = NoMember | Member(key: seq<byte>, value: Json, next: Members)

  const QUOTE: byte := 0x22
  const COMMA: byte := 0x2C
  const MINUS: byte := 0x2D
  const COLON: byte := 0x3A
  const OPEN_ARRAY: byte := 0x5B
  const BACKSLASH: byte := 0x5C
  const CLOSE_ARRAY: byte := 0x5D
  const OPEN_OBJECT: byte := 0x7B
  const CLOSE_OBJECT: byte := 0x7D
  const TAB: byte := 0x09
  const NEWLINE: byte := 0x0A
  const SPACE: byte := 0x20

  const INT_MIN := -0x8000_0000
  const INT_MAX := 0x7FFF_FFFF

  // What a C string can hold.
  predicate CString(s: seq<byte>) {
    forall i :: 0 <= i < |s| ==> s[i] != 0
  }

  // Trees whose numbers are 32-bit integers and whose strings are C strings.
  predicate Printable(v: Json) {
    match v
    case Number(n) => INT_MIN <= n <= INT_MAX
    case String(s) => CString(s)
    case Array(items) => PrintableItems(items)
    case Object(members) => PrintableMembers(members)
    case _ => true
  }

  predicate PrintableItems(items: Items) {
    match items
    case NoItem => true
    case Item(v, next) => Printable(v) && PrintableItems(next)
  }

  predicate PrintableMembers(members: Members) {
    match members
    case NoMember => true
    case Member(key, v, next) => CString(key) && Printable(v) && PrintableMembers(next)
  }

  /* ---- Printing ---- */

  function Digits(n: nat): (r: seq<byte>)
    ensures |r| > 0
  {
    if n < 10 then [0x30 + n] else Digits(n / 10) + [0x30 + n % 10]
  }

  function IntText(n: int): (r: seq<byte>)
    ensures |r| > 0
  {
    if n < 0 then [MINUS] + Digits(-n) else Digits(n)
  }

  function HexDigit(n: nat): byte
    requires n < 16
  {
    if n < 10 then 0x30 + n else 0x61 + n - 10
  }

  predicate NeedsEscape(c: byte) {
    c < 32 || c == QUOTE || c == BACKSLASH
  }

  // The letter that stands for a character after a backslash; 0 where there is none.
  function EscapeLetter(c: byte): byte {
    if c == BACKSLASH || c == QUOTE then c
    else if c == 0x08 then 0x62 else if c == 0x0C then 0x66 else if c == 0x0A then 0x6E
    else if c == 0x0D then 0x72 else if c == 0x09 then 0x74
    else 0
  }

  function Escape(c: byte): (r: seq<byte>)
    ensures |r| > 0
  {
    if !NeedsEscape(c) then [c]
    else if EscapeLetter(c) != 0 then [BACKSLASH, EscapeLetter(c)]
    else [BACKSLASH, 0x75, 0x30, 0x30, HexDigit(c as int / 16), HexDigit(c as int % 16)]
  }

  function EscapeAll(s: seq<byte>): seq<byte>
    decreases |s|
  {
    if s == [] then [] else Escape(s[0]) + EscapeAll(s[1..])
  }

  function StringText(s: seq<byte>): (r: seq<byte>)
    ensures |r| >= 2
  {
    [QUOTE] + EscapeAll(s) + [QUOTE]
  }

  function Tabs(n: nat): (r: seq<byte>)
    ensures |r| == n
  {
    seq(n, _ => TAB)
  }

  function When(fmt: bool, s: seq<byte>): seq<byte> {
    if fmt then s else []
  }

  function Text(v: Json, depth: nat, fmt: bool): seq<byte>
    decreases v
  {
    match v
    case Null => [0x6E, 0x75, 0x6C, 0x6C]
    case False => [0x66, 0x61, 0x6C, 0x73, 0x65]
    case True => [0x74, 0x72, 0x75, 0x65]
    case Number(n) => IntText(n)
    case String(s) => StringText(s)
    case Array(items) => [OPEN_ARRAY] + ItemsText(items, depth, fmt) + [CLOSE_ARRAY]
    case Object(members) =>
      [OPEN_OBJECT] + When(fmt, [NEWLINE]) + MembersText(members, depth + 1, fmt) + When(fmt, Tabs(depth)) + [CLOSE_OBJECT]
  }

  function ItemsText(items: Items, depth: nat, fmt: bool): seq<byte>
    decreases items
  {
    match items
    case NoItem => []
    case Item(v, next) =>
      Text(v, depth + 1, fmt) + (if next.NoItem? then [] else [COMMA] + When(fmt, [SPACE])) + ItemsText(next, depth, fmt)
  }

  function MembersText(members: Members, depth: nat, fmt: bool): seq<byte>
    decreases members
  {
    match members
    case NoMember => []
    case Member(key, v, next) =>
      When(fmt, Tabs(depth)) + StringText(key) + [COLON] + When(fmt, [TAB]) + Text(v, depth, fmt)
      + (if next.NoMember? then [] else [COMMA]) + When(fmt, [NEWLINE]) + MembersText(next, depth, fmt)
  }

  /* ---- Parsing ---- */

  // A parser takes the text from where it stands and leaves what it has not read. Floating
  // point numbers, and integers beyond 32 bits, are not modelled.
  datatype Parsed<T> = Parsed(value: T, rest: seq<byte>) | Malformed | NotModelled

  // The next character; a 0 ends the text.
  function Peek(t: seq<byte>): byte {
    if t == [] then 0 else t[0]
  }

  function Skip(t: seq<byte>): (r: seq<byte>)
    ensures |r| <= |t|
    decreases |t|
  {
    if Peek(t) != 0 && Peek(t) <= 32 then Skip(t[1..]) else t
  }

  predicate IsDigit(c: byte) {
    0x30 <= c <= 0x39
  }

  function ParseDigits(t: seq<byte>, n: nat): (r: (nat, seq<byte>))
    ensures |r.1| <= |t|
    decreases |t|
  {
    if IsDigit(Peek(t)) then
      var d: nat := t[0];
      ParseDigits(t[1..], 10 * n + (d - 0x30))
    else (n, t)
  }

  function ParseNumber(t: seq<byte>): (r: Parsed<Json>)
    ensures r.Parsed? ==> |r.rest| <= |t| && (Peek(t) == MINUS || IsDigit(Peek(t)) ==> |r.rest| < |t|)
  {
    var t1 := if Peek(t) == MINUS then t[1..] else t;
    var t2 := if Peek(t1) == 0x30 then t1[1..] else t1;
    var (n, rest) := if IsDigit(Peek(t2)) && Peek(t2) != 0x30 then ParseDigits(t2, 0) else (0, t2);
    var m: int := n;
    var value := if Peek(t) == MINUS then -m else m;
    if (Peek(rest) == 0x2E && IsDigit(Peek(rest[1..]))) || Peek(rest) == 0x65 || Peek(rest) == 0x45 then NotModelled
    else if value < INT_MIN || INT_MAX < value then NotModelled
    else Parsed(Number(value), rest)
  }

  // The value of a hexadecimal digit; 16 where it is none.
  function HexValue(c: byte): (r: nat)
    ensures r <= 16
  {
    if 0x30 <= c <= 0x39 then c - 0x30
    else if 0x41 <= c <= 0x46 then c - 0x41 + 10
    else if 0x61 <= c <= 0x66 then c - 0x61 + 10
    else 16
  }

  // Four hexadecimal digits; 0 where there are not as many.
  function Hex4(t: seq<byte>): (r: nat)
    ensures r < 0x1_0000
  {
    if |t| < 4 || HexValue(t[0]) == 16 || HexValue(t[1]) == 16 || HexValue(t[2]) == 16 || HexValue(t[3]) == 16 then 0
    else 0x1000 * HexValue(t[0]) + 0x100 * HexValue(t[1]) + 0x10 * HexValue(t[2]) + HexValue(t[3])
  }

  function Utf8(uc: nat): seq<byte>
    requires uc < 0x11_0000
  {
    if uc < 0x80 then [uc]
    else if uc < 0x800 then [0xC0 + uc / 0x40, 0x80 + uc % 0x40]
    else if uc < 0x1_0000 then [0xE0 + uc / 0x1000, 0x80 + uc / 0x40 % 0x40, 0x80 + uc % 0x40]
    else [0xF0 + uc / 0x4_0000, 0x80 + uc / 0x1000 % 0x40, 0x80 + uc / 0x40 % 0x40, 0x80 + uc % 0x40]
  }

  datatype Option<T> = None | Some(value: T)

  // How much of the text belongs to the string that it is in; a backslash before the end of
  // the text is an error.
  function BodyLength(t: seq<byte>): (r: Option<nat>)
    ensures r.Some? ==> r.value <= |t|
    decreases |t|
  {
    if Peek(t) == 0 || Peek(t) == QUOTE then Some(0)
    else if t[0] != BACKSLASH then
      match BodyLength(t[1..])
      case None => None
      case Some(n) => Some(n + 1)
    else if Peek(t[1..]) == 0 then None
    else
      match BodyLength(t[2..])
      case None => None
      case Some(n) => Some(n + 2)
  }

  // What follows a backslash and a letter u, as UTF-8, and how many characters of the body
  // (counted from the backslash) it takes.
  function UnicodeEscape(body: seq<byte>): (r: Option<(seq<byte>, nat)>)
    ensures r.Some? ==> 6 <= r.value.1 <= |body|
  {
    if |body| <= 5 then None
    else
      var uc := Hex4(body[2..]);
      if 0xDC00 <= uc <= 0xDFFF || uc == 0 then None
      else if 0xD800 <= uc <= 0xDBFF then
        if |body| < 11 || body[6] != BACKSLASH || body[7] != 0x75 then None
        else
          var uc2 := Hex4(body[8..]);
          if uc2 < 0xDC00 || uc2 > 0xDFFF then None
          else Some((Utf8(0x1_0000 + uc % 0x400 * 0x400 + uc2 % 0x400), 12))
      else Some((Utf8(uc), 6))
  }

  // The character for the letter after a backslash; 0 where there is none.
  function Unescaped(letter: byte): byte {
    if letter == 0x62 then 0x08 else if letter == 0x66 then 0x0C else if letter == 0x6E then 0x0A
    else if letter == 0x72 then 0x0D else if letter == 0x74 then 0x09
    else if letter == QUOTE || letter == BACKSLASH || letter == 0x2F then letter
    else 0
  }

  function Unescape(body: seq<byte>): Option<seq<byte>>
    decreases |body|
  {
    if body == [] then Some([])
    else if body[0] != BACKSLASH then Prefixed([body[0]], Unescape(body[1..]))
    else if |body| < 2 then None
    else if Unescaped(body[1]) != 0 then Prefixed([Unescaped(body[1])], Unescape(body[2..]))
    else if body[1] == 0x75 then
      match UnicodeEscape(body)
      case None => None
      case Some((utf8, n)) => Prefixed(utf8, Unescape(body[n..]))
    else None
  }

  function Prefixed(s: seq<byte>, r: Option<seq<byte>>): Option<seq<byte>> {
    match r
    case None => None
    case Some(more) => Some(s + more)
  }

  // A string; the text may end before the closing quote.
  function ParseString(t: seq<byte>): (r: Parsed<seq<byte>>)
    ensures r.Parsed? ==> |r.rest| < |t|
  {
    if Peek(t) != QUOTE then Malformed
    else
      match BodyLength(t[1..])
      case None => Malformed
      case Some(n) =>
        match Unescape(t[1..][..n])
        case None => Malformed
        case Some(s) =>
          var rest := t[1..][n..];
          Parsed(s, if Peek(rest) == QUOTE then rest[1..] else rest)
  }

  function StartsWith(t: seq<byte>, word: seq<byte>): bool {
    |word| <= |t| && t[..|word|] == word
  }

  const NULL_WORD: seq<byte> := [0x6E, 0x75, 0x6C, 0x6C]
  const FALSE_WORD: seq<byte> := [0x66, 0x61, 0x6C, 0x73, 0x65]
  const TRUE_WORD: seq<byte> := [0x74, 0x72, 0x75, 0x65]

  function ParseValue(t: seq<byte>): (r: Parsed<Json>)
    ensures r.Parsed? ==> |r.rest| < |t|
    decreases |t|, 2
  {
    if StartsWith(t, NULL_WORD) then Parsed(Null, t[4..])
    else if StartsWith(t, FALSE_WORD) then Parsed(False, t[5..])
    else if StartsWith(t, TRUE_WORD) then Parsed(True, t[4..])
    else if Peek(t) == QUOTE then
      match ParseString(t)
      case Parsed(s, rest) => Parsed(String(s), rest)
      case Malformed => Malformed
      case NotModelled => NotModelled
    else if Peek(t) == MINUS || IsDigit(Peek(t)) then ParseNumber(t)
    else if Peek(t) == OPEN_ARRAY then
      var t1 := Skip(t[1..]);
      if Peek(t1) == CLOSE_ARRAY then Parsed(Array(NoItem), t1[1..])
      else
        match ParseItems(t1)
        case Parsed(items, rest) => Parsed(Array(items), rest)
        case Malformed => Malformed
        case NotModelled => NotModelled
    else if Peek(t) == OPEN_OBJECT then
      var t1 := Skip(t[1..]);
      if Peek(t1) == CLOSE_OBJECT then Parsed(Object(NoMember), t1[1..])
      else
        match ParseMembers(t1)
        case Parsed(members, rest) => Parsed(Object(members), rest)
        case Malformed => Malformed
        case NotModelled => NotModelled
    else Malformed
  }

  // One or more values up to the closing bracket.
  function ParseItems(t: seq<byte>): (r: Parsed<Items>)
    ensures r.Parsed? ==> |r.rest| < |t|
    decreases |t|, 4
  {
    var t1 := Skip(t);
    match ParseValue(t1)
    case Malformed => Malformed
    case NotModelled => NotModelled
    case Parsed(v, rest) =>
      var t2 := Skip(rest);
      if Peek(t2) == COMMA then
        match ParseItems(t2[1..])
        case Malformed => Malformed
        case NotModelled => NotModelled
        case Parsed(items, rest') => Parsed(Item(v, items), rest')
      else if Peek(t2) == CLOSE_ARRAY then Parsed(Item(v, NoItem), t2[1..])
      else Malformed
  }

  function ParseMembers(t: seq<byte>): (r: Parsed<Members>)
    ensures r.Parsed? ==> |r.rest| < |t|
    decreases |t|, 4
  {
    match ParseString(Skip(t))
    case Malformed => Malformed
    case NotModelled => NotModelled
    case Parsed(key, rest) =>
      var t1 := Skip(rest);
      if Peek(t1) != COLON then Malformed
      else
        match ParseValue(Skip(t1[1..]))
        case Malformed => Malformed
        case NotModelled => NotModelled
        case Parsed(v, rest') =>
          var t2 := Skip(rest');
          if Peek(t2) == COMMA then
            match ParseMembers(t2[1..])
            case Malformed => Malformed
            case NotModelled => NotModelled
            case Parsed(members, rest'') => Parsed(Member(key, v, members), rest'')
          else if Peek(t2) == CLOSE_OBJECT then Parsed(Member(key, v, NoMember), t2[1..])
          else Malformed
  }

  // A whole text. What comes behind the value is looked at only when it is to be nothing.
  function ParseText(t: seq<byte>, toEnd: bool): Parsed<Json> {
    match ParseValue(Skip(t))
    case Parsed(v, rest) =>
      if !toEnd then Parsed(v, rest)
      else if Peek(Skip(rest)) != 0 then Malformed
      else Parsed(v, Skip(rest))
    case other => other
  }

  /* ---- Round trip: numbers ---- */

  // What can follow a number without becoming part of it.
  predicate Delimited(rest: seq<byte>) {
    !IsDigit(Peek(rest)) && Peek(rest) != 0x2E && Peek(rest) != 0x65 && Peek(rest) != 0x45
  }

  lemma {:induction false} DigitsParse(n: nat, t: seq<byte>)
    ensures ParseDigits(Digits(n) + t, 0) == ParseDigits(t, n)
    decreases n
  {
    var d: nat := n % 10;
    if n < 10 {
      assert (Digits(n) + t)[1..] == t;
    } else {
      assert Digits(n) + t == Digits(n / 10) + ([0x30 + d] + t);
      DigitsParse(n / 10, [0x30 + d] + t);
      assert ([0x30 + d] + t)[1..] == t;
    }
  }

  lemma {:induction false} FirstDigit(n: nat)
    ensures IsDigit(Digits(n)[0]) && (0 < n ==> Digits(n)[0] != 0x30) && (n == 0 ==> Digits(n) == [0x30])
    decreases n
  {
    if 10 <= n {
      FirstDigit(n / 10);
    }
  }

  // A number with its sign taken off.
  lemma NatParses(n: nat, rest: seq<byte>)
    requires Delimited(rest)
    ensures var t1 := Digits(n) + rest;
            var t2 := if Peek(t1) == 0x30 then t1[1..] else t1;
            IsDigit(Peek(t1)) && (if IsDigit(Peek(t2)) && Peek(t2) != 0x30 then ParseDigits(t2, 0) else (0, t2)) == (n, rest)
  {
    FirstDigit(n);
    DigitsParse(n, rest);
    var t1 := Digits(n) + rest;
    assert Peek(t1) == Digits(n)[0];
    if n == 0 {
      assert t1[1..] == rest;
    }
  }

  lemma NumberParses(n: int, rest: seq<byte>)
    requires INT_MIN <= n <= INT_MAX && Delimited(rest)
    ensures ParseNumber(IntText(n) + rest) == Parsed(Number(n), rest)
    ensures Peek(IntText(n) + rest) == MINUS || IsDigit(Peek(IntText(n) + rest))
  {
    hide Digits, ParseDigits;
    var t := IntText(n) + rest;
    if n < 0 {
      NatParses(-n, rest);
      assert t[1..] == Digits(-n) + rest;
    } else {
      NatParses(n, rest);
    }
  }

  /* ---- Round trip: strings ---- */

  lemma HexRoundTrip(n: nat)
    requires n < 16
    ensures HexValue(HexDigit(n)) == n && HexDigit(n) != 0 && HexDigit(n) != QUOTE && HexDigit(n) != BACKSLASH
  {
  }

  lemma EscapeOne(c: byte, more: seq<byte>)
    requires c != 0
    ensures Unescape(Escape(c) + more) == Prefixed([c], Unescape(more))
  {
    var body := Escape(c) + more;
    if !NeedsEscape(c) {
      assert body[1..] == more;
    } else if EscapeLetter(c) != 0 {
      assert body[2..] == more;
    } else {
      var hi, lo := c as int / 16, c as int % 16;
      HexRoundTrip(hi);
      HexRoundTrip(lo);
      assert body[2..] == [0x30, 0x30, HexDigit(hi), HexDigit(lo)] + more;
      assert Hex4(body[2..]) == c;
      assert body[6..] == more;
    }
  }

  lemma EscapeSplits(s: seq<byte>)
    requires CString(s) && s != []
    ensures EscapeAll(s) == Escape(s[0]) + EscapeAll(s[1..]) && CString(s[1..]) && s[0] != 0
  {
    hide Escape;
  }

  lemma {:induction false} EscapeRoundTrip(s: seq<byte>)
    requires CString(s)
    ensures Unescape(EscapeAll(s)) == Some(s)
    decreases |s|
  {
    if s != [] {
      EscapeSplits(s);
      hide Unescape, Escape, EscapeAll, CString;
      EscapeRoundTrip(s[1..]);
      EscapeOne(s[0], EscapeAll(s[1..]));
      HeadTail(s);
    } else {
      assert EscapeAll(s) == [];
    }
  }

  lemma EscapeBody(c: byte, more: seq<byte>)
    requires c != 0
    ensures BodyLength(Escape(c) + more) == match BodyLength(more)
                                            case None => None
                                            case Some(n) => Some(|Escape(c)| + n)
  {
    var t := Escape(c) + more;
    if !NeedsEscape(c) {
      assert t[1..] == more;
    } else if EscapeLetter(c) != 0 {
      assert t[1..] == [EscapeLetter(c)] + more;
      assert t[2..] == more;
    } else {
      var hi, lo := HexDigit(c as int / 16), HexDigit(c as int % 16);
      HexRoundTrip(c as int / 16);
      HexRoundTrip(c as int % 16);
      var t2, t3, t4, t5 := [0x30, 0x30, hi, lo] + more, [0x30, hi, lo] + more, [hi, lo] + more, [lo] + more;
      assert t[1..] == [0x75, 0x30, 0x30, hi, lo] + more;
      assert t[2..] == t2 && t2[1..] == t3 && t3[1..] == t4 && t4[1..] == t5 && t5[1..] == more;
      BodyPlain(t2);
      BodyPlain(t3);
      BodyPlain(t4);
      BodyPlain(t5);
    }
  }

  lemma BodyPlain(t: seq<byte>)
    requires t != [] && t[0] != 0 && t[0] != QUOTE && t[0] != BACKSLASH
    ensures BodyLength(t) == match BodyLength(t[1..])
                             case None => None
                             case Some(n) => Some(n + 1)
  {
  }

  lemma {:induction false} BodyOfText(s: seq<byte>, rest: seq<byte>)
    requires CString(s)
    ensures BodyLength(EscapeAll(s) + ([QUOTE] + rest)) == Some(|EscapeAll(s)|)
    decreases |s|
  {
    var end := [QUOTE] + rest;
    if s == [] {
      assert EscapeAll(s) + end == end;
    } else {
      EscapeSplits(s);
      hide BodyLength, Escape, EscapeAll, CString;
      BodyOfText(s[1..], rest);
      EscapeBody(s[0], EscapeAll(s[1..]) + end);
      Concat3(Escape(s[0]), EscapeAll(s[1..]), end);
    }
  }

  // What is printed for a string is read back as that string.
  lemma StringParses(s: seq<byte>, rest: seq<byte>)
    requires CString(s)
    ensures ParseString(StringText(s) + rest) == Parsed(s, rest)
  {
    hide BodyLength, Unescape, EscapeAll;
    var t, e := StringText(s) + rest, EscapeAll(s);
    BodyOfText(s, rest);
    EscapeRoundTrip(s);
    assert t[1..] == e + ([QUOTE] + rest);
    assert t[1..][..|e|] == e && t[1..][|e|..] == [QUOTE] + rest;
    assert ([QUOTE] + rest)[1..] == rest;
  }

  /* ---- Round trip: trees ---- */

  predicate White(s: seq<byte>) {
    forall i :: 0 <= i < |s| ==> 0 < s[i] <= 32
  }

  lemma {:induction false} SkipWhite(s: seq<byte>, t: seq<byte>)
    requires White(s)
    ensures Skip(s + t) == Skip(t)
    decreases |s|
  {
    if s == [] {
      assert s + t == t;
    } else {
      assert (s + t)[1..] == s[1..] + t;
      SkipWhite(s[1..], t);
    }
  }

  lemma SkipNone(t: seq<byte>)
    ensures Peek(t) == 0 || 32 < Peek(t) ==> Skip(t) == t
  {
  }

  lemma {:induction false} SkipTwice(t: seq<byte>)
    ensures Skip(Skip(t)) == Skip(t)
    decreases |t|
  {
    if Peek(t) != 0 && Peek(t) <= 32 {
      SkipTwice(t[1..]);
    }
  }

  // How the text of a value can start.
  predicate Starts(c: byte) {
    c == 0x6E || c == 0x66 || c == 0x74 || c == QUOTE || c == MINUS || IsDigit(c) || c == OPEN_ARRAY || c == OPEN_OBJECT
  }

  lemma TextStarts(v: Json, depth: nat, fmt: bool)
    ensures Text(v, depth, fmt) != [] && Starts(Text(v, depth, fmt)[0])
  {
    hide EscapeAll, Digits;
    if v.Number? {
      FirstDigit(if v.n < 0 then -v.n else v.n);
    }
  }

  lemma NotAWord(t: seq<byte>, c: byte)
    requires t != [] && t[0] == c && c != 0x6E && c != 0x66 && c != 0x74
    ensures !StartsWith(t, NULL_WORD) && !StartsWith(t, FALSE_WORD) && !StartsWith(t, TRUE_WORD)
  {
    assert |t| >= 4 ==> t[..4][0] == c;
    assert |t| >= 5 ==> t[..5][0] == c;
  }

  lemma WordsParse(v: Json, depth: nat, fmt: bool, rest: seq<byte>)
    requires v.Null? || v.False? || v.True?
    ensures ParseValue(Text(v, depth, fmt) + rest) == Parsed(v, rest)
  {
    var t := Text(v, depth, fmt) + rest;
    assert t[..4] == Text(v, depth, fmt)[..4];
    assert v.False? ==> t[..5] == FALSE_WORD;
    assert t[0] != 0x6E ==> t[..4] != NULL_WORD by { assert t[..4][0] == t[0]; }
    assert t[0] != 0x66 ==> |t| >= 5 ==> t[..5] != FALSE_WORD by { if |t| >= 5 { assert t[..5][0] == t[0]; } }
    assert t[|Text(v, depth, fmt)|..] == rest;
  }

  // For every tree, formatted or not: what has been printed is read back as the same tree.
  lemma {:induction false} TextParses(v: Json, depth: nat, fmt: bool, rest: seq<byte>)
    requires Printable(v) && Delimited(rest)
    ensures ParseValue(Text(v, depth, fmt) + rest) == Parsed(v, rest)
    decreases v
  {
    var text := Text(v, depth, fmt);
    var t := text + rest;
    match v
    case Number(n) =>
      NumberParses(n, rest);
      NotAWord(t, t[0]);
    case String(s) =>
      StringParses(s, rest);
      NotAWord(t, QUOTE);
    case Array(items) =>
      NotAWord(t, OPEN_ARRAY);
      ArrayParses(items, depth, fmt, rest);
    case Object(members) =>
      NotAWord(t, OPEN_OBJECT);
      ObjectParses(members, depth, fmt, rest);
    case _ =>
      WordsParse(v, depth, fmt, rest);
  }

  lemma ValueIsArray(t: seq<byte>)
    requires Peek(t) == OPEN_ARRAY
    ensures ParseValue(t) == var t1 := Skip(t[1..]);
                             if Peek(t1) == CLOSE_ARRAY then Parsed(Array(NoItem), t1[1..])
                             else
                               match ParseItems(t1)
                               case Parsed(items, rest) => Parsed(Array(items), rest)
                               case Malformed => Malformed
                               case NotModelled => NotModelled
  {
    hide Skip, ParseItems, ParseMembers, ParseString, ParseNumber, StartsWith;
    NotAWord(t, OPEN_ARRAY);
  }

  lemma ValueIsObject(t: seq<byte>)
    requires Peek(t) == OPEN_OBJECT
    ensures ParseValue(t) == var t1 := Skip(t[1..]);
                             if Peek(t1) == CLOSE_OBJECT then Parsed(Object(NoMember), t1[1..])
                             else
                               match ParseMembers(t1)
                               case Parsed(members, rest) => Parsed(Object(members), rest)
                               case Malformed => Malformed
                               case NotModelled => NotModelled
  {
    hide Skip, ParseItems, ParseMembers, ParseString, ParseNumber, StartsWith;
    NotAWord(t, OPEN_OBJECT);
  }

  lemma {:induction false} ArrayParses(items: Items, depth: nat, fmt: bool, rest: seq<byte>)
    requires PrintableItems(items)
    ensures ParseValue(Text(Array(items), depth, fmt) + rest) == Parsed(Array(items), rest)
    decreases items, 1
  {
    hide ParseValue, ParseItems, Skip;
    var t := Text(Array(items), depth, fmt) + rest;
    var end := [CLOSE_ARRAY] + rest;
    ArraySplits(items, depth, fmt, rest);
    ValueIsArray(t);
    hide Text;
    match items
    case NoItem =>
      assert t[1..] == end;
      SkipNone(end);
      assert end[1..] == rest;
    case Item(v, next) =>
      TextStarts(v, depth + 1, fmt);
      ItemsStart(items, depth, fmt, end);
      SkipNone(t[1..]);
      ItemsParse(items, depth, fmt, rest);
  }

  lemma ItemsStart(items: Items, depth: nat, fmt: bool, end: seq<byte>)
    requires items.Item?
    ensures Starts(Peek(ItemsText(items, depth, fmt) + end))
  {
    hide Text;
    TextStarts(items.value, depth + 1, fmt);
  }

  lemma ArraySplits(items: Items, depth: nat, fmt: bool, rest: seq<byte>)
    ensures var t := Text(Array(items), depth, fmt) + rest;
            Peek(t) == OPEN_ARRAY && t[1..] == ItemsText(items, depth, fmt) + ([CLOSE_ARRAY] + rest)
  {
    hide ItemsText;
    var inner := ItemsText(items, depth, fmt);
    Concat3([OPEN_ARRAY] + inner, [CLOSE_ARRAY], rest);
    Concat3([OPEN_ARRAY], inner, [CLOSE_ARRAY] + rest);
    assert ([OPEN_ARRAY] + (inner + ([CLOSE_ARRAY] + rest)))[1..] == inner + ([CLOSE_ARRAY] + rest);
  }

  lemma {:induction false} ItemsParse(items: Items, depth: nat, fmt: bool, rest: seq<byte>)
    requires PrintableItems(items) && items.Item?
    ensures ParseItems(ItemsText(items, depth, fmt) + ([CLOSE_ARRAY] + rest)) == Parsed(items, rest)
    decreases items, 0
  {
    hide ParseNumber, ParseString, ParseValue, Skip, Text;
    var v, next, end := items.value, items.next, [CLOSE_ARRAY] + rest;
    var t := ItemsText(items, depth, fmt) + end;
    var text := Text(v, depth + 1, fmt);
    TextStarts(v, depth + 1, fmt);
    if next.NoItem? {
      assert t == text + end;
      SkipNone(t);
      TextParses(v, depth + 1, fmt, end);
      SkipNone(end);
      assert end[1..] == rest;
    } else {
      var space := When(fmt, [SPACE]);
      var more := ItemsText(next, depth, fmt) + end;
      assert t == text + ([COMMA] + (space + more));
      SkipNone(t);
      TextParses(v, depth + 1, fmt, [COMMA] + (space + more));
      SkipNone([COMMA] + (space + more));
      assert ([COMMA] + (space + more))[1..] == space + more;
      ItemsParse(next, depth, fmt, rest);
      SkipWhite(space, more);
      SpacedItems(space + more, more);
    }
  }

  lemma SpacedItems(t: seq<byte>, t': seq<byte>)
    requires Skip(t) == Skip(t')
    ensures ParseItems(t) == ParseItems(t')
  {
    hide ParseValue, Skip;
  }

  lemma SpacedMembers(t: seq<byte>, t': seq<byte>)
    requires Skip(t) == Skip(t')
    ensures ParseMembers(t) == ParseMembers(t')
  {
    hide ParseValue, ParseString, Skip;
  }

  // The end of an object, on a line of its own when formatted.
  function ObjectEnd(depth: nat, fmt: bool, rest: seq<byte>): seq<byte> {
    When(fmt, Tabs(depth)) + ([CLOSE_OBJECT] + rest)
  }

  lemma EndSkips(depth: nat, fmt: bool, rest: seq<byte>)
    ensures Skip(ObjectEnd(depth, fmt, rest)) == [CLOSE_OBJECT] + rest && ([CLOSE_OBJECT] + rest)[1..] == rest
  {
    SkipWhite(When(fmt, Tabs(depth)), [CLOSE_OBJECT] + rest);
  }

  lemma ObjectSplits(members: Members, depth: nat, fmt: bool, rest: seq<byte>)
    ensures var t := Text(Object(members), depth, fmt) + rest;
            && Peek(t) == OPEN_OBJECT
            && t[1..] == When(fmt, [NEWLINE]) + (MembersText(members, depth + 1, fmt) + ObjectEnd(depth, fmt, rest))
  {
    hide MembersText, When;
    var line, inner, tabs := When(fmt, [NEWLINE]), MembersText(members, depth + 1, fmt), When(fmt, Tabs(depth));
    var end := [CLOSE_OBJECT] + rest;
    Concat3([OPEN_OBJECT] + line + inner + tabs, [CLOSE_OBJECT], rest);
    Concat5([OPEN_OBJECT], line, inner, tabs, end);
    assert ([OPEN_OBJECT] + (line + (inner + (tabs + end))))[1..] == line + (inner + (tabs + end));
  }

  lemma {:induction false} ObjectParses(members: Members, depth: nat, fmt: bool, rest: seq<byte>)
    requires PrintableMembers(members)
    ensures ParseValue(Text(Object(members), depth, fmt) + rest) == Parsed(Object(members), rest)
    decreases members, 1
  {
    hide ParseValue, ParseMembers, Skip, StringText, ObjectEnd, MembersText;
    var t := Text(Object(members), depth, fmt) + rest;
    var line, end := When(fmt, [NEWLINE]), ObjectEnd(depth, fmt, rest);
    ObjectSplits(members, depth, fmt, rest);
    ValueIsObject(t);
    SkipWhite(line, MembersText(members, depth + 1, fmt) + end);
    hide Text;
    match members
    case NoMember =>
      NoMembersText(depth + 1, fmt, end);
      EndSkips(depth, fmt, rest);
    case Member(key, v, next) =>
      MembersStart(members, depth + 1, fmt, end);
      MembersParse(members, depth + 1, fmt, depth, rest);
      SkipTwice(t[1..]);
      SpacedMembers(Skip(t[1..]), MembersText(members, depth + 1, fmt) + end);
  }

  lemma MembersStart(members: Members, depth: nat, fmt: bool, end: seq<byte>)
    requires members.Member?
    ensures Peek(Skip(MembersText(members, depth, fmt) + end)) == QUOTE
  {
    hide Text, EscapeAll, Skip;
    var key, tabs := StringText(members.key), When(fmt, Tabs(depth));
    var t := MembersText(members, depth, fmt) + end;
    var more := t[|tabs|..];
    assert t == tabs + more && more[0] == key[0] == QUOTE;
    SkipWhite(tabs, more);
    SkipNone(more);
  }

  // A member without what comes after its value.
  lemma MemberSplits(m: Members, depth: nat, fmt: bool, end: seq<byte>)
    requires m.Member?
    ensures var after := (if m.next.NoMember? then [] else [COMMA]) + (When(fmt, [NEWLINE]) + (MembersText(m.next, depth, fmt) + end));
            MembersText(m, depth, fmt) + end ==
              When(fmt, Tabs(depth)) + (StringText(m.key) + ([COLON] + (When(fmt, [TAB]) + (Text(m.value, depth, fmt) + after))))
  {
    hide Text, StringText, When;
    var text, key, tab, tabs, line := Text(m.value, depth, fmt), StringText(m.key), When(fmt, [TAB]), When(fmt, Tabs(depth)), When(fmt, [NEWLINE]);
    var comma, more := (if m.next.NoMember? then [] else [COMMA]), MembersText(m.next, depth, fmt);
    Concat5(tabs + key + [COLON] + tab + text, comma, line, more, end);
    Concat3(tabs + key + [COLON] + tab, text, comma + (line + (more + end)));
    Concat5(tabs, key, [COLON], tab, text + (comma + (line + (more + end))));
  }

  lemma {:induction false} MembersParse(members: Members, depth: nat, fmt: bool, outer: nat, rest: seq<byte>)
    requires PrintableMembers(members) && members.Member?
    ensures ParseMembers(MembersText(members, depth, fmt) + ObjectEnd(outer, fmt, rest)) == Parsed(members, rest)
    decreases members, 0
  {
    hide ParseNumber, ParseString, ParseValue, Skip, Text, StringText, ObjectEnd, MembersText;
    var v, next, end := members.value, members.next, ObjectEnd(outer, fmt, rest);
    var line, more := When(fmt, [NEWLINE]), MembersText(next, depth, fmt) + end;
    var after := (if next.NoMember? then [] else [COMMA]) + (line + more);
    var text := Text(v, depth, fmt) + after;
    var colon := [COLON] + (When(fmt, [TAB]) + text);
    var named := StringText(members.key) + colon;
    MemberSplits(members, depth, fmt, end);
    SkipWhite(When(fmt, Tabs(depth)), named);
    assert Peek(named) == QUOTE by { KeyStarts(members.key, colon); }
    SkipNone(named);
    StringParses(members.key, colon);
    SkipNone(colon);
    assert colon[1..] == When(fmt, [TAB]) + text;
    SkipWhite(When(fmt, [TAB]), text);
    TextStarts(v, depth, fmt);
    assert Peek(text) == Text(v, depth, fmt)[0];
    SkipNone(text);
    SkipWhite(line, more);
    if next.NoMember? {
      assert more == end by { NoMembersText(depth, fmt, end); }
      assert after == line + end;
      EndSkips(outer, fmt, rest);
      AfterDelimits(fmt, outer, rest);
      TextParses(v, depth, fmt, after);
    } else {
      assert after == [COMMA] + (line + more);
      assert after[1..] == line + more;
      SkipNone(after);
      TextParses(v, depth, fmt, after);
      MembersParse(next, depth, fmt, outer, rest);
      SpacedMembers(line + more, more);
    }
  }

  lemma KeyStarts(key: seq<byte>, t: seq<byte>)
    ensures Peek(StringText(key) + t) == QUOTE
  {
  }

  lemma NoMembersText(depth: nat, fmt: bool, end: seq<byte>)
    ensures MembersText(NoMember, depth, fmt) + end == end
  {
  }

  lemma AfterDelimits(fmt: bool, outer: nat, rest: seq<byte>)
    ensures Delimited(When(fmt, [NEWLINE]) + ObjectEnd(outer, fmt, rest))
  {
    var t := When(fmt, [NEWLINE]) + ObjectEnd(outer, fmt, rest);
    assert t[0] == if fmt then NEWLINE else CLOSE_OBJECT;
  }
}
