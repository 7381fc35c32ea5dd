// The parser as it moves through the text.
module JsonParser {
  import opened Words
  import opened JsonText

  // The character at a position; a 0 ends the text.
  function CharAt(text: seq<byte>, at: nat): (c: byte)
    requires at <= |text|
    ensures c == Peek(text[at..])
  {
    if at < |text| then text[at] else 0
  }

  lemma Next(text: seq<byte>, at: nat, n: nat)
    requires at + n <= |text|
    ensures text[at..][n..] == text[at + n..]
  {
  }

  method SkipWhite(text: seq<byte>, at: nat) returns (r: nat)
    requires at <= |text|
    ensures at <= r <= |text| && text[r..] == Skip(text[at..])
  {
    r := at;
    while CharAt(text, r) != 0 && CharAt(text, r) <= 32
      invariant at <= r <= |text| && Skip(text[r..]) == Skip(text[at..])
      decreases |text| - r
    {
      Next(text, r, 1);
      r := r + 1;
    }
  }

  method ParseNumberAt(text: seq<byte>, at: nat) returns (r: Parsed<Json>, end: nat)
    requires at <= |text|
    ensures r == ParseNumber(text[at..]) && at <= end <= |text| && (r.Parsed? ==> r.rest == text[end..])
  {
    hide ParseDigits;
    var n: int, sign := 0, 1;
    end := at;
    if CharAt(text, end) == MINUS {
      sign := -1;
      Next(text, end, 1);
      end := end + 1;
    }
    if CharAt(text, end) == 0x30 {
      Next(text, end, 1);
      end := end + 1;
    }
    ghost var start := end;
    if 0x31 <= CharAt(text, end) <= 0x39 {
      n, end := Digits(text, end);
    }
    if CharAt(text, end) == 0x2E && end + 1 <= |text| {
      Next(text, end, 1);
    }
    if (CharAt(text, end) == 0x2E && IsDigit(CharAt(text, end + 1))) || CharAt(text, end) == 0x65 || CharAt(text, end) == 0x45 {
      return NotModelled, end;
    }
    if sign * n < INT_MIN || INT_MAX < sign * n {
      return NotModelled, end;
    }
    r := Parsed(Number(sign * n), text[end..]);
  }

  method Digits(text: seq<byte>, at: nat) returns (n: nat, end: nat)
    requires at <= |text|
    ensures at <= end <= |text| && ParseDigits(text[at..], 0) == (n, text[end..])
  {
    n, end := 0, at;
    while IsDigit(CharAt(text, end))
      invariant at <= end <= |text| && ParseDigits(text[end..], n) == ParseDigits(text[at..], 0)
      decreases |text| - end
    {
      Next(text, end, 1);
      var d: nat := text[end];
      n := n * 10 + (d - 0x30);
      end := end + 1;
    }
  }

  // The end of the string that starts behind the quote at the position.
  method FindEnd(text: seq<byte>, at: nat) returns (ok: bool, end: nat)
    requires at <= |text|
    ensures at <= end <= |text| && BodyLength(text[at..]) == if ok then Some(end - at) else None
  {
    ok, end := true, at;
    while CharAt(text, end) != QUOTE && CharAt(text, end) != 0
      invariant at <= end <= |text|
      invariant BodyLength(text[at..]) == match BodyLength(text[end..])
                                          case None => None
                                          case Some(n) => Some(end - at + n)
      decreases |text| - end
    {
      Next(text, end, 1);
      if text[end] == BACKSLASH {
        if CharAt(text, end + 1) == 0 {
          return false, end;
        }
        Next(text, end, 2);
        end := end + 1;
      }
      end := end + 1;
    }
  }

  // The characters of a string with the escapes undone.
  method Unescaping(body: seq<byte>) returns (ok: bool, out: seq<byte>)
    ensures Unescape(body) == if ok then Some(out) else None
  {
    out := [];
    var i := 0;
    PrefixedNone(Unescape(body));
    assert body[0..] == body;
    while i < |body|
      invariant i <= |body| && Prefixed(out, Unescape(body[i..])) == Unescape(body)
    {
      hide UnicodeEscape, Unescaped;
      if body[i] != BACKSLASH {
        Next(body, i, 1);
        PrefixedTwice(out, [body[i]], Unescape(body[i + 1..]));
        out := out + [body[i]];
        i := i + 1;
      } else if i + 1 == |body| {
        return false, out;
      } else if Unescaped(body[i + 1]) != 0 {
        Next(body, i, 2);
        PrefixedTwice(out, [Unescaped(body[i + 1])], Unescape(body[i + 2..]));
        out := out + [Unescaped(body[i + 1])];
        i := i + 2;
      } else if body[i + 1] == 0x75 {
        var u := UnicodeEscape(body[i..]);
        if u.None? {
          return false, out;
        }
        Next(body, i, u.value.1);
        PrefixedTwice(out, u.value.0, Unescape(body[i + u.value.1..]));
        out := out + u.value.0;
        i := i + u.value.1;
      } else {
        return false, out;
      }
    }
    ok := true;
    assert body[i..] == [];
    assert out + [] == out;
  }

  // The room that is made for a string: a character that is escaped by one letter counts once.
  function Room(body: seq<byte>): nat {
    if body == [] then 0
    else if body[0] == BACKSLASH && 2 <= |body| then 1 + Room(body[2..])
    else 1 + Room(body[1..])
  }

  lemma RoomOfHex(body: seq<byte>)
    requires 4 <= |body| && forall i :: 0 <= i < 4 ==> body[i] != BACKSLASH
    ensures Room(body) == 4 + Room(body[4..])
  {
    assert body[1..][1..] == body[2..] && body[2..][1..] == body[3..] && body[3..][1..] == body[4..];
    assert body[1..][0] == body[1] && body[2..][0] == body[2] && body[3..][0] == body[3];
    assert Room(body) == 1 + Room(body[1..]);
    assert Room(body[1..]) == 1 + Room(body[2..]);
    assert Room(body[2..]) == 1 + Room(body[3..]);
  }

  // What is written for a string fits into the room that is made for it.
  lemma {:induction false} UnescapeFits(body: seq<byte>)
    ensures Unescape(body).Some? ==> |Unescape(body).value| <= Room(body)
    decreases |body|
  {
    hide UnicodeEscape, Unescaped;
    if body == [] || (body[0] == BACKSLASH && |body| < 2) {
    } else if body[0] != BACKSLASH {
      UnescapeFits(body[1..]);
    } else if Unescaped(body[1]) != 0 {
      UnescapeFits(body[2..]);
    } else if body[1] == 0x75 && UnicodeEscape(body).Some? {
      var n := UnicodeEscape(body).value.1;
      UnescapeFits(body[n..]);
      UnicodeFits(body);
    }
  }

  lemma UnicodeFits(body: seq<byte>)
    requires 2 <= |body| && body[0] == BACKSLASH && body[1] == 0x75 && UnicodeEscape(body).Some?
    ensures var (utf8, n) := UnicodeEscape(body).value;
            |utf8| + Room(body[n..]) <= Room(body)
  {
    HexIsPlain(body[2..]);
    RoomOfHex(body[2..]);
    assert body[2..][4..] == body[6..];
    if UnicodeEscape(body).value.1 == 12 {
      HexIsPlain(body[8..]);
      RoomOfHex(body[8..]);
      assert body[8..][4..] == body[12..] && body[6..][2..] == body[8..] && body[6..][0] == BACKSLASH;
    }
  }

  lemma HexIsPlain(t: seq<byte>)
    ensures Hex4(t) != 0 ==> 4 <= |t| && forall i :: 0 <= i < 4 ==> t[i] != BACKSLASH
  {
  }

  lemma PrefixedNone(r: Option<seq<byte>>)
    ensures Prefixed([], r) == r
  {
    if r.Some? {
      assert [] + r.value == r.value;
    }
  }

  lemma PrefixedTwice(a: seq<byte>, b: seq<byte>, r: Option<seq<byte>>)
    ensures Prefixed(a, Prefixed(b, r)) == Prefixed(a + b, r)
  {
    if r.Some? {
      Concat3(a, b, r.value);
    }
  }

  method ParseStringAt(text: seq<byte>, at: nat) returns (r: Parsed<seq<byte>>, end: nat)
    requires at <= |text|
    ensures r == ParseString(text[at..]) && (r.Parsed? ==> at < end <= |text| && r.rest == text[end..])
  {
    hide BodyLength, Unescape;
    end := at;
    if CharAt(text, at) != QUOTE {
      return Malformed, at;
    }
    Next(text, at, 1);
    var ok;
    ok, end := FindEnd(text, at + 1);
    if !ok {
      return Malformed, at;
    }
    Next(text, at + 1, end - (at + 1));
    assert text[at + 1..][..end - (at + 1)] == text[at + 1..end];
    var out;
    ok, out := Unescaping(text[at + 1..end]);
    if !ok {
      return Malformed, at;
    }
    if CharAt(text, end) == QUOTE {
      Next(text, end, 1);
      end := end + 1;
    }
    r := Parsed(out, text[end..]);
  }

  /* ---- Lists that grow at their end ---- */

  function Prepend(done: seq<Json>, items: Items): Items
    decreases |done|
  {
    if done == [] then items else Item(done[0], Prepend(done[1..], items))
  }

  function PrependParsed(done: seq<Json>, r: Parsed<Items>): Parsed<Items> {
    match r
    case Parsed(items, rest) => Parsed(Prepend(done, items), rest)
    case Malformed => Malformed
    case NotModelled => NotModelled
  }

  lemma {:induction false} PrependLast(done: seq<Json>, v: Json, items: Items)
    ensures Prepend(done + [v], items) == Prepend(done, Item(v, items))
    decreases |done|
  {
    if done == [] {
      assert [v][1..] == [];
    } else {
      assert (done + [v])[1..] == done[1..] + [v];
      PrependLast(done[1..], v, items);
    }
  }

  function PrependMembers(done: seq<(seq<byte>, Json)>, members: Members): Members
    decreases |done|
  {
    if done == [] then members else Member(done[0].0, done[0].1, PrependMembers(done[1..], members))
  }

  function PrependParsedMembers(done: seq<(seq<byte>, Json)>, r: Parsed<Members>): Parsed<Members> {
    match r
    case Parsed(members, rest) => Parsed(PrependMembers(done, members), rest)
    case Malformed => Malformed
    case NotModelled => NotModelled
  }

  lemma {:induction false} PrependLastMember(done: seq<(seq<byte>, Json)>, key: seq<byte>, v: Json, members: Members)
    ensures PrependMembers(done + [(key, v)], members) == PrependMembers(done, Member(key, v, members))
    decreases |done|
  {
    if done == [] {
      assert [(key, v)][1..] == [];
    } else {
      assert (done + [(key, v)])[1..] == done[1..] + [(key, v)];
      PrependLastMember(done[1..], key, v, members);
    }
  }

  /* ---- Values ---- */

  method ParseValueAt(text: seq<byte>, at: nat) returns (r: Parsed<Json>, end: nat)
    requires at <= |text|
    ensures r == ParseValue(text[at..]) && (r.Parsed? ==> at < end <= |text| && r.rest == text[end..])
    decreases |text| - at, 2
  {
    hide ParseNumber, ParseString, ParseItems, ParseMembers, Skip;
    var t := text[at..];
    if StartsWith(t, NULL_WORD) {
      Next(text, at, 4);
      return Parsed(Null, text[at + 4..]), at + 4;
    }
    if StartsWith(t, FALSE_WORD) {
      Next(text, at, 5);
      return Parsed(False, text[at + 5..]), at + 5;
    }
    if StartsWith(t, TRUE_WORD) {
      Next(text, at, 4);
      return Parsed(True, text[at + 4..]), at + 4;
    }
    end := at;
    hide StartsWith;
    if CharAt(text, at) == QUOTE {
      var s;
      s, end := ParseStringAt(text, at);
      r := match s
           case Parsed(value, rest) => Parsed(String(value), rest)
           case Malformed => Malformed
           case NotModelled => NotModelled;
    } else if CharAt(text, at) == MINUS || IsDigit(CharAt(text, at)) {
      r, end := ParseNumberAt(text, at);
      NumberMoves(t);
    } else if CharAt(text, at) == OPEN_ARRAY {
      r, end := ParseArrayAt(text, at);
      ValueIsArray(t);
    } else if CharAt(text, at) == OPEN_OBJECT {
      r, end := ParseObjectAt(text, at);
      ValueIsObject(t);
    } else {
      r := Malformed;
    }
  }

  lemma NumberMoves(t: seq<byte>)
    requires Peek(t) == MINUS || IsDigit(Peek(t))
    ensures ParseNumber(t).Parsed? ==> |ParseNumber(t).rest| < |t|
  {
  }

  method ParseArrayAt(text: seq<byte>, at: nat) returns (r: Parsed<Json>, end: nat)
    requires at < |text| && text[at] == OPEN_ARRAY
    ensures r == ParseValue(text[at..]) && (r.Parsed? ==> at < end <= |text| && r.rest == text[end..])
    decreases |text| - at, 1
  {
    hide ParseValue, ParseItems, Skip;
    ValueIsArray(text[at..]);
    Next(text, at, 1);
    end := SkipWhite(text, at + 1);
    if CharAt(text, end) == CLOSE_ARRAY {
      Next(text, end, 1);
      return Parsed(Array(NoItem), text[end + 1..]), end + 1;
    }
    var items;
    items, end := ParseItemsAt(text, end);
    r := match items
         case Parsed(value, rest) => Parsed(Array(value), rest)
         case Malformed => Malformed
         case NotModelled => NotModelled;
  }

  // The children of an array, one after the other.
  method ParseItemsAt(text: seq<byte>, at: nat) returns (r: Parsed<Items>, end: nat)
    requires at <= |text|
    ensures r == ParseItems(text[at..]) && (r.Parsed? ==> at < end <= |text| && r.rest == text[end..])
    decreases |text| - at, 3
  {
    hide ParseValue, Skip, Prepend;
    ghost var all := ParseItems(text[at..]);
    var done: seq<Json> := [];
    end := at;
    PrependNone(ParseItems(text[at..]));
    while true
      invariant at <= end <= |text| && PrependParsed(done, ParseItems(text[end..])) == all
      decreases |text| - end
    {
      var from := SkipWhite(text, end);
      var v, next := ParseValueAt(text, from);
      if v.Malformed? {
        return Malformed, end;
      }
      if v.NotModelled? {
        return NotModelled, end;
      }
      next := SkipWhite(text, next);
      if CharAt(text, next) == COMMA {
        Next(text, next, 1);
        PrependMore(done, v.value, ParseItems(text[next + 1..]));
        done := done + [v.value];
        end := next + 1;
      } else if CharAt(text, next) == CLOSE_ARRAY {
        Next(text, next, 1);
        return Parsed(Prepend(done, Item(v.value, NoItem)), text[next + 1..]), next + 1;
      } else {
        return Malformed, end;
      }
    }
  }

  lemma PrependNone(r: Parsed<Items>)
    ensures PrependParsed([], r) == r
  {
  }

  lemma PrependMore(done: seq<Json>, v: Json, r: Parsed<Items>)
    ensures PrependParsed(done + [v], r) == PrependParsed(done, match r
                                                                case Parsed(items, rest) => Parsed(Item(v, items), rest)
                                                                case Malformed => Malformed
                                                                case NotModelled => NotModelled)
  {
    if r.Parsed? {
      PrependLast(done, v, r.value);
    }
  }

  method ParseObjectAt(text: seq<byte>, at: nat) returns (r: Parsed<Json>, end: nat)
    requires at < |text| && text[at] == OPEN_OBJECT
    ensures r == ParseValue(text[at..]) && (r.Parsed? ==> at < end <= |text| && r.rest == text[end..])
    decreases |text| - at, 1
  {
    hide ParseValue, ParseMembers, Skip;
    ValueIsObject(text[at..]);
    Next(text, at, 1);
    end := SkipWhite(text, at + 1);
    if CharAt(text, end) == CLOSE_OBJECT {
      Next(text, end, 1);
      return Parsed(Object(NoMember), text[end + 1..]), end + 1;
    }
    var members;
    members, end := ParseMembersAt(text, end);
    r := match members
         case Parsed(value, rest) => Parsed(Object(value), rest)
         case Malformed => Malformed
         case NotModelled => NotModelled;
  }

  // The members of an object, one after the other.
  method ParseMembersAt(text: seq<byte>, at: nat) returns (r: Parsed<Members>, end: nat)
    requires at <= |text|
    ensures r == ParseMembers(text[at..]) && (r.Parsed? ==> at < end <= |text| && r.rest == text[end..])
    decreases |text| - at, 3
  {
    hide ParseValue, ParseString, Skip, PrependMembers;
    ghost var all := ParseMembers(text[at..]);
    var done: seq<(seq<byte>, Json)> := [];
    end := at;
    PrependNoMembers(ParseMembers(text[at..]));
    while true
      invariant at <= end <= |text| && PrependParsedMembers(done, ParseMembers(text[end..])) == all
      decreases |text| - end
    {
      var from := SkipWhite(text, end);
      var key, next := ParseStringAt(text, from);
      if !key.Parsed? {
        return if key.Malformed? then Malformed else NotModelled, end;
      }
      next := SkipWhite(text, next);
      if CharAt(text, next) != COLON {
        return Malformed, end;
      }
      Next(text, next, 1);
      next := SkipWhite(text, next + 1);
      var v;
      v, next := ParseValueAt(text, next);
      if v.Malformed? {
        return Malformed, end;
      }
      if v.NotModelled? {
        return NotModelled, end;
      }
      next := SkipWhite(text, next);
      if CharAt(text, next) == COMMA {
        Next(text, next, 1);
        PrependMoreMembers(done, key.value, v.value, ParseMembers(text[next + 1..]));
        done := done + [(key.value, v.value)];
        end := next + 1;
      } else if CharAt(text, next) == CLOSE_OBJECT {
        Next(text, next, 1);
        return Parsed(PrependMembers(done, Member(key.value, v.value, NoMember)), text[next + 1..]), next + 1;
      } else {
        return Malformed, end;
      }
    }
  }

  lemma PrependNoMembers(r: Parsed<Members>)
    ensures PrependParsedMembers([], r) == r
  {
  }

  lemma PrependMoreMembers(done: seq<(seq<byte>, Json)>, key: seq<byte>, v: Json, r: Parsed<Members>)
    ensures PrependParsedMembers(done + [(key, v)], r) ==
              PrependParsedMembers(done, match r
                                         case Parsed(members, rest) => Parsed(Member(key, v, members), rest)
                                         case Malformed => Malformed
                                         case NotModelled => NotModelled)
  {
    if r.Parsed? {
      PrependLastMember(done, key, v, r.value);
    }
  }

  // A whole text, which may have to end behind the value.
  method Parse(text: seq<byte>, toEnd: bool) returns (r: Parsed<Json>)
    ensures r == ParseText(text, toEnd)
  {
    hide ParseValue, Skip;
    assert text[0..] == text;
    var at := SkipWhite(text, 0);
    var end;
    r, end := ParseValueAt(text, at);
    if r.Parsed? && toEnd {
      end := SkipWhite(text, end);
      r := if CharAt(text, end) != 0 then Malformed else Parsed(r.value, text[end..]);
    }
  }
}
