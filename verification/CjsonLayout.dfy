// What formatting adds to a printed text: white space alone, which a scan of the text can put in
// that knows nothing of the tree but which brackets are open.
module JsonLayout {
  import opened Words
  import opened JsonText

  predicate IsWhite(c: byte) {
    c != 0 && c <= 32
  }

  function Line(fmt: bool, n: nat): seq<byte> {
    When(fmt, [NEWLINE] + Tabs(n))
  }

  // Which brackets are open, the innermost one last; true for an object.
  function Pop(open: seq<bool>): seq<bool> {
    if open == [] then [] else open[..|open| - 1]
  }

  // Lays a text out anew: white space outside strings is dropped, and for a formatted text every
  // member of an object goes to a line of its own, behind a tab for each open bracket.
  function Lay(t: seq<byte>, open: seq<bool>, fmt: bool): seq<byte>
    decreases |t|
  {
    if t == [] then []
    else if IsWhite(t[0]) then Lay(t[1..], open, fmt)
    else if t[0] == QUOTE then LayString(t, open, fmt)
    else if t[0] == OPEN_OBJECT then
      var u := Skip(t[1..]);
      if Peek(u) == CLOSE_OBJECT then [OPEN_OBJECT] + Line(fmt, |open|) + [CLOSE_OBJECT] + Lay(u[1..], open, fmt)
      else [OPEN_OBJECT] + Line(fmt, |open| + 1) + Lay(t[1..], open + [true], fmt)
    else if t[0] == OPEN_ARRAY then [OPEN_ARRAY] + Lay(t[1..], open + [false], fmt)
    else if t[0] == CLOSE_OBJECT then Line(fmt, |Pop(open)|) + [CLOSE_OBJECT] + Lay(t[1..], Pop(open), fmt)
    else if t[0] == CLOSE_ARRAY then [CLOSE_ARRAY] + Lay(t[1..], Pop(open), fmt)
    else if t[0] == COMMA then
      [COMMA] + (if open != [] && open[|open| - 1] then Line(fmt, |open|) else When(fmt, [SPACE])) + Lay(t[1..], open, fmt)
    else if t[0] == COLON then [COLON] + When(fmt, [TAB]) + Lay(t[1..], open, fmt)
    else [t[0]] + Lay(t[1..], open, fmt)
  }

  function LayString(t: seq<byte>, open: seq<bool>, fmt: bool): seq<byte>
    requires t != []
    decreases |t|, 0
  {
    match BodyLength(t[1..])
    case None => t
    case Some(n) => if n + 1 < |t| then t[..n + 2] + Lay(t[n + 2..], open, fmt) else t
  }

  /* ---- The parts of a text ---- */

  // A byte that is neither white nor a bracket, separator or quote is copied.
  predicate Copied(c: byte) {
    !IsWhite(c) && c != QUOTE && c != OPEN_OBJECT && c != OPEN_ARRAY && c != CLOSE_OBJECT && c != CLOSE_ARRAY && c != COMMA && c != COLON
  }

  lemma LayOne(c: byte, rest: seq<byte>, open: seq<bool>, fmt: bool)
    ensures IsWhite(c) ==> Lay([c] + rest, open, fmt) == Lay(rest, open, fmt)
    ensures Copied(c) ==> Lay([c] + rest, open, fmt) == [c] + Lay(rest, open, fmt)
    ensures c == OPEN_ARRAY ==> Lay([c] + rest, open, fmt) == [c] + Lay(rest, open + [false], fmt)
    ensures c == CLOSE_OBJECT ==> Lay([c] + rest, open, fmt) == Line(fmt, |Pop(open)|) + [c] + Lay(rest, Pop(open), fmt)
    ensures c == CLOSE_ARRAY ==> Lay([c] + rest, open, fmt) == [c] + Lay(rest, Pop(open), fmt)
    ensures c == COMMA ==>
              Lay([c] + rest, open, fmt)
              == [c] + (if open != [] && open[|open| - 1] then Line(fmt, |open|) else When(fmt, [SPACE])) + Lay(rest, open, fmt)
    ensures c == COLON ==> Lay([c] + rest, open, fmt) == [c] + When(fmt, [TAB]) + Lay(rest, open, fmt)
    ensures c == OPEN_OBJECT && Peek(Skip(rest)) != CLOSE_OBJECT ==>
              Lay([c] + rest, open, fmt) == [c] + Line(fmt, |open| + 1) + Lay(rest, open + [true], fmt)
    ensures c == OPEN_OBJECT && Peek(Skip(rest)) == CLOSE_OBJECT ==>
              Lay([c] + rest, open, fmt) == [c] + Line(fmt, |open|) + [CLOSE_OBJECT] + Lay(Skip(rest)[1..], open, fmt)
  {
    hide Line, Skip, LayString, Pop;
    assert ([c] + rest)[1..] == rest;
  }

  lemma {:induction false} LayWhite(s: seq<byte>, rest: seq<byte>, open: seq<bool>, fmt: bool)
    requires forall i :: 0 <= i < |s| ==> IsWhite(s[i])
    ensures Lay(s + rest, open, fmt) == Lay(rest, open, fmt)
    decreases |s|
  {
    hide Lay;
    if s == [] {
      assert s + rest == rest;
    } else {
      LayWhite(s[1..], rest, open, fmt);
      LayOne(s[0], s[1..] + rest, open, fmt);
      assert s + rest == [s[0]] + (s[1..] + rest);
    }
  }

  lemma {:induction false} LayCopied(s: seq<byte>, rest: seq<byte>, open: seq<bool>, fmt: bool)
    requires forall i :: 0 <= i < |s| ==> Copied(s[i])
    ensures Lay(s + rest, open, fmt) == s + Lay(rest, open, fmt)
    decreases |s|
  {
    hide Lay, Copied;
    if s == [] {
      assert s + rest == rest;
      assert s + Lay(rest, open, fmt) == Lay(rest, open, fmt);
    } else {
      LayCopied(s[1..], rest, open, fmt);
      LayOne(s[0], s[1..] + rest, open, fmt);
      assert s + rest == [s[0]] + (s[1..] + rest);
      assert s + Lay(rest, open, fmt) == [s[0]] + (s[1..] + Lay(rest, open, fmt));
    }
  }

  lemma LayText(s: seq<byte>, rest: seq<byte>, open: seq<bool>, fmt: bool)
    requires CString(s)
    ensures Lay(StringText(s) + rest, open, fmt) == StringText(s) + Lay(rest, open, fmt)
  {
    var e, t := EscapeAll(s), StringText(s) + rest;
    BodyOfText(s, rest);
    hide EscapeAll, BodyLength, CString;
    assert t == [QUOTE] + (e + ([QUOTE] + rest));
    assert t[1..] == e + ([QUOTE] + rest);
    assert t[..|e| + 2] == StringText(s) && t[|e| + 2..] == rest;
  }

  lemma {:induction false} DigitsCopied(n: nat)
    ensures forall i :: 0 <= i < |Digits(n)| ==> Copied(Digits(n)[i])
  {
    if n >= 10 {
      DigitsCopied(n / 10);
    }
  }

  lemma IntCopied(n: int)
    ensures forall i :: 0 <= i < |IntText(n)| ==> Copied(IntText(n)[i])
  {
    DigitsCopied(if n < 0 then -n else n);
    hide Digits;
  }

  /* ---- Members without the white space around them ---- */

  function Inner(members: Members, depth: nat, fmt: bool): seq<byte>
    decreases members
  {
    match members
    case NoMember => []
    case Member(key, v, next) =>
      StringText(key) + [COLON] + When(fmt, [TAB]) + Text(v, depth, fmt)
      + (if next.NoMember? then [] else [COMMA] + Line(fmt, depth) + Inner(next, depth, fmt))
  }

  lemma {:induction false} InnerIs(members: Members, depth: nat, fmt: bool)
    requires members.Member?
    ensures MembersText(members, depth, fmt) == When(fmt, Tabs(depth)) + Inner(members, depth, fmt) + When(fmt, [NEWLINE])
    decreases members
  {
    hide Text, StringText, Tabs, When, Line;
    var key, tab, v := StringText(members.key), When(fmt, [TAB]), Text(members.value, depth, fmt);
    var w, nl := When(fmt, Tabs(depth)), When(fmt, [NEWLINE]);
    if members.next.Member? {
      InnerIs(members.next, depth, fmt);
      LineIs(fmt, depth);
      InnerJoin(w, key, tab, v, nl, Inner(members.next, depth, fmt));
    } else {
      LastJoin(w, key, tab, v, nl);
    }
  }

  lemma LineIs(fmt: bool, n: nat)
    ensures Line(fmt, n) == When(fmt, [NEWLINE]) + When(fmt, Tabs(n))
  {
    hide Tabs;
  }

  lemma InnerJoin(w: seq<byte>, key: seq<byte>, tab: seq<byte>, v: seq<byte>, nl: seq<byte>, more: seq<byte>)
    ensures w + key + [COLON] + tab + v + [COMMA] + nl + (w + more + nl) == w + (key + [COLON] + tab + v + ([COMMA] + (nl + w) + more)) + nl
  {
  }

  lemma LastJoin(w: seq<byte>, key: seq<byte>, tab: seq<byte>, v: seq<byte>, nl: seq<byte>)
    ensures w + key + [COLON] + tab + v + [] + nl + [] == w + (key + [COLON] + tab + v + []) + nl
  {
  }

  /* ---- Laying out a printed text ---- */

  lemma WhiteParts(fmt: bool, n: nat)
    ensures forall i :: 0 <= i < |When(fmt, Tabs(n))| ==> IsWhite(When(fmt, Tabs(n))[i])
    ensures forall i :: 0 <= i < |When(fmt, [NEWLINE])| ==> IsWhite(When(fmt, [NEWLINE])[i])
    ensures forall i :: 0 <= i < |When(fmt, [SPACE])| ==> IsWhite(When(fmt, [SPACE])[i])
    ensures forall i :: 0 <= i < |When(fmt, [TAB])| ==> IsWhite(When(fmt, [TAB])[i])
    ensures White(When(fmt, Tabs(n))) && White(When(fmt, [NEWLINE]))
  {
  }

  // However a tree was printed, laying the text out gives the text of either format: the two
  // differ in white space alone, and that follows from the brackets that are open.
  lemma {:induction false} TextLays(v: Json, open: seq<bool>, f: bool, g: bool, rest: seq<byte>)
    requires Printable(v)
    ensures Lay(Text(v, |open|, f) + rest, open, g) == Text(v, |open|, g) + Lay(rest, open, g)
    decreases v
  {
    match v
    case Number(n) =>
      IntCopied(n);
      LayCopied(IntText(n), rest, open, g);
    case String(s) =>
      LayText(s, rest, open, g);
    case Array(items) =>
      ArrayLays(items, open, f, g, rest);
    case Object(members) =>
      ObjectLays(members, open, f, g, rest);
    case _ =>
      LayCopied(Text(v, |open|, f), rest, open, g);
  }

  lemma {:induction false} ArrayLays(items: Items, open: seq<bool>, f: bool, g: bool, rest: seq<byte>)
    requires PrintableItems(items)
    ensures Lay(Text(Array(items), |open|, f) + rest, open, g) == Text(Array(items), |open|, g) + Lay(rest, open, g)
    decreases items, 1
  {
    hide Lay, ItemsText;
    var inside, end := open + [false], [CLOSE_ARRAY] + rest;
    var a, b := ItemsText(items, |open|, f), ItemsText(items, |open|, g);
    assert Text(Array(items), |open|, f) + rest == [OPEN_ARRAY] + (a + end);
    LayOne(OPEN_ARRAY, a + end, open, g);
    ItemsLay(items, inside, f, g, end);
    LayOne(CLOSE_ARRAY, rest, inside, g);
    assert Pop(inside) == open;
    assert [OPEN_ARRAY] + (b + ([CLOSE_ARRAY] + Lay(rest, open, g))) == [OPEN_ARRAY] + b + [CLOSE_ARRAY] + Lay(rest, open, g);
  }

  lemma {:induction false} ItemsLay(items: Items, open: seq<bool>, f: bool, g: bool, rest: seq<byte>)
    requires PrintableItems(items) && open != [] && !open[|open| - 1]
    ensures Lay(ItemsText(items, |open| - 1, f) + rest, open, g) == ItemsText(items, |open| - 1, g) + Lay(rest, open, g)
    decreases items, 0
  {
    hide Lay, Text, When;
    match items
    case NoItem =>
      assert ItemsText(items, |open| - 1, f) + rest == rest;
      assert ItemsText(items, |open| - 1, g) + Lay(rest, open, g) == Lay(rest, open, g);
    case Item(v, next) =>
      var d := |open| - 1;
      var tail := ItemsText(next, d, f) + rest;
      ItemsLay(next, open, f, g, rest);
      if next.NoItem? {
        TextLays(v, open, f, g, rest);
        assert ItemsText(items, d, f) == Text(v, |open|, f) && ItemsText(items, d, g) == Text(v, |open|, g);
      } else {
        var gap := When(f, [SPACE]);
        WhiteParts(f, 0);
        ItemsSplit(Text(v, |open|, f), gap, ItemsText(next, d, f), rest);
        TextLays(v, open, f, g, [COMMA] + (gap + tail));
        LayOne(COMMA, gap + tail, open, g);
        LayWhite(gap, tail, open, g);
        ItemsJoin(Text(v, |open|, g), When(g, [SPACE]), ItemsText(next, d, g), Lay(rest, open, g));
      }
  }

  lemma ItemsSplit(a: seq<byte>, gap: seq<byte>, b: seq<byte>, c: seq<byte>)
    ensures a + ([COMMA] + gap) + b + c == a + ([COMMA] + (gap + (b + c)))
  {
  }

  lemma ItemsJoin(a: seq<byte>, gap: seq<byte>, b: seq<byte>, c: seq<byte>)
    ensures a + ([COMMA] + gap + (b + c)) == a + ([COMMA] + gap) + b + c
  {
  }

  lemma {:induction false} ObjectLays(members: Members, open: seq<bool>, f: bool, g: bool, rest: seq<byte>)
    requires PrintableMembers(members)
    ensures Lay(Text(Object(members), |open|, f) + rest, open, g) == Text(Object(members), |open|, g) + Lay(rest, open, g)
    decreases members, 1
  {
    hide Lay, MembersText, Inner, Tabs, When, Line;
    var d, inside := |open|, open + [true];
    var first, last := When(f, [NEWLINE]), When(f, Tabs(d));
    var end := last + ([CLOSE_OBJECT] + rest);
    var body := MembersText(members, d + 1, f);
    WhiteParts(f, d);
    assert Text(Object(members), d, f) + rest == [OPEN_OBJECT] + (first + (body + end));
    if members.NoMember? {
      EmptyLays(open, f, g, rest);
    } else {
      OpensMember(members, d, f, end);
      LayOne(OPEN_OBJECT, first + (body + end), open, g);
      LayWhite(first, body + end, inside, g);
      MembersLay(members, inside, f, g, end);
      LayWhite(last, [CLOSE_OBJECT] + rest, inside, g);
      LayOne(CLOSE_OBJECT, rest, inside, g);
      assert Pop(inside) == open;
      InnerIs(members, d + 1, g);
      ObjectJoin(g, d, Inner(members, d + 1, g), Lay(rest, open, g));
    }
  }

  lemma ObjectJoin(g: bool, d: nat, inner: seq<byte>, c: seq<byte>)
    ensures [OPEN_OBJECT] + Line(g, d + 1) + (inner + (Line(g, d) + [CLOSE_OBJECT] + c))
            == [OPEN_OBJECT] + When(g, [NEWLINE]) + (When(g, Tabs(d + 1)) + inner + When(g, [NEWLINE])) + When(g, Tabs(d)) + [CLOSE_OBJECT] + c
  {
    hide Tabs;
  }

  lemma OpensMember(members: Members, d: nat, f: bool, end: seq<byte>)
    requires members.Member?
    ensures Peek(Skip(When(f, [NEWLINE]) + (MembersText(members, d + 1, f) + end))) == QUOTE
  {
    WhiteParts(f, d + 1);
    InnerIs(members, d + 1, f);
    hide MembersText, Inner, Tabs, When;
    var more := Inner(members, d + 1, f) + When(f, [NEWLINE]) + end;
    InnerOpens(members, d + 1, f);
    assert MembersText(members, d + 1, f) + end == When(f, Tabs(d + 1)) + more;
    SkipWhite(When(f, [NEWLINE]), When(f, Tabs(d + 1)) + more);
    SkipWhite(When(f, Tabs(d + 1)), more);
    SkipNone(more);
  }

  lemma InnerOpens(members: Members, depth: nat, fmt: bool)
    requires members.Member?
    ensures Inner(members, depth, fmt) != [] && Inner(members, depth, fmt)[0] == QUOTE
  {
    hide EscapeAll, Text;
  }

  lemma EmptyLays(open: seq<bool>, f: bool, g: bool, rest: seq<byte>)
    ensures Lay(Text(Object(NoMember), |open|, f) + rest, open, g) == Text(Object(NoMember), |open|, g) + Lay(rest, open, g)
  {
    hide Lay, Tabs, Text;
    var d := |open|;
    var tail := [CLOSE_OBJECT] + rest;
    WhiteParts(f, d);
    EmptyIs(d, f, rest);
    EmptyIs(d, g, Lay(rest, open, g));
    hide When;
    SkipWhite(When(f, [NEWLINE]), When(f, Tabs(d)) + tail);
    SkipWhite(When(f, Tabs(d)), tail);
    SkipNone(tail);
    assert tail[1..] == rest;
    LayOne(OPEN_OBJECT, When(f, [NEWLINE]) + (When(f, Tabs(d)) + tail), open, g);
  }

  lemma EmptyIs(d: nat, f: bool, rest: seq<byte>)
    ensures Text(Object(NoMember), d, f) + rest == [OPEN_OBJECT] + (When(f, [NEWLINE]) + (When(f, Tabs(d)) + ([CLOSE_OBJECT] + rest)))
    ensures Text(Object(NoMember), d, f) + rest == [OPEN_OBJECT] + Line(f, d) + [CLOSE_OBJECT] + rest
  {
    hide Tabs;
    assert MembersText(NoMember, d + 1, f) == [];
    if f {
      assert Text(Object(NoMember), d, f) == [OPEN_OBJECT] + [NEWLINE] + Tabs(d) + [CLOSE_OBJECT];
    } else {
      assert Text(Object(NoMember), d, f) == [OPEN_OBJECT] + [CLOSE_OBJECT];
    }
  }

  lemma {:induction false} MembersLay(members: Members, open: seq<bool>, f: bool, g: bool, rest: seq<byte>)
    requires PrintableMembers(members) && members.Member? && open != [] && open[|open| - 1]
    ensures Lay(MembersText(members, |open|, f) + rest, open, g) == Inner(members, |open|, g) + Lay(rest, open, g)
    decreases members, 0
  {
    hide Lay, Text, Tabs, StringText, MembersText, Inner, When;
    var d := |open|;
    var key, v, next := members.key, members.value, members.next;
    var tail := (if next.NoMember? then [] else [COMMA]) + (When(f, [NEWLINE]) + (MembersText(next, d, f) + rest));
    var value := Text(v, d, f) + tail;
    WhiteParts(f, d);
    MemberSplits(members, d, f, rest);
    LayWhite(When(f, Tabs(d)), StringText(key) + ([COLON] + (When(f, [TAB]) + value)), open, g);
    LayText(key, [COLON] + (When(f, [TAB]) + value), open, g);
    LayOne(COLON, When(f, [TAB]) + value, open, g);
    LayWhite(When(f, [TAB]), value, open, g);
    TextLays(v, open, f, g, tail);
    MembersTail(next, open, f, g, rest);
    InnerSplits(members, d, g, Lay(rest, open, g));
  }

  lemma MemberSplits(members: Members, d: nat, f: bool, rest: seq<byte>)
    requires members.Member?
    ensures var next := members.next;
            var tail := (if next.NoMember? then [] else [COMMA]) + (When(f, [NEWLINE]) + (MembersText(next, d, f) + rest));
            MembersText(members, d, f) + rest
            == When(f, Tabs(d)) + (StringText(members.key) + ([COLON] + (When(f, [TAB]) + (Text(members.value, d, f) + tail))))
  {
    hide When, Tabs, StringText, Text;
    Concat8(When(f, Tabs(d)), StringText(members.key), [COLON], When(f, [TAB]), Text(members.value, d, f),
            if members.next.NoMember? then [] else [COMMA], When(f, [NEWLINE]), MembersText(members.next, d, f), rest);
    hide MembersText;
  }

  lemma Concat8(a: seq<byte>, b: seq<byte>, c: seq<byte>, d: seq<byte>, e: seq<byte>, f: seq<byte>, g: seq<byte>, h: seq<byte>, i: seq<byte>)
    ensures a + b + c + d + e + f + g + h + i == a + (b + (c + (d + (e + (f + (g + (h + i)))))))
  {
    Concat5(a + b + c + d + e, f, g, h, i);
    Concat5(a, b, c, d, e + (f + (g + (h + i))));
    Concat3(a + b + c + d, e, f + (g + (h + i)));
  }

  lemma InnerSplits(members: Members, d: nat, g: bool, rest: seq<byte>)
    requires members.Member?
    ensures var next := members.next;
            Inner(members, d, g) + rest
            == StringText(members.key) + ([COLON] + When(g, [TAB]) + (Text(members.value, d, g)
               + ((if next.NoMember? then [] else [COMMA] + Line(g, d) + Inner(next, d, g)) + rest)))
  {
    hide When, Line, StringText, Text;
    var key, colon, tab, value := StringText(members.key), [COLON], When(g, [TAB]), Text(members.value, d, g);
    var tail := if members.next.NoMember? then [] else [COMMA] + Line(g, d) + Inner(members.next, d, g);
    assert Inner(members, d, g) == key + colon + tab + value + tail;
    hide Inner;
    Concat5(key + colon, tab, value, tail, rest);
    Concat3(key, colon, tab + (value + (tail + rest)));
    Concat3(colon, tab, value + (tail + rest));
    Concat3(key + colon, tab, value + (tail + rest));
  }

  // What follows a member: the end, or a comma and the next one.
  lemma {:induction false} MembersTail(next: Members, open: seq<bool>, f: bool, g: bool, rest: seq<byte>)
    requires PrintableMembers(next) && open != [] && open[|open| - 1]
    ensures var d := |open|;
            Lay((if next.NoMember? then [] else [COMMA]) + (When(f, [NEWLINE]) + (MembersText(next, d, f) + rest)), open, g)
            == (if next.NoMember? then [] else [COMMA] + Line(g, d) + Inner(next, d, g)) + Lay(rest, open, g)
    decreases next, 1
  {
    hide Lay, Text, Tabs, Inner;
    var d := |open|;
    WhiteParts(f, d);
    LayWhite(When(f, [NEWLINE]), MembersText(next, d, f) + rest, open, g);
    if next.NoMember? {
      assert MembersText(next, d, f) + rest == rest;
      assert [] + (When(f, [NEWLINE]) + (MembersText(next, d, f) + rest)) == When(f, [NEWLINE]) + (MembersText(next, d, f) + rest);
    } else {
      MembersLay(next, open, f, g, rest);
      LayOne(COMMA, When(f, [NEWLINE]) + (MembersText(next, d, f) + rest), open, g);
      Concat3([COMMA] + Line(g, d), Inner(next, d, g), Lay(rest, open, g));
    }
  }

  // A whole text.
  lemma FormatsAgree(v: Json, f: bool, g: bool)
    requires Printable(v)
    ensures Lay(Text(v, 0, f), [], g) == Text(v, 0, g)
  {
    hide Lay, Text;
    TextLays(v, [], f, g, []);
    assert Text(v, 0, f) + [] == Text(v, 0, f) && Text(v, 0, g) + [] == Text(v, 0, g);
    LayNothing(g);
  }

  lemma LayNothing(g: bool)
    ensures Lay([], [], g) == []
  {
  }
}
