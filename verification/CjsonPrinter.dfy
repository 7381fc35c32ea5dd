// The two ways of printing: into strings that are put together level by level, and into one
// buffer that grows as it is needed. Both write the same text.
module JsonPrinter {
  import opened Words
  import opened JsonText

  /* ---- The text has no zeros ---- */

  lemma {:induction false} DigitsAreC(n: nat)
    ensures CString(Digits(n))
    decreases n
  {
    if 10 <= n {
      DigitsAreC(n / 10);
    }
  }

  lemma {:induction false} EscapesAreC(s: seq<byte>)
    requires CString(s)
    ensures CString(EscapeAll(s))
    decreases |s|
  {
    if s != [] {
      EscapesAreC(s[1..]);
      HexRoundTrip(s[0] as int / 16);
      HexRoundTrip(s[0] as int % 16);
      assert CString(Escape(s[0]));
    }
  }

  lemma {:induction false} TextIsC(v: Json, depth: nat, fmt: bool)
    requires Printable(v)
    ensures CString(Text(v, depth, fmt))
    decreases v
  {
    hide EscapeAll, Digits;
    match v
    case Number(n) => DigitsAreC(if n < 0 then -n else n);
    case String(s) => EscapesAreC(s);
    case Array(items) =>
      ItemsAreC(items, depth, fmt);
    case Object(members) =>
      MembersAreC(members, depth + 1, fmt);
      ObjectIsC(members, depth, fmt);
    case _ =>
  }

  lemma FiveAreC(a: seq<byte>, b: seq<byte>, c: seq<byte>, d: seq<byte>, e: seq<byte>)
    requires CString(a) && CString(b) && CString(c) && CString(d) && CString(e)
    ensures CString(a + b + c + d + e)
  {
  }

  lemma WhenIsC(fmt: bool, depth: nat)
    ensures CString(When(fmt, [NEWLINE])) && CString(When(fmt, [TAB])) && CString(When(fmt, [SPACE])) && CString(When(fmt, Tabs(depth)))
  {
  }

  lemma ObjectIsC(members: Members, depth: nat, fmt: bool)
    requires CString(MembersText(members, depth + 1, fmt))
    ensures CString(Text(Object(members), depth, fmt))
  {
    hide MembersText, When;
    assert CString([OPEN_OBJECT]) && CString([CLOSE_OBJECT]);
    hide CString;
    WhenIsC(fmt, depth);
    FiveAreC([OPEN_OBJECT], When(fmt, [NEWLINE]), MembersText(members, depth + 1, fmt), When(fmt, Tabs(depth)), [CLOSE_OBJECT]);
  }

  lemma {:induction false} ItemsAreC(items: Items, depth: nat, fmt: bool)
    requires PrintableItems(items)
    ensures CString(ItemsText(items, depth, fmt))
    decreases items
  {
    hide Text;
    if items.Item? {
      TextIsC(items.value, depth + 1, fmt);
      ItemsAreC(items.next, depth, fmt);
    }
  }

  lemma {:induction false} MembersAreC(members: Members, depth: nat, fmt: bool)
    requires PrintableMembers(members)
    ensures CString(MembersText(members, depth, fmt))
    decreases members
  {
    hide Text, StringText;
    if members.Member? {
      TextIsC(members.value, depth, fmt);
      StringIsC(members.key);
      MembersAreC(members.next, depth, fmt);
      MemberIsC(members, depth, fmt);
    }
  }

  lemma StringIsC(s: seq<byte>)
    requires CString(s)
    ensures CString(StringText(s))
  {
    hide EscapeAll;
    EscapesAreC(s);
  }

  lemma MemberIsC(m: Members, depth: nat, fmt: bool)
    requires m.Member? && CString(StringText(m.key)) && CString(Text(m.value, depth, fmt)) && CString(MembersText(m.next, depth, fmt))
    ensures CString(MembersText(m, depth, fmt))
  {
    hide Text, StringText, When;
    var comma: seq<byte> := if m.next.NoMember? then [] else [COMMA];
    var none: seq<byte> := [];
    assert CString([COLON]) && CString(comma) && CString(none);
    hide CString;
    var front := When(fmt, Tabs(depth)) + StringText(m.key) + [COLON] + When(fmt, [TAB]) + Text(m.value, depth, fmt);
    WhenIsC(fmt, depth);
    FiveAreC(When(fmt, Tabs(depth)), StringText(m.key), [COLON], When(fmt, [TAB]), Text(m.value, depth, fmt));
    FiveAreC(front, comma, When(fmt, [NEWLINE]), MembersText(m.next, depth, fmt), none);
    assert front + comma + When(fmt, [NEWLINE]) + MembersText(m.next, depth, fmt) + none == MembersText(m, depth, fmt);
  }

  // Trees by size, for loops over lists.
  function Size(v: Json): nat {
    match v
    case Array(items) => 1 + ItemsSize(items)
    case Object(members) => 1 + MembersSize(members)
    case _ => 0
  }

  function ItemsSize(items: Items): nat {
    match items
    case NoItem => 0
    case Item(v, next) => 1 + Size(v) + ItemsSize(next)
  }

  function MembersSize(members: Members): nat {
    match members
    case NoMember => 0
    case Member(_, v, next) => 1 + Size(v) + MembersSize(next)
  }

  /* ---- Strings ---- */

  lemma {:induction false} NothingToEscape(s: seq<byte>)
    requires forall i :: 0 <= i < |s| ==> !NeedsEscape(s[i])
    ensures EscapeAll(s) == s
    decreases |s|
  {
    if s != [] {
      NothingToEscape(s[1..]);
    }
  }

  lemma {:induction false} EscapeAppend(s: seq<byte>, c: byte)
    ensures EscapeAll(s + [c]) == EscapeAll(s) + Escape(c)
    decreases |s|
  {
    hide Escape;
    if s == [] {
      assert [c][1..] == [];
      assert EscapeAll([c]) == Escape(c) + EscapeAll([]);
    } else {
      assert (s + [c])[1..] == s[1..] + [c];
      EscapeAppend(s[1..], c);
    }
  }

  // A string with its quotes and escapes, and the size of the memory that is set aside for
  // it, with the 0 at the end.
  method PrintStringPtr(str: seq<byte>) returns (out: seq<byte>, size: nat)
    requires CString(str)
    ensures out == StringText(str) && size == |out| + 1
  {
    hide EscapeAll, Escape;
    var flag := false;
    var i := 0;
    while i < |str|
      invariant i <= |str| && (flag <==> exists j :: 0 <= j < i && NeedsEscape(str[j]))
    {
      flag := flag || (0 < str[i] < 32) || str[i] == QUOTE || str[i] == BACKSLASH;
      i := i + 1;
    }
    if !flag {
      NothingToEscape(str);
      return [QUOTE] + str + [QUOTE], |str| + 3;
    }
    var len := 0;
    i := 0;
    assert str[..0] == [];
    NoEscapes();
    while i < |str|
      invariant i <= |str| && len == |EscapeAll(str[..i])|
    {
      var token := str[i];
      len := len + 1;
      if token in [QUOTE, BACKSLASH, 0x08, 0x0C, NEWLINE, 0x0D, TAB] {
        len := len + 1;
      } else if token < 32 {
        len := len + 5;
      }
      assert str[..i + 1] == str[..i] + [str[i]];
      EscapeAppend(str[..i], str[i]);
      EscapeSize(str[i]);
      i := i + 1;
    }
    assert str[..i] == str;
    out := [QUOTE];
    i := 0;
    while i < |str|
      invariant i <= |str| && out == [QUOTE] + EscapeAll(str[..i])
    {
      var token := str[i];
      assert str[..i + 1] == str[..i] + [str[i]];
      EscapeAppend(str[..i], str[i]);
      EscapeIs(token);
      if token > 31 && token != QUOTE && token != BACKSLASH {
        out := out + [token];
      } else if token == BACKSLASH {
        out := out + [BACKSLASH, BACKSLASH];
      } else if token == QUOTE {
        out := out + [BACKSLASH, QUOTE];
      } else if token == 0x08 {
        out := out + [BACKSLASH, 0x62];
      } else if token == 0x0C {
        out := out + [BACKSLASH, 0x66];
      } else if token == NEWLINE {
        out := out + [BACKSLASH, 0x6E];
      } else if token == 0x0D {
        out := out + [BACKSLASH, 0x72];
      } else if token == TAB {
        out := out + [BACKSLASH, 0x74];
      } else {
        out := out + [BACKSLASH, 0x75, 0x30, 0x30, HexDigit(token as int / 16), HexDigit(token as int % 16)];
      }
      i := i + 1;
    }
    assert str[..i] == str;
    out := out + [QUOTE];
    size := len + 3;
  }

  lemma NoEscapes()
    ensures EscapeAll([]) == []
  {
  }

  lemma EscapeSize(c: byte)
    ensures |Escape(c)| == if c in [QUOTE, BACKSLASH, 0x08, 0x0C, NEWLINE, 0x0D, TAB] then 2 else if c < 32 then 6 else 1
  {
  }

  lemma EscapeIs(c: byte)
    ensures Escape(c) == if c > 31 && c != QUOTE && c != BACKSLASH then [c]
                         else if EscapeLetter(c) != 0 then [BACKSLASH, EscapeLetter(c)]
                         else [BACKSLASH, 0x75, 0x30, 0x30, HexDigit(c as int / 16), HexDigit(c as int % 16)]
  {
  }

  /* ---- Strings put together ---- */

  lemma {:induction false} DigitsShort(n: nat, k: nat)
    requires n < Ten(k) && 0 < k
    ensures |Digits(n)| <= k
    decreases k
  {
    if 10 <= n {
      DigitsShort(n / 10, k - 1);
    }
  }

  function Ten(k: nat): nat {
    if k == 0 then 1 else 10 * Ten(k - 1)
  }

  lemma IntTextShort(n: int)
    requires INT_MIN <= n <= INT_MAX
    ensures |IntText(n)| <= 11
  {
    assert Ten(10) == 10_000_000_000 by {
      assert Ten(5) == 100_000;
    }
    DigitsShort(if n < 0 then -n else n, 10);
  }

  // The texts of the children of an array, and of the members of an object.
  function Entries(items: Items, depth: nat, fmt: bool): seq<seq<byte>> {
    match items
    case NoItem => []
    case Item(v, next) => [Text(v, depth + 1, fmt)] + Entries(next, depth, fmt)
  }

  function Values(members: Members, depth: nat, fmt: bool): seq<seq<byte>> {
    match members
    case NoMember => []
    case Member(_, v, next) => [Text(v, depth, fmt)] + Values(next, depth, fmt)
  }

  function Names(members: Members): seq<seq<byte>> {
    match members
    case NoMember => []
    case Member(key, _, next) => [StringText(key)] + Names(next)
  }

  function Separator(fmt: bool): seq<byte> {
    [COMMA] + When(fmt, [SPACE])
  }

  function Join(es: seq<seq<byte>>, fmt: bool): seq<byte>
    decreases |es|
  {
    if es == [] then [] else if |es| == 1 then es[0] else es[0] + Separator(fmt) + Join(es[1..], fmt)
  }

  lemma {:induction false} JoinIsItemsText(items: Items, depth: nat, fmt: bool)
    ensures Join(Entries(items, depth, fmt), fmt) == ItemsText(items, depth, fmt)
    decreases items
  {
    hide Text;
    if items.Item? {
      JoinIsItemsText(items.next, depth, fmt);
      var es := Entries(items, depth, fmt);
      assert es[1..] == Entries(items.next, depth, fmt);
      if items.next.NoItem? {
        assert es == [Text(items.value, depth + 1, fmt)];
      }
    }
  }

  // The memory that is counted for the entries.
  function Counted(es: seq<seq<byte>>, fmt: bool): nat
    decreases |es|
  {
    if es == [] then 0 else Counted(es[..|es| - 1], fmt) + |es[|es| - 1]| + 2 + if fmt then 1 else 0
  }

  lemma {:induction false} CountedFront(e: seq<byte>, es: seq<seq<byte>>, fmt: bool)
    ensures Counted([e] + es, fmt) == |e| + 2 + (if fmt then 1 else 0) + Counted(es, fmt)
    decreases |es|
  {
    var all := [e] + es;
    if es == [] {
      assert all[..0] == [];
      assert all == [e];
    } else {
      assert all[..|all| - 1] == [e] + es[..|es| - 1];
      CountedFront(e, es[..|es| - 1], fmt);
    }
  }

  lemma {:induction false} JoinFits(es: seq<seq<byte>>, fmt: bool)
    ensures |Join(es, fmt)| <= Counted(es, fmt)
    decreases |es|
  {
    if es != [] {
      JoinFits(es[1..], fmt);
      HeadTail(es);
      CountedFront(es[0], es[1..], fmt);
    }
  }

  // The members of an object, put together; depth is that of the members.
  function JoinMembers(names: seq<seq<byte>>, values: seq<seq<byte>>, depth: nat, fmt: bool): seq<byte>
    requires |names| == |values|
    decreases |names|
  {
    if names == [] then []
    else
      When(fmt, Tabs(depth)) + names[0] + [COLON] + When(fmt, [TAB]) + values[0]
      + (if |names| == 1 then [] else [COMMA]) + When(fmt, [NEWLINE]) + JoinMembers(names[1..], values[1..], depth, fmt)
  }

  lemma {:induction false} NamesAndValues(members: Members, depth: nat, fmt: bool)
    ensures |Names(members)| == |Values(members, depth, fmt)|
    ensures JoinMembers(Names(members), Values(members, depth, fmt), depth, fmt) == MembersText(members, depth, fmt)
    decreases members
  {
    hide Text, StringText;
    if members.Member? {
      NamesAndValues(members.next, depth, fmt);
      assert Names(members)[1..] == Names(members.next);
      assert Values(members, depth, fmt)[1..] == Values(members.next, depth, fmt);
    }
  }

  function MembersCounted(names: seq<seq<byte>>, values: seq<seq<byte>>, depth: nat, fmt: bool): nat
    requires |names| == |values|
    decreases |names|
  {
    if names == [] then 0
    else
      var n := |names| - 1;
      MembersCounted(names[..n], values[..n], depth, fmt) + |values[n]| + |names[n]| + 2 + if fmt then 2 + depth else 0
  }

  lemma {:induction false} MembersCountedFront(name: seq<byte>, value: seq<byte>, names: seq<seq<byte>>, values: seq<seq<byte>>, depth: nat, fmt: bool)
    requires |names| == |values|
    ensures MembersCounted([name] + names, [value] + values, depth, fmt) ==
              |value| + |name| + 2 + (if fmt then 2 + depth else 0) + MembersCounted(names, values, depth, fmt)
    decreases |names|
  {
    var ns, vs, n := [name] + names, [value] + values, |names|;
    if names == [] {
      assert ns == [name] && vs == [value];
      assert ns[..0] == [] && vs[..0] == [];
    } else {
      assert ns[..n] == [name] + names[..n - 1] && vs[..n] == [value] + values[..n - 1];
      MembersCountedFront(name, value, names[..n - 1], values[..n - 1], depth, fmt);
    }
  }

  lemma {:induction false} MembersFit(names: seq<seq<byte>>, values: seq<seq<byte>>, depth: nat, fmt: bool)
    requires |names| == |values|
    ensures |JoinMembers(names, values, depth, fmt)| <= MembersCounted(names, values, depth, fmt)
    decreases |names|
  {
    if names != [] {
      MembersFit(names[1..], values[1..], depth, fmt);
      HeadTail(names);
      HeadTail(values);
      MembersCountedFront(names[0], values[0], names[1..], values[1..], depth, fmt);
    }
  }

  // Prints into memory of its own. What is written always fits into what was set aside.
  method PrintValue(v: Json, depth: nat, fmt: bool) returns (out: seq<byte>)
    requires Printable(v)
    ensures out == Text(v, depth, fmt)
    decreases Size(v), 1
  {
    match v
    case Null => out := NULL_WORD;
    case False => out := FALSE_WORD;
    case True => out := TRUE_WORD;
    case Number(n) =>
      out := if n == 0 then [0x30] else IntText(n);
      IntTextShort(n);
      assert |out| + 1 <= 21;
    case String(s) =>
      var size;
      out, size := PrintStringPtr(s);
    case Array(items) => out := PrintArray(items, depth, fmt);
    case Object(members) => out := PrintObject(members, depth, fmt);
  }

  method PrintArray(items: Items, depth: nat, fmt: bool) returns (out: seq<byte>)
    requires PrintableItems(items)
    ensures out == Text(Array(items), depth, fmt)
    decreases ItemsSize(items), 1
  {
    if items.NoItem? {
      return [OPEN_ARRAY, CLOSE_ARRAY];
    }
    var entries, len := PrintItems(items, depth, fmt);
    out := ComposeArray(entries, fmt);
    JoinIsItemsText(items, depth, fmt);
    JoinFits(entries, fmt);
    assert |out| + 1 <= len;
  }

  // All the children, and the size that they come to.
  method PrintItems(items: Items, depth: nat, fmt: bool) returns (entries: seq<seq<byte>>, len: nat)
    requires PrintableItems(items)
    ensures entries == Entries(items, depth, fmt) && len == 5 + Counted(entries, fmt)
    decreases ItemsSize(items), 0
  {
    hide Text, Counted, Entries;
    ghost var all := Entries(items, depth, fmt);
    entries, len := [], 5;
    NothingCounted(fmt);
    var child := items;
    while child.Item?
      invariant PrintableItems(child) && ItemsSize(child) <= ItemsSize(items)
      invariant all == entries + Entries(child, depth, fmt) && len == 5 + Counted(entries, fmt)
      decreases child
    {
      var ret := PrintValue(child.value, depth + 1, fmt);
      CountedBack(entries, ret, fmt);
      EntriesStep(child, depth, fmt);
      Concat3(entries, [ret], Entries(child.next, depth, fmt));
      entries := entries + [ret];
      len := len + |ret| + 2 + if fmt then 1 else 0;
      child := child.next;
    }
    NoEntries(depth, fmt);
  }

  lemma NothingCounted(fmt: bool)
    ensures Counted([], fmt) == 0
  {
  }

  lemma NoEntries(depth: nat, fmt: bool)
    ensures Entries(NoItem, depth, fmt) == [] && Values(NoMember, depth, fmt) == [] && Names(NoMember) == []
  {
  }

  lemma CountedBack(es: seq<seq<byte>>, e: seq<byte>, fmt: bool)
    ensures Counted(es + [e], fmt) == Counted(es, fmt) + |e| + 2 + if fmt then 1 else 0
  {
    assert (es + [e])[..|es|] == es;
  }

  lemma EntriesStep(items: Items, depth: nat, fmt: bool)
    requires items.Item?
    ensures Entries(items, depth, fmt) == [Text(items.value, depth + 1, fmt)] + Entries(items.next, depth, fmt)
  {
  }

  method ComposeArray(entries: seq<seq<byte>>, fmt: bool) returns (out: seq<byte>)
    ensures out == [OPEN_ARRAY] + Join(entries, fmt) + [CLOSE_ARRAY]
  {
    out := [OPEN_ARRAY];
    var i := 0;
    while i < |entries|
      invariant i <= |entries| && out + Join(entries[i..], fmt) == [OPEN_ARRAY] + Join(entries, fmt)
    {
      ghost var was, more := out, Join(entries[i + 1..], fmt);
      assert entries[i..][1..] == entries[i + 1..];
      out := out + entries[i];
      if i != |entries| - 1 {
        out := out + Separator(fmt);
        assert was + (entries[i] + Separator(fmt) + more) == out + more;
      } else {
        assert more == [];
      }
      i := i + 1;
    }
    out := out + [CLOSE_ARRAY];
  }

  method PrintObject(members: Members, depth: nat, fmt: bool) returns (out: seq<byte>)
    requires PrintableMembers(members)
    ensures out == Text(Object(members), depth, fmt)
    decreases MembersSize(members), 1
  {
    if members.NoMember? {
      out := [OPEN_OBJECT] + When(fmt, [NEWLINE]) + When(fmt, Tabs(depth)) + [CLOSE_OBJECT];
      assert |out| + 1 <= if fmt then depth + 4 else 3;
      return;
    }
    var names, values, len := PrintMembers(members, depth + 1, fmt);
    out := ComposeObject(names, values, depth, fmt);
    NamesAndValues(members, depth + 1, fmt);
    MembersFit(names, values, depth + 1, fmt);
    assert |out| + 1 <= len;
  }

  // All the names and values, and the size that they come to.
  method PrintMembers(members: Members, depth: nat, fmt: bool) returns (names: seq<seq<byte>>, values: seq<seq<byte>>, len: nat)
    requires PrintableMembers(members)
    ensures names == Names(members) && values == Values(members, depth, fmt) && |names| == |values|
    ensures len == 7 + (if fmt then depth else 0) + MembersCounted(names, values, depth, fmt)
    decreases MembersSize(members), 0
  {
    hide Text, StringText, MembersCounted, Names, Values;
    ghost var allNames, allValues := Names(members), Values(members, depth, fmt);
    names, values, len := [], [], 7;
    if fmt {
      len := len + depth;
    }
    ghost var base := len;
    NoMembersCounted(depth, fmt);
    var child := members;
    while child.Member?
      invariant PrintableMembers(child) && MembersSize(child) <= MembersSize(members) && |names| == |values|
      invariant allNames == names + Names(child) && allValues == values + Values(child, depth, fmt)
      invariant len == base + MembersCounted(names, values, depth, fmt)
      decreases child
    {
      var str, size := PrintStringPtr(child.key);
      var ret := PrintValue(child.value, depth, fmt);
      MembersCountedBack(names, values, str, ret, depth, fmt);
      MembersStep(child, depth, fmt);
      Concat3(names, [str], Names(child.next));
      Concat3(values, [ret], Values(child.next, depth, fmt));
      names, values := names + [str], values + [ret];
      len := len + |ret| + |str| + 2 + if fmt then 2 + depth else 0;
      child := child.next;
    }
    NoEntries(depth, fmt);
  }

  lemma NoMembersCounted(depth: nat, fmt: bool)
    ensures MembersCounted([], [], depth, fmt) == 0
  {
  }

  lemma MembersCountedBack(names: seq<seq<byte>>, values: seq<seq<byte>>, name: seq<byte>, value: seq<byte>, depth: nat, fmt: bool)
    requires |names| == |values|
    ensures MembersCounted(names + [name], values + [value], depth, fmt) ==
              MembersCounted(names, values, depth, fmt) + |value| + |name| + 2 + if fmt then 2 + depth else 0
  {
    assert (names + [name])[..|names|] == names && (values + [value])[..|names|] == values;
  }

  lemma MembersStep(members: Members, depth: nat, fmt: bool)
    requires members.Member?
    ensures Names(members) == [StringText(members.key)] + Names(members.next)
    ensures Values(members, depth, fmt) == [Text(members.value, depth, fmt)] + Values(members.next, depth, fmt)
  {
  }

  method ComposeObject(names: seq<seq<byte>>, values: seq<seq<byte>>, depth: nat, fmt: bool) returns (out: seq<byte>)
    requires |names| == |values|
    ensures out == [OPEN_OBJECT] + When(fmt, [NEWLINE]) + JoinMembers(names, values, depth + 1, fmt) + When(fmt, Tabs(depth)) + [CLOSE_OBJECT]
  {
    hide When, Tabs;
    ghost var start := [OPEN_OBJECT] + When(fmt, [NEWLINE]);
    out := [OPEN_OBJECT] + When(fmt, [NEWLINE]);
    var i := 0;
    while i < |names|
      invariant i <= |names| && out + JoinMembers(names[i..], values[i..], depth + 1, fmt) == start + JoinMembers(names, values, depth + 1, fmt)
    {
      ghost var was, more := out, JoinMembers(names[i + 1..], values[i + 1..], depth + 1, fmt);
      assert names[i..][1..] == names[i + 1..] && values[i..][1..] == values[i + 1..];
      var member := When(fmt, Tabs(depth + 1)) + names[i] + [COLON] + When(fmt, [TAB]) + values[i]
        + (if i != |names| - 1 then [COMMA] else []) + When(fmt, [NEWLINE]);
      assert JoinMembers(names[i..], values[i..], depth + 1, fmt) == member + more;
      out := out + member;
      Concat3(was, member, more);
      i := i + 1;
    }
    out := out + When(fmt, Tabs(depth)) + [CLOSE_OBJECT];
  }
}
