// Printing into one buffer, which is replaced by a larger one where that is allowed.
module JsonBuffer {
  import opened Words
  import opened Bits
  import opened Memory
  import opened JsonText
  import opened JsonPrinter

  // The next power of two.
  function Pow2Gt(x: nat): (r: nat)
    ensures x <= r && 0 < r
  {
    if x <= 1 then 1 else 2 * Pow2Gt((x + 1) / 2)
  }

  lemma {:induction false} NextPower(x: nat, n: nat)
    requires Pow2(n) / 2 < x <= Pow2(n)
    ensures Pow2Gt(x) == Pow2(n)
    decreases n
  {
    if n > 0 {
      NextPower((x + 1) / 2, n - 1);
    }
  }

  // The bits of x - 1 are smeared to the right until all below the highest one are set.
  method Pow2GtOf(x: nat) returns (r: nat)
    requires 0 < x
    ensures x <= r && (x <= 0x8000_0000 ==> r == Pow2Gt(x))
  {
    hide Or, Shr, Filled, Pow2Gt;
    var y: nat := x - 1;
    ghost var n := HighestBit(y);
    Smeared(y, 1, n);
    y := Or(y, Shr(y, 1));
    Smeared(y, 2, n);
    y := Or(y, Shr(y, 2));
    Smeared(y, 4, n);
    y := Or(y, Shr(y, 4));
    Smeared(y, 8, n);
    y := Or(y, Shr(y, 8));
    Smeared(y, 16, n);
    y := Or(y, Shr(y, 16));
    r := y + 1;
    if x <= 0x8000_0000 {
      UpTo32Bits(x - 1, n);
      AllBits(y, n);
      NextPower(x, n);
    }
  }

  lemma UpTo32Bits(y: nat, n: nat)
    requires y < 0x8000_0000 && y < Pow2(n) && (0 < y ==> 0 < n && Pow2(n - 1) <= y) && (y == 0 ==> n == 0)
    ensures n <= 32 && Pow2(n) / 2 < y + 1 <= Pow2(n)
  {
    if 32 < n {
      Pow2Monotone(32, n - 1);
      assert Pow2(8) == 0x100 by { assert Pow2(4) == 16; }
      Pow2Add(8, 8);
      Pow2Add(16, 16);
    }
  }

  class PrintBuffer {
    var buffer: array<byte>
    var offset: nat
    const noalloc: bool

    constructor (buffer: array<byte>, noalloc: bool)
      ensures this.buffer == buffer && offset == 0 && this.noalloc == noalloc
    {
      this.buffer := buffer;
      this.offset := 0;
      this.noalloc := noalloc;
    }

    // The buffer holds done, and nothing else so far.
    ghost predicate Holds(done: seq<byte>)
      reads this, buffer
    {
      offset == |done| <= buffer.Length && buffer[..offset] == done
    }

    // Behind done there is text, with a 0 at its end; the offset is not behind it yet.
    ghost predicate Ready(done: seq<byte>, text: seq<byte>)
      reads this, buffer
    {
      && |done| <= offset <= |done| + |text| < buffer.Length
      && buffer[..|done| + |text|] == done + text && buffer[|done| + |text|] == 0
    }

    // Makes room for more bytes.
    method Ensure(needed: nat) returns (ok: bool)
      requires offset <= buffer.Length
      modifies this`buffer
      ensures buffer == old(buffer) || fresh(buffer)
      ensures offset <= buffer.Length && buffer[..offset] == old(buffer[..offset])
      ensures ok ==> offset + needed <= buffer.Length
      ensures !noalloc ==> ok
    {
      var size := needed + offset;
      if size <= buffer.Length {
        return true;
      }
      if noalloc {
        return false;
      }
      var newSize := Pow2GtOf(size);
      var newBuffer := new byte[newSize](_ => 0);
      CopyBytes(newBuffer, 0, buffer[..]);
      assert newBuffer[..][..offset] == buffer[..][..offset];
      buffer := newBuffer;
      ok := true;
    }

    // Writes at the offset, and leaves it.
    method Put(data: seq<byte>)
      requires offset + |data| <= buffer.Length
      modifies buffer
      ensures buffer[..offset + |data|] == old(buffer[..offset]) + data
    {
      ghost var was := buffer[..];
      CopyBytes(buffer, offset, data);
      assert buffer[..][..offset + |data|] == was[..offset] + data;
    }

    // Writes a piece of the text, with a 0 behind it if there is to be one, and moves on.
    method Emit(piece: seq<byte>, needed: nat, zero: bool, ghost done: seq<byte>) returns (ok: bool)
      requires Holds(done) && |piece| + (if zero then 1 else 0) <= needed
      modifies this, buffer
      ensures buffer == old(buffer) || fresh(buffer)
      ensures ok ==> Holds(done + piece)
      ensures !noalloc ==> ok
    {
      ok := Ensure(needed);
      if ok {
        var data := if zero then piece + [0] else piece;
        Put(data);
        assert buffer[..offset + |piece|] == buffer[..offset + |data|][..offset + |piece|];
        offset := offset + |piece|;
      }
    }

    // Writes text with a 0 at its end, and leaves the offset.
    method Leave(text: seq<byte>, needed: nat, ghost done: seq<byte>) returns (ok: bool)
      requires Holds(done) && |text| + 1 <= needed
      modifies this, buffer
      ensures buffer == old(buffer) || fresh(buffer)
      ensures ok ==> Ready(done, text)
      ensures !noalloc ==> ok
    {
      ok := Ensure(needed);
      if ok {
        Put(text + [0]);
        ghost var all := buffer[..offset + |text| + 1];
        assert all == done + (text + [0]);
        assert all[..|done| + |text|] == done + text && all[|done| + |text|] == 0;
      }
    }

    // Moves the offset to the end of the text.
    method Update(ghost done: seq<byte>, ghost text: seq<byte>)
      requires Ready(done, text) && CString(text) && CString(done)
      modifies this`offset
      ensures Holds(done + text)
    {
      ghost var all := done + text;
      assert CString(all);
      var n := offset;
      while buffer[n] != 0
        invariant offset <= n <= |all| < buffer.Length
        decreases |all| - n
      {
        n := n + 1;
      }
      EndsAt(buffer[..|all|], all, n);
      offset := n;
    }

    method PrintValue(v: Json, depth: nat, fmt: bool, ghost done: seq<byte>) returns (ok: bool)
      requires Printable(v) && Holds(done) && CString(done)
      modifies this, buffer
      ensures buffer == old(buffer) || fresh(buffer)
      ensures ok ==> Ready(done, Text(v, depth, fmt))
      ensures !noalloc ==> ok
      decreases Size(v), 1
    {
      hide Holds, Ready, Digits, StringText, ItemsText, MembersText;
      match v
      case Null => ok := Leave(NULL_WORD, 5, done);
      case False => ok := Leave(FALSE_WORD, 6, done);
      case True => ok := Leave(TRUE_WORD, 5, done);
      case Number(n) =>
        IntTextShort(n);
        if n == 0 {
          ZeroText();
          ok := Leave([0x30], 2, done);
        } else {
          ok := Leave(IntText(n), 21, done);
        }
      case String(s) =>
        var out, size := PrintStringPtr(s);
        ok := Leave(out, size, done);
      case Array(items) => ok := PrintArray(items, depth, fmt, done);
      case Object(members) => ok := PrintObject(members, depth, fmt, done);
    }

    method PrintArray(items: Items, depth: nat, fmt: bool, ghost done: seq<byte>) returns (ok: bool)
      requires PrintableItems(items) && Holds(done) && CString(done)
      modifies this, buffer
      ensures buffer == old(buffer) || fresh(buffer)
      ensures ok ==> Ready(done, Text(Array(items), depth, fmt))
      ensures !noalloc ==> ok
      decreases ItemsSize(items), 1
    {
      hide Holds, Ready, Text, ItemsText, CString;
      ArrayTextIs(items, depth, fmt);
      if items.NoItem? {
        ok := Leave([OPEN_ARRAY, CLOSE_ARRAY], 3, done);
        return;
      }
      ghost var all := ItemsText(items, depth, fmt);
      ghost var sofar := [OPEN_ARRAY];
      OneIsC(OPEN_ARRAY);
      ok := Emit([OPEN_ARRAY], 1, false, done);
      if !ok {
        return;
      }
      TwoAreC(done, sofar);
      var child := items;
      while child.Item?
        invariant PrintableItems(child) && ItemsSize(child) <= ItemsSize(items) && ok
        invariant buffer == old(buffer) || fresh(buffer)
        invariant Holds(done + sofar) && CString(done + sofar)
        invariant sofar + ItemsText(child, depth, fmt) == [OPEN_ARRAY] + all
        decreases child
      {
        ok := PrintItem(child, depth, fmt, done + sofar);
        if !ok {
          return;
        }
        ghost var piece := ItemText(child, depth, fmt);
        ItemsTextIs(child, depth, fmt);
        Concat3(done, sofar, piece);
        Concat3(sofar, piece, ItemsText(child.next, depth, fmt));
        sofar := sofar + piece;
        child := child.next;
      }
      NoItemsText(depth, fmt, sofar);
      ok := Leave([CLOSE_ARRAY], 2, done + sofar);
      if ok {
        Whole(done, sofar, [CLOSE_ARRAY]);
      }
    }

    // A child of an array, and the comma behind it.
    method PrintItem(child: Items, depth: nat, fmt: bool, ghost done: seq<byte>) returns (ok: bool)
      requires child.Item? && PrintableItems(child) && Holds(done) && CString(done)
      modifies this, buffer
      ensures buffer == old(buffer) || fresh(buffer)
      ensures ok ==> Holds(done + ItemText(child, depth, fmt)) && CString(done + ItemText(child, depth, fmt))
      ensures !noalloc ==> ok
      decreases ItemsSize(child), 0
    {
      hide Holds, Ready, Text, CString;
      ok := PrintValue(child.value, depth + 1, fmt, done);
      if !ok {
        return;
      }
      ghost var text := Text(child.value, depth + 1, fmt);
      TextIsC(child.value, depth + 1, fmt);
      Update(done, text);
      TwoAreC(done, text);
      if child.next.Item? {
        SeparatorIsC(fmt);
        TwoAreC(done + text, Separator(fmt));
        ok := Emit(Separator(fmt), |Separator(fmt)| + 1, true, done + text);
        Concat3(done, text, Separator(fmt));
      } else {
        assert text + [] == text;
      }
    }

    method PrintObject(members: Members, depth: nat, fmt: bool, ghost done: seq<byte>) returns (ok: bool)
      requires PrintableMembers(members) && Holds(done) && CString(done)
      modifies this, buffer
      ensures buffer == old(buffer) || fresh(buffer)
      ensures ok ==> Ready(done, Text(Object(members), depth, fmt))
      ensures !noalloc ==> ok
      decreases MembersSize(members), 1
    {
      hide Holds, Ready, Text, MembersText, CString;
      ObjectTextIs(members, depth, fmt);
      if members.NoMember? {
        ok := Leave(ObjectOpen(fmt) + When(fmt, Tabs(depth)) + [CLOSE_OBJECT], if fmt then depth + 4 else 3, done);
        return;
      }
      ghost var all := MembersText(members, depth + 1, fmt);
      ghost var sofar := ObjectOpen(fmt);
      ok := Emit(ObjectOpen(fmt), |ObjectOpen(fmt)| + 1, true, done);
      if !ok {
        return;
      }
      OpenIsC(fmt);
      TwoAreC(done, sofar);
      var child := members;
      while child.Member?
        invariant PrintableMembers(child) && MembersSize(child) <= MembersSize(members) && ok
        invariant buffer == old(buffer) || fresh(buffer)
        invariant Holds(done + sofar) && CString(done + sofar)
        invariant sofar + MembersText(child, depth + 1, fmt) == ObjectOpen(fmt) + all
        decreases child
      {
        hide ObjectOpen;
        ok := PrintMember(child, depth + 1, fmt, done + sofar);
        if !ok {
          return;
        }
        ghost var piece := MemberText(child, depth + 1, fmt);
        MembersTextIs(child, depth + 1, fmt);
        Concat3(done, sofar, piece);
        Concat3(sofar, piece, MembersText(child.next, depth + 1, fmt));
        sofar := sofar + piece;
        child := child.next;
      }
      NoMembersText(depth + 1, fmt, []);
      assert sofar + [] == sofar && MembersText(NoMember, depth + 1, fmt) + [] == MembersText(NoMember, depth + 1, fmt);
      var end := When(fmt, Tabs(depth)) + [CLOSE_OBJECT];
      ok := Leave(end, if fmt then depth + 2 else 2, done + sofar);
      if ok {
        Whole(done, sofar, end);
        Concat3(sofar, When(fmt, Tabs(depth)), [CLOSE_OBJECT]);
      }
    }

    // A member of an object, on a line of its own when formatted.
    method PrintMember(child: Members, depth: nat, fmt: bool, ghost done: seq<byte>) returns (ok: bool)
      requires child.Member? && PrintableMembers(child) && Holds(done) && CString(done)
      modifies this, buffer
      ensures buffer == old(buffer) || fresh(buffer)
      ensures ok ==> Holds(done + MemberText(child, depth, fmt)) && CString(done + MemberText(child, depth, fmt))
      ensures !noalloc ==> ok
      decreases MembersSize(child), 0
    {
      hide Holds, Ready, Text, StringText, CString, When, Tabs;
      ghost var tabs, key, tab := When(fmt, Tabs(depth)), StringText(child.key), When(fmt, [TAB]);
      ghost var text, end := Text(child.value, depth, fmt), MemberEnd(child, fmt);
      ghost var sofar := done + tabs;
      MemberPartsAreC(child, depth, fmt);
      ok := true;
      if fmt {
        WhenFormatted(depth);
        ok := Emit(Tabs(depth), depth, false, done);
        if !ok {
          return;
        }
      } else {
        WhenPlain(depth);
        assert done + [] == done;
      }
      TwoAreC(done, tabs);
      var out, size := PrintStringPtr(child.key);
      ok := Leave(out, size, sofar);
      if !ok {
        return;
      }
      Update(sofar, key);
      TwoAreC(sofar, key);
      sofar := sofar + key;
      var colon := [COLON] + When(fmt, [TAB]);
      ok := Emit(colon, |colon|, false, sofar);
      if !ok {
        return;
      }
      TwoAreC(sofar, colon);
      sofar := sofar + colon;
      ok := PrintValue(child.value, depth, fmt, sofar);
      if !ok {
        return;
      }
      Update(sofar, text);
      TwoAreC(sofar, text);
      sofar := sofar + text;
      ok := Emit(MemberEnd(child, fmt), |MemberEnd(child, fmt)| + 1, true, sofar);
      TwoAreC(sofar, end);
      Concat5(done + tabs, key, colon, text, end);
      Concat3(done, tabs, key + (colon + (text + end)));
      Concat5(tabs, key, colon, text, end);
    }

    // The text before the last piece belongs to what has been printed.
    lemma Whole(done: seq<byte>, front: seq<byte>, last: seq<byte>)
      requires Ready(done + front, last)
      ensures Ready(done, front + last)
    {
      Concat3(done, front, last);
    }
  }

  lemma EndsAt(got: seq<byte>, all: seq<byte>, n: nat)
    requires got == all && CString(all) && n <= |all|
    ensures n < |all| ==> got[n] != 0
  {
  }

  lemma ZeroText()
    ensures IntText(0) == [0x30]
  {
  }

  lemma TwoAreC(a: seq<byte>, b: seq<byte>)
    requires CString(a) && CString(b)
    ensures CString(a + b)
  {
  }

  lemma OneIsC(c: byte)
    requires c != 0
    ensures CString([c])
  {
  }

  lemma SeparatorIsC(fmt: bool)
    ensures CString(Separator(fmt))
  {
  }

  function ObjectOpen(fmt: bool): seq<byte> {
    [OPEN_OBJECT] + When(fmt, [NEWLINE])
  }

  lemma OpenIsC(fmt: bool)
    ensures CString(ObjectOpen(fmt))
  {
  }

  // A child of an array, and the comma behind it.
  ghost function ItemText(child: Items, depth: nat, fmt: bool): seq<byte>
    requires child.Item?
  {
    Text(child.value, depth + 1, fmt) + if child.next.Item? then Separator(fmt) else []
  }

  lemma ItemsTextIs(child: Items, depth: nat, fmt: bool)
    requires child.Item?
    ensures ItemsText(child, depth, fmt) == ItemText(child, depth, fmt) + ItemsText(child.next, depth, fmt)
  {
    hide Text;
  }

  lemma NoItemsText(depth: nat, fmt: bool, s: seq<byte>)
    ensures s + ItemsText(NoItem, depth, fmt) == s
  {
  }

  lemma ArrayTextIs(items: Items, depth: nat, fmt: bool)
    ensures Text(Array(items), depth, fmt) == [OPEN_ARRAY] + ItemsText(items, depth, fmt) + [CLOSE_ARRAY]
    ensures items.NoItem? ==> Text(Array(items), depth, fmt) == [OPEN_ARRAY, CLOSE_ARRAY]
  {
  }

  // What follows the value of a member.
  function MemberEnd(child: Members, fmt: bool): seq<byte>
    requires child.Member?
  {
    (if child.next.Member? then [COMMA] else []) + When(fmt, [NEWLINE])
  }

  ghost function MemberText(child: Members, depth: nat, fmt: bool): seq<byte>
    requires child.Member?
  {
    When(fmt, Tabs(depth)) + StringText(child.key) + ([COLON] + When(fmt, [TAB])) + Text(child.value, depth, fmt) + MemberEnd(child, fmt)
  }

  lemma MembersTextIs(child: Members, depth: nat, fmt: bool)
    requires child.Member?
    ensures MembersText(child, depth, fmt) == MemberText(child, depth, fmt) + MembersText(child.next, depth, fmt)
  {
    hide Text, StringText, When;
    var tabs, key, tab := When(fmt, Tabs(depth)), StringText(child.key), When(fmt, [TAB]);
    var text, comma, line := Text(child.value, depth, fmt), if child.next.NoMember? then [] else [COMMA], When(fmt, [NEWLINE]);
    Concat3(tabs + key, [COLON], tab);
    Concat3(tabs + key + ([COLON] + tab) + text, comma, line);
  }

  lemma ObjectTextIs(members: Members, depth: nat, fmt: bool)
    ensures Text(Object(members), depth, fmt) ==
              ObjectOpen(fmt) + MembersText(members, depth + 1, fmt) + When(fmt, Tabs(depth)) + [CLOSE_OBJECT]
    ensures members.NoMember? ==> Text(Object(members), depth, fmt) == ObjectOpen(fmt) + When(fmt, Tabs(depth)) + [CLOSE_OBJECT]
  {
    if members.NoMember? {
      assert ObjectOpen(fmt) + [] == ObjectOpen(fmt);
    }
  }

  lemma MemberPartsAreC(child: Members, depth: nat, fmt: bool)
    requires child.Member? && PrintableMembers(child)
    ensures CString(When(fmt, Tabs(depth))) && CString(StringText(child.key)) && CString([COLON] + When(fmt, [TAB]))
    ensures CString(Text(child.value, depth, fmt)) && CString(MemberEnd(child, fmt))
  {
    hide Text, StringText;
    StringIsC(child.key);
    TextIsC(child.value, depth, fmt);
  }

  lemma WhenFormatted(depth: nat)
    ensures When(true, Tabs(depth)) == Tabs(depth) && |Tabs(depth)| == depth
  {
  }

  lemma WhenPlain(depth: nat)
    ensures When(false, Tabs(depth)) == []
  {
  }

  // However printing is done, the text is the same: in a buffer that may grow whatever its
  // size is at first, and in one that may not whenever it is large enough to be filled.
  method PrintBuffered(v: Json, buffer: array<byte>, noalloc: bool, fmt: bool) returns (ok: bool, text: seq<byte>)
    requires Printable(v)
    modifies buffer
    ensures !noalloc ==> ok
    ensures ok ==> text == Text(v, 0, fmt)
  {
    hide Text;
    var p := new PrintBuffer(buffer, noalloc);
    ok := p.PrintValue(v, 0, fmt, []);
    text := [];
    if ok {
      TextIsC(v, 0, fmt);
      p.Update([], Text(v, 0, fmt));
      text := p.buffer[..p.offset];
    }
  }

  // What either way of printing writes is read back as the same tree, with white space around
  // it or without, and nothing is left over.
  lemma PrintedIsParsed(v: Json, fmt: bool, before: seq<byte>, after: seq<byte>, toEnd: bool)
    requires Printable(v) && White(before) && White(after)
    ensures ParseText(before + Text(v, 0, fmt) + after, toEnd) == Parsed(v, if toEnd then [] else after)
  {
    hide Text, ParseValue, Skip;
    var t := Text(v, 0, fmt) + after;
    Concat3(before, Text(v, 0, fmt), after);
    SkipWhite(before, t);
    TextStarts(v, 0, fmt);
    SkipNone(t);
    TextParses(v, 0, fmt, after);
    SkipWhite(after, []);
    SkipNone([]);
    assert after + [] == after;
  }
}
