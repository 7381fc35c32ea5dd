// The circular history buffer of the LZMA2 decoder, in multi-call mode: the dictionary has
// its own memory and finished data is copied from it to the caller's buffer.
module Dictionaries {
  import opened Words
  import opened LzmaSymbols
  import opened Memory
  import opened XzBuffers

  // Where the byte written dist + 1 places before position pos is stored.
  function Back(pos: nat, dist: nat, end: nat): int {
    if dist < pos then pos - dist - 1 else pos - dist - 1 + end
  }

  lemma BackIs(pos: nat, dist: nat, end: nat)
    ensures Back(pos, dist, end) == if dist >= pos then pos - dist - 1 + end else pos - dist - 1
  {
  }

  // Reading and writing positions advance together, the reading one going round the end.
  lemma BackStep(pos: nat, dist: nat, end: nat)
    requires pos < end && dist < end
    ensures Back(pos + 1, dist, end) == if Back(pos, dist, end) + 1 == end then 0 else Back(pos, dist, end) + 1
  {
  }

  lemma RepeatStep(h: seq<byte>, dist: nat, len: nat)
    requires dist < |h| && 0 < len
    ensures RepeatFrom(h, dist, len) == RepeatFrom(h + [HistoryByte(h, dist)], dist, len - 1)
  {
  }

  lemma RepeatNothing(h: seq<byte>, dist: nat)
    requires dist < |h|
    ensures RepeatFrom(h, dist, 0) == h
  {
  }

  // The newest byte but d of the history h is in its place, when the next one goes to pos.
  ghost predicate Slot(buf: seq<byte>, pos: nat, h: seq<byte>, d: nat) {
    && d < |h|
    && 0 <= Back(pos, d, |buf|) < |buf|
    && buf[Back(pos, d, |buf|)] == h[|h| - 1 - d]
  }

  // The buffer holds the last full bytes of the unbounded history h, the newest one just
  // before pos, going round the end of the buffer.
  ghost predicate Stored(buf: seq<byte>, pos: nat, full: nat, h: seq<byte>) {
    && pos <= |buf| && full <= |buf| && full <= |h|
    && forall d :: 0 <= d < full ==> Slot(buf, pos, h, d)
  }

  function Max(a: int, b: int): int {
    if a < b then b else a
  }

  lemma StoredPut(buf: seq<byte>, pos: nat, full: nat, h: seq<byte>, b: byte)
    requires Stored(buf, pos, full, h) && pos < |buf|
    requires full == pos || full == |buf|
    ensures Stored(buf[pos := b], pos + 1, Max(full, pos + 1), h + [b])
  {
    var buf', h', pos' := buf[pos := b], h + [b], pos + 1;
    forall d: nat | d < Max(full, pos + 1)
      ensures Slot(buf', pos', h', d)
    {
      if d > 0 {
        assert Slot(buf, pos, h, d - 1);
        assert Back(pos', d, |buf|) == Back(pos, d - 1, |buf|) != pos;
        assert h'[|h'| - 1 - d] == h[|h| - 1 - (d - 1)];
      }
    }
  }

  lemma StoredWrap(buf: seq<byte>, full: nat, h: seq<byte>)
    requires Stored(buf, |buf|, full, h)
    ensures Stored(buf, 0, full, h)
  {
    forall d: nat | d < full
      ensures Slot(buf, 0, h, d)
    {
      assert Slot(buf, |buf|, h, d);
    }
  }

  // A buffer in use: the last full bytes of h are stored, full counts them up to the size of
  // the buffer, and pos keeps step with the length of h modulo every power of two up to 16.
  ghost predicate Window(buf: seq<byte>, pos: nat, full: nat, h: seq<byte>) {
    && 0 < |buf| && |buf| % 16 == 0 && pos <= |buf|
    && (full == pos || full == |buf|)
    && full == Min(|h|, |buf|)
    && pos % 16 == |h| % 16
    && Stored(buf, pos, full, h)
  }

  lemma WindowFull(buf: seq<byte>, pos: nat, full: nat, h: seq<byte>)
    requires Window(buf, pos, full, h)
    ensures 0 < |buf| && |buf| % 16 == 0 && full == Min(|h|, |buf|) && pos <= full && pos % 16 == |h| % 16
    ensures full == pos || full == |buf|
  {
  }

  // The byte at a distance inside the window.
  lemma WindowByte(buf: seq<byte>, pos: nat, full: nat, h: seq<byte>, dist: nat)
    requires Window(buf, pos, full, h) && dist < full
    ensures 0 <= Back(pos, dist, |buf|) < |buf|
    ensures buf[Back(pos, dist, |buf|)] == HistoryByte(h, dist)
  {
    assert Slot(buf, pos, h, dist);
  }

  // The bytes between two positions that did not go round the end.
  lemma WindowSlice(buf: seq<byte>, start: nat, pos: nat, full: nat, h: seq<byte>)
    requires Window(buf, pos, full, h) && start <= pos
    ensures pos <= |buf| && pos - start <= |h|
    ensures buf[start..pos] == h[|h| - (pos - start)..]
  {
    var n := pos - start;
    forall i | 0 <= i < n
      ensures buf[start..pos][i] == h[|h| - n..][i]
    {
      assert Slot(buf, pos, h, n - 1 - i);
    }
  }

  lemma SameResidue(a: nat, b: nat)
    requires a % 16 == b % 16
    ensures (a + 1) % 16 == (b + 1) % 16
  {
  }

  lemma WindowPut(buf: seq<byte>, pos: nat, full: nat, h: seq<byte>, b: byte)
    requires Window(buf, pos, full, h) && pos < |buf|
    ensures pos <= full <= |buf|
    ensures Window(buf[pos := b], pos + 1, Max(full, pos + 1), h + [b])
  {
    hide Stored, Slot, Back;
    StoredPut(buf, pos, full, h, b);
    assert |h + [b]| == |h| + 1 && |buf[pos := b]| == |buf|;
    SameResidue(pos, |h|);
  }

  lemma {:induction false} WindowPutAll(buf: seq<byte>, after: seq<byte>, pos: nat, full: nat, h: seq<byte>, data: seq<byte>)
    requires Window(buf, pos, full, h) && Wrote(buf, after, pos, data)
    ensures Window(after, pos + |data|, Max(full, pos + |data|), h + data)
    decreases |data|
  {
    hide Window;
    WindowFull(buf, pos, full, h);
    if |data| == 0 {
      assert after == buf;
      assert h + data == h;
    } else {
      var buf1 := buf[pos := data[0]];
      WindowPut(buf, pos, full, h, data[0]);
      assert buf1[..pos + 1] == buf[..pos] + [data[0]];
      assert after == buf1[..pos + 1] + data[1..] + buf1[pos + 1 + |data[1..]|..];
      WindowPutAll(buf1, after, pos + 1, Max(full, pos + 1), h + [data[0]], data[1..]);
      assert h + [data[0]] + data[1..] == h + data;
    }
  }

  lemma WindowWrap(buf: seq<byte>, full: nat, h: seq<byte>)
    requires Window(buf, |buf|, full, h)
    ensures Window(buf, 0, full, h) && full == |buf|
  {
    hide Stored;
    StoredWrap(buf, full, h);
  }

  class Dictionary {
    const buf: array<byte>
    var start: nat
    var pos: nat
    var full: nat
    var limit: nat
    const end: nat
    // Every byte since the last reset, of which buf keeps the last end ones.
    ghost var history: seq<byte>

    ghost predicate Valid()
      reads this, buf
    {
      && end == buf.Length
      && start <= pos <= full <= end
      && Window(buf[..], pos, full, history)
    }

    constructor (size: nat)
      requires 0 < size && size % 16 == 0
      ensures Valid() && fresh(buf) && end == size && history == []
      ensures start == 0 && pos == 0 && limit == 0
    {
      buf := new byte[size];
      end := size;
      start, pos, full, limit := 0, 0, 0, 0;
      history := [];
    }

    method Reset()
      requires Valid()
      modifies this
      ensures Valid() && history == [] && start == 0 && pos == 0 && limit == 0
    {
      start := 0;
      pos := 0;
      limit := 0;
      full := 0;
      history := [];
    }

    // Afterwards at most outMax bytes fit, and at least one does if outMax > 0.
    method SetLimit(outMax: nat)
      requires Valid() && pos < end
      modifies this`limit
      ensures Valid() && pos <= limit <= end
      ensures limit - pos <= outMax && (outMax > 0 ==> pos < limit)
    {
      if end - pos <= outMax {
        limit := end;
      } else {
        limit := pos + outMax;
      }
    }

    predicate HasSpace()
      reads this
    {
      pos < limit
    }

    // Every distance below full is remembered, and none beyond the history is ever read.
    method Get(dist: nat) returns (b: byte)
      requires Valid() && (full == 0 || dist < full)
      ensures b == HistoryByte(history, dist)
    {
      hide Stored;
      if full > 0 {
        var offset := pos - dist - 1;
        if dist >= pos {
          offset := offset + end;
        }
        WindowByte(buf[..], pos, full, history, dist);
        b := buf[offset];
      } else {
        b := 0;
      }
    }

    method Put(b: byte)
      requires Valid() && pos < limit <= end
      modifies this, buf
      ensures Valid() && history == old(history) + [b]
      ensures pos == old(pos) + 1 && start == old(start) && limit == old(limit)
    {
      hide Window;
      WindowPut(buf[..], pos, full, history, b);
      buf[pos] := b;
      assert buf[..] == old(buf[..])[pos := b];
      pos := pos + 1;
      if full < pos {
        full := pos;
      }
      history := history + [b];
    }

    // Repeats min(len, room) bytes from the given distance, and says how many are left to
    // repeat. The copy may overlap itself and go round the end of the buffer any number of
    // times; false means that the distance reaches beyond the history or the window.
    method Repeat(len: nat, dist: nat) returns (ok: bool, rest: nat)
      requires Valid() && pos < limit <= end && 0 < len
      modifies this, buf
      ensures Valid()
      ensures ok <==> dist < Min(|old(history)|, end)
      ensures !ok ==> history == old(history) && pos == old(pos) && rest == len
      ensures ok ==>
                && rest == len - Min(len, old(limit - pos))
                && history == RepeatFrom(old(history), dist, len - rest)
                && pos == old(pos) + (len - rest)
      ensures start == old(start) && limit == old(limit)
    {
      hide Window, RepeatFrom, HistoryByte, Back;
      WindowFull(buf[..], pos, full, history);
      if dist >= full || dist >= end {
        return false, len;
      }
      var left := Min(limit - pos, len);
      rest := len - left;
      var back := pos - dist - 1;
      if dist >= pos {
        back := back + end;
      }
      assert back == Back(pos, dist, end) by { BackIs(pos, dist, end); }
      ghost var goal := RepeatFrom(history, dist, left);
      ghost var last := pos + left;
      while left > 0
        invariant 0 <= left && pos + left == last <= limit == old(limit) <= end
        invariant start == old(start) <= pos
        invariant pos <= Max(full, pos) <= end == buf.Length && full == old(full)
        invariant Window(buf[..], pos, Max(full, pos), history) && dist < Max(full, pos)
        invariant dist < |history| && RepeatFrom(history, dist, left) == goal
        invariant left > 0 ==> back == Back(pos, dist, end)
      {
        WindowByte(buf[..], pos, Max(full, pos), history, dist);
        RepeatStep(history, dist, left);
        BackStep(pos, dist, end);
        WindowPut(buf[..], pos, Max(full, pos), history, buf[back]);
        ghost var was, b := buf[..], buf[back];
        buf[pos] := buf[back];
        assert buf[..] == was[pos := b];
        history := history + [b];
        pos := pos + 1;
        back := back + 1;
        if back == end {
          back := 0;
        }
        left := left - 1;
      }
      RepeatNothing(history, dist);
      if full < pos {
        full := pos;
      }
      ok := true;
    }

    // Copies stored bytes to the caller's buffer as they are: from the input through the
    // dictionary to the output, as far as all three and left allow.
    method CopyUncompressed(b: XzBuf, left: nat) returns (rest: nat)
      requires Valid() && start == pos < end && b.Valid() && buf != b.output
      modifies this, buf, b`inPos, b`outPos, b.output
      ensures Valid() && start == pos < end && b.Valid()
      ensures rest == left - Min(left, Min(|b.input| - old(b.inPos), b.outSize - old(b.outPos)))
      ensures b.inPos == old(b.inPos) + (left - rest) && b.outPos == old(b.outPos) + (left - rest)
      ensures var data := b.input[old(b.inPos)..b.inPos];
              && history == old(history) + data
              && Wrote(old(b.output[..]), b.output[..], old(b.outPos), data)
    {
      hide Window, Wrote;
      rest := left;
      WroteNothing(b.output[..], b.outPos);
      while rest > 0 && b.inPos < |b.input| && b.outPos < b.outSize
        invariant Valid() && start == pos < end && b.Valid()
        invariant 0 <= rest <= left
        invariant b.inPos == old(b.inPos) + (left - rest) && b.outPos == old(b.outPos) + (left - rest)
        invariant history == old(history) + b.input[old(b.inPos)..b.inPos]
        invariant Wrote(old(b.output[..]), b.output[..], old(b.outPos), b.input[old(b.inPos)..b.inPos])
      {
        ghost var done, before := b.input[old(b.inPos)..b.inPos], b.output[..];
        var copySize := CopyPiece(b, rest);
        rest := rest - copySize;
        SliceJoin(b.input, old(b.inPos), b.inPos - copySize, b.inPos);
        WroteMore(old(b.output[..]), before, b.output[..], old(b.outPos), done, b.input[b.inPos - copySize..b.inPos]);
      }
    }

    // As much as input, output and left allow, up to the end of the buffer.
    method CopyPiece(b: XzBuf, left: nat) returns (copySize: nat)
      requires Valid() && start == pos < end && b.Valid() && buf != b.output
      requires 0 < left && b.inPos < |b.input| && b.outPos < b.outSize
      modifies this, buf, b`inPos, b`outPos, b.output
      ensures Valid() && start == pos < end && b.Valid() && 0 < copySize <= left
      ensures b.inPos == old(b.inPos) + copySize && b.outPos == old(b.outPos) + copySize
      ensures var data := b.input[old(b.inPos)..b.inPos];
              && history == old(history) + data
              && Wrote(old(b.output[..]), b.output[..], old(b.outPos), data)
    {
      hide Window, Wrote;
      copySize := Min(|b.input| - b.inPos, b.outSize - b.outPos);
      if copySize > end - pos {
        copySize := end - pos;
      }
      if copySize > left {
        copySize := left;
      }
      CopyIn(b, copySize);
    }

    // One piece of an uncompressed chunk that fits before the end of the buffer.
    method CopyIn(b: XzBuf, n: nat)
      requires Valid() && start == pos && b.Valid() && buf != b.output
      requires n <= end - pos && n <= |b.input| - b.inPos && n <= b.outSize - b.outPos && 0 < n
      modifies this, buf, b`inPos, b`outPos, b.output
      ensures Valid() && start == pos < end && b.Valid()
      ensures b.inPos == old(b.inPos) + n && b.outPos == old(b.outPos) + n
      ensures var data := b.input[old(b.inPos)..b.inPos];
              && history == old(history) + data
              && Wrote(old(b.output[..]), b.output[..], old(b.outPos), data)
    {
      hide Window, Wrote;
      WindowFull(buf[..], pos, full, history);
      ghost var before := buf[..];
      CopyBytes(buf, pos, b.input[b.inPos..b.inPos + n]);
      WindowPutAll(before, buf[..], pos, full, history, b.input[b.inPos..b.inPos + n]);
      pos := pos + n;
      if full < pos {
        full := pos;
      }
      history := history + b.input[b.inPos..b.inPos + n];
      if pos == end {
        WindowWrap(buf[..], full, history);
        pos := 0;
      }
      CopyBytes(b.output, b.outPos, b.input[b.inPos..b.inPos + n]);
      start := pos;
      b.outPos := b.outPos + n;
      b.inPos := b.inPos + n;
    }

    // Hands everything decoded since the last flush to the caller: exactly the newest
    // part of the history, in one copy.
    method Flush(b: XzBuf) returns (copySize: nat)
      requires Valid() && b.Valid() && buf != b.output
      requires pos - start <= b.outSize - b.outPos
      modifies this`pos, this`start, b`outPos, b.output
      ensures Valid() && start == pos < end && b.Valid()
      ensures copySize == old(pos - start) <= |history| && b.outPos == old(b.outPos) + copySize
      ensures Wrote(old(b.output[..]), b.output[..], old(b.outPos), history[|history| - copySize..])
    {
      hide Window, Wrote;
      WindowFull(buf[..], pos, full, history);
      copySize := pos - start;
      WindowSlice(buf[..], start, pos, full, history);
      var copied := buf[start..pos];
      assert copied == buf[..][start..pos];
      if pos == end {
        WindowWrap(buf[..], full, history);
        pos := 0;
      }
      CopyBytes(b.output, b.outPos, copied);
      start := pos;
      b.outPos := b.outPos + copySize;
    }
  }
}
