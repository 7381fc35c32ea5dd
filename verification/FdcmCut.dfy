// What a power cut in the middle of a write does to the log: the operation that is under way may
// have cleared any number of the bits that it was to clear.
module FdcmCut {
  import opened Words
  import opened NorFlash
  import opened FdcmArea

  // The bits of data, of which some have not been cleared yet.
  ghost predicate Half(r: seq<byte>, data: seq<byte>) {
    |r| == |data| && forall i :: 0 <= i < |data| ==> Within(data[i], r[i])
  }

  // What may be read after the write of data was cut off: what was read before, nothing, or
  // data with some bits not cleared.
  ghost predicate Cut(r: ReadResult, before: ReadResult, data: seq<byte>) {
    r == before || r == NoRecord || (r.Record? && Half(r.data, data))
  }

  lemma WithinBoth(x: nat, y: nat)
    requires Within(x, y) && Within(y, x)
    ensures x == y
  {
  }

  // Outside its target a programming operation that was cut off has changed nothing.
  lemma PartlyOutside(a: seq<byte>, op: Op, a': seq<byte>, i: nat)
    requires Partly(a, op, a') && i < |a| && !(op.at <= i < op.at + |op.data|)
    ensures a'[i] == a[i]
  {
    assert Do(a, op)[i] == a[i];
    WithinBoth(a'[i], a[i]);
  }

  // The new record is the last one, with some of its bits not cleared.
  ghost predicate HalfWritten(a: seq<byte>, bs: nat, data: seq<byte>) {
    && HeaderOk(a) && Sane(a) && 0 < Count(a) && BitmapBytes(a) == bs && DataSize(a) == |data|
    && ReadLast(a, |data|).Record? && Half(ReadLast(a, |data|).data, data)
  }

  // The record that was to be written at blank flash is there in part.
  lemma RecordHalf(a: seq<byte>, k: nat, data: seq<byte>, a': seq<byte>)
    requires 0 < k && HeaderOk(a) && k <= 8 * BitmapBytes(a) && RecordAt(a, k) <= |a| && DataSize(a) == |data|
    requires a[HEADER_SIZE..HEADER_SIZE + BitmapBytes(a)] == Bitmap(BitmapBytes(a), k)
    requires a[RecordAt(a, k - 1)..] == Blank(|a| - RecordAt(a, k - 1))
    requires a' == a || Partly(a, Program(RecordAt(a, k - 1), data), a')
    ensures HalfWritten(a', BitmapBytes(a), data)
  {
    assert HEADER_SIZE <= |a|;
    hide Bitmap, BitCount, Put, Blank, RecordAt, BitmapBytes, DataSize, Do, And, Half, Partly, Sane, ReadLast, Holds;
    var at := RecordAt(a, k - 1);
    RecordNext(a, k - 1);
    BlankTail(a, at, |data|);
    PartlyPut(a, at, data, a');
    var x := a'[at..at + |data|];
    if a' == a {
      BlankHalf(a, at, data);
    } else {
      PartlyHalf(a, at, data, a');
    }
    HalfLength(x, data);
    RecordPut(a, k, x);
    HoldsCount(a', k);
  }

  lemma HalfLength(r: seq<byte>, data: seq<byte>)
    requires Half(r, data)
    ensures |r| == |data|
  {
  }

  lemma BlankHalf(a: seq<byte>, at: nat, data: seq<byte>)
    requires at + |data| <= |a| && a[at..at + |data|] == Blank(|data|)
    ensures Half(a[at..at + |data|], data)
  {
    forall i | 0 <= i < |data|
      ensures Within(data[i], a[at..at + |data|][i])
    {
      AndErased(data[i]);
      AndCommutes(data[i], 0xFF);
    }
  }

  lemma {:induction false} AndCommutes(x: nat, y: nat)
    ensures And(x, y) == And(y, x)
    decreases x
  {
    if x > 0 && y > 0 {
      AndCommutes(x / 2, y / 2);
    }
  }

  lemma PartlyHalf(a: seq<byte>, at: nat, data: seq<byte>, a': seq<byte>)
    requires at + |data| <= |a| && a[at..at + |data|] == Blank(|data|) && Partly(a, Program(at, data), a')
    ensures Half(a'[at..at + |data|], data)
  {
    hide And;
    forall i | 0 <= i < |data|
      ensures Within(data[i], a'[at..at + |data|][i])
    {
      assert a[at + i] == a[at..at + |data|][i] == 0xFF;
      AndErased(data[i]);
      assert Do(a, Program(at, data))[at + i] == data[i];
    }
  }

  lemma PartlyPut(a: seq<byte>, at: nat, data: seq<byte>, a': seq<byte>)
    requires at + |data| <= |a| && (a' == a || Partly(a, Program(at, data), a'))
    ensures |a'| == |a| && a' == Put(a, at, a'[at..at + |data|])
  {
    hide And, Put, Do;
    var x := a'[at..at + |data|];
    forall i | 0 <= i < |a|
      ensures a'[i] == Put(a, at, x)[i]
    {
      PutByte(a, at, x, i);
      if a' != a && !(at <= i < at + |data|) {
        PartlyOutside(a, Program(at, data), a', i);
      }
    }
  }

  /* ---- A header that has been written only in part ---- */

  lemma WithinStep(x: nat, y: nat)
    ensures Within(x, y) <==> x % 2 <= y % 2 && Within(x / 2, y / 2)
  {
  }

  // The bits of a number are those of its two parts.
  lemma {:induction false} WithinParts(k: nat, x: nat, hx: nat, y: nat, hy: nat)
    requires x < Pow2(k) && y < Pow2(k)
    ensures Within(x + Pow2(k) * hx, y + Pow2(k) * hy) <==> Within(x, y) && Within(hx, hy)
    decreases k
  {
    if k == 0 {
      assert Within(0, 0);
    } else {
      hide Within, And;
      var p := Pow2(k - 1);
      assert Pow2(k) == 2 * p;
      hide Pow2;
      WithinParts(k - 1, x / 2, hx, y / 2, hy);
      Halved(x, p, hx);
      Halved(y, p, hy);
      WithinStep(x + 2 * p * hx, y + 2 * p * hy);
      WithinStep(x, y);
    }
  }

  lemma Halved(x: nat, p: nat, h: nat)
    ensures p * h >= 0 && (x + 2 * p * h) / 2 == x / 2 + p * h && (x + 2 * p * h) % 2 == x % 2
  {
    MulMonotone(p, 0, h);
    assert 2 * p * h == 2 * (p * h);
  }

  lemma WithinWord(x: byte, hx: byte, y: byte, hy: byte)
    ensures Within(x + 0x100 * hx, y + 0x100 * hy) <==> Within(x, y) && Within(hx, hy)
  {
    hide Within;
    assert Pow2(8) == 0x100 by {
      assert Pow2(4) == 16;
    }
    WithinParts(8, x, hx, y, hy);
  }

  lemma WithinOnes(x: nat)
    requires x < U16
    ensures Within(x, 0xFFFF)
  {
    hide Within;
    WithinWord(x % 0x100, x / 0x100, 0xFF, 0xFF);
    WithinErased(x % 0x100);
    WithinErased(x / 0x100);
  }

  lemma WithinErased(x: byte)
    ensures Within(x, 0xFF)
  {
    AndErased(x);
    AndCommutes(x, 0xFF);
  }

  lemma WithinSame(x: nat)
    ensures Within(x, x)
  {
    AndSame(x);
  }

  // A header was being written to blank flash, and the power may have gone off.
  ghost predicate HeaderCut(size: nat, bs: nat, ds: nat, a': seq<byte>)
    requires bs < U16 && ds < U16 && HEADER_SIZE + bs <= size
  {
    a' == Blank(size) || a' == NewArea(size, bs, ds, 0) || Partly(Blank(size), Program(0, HeaderBytes(bs, ds)), a')
  }

  lemma NoRecordYet(a: seq<byte>)
    requires HeaderOk(a) && a[HEADER_SIZE..] == Blank(|a| - HEADER_SIZE)
    ensures Holds(a, 0) && Count(a) == 0 && Sane(a) && RecordAt(a, 0) == HEADER_SIZE + BitmapBytes(a)
  {
    hide BitCount;
    BlankTail(a, HEADER_SIZE, BitmapBytes(a));
    BitmapUnused(BitmapBytes(a));
    RecordNext(a, 0);
    HoldsCount(a, 0);
  }

  lemma BlankAbove(size: nat, bs: nat, ds: nat, a': seq<byte>)
    requires bs < U16 && ds < U16 && HEADER_SIZE + bs <= size && HeaderCut(size, bs, ds, a')
    ensures |a'| == size && a'[HEADER_SIZE..] == Blank(size - HEADER_SIZE)
  {
    hide And;
    BitmapUnused(bs);
    if a' != Blank(size) && a' != NewArea(size, bs, ds, 0) {
      forall i | HEADER_SIZE <= i < size
        ensures a'[i] == 0xFF
      {
        PartlyOutside(Blank(size), Program(0, HeaderBytes(bs, ds)), a', i);
      }
    }
  }

  // Sizes that have been written only in part have all the bits that were meant, and more.
  lemma HeaderGrows(size: nat, bs: nat, ds: nat, a': seq<byte>)
    requires bs < U16 && ds < U16 && HEADER_SIZE + bs <= size && HeaderCut(size, bs, ds, a')
    ensures HEADER_SIZE <= |a'| && Within(bs, BitmapBytes(a'))
  {
    hide And;
    if a' == Blank(size) {
      WithinOnes(bs);
    } else if a' == NewArea(size, bs, ds, 0) {
      NewAreaHeader(size, bs, ds);
      WithinSame(bs);
    } else {
      var b := Do(Blank(size), Program(0, HeaderBytes(bs, ds)));
      ProgramBlank(Blank(size), 0, HeaderBytes(bs, ds));
      assert b[4] == bs % 0x100 && b[5] == bs / 0x100;
      WithinWord(b[4], b[5], a'[4], a'[5]);
    }
  }

  // If the log reads such a header at all, it finds a bitmap with no record used, whose size
  // has all the bits of the one that was meant.
  lemma HeaderHalf(size: nat, bs: nat, ds: nat, a': seq<byte>)
    requires bs < U16 && ds < U16 && HEADER_SIZE + bs <= size && HeaderCut(size, bs, ds, a')
    ensures |a'| == size && Sane(a')
    ensures HeaderOk(a') ==>
              && Count(a') == 0 && RecordAt(a', 0) == HEADER_SIZE + BitmapBytes(a')
              && a'[HEADER_SIZE..] == Blank(size - HEADER_SIZE) && Within(bs, BitmapBytes(a'))
  {
    hide And, BitCount, NewArea, Within, HeaderCut;
    BlankAbove(size, bs, ds, a');
    HeaderGrows(size, bs, ds, a');
    if HeaderOk(a') {
      NoRecordYet(a');
    }
  }

  // What is read then lies in the bitmap, if that is not smaller than a record.
  lemma HeaderReadsOnes(size: nat, bs: nat, ds: nat, a': seq<byte>)
    requires 0 < ds <= bs < U16 && HEADER_SIZE + bs <= size && HeaderCut(size, bs, ds, a')
    ensures HeaderOk(a') && DataSize(a') == ds ==> ReadLast(a', ds) == Record(Blank(ds))
  {
    HeaderHalf(size, bs, ds, a');
    hide And, BitCount, HeaderCut, Sane, Blank;
    if HeaderOk(a') && DataSize(a') == ds {
      var at := HEADER_SIZE + BitmapBytes(a') - ds;
      BlankTail(a', HEADER_SIZE, at - HEADER_SIZE);
      BlankTail(a', at, ds);
    }
  }

  lemma HeaderHalfRead(size: nat, bs: nat, data: seq<byte>, a': seq<byte>)
    requires 0 < |data| <= bs < U16 && HEADER_SIZE + bs <= size && HeaderCut(size, bs, |data|, a')
    ensures Cut(ReadLast(a', |data|), NoRecord, data)
  {
    HeaderReadsOnes(size, bs, |data|, a');
    hide HeaderCut;
    assert Blank(|data|)[..] == Blank(|data|)[0..|data|] == Blank(|data|);
    BlankHalf(Blank(|data|), 0, data);
  }

  lemma FirstBitHalf(size: nat, bs: nat, ds: nat, a': seq<byte>)
    requires 0 < bs < U16 && ds < U16 && HEADER_SIZE + bs <= size
    requires Partly(NewArea(size, bs, ds, 0), Program(HEADER_SIZE, [0xFE]), a')
    ensures a' == NewArea(size, bs, ds, 0) || a' == NewArea(size, bs, ds, 1)
  {
    hide And, Used, HeaderBytes;
    var a, op := NewArea(size, bs, ds, 0), Program(HEADER_SIZE, [0xFE]);
    FirstBitPut(size, bs, ds);
    BitmapUnused(bs);
    assert a[HEADER_SIZE] == 0xFF;
    UsedOnes();
    assert Do(a, op)[HEADER_SIZE] == 0xFE by { AndErased(0xFE); }
    OneBitUsed(0, a'[HEADER_SIZE]);
    forall i | 0 <= i < size && i != HEADER_SIZE
      ensures a'[i] == a[i] == Do(a, op)[i]
    {
      PartlyOutside(a, op, a', i);
    }
    assert a' == a || a' == Do(a, op);
  }

  lemma UsedOnes()
    ensures Used(0) == 0xFF && Used(1) == 0xFE
  {
  }

  // A bit of the bitmap is cleared or it is not.
  lemma NextBitHalf(a: seq<byte>, data: seq<byte>, a': seq<byte>)
    requires Sane(a) && HeaderOk(a) && !Full(a) && Partly(a, AppendOps(a, data)[0], a')
    ensures a' == a || a' == Do(a, AppendOps(a, data)[0])
  {
    var k := Count(a);
    hide Used, And, Mask, BitCount, Bitmap, Holds;
    BitTaken(a, data);
    var at, r, op := HEADER_SIZE + k / 8, k % 8, AppendOps(a, data)[0];
    assert Do(a, op)[at] == Used(r + 1);
    OneBitUsed(r, a'[at]);
    forall i | 0 <= i < |a| && i != at
      ensures a'[i] == a[i] == Do(a, op)[i]
    {
      PartlyOutside(a, op, a', i);
    }
  }

  lemma CutAppend(a: seq<byte>, data: seq<byte>, a': seq<byte>)
    requires Sane(a) && HeaderOk(a) && !Full(a) && DataSize(a) == |data| && Interrupted(a, AppendOps(a, data), a')
    ensures a' == a || HalfWritten(a', BitmapBytes(a), data)
  {
    hide And, BitCount, Bitmap, Used, Do, Holds, Mask, Sane, HalfWritten, Partly, Blank;
    var k, ops := Count(a), AppendOps(a, data);
    assert ops == [ops[0], ops[1]] && ops[1] == Program(RecordAt(a, k), data);
    var b := Do(a, ops[0]);
    FullFacts(a);
    BitTaken(a, data);
    TakenFacts(a, b, k + 1);
    hide Full, RecordAt, HeaderOk, BitmapBytes, DataSize, Count, AppendOps;
    if a' == a {
    } else if Partly(a, ops[0], a') && a' != b {
      NextBitHalf(a, data, a');
    } else {
      TwoCut(a, ops[0], ops[1], a');
      if a' == b || Partly(b, ops[1], a') {
        RecordHalf(b, k + 1, data, a');
      } else {
        DoTwo(a, ops[0], ops[1]);
        AppendWhole(a, data);
      }
    }
  }

  lemma TwoCut(a: seq<byte>, x: Op, y: Op, a': seq<byte>)
    requires Interrupted(a, [x, y], a')
    ensures a' == a || Partly(a, x, a') || a' == Do(a, x) || Partly(Do(a, x), y, a') || a' == Do(Do(a, x), y)
  {
    hide Partly, Do;
    assert [x, y][1..] == [y];
    if a' != a && !Partly(a, x, a') {
      OneCut(Do(a, x), y, a');
    }
  }

  lemma OneCut(a: seq<byte>, x: Op, a': seq<byte>)
    requires Interrupted(a, [x], a')
    ensures a' == a || Partly(a, x, a') || a' == Do(a, x)
  {
    hide Partly, Do;
    assert [x][1..] == [];
    assert Interrupted(Do(a, x), [], a') ==> a' == Do(a, x);
  }

  lemma FourCut(a: seq<byte>, x: Op, y: Op, z: Op, w: Op, a': seq<byte>)
    requires Interrupted(a, [x, y, z, w], a')
    ensures var b := Do(a, x);
            var c := Do(b, y);
            || a' == a || Partly(a, x, a') || a' == b || Partly(b, y, a')
            || a' == c || Partly(c, z, a') || a' == Do(c, z) || Partly(Do(c, z), w, a') || a' == Do(Do(c, z), w)
  {
    hide Partly, Do;
    assert [x, y, z, w][1..] == [y, z, w];
    assert [y, z, w][1..] == [z, w];
    if a' != a && !Partly(a, x, a') && a' != Do(a, x) && !Partly(Do(a, x), y, a') {
      TwoCut(Do(Do(a, x), y), z, w, a');
    }
  }

  lemma HalfWhole(data: seq<byte>)
    ensures Half(data, data)
  {
    forall i | 0 <= i < |data|
      ensures Within(data[i], data[i])
    {
      AndSame(data[i]);
    }
  }

  lemma CutRewrite(a: seq<byte>, data: seq<byte>, a': seq<byte>)
    requires HEADER_SIZE < |a| && 0 < |data| < U16 && 0 < BitmapSize(|a|, |data|)
    requires RewriteOps(|a|, data) != [] && Interrupted(a, RewriteOps(|a|, data), a')
    ensures var bs := BitmapSize(|a|, |data|);
            HEADER_SIZE + bs <= |a| && (a' == a || HeaderCut(|a|, bs, |data|, a') || HalfWritten(a', bs, data))
  {
    hide And, Bitmap, Used, Do, Holds, HalfWritten, BitmapSize, NewArea, HeaderBytes, Blank;
    var bs, ops := BitmapSize(|a|, |data|), RewriteOps(|a|, data);
    assert ops == [ops[0], ops[1], ops[2], ops[3]];
    RewriteSteps(a, data);
    FourCut(a, ops[0], ops[1], ops[2], ops[3], a');
    var c, d := NewArea(|a|, bs, |data|, 0), NewArea(|a|, bs, |data|, 1);
    if a' == a || HeaderCut(|a|, bs, |data|, a') {
    } else if Partly(c, ops[2], a') || a' == d || Partly(d, ops[3], a') {
      if Partly(c, ops[2], a') {
        FirstBitHalf(|a|, bs, |data|, a');
      }
      NewRecordHalf(|a|, bs, data, a');
    } else {
      DoFour(a, ops[0], ops[1], ops[2], ops[3]);
      RewriteWhole(a, data);
    }
  }

  lemma RewriteWhole(a: seq<byte>, data: seq<byte>)
    requires HEADER_SIZE < |a| && 0 < |data| < U16 && 0 < BitmapSize(|a|, |data|) && RewriteOps(|a|, data) != []
    ensures HalfWritten(DoAll(a, RewriteOps(|a|, data)), BitmapSize(|a|, |data|), data)
  {
    hide BitmapSize, DoAll, ReadLast, Half, RewriteOps;
    RewriteDone(a, data);
    HoldsCount(DoAll(a, RewriteOps(|a|, data)), 1);
    HalfWhole(data);
  }

  lemma AppendWhole(a: seq<byte>, data: seq<byte>)
    requires Sane(a) && HeaderOk(a) && !Full(a) && DataSize(a) == |data|
    ensures HalfWritten(DoAll(a, AppendOps(a, data)), BitmapBytes(a), data)
  {
    hide DoAll, ReadLast, Half, AppendOps, Full;
    AppendDone(a, data);
    HoldsCount(DoAll(a, AppendOps(a, data)), Count(a) + 1);
    HalfWhole(data);
  }

  lemma NewRecordHalf(size: nat, bs: nat, data: seq<byte>, a': seq<byte>)
    requires 0 < bs < U16 && |data| < U16 && HEADER_SIZE + bs + |data| <= size && 0 < |data|
    requires var d := NewArea(size, bs, |data|, 1);
             a' == d || Partly(d, Program(HEADER_SIZE + bs, data), a')
    ensures HalfWritten(a', bs, data)
  {
    hide And, BitCount, Bitmap, Used, Do, HalfWritten, NewArea, HeaderBytes, Blank, Partly;
    NewAreaHolds(size, bs, |data|, 1);
    RecordNext(NewArea(size, bs, |data|, 1), 0);
    RecordHalf(NewArea(size, bs, |data|, 1), 1, data, a');
  }

  // The next record is appended: the area is one that the log reads, and there is room.
  predicate Appends(a: seq<byte>, data: seq<byte>) {
    HeaderOk(a) && DataSize(a) == |data| && !Full(a) && |data| <= |a| - HEADER_SIZE - BitmapBytes(a)
  }

  // How far a write has come when the power goes off.
  lemma CutCases(a: seq<byte>, data: seq<byte>, a': seq<byte>)
    requires Sane(a) && HEADER_SIZE < |a| && 0 < |data| < U16 && 0 < BitmapSize(|a|, |data|)
    requires Interrupted(a, WriteOps(a, data), a')
    ensures |a'| == |a|
    ensures var bs := BitmapSize(|a|, |data|);
            || a' == a
            || (Appends(a, data) && HalfWritten(a', BitmapBytes(a), data))
            || (!Appends(a, data) && WriteOps(a, data) == RewriteOps(|a|, data) != [] && HEADER_SIZE + bs <= |a|
                && (HeaderCut(|a|, bs, |data|, a') || HalfWritten(a', bs, data)))
  {
    InterruptedSize(a, WriteOps(a, data), a');
    hide BitmapSize, RewriteOps, AppendOps, Full, Sane, HalfWritten, HeaderCut, HeaderOk;
    if WriteOps(a, data) == [] {
    } else if Appends(a, data) {
      CutAppend(a, data, a');
    } else {
      CutRewrite(a, data, a');
    }
  }

  lemma {:induction false} InterruptedSize(a: seq<byte>, ops: seq<Op>, a': seq<byte>)
    requires Interrupted(a, ops, a')
    ensures |a'| == |a|
    decreases |ops|
  {
    hide Do;
    if a' != a && !Partly(a, ops[0], a') {
      InterruptedSize(Do(a, ops[0]), ops[1..], a');
    }
  }

  // Wherever the power goes off during a write, either the log does not read what is left, or
  // that holds as many records as its bitmap says and is blank behind them.
  lemma CutIsSane(a: seq<byte>, data: seq<byte>, a': seq<byte>)
    requires Sane(a) && HEADER_SIZE < |a| && 0 < |data| < U16 && 0 < BitmapSize(|a|, |data|)
    requires Interrupted(a, WriteOps(a, data), a')
    ensures |a'| == |a| && Sane(a')
  {
    hide BitmapSize, RewriteOps, WriteOps, Sane, HeaderCut, Interrupted, Appends;
    CutCases(a, data, a');
    var bs := BitmapSize(|a|, |data|);
    if a' != a && !HalfWritten(a', bs, data) && HEADER_SIZE + bs <= |a| && HeaderCut(|a|, bs, |data|, a') {
      HeaderHalf(|a|, bs, |data|, a');
    }
  }

  /* ---- What is read after a power cut ---- */

  // If the bitmap is not smaller than a record, then after a power cut the previous record is
  // read, or nothing, or the new one with bits still set that should be clear.
  lemma CutWrite(a: seq<byte>, data: seq<byte>, a': seq<byte>)
    requires Sane(a) && HEADER_SIZE < |a| && 0 < |data| < U16 && 0 < BitmapSize(|a|, |data|)
    requires |data| <= BitmapSize(|a|, |data|) || !Fits(|a|, |data|)
    requires Interrupted(a, WriteOps(a, data), a')
    ensures Cut(ReadLast(a', |data|), ReadLast(a, |data|), data)
  {
    RewriteFits(|a|, data);
    hide BitmapSize, RewriteOps, WriteOps, Sane, HeaderCut, Interrupted, Appends, ReadLast, Half;
    CutCases(a, data, a');
    var bs := BitmapSize(|a|, |data|);
    if a' != a && HEADER_SIZE + bs <= |a| && HeaderCut(|a|, bs, |data|, a') && Fits(|a|, |data|) {
      HeaderHalfRead(|a|, bs, data, a');
    }
  }

  // A record that fits into an area together with its header and its bitmap.
  predicate Fits(size: nat, ds: nat)
    requires HEADER_SIZE < size
  {
    HEADER_SIZE + BitmapSize(size, ds) + ds <= size
  }

  lemma RewriteFits(size: nat, data: seq<byte>)
    requires HEADER_SIZE < size && |data| < U16
    ensures RewriteOps(size, data) != [] <==> Fits(size, |data|)
  {
  }

  // The same for all areas of a size, all records of a size, and all power cuts.
  ghost predicate CutsAreRead(size: nat, ds: nat)
    requires HEADER_SIZE < size && ds < U16
  {
    forall a: seq<byte>, data: seq<byte>, a': seq<byte> ::
      |a| == size && Sane(a) && |data| == ds && Interrupted(a, WriteOps(a, data), a') ==>
        Cut(ReadLast(a', ds), ReadLast(a, ds), data)
  }

  // That is so exactly for records that are not larger than the bitmap, or for which there is
  // no room at all. With others, in an area whose header has just been written, reading goes
  // wrong: it takes the record in front of the first one, which is the header, or lies in
  // front of the area.
  lemma CutsAreReadIff(size: nat, ds: nat)
    requires HEADER_SIZE < size && 0 < ds < U16 && 0 < BitmapSize(size, ds)
    ensures CutsAreRead(size, ds) <==> ds <= BitmapSize(size, ds) || !Fits(size, ds)
  {
    hide Sane, BitmapSize, Interrupted, WriteOps, ReadLast, Cut;
    if ds <= BitmapSize(size, ds) || !Fits(size, ds) {
      forall a: seq<byte>, data: seq<byte>, a': seq<byte> |
        |a| == size && Sane(a) && |data| == ds && Interrupted(a, WriteOps(a, data), a')
        ensures Cut(ReadLast(a', ds), ReadLast(a, ds), data)
      {
        CutWrite(a, data, a');
      }
    } else {
      LongRecord(size, ds);
    }
  }

  // The header that has just been written, read as a record of ones.
  lemma LongRecord(size: nat, ds: nat)
    requires HEADER_SIZE < size && 0 < ds < U16 && 0 < BitmapSize(size, ds) < ds && Fits(size, ds)
    ensures var a, a' := Blank(size), NewArea(size, BitmapSize(size, ds), ds, 0);
            && Sane(a) && Interrupted(a, WriteOps(a, Blank(ds)), a')
            && !Cut(ReadLast(a', ds), ReadLast(a, ds), Blank(ds))
            && (HEADER_SIZE + BitmapSize(size, ds) < ds ==> ReadLast(a', ds) == Outside)
  {
    var bs, a := BitmapSize(size, ds), Blank(size);
    hide BitmapSize;
    var a' := NewArea(size, bs, ds, 0);
    BlankIsNoHeader(size);
    HeaderIsReached(size, Blank(ds));
    NewAreaHolds(size, bs, ds, 0);
    HoldsCount(a', 0);
    RecordNext(a', 0);
    hide Sane, Interrupted, WriteOps, HeaderOk, Blank, BitCount, Count, Holds, RecordAt, And, BitmapBytes, DataSize;
    var at := HEADER_SIZE + bs - ds;
    if 0 <= at {
      HeaderEnd(size, bs, ds);
      assert a'[at..at + ds][7 - at] == a'[7];
      NotHalf(a'[at..at + ds], ds, 7 - at);
    }
  }

  lemma NotHalf(r: seq<byte>, ds: nat, i: nat)
    requires i < |r| && r[i] < 0xFF
    ensures !Half(r, Blank(ds))
  {
    hide And;
    if |r| == ds {
      assert Blank(ds)[i] == 0xFF;
      assert !Within(0xFF, r[i]);
    }
  }

  lemma HeaderEnd(size: nat, bs: nat, ds: nat)
    requires bs <= INDEX_MAX && HEADER_SIZE + bs <= size && ds <= HEADER_SIZE + bs
    ensures NewArea(size, bs, ds, 0)[7] < 0xFF
  {
  }

  lemma BlankIsNoHeader(size: nat)
    ensures !HeaderOk(Blank(size)) && Sane(Blank(size))
    ensures forall ds :: ReadLast(Blank(size), ds) == NoRecord
  {
    if HEADER_SIZE <= size {
      assert Blank(size)[..4][0] == 0xFF;
    }
  }

  // A rewrite of a blank area comes by the area with a header and nothing else, and also by
  // any area that is left by a header cut off half way.
  lemma HeaderIsReached(size: nat, data: seq<byte>)
    requires HEADER_SIZE < size && 0 < |data| < U16 && 0 < BitmapSize(size, |data|) && Fits(size, |data|)
    ensures var bs := BitmapSize(size, |data|);
            && WriteOps(Blank(size), data) != []
            && forall a' :: HeaderCut(size, bs, |data|, a') ==> Interrupted(Blank(size), WriteOps(Blank(size), data), a')
  {
    BlankIsNoHeader(size);
    var bs, a, ops := BitmapSize(size, |data|), Blank(size), WriteOps(Blank(size), data);
    RewriteSteps(a, data);
    assert ops == RewriteOps(size, data);
    hide BitmapSize, Do, HeaderOk, Blank, NewArea, HeaderBytes, Partly, WriteOps, RewriteOps;
    forall a' | HeaderCut(size, bs, |data|, a')
      ensures Interrupted(a, ops, a')
    {
      assert ops[1..][0] == ops[1];
      assert Interrupted(NewArea(size, bs, |data|, 0), ops[1..][1..], NewArea(size, bs, |data|, 0));
    }
  }

  /* ---- Areas in which no record is counted ---- */

  // Without power cuts there is always a record, so that none is read from anywhere else.
  ghost predicate Counted(a: seq<byte>) {
    Sane(a) && (HeaderOk(a) ==> 0 < Count(a))
  }

  lemma CountedIsInside(a: seq<byte>, ds: nat)
    requires Counted(a)
    ensures !ReadLast(a, ds).Outside?
  {
    hide BitCount, Bitmap, Blank;
    if HeaderOk(a) {
      RecordNext(a, Count(a) - 1);
    }
  }

  lemma UncutIsCounted(a: seq<byte>, data: seq<byte>)
    requires Counted(a) && HEADER_SIZE < |a| && 0 < |data| < U16
    ensures Counted(DoAll(a, WriteOps(a, data)))
  {
    hide BitmapSize, RewriteOps, AppendOps, DoAll, Full, Bitmap, BitCount, HeaderOk, ReadLast, RecordAt, BitmapBytes, DataSize, Blank;
    var b := DoAll(a, WriteOps(a, data));
    if WriteOps(a, data) == [] {
      DoNone(a);
    } else if Appends(a, data) {
      AppendDone(a, data);
      HoldsCount(b, Count(a) + 1);
    } else if BitmapSize(|a|, |data|) == 0 {
      CutIsUnreadable(a, data);
    } else {
      RewriteDone(a, data);
      HoldsCount(b, 1);
    }
  }

  // Whatever is written, of whatever sizes, with or without success.
  lemma {:induction false} UncutAreCounted(a: seq<byte>, records: seq<seq<byte>>, ds: nat)
    requires Counted(a) && HEADER_SIZE < |a| && forall i :: 0 <= i < |records| ==> 0 < |records[i]| < U16
    ensures Counted(WriteMany(a, records)) && !ReadLast(WriteMany(a, records), ds).Outside?
    decreases |records|
  {
    hide Counted, WriteOps, DoAll, ReadLast;
    if records != [] {
      var n := |records| - 1;
      UncutAreCounted(a, records[..n], ds);
      UncutIsCounted(WriteMany(a, records[..n]), records[n]);
    }
    CountedIsInside(WriteMany(a, records), ds);
  }

  // With a power cut it takes one between the header and the first bit of a rewrite.
  lemma NotCountedIsHeaderCut(a: seq<byte>, data: seq<byte>, a': seq<byte>)
    requires Counted(a) && HEADER_SIZE < |a| && 0 < |data| < U16 && 0 < BitmapSize(|a|, |data|)
    requires Interrupted(a, WriteOps(a, data), a') && !Counted(a')
    ensures WriteOps(a, data) == RewriteOps(|a|, data) != [] && Fits(|a|, |data|)
    ensures HeaderCut(|a|, BitmapSize(|a|, |data|), |data|, a')
  {
    RewriteFits(|a|, data);
    hide BitmapSize, RewriteOps, WriteOps, Sane, HeaderCut, Interrupted, Appends, ReadLast, Half, HeaderOk, Count;
    CutCases(a, data, a');
  }

  /* ---- Areas that take no record any more ---- */

  // The log reads the header, and that leaves less room than a record needs. Then every
  // write of such a record fails, and does not start a new area either.
  predicate Stuck(a: seq<byte>, ds: nat) {
    HeaderOk(a) && DataSize(a) == ds && |a| < HEADER_SIZE + BitmapBytes(a) + ds
  }

  lemma StuckMeans(a: seq<byte>, data: seq<byte>)
    requires HEADER_SIZE < |a| && |data| < U16 && Fits(|a|, |data|)
    ensures WriteOps(a, data) == [] <==> Stuck(a, |data|)
  {
    RewriteFits(|a|, data);
    hide BitmapSize, RewriteOps, Full;
  }

  // Some size that has all the bits of the bitmap size leaves less room than a record needs,
  // but is not so large that the log would reject the header.
  ghost predicate CanStick(size: nat, ds: nat)
    requires HEADER_SIZE < size
  {
    exists x: nat :: x < U16 && Within(BitmapSize(size, ds), x) && HEADER_SIZE + x < size < HEADER_SIZE + x + ds
  }

  // After a write to any area that takes a record, with or without a power cut, the area
  // takes another one.
  ghost predicate NeverSticks(size: nat, ds: nat)
    requires HEADER_SIZE < size && ds < U16
  {
    forall a: seq<byte>, data: seq<byte>, a': seq<byte> ::
      |a| == size && Sane(a) && |data| == ds && WriteOps(a, data) != [] && Interrupted(a, WriteOps(a, data), a') ==>
        |a'| == size && forall more: seq<byte> :: |more| == ds ==> WriteOps(a', more) != []
  }

  // Which areas and records that is true of can be told from the two sizes.
  lemma NeverSticksIff(size: nat, ds: nat)
    requires HEADER_SIZE < size && 0 < ds < U16 && 0 < BitmapSize(size, ds) && Fits(size, ds)
    ensures NeverSticks(size, ds) <==> !CanStick(size, ds)
  {
    hide BitmapSize, Interrupted, WriteOps, CanStick, Sane;
    if CanStick(size, ds) {
      var a' := StuckHeader(size, ds);
      HeaderIsReached(size, Blank(ds));
      BlankIsNoHeader(size);
      StuckMeans(a', Blank(ds));
    } else {
      forall a: seq<byte>, data: seq<byte>, a': seq<byte> |
        |a| == size && Sane(a) && |data| == ds && WriteOps(a, data) != [] && Interrupted(a, WriteOps(a, data), a')
        ensures |a'| == size && forall more: seq<byte> :: |more| == ds ==> WriteOps(a', more) != []
      {
        CutSticksNot(a, data, a');
        forall more: seq<byte> | |more| == ds
          ensures WriteOps(a', more) != []
        {
          StuckMeans(a', more);
        }
      }
    }
  }

  lemma CutSticksNot(a: seq<byte>, data: seq<byte>, a': seq<byte>)
    requires Sane(a) && HEADER_SIZE < |a| && 0 < |data| < U16 && 0 < BitmapSize(|a|, |data|) && Fits(|a|, |data|)
    requires WriteOps(a, data) != [] && Interrupted(a, WriteOps(a, data), a') && !CanStick(|a|, |data|)
    ensures |a'| == |a| && !Stuck(a', |data|)
  {
    StuckMeans(a, data);
    hide BitmapSize, RewriteOps, WriteOps, Sane, HeaderCut, Interrupted, ReadLast, Half, Full, HeaderOk, Count, Within;
    CutCases(a, data, a');
    var bs := BitmapSize(|a|, |data|);
    if a' != a && HeaderCut(|a|, bs, |data|, a') {
      HeaderHalf(|a|, bs, |data|, a');
      HeaderFits(a');
    }
  }

  // A write that is not cut off does not get the area stuck, whatever the sizes.
  lemma UncutSticksNot(a: seq<byte>, data: seq<byte>)
    requires Sane(a) && HEADER_SIZE < |a| && 0 < |data| < U16 && 0 < BitmapSize(|a|, |data|) && Fits(|a|, |data|)
    requires WriteOps(a, data) != []
    ensures !Stuck(DoAll(a, WriteOps(a, data)), |data|)
  {
    StuckMeans(a, data);
    RewriteFits(|a|, data);
    hide BitmapSize, RewriteOps, AppendOps, DoAll, Full, Bitmap, BitCount, HeaderOk, ReadLast, RecordAt, BitmapBytes, DataSize, Blank;
    if Appends(a, data) {
      AppendDone(a, data);
    } else {
      RewriteDone(a, data);
    }
  }

  lemma HeaderFits(a: seq<byte>)
    ensures HeaderOk(a) ==> HEADER_SIZE + BitmapBytes(a) < |a|
  {
  }

  // A header of which the size of the bitmap has been written only in part.
  lemma StuckHeader(size: nat, ds: nat) returns (a': seq<byte>)
    requires HEADER_SIZE < size && 0 < ds < U16 && 0 < BitmapSize(size, ds) && Fits(size, ds) && CanStick(size, ds)
    ensures |a'| == size && Stuck(a', ds) && HeaderCut(size, BitmapSize(size, ds), ds, a')
  {
    var bs := BitmapSize(size, ds);
    hide BitmapSize;
    var x: nat :| x < U16 && Within(bs, x) && HEADER_SIZE + x < size < HEADER_SIZE + x + ds;
    a' := NewArea(size, x, ds, 0);
    WithinIsPositive(bs, x);
    NewAreaHolds(size, x, ds, 0);
    PartHeader(size, bs, x, ds);
    hide NewArea, HeaderCut, Within, Holds;
  }

  lemma WithinIsPositive(x: nat, y: nat)
    requires 0 < x && Within(x, y)
    ensures x <= y
  {
  }

  lemma PartHeader(size: nat, bs: nat, x: nat, ds: nat)
    requires bs < U16 && x < U16 && ds < U16 && HEADER_SIZE + bs <= size && HEADER_SIZE + x <= size && Within(bs, x)
    ensures HeaderCut(size, bs, ds, NewArea(size, x, ds, 0))
  {
    hide And, Do, Within;
    var a, a', op := Blank(size), NewArea(size, x, ds, 0), Program(0, HeaderBytes(bs, ds));
    HeaderPut(size, bs, ds);
    BitmapUnused(bs);
    BitmapUnused(x);
    assert x == x % 0x100 + 0x100 * (x / 0x100) && bs == bs % 0x100 + 0x100 * (bs / 0x100);
    WithinWord(bs % 0x100, bs / 0x100, x % 0x100, x / 0x100);
    forall i | 0 <= i < size
      ensures Within(a'[i], a[i]) && Within(Do(a, op)[i], a'[i])
    {
      WithinErased(a'[i]);
      WithinSame(a'[i]);
    }
  }

  /* ---- The area of the image configuration, whose records have 4 bytes ---- */

  lemma WithinZero(y: nat)
    ensures Within(0, y)
  {
  }

  lemma ConfigSizes()
    ensures BitmapSize(4096, 4) == 0x7C && BitmapSize(12288, 4) == 0x175 && BitmapSize(32768, 4) == 0x3E1
  {
  }

  // In an area of 4 KiB they cannot get stuck.
  lemma SmallAreaNeverSticks()
    ensures BitmapSize(4096, 4) == 0x7C && Fits(4096, 4) && !CanStick(4096, 4) && NeverSticks(4096, 4)
  {
    hide Within, BitmapSize, NeverSticks;
    ConfigSizes();
    NeverSticksIff(4096, 4);
    forall x: nat | HEADER_SIZE + x < 4096 < HEADER_SIZE + x + 4
      ensures !Within(0x7C, x)
    {
      assert x / 8 == 0x1FE;
      WithinStep(0x7C, x);
      WithinStep(0x3E, x / 2);
      WithinStep(0x1F, x / 4);
      WithinStep(0xF, x / 8);
    }
  }

  // In one of 32 KiB, the size that the SDK's image configurations give, they can.
  lemma ShippedAreaCanStick()
    ensures BitmapSize(32768, 4) == 0x3E1 && Fits(32768, 4) && Within(0x3E1, 0x7FF5)
    ensures CanStick(32768, 4) && !NeverSticks(32768, 4)
  {
    hide Within, BitmapSize, NeverSticks;
    ConfigSizes();
    NeverSticksIff(32768, 4);
    assert Within(0, 0x1F) by { WithinZero(0x1F); }
    WithinStep(0x1, 0x3F);
    WithinStep(0x3, 0x7F);
    WithinStep(0x7, 0xFF);
    WithinStep(0xF, 0x1FF);
    WithinStep(0x1F, 0x3FF);
    WithinStep(0x3E, 0x7FF);
    WithinStep(0x7C, 0xFFE);
    WithinStep(0xF8, 0x1FFD);
    WithinStep(0x1F0, 0x3FFA);
    WithinStep(0x3E1, 0x7FF5);
  }

  // So they can in one of 12 KiB.
  lemma OtherAreaCanStick()
    ensures BitmapSize(12288, 4) == 0x175 && Fits(12288, 4) && Within(0x175, 0x2FF7)
    ensures CanStick(12288, 4) && !NeverSticks(12288, 4)
  {
    hide Within, BitmapSize, NeverSticks;
    ConfigSizes();
    NeverSticksIff(12288, 4);
    assert Within(0, 0x17) by { WithinZero(0x17); }
    WithinStep(0x1, 0x2F);
    WithinStep(0x2, 0x5F);
    WithinStep(0x5, 0xBF);
    WithinStep(0xB, 0x17F);
    WithinStep(0x17, 0x2FF);
    WithinStep(0x2E, 0x5FE);
    WithinStep(0x5D, 0xBFD);
    WithinStep(0xBA, 0x17FB);
    WithinStep(0x175, 0x2FF7);
  }
}
