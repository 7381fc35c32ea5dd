// The append-only log that keeps small records in an area of NOR flash: a header, a bitmap of
// used records, and the records. A record is written by clearing one more bit of the bitmap
// and then filling in the next record; only when the area is full is it erased.
module FdcmArea {
  import opened Words
  import opened NorFlash

  const HEADER_SIZE := 8
  const INDEX_MAX := 1024
  const U16 := 0x1_0000

  function HeaderBytes(bs: nat, ds: nat): (r: seq<byte>)
    requires bs < U16 && ds < U16
    ensures |r| == HEADER_SIZE
  {
    [0xA5, 0x5A, 0x5A, 0xA5, bs % 0x100, bs / 0x100, ds % 0x100, ds / 0x100]
  }

  // The two sizes in the header.
  function BitmapBytes(a: seq<byte>): (r: nat)
    requires HEADER_SIZE <= |a|
    ensures r < U16
  {
    var lo: nat, hi: nat := a[4], a[5];
    lo + 0x100 * hi
  }

  function DataSize(a: seq<byte>): (r: nat)
    requires HEADER_SIZE <= |a|
    ensures r < U16
  {
    var lo: nat, hi: nat := a[6], a[7];
    lo + 0x100 * hi
  }

  // The header is one that the log would read.
  predicate HeaderOk(a: seq<byte>) {
    && HEADER_SIZE <= |a| && a[..4] == [0xA5, 0x5A, 0x5A, 0xA5]
    && BitmapBytes(a) != 0 && BitmapBytes(a) + HEADER_SIZE < |a|
  }

  /* ---- The bitmap ---- */

  // A byte of the bitmap of which k records are used: used ones are bits that are 0.
  function Used(k: nat): (r: byte)
    requires k <= 8
  {
    if k == 0 then 0xFF else if k == 1 then 0xFE else if k == 2 then 0xFC else if k == 3 then 0xF8
    else if k == 4 then 0xF0 else if k == 5 then 0xE0 else if k == 6 then 0xC0 else if k == 7 then 0x80 else 0
  }

  function Bitmap(bs: nat, k: nat): (r: seq<byte>)
    ensures |r| == bs
  {
    seq(bs, i requires 0 <= i < bs =>
      if 8 * i + 8 <= k then 0 else if k <= 8 * i then 0xFF else Used(k - 8 * i))
  }

  // The number of significant bits.
  function Length(v: nat): nat {
    if v == 0 then 0 else 1 + Length(v / 2)
  }

  // How the log counts used records, whatever the bitmap holds.
  function BitCount(bitmap: seq<byte>): nat
    decreases |bitmap|
  {
    if bitmap == [] then 0
    else if bitmap[0] == 0 then 8 + BitCount(bitmap[1..])
    else Length(0xFF - bitmap[0])
  }

  lemma UsedLength(k: nat)
    requires k < 8
    ensures Used(k) != 0 && Length(0xFF - Used(k)) == k
  {
    assert Length(1) == 1 && Length(3) == 2 && Length(7) == 3 && Length(15) == 4;
    assert Length(31) == 5 && Length(63) == 6 && Length(127) == 7;
  }

  lemma {:induction false} CountOfBitmap(bs: nat, k: nat)
    requires k <= 8 * bs
    ensures BitCount(Bitmap(bs, k)) == k
    decreases bs
  {
    hide Used, Length;
    if bs > 0 {
      if k < 8 {
        UsedLength(k);
        assert Bitmap(bs, k)[0] == Used(k) by {
          assert Used(0) == 0xFF by { UsedZero(); }
        }
      } else {
        assert Bitmap(bs, k)[1..] == Bitmap(bs - 1, k - 8);
        CountOfBitmap(bs - 1, k - 8);
      }
    }
  }

  lemma UsedZero()
    ensures Used(0) == 0xFF && Used(8) == 0
  {
  }

  // A mask with only bit i cleared.
  function Mask(i: nat): (r: byte)
    requires i < 8
  {
    if i == 0 then 0xFE else if i == 1 then 0xFD else if i == 2 then 0xFB else if i == 3 then 0xF7
    else if i == 4 then 0xEF else if i == 5 then 0xDF else if i == 6 then 0xBF else 0x7F
  }

  // All bits from r to w.
  function Ones(w: nat, r: nat): nat
    requires r <= w
  {
    Pow2Monotone(r, w);
    Pow2(w) - Pow2(r)
  }

  lemma OnesHalf(w: nat, r: nat)
    requires 0 < r <= w
    ensures Ones(w, r) == 2 * Ones(w - 1, r - 1)
  {
  }

  // Clearing bit r of all bits from r on.
  lemma {:induction false} AndOfOnes(w: nat, r: nat)
    requires r < w
    ensures Pow2(r) < Pow2(w)
    ensures And(Ones(w, r), Pow2(w) - 1 - Pow2(r)) == Ones(w, r + 1) && And(Ones(w, r), Ones(w, r + 1)) == Ones(w, r + 1)
    decreases r
  {
    hide And;
    Pow2Monotone(r + 1, w);
    if r == 0 {
      AndOnes(w, Ones(w, 1));
    } else {
      var ones, more, mask := Ones(w - 1, r - 1), Ones(w - 1, r), Pow2(w - 1) - 1 - Pow2(r - 1);
      AndOfOnes(w - 1, r - 1);
      OnesHalf(w, r);
      OnesHalf(w, r + 1);
      assert Pow2(w) - 1 - Pow2(r) == 2 * mask + 1;
      hide Ones, Pow2;
      AndDouble(ones, mask);
      AndDouble(ones, more);
    }
  }

  lemma AndDouble(x: nat, y: nat)
    ensures And(2 * x, 2 * y) == 2 * And(x, y) == And(2 * x, 2 * y + 1)
  {
  }

  lemma MaskUses(r: nat)
    requires r < 8
    ensures And(Used(r), Mask(r)) == Used(r + 1) && And(Used(r), Used(r + 1)) == Used(r + 1)
  {
    hide And, Used, Mask, Ones;
    UsedIs(r);
    UsedIs(r + 1);
    MaskIs(r);
    AndOfOnes(8, r);
  }

  lemma MaskIs(r: nat)
    requires r < 8
    ensures Mask(r) == Pow2(8) - 1 - Pow2(r)
  {
    assert Pow2(4) == 16 && Pow2(8) == 0x100;
    if r == 0 {} else if r == 1 {} else if r == 2 {} else if r == 3 {} else if r == 4 {} else if r == 5 {} else if r == 6 {} else {}
  }

  // Only one bit is in between.
  lemma {:induction false} OneBit(w: nat, r: nat, x: nat)
    requires r < w && Within(Ones(w, r + 1), x) && Within(x, Ones(w, r))
    ensures x == Ones(w, r + 1) || x == Ones(w, r)
    decreases r
  {
    if r == 0 {
      assert Ones(w, 0) == Ones(w, 1) + 1;
    } else {
      hide Ones, And;
      OnesHalf(w, r);
      OnesHalf(w, r + 1);
      WithinHalf(x, Ones(w, r));
      WithinHalf(Ones(w, r + 1), x);
      OneBit(w - 1, r - 1, x / 2);
    }
  }

  lemma WithinHalf(x: nat, y: nat)
    requires Within(x, y)
    ensures Within(x / 2, y / 2) && (y % 2 == 0 ==> x % 2 == 0)
  {
  }

  lemma UsedIs(r: nat)
    requires r <= 8
    ensures Used(r) == Ones(8, r)
  {
    assert Pow2(4) == 16 && Pow2(8) == 0x100;
    if r == 0 {} else if r == 1 {} else if r == 2 {} else if r == 3 {} else if r == 4 {} else if r == 5 {} else if r == 6 {} else if r == 7 {} else {}
  }

  lemma OneBitUsed(r: nat, x: byte)
    requires r < 8 && Within(Used(r + 1), x) && Within(x, Used(r))
    ensures x == Used(r) || x == Used(r + 1)
  {
    hide Used, Ones, And;
    UsedIs(r);
    UsedIs(r + 1);
    OneBit(8, r, x);
  }

  // Using one more record.
  lemma BitmapNext(bs: nat, k: nat)
    requires k < 8 * bs
    ensures Bitmap(bs, k)[k / 8] == Used(k % 8)
    ensures Bitmap(bs, k + 1) == Bitmap(bs, k)[k / 8 := Used(k % 8 + 1)]
  {
    hide Used;
    UsedZero();
  }

  lemma BitmapUnused(bs: nat)
    ensures Bitmap(bs, 0) == Blank(bs)
  {
  }

  /* ---- Areas ---- */

  function Blank(n: nat): (r: seq<byte>)
    ensures |r| == n
  {
    seq(n, _ => 0xFF)
  }

  function Count(a: seq<byte>): nat
    requires HeaderOk(a)
  {
    BitCount(a[HEADER_SIZE..HEADER_SIZE + BitmapBytes(a)])
  }

  // Where record k starts.
  function RecordAt(a: seq<byte>, k: nat): nat
    requires HEADER_SIZE <= |a|
  {
    HEADER_SIZE + BitmapBytes(a) + k * DataSize(a)
  }

  // The area holds k records, and is blank behind them.
  ghost predicate Holds(a: seq<byte>, k: nat) {
    && HeaderOk(a) && k <= 8 * BitmapBytes(a) && RecordAt(a, k) <= |a|
    && a[HEADER_SIZE..HEADER_SIZE + BitmapBytes(a)] == Bitmap(BitmapBytes(a), k)
    && a[RecordAt(a, k)..] == Blank(|a| - RecordAt(a, k))
  }

  // Either the log would not read the header, or the area is as the log leaves it.
  ghost predicate Sane(a: seq<byte>) {
    HeaderOk(a) ==> Holds(a, Count(a))
  }

  lemma HoldsCount(a: seq<byte>, k: nat)
    requires Holds(a, k)
    ensures Count(a) == k && Sane(a)
  {
    CountOfBitmap(BitmapBytes(a), k);
  }

  // What reading finds: nothing, the last record, or something outside the area.
  datatype ReadResult = NoRecord | Outside | Record(data: seq<byte>)

  function ReadLast(a: seq<byte>, ds: nat): ReadResult {
    if !HeaderOk(a) || DataSize(a) != ds then NoRecord
    else
      var at := RecordAt(a, Count(a)) - ds;
      if at < 0 || at + ds > |a| then Outside else Record(a[at..at + ds])
  }

  /* ---- What a write does ---- */

  // The size of the bitmap of a new area, as it is stored: cut to 16 bits before it is capped.
  function BitmapSize(size: nat, ds: nat): (r: nat)
    requires HEADER_SIZE < size
    ensures r <= INDEX_MAX
  {
    var q := ((size - HEADER_SIZE - 1) / (8 * ds + 1) + 1) % U16;
    if q > INDEX_MAX then INDEX_MAX else q
  }

  function RewriteOps(size: nat, data: seq<byte>): seq<Op>
    requires HEADER_SIZE < size && |data| < U16
  {
    var bs := BitmapSize(size, |data|);
    if |data| > size - HEADER_SIZE - bs then []
    else [Erase, Program(0, HeaderBytes(bs, |data|)), Program(HEADER_SIZE, [0xFE]), Program(HEADER_SIZE + bs, data)]
  }

  predicate Full(a: seq<byte>)
    requires HeaderOk(a)
  {
    Count(a) >= 8 * BitmapBytes(a) || RecordAt(a, Count(a)) + DataSize(a) > |a|
  }

  function AppendOps(a: seq<byte>, data: seq<byte>): seq<Op>
    requires HeaderOk(a) && !Full(a)
  {
    var k := Count(a);
    [Program(HEADER_SIZE + k / 8, [And(a[HEADER_SIZE + k / 8], Mask(k % 8))]), Program(RecordAt(a, k), data)]
  }

  // The flash operations of one write; none means that it fails.
  function WriteOps(a: seq<byte>, data: seq<byte>): seq<Op>
    requires HEADER_SIZE < |a| && |data| < U16
  {
    if !HeaderOk(a) || DataSize(a) != |data| then RewriteOps(|a|, data)
    else if |data| > |a| - HEADER_SIZE - BitmapBytes(a) then []
    else if Full(a) then RewriteOps(|a|, data)
    else AppendOps(a, data)
  }

  /* ---- Programming blank flash ---- */

  function Put(a: seq<byte>, at: nat, data: seq<byte>): (r: seq<byte>)
    requires at + |data| <= |a|
    ensures |r| == |a|
  {
    a[..at] + data + a[at + |data|..]
  }

  lemma ProgramBlank(a: seq<byte>, at: nat, data: seq<byte>)
    requires at + |data| <= |a| && a[at..at + |data|] == Blank(|data|)
    ensures Do(a, Program(at, data)) == Put(a, at, data)
  {
    hide And, Put;
    forall i | 0 <= i < |a|
      ensures Do(a, Program(at, data))[i] == Put(a, at, data)[i]
    {
      PutByte(a, at, data, i);
      if at <= i < at + |data| {
        assert a[i] == a[at..at + |data|][i - at] == 0xFF;
        AndErased(data[i - at]);
      }
    }
  }

  lemma PutByte(a: seq<byte>, at: nat, data: seq<byte>, i: nat)
    requires at + |data| <= |a| && i < |a|
    ensures Put(a, at, data)[i] == if at <= i < at + |data| then data[i - at] else a[i]
  {
  }

  // A new area with its first record, before the record itself is written.
  function NewArea(size: nat, bs: nat, ds: nat, k: nat): (r: seq<byte>)
    requires bs < U16 && ds < U16 && HEADER_SIZE + bs <= size
    ensures |r| == size
  {
    HeaderBytes(bs, ds) + Bitmap(bs, k) + Blank(size - HEADER_SIZE - bs)
  }

  lemma NewAreaHolds(size: nat, bs: nat, ds: nat, k: nat)
    requires 0 < bs < U16 && ds < U16 && HEADER_SIZE + bs < size && k <= 8 * bs && HEADER_SIZE + bs + k * ds <= size
    ensures var a := NewArea(size, bs, ds, k);
            Holds(a, k) && BitmapBytes(a) == bs && DataSize(a) == ds && a[HEADER_SIZE + bs..] == Blank(size - HEADER_SIZE - bs)
  {
    var a := NewArea(size, bs, ds, k);
    NewAreaParts(size, bs, ds, k);
    HeaderReads(a, bs, ds);
    hide NewArea, HeaderBytes, Bitmap, Blank, HeaderOk, BitmapBytes, DataSize;
    BlankTail(a, HEADER_SIZE + bs, k * ds);
  }

  lemma NewAreaParts(size: nat, bs: nat, ds: nat, k: nat)
    requires bs < U16 && ds < U16 && HEADER_SIZE + bs <= size
    ensures var a := NewArea(size, bs, ds, k);
            && a[..HEADER_SIZE] == HeaderBytes(bs, ds) && a[HEADER_SIZE..HEADER_SIZE + bs] == Bitmap(bs, k)
            && a[HEADER_SIZE + bs..] == Blank(size - HEADER_SIZE - bs)
  {
    hide HeaderBytes, Bitmap, Blank;
  }

  lemma HeaderReads(a: seq<byte>, bs: nat, ds: nat)
    requires 0 < bs < U16 && ds < U16 && HEADER_SIZE + bs < |a| && a[..HEADER_SIZE] == HeaderBytes(bs, ds)
    ensures HeaderOk(a) && BitmapBytes(a) == bs && DataSize(a) == ds
  {
    var h := a[..HEADER_SIZE];
    assert a[..4] == h[..4] && a[4] == h[4] && a[5] == h[5] && a[6] == h[6] && a[7] == h[7];
  }

  lemma BitmapFirst(bs: nat)
    requires 0 < bs
    ensures Put(Blank(bs), 0, [0xFE]) == Bitmap(bs, 1)
  {
  }

  lemma EraseBlank(a: seq<byte>)
    ensures Do(a, Erase) == Blank(|a|)
  {
  }

  lemma HeaderPut(size: nat, bs: nat, ds: nat)
    requires bs < U16 && ds < U16 && HEADER_SIZE + bs <= size
    ensures Do(Blank(size), Program(0, HeaderBytes(bs, ds))) == NewArea(size, bs, ds, 0)
  {
    hide HeaderBytes;
    ProgramBlank(Blank(size), 0, HeaderBytes(bs, ds));
    BitmapUnused(bs);
  }

  lemma FirstBitPut(size: nat, bs: nat, ds: nat)
    requires 0 < bs < U16 && ds < U16 && HEADER_SIZE + bs <= size
    ensures Do(NewArea(size, bs, ds, 0), Program(HEADER_SIZE, [0xFE])) == NewArea(size, bs, ds, 1)
  {
    hide HeaderBytes, Used;
    var a := NewArea(size, bs, ds, 0);
    BitmapUnused(bs);
    BitmapFirst(bs);
    ProgramBlank(a, HEADER_SIZE, [0xFE]);
    assert Put(a, HEADER_SIZE, [0xFE]) == HeaderBytes(bs, ds) + Put(Blank(bs), 0, [0xFE]) + Blank(size - HEADER_SIZE - bs);
  }

  lemma PutKeeps(a: seq<byte>, at: nat, data: seq<byte>, i: nat, j: nat)
    requires at + |data| <= |a| && i <= j <= |a| && (j <= at || at + |data| <= i)
    ensures Put(a, at, data)[i..j] == a[i..j]
  {
    assert |Put(a, at, data)| == |a|;
  }

  lemma PutThere(a: seq<byte>, at: nat, data: seq<byte>)
    requires at + |data| <= |a|
    ensures Put(a, at, data)[at..at + |data|] == data
  {
  }

  lemma BlankTail(a: seq<byte>, i: nat, n: nat)
    requires i + n <= |a| && a[i..] == Blank(|a| - i)
    ensures a[i..i + n] == Blank(n) && a[i + n..] == Blank(|a| - i - n)
  {
    assert a[i..i + n] == a[i..][..n];
    assert a[i + n..] == a[i..][n..];
  }

  // The header is all that the log looks at outside the bitmap.
  lemma SameHeader(a: seq<byte>, b: seq<byte>)
    requires HEADER_SIZE <= |a| == |b| && a[0..8] == b[0..8]
    ensures HeaderOk(a) == HeaderOk(b) && BitmapBytes(a) == BitmapBytes(b) && DataSize(a) == DataSize(b)
  {
    assert a[..4] == a[0..8][..4];
    assert b[..4] == b[0..8][..4];
    assert forall i :: 4 <= i < 8 ==> a[i] == a[0..8][i] && b[i] == b[0..8][i];
  }

  // A record goes into the place that has been taken for it.
  lemma RecordPut(a: seq<byte>, k: nat, data: seq<byte>)
    requires 0 < k && HeaderOk(a) && k <= 8 * BitmapBytes(a) && RecordAt(a, k) <= |a| && DataSize(a) == |data|
    requires a[HEADER_SIZE..HEADER_SIZE + BitmapBytes(a)] == Bitmap(BitmapBytes(a), k)
    requires a[RecordAt(a, k - 1)..] == Blank(|a| - RecordAt(a, k - 1))
    ensures RecordAt(a, k - 1) + |data| == RecordAt(a, k)
    ensures var a' := Do(a, Program(RecordAt(a, k - 1), data));
            && a' == Put(a, RecordAt(a, k - 1), data)
            && Holds(a', k) && DataSize(a') == |data| && BitmapBytes(a') == BitmapBytes(a) && ReadLast(a', |data|) == Record(data)
  {
    assert HEADER_SIZE <= |a|;
    hide Bitmap, BitCount, Do, Put, HeaderOk, Blank, RecordAt, BitmapBytes, DataSize;
    var at, bs := RecordAt(a, k - 1), BitmapBytes(a);
    RecordNext(a, k - 1);
    BlankTail(a, at, |data|);
    ProgramBlank(a, at, data);
    var a' := Put(a, at, data);
    PutKeeps(a, at, data, 0, 8);
    SameHeader(a, a');
    SameRecordAt(a, a', k);
    PutKeeps(a, at, data, HEADER_SIZE, HEADER_SIZE + bs);
    PutKeeps(a, at, data, at + |data|, |a|);
    PutThere(a, at, data);
    assert a'[at + |data|..] == a'[at + |data|..|a|] == a[at + |data|..|a|] == a[at + |data|..];
    HoldsCount(a', k);
  }

  lemma RecordNext(a: seq<byte>, k: nat)
    requires HEADER_SIZE <= |a|
    ensures HEADER_SIZE + BitmapBytes(a) <= RecordAt(a, k) && RecordAt(a, k + 1) == RecordAt(a, k) + DataSize(a)
    ensures RecordAt(a, 0) == HEADER_SIZE + BitmapBytes(a)
  {
    Multiples(k + 1, DataSize(a));
    MulMonotone(DataSize(a), 0, k);
  }

  lemma SameRecordAt(a: seq<byte>, b: seq<byte>, k: nat)
    requires HEADER_SIZE <= |a| == |b| && BitmapBytes(a) == BitmapBytes(b) && DataSize(a) == DataSize(b)
    ensures RecordAt(a, k) == RecordAt(b, k)
  {
  }

  lemma Multiples(k: nat, ds: nat)
    requires 0 < k
    ensures k * ds == (k - 1) * ds + ds
  {
  }

  /* ---- One write, from beginning to end ---- */

  // The bit for the next record has been cleared, and nothing else has changed.
  ghost predicate Taken(a: seq<byte>, b: seq<byte>, k: nat)
    requires HeaderOk(a)
  {
    && |b| == |a| && b[0..8] == a[0..8]
    && k <= 8 * BitmapBytes(a) && b[HEADER_SIZE..HEADER_SIZE + BitmapBytes(a)] == Bitmap(BitmapBytes(a), k)
    && b[HEADER_SIZE + BitmapBytes(a)..] == a[HEADER_SIZE + BitmapBytes(a)..]
  }

  lemma ByteReplaced(a: seq<byte>, i: nat, j: nat, at: nat, x: byte)
    requires i <= at < j <= |a|
    ensures var b := a[at := x];
            && b[..i] == a[..i] && b[i..j] == a[i..j][at - i := x] && b[j..] == a[j..]
  {
  }

  // The bit that the log takes is there, and is the one that it clears.
  lemma NextBit(a: seq<byte>, data: seq<byte>)
    requires Sane(a) && HeaderOk(a) && !Full(a)
    ensures var k := Count(a);
            var at, r := HEADER_SIZE + k / 8, k % 8;
            && at < HEADER_SIZE + BitmapBytes(a) && a[at] == Used(r) && AppendOps(a, data)[0] == Program(at, [Used(r + 1)])
            && a[HEADER_SIZE..HEADER_SIZE + BitmapBytes(a)][k / 8 := Used(r + 1)] == Bitmap(BitmapBytes(a), k + 1)
  {
    hide Used, Mask, And, BitCount, Bitmap, Blank;
    var k, bs := Count(a), BitmapBytes(a);
    BitmapNext(bs, k);
    assert a[HEADER_SIZE + k / 8] == a[HEADER_SIZE..HEADER_SIZE + bs][k / 8];
    MaskUses(k % 8);
  }

  lemma BitTaken(a: seq<byte>, data: seq<byte>)
    requires Sane(a) && HeaderOk(a) && !Full(a)
    ensures var k := Count(a);
            var at, r := HEADER_SIZE + k / 8, k % 8;
            && at < |a| && a[at] == Used(r) && AppendOps(a, data)[0] == Program(at, [Used(r + 1)])
            && Do(a, AppendOps(a, data)[0]) == a[at := Used(r + 1)] && Taken(a, a[at := Used(r + 1)], k + 1)
  {
    hide Used, Mask, And, Count, Bitmap, Blank, AppendOps, Sane;
    var k, bs := Count(a), BitmapBytes(a);
    var at, r := HEADER_SIZE + k / 8, k % 8;
    NextBit(a, data);
    MaskUses(r);
    ByteReplaced(a, HEADER_SIZE, HEADER_SIZE + bs, at, Used(r + 1));
    assert a[at := Used(r + 1)][0..8] == a[at := Used(r + 1)][..8];
    assert Do(a, Program(at, [Used(r + 1)])) == a[at := Used(r + 1)];
  }

  lemma TakenFacts(a: seq<byte>, b: seq<byte>, k: nat)
    requires HeaderOk(a) && Taken(a, b, k)
    ensures HeaderOk(b) && BitmapBytes(b) == BitmapBytes(a) && DataSize(b) == DataSize(a)
    ensures forall j: nat :: RecordAt(b, j) == RecordAt(a, j) && (RecordAt(a, j) <= |a| ==> b[RecordAt(a, j)..] == a[RecordAt(a, j)..])
  {
    SameHeader(a, b);
    hide HeaderOk, Bitmap;
    forall j: nat
      ensures RecordAt(b, j) == RecordAt(a, j) && (RecordAt(a, j) <= |a| ==> b[RecordAt(a, j)..] == a[RecordAt(a, j)..])
    {
      SameRecordAt(a, b, j);
      RecordNext(a, j);
      var n, m := HEADER_SIZE + BitmapBytes(a), RecordAt(a, j);
      if m <= |a| {
        assert b[m..] == b[n..][m - n..];
        assert a[m..] == a[n..][m - n..];
      }
    }
  }

  lemma AppendDone(a: seq<byte>, data: seq<byte>)
    requires Sane(a) && HeaderOk(a) && !Full(a) && DataSize(a) == |data|
    ensures var a' := DoAll(a, AppendOps(a, data));
            && Holds(a', Count(a) + 1) && DataSize(a') == |data| && BitmapBytes(a') == BitmapBytes(a)
            && ReadLast(a', |data|) == Record(data)
  {
    var k := Count(a);
    hide And, BitCount, Bitmap, Used, Do, DoAll, Holds, Full, Taken, RecordAt, ReadLast, Mask;
    var ops := AppendOps(a, data);
    var b := Do(a, ops[0]);
    FullFacts(a);
    BitTaken(a, data);
    TakenFacts(a, b, k + 1);
    RecordPut(b, k + 1, data);
    assert ops == [ops[0], ops[1]];
    DoTwo(a, ops[0], ops[1]);
  }

  lemma DoTwo(a: seq<byte>, x: Op, y: Op)
    ensures DoAll(a, [x, y]) == Do(Do(a, x), y)
  {
    hide Do;
    assert [x, y][1..] == [y];
    assert [y][1..] == [];
    assert DoAll(Do(a, x), [y]) == Do(Do(a, x), y);
  }

  lemma DoFour(a: seq<byte>, x: Op, y: Op, z: Op, w: Op)
    ensures DoAll(a, [x, y, z, w]) == Do(Do(Do(Do(a, x), y), z), w)
  {
    hide Do;
    assert [x, y, z, w][1..] == [y, z, w];
    assert [y, z, w][1..] == [z, w];
    DoTwo(Do(Do(a, x), y), z, w);
  }

  lemma FullFacts(a: seq<byte>)
    requires Sane(a) && HeaderOk(a) && !Full(a)
    ensures var k := Count(a);
            && k < 8 * BitmapBytes(a) && RecordAt(a, k + 1) <= |a| && RecordAt(a, k) <= |a|
            && a[RecordAt(a, k)..] == Blank(|a| - RecordAt(a, k))
  {
    RecordNext(a, Count(a));
  }

  // The areas that a rewrite goes through.
  lemma RewriteSteps(a: seq<byte>, data: seq<byte>)
    requires HEADER_SIZE < |a| && 0 < |data| < U16 && 0 < BitmapSize(|a|, |data|) && RewriteOps(|a|, data) != []
    ensures var bs := BitmapSize(|a|, |data|);
            var ops := RewriteOps(|a|, data);
            && |ops| == 4 && HEADER_SIZE + bs + |data| <= |a|
            && Do(a, ops[0]) == Blank(|a|) && Do(Blank(|a|), ops[1]) == NewArea(|a|, bs, |data|, 0)
            && Do(NewArea(|a|, bs, |data|, 0), ops[2]) == NewArea(|a|, bs, |data|, 1)
  {
    hide And, Do;
    var bs := BitmapSize(|a|, |data|);
    EraseBlank(a);
    HeaderPut(|a|, bs, |data|);
    FirstBitPut(|a|, bs, |data|);
  }

  lemma FirstRecordPut(b: seq<byte>, data: seq<byte>)
    requires Holds(b, 1) && DataSize(b) == |data| && 0 < |data| && HEADER_SIZE + BitmapBytes(b) + |data| <= |b|
    requires b[HEADER_SIZE + BitmapBytes(b)..] == Blank(|b| - HEADER_SIZE - BitmapBytes(b))
    ensures var c := Do(b, Program(HEADER_SIZE + BitmapBytes(b), data));
            Holds(c, 1) && DataSize(c) == |data| && BitmapBytes(c) == BitmapBytes(b) && ReadLast(c, |data|) == Record(data)
  {
    hide Do, Bitmap, Blank, HeaderOk, ReadLast, BitmapBytes, DataSize;
    RecordNext(b, 0);
    RecordPut(b, 1, data);
  }

  lemma RewriteDone(a: seq<byte>, data: seq<byte>)
    requires HEADER_SIZE < |a| && 0 < |data| < U16 && 0 < BitmapSize(|a|, |data|) && RewriteOps(|a|, data) != []
    ensures var a' := DoAll(a, RewriteOps(|a|, data));
            && Holds(a', 1) && DataSize(a') == |data| && BitmapBytes(a') == BitmapSize(|a|, |data|)
            && ReadLast(a', |data|) == Record(data)
  {
    hide *;
    var bs, ops := BitmapSize(|a|, |data|), RewriteOps(|a|, data);
    RewriteSteps(a, data);
    RewriteLast(|a|, data);
    NewAreaHolds(|a|, bs, |data|, 1);
    FirstRecordPut(NewArea(|a|, bs, |data|, 1), data);
    assert ops == [ops[0], ops[1], ops[2], ops[3]];
    DoFour(a, ops[0], ops[1], ops[2], ops[3]);
  }

  // After a write that succeeds the record that was written is the one that is read, and the
  // area is again as the log leaves it. This needs a bitmap size that is not cut to 0.
  lemma WriteThenRead(a: seq<byte>, data: seq<byte>)
    requires Sane(a) && HEADER_SIZE < |a| && 0 < |data| < U16 && 0 < BitmapSize(|a|, |data|)
    requires WriteOps(a, data) != []
    ensures var a' := DoAll(a, WriteOps(a, data));
            Sane(a') && HeaderOk(a') && 0 < Count(a') && DataSize(a') == |data| && ReadLast(a', |data|) == Record(data)
  {
    hide RewriteOps, AppendOps, ReadLast, Full, DoAll, BitmapSize, HeaderOk, BitmapBytes, DataSize, BitCount, Bitmap;
    var a' := DoAll(a, WriteOps(a, data));
    if HeaderOk(a) && DataSize(a) == |data| && !Full(a) {
      AppendDone(a, data);
      HoldsCount(a', Count(a) + 1);
    } else {
      RewriteDone(a, data);
      HoldsCount(a', 1);
    }
  }

  /* ---- Records go to blank flash ---- */

  // The last operation of a write, which puts the record in, finds blank flash there.
  lemma RecordsLandOnBlank(a: seq<byte>, data: seq<byte>)
    requires Sane(a) && HEADER_SIZE < |a| && 0 < |data| < U16 && 0 < BitmapSize(|a|, |data|)
    requires WriteOps(a, data) != []
    ensures var ops := WriteOps(a, data);
            var n := |ops| - 1;
            var b := DoAll(a, ops[..n]);
            && ops[n].Program? && ops[n].data == data && ops[n].at + |data| <= |a|
            && b[ops[n].at..ops[n].at + |data|] == Blank(|data|)
  {
    hide Do, DoAll, BitmapSize, RewriteOps, AppendOps, Full, Blank;
    if HeaderOk(a) && DataSize(a) == |data| && !Full(a) {
      AppendLandsOnBlank(a, data);
    } else {
      RewriteLandsOnBlank(a, data);
    }
  }

  lemma RewriteLandsOnBlank(a: seq<byte>, data: seq<byte>)
    requires HEADER_SIZE < |a| && 0 < |data| < U16 && 0 < BitmapSize(|a|, |data|) && RewriteOps(|a|, data) != []
    ensures var ops := RewriteOps(|a|, data);
            var at := HEADER_SIZE + BitmapSize(|a|, |data|);
            && |ops| == 4 && ops[3] == Program(at, data) && at + |data| <= |a|
            && DoAll(a, ops[..3])[at..at + |data|] == Blank(|data|)
  {
    hide *;
    var bs, ops := BitmapSize(|a|, |data|), RewriteOps(|a|, data);
    RewriteSteps(a, data);
    RewriteLast(|a|, data);
    NewAreaHolds(|a|, bs, |data|, 1);
    BlankTail(NewArea(|a|, bs, |data|, 1), HEADER_SIZE + bs, |data|);
    assert ops[..3] == [ops[0], ops[1], ops[2]];
    DoThree(a, ops[0], ops[1], ops[2]);
  }

  lemma RewriteLast(size: nat, data: seq<byte>)
    requires HEADER_SIZE < size && 0 < |data| < U16 && RewriteOps(size, data) != []
    ensures var ops, bs := RewriteOps(size, data), BitmapSize(size, |data|);
            |ops| == 4 && 0 <= HEADER_SIZE && bs < U16 && ops[3] == Program(HEADER_SIZE + bs, data)
  {
    hide HeaderBytes, BitmapSize;
  }

  lemma AppendLandsOnBlank(a: seq<byte>, data: seq<byte>)
    requires Sane(a) && HeaderOk(a) && !Full(a) && DataSize(a) == |data|
    ensures var ops := AppendOps(a, data);
            && |ops| == 2 && ops[1] == Program(RecordAt(a, Count(a)), data) && RecordAt(a, Count(a)) + |data| <= |a|
            && DoAll(a, ops[..1])[RecordAt(a, Count(a))..RecordAt(a, Count(a)) + |data|] == Blank(|data|)
  {
    hide Do, DoAll, And, Bitmap, Used, Mask, Blank, Taken;
    var k, b := Count(a), Do(a, AppendOps(a, data)[0]);
    FullFacts(a);
    BitTaken(a, data);
    TakenFacts(a, b, k + 1);
    hide Full, Count;
    RecordNext(a, k);
    BlankTail(b, RecordAt(a, k), |data|);
    assert AppendOps(a, data)[..1] == [AppendOps(a, data)[0]];
    DoOne(a, AppendOps(a, data)[0]);
  }

  lemma DoOne(a: seq<byte>, x: Op)
    ensures DoAll(a, [x]) == Do(a, x)
  {
    hide Do;
    assert [x][1..] == [];
  }

  lemma DoThree(a: seq<byte>, x: Op, y: Op, z: Op)
    ensures DoAll(a, [x, y, z]) == Do(Do(Do(a, x), y), z)
  {
    hide Do;
    assert [x, y, z][1..] == [y, z];
    DoTwo(Do(a, x), y, z);
  }

  /* ---- How many records fit ---- */

  // The records that an area takes before it has to be erased.
  function Capacity(size: nat, bs: nat, ds: nat): nat
    requires 0 < ds && HEADER_SIZE + bs <= size
  {
    Min(8 * bs, (size - HEADER_SIZE - bs) / ds)
  }

  // Between erasures exactly as many records are appended as there is room for.
  lemma FullAtCapacity(a: seq<byte>, k: nat)
    requires Holds(a, k) && 0 < DataSize(a)
    ensures k <= Capacity(|a|, BitmapBytes(a), DataSize(a))
    ensures Full(a) <==> k == Capacity(|a|, BitmapBytes(a), DataSize(a))
  {
    hide BitCount, Bitmap;
    HoldsCount(a, k);
    var room, ds := |a| - HEADER_SIZE - BitmapBytes(a), DataSize(a);
    Quotient(room, ds, k);
    Quotient(room, ds, k + 1);
    Multiples(k + 1, ds);
  }

  lemma Quotient(room: nat, ds: nat, k: nat)
    requires 0 < ds
    ensures k * ds <= room <==> k <= room / ds
  {
    var q := room / ds;
    assert room == q * ds + room % ds by { DivMod(room, ds); }
    if k <= q {
      MulMonotone(ds, k, q);
    } else {
      MulMonotone(ds, q + 1, k);
      Multiples(q + 1, ds);
    }
  }

  lemma DivMod(n: nat, d: nat)
    requires 0 < d
    ensures n == n / d * d + n % d && n % d < d
  {
  }

  // A bitmap whose size is not capped always has a bit for every record that there is room
  // for: then the room is the only bound.
  lemma BitmapIsNotTheBound(size: nat, ds: nat)
    requires HEADER_SIZE < size && 0 < ds
    requires (size - HEADER_SIZE - 1) / (8 * ds + 1) + 1 <= INDEX_MAX
    ensures var bs := BitmapSize(size, ds);
            0 < bs && HEADER_SIZE + bs <= size && Capacity(size, bs, ds) == (size - HEADER_SIZE - bs) / ds
  {
    var n, d := size - HEADER_SIZE - 1, 8 * ds + 1;
    var q := n / d;
    DivMod(n, d);
    var bs := q + 1;
    assert BitmapSize(size, ds) == bs;
    assert n < bs * d by { Multiples(bs, d); }
    assert bs * d == 8 * bs * ds + bs by { Distribute(bs, ds); }
    var room := size - HEADER_SIZE - bs;
    MulMonotone(d, 1, bs);
    assert q <= n by { MulMonotone(q, 1, d); }
    assert room <= (8 * bs) * ds;
    Quotient(room, ds, 8 * bs + 1);
    Multiples(8 * bs + 1, ds);
  }

  lemma Distribute(bs: nat, ds: nat)
    ensures bs * (8 * ds + 1) == 8 * bs * ds + bs
  {
  }

  // A write of n records of the same size, one after the other.
  ghost function WriteMany(a: seq<byte>, records: seq<seq<byte>>): (r: seq<byte>)
    requires HEADER_SIZE < |a| && forall i :: 0 <= i < |records| ==> |records[i]| < U16
    ensures |r| == |a|
    decreases |records|
  {
    if records == [] then a
    else
      var n := |records| - 1;
      var b := WriteMany(a, records[..n]);
      DoAll(b, WriteOps(b, records[n]))
  }

  // None of these writes fails.
  ghost predicate AllSucceed(a: seq<byte>, records: seq<seq<byte>>)
    requires HEADER_SIZE < |a| && forall i :: 0 <= i < |records| ==> |records[i]| < U16
    decreases |records|
  {
    records == [] ||
    var n := |records| - 1;
    AllSucceed(a, records[..n]) && WriteOps(WriteMany(a, records[..n]), records[n]) != []
  }

  // How many of these writes erase the area.
  ghost function Erasures(a: seq<byte>, records: seq<seq<byte>>): nat
    requires HEADER_SIZE < |a| && forall i :: 0 <= i < |records| ==> |records[i]| < U16
    decreases |records|
  {
    if records == [] then 0
    else
      var n := |records| - 1;
      Erasures(a, records[..n]) + if Erase in WriteOps(WriteMany(a, records[..n]), records[n]) then 1 else 0
  }

  // Records of one size in an area that holds none yet, and that has room for one: every
  // write succeeds, and the area is erased once for as many writes as its capacity is.
  lemma {:induction false} ErasedAtCapacityOnly(a: seq<byte>, records: seq<seq<byte>>, ds: nat)
    requires HEADER_SIZE < |a| && !HeaderOk(a) && 0 < ds < U16 && records != []
    requires forall i :: 0 <= i < |records| ==> |records[i]| == ds
    requires 0 < BitmapSize(|a|, ds) && HEADER_SIZE + BitmapSize(|a|, ds) + ds <= |a|
    ensures var c, b := Capacity(|a|, BitmapSize(|a|, ds), ds), WriteMany(a, records);
            && 0 < c && AllSucceed(a, records) && Erasures(a, records) == (|records| - 1) / c + 1
            && Holds(b, (|records| - 1) % c + 1) && DataSize(b) == ds && BitmapBytes(b) == BitmapSize(|a|, ds)
    decreases |records|
  {
    hide BitmapSize, RewriteOps, AppendOps, Full, DoAll, Holds, HeaderOk, BitmapBytes, DataSize, WriteOps, Capacity;
    var bs, n := BitmapSize(|a|, ds), |records| - 1;
    var c := Capacity(|a|, bs, ds);
    SomeCapacity(|a|, bs, ds);
    if n == 0 {
      assert records[..0] == [];
      WriteRewrites(a, records[0]);
      RewriteDone(a, records[0]);
      FirstInCycle(c);
    } else {
      ErasedAtCapacityOnly(a, records[..n], ds);
      NextInCycle(n - 1, c);
      WriteInCycle(WriteMany(a, records[..n]), records[n], (n - 1) % c + 1);
    }
  }

  lemma SomeCapacity(size: nat, bs: nat, ds: nat)
    requires 0 < bs && 0 < ds && HEADER_SIZE + bs + ds <= size
    ensures 0 < Capacity(size, bs, ds)
  {
    Quotient(size - HEADER_SIZE - bs, ds, 1);
  }

  lemma FirstInCycle(c: nat)
    requires 0 < c
    ensures 0 / c == 0 && 0 % c == 0
  {
  }

  lemma NextInCycle(i: nat, c: nat)
    requires 0 < c
    ensures i % c < c
    ensures (i + 1) % c == (if i % c + 1 == c then 0 else i % c + 1)
    ensures (i + 1) / c == i / c + (if i % c + 1 == c then 1 else 0)
  {
    var q, r := i / c, i % c;
    DivMod(i, c);
    if r + 1 == c {
      Multiples(q + 1, c);
      DivModIs(i + 1, c, q + 1, 0);
    } else {
      DivModIs(i + 1, c, q, r + 1);
    }
  }

  lemma DivModIs(n: nat, d: nat, q: nat, r: nat)
    requires n == q * d + r && r < d
    ensures n / d == q && n % d == r
  {
    DivMod(n, d);
    var q', r' := n / d, n % d;
    Multiples(q + 1, d);
    Multiples(q' + 1, d);
    if q < q' {
      MulMonotone(d, q + 1, q');
    } else if q' < q {
      MulMonotone(d, q' + 1, q);
    }
  }

  // One more record of the same size in an area that holds k of them.
  lemma WriteInCycle(a: seq<byte>, data: seq<byte>, k: nat)
    requires HEADER_SIZE < |a| && Holds(a, k) && DataSize(a) == |data| && 0 < |data| < U16
    requires BitmapBytes(a) == BitmapSize(|a|, |data|) && 0 < BitmapSize(|a|, |data|) && HEADER_SIZE + BitmapSize(|a|, |data|) + |data| <= |a|
    ensures var c, ops := Capacity(|a|, BitmapSize(|a|, |data|), |data|), WriteOps(a, data);
            var b := DoAll(a, ops);
            && ops != [] && (Erase in ops <==> k == c)
            && Holds(b, if k == c then 1 else k + 1) && DataSize(b) == |data| && BitmapBytes(b) == BitmapSize(|a|, |data|)
  {
    assert HeaderOk(a);
    HoldsCount(a, k);
    FullAtCapacity(a, k);
    hide BitmapSize, Full, DoAll, Holds, HeaderOk, BitmapBytes, DataSize, Capacity, BitCount;
    if Full(a) {
      RewriteDone(a, data);
    } else {
      AppendDone(a, data);
    }
  }

  lemma WriteRewrites(a: seq<byte>, data: seq<byte>)
    requires HEADER_SIZE < |a| && !HeaderOk(a) && |data| < U16 && HEADER_SIZE + BitmapSize(|a|, |data|) + |data| <= |a|
    ensures WriteOps(a, data) == RewriteOps(|a|, data) && WriteOps(a, data) != [] && Erase in WriteOps(a, data)
  {
    hide BitmapSize, HeaderOk;
  }

  // Whatever is written, of whatever sizes, the last record that was written is the one that
  // is read. Sizes whose bitmap size is stored as 0 are excluded.
  lemma {:induction false} LastWrittenIsRead(a: seq<byte>, records: seq<seq<byte>>)
    requires Sane(a) && HEADER_SIZE < |a|
    requires forall i :: 0 <= i < |records| ==> 0 < |records[i]| < U16 && 0 < BitmapSize(|a|, |records[i]|)
    requires AllSucceed(a, records)
    ensures var b := WriteMany(a, records);
            Sane(b) && (records != [] ==> ReadLast(b, |records[|records| - 1]|) == Record(records[|records| - 1]))
    decreases |records|
  {
    hide BitmapSize, RewriteOps, AppendOps, ReadLast, Full, DoAll, Sane, WriteOps;
    if records != [] {
      var n := |records| - 1;
      LastWrittenIsRead(a, records[..n]);
      WriteThenRead(WriteMany(a, records[..n]), records[n]);
    }
  }

  // A rewrite can be read back if and only if the bitmap size is not 0 once it is cut to 16
  // bits; before that it never is.
  lemma ReadableUnlessCut(a: seq<byte>, data: seq<byte>)
    requires HEADER_SIZE < |a| && 0 < |data| < U16 && RewriteOps(|a|, data) != []
    ensures ReadLast(DoAll(a, RewriteOps(|a|, data)), |data|) == Record(data) <==>
              ((|a| - HEADER_SIZE - 1) / (8 * |data| + 1) + 1) % U16 != 0
  {
    hide ReadLast, DoAll;
    var bs := BitmapSize(|a|, |data|);
    if bs == 0 {
      CutIsUnreadable(a, data);
    } else {
      hide BitmapSize;
      RewriteDone(a, data);
    }
  }

  // With the bitmap size stored as 0 the header is not one that the log would read.
  lemma CutIsUnreadable(a: seq<byte>, data: seq<byte>)
    requires HEADER_SIZE < |a| && 0 < |data| < U16 && RewriteOps(|a|, data) != [] && BitmapSize(|a|, |data|) == 0
    ensures !HeaderOk(DoAll(a, RewriteOps(|a|, data))) && ReadLast(DoAll(a, RewriteOps(|a|, data)), |data|) == NoRecord
  {
    hide BitmapSize, And, BitCount, DoAll, NewArea;
    var ops := RewriteOps(|a|, data);
    assert ops == [ops[0], ops[1], ops[2], ops[3]];
    DoFour(a, ops[0], ops[1], ops[2], ops[3]);
    EraseBlank(a);
    HeaderPut(|a|, 0, |data|);
    var b := NewArea(|a|, 0, |data|, 0);
    var b' := Do(Do(b, ops[2]), ops[3]);
    assert b[4] == 0 && b[5] == 0 by { NewAreaHeader(|a|, 0, |data|); }
    assert b'[4] == 0 && b'[5] == 0;
  }

  lemma NewAreaHeader(size: nat, bs: nat, ds: nat)
    requires bs < U16 && ds < U16 && HEADER_SIZE + bs <= size
    ensures NewArea(size, bs, ds, 0)[4] == bs % 0x100 && NewArea(size, bs, ds, 0)[5] == bs / 0x100
  {
  }

  // Such a size exists: records of one byte in an area of 9 * 65535 + 9 bytes.
  lemma CutExample()
    ensures BitmapSize(0x8_FFF7 + HEADER_SIZE + 1, 1) == 0 && RewriteOps(0x8_FFF7 + HEADER_SIZE + 1, [0]) != []
  {
    assert 0x8_FFF7 == 9 * 0xFFFF;
  }
}

module Fdcm {
  import opened Words
  import opened NorFlash
  import opened FdcmArea

  // An area of a flash device that the log manages.
  class FdcmHandle {
    const flash: Flash
    const addr: nat
    const size: nat

    constructor (flash: Flash, addr: nat, size: nat)
      requires HEADER_SIZE < size && addr + size <= |flash.mem| < 0x1_0000_0000
      ensures Valid() && this.flash == flash && this.addr == addr && this.size == size
    {
      this.flash := flash;
      this.addr := addr;
      this.size := size;
    }

    ghost predicate Valid()
      reads flash
    {
      HEADER_SIZE < size && addr + size <= |flash.mem| < 0x1_0000_0000
    }

    ghost function Area(): (a: seq<byte>)
      requires Valid()
      reads flash
      ensures |a| == size
    {
      flash.mem[addr..addr + size]
    }

    // The rest of the device is none of the log's business.
    ghost predicate Around(mem: seq<byte>)
      reads flash
    {
      && |flash.mem| == |mem| && addr + size <= |mem|
      && flash.mem[..addr] == mem[..addr] && flash.mem[addr + size..] == mem[addr + size..]
    }

    // The number of used records.
    static method FdcmBitCount(bitmap: seq<byte>) returns (bitCnt: nat)
      ensures bitCnt == BitCount(bitmap)
    {
      var byteCnt := 0;
      bitCnt := 0;
      while byteCnt < |bitmap|
        invariant byteCnt <= |bitmap| && bitCnt + BitCount(bitmap[byteCnt..]) == BitCount(bitmap)
      {
        assert bitmap[byteCnt..][1..] == bitmap[byteCnt + 1..];
        if bitmap[byteCnt] == 0 {
          bitCnt := bitCnt + 8;
        } else {
          var val: nat := 0xFF - bitmap[byteCnt];
          while val != 0
            invariant bitCnt + Length(val) == BitCount(bitmap)
            decreases val
          {
            val := val / 2;
            bitCnt := bitCnt + 1;
          }
          return;
        }
        byteCnt := byteCnt + 1;
      }
    }

    method FlashWrite(at: nat, data: seq<byte>)
      requires Valid() && at + |data| <= size
      modifies flash
      ensures Valid() && Area() == Do(old(Area()), Program(at, data)) && Around(old(flash.mem))
    {
      hide And, Do;
      ghost var mem, a := flash.mem, Area();
      var n := flash.Write(addr + at, data);
      ProgramInside(mem, addr, size, at, data);
      Surrounded(mem[..addr], Do(a, Program(at, data)), mem[addr + size..]);
    }

    method FlashRead(at: nat, n: nat) returns (data: seq<byte>)
      requires Valid() && at + n <= size
      ensures data == Area()[at..at + n]
    {
      data := flash.Read(addr + at, n);
      SliceOfSlice(flash.mem, addr, addr + size, at, at + n);
    }

    method ReadHeader() returns (valid: bool, bs: nat, ds: nat)
      requires Valid()
      ensures valid <==> HeaderOk(Area())
      ensures bs == BitmapBytes(Area()) && ds == DataSize(Area())
    {
      var header := FlashRead(0, HEADER_SIZE);
      assert header[..4] == Area()[..4];
      bs, ds := BitmapBytes(header), DataSize(header);
      valid := header[..4] == [0xA5, 0x5A, 0x5A, 0xA5] && bs != 0 && bs + HEADER_SIZE < size;
    }

    method FlashErase()
      requires Valid()
      modifies flash
      ensures Valid() && Area() == Do(old(Area()), Erase) && Around(old(flash.mem))
    {
      hide And, Do;
      ghost var mem, a := flash.mem, Area();
      var ok := flash.EraseArea(addr, size);
      Surrounded(mem[..addr], Do(a, Erase), mem[addr + size..]);
    }

    // Erases the area and writes the first record.
    method Rewrite(data: seq<byte>) returns (n: nat)
      requires Valid() && |data| < U16
      modifies flash
      ensures Valid() && Around(old(flash.mem))
      ensures Area() == DoAll(old(Area()), RewriteOps(size, data))
      ensures n == if RewriteOps(size, data) == [] then 0 else |data|
    {
      hide And, Do, DoAll, HeaderBytes, Area;
      ghost var a, ops := Area(), RewriteOps(size, data);
      DoNone(a);
      var bitmapSize := ((size - HEADER_SIZE - 1) / (8 * |data| + 1) + 1) % U16;
      if bitmapSize > INDEX_MAX {
        bitmapSize := INDEX_MAX;
      }
      BitmapFits(size, |data|);
      if |data| > size - HEADER_SIZE - bitmapSize {
        return 0;
      }
      FlashErase();
      FlashWrite(0, HeaderBytes(bitmapSize, |data|));
      FlashWrite(HEADER_SIZE, [0xFE]);
      FlashWrite(HEADER_SIZE + bitmapSize, data);
      assert ops == [Erase, Program(0, HeaderBytes(bitmapSize, |data|)), Program(HEADER_SIZE, [0xFE]),
                     Program(HEADER_SIZE + bitmapSize, data)];
      DoFour(a, ops[0], ops[1], ops[2], ops[3]);
      n := |data|;
    }

    // Reads the last record. In an area that does not hold what its header says, the address
    // may lie outside it, where it is computed modulo 2^32.
    method Read(ds: nat) returns (n: nat, data: seq<byte>)
      requires Valid() && ds < U16
      ensures n == |data|
      ensures match ReadLast(Area(), ds)
              case NoRecord => n == 0
              case Record(d) => n == ds && data == d
              case Outside =>
                var at := Wrap32(addr + RecordAt(Area(), Count(Area())) - ds);
                data == if at + ds <= |flash.mem| then flash.mem[at..at + ds] else []
    {
      hide BitCount, Area;
      n, data := 0, [];
      var valid, bs, hds := ReadHeader();
      if !valid || hds != ds {
        return;
      }
      var bitmap := FlashRead(HEADER_SIZE, bs);
      var bitCnt := FdcmBitCount(bitmap);
      ghost var from := RecordAt(Area(), bitCnt) - ds;
      Backwards(bitCnt, ds);
      assert addr + HEADER_SIZE + bs + ds * (bitCnt as int - 1) == addr + from;
      var at := Wrap32(addr + HEADER_SIZE + bs + ds * (bitCnt as int - 1));
      hide HeaderOk, RecordAt, BitmapBytes, DataSize;
      data := flash.Read(at, ds);
      n := |data|;
      if 0 <= from && from + ds <= size {
        assert at == addr + from;
        InArea(from, ds);
      }
    }

    lemma InArea(at: nat, n: nat)
      requires Valid() && at + n <= size
      ensures flash.mem[addr + at..addr + at + n] == Area()[at..at + n]
    {
      SliceOfSlice(flash.mem, addr, addr + size, at, at + n);
    }

    // Appends a record, or starts a new area with it.
    method Write(data: seq<byte>) returns (n: nat)
      requires Valid() && |data| < U16
      modifies flash
      ensures Valid() && Around(old(flash.mem))
      ensures Area() == DoAll(old(Area()), WriteOps(old(Area()), data))
      ensures n == if WriteOps(old(Area()), data) == [] then 0 else |data|
    {
      hide BitCount, And, Do, DoAll, RewriteOps, Mask, Area;
      ghost var a := Area();
      DoNone(a);
      var valid, bs, hds := ReadHeader();
      if !valid || hds != |data| {
        n := Rewrite(data);
        return;
      }
      if |data| > size - HEADER_SIZE - bs {
        return 0;
      }
      var bitmap := FlashRead(HEADER_SIZE, bs);
      var bitCnt := FdcmBitCount(bitmap);
      Forwards(bitCnt, |data|);
      if bitCnt >= 8 * bs || HEADER_SIZE + bs + |data| * (bitCnt + 1) > size {
        n := Rewrite(data);
        return;
      }
      var index := bitCnt / 8;
      ghost var ops := AppendOps(a, data);
      hide RecordAt;
      FlashWrite(HEADER_SIZE + index, [And(bitmap[index], Mask(bitCnt % 8))]);
      FlashWrite(HEADER_SIZE + bs + |data| * bitCnt, data);
      assert ops == [ops[0], ops[1]];
      DoTwo(a, ops[0], ops[1]);
      n := |data|;
    }
  }

  lemma BitmapFits(size: nat, ds: nat)
    requires HEADER_SIZE < size
    ensures HEADER_SIZE + BitmapSize(size, ds) <= size
  {
    var n, d := size - HEADER_SIZE - 1, 8 * ds + 1;
    DivMod(n, d);
    MulMonotone(n / d, 1, d);
  }

  lemma Backwards(k: nat, ds: nat)
    ensures ds * (k - 1) == k * ds - ds
  {
  }

  lemma Forwards(k: nat, ds: nat)
    ensures ds * (k + 1) == k * ds + ds && ds * k == k * ds
  {
  }
}
