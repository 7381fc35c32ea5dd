// The decoder of the .xz container behind the last Block, fed piece by piece: it follows
// XzIndex on the concatenation of the pieces.
module XzStream {
  import opened Words
  import opened Crc32
  import opened Vli
  import opened XzIndex
  import opened Memory
  import opened XzBuffers

  datatype Sequence = SeqBlockStart | SeqIndex | SeqIndexPadding | SeqIndexCrc32 | SeqStreamFooter

  /* ---- Fields in pieces ---- */

  lemma {:induction false} FieldPart(s: Index, blocks: Blocks, e: seq<byte>)
    requires InField(s.phase) && VliBytes(s.pos, s.vli, e).VliMore?
    ensures var r := VliBytes(s.pos, s.vli, e);
            IndexBytes(s, blocks, e) == Grown(s, e).(pos := r.pos, vli := r.value)
    decreases |e|
  {
    hide Crc, VliByte;
    if e == [] {
      CrcNone(s.crc);
    } else {
      var r := VliByte(s.pos, s.vli, e[0]);
      FieldPart(Grown(s, [e[0]]).(pos := r.pos, vli := r.value), blocks, e[1..]);
      GrownTwice(s, [e[0]], e[1..]);
      assert e == [e[0]] + e[1..];
    }
  }

  lemma FieldBad(s: Index, blocks: Blocks, e: seq<byte>, b: byte)
    requires InField(s.phase) && VliBytes(s.pos, s.vli, e).VliMore?
    requires var r := VliBytes(s.pos, s.vli, e);
             VliByte(r.pos, r.value, b).VliBad?
    ensures IndexBytes(s, blocks, e + [b]).phase == Rejected
  {
    hide Crc, VliByte;
    FieldPart(s, blocks, e);
    IndexSplits(s, blocks, e, [b]);
  }

  lemma FieldWhole(s: Index, blocks: Blocks, e: seq<byte>)
    requires InField(s.phase) && VliBytes(s.pos, s.vli, e).VliDone?
    ensures IndexBytes(s, blocks, e) == Settle(FieldDone(Grown(s, e), blocks, VliBytes(s.pos, s.vli, e).value), blocks)
  {
    hide Crc, VliByte, VliBytes, Settle, FieldDone;
    assert e + [] == e;
    FieldTaken(s, blocks, e, []);
  }

  lemma FieldComplete(s: Index, blocks: Blocks, e: seq<byte>, value: nat)
    requires InField(s.phase) && VliBytes(s.pos, s.vli, e) == VliDone(value)
    ensures e != []
    ensures var t := FieldDone(Grown(s, e).(pos := 0, vli := 0), blocks, value);
            IndexBytes(s, blocks, e) == Settle(t, blocks) && (InField(t.phase) || t.phase == Rejected ==> Settle(t, blocks) == t)
  {
    FieldWhole(s, blocks, e);
    VliNone(s.pos, s.vli);
    FieldDoneAt(Grown(s, e), blocks, value);
    SettleOther(FieldDone(Grown(s, e), blocks, value), blocks);
  }

  lemma VliStep(pos: nat, value: nat, data: seq<byte>, b: byte)
    requires VliBytes(pos, value, data).VliMore?
    ensures var r := VliBytes(pos, value, data);
            VliBytes(pos, value, data + [b]) == VliByte(r.pos, r.value, b)
  {
    hide VliByte;
    VliSplits(pos, value, data, [b]);
  }

  class XzDec {
    var sequence: Sequence
    var pos: nat
    var vli: nat
    var inStart: nat
    var crc: Checksum
    const checkType: byte

    var blockCount: nat
    var blockHash: Hash

    var indexSequence: IndexPhase
    var indexSize: nat
    var indexCount: nat
    var indexHash: Hash

    const temp: array<byte>
    var tempPos: nat
    var tempSize: nat

    // The Blocks decoded so far.
    ghost var records: seq<Record>

    constructor (checkType: byte)
      ensures Valid() && sequence == SeqBlockStart && records == [] && this.checkType == checkType && fresh(temp)
    {
      sequence, pos, vli, inStart, crc := SeqBlockStart, 0, 0, 0, ZERO_CRC;
      this.checkType := checkType;
      blockCount, blockHash := 0, NO_HASH;
      indexSequence, indexSize, indexCount, indexHash := CountField, 0, 0, NO_HASH;
      temp := new byte[1024](_ => 0);
      tempPos, tempSize := 0, 0;
      records := [];
    }

    ghost predicate Valid()
      reads this
    {
      && temp.Length == 1024 && tempPos <= temp.Length
      && blockCount == |records| && blockHash == HashAll(NO_HASH, records)
      && InField(indexSequence)
      && (sequence == SeqBlockStart ==>
            pos == 0 && crc == ZERO_CRC && indexSequence == CountField && indexSize == 0 && indexCount == 0
            && indexHash == NO_HASH && tempPos == 0)
      && (sequence == SeqIndex ==>
            OnTheWay(pos) && (indexSequence == CountField <==> indexCount == 0) && tempPos == 0)
      && (sequence == SeqIndexPadding ==> indexSize % 4 != 0 && pos == 0 && indexCount == 0 && tempPos == 0)
      && (sequence == SeqIndexCrc32 ==> pos in {0, 8, 16, 24} && indexCount == 0 && tempPos == 0)
      && (sequence == SeqStreamFooter ==> pos == 0 && indexCount == 0 && crc == ZERO_CRC && tempSize == 12 && tempPos < 12)
    }

    ghost function Known(): Blocks
      reads this`blockCount, this`blockHash
    {
      Blocks(blockCount, blockHash, checkType)
    }

    // Where the decoder is, when it has not yet accounted for the bytes used.
    ghost function Look(used: seq<byte>): Index
      requires tempPos <= temp.Length
      reads this, temp
    {
      var v := if pos == 0 then 0 else vli;
      match sequence
      case SeqBlockStart => BeforeIndex()
      case SeqIndex => Index(indexSequence, pos, v, indexSize + |used|, Crc(used, crc), indexCount, indexHash, [])
      case SeqIndexPadding => Index(Padding, 0, 0, indexSize + |used|, Crc(used, crc), indexCount, indexHash, [])
      case SeqIndexCrc32 => Index(CheckCrc, pos, 0, indexSize, crc, indexCount, indexHash, [])
      case SeqStreamFooter => Index(Footer, 0, 0, indexSize, crc, indexCount, indexHash, temp[..tempPos])
    }

    // A Block has been decoded to its end: its sizes go into the hash.
    method BlockDone(unpadded: nat, uncompressed: nat)
      requires Valid() && sequence == SeqBlockStart
      modifies this`blockCount, this`blockHash, this`records
      ensures Valid() && sequence == SeqBlockStart && records == old(records) + [Record(unpadded, uncompressed)]
    {
      hide Crc, HashBytes;
      HashAppend(NO_HASH, records, Record(unpadded, uncompressed));
      blockHash := blockHash.(unpadded := (blockHash.unpadded + unpadded) % TWO64,
                              uncompressed := (blockHash.uncompressed + uncompressed) % TWO64);
      var r := XzCrc32(HashBytes(blockHash), blockHash.crc);
      blockHash := blockHash.(crc := r);
      blockCount := blockCount + 1;
      records := records + [Record(unpadded, uncompressed)];
    }

    // One variable-length integer, or as much of it as there is.
    method DecVli(b: XzBuf) returns (ret: XzRet)
      requires b.Valid() && OnTheWay(pos)
      modifies this`pos, this`vli, b`inPos
      ensures b.Valid() && old(b.inPos) <= b.inPos
      ensures var data := b.input[old(b.inPos)..b.inPos];
              var was := if old(pos) == 0 then 0 else old(vli);
              match ret
              case XzOk => b.inPos == |b.input| && OnTheWay(pos) && VliBytes(old(pos), was, data) == VliMore(pos, if pos == 0 then 0 else vli)
              case XzStreamEnd => pos == 0 && VliBytes(old(pos), was, data) == VliDone(vli)
              case XzDataError => Overflows(old(pos), was, data)
    {
      hide Placed, VliBytes, Overflows;
      if pos == 0 {
        vli := 0;
      }
      ghost var from, p0, v0 := b.inPos, pos, vli;
      VliStart(b.input[from..from], p0, v0);
      while b.inPos < |b.input|
        invariant from <= b.inPos && b.Valid() && OnTheWay(pos) && (pos == 0 ==> vli == 0)
        invariant VliBytes(p0, v0, b.input[from..b.inPos]) == VliMore(pos, vli)
      {
        var x: nat := b.input[b.inPos];
        VliRound(p0, v0, b.input[from..b.inPos], x, pos, vli);
        OneByteMore(b.input, from, b.inPos);
        b.inPos := b.inPos + 1;
        vli := vli + Placed(x % 0x80, pos);
        if x < 0x80 {
          if x == 0 && pos != 0 {
            return XzDataError;
          }
          pos := 0;
          return XzStreamEnd;
        }
        pos := pos + 7;
        if pos == 7 * VLI_BYTES_MAX {
          return XzDataError;
        }
      }
      ret := XzOk;
    }

    // The Index size and CRC32 take in what has been used.
    method IndexUpdate(b: XzBuf)
      requires b.Valid() && inStart <= b.inPos && tempPos <= temp.Length && (sequence == SeqIndex || sequence == SeqIndexPadding)
      modifies this`indexSize, this`crc
      ensures Look([]) == old(Look(b.input[inStart..b.inPos]))
      ensures indexSize == old(indexSize) + (b.inPos - inStart) && crc == Crc(b.input[inStart..b.inPos], old(crc))
    {
      hide Crc;
      indexSize := indexSize + (b.inPos - inStart);
      crc := XzCrc32(b.input[inStart..b.inPos], crc);
      CrcNone(crc);
    }

    // The field that has just been decoded.
    method TakeField(ghost used: seq<byte>) returns (ok: bool)
      requires InField(indexSequence) && pos == 0 && (indexSequence == CountField <==> indexCount == 0)
      modifies this`indexSequence, this`indexCount, this`indexHash
      ensures var s := Index(old(indexSequence), 0, 0, indexSize + |used|, Crc(used, crc), old(indexCount), old(indexHash), []);
              var t := FieldDone(s, Known(), vli);
              if ok then t == Index(if indexCount == 0 then Padding else indexSequence, 0, 0, s.size, s.crc, indexCount, indexHash, [])
              else t.phase == Rejected
      ensures InField(indexSequence) && (ok ==> indexSequence != CountField)
    {
      hide Crc, HashBytes;
      if indexSequence == CountField {
        indexCount := vli;
        if indexCount != blockCount {
          return false;
        }
        indexSequence := UnpaddedField;
      } else if indexSequence == UnpaddedField {
        indexHash := indexHash.(unpadded := (indexHash.unpadded + vli) % TWO64);
        indexSequence := UncompressedField;
      } else {
        indexHash := indexHash.(uncompressed := (indexHash.uncompressed + vli) % TWO64);
        var r := XzCrc32(HashBytes(indexHash), indexHash.crc);
        indexHash := indexHash.(crc := r);
        indexCount := indexCount - 1;
        indexSequence := UnpaddedField;
      }
      ok := true;
    }

    // One field of the Index, or as much of it as there is.
    method OneField(b: XzBuf) returns (ret: XzRet)
      requires Valid() && b.Valid() && sequence == SeqIndex && inStart <= b.inPos
      modifies this`pos, this`vli, this`indexSequence, this`indexCount, this`indexHash, this`indexSize, this`crc, b`inPos
      ensures b.Valid() && old(b.inPos) <= b.inPos
      ensures var s := IndexBytes(old(Look(b.input[inStart..b.inPos])), Known(), b.input[old(b.inPos)..b.inPos]);
              match ret
              case XzOk => Valid() && s == Look([]) && b.inPos == |b.input|
              case XzStreamEnd => old(b.inPos) < b.inPos && BetweenFields(s, b.input[inStart..b.inPos])
              case XzDataError => s.phase == Rejected
    {
      hide Crc, FieldDone, IndexBytes, Settle, VliBytes;
      ghost var at, used, known := b.inPos, b.input[inStart..b.inPos], Known();
      ghost var s := Look(used);
      ret := DecVli(b);
      ghost var e := b.input[at..b.inPos];
      SliceJoin(b.input, inStart, at, b.inPos);
      CrcSplits(used, e, crc);
      if ret.XzStreamEnd? {
        var ok := WholeField(s, used, e);
        ret := if ok then XzStreamEnd else XzDataError;
      } else {
        if ret.XzOk? {
          FieldPart(s, known, e);
        } else {
          assert e == e[..|e| - 1] + [e[|e| - 1]];
          FieldBad(s, known, e[..|e| - 1], e[|e| - 1]);
        }
        IndexUpdate(b);
      }
    }

    // The integer is there: e ends it, in front of which the byte machine was at s.
    method WholeField(ghost s: Index, ghost used: seq<byte>, ghost e: seq<byte>) returns (ok: bool)
      requires Tables() && sequence == SeqIndex && tempPos == 0 && pos == 0 && InField(indexSequence)
      requires indexSequence == CountField <==> indexCount == 0
      requires s == Index(indexSequence, s.pos, s.vli, indexSize + |used|, Crc(used, crc), indexCount, indexHash, [])
      requires VliBytes(s.pos, s.vli, e) == VliDone(vli)
      modifies this`indexSequence, this`indexCount, this`indexHash
      ensures e != [] && var t := IndexBytes(s, Known(), e);
                         if ok then BetweenFields(t, used + e) else t.phase == Rejected
    {
      hide Crc, FieldDone, IndexBytes, Settle, VliBytes, HashAll;
      FieldComplete(s, Known(), e, vli);
      CrcSplits(used, e, crc);
      ok := TakeField(used + e);
    }

    // The next field follows, or the padding.
    ghost predicate BetweenFields(s: Index, used: seq<byte>)
      reads this, temp
    {
      if 0 < indexCount then Valid() && s == Look(used)
      else
        && s == Settle(Index(Padding, 0, 0, indexSize + |used|, Crc(used, crc), 0, indexHash, []), Known())
        && pos == 0 && InField(indexSequence)
    }

    // The fields of the Index up to its padding.
    method DecIndex(b: XzBuf) returns (ret: XzRet)
      requires Valid() && b.Valid() && sequence == SeqIndex && inStart <= b.inPos
      modifies this`pos, this`vli, this`indexSequence, this`indexCount, this`indexHash, this`indexSize, this`crc, b`inPos
      ensures b.Valid() && old(b.inPos) <= b.inPos
      ensures var s := IndexBytes(old(Look(b.input[inStart..b.inPos])), Known(), b.input[old(b.inPos)..b.inPos]);
              match ret
              case XzOk => Valid() && s == Look([]) && b.inPos == |b.input|
              case XzStreamEnd => indexCount == 0 && BetweenFields(s, b.input[inStart..b.inPos])
              case XzDataError => s.phase == Rejected
    {
      hide Crc, IndexBytes, Settle, BetweenFields;
      ghost var from, s0, known := b.inPos, Look(b.input[inStart..b.inPos]), Known();
      ret := OneField(b);
      while ret.XzStreamEnd? && indexCount > 0
        invariant b.Valid() && from <= b.inPos && inStart <= b.inPos && Known() == known
        invariant var s := IndexBytes(s0, known, b.input[from..b.inPos]);
                  match ret
                  case XzOk => Valid() && s == Look([]) && b.inPos == |b.input|
                  case XzStreamEnd => BetweenFields(s, b.input[inStart..b.inPos])
                  case XzDataError => s.phase == Rejected
        decreases |b.input| - b.inPos, ret.XzStreamEnd?
      {
        Between(IndexBytes(s0, known, b.input[from..b.inPos]), b.input[inStart..b.inPos]);
        ghost var at := b.inPos;
        ret := OneField(b);
        SliceJoin(b.input, from, at, b.inPos);
        IndexSplits(s0, known, b.input[from..at], b.input[at..b.inPos]);
      }
    }

    lemma Between(s: Index, used: seq<byte>)
      requires BetweenFields(s, used) && 0 < indexCount && sequence == SeqIndex
      ensures Valid() && s == Look(used)
    {
    }

    // The zeros that make the size of the Index a multiple of four; then the sizes of the
    // Blocks must be those of the Records.
    method IndexPadding(b: XzBuf) returns (ret: XzRet)
      requires Tables() && b.Valid() && inStart <= b.inPos && sequence == SeqIndexPadding
      requires pos == 0 && indexCount == 0 && tempPos == 0 && InField(indexSequence)
      modifies this`sequence, this`indexSize, this`crc, b`inPos
      ensures b.Valid() && old(b.inPos) <= b.inPos
      ensures var s := IndexBytes(Settle(old(Look(b.input[inStart..b.inPos])), Known()), Known(), b.input[old(b.inPos)..b.inPos]);
              match ret
              case XzOk => Valid() && s == Look([]) && b.inPos == |b.input|
              case XzStreamEnd => Valid() && sequence == SeqIndexCrc32 && s == Look([])
              case XzDataError => s.phase == Rejected
    {
      hide Crc, IndexBytes, Settle, HashAll, InPadding;
      ghost var from, known := b.inPos, Known();
      ghost var s0 := Settle(Look(b.input[inStart..b.inPos]), known);
      assert b.input[from..from] == [];
      IndexNone(s0, known);
      PaddingIs(b.input[inStart..b.inPos]);
      while (indexSize + (b.inPos - inStart)) % 4 != 0
        invariant b.Valid() && from <= b.inPos && inStart <= b.inPos
        invariant sequence == SeqIndexPadding && indexSize == old(indexSize) && crc == old(crc)
        invariant IndexBytes(s0, known, b.input[from..b.inPos]) ==
                  Settle(InPadding(b.input[inStart..b.inPos], indexSize, crc, indexHash), known)
        decreases |b.input| - b.inPos
      {
        if b.inPos == |b.input| {
          PaddingIs(b.input[inStart..b.inPos]);
          SettlePlain(Look(b.input[inStart..b.inPos]), known);
          IndexUpdate(b);
          return XzOk;
        }
        PaddingRound(s0, known, b.input, from, inStart, b.inPos, indexSize, crc, indexHash);
        b.inPos := b.inPos + 1;
        if b.input[b.inPos - 1] != 0 {
          return XzDataError;
        }
      }
      ret := PaddingDone(b);
    }

    // With all of its padding the Index can be compared with the Blocks.
    method PaddingDone(b: XzBuf) returns (ret: XzRet)
      requires Tables() && b.Valid() && inStart <= b.inPos && sequence == SeqIndexPadding
      requires pos == 0 && indexCount == 0 && tempPos == 0 && InField(indexSequence)
      requires (indexSize + (b.inPos - inStart)) % 4 == 0
      modifies this`sequence, this`indexSize, this`crc
      ensures var s := Settle(InPadding(b.input[inStart..b.inPos], old(indexSize), old(crc), indexHash), Known());
              match ret
              case XzOk => false
              case XzStreamEnd => Valid() && sequence == SeqIndexCrc32 && s == Look([])
              case XzDataError => s.phase == Rejected
    {
      hide Crc, Settle, HashAll, InPadding;
      PaddingIs(b.input[inStart..b.inPos]);
      SettleWhole(Look(b.input[inStart..b.inPos]), Known());
      IndexUpdate(b);
      if blockHash != indexHash {
        return XzDataError;
      }
      sequence := SeqIndexCrc32;
      ret := XzStreamEnd;
    }

    lemma PaddingIs(used: seq<byte>)
      requires sequence == SeqIndexPadding && indexCount == 0 && tempPos <= temp.Length
      ensures Look(used) == InPadding(used, indexSize, crc, indexHash)
    {
    }

    // The CRC32 of the Index.
    method CrcValidate(b: XzBuf) returns (ret: XzRet)
      requires Valid() && b.Valid() && sequence == SeqIndexCrc32
      modifies this`pos, this`crc, b`inPos
      ensures b.Valid() && old(b.inPos) <= b.inPos
      ensures var s := IndexBytes(old(Look([])), Known(), b.input[old(b.inPos)..b.inPos]);
              match ret
              case XzOk => Valid() && s == Look([]) && b.inPos == |b.input|
              case XzStreamEnd => pos == 0 && crc == ZERO_CRC && s == Index(Footer, 0, 0, indexSize, ZERO_CRC, 0, indexHash, [])
              case XzDataError => s.phase == Rejected
    {
      hide CrcByte, HashAll, IndexBytes, IndexByte;
      ghost var from, s0, known := b.inPos, Look([]), Known();
      assert b.input[from..from] == [];
      IndexNone(s0, known);
      while pos < 32
        invariant b.Valid() && from <= b.inPos && Known() == known && pos in {0, 8, 16, 24, 32} && crc == old(crc)
        invariant IndexBytes(s0, known, b.input[from..b.inPos]) == AfterCrc(pos, indexSize, crc, indexHash)
        decreases 32 - pos
      {
        if b.inPos == |b.input| {
          return XzOk;
        }
        CrcRound(s0, known, b.input, from, b.inPos, pos, indexSize, crc, indexHash);
        b.inPos := b.inPos + 1;
        if CrcByte(crc, pos / 8) != b.input[b.inPos - 1] {
          return XzDataError;
        }
        pos := pos + 8;
      }
      crc := ZERO_CRC;
      pos := 0;
      ret := XzStreamEnd;
    }

    // Collects input until there is as much as is wanted.
    method FillTemp(b: XzBuf) returns (done: bool)
      requires b.Valid() && tempPos <= tempSize <= temp.Length
      modifies this`tempPos, temp, b`inPos
      ensures b.Valid() && b.inPos == old(b.inPos) + Min(|b.input| - old(b.inPos), tempSize - old(tempPos))
      ensures temp[..old(tempPos) + (b.inPos - old(b.inPos))] == old(temp[..tempPos]) + b.input[old(b.inPos)..b.inPos]
      ensures done <==> old(tempPos) + (b.inPos - old(b.inPos)) == tempSize
      ensures tempPos == if done then 0 else old(tempPos) + (b.inPos - old(b.inPos))
    {
      var copySize := Min(|b.input| - b.inPos, tempSize - tempPos);
      CopyBytes(temp, tempPos, b.input[b.inPos..b.inPos + copySize]);
      b.inPos := b.inPos + copySize;
      tempPos := tempPos + copySize;
      done := tempPos == tempSize;
      if done {
        tempPos := 0;
      }
    }

    method DecStreamFooter() returns (ret: XzRet)
      requires 12 <= temp.Length
      ensures ret == if FooterOk(temp[..12], indexSize, checkType) then XzStreamEnd else XzDataError
    {
      hide CrcByte, Crc, FromLe;
      var t := temp[..12];
      if temp[10] != 0x59 || temp[11] != 0x5A {
        return XzDataError;
      }
      var crc := XzCrc32(t[4..10], ZERO_CRC);
      if CrcBytes(crc) != t[..4] {
        return XzDataError;
      }
      if indexSize / 4 != FromLe(t[4..8]) {
        return XzDataError;
      }
      if temp[8] != 0 || temp[9] != checkType {
        return XzDataError;
      }
      ret := XzStreamEnd;
    }

    // The Stream Footer.
    method Footing(b: XzBuf) returns (ret: XzRet)
      requires Valid() && b.Valid() && sequence == SeqStreamFooter
      modifies this`tempPos, temp, b`inPos
      ensures b.Valid() && old(b.inPos) <= b.inPos
      ensures Ends(IndexBytes(old(Look([])), Known(), b.input[old(b.inPos)..b.inPos]), ret, b)
    {
      hide FooterOk, HashAll;
      ghost var s := Look([]);
      var done := FillTemp(b);
      ghost var data := b.input[old(b.inPos)..b.inPos];
      if done {
        FooterTaken(s, Known(), data);
        FooterEnds(s, Known(), data);
        ret := DecStreamFooter();
      } else {
        FooterPart(s, Known(), data);
        ret := XzOk;
      }
    }

    // What an answer of the decoder says about where the one that takes byte by byte is.
    ghost predicate Ends(s: Index, ret: XzRet, b: XzBuf)
      reads this, temp, b
    {
      match ret
      case XzOk => Valid() && s == Look([]) && b.inPos == |b.input|
      case XzStreamEnd => s.phase == Accepted
      case XzDataError => s.phase == Rejected
    }

    ghost predicate Tables()
      reads this
    {
      temp.Length == 1024 && blockCount == |records| && blockHash == HashAll(NO_HASH, records)
    }

    // Goes through the Index and the footer as far as the input reaches. In every case the
    // decoder that takes byte by byte is in the same place.
    method DecMain(b: XzBuf) returns (ret: XzRet)
      requires Valid() && b.Valid()
      requires sequence == SeqBlockStart && b.inPos < |b.input| ==> b.input[b.inPos] == 0
      modifies this`sequence, this`pos, this`vli, this`inStart, this`crc, this`indexSequence, this`indexSize, this`indexCount
      modifies this`indexHash, this`tempPos, this`tempSize, temp, b`inPos
      ensures b.Valid() && old(b.inPos) <= b.inPos
      ensures Ends(IndexBytes(old(Look([])), Known(), b.input[old(b.inPos)..b.inPos]), ret, b)
    {
      hide Crc, IndexBytes, HashAll, BetweenFields, Settle, Grown;
      ghost var from, s0, known := b.inPos, Look([]), Known();
      inStart := b.inPos;
      assert b.input[from..from] == [];
      if sequence == SeqBlockStart {
        if b.inPos == |b.input| {
          IndexNone(s0, known);
          return XzOk;
        }
        b.inPos := b.inPos + 1;
        sequence := SeqIndex;
        assert b.input[from..b.inPos] == [0];
        AfterIndicator(known);
      } else {
        IndexNone(s0, known);
      }
      ghost var at := b.inPos;
      ret := DecMainIndex(b);
      Further(s0, known, b.input, from, at, b.inPos);
    }

    // The loop from the Index on; inStart is where this call's part of the Index begins.
    method DecMainIndex(b: XzBuf) returns (ret: XzRet)
      requires Valid() && b.Valid() && sequence != SeqBlockStart && inStart <= b.inPos
      requires sequence != SeqIndex ==> inStart == b.inPos
      modifies this`sequence, this`pos, this`vli, this`crc, this`indexSequence, this`indexSize, this`indexCount
      modifies this`indexHash, this`tempPos, this`tempSize, temp, b`inPos
      ensures b.Valid() && old(b.inPos) <= b.inPos
      ensures Ends(IndexBytes(old(Look(b.input[inStart..b.inPos])), Known(), b.input[old(b.inPos)..b.inPos]), ret, b)
    {
      hide Crc, IndexBytes, HashAll, BetweenFields, Settle, Grown, Ends;
      ghost var from, s0, known := b.inPos, Look(b.input[inStart..b.inPos]), Known();
      assert b.input[from..from] == [];
      IndexNone(s0, known);
      if sequence == SeqIndex {
        ret := DecIndex(b);
        if !ret.XzStreamEnd? {
          EndsInIndex(IndexBytes(s0, known, b.input[from..b.inPos]), ret, b);
          return;
        }
        BetweenPadding(IndexBytes(s0, known, b.input[from..b.inPos]), b.input[inStart..b.inPos]);
        sequence := SeqIndexPadding;
      } else {
        assert b.input[inStart..b.inPos] == [];
        SettlePlain(s0, known);
      }
      ghost var at := b.inPos;
      ret := DecMainBehind(b, IndexBytes(s0, known, b.input[from..at]));
      Further(s0, known, b.input, from, at, b.inPos);
    }

    lemma EndsInIndex(s: Index, ret: XzRet, b: XzBuf)
      requires ret.XzOk? ==> Valid() && s == Look([]) && b.inPos == |b.input|
      requires ret.XzDataError? ==> s.phase == Rejected
      requires !ret.XzStreamEnd?
      ensures Ends(s, ret, b)
    {
      hide Valid, Look;
    }

    // The padding and what comes after it.
    method DecMainBehind(b: XzBuf, ghost s: Index) returns (ret: XzRet)
      requires b.Valid() && Tables()
      requires if sequence == SeqIndexPadding then
                 && inStart <= b.inPos && pos == 0 && indexCount == 0 && tempPos == 0 && InField(indexSequence)
                 && s == Settle(Look(b.input[inStart..b.inPos]), Known())
               else Valid() && (sequence == SeqIndexCrc32 || sequence == SeqStreamFooter) && s == Look([])
      modifies this`sequence, this`pos, this`crc, this`indexSize, this`tempPos, this`tempSize, temp, b`inPos
      ensures b.Valid() && old(b.inPos) <= b.inPos
      ensures Ends(IndexBytes(s, Known(), b.input[old(b.inPos)..b.inPos]), ret, b)
    {
      hide Crc, IndexBytes, HashAll, BetweenFields, Settle, Grown, Ends, InField;
      ghost var from, known := b.inPos, Known();
      if sequence == SeqIndexPadding {
        ret := IndexPadding(b);
        if !ret.XzStreamEnd? {
          EndsInIndex(IndexBytes(s, known, b.input[from..b.inPos]), ret, b);
          return;
        }
      } else {
        assert b.input[from..from] == [];
        IndexNone(s, known);
      }
      ghost var at := b.inPos;
      ret := DecMainEnd(b);
      Further(s, known, b.input, from, at, b.inPos);
    }

    // The part of the loop behind the padding.
    method DecMainEnd(b: XzBuf) returns (ret: XzRet)
      requires Valid() && b.Valid() && (sequence == SeqIndexCrc32 || sequence == SeqStreamFooter)
      modifies this`sequence, this`pos, this`crc, this`tempPos, this`tempSize, temp, b`inPos
      ensures b.Valid() && old(b.inPos) <= b.inPos
      ensures Ends(IndexBytes(old(Look([])), Known(), b.input[old(b.inPos)..b.inPos]), ret, b)
    {
      hide Crc, IndexBytes, HashAll;
      ghost var from, s0, known := b.inPos, Look([]), Known();
      assert b.input[from..from] == [];
      IndexNone(s0, known);
      if sequence == SeqIndexCrc32 {
        ret := CrcValidate(b);
        if !ret.XzStreamEnd? {
          return;
        }
        tempSize := 12;
        sequence := SeqStreamFooter;
      }
      ghost var at := b.inPos;
      ret := Footing(b);
      Further(s0, known, b.input, from, at, b.inPos);
    }

    lemma BetweenPadding(s: Index, used: seq<byte>)
      requires BetweenFields(s, used) && indexCount == 0 && tempPos <= temp.Length
      ensures InField(indexSequence) && pos == 0
      ensures s == Settle(Index(Padding, 0, 0, indexSize + |used|, Crc(used, crc), 0, indexHash, []), Known())
    {
      hide Crc, Settle, HashAll;
    }
  }

  lemma Further(s: Index, blocks: Blocks, input: seq<byte>, from: nat, at: nat, to: nat)
    requires from <= at <= to <= |input|
    ensures IndexBytes(s, blocks, input[from..to]) == IndexBytes(IndexBytes(s, blocks, input[from..at]), blocks, input[at..to])
  {
    hide IndexBytes;
    SliceJoin(input, from, at, to);
    IndexSplits(s, blocks, input[from..at], input[at..to]);
  }

  // After pos bits of the CRC32; after all of them the footer comes.
  ghost function AfterCrc(pos: nat, size: nat, crc: Checksum, hash: Hash): Index {
    var s := Index(CheckCrc, pos, 0, size, crc, 0, hash, []);
    if pos < 32 then s else AtFooter(s)
  }

  lemma CrcRound(s0: Index, blocks: Blocks, input: seq<byte>, from: nat, at: nat, pos: nat, size: nat, crc: Checksum, hash: Hash)
    requires from <= at < |input| && pos in {0, 8, 16, 24}
    requires IndexBytes(s0, blocks, input[from..at]) == AfterCrc(pos, size, crc, hash)
    ensures var s := IndexBytes(s0, blocks, input[from..at + 1]);
            if CrcByte(crc, pos / 8) != input[at] then s.phase == Rejected else s == AfterCrc(pos + 8, size, crc, hash)
  {
    hide CrcByte;
    OneByteSlice(input, at);
    Further(s0, blocks, input, from, at, at + 1);
    assert [input[at]][1..] == [];
  }

  // In the padding, when the bytes used are not accounted for yet.
  ghost function InPadding(used: seq<byte>, size: nat, crc: Checksum, hash: Hash): Index {
    Index(Padding, 0, 0, size + |used|, Crc(used, crc), 0, hash, [])
  }

  lemma PaddingRound(s0: Index, blocks: Blocks, input: seq<byte>, from: nat, start: nat, at: nat, size: nat, crc: Checksum, hash: Hash)
    requires from <= at < |input| && start <= at && (size + (at - start)) % 4 != 0
    requires IndexBytes(s0, blocks, input[from..at]) == Settle(InPadding(input[start..at], size, crc, hash), blocks)
    ensures var s := IndexBytes(s0, blocks, input[from..at + 1]);
            if input[at] == 0 then s == Settle(InPadding(input[start..at + 1], size, crc, hash), blocks) else s.phase == Rejected
  {
    hide Crc, IndexBytes, Settle;
    var p := InPadding(input[start..at], size, crc, hash);
    OneByteSlice(input, at);
    Further(s0, blocks, input, from, at, at + 1);
    PaddingByte(p, blocks, input[at]);
    SliceJoin(input, start, at, at + 1);
    CrcSplits(input[start..at], [input[at]], crc);
    assert InPadding(input[start..at + 1], size, crc, hash) == Grown(p, [input[at]]);
  }

  lemma PaddingByte(s: Index, blocks: Blocks, x: byte)
    requires s.phase == Padding && s.size % 4 != 0
    ensures var t := IndexBytes(Settle(s, blocks), blocks, [x]);
            if x == 0 then t == Settle(Grown(s, [x]), blocks) else t.phase == Rejected
  {
    hide Crc;
    assert [x][1..] == [];
  }

  lemma SettleWhole(s: Index, blocks: Blocks)
    requires s.phase == Padding && s.size % 4 == 0
    ensures Settle(s, blocks) == if s.hash == blocks.hash then s.(phase := CheckCrc, pos := 0) else s.(phase := Rejected)
  {
  }

  lemma SettlePlain(s: Index, blocks: Blocks)
    ensures s.phase != Padding || s.size % 4 != 0 ==> Settle(s, blocks) == s
  {
  }

  lemma AfterIndicator(blocks: Blocks)
    ensures IndexBytes(BeforeIndex(), blocks, [0]) == StartIndex()
  {
    hide Crc;
  }

  lemma {:induction false} FooterPart(s: Index, blocks: Blocks, data: seq<byte>)
    requires s.phase == Footer && |s.temp| + |data| < 12
    ensures IndexBytes(s, blocks, data) == s.(temp := s.temp + data)
    decreases |data|
  {
    if data == [] {
      assert s.temp + [] == s.temp;
    } else {
      FooterPart(s.(temp := s.temp + [data[0]]), blocks, data[1..]);
      assert s.temp + [data[0]] + data[1..] == s.temp + data;
    }
  }

  lemma FooterEnds(s: Index, blocks: Blocks, data: seq<byte>)
    requires s.phase == Footer && |s.temp| + |data| == 12 && data != []
    ensures IndexBytes(s, blocks, data).phase in {Accepted, Rejected}
  {
    hide FooterOk;
    var n := |data| - 1;
    assert data == data[..n] + [data[n]];
    FooterPart(s, blocks, data[..n]);
    IndexSplits(s, blocks, data[..n], [data[n]]);
  }

  lemma FieldDoneAt(s: Index, blocks: Blocks, n: nat)
    requires InField(s.phase)
    ensures FieldDone(s, blocks, n) == FieldDone(s.(pos := 0, vli := 0), blocks, n)
  {
    hide Crc, HashBytes;
  }

  lemma VliStart(data: seq<byte>, pos: nat, value: nat)
    requires data == []
    ensures VliBytes(pos, value, data) == VliMore(pos, value)
  {
  }

  // One more byte, all cases.
  lemma VliRound(p0: nat, v0: nat, data: seq<byte>, x: nat, pos: nat, vli: nat)
    requires x < 0x100 && VliBytes(p0, v0, data) == VliMore(pos, vli) && OnTheWay(pos)
    ensures var v := vli + Placed(x % 0x80, pos);
            if x < 0x80 then
              if x == 0 && pos != 0 then Overflows(p0, v0, data + [x]) else VliBytes(p0, v0, data + [x]) == VliDone(v)
            else if pos + 7 == 7 * VLI_BYTES_MAX then Overflows(p0, v0, data + [x])
            else OnTheWay(pos + 7) && VliBytes(p0, v0, data + [x]) == VliMore(pos + 7, v)
  {
    hide Placed, VliBytes;
    VliStep(p0, v0, data, x);
    assert (data + [x])[..|data|] == data && (data + [x])[|data|] == x;
  }

  lemma OneByteMore(input: seq<byte>, from: nat, at: nat)
    requires from <= at < |input|
    ensures var data := input[from..at + 1];
            data == input[from..at] + [input[at]] && data != [] && data[|data| - 1] == input[at] && data[..|data| - 1] == input[from..at]
  {
  }

  lemma VliNone(pos: nat, value: nat)
    ensures VliBytes(pos, value, []).VliMore?
  {
  }

  lemma SettleOther(s: Index, blocks: Blocks)
    ensures InField(s.phase) || s.phase == Rejected ==> Settle(s, blocks) == s
  {
  }

  lemma IndexNone(s: Index, blocks: Blocks)
    ensures IndexBytes(s, blocks, []) == s
  {
  }

  // The last byte of data is one that no integer can go on with.
  predicate Overflows(pos: nat, value: nat, data: seq<byte>) {
    && data != []
    && var r := VliBytes(pos, value, data[..|data| - 1]);
    && r.VliMore? && VliByte(r.pos, r.value, data[|data| - 1]).VliBad?
  }
}
