// One LZMA symbol: a literal byte or a repeat of earlier output, decoded from the range coder.
module LzmaSymbols {
  import opened Words
  import opened RangeCoder

  const STATES := 12
  const LIT_STATES := 7
  const MATCH_LEN_MIN := 2
  const DIST_SLOTS := 64

  // Offsets of the probability tables in the decoder's structure.
  const IS_MATCH := 0
  const IS_REP := 192
  const IS_REP0 := 204
  const IS_REP1 := 216
  const IS_REP2 := 228
  const IS_REP0_LONG := 240
  const DIST_SLOT := 432
  const DIST_SPECIAL := 688
  const DIST_ALIGN := 802
  const MATCH_LEN := 818
  const REP_LEN := 1332
  const LITERAL := 1846
  const LITERAL_CODER_SIZE := 0x300

  // The stream's properties: literal context bits, literal position bits, position bits.
  datatype Props = Props(lc: nat, lp: nat, pb: nat)

  ghost predicate ValidProps(p: Props) {
    p.lc + p.lp <= 4 && p.pb <= 4
  }

  datatype Lzma = Lzma(c: Coder, state: nat, rep0: u32, rep1: u32, rep2: u32, rep3: u32)

  datatype Symbol = Literal(b: byte) | Repeat(len: nat)

  ghost predicate Good(z: Lzma) {
    Sound(z.c) && z.state < STATES
  }

  /* ---- The history ---- */

  // The byte at the given distance before the end of the history; 0 where there is none.
  function HistoryByte(h: seq<byte>, dist: nat): byte {
    if dist < |h| then h[|h| - 1 - dist] else 0
  }

  // len more bytes, each the byte dist + 1 places before it: copies may overlap themselves.
  function RepeatFrom(h: seq<byte>, dist: nat, len: nat): (r: seq<byte>)
    requires dist < |h|
    ensures |r| == |h| + len && h <= r
    decreases len
  {
    if len == 0 then h else RepeatFrom(h + [HistoryByte(h, dist)], dist, len - 1)
  }

  /* ---- State transitions ---- */

  function AfterLiteral(state: nat): nat
  {
    if state <= 3 then 0 else if state <= 9 then state - 3 else state - 6
  }

  function AfterMatch(state: nat): nat {
    if state < LIT_STATES then 7 else 10
  }

  function AfterLongRep(state: nat): nat {
    if state < LIT_STATES then 8 else 11
  }

  function AfterShortRep(state: nat): nat {
    if state < LIT_STATES then 9 else 11
  }

  /* ---- Literals ---- */

  function LiteralCoder(prevByte: byte, position: nat, lc: nat): int
    requires lc <= 8
  {
    prevByte / Pow2(8 - lc) + position * Pow2(lc)
  }

  function LiteralBase(p: Props, h: seq<byte>): (r: nat)
    requires ValidProps(p)
    ensures LITERAL <= r && r + LITERAL_CODER_SIZE <= PROBS_TOTAL
  {
    LiteralCoders(p, HistoryByte(h, 0), |h|);
    LITERAL + LITERAL_CODER_SIZE * LiteralCoder(HistoryByte(h, 0), |h| % Pow2(p.lp), p.lc)
  }

  lemma PowersTable()
    ensures Pow2(0) == 1 && Pow2(1) == 2 && Pow2(2) == 4 && Pow2(3) == 8 && Pow2(4) == 16
    ensures Pow2(5) == 32 && Pow2(6) == 64 && Pow2(7) == 128 && Pow2(8) == 256 && Pow2(9) == 512
  {
    assert Pow2(3) == 8;
    assert Pow2(6) == 64;
  }

  lemma LiteralCoders(p: Props, prev: byte, n: nat)
    requires ValidProps(p)
    ensures 0 <= LiteralCoder(prev, n % Pow2(p.lp), p.lc) < 16
  {
    PowersTable();
    if p.lc == 0 {} else if p.lc == 1 {} else if p.lc == 2 {} else if p.lc == 3 {} else {}
    if p.lp == 0 {} else if p.lp == 1 {} else if p.lp == 2 {} else if p.lp == 3 {} else {}
  }

  // match_byte & offset, where offset is 0x100 or 0.
  function MatchBit(matchByte: nat, offset: nat): (r: nat)
    ensures r == 0 || r == offset
  {
    if offset == 0x100 then matchByte / 0x100 % 2 * 0x100 else 0
  }

  // The first symbol with count bits to come, on the way from 1 to eight more bits.
  function FirstSymbol(count: nat): nat {
    if count == 8 then 1 else if count == 7 then 2 else if count == 6 then 4
    else if count == 5 then 8 else if count == 4 then 16 else if count == 3 then 32
    else if count == 2 then 64 else if count == 1 then 128 else 256
  }

  // Eight bits that start from symbol 1 end in 0x100..0x1FF, and stay below that on the way.
  ghost predicate ByteBits(symbol: nat, count: nat) {
    count <= 8 && FirstSymbol(count) <= symbol < 2 * FirstSymbol(count)
  }

  // A literal decoder in the middle of a matched literal.
  ghost predicate MatchedFits(base: nat, symbol: nat, offset: nat, count: nat) {
    base + LITERAL_CODER_SIZE <= PROBS_TOTAL && ByteBits(symbol, count) && (offset == 0 || offset == 0x100)
  }

  function NextOffset(offset: nat, matchBit: nat, bit: bool): nat
    requires matchBit <= offset
  {
    if bit then matchBit else offset - matchBit
  }

  lemma MatchedFitsStart(base: nat)
    requires base + LITERAL_CODER_SIZE <= PROBS_TOTAL
    ensures MatchedFits(base, 1, 0x100, 8)
  {
  }

  lemma MatchedFitsStep(base: nat, symbol: nat, offset: nat, matchBit: nat, count: nat)
    requires MatchedFits(base, symbol, offset, count) && (matchBit == 0 || matchBit == offset)
    ensures count > 0 ==>
              && symbol < 0x100 && base + offset + matchBit + symbol < PROBS_TOTAL
              && MatchedFits(base, 2 * symbol, NextOffset(offset, matchBit, false), count - 1)
              && MatchedFits(base, 2 * symbol + 1, NextOffset(offset, matchBit, true), count - 1)
    ensures count == 0 ==> 0x100 <= symbol < 0x200
  {
  }

  lemma DecodeMatchedStep(c: Coder, base: nat, symbol: nat, matchByte: nat, offset: nat, count: nat, input: seq<byte>)
    requires Sound(c) && MatchedFits(base, symbol, offset, count) && 0 < count
    ensures var matchBit := MatchBit(matchByte, offset);
            && base + offset + matchBit + symbol < PROBS_TOTAL
            && var (c1, bit) := DecodeBit(c, base + offset + matchBit + symbol, input);
            && MatchedFits(base, 2 * symbol + BitValue(bit), NextOffset(offset, matchBit, bit), count - 1)
            && c1.pos <= DecodeMatched(c, base, symbol, matchByte, offset, count, input).0.pos
            && DecodeMatched(c, base, symbol, matchByte, offset, count, input)
               == DecodeMatched(c1, base, 2 * symbol + BitValue(bit), 2 * matchByte, NextOffset(offset, matchBit, bit), count - 1, input)
  {
    hide MatchBit, DecodeBit, MatchedFits, NextOffset;
    MatchedFitsStep(base, symbol, offset, MatchBit(matchByte, offset), count);
  }

  lemma DecodeMatchedEnd(c: Coder, base: nat, symbol: nat, matchByte: nat, offset: nat, input: seq<byte>)
    requires Sound(c)
    ensures MatchedFits(base, symbol, offset, 0) ==> DecodeMatched(c, base, symbol, matchByte, offset, 0, input) == (c, symbol)
  {
  }

  lemma MatchedFitsEnd(base: nat, symbol: nat, offset: nat, count: nat)
    requires MatchedFits(base, symbol, offset, count)
    ensures 0x100 <= symbol <==> count == 0
  {
  }

  // A literal after a match: the byte at distance rep0 picks between two probability trees
  // until the decoded bits first differ from it.
  function DecodeMatched(c: Coder, base: nat, symbol: nat, matchByte: nat, offset: nat, count: nat, input: seq<byte>): (r: (Coder, nat))
    requires Sound(c) && MatchedFits(base, symbol, offset, count)
    ensures Sound(r.0) && c.pos <= r.0.pos && 0x100 <= r.1 < 0x200
    decreases count
  {
    hide MatchBit, DecodeBit, MatchedFits, NextOffset;
    var matchBit := MatchBit(matchByte, offset);
    MatchedFitsStep(base, symbol, offset, matchBit, count);
    if count == 0 then
      (c, symbol)
    else
      var (c1, bit) := DecodeBit(c, base + offset + matchBit + symbol, input);
      DecodeMatched(c1, base, 2 * symbol + BitValue(bit), 2 * matchByte,
                    NextOffset(offset, matchBit, bit), count - 1, input)
  }

  lemma LiteralFits(base: nat)
    requires base + LITERAL_CODER_SIZE <= PROBS_TOTAL
    ensures TreeFits(base, 1, 8) && MatchedFits(base, 1, 0x100, 8)
  {
    hide TreeFits;
    PowersTable();
    TreeFitsWithin(base, 1, 8);
    MatchedFitsStart(base);
  }

  function DecodeLiteral(z: Lzma, p: Props, h: seq<byte>, input: seq<byte>): (r: (Lzma, byte))
    requires Good(z) && ValidProps(p)
    ensures Good(r.0) && z.c.pos <= r.0.c.pos
    ensures r.0.state < LIT_STATES
  {
    hide TreeFits, MatchedFits, DecodeTree, DecodeMatched;
    var base := LiteralBase(p, h);
    LiteralFits(base);
    var (c, symbol) :=
      if z.state < LIT_STATES then
        DecodeTree(z.c, base, 1, 8, input)
      else
        DecodeMatched(z.c, base, 1, 2 * HistoryByte(h, z.rep0), 0x100, 8, input);
    (z.(c := c, state := AfterLiteral(z.state)), symbol % 0x100)
  }

  /* ---- Lengths and distances ---- */

  function DecodeLen(c: Coder, base: nat, posState: nat, input: seq<byte>): (r: (Coder, nat))
    requires Sound(c) && base + 514 <= PROBS_TOTAL && posState < 16
    ensures Sound(r.0) && c.pos <= r.0.pos && 2 <= r.1 <= 273
  {
    hide TreeFits, DecodeTree, DecodeReverseTree, DecodeDirect, DecodeBit;
    PowersTable();
    var (c1, choice) := DecodeBit(c, base, input);
    if !choice then
      var low := base + 2 + 8 * posState;
      TreeFitsWithin(low, 1, 3);
      DecodeTreeRange(c1, low, 1, 3, input);
      var (c2, symbol) := DecodeTree(c1, low, 1, 3, input);
      (c2, MATCH_LEN_MIN + symbol - 8)
    else
      var (c2, choice2) := DecodeBit(c1, base + 1, input);
      if !choice2 then
        var mid := base + 130 + 8 * posState;
        TreeFitsWithin(mid, 1, 3);
        DecodeTreeRange(c2, mid, 1, 3, input);
        var (c3, symbol) := DecodeTree(c2, mid, 1, 3, input);
        (c3, MATCH_LEN_MIN + 8 + symbol - 8)
      else
        var high := base + 258;
        TreeFitsWithin(high, 1, 8);
        DecodeTreeRange(c2, high, 1, 8, input);
        var (c3, symbol) := DecodeTree(c2, high, 1, 8, input);
        (c3, MATCH_LEN_MIN + 16 + symbol - 256)
  }

  function DistState(len: nat): (r: nat)
    requires MATCH_LEN_MIN <= len
    ensures r < 4
  {
    if len < 6 then len - MATCH_LEN_MIN else 3
  }

  // The low bits of a distance in slot 4..13 come from one of ten small trees.
  lemma SpecialFits(slot: nat)
    requires 4 <= slot < 14
    ensures var count := slot / 2 - 1;
            var dist := (2 + slot % 2) * Pow2(count);
            && TreeFits(DIST_SPECIAL + dist - slot - 1, 1, count)
            && dist + Pow2(count) <= 128
  {
    PowersTable();
    var count := slot / 2 - 1;
    assert Pow2(count) == 2 * Pow2(count - 1);
    if count == 1 {} else if count == 2 {} else if count == 3 {} else if count == 4 {} else {}
    TreeFitsWithin(DIST_SPECIAL + (2 + slot % 2) * Pow2(count) - slot - 1, 1, count);
  }

  // Slots 4 to 13: every low bit is modelled.
  function DecodeShortDistance(c: Coder, slot: nat, input: seq<byte>): (r: (Coder, u32))
    requires Sound(c) && 4 <= slot < 14
    ensures Sound(r.0) && c.pos <= r.0.pos
  {
    hide TreeFits, DecodeTree, DecodeReverseTree, DecodeDirect, DecodeBit;
    var count := slot / 2 - 1;
    var dist := (2 + slot % 2) * Pow2(count);
    SpecialFits(slot);
    var base := DIST_SPECIAL + dist - slot - 1;
    DecodeReverseTreeRange(c, base, 1, 0, count, input);
    var (c1, low) := DecodeReverseTree(c, base, 1, 0, count, input);
    (c1, dist + low)
  }

  // Slots from 14: direct bits, then four modelled ones.
  function DecodeLongDistance(c: Coder, slot: nat, input: seq<byte>): (r: (Coder, u32))
    requires Sound(c) && 14 <= slot < DIST_SLOTS
    ensures Sound(r.0) && c.pos <= r.0.pos
  {
    hide TreeFits, DecodeTree, DecodeReverseTree, DecodeDirect, DecodeBit;
    var count := slot / 2 - 5;
    DirectFits(c, 2 + slot % 2, count, input);
    var (c1, high) := DecodeDirect(c, 2 + slot % 2, count, input);
    AlignFits();
    DecodeReverseTreeRange(c1, DIST_ALIGN, 1, 0, 4, input);
    var (c2, low) := DecodeReverseTree(c1, DIST_ALIGN, 1, 0, 4, input);
    (c2, 16 * high + low)
  }

  // The bits of a distance below the two that the slot gives.
  function DecodeDistance(c: Coder, slot: nat, input: seq<byte>): (r: (Coder, u32))
    requires Sound(c) && slot < DIST_SLOTS
    ensures Sound(r.0) && c.pos <= r.0.pos
  {
    if slot < 4 then (c, slot)
    else if slot < 14 then DecodeShortDistance(c, slot, input)
    else DecodeLongDistance(c, slot, input)
  }

  lemma AlignFits()
    ensures TreeFits(DIST_ALIGN, 1, 4) && Pow2(0) == 1 && Pow2(0 + 4) == 16
  {
    PowersTable();
    TreeFitsWithin(DIST_ALIGN, 1, 4);
  }

  lemma DirectFits(c: Coder, top: nat, count: nat, input: seq<byte>)
    requires Sound(c) && top < 4 && count <= 26
    ensures 0 <= DecodeDirect(c, top, count, input).1 < 0x1000_0000
  {
    DecodeDirectRange(c, top, count, input);
    Pow2Monotone(count, 26);
    PowersTable();
    Pow2Add(9, 9);
    Pow2Add(18, 8);
    MulMonotone(Pow2(count), top + 1, 4);
  }

  /* ---- Symbols ---- */

  function DecodeMatch(z: Lzma, posState: nat, input: seq<byte>): (r: (Lzma, nat))
    requires Good(z) && posState < 16
    ensures Good(r.0) && z.c.pos <= r.0.c.pos && 2 <= r.1 <= 273
    ensures LIT_STATES <= r.0.state
  {
    hide TreeFits, DecodeTree, DecodeDistance, DecodeLen;
    var (c1, len) := DecodeLen(z.c, MATCH_LEN, posState, input);
    SlotFits(c1, DIST_SLOT + 64 * DistState(len), input);
    var (c2, symbol) := DecodeTree(c1, DIST_SLOT + 64 * DistState(len), 1, 6, input);
    var (c3, dist) := DecodeDistance(c2, symbol - DIST_SLOTS, input);
    (Lzma(c3, AfterMatch(z.state), dist, z.rep0, z.rep1, z.rep2), len)
  }

  lemma SlotFits(c: Coder, base: nat, input: seq<byte>)
    requires Sound(c) && base + 64 <= PROBS_TOTAL
    ensures TreeFits(base, 1, 6)
    ensures 64 <= DecodeTree(c, base, 1, 6, input).1 < 128
  {
    PowersTable();
    TreeFitsWithin(base, 1, 6);
    DecodeTreeRange(c, base, 1, 6, input);
  }

  // Which of the four last distances is repeated, and the order they are left in.
  function DecodeWhichRep(z: Lzma, posState: nat, input: seq<byte>): (r: (Lzma, bool))
    requires Good(z) && posState < 16
    ensures Good(r.0) && z.c.pos <= r.0.c.pos && r.0.state == z.state
  {
    hide DecodeBit;
    var (c1, notRep0) := DecodeBit(z.c, IS_REP0 + z.state, input);
    if !notRep0 then
      var (c2, long) := DecodeBit(c1, IS_REP0_LONG + 16 * z.state + posState, input);
      (z.(c := c2), !long)
    else
      var (c2, notRep1) := DecodeBit(c1, IS_REP1 + z.state, input);
      if !notRep1 then
        (z.(c := c2, rep0 := z.rep1, rep1 := z.rep0), false)
      else
        var (c3, notRep2) := DecodeBit(c2, IS_REP2 + z.state, input);
        if !notRep2 then
          (z.(c := c3, rep0 := z.rep2, rep1 := z.rep0, rep2 := z.rep1), false)
        else
          (z.(c := c3, rep0 := z.rep3, rep1 := z.rep0, rep2 := z.rep1, rep3 := z.rep2), false)
  }

  function DecodeRepMatch(z: Lzma, posState: nat, input: seq<byte>): (r: (Lzma, nat))
    requires Good(z) && posState < 16
    ensures Good(r.0) && z.c.pos <= r.0.c.pos && 1 <= r.1 <= 273
    ensures LIT_STATES <= r.0.state
  {
    hide DecodeWhichRep, DecodeLen;
    var (z1, short) := DecodeWhichRep(z, posState, input);
    if short then
      (z1.(state := AfterShortRep(z1.state)), 1)
    else
      var (c, len) := DecodeLen(z1.c, REP_LEN, posState, input);
      (z1.(c := c, state := AfterLongRep(z1.state)), len)
  }

  function PosState(p: Props, h: seq<byte>): (r: nat)
    requires ValidProps(p)
    ensures r < 16
  {
    PowersTable();
    Pow2Monotone(p.pb, 4);
    |h| % Pow2(p.pb)
  }

  // Anything but a literal: a match, or a repeat of one of the last four distances.
  function DecodeRepeat(z: Lzma, posState: nat, input: seq<byte>): (r: (Lzma, nat))
    requires Good(z) && posState < 16
    ensures Good(r.0) && z.c.pos <= r.0.c.pos && 1 <= r.1 <= 273
    ensures LIT_STATES <= r.0.state
  {
    hide DecodeBit, DecodeRepMatch, DecodeMatch;
    var (c, isRep) := DecodeBit(z.c, IS_REP + z.state, input);
    if isRep then DecodeRepMatch(z.(c := c), posState, input)
    else DecodeMatch(z.(c := c), posState, input)
  }

  function DecodeSymbol(z: Lzma, p: Props, h: seq<byte>, input: seq<byte>): (r: (Lzma, Symbol))
    requires Good(z) && ValidProps(p)
    ensures Good(r.0) && z.c.pos <= r.0.c.pos
    ensures r.1.Repeat? ==> 1 <= r.1.len <= 273 && LIT_STATES <= r.0.state
  {
    hide DecodeBit, DecodeLiteral, DecodeRepeat;
    var posState := PosState(p, h);
    var (c1, isMatch) := DecodeBit(z.c, IS_MATCH + 16 * z.state + posState, input);
    if !isMatch then
      var (z1, b) := DecodeLiteral(z.(c := c1), p, h, input);
      (z1, Literal(b))
    else
      var (z1, len) := DecodeRepeat(z.(c := c1), posState, input);
      (z1, Repeat(len))
  }
}
