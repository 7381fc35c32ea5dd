// A symbol depends only on the input bytes it consumes, and consumes at most 20 of them.
module LzmaLocality {
  import opened Words
  import opened RangeCoder
  import opened LzmaSymbols

  function ShiftBy(z: Lzma, delta: int): Lzma
    requires 0 <= z.c.pos + delta
  {
    z.(c := Shift(z.c, delta))
  }

  // As RangeCoder.SameUpTo, for the whole LZMA state.
  ghost predicate SameSymbol(r: Lzma, s: Lzma, delta: int, hi: int) {
    && 0 <= r.c.pos + delta
    && (if r.c.pos <= hi then s == ShiftBy(r, delta) else hi + delta < s.c.pos)
  }

  /* ---- Only the consumed bytes matter ---- */

  lemma {:induction false} DecodeMatchedLocal(c: Coder, base: nat, symbol: nat, matchByte: nat, offset: nat, count: nat,
                                              a: seq<byte>, b: seq<byte>, delta: int, hi: int)
    requires Sound(c) && MatchedFits(base, symbol, offset, count)
    requires 0 <= c.pos + delta && Agree(a, b, delta, c.pos, hi)
    ensures SameUpTo(DecodeMatched(c, base, symbol, matchByte, offset, count, a).0,
                     DecodeMatched(Shift(c, delta), base, symbol, matchByte, offset, count, b).0, delta, hi)
    ensures DecodeMatched(c, base, symbol, matchByte, offset, count, a).0.pos <= hi ==>
              DecodeMatched(c, base, symbol, matchByte, offset, count, a).1
              == DecodeMatched(Shift(c, delta), base, symbol, matchByte, offset, count, b).1
    decreases count
  {
    hide DecodeBit, MatchBit, MatchedFits, NextOffset;
    var matchBit := MatchBit(matchByte, offset);
    MatchedFitsStep(base, symbol, offset, matchBit, count);
    if count > 0 {
      DecodeBitLocal(c, base + offset + matchBit + symbol, a, b, delta, hi);
      var (c1, bit) := DecodeBit(c, base + offset + matchBit + symbol, a);
      if c1.pos <= hi {
        DecodeMatchedLocal(c1, base, 2 * symbol + BitValue(bit), 2 * matchByte,
                           NextOffset(offset, matchBit, bit), count - 1, a, b, delta, hi);
      }
    }
  }

  lemma DecodeLiteralLocal(z: Lzma, p: Props, h: seq<byte>, a: seq<byte>, b: seq<byte>, delta: int, hi: int)
    requires Good(z) && ValidProps(p) && 0 <= z.c.pos + delta && Agree(a, b, delta, z.c.pos, hi)
    ensures SameSymbol(DecodeLiteral(z, p, h, a).0, DecodeLiteral(ShiftBy(z, delta), p, h, b).0, delta, hi)
    ensures DecodeLiteral(z, p, h, a).0.c.pos <= hi ==>
              DecodeLiteral(z, p, h, a).1 == DecodeLiteral(ShiftBy(z, delta), p, h, b).1
  {
    hide TreeFits, MatchedFits, DecodeTree, DecodeMatched, LiteralBase;
    var base := LiteralBase(p, h);
    LiteralFits(base);
    if z.state < LIT_STATES {
      DecodeTreeLocal(z.c, base, 1, 8, a, b, delta, hi);
    } else {
      DecodeMatchedLocal(z.c, base, 1, 2 * HistoryByte(h, z.rep0), 0x100, 8, a, b, delta, hi);
    }
  }

  lemma DecodeLenLocal(c: Coder, base: nat, posState: nat, a: seq<byte>, b: seq<byte>, delta: int, hi: int)
    requires Sound(c) && base + 514 <= PROBS_TOTAL && posState < 16
    requires 0 <= c.pos + delta && Agree(a, b, delta, c.pos, hi)
    ensures SameUpTo(DecodeLen(c, base, posState, a).0, DecodeLen(Shift(c, delta), base, posState, b).0, delta, hi)
    ensures DecodeLen(c, base, posState, a).0.pos <= hi ==>
              DecodeLen(c, base, posState, a).1 == DecodeLen(Shift(c, delta), base, posState, b).1
  {
    hide TreeFits, DecodeTree, DecodeBit;
    PowersTable();
    TreeFitsWithin(base + 2 + 8 * posState, 1, 3);
    TreeFitsWithin(base + 130 + 8 * posState, 1, 3);
    TreeFitsWithin(base + 258, 1, 8);
    DecodeBitLocal(c, base, a, b, delta, hi);
    var (c1, choice) := DecodeBit(c, base, a);
    if c1.pos <= hi {
      if !choice {
        DecodeTreeLocal(c1, base + 2 + 8 * posState, 1, 3, a, b, delta, hi);
      } else {
        DecodeBitLocal(c1, base + 1, a, b, delta, hi);
        var (c2, choice2) := DecodeBit(c1, base + 1, a);
        if c2.pos <= hi {
          if !choice2 {
            DecodeTreeLocal(c2, base + 130 + 8 * posState, 1, 3, a, b, delta, hi);
          } else {
            DecodeTreeLocal(c2, base + 258, 1, 8, a, b, delta, hi);
          }
        }
      }
    }
  }

  lemma DecodeDistanceLocal(c: Coder, slot: nat, a: seq<byte>, b: seq<byte>, delta: int, hi: int)
    requires Sound(c) && slot < DIST_SLOTS && 0 <= c.pos + delta && Agree(a, b, delta, c.pos, hi)
    ensures SameUpTo(DecodeDistance(c, slot, a).0, DecodeDistance(Shift(c, delta), slot, b).0, delta, hi)
    ensures DecodeDistance(c, slot, a).0.pos <= hi ==>
              DecodeDistance(c, slot, a).1 == DecodeDistance(Shift(c, delta), slot, b).1
  {
    hide TreeFits, DecodeReverseTree, DecodeDirect;
    if slot < 4 {
    } else if slot < 14 {
      var count := slot / 2 - 1;
      SpecialFits(slot);
      DecodeReverseTreeLocal(c, DIST_SPECIAL + (2 + slot % 2) * Pow2(count) - slot - 1, 1, 0, count, a, b, delta, hi);
    } else {
      DecodeDirectLocal(c, 2 + slot % 2, slot / 2 - 5, a, b, delta, hi);
      var (c1, high) := DecodeDirect(c, 2 + slot % 2, slot / 2 - 5, a);
      AlignFits();
      if c1.pos <= hi {
        DecodeReverseTreeLocal(c1, DIST_ALIGN, 1, 0, 4, a, b, delta, hi);
      }
    }
  }

  lemma DecodeMatchLocal(z: Lzma, posState: nat, a: seq<byte>, b: seq<byte>, delta: int, hi: int)
    requires Good(z) && posState < 16 && 0 <= z.c.pos + delta && Agree(a, b, delta, z.c.pos, hi)
    ensures SameSymbol(DecodeMatch(z, posState, a).0, DecodeMatch(ShiftBy(z, delta), posState, b).0, delta, hi)
    ensures DecodeMatch(z, posState, a).0.c.pos <= hi ==>
              DecodeMatch(z, posState, a).1 == DecodeMatch(ShiftBy(z, delta), posState, b).1
  {
    hide TreeFits, DecodeTree, DecodeLen, DecodeDistance;
    DecodeLenLocal(z.c, MATCH_LEN, posState, a, b, delta, hi);
    var (c1, len) := DecodeLen(z.c, MATCH_LEN, posState, a);
    if c1.pos <= hi {
      var base := DIST_SLOT + 64 * DistState(len);
      SlotFits(c1, base, a);
      SlotFits(Shift(c1, delta), base, b);
      DecodeTreeLocal(c1, base, 1, 6, a, b, delta, hi);
      var (c2, symbol) := DecodeTree(c1, base, 1, 6, a);
      if c2.pos <= hi {
        DecodeDistanceLocal(c2, symbol - DIST_SLOTS, a, b, delta, hi);
      }
    }
  }

  lemma DecodeWhichRepLocal(z: Lzma, posState: nat, a: seq<byte>, b: seq<byte>, delta: int, hi: int)
    requires Good(z) && posState < 16 && 0 <= z.c.pos + delta && Agree(a, b, delta, z.c.pos, hi)
    ensures SameSymbol(DecodeWhichRep(z, posState, a).0, DecodeWhichRep(ShiftBy(z, delta), posState, b).0, delta, hi)
    ensures DecodeWhichRep(z, posState, a).0.c.pos <= hi ==>
              DecodeWhichRep(z, posState, a).1 == DecodeWhichRep(ShiftBy(z, delta), posState, b).1
  {
    hide DecodeBit;
    DecodeBitLocal(z.c, IS_REP0 + z.state, a, b, delta, hi);
    var (c1, notRep0) := DecodeBit(z.c, IS_REP0 + z.state, a);
    if c1.pos <= hi {
      if !notRep0 {
        DecodeBitLocal(c1, IS_REP0_LONG + 16 * z.state + posState, a, b, delta, hi);
      } else {
        DecodeBitLocal(c1, IS_REP1 + z.state, a, b, delta, hi);
        var (c2, notRep1) := DecodeBit(c1, IS_REP1 + z.state, a);
        if c2.pos <= hi && notRep1 {
          DecodeBitLocal(c2, IS_REP2 + z.state, a, b, delta, hi);
        }
      }
    }
  }

  lemma DecodeRepMatchLocal(z: Lzma, posState: nat, a: seq<byte>, b: seq<byte>, delta: int, hi: int)
    requires Good(z) && posState < 16 && 0 <= z.c.pos + delta && Agree(a, b, delta, z.c.pos, hi)
    ensures SameSymbol(DecodeRepMatch(z, posState, a).0, DecodeRepMatch(ShiftBy(z, delta), posState, b).0, delta, hi)
    ensures DecodeRepMatch(z, posState, a).0.c.pos <= hi ==>
              DecodeRepMatch(z, posState, a).1 == DecodeRepMatch(ShiftBy(z, delta), posState, b).1
  {
    hide DecodeWhichRep, DecodeLen;
    DecodeWhichRepLocal(z, posState, a, b, delta, hi);
    var (z1, short) := DecodeWhichRep(z, posState, a);
    if z1.c.pos <= hi && !short {
      DecodeLenLocal(z1.c, REP_LEN, posState, a, b, delta, hi);
    }
  }

  lemma DecodeRepeatLocal(z: Lzma, posState: nat, a: seq<byte>, b: seq<byte>, delta: int, hi: int)
    requires Good(z) && posState < 16 && 0 <= z.c.pos + delta && Agree(a, b, delta, z.c.pos, hi)
    ensures SameSymbol(DecodeRepeat(z, posState, a).0, DecodeRepeat(ShiftBy(z, delta), posState, b).0, delta, hi)
    ensures DecodeRepeat(z, posState, a).0.c.pos <= hi ==>
              DecodeRepeat(z, posState, a).1 == DecodeRepeat(ShiftBy(z, delta), posState, b).1
  {
    hide DecodeBit, DecodeRepMatch, DecodeMatch;
    DecodeBitLocal(z.c, IS_REP + z.state, a, b, delta, hi);
    var (c, isRep) := DecodeBit(z.c, IS_REP + z.state, a);
    if c.pos <= hi {
      if isRep {
        DecodeRepMatchLocal(z.(c := c), posState, a, b, delta, hi);
      } else {
        DecodeMatchLocal(z.(c := c), posState, a, b, delta, hi);
      }
    }
  }

  // Decoding a symbol from two buffers that agree on [pos, hi): either both decoders stay
  // at or below hi and reach the same state and symbol, or both read past hi.
  lemma DecodeSymbolLocal(z: Lzma, p: Props, h: seq<byte>, a: seq<byte>, b: seq<byte>, delta: int, hi: int)
    requires Good(z) && ValidProps(p) && 0 <= z.c.pos + delta && Agree(a, b, delta, z.c.pos, hi)
    ensures SameSymbol(DecodeSymbol(z, p, h, a).0, DecodeSymbol(ShiftBy(z, delta), p, h, b).0, delta, hi)
    ensures DecodeSymbol(z, p, h, a).0.c.pos <= hi ==>
              DecodeSymbol(z, p, h, a).1 == DecodeSymbol(ShiftBy(z, delta), p, h, b).1
  {
    hide DecodeBit, DecodeLiteral, DecodeRepeat, PosState;
    var posState := PosState(p, h);
    DecodeBitLocal(z.c, IS_MATCH + 16 * z.state + posState, a, b, delta, hi);
    var (c1, isMatch) := DecodeBit(z.c, IS_MATCH + 16 * z.state + posState, a);
    if c1.pos <= hi {
      if !isMatch {
        DecodeLiteralLocal(z.(c := c1), p, h, a, b, delta, hi);
      } else {
        DecodeRepeatLocal(z.(c := c1), posState, a, b, delta, hi);
      }
    }
  }

  function Normalized(z: Lzma, input: seq<byte>): (r: Lzma)
    requires Good(z)
    ensures Good(r)
  {
    z.(c := Normalize(z.c, input))
  }

  // A bit normalises first, so normalising before a symbol changes nothing.
  lemma NormalizedFirst(z: Lzma, p: Props, h: seq<byte>, input: seq<byte>)
    requires Good(z) && ValidProps(p)
    ensures DecodeSymbol(Normalized(z, input), p, h, input) == DecodeSymbol(z, p, h, input)
  {
    hide SplitBit, DecodeLiteral, DecodeRepeat, PosState;
    assert Normalize(Normalize(z.c, input), input) == Normalize(z.c, input);
    var i := IS_MATCH + 16 * z.state + PosState(p, h);
    assert DecodeBit(Normalize(z.c, input), i, input) == DecodeBit(z.c, i, input);
  }

  // A symbol with the normalisations around it: decoding goes the same way in two buffers
  // until one of them runs past hi, and then both do.
  lemma StepLocal(z: Lzma, p: Props, h: seq<byte>, a: seq<byte>, b: seq<byte>, delta: int, hi: int)
    requires Good(z) && ValidProps(p) && 0 <= z.c.pos + delta && Agree(a, b, delta, z.c.pos, hi)
    requires Normalized(z, a).c.pos <= hi
    ensures var (z1, s1) := DecodeSymbol(z, p, h, a);
            var (z2, s2) := DecodeSymbol(ShiftBy(Normalized(z, a), delta), p, h, b);
            && SameSymbol(Normalized(z1, a), Normalized(z2, b), delta, hi)
            && (Normalized(z1, a).c.pos <= hi ==> s1 == s2)
            && z.c.pos <= z1.c.pos
  {
    hide DecodeSymbol, Normalize;
    var n := Normalized(z, a);
    NormalizedFirst(z, p, h, a);
    assert Agree(a, b, delta, n.c.pos, hi);
    DecodeSymbolLocal(n, p, h, a, b, delta, hi);
    var (z1, s1) := DecodeSymbol(n, p, h, a);
    if z1.c.pos <= hi {
      NormalizeLocal(z1.c, a, b, delta, hi);
    }
  }

  /* ---- At most 20 bytes per symbol ---- */

  // The coder moves from c to r using at most a modelled and d direct bits.
  ghost predicate Spends(c: Coder, r: Coder, n: nat, a: nat, d: nat) {
    && 0 <= r.pos - c.pos <= n
    && Funded(r, n - (r.pos - c.pos), a, d)
  }

  lemma {:induction false} DecodeMatchedFunded(c: Coder, base: nat, symbol: nat, matchByte: nat, offset: nat, count: nat,
                                               input: seq<byte>, n: nat, a: nat, d: nat)
    requires Sound(c) && MatchedFits(base, symbol, offset, count)
    requires Funded(c, n, a, d) && count <= a
    ensures Spends(c, DecodeMatched(c, base, symbol, matchByte, offset, count, input).0, n, a - count, d)
    decreases count
  {
    hide DecodeBit, Funded, MatchBit, MatchedFits, NextOffset;
    var matchBit := MatchBit(matchByte, offset);
    MatchedFitsStep(base, symbol, offset, matchBit, count);
    if count > 0 {
      DecodeBitFunded(c, base + offset + matchBit + symbol, input, n, a, d);
      var (c1, bit) := DecodeBit(c, base + offset + matchBit + symbol, input);
      DecodeMatchedFunded(c1, base, 2 * symbol + BitValue(bit), 2 * matchByte,
                          NextOffset(offset, matchBit, bit), count - 1, input, n - (c1.pos - c.pos), a - 1, d);
    }
  }

  lemma DecodeLiteralFunded(z: Lzma, p: Props, h: seq<byte>, input: seq<byte>, n: nat, a: nat, d: nat)
    requires Good(z) && ValidProps(p) && Funded(z.c, n, a, d) && 8 <= a
    ensures DecodeLiteral(z, p, h, input).0.c.pos - z.c.pos <= n
  {
    hide TreeFits, MatchedFits, DecodeTree, DecodeMatched, LiteralBase, Funded;
    var base := LiteralBase(p, h);
    LiteralFits(base);
    if z.state < LIT_STATES {
      DecodeTreeFunded(z.c, base, 1, 8, input, n, a, d);
    } else {
      DecodeMatchedFunded(z.c, base, 1, 2 * HistoryByte(h, z.rep0), 0x100, 8, input, n, a, d);
    }
  }

  lemma DecodeLenFunded(c: Coder, base: nat, posState: nat, input: seq<byte>, n: nat, a: nat, d: nat)
    requires Sound(c) && base + 514 <= PROBS_TOTAL && posState < 16
    requires Funded(c, n, a, d) && 10 <= a
    ensures Spends(c, DecodeLen(c, base, posState, input).0, n, a - 10, d)
  {
    hide TreeFits, DecodeTree, DecodeBit, Funded;
    PowersTable();
    TreeFitsWithin(base + 2 + 8 * posState, 1, 3);
    TreeFitsWithin(base + 130 + 8 * posState, 1, 3);
    TreeFitsWithin(base + 258, 1, 8);
    DecodeBitFunded(c, base, input, n, a, d);
    var (c1, choice) := DecodeBit(c, base, input);
    var n1 := n - (c1.pos - c.pos);
    if !choice {
      DecodeTreeFunded(c1, base + 2 + 8 * posState, 1, 3, input, n1, a - 1, d);
      var c2 := DecodeTree(c1, base + 2 + 8 * posState, 1, 3, input).0;
      FundedLess(c2, n1 - (c2.pos - c1.pos), a - 4, d, a - 10, d);
    } else {
      DecodeBitFunded(c1, base + 1, input, n1, a - 1, d);
      var (c2, choice2) := DecodeBit(c1, base + 1, input);
      var n2 := n1 - (c2.pos - c1.pos);
      if !choice2 {
        DecodeTreeFunded(c2, base + 130 + 8 * posState, 1, 3, input, n2, a - 2, d);
        var c3 := DecodeTree(c2, base + 130 + 8 * posState, 1, 3, input).0;
        FundedLess(c3, n2 - (c3.pos - c2.pos), a - 5, d, a - 10, d);
      } else {
        DecodeTreeFunded(c2, base + 258, 1, 8, input, n2, a - 2, d);
      }
    }
  }

  // 26 direct bits cost more than one modelled bit.
  lemma DirectBitsForOneModelled(c: Coder, n: nat)
    requires Funded(c, n, 4, 26)
    ensures Funded(c, n, 5, 0)
  {
    FundedLess(c, n, 4, 26, 4, 7);
    DirectPrice(4, 7);
    DirectPrice(4, 6);
    DirectPrice(4, 5);
    DirectPrice(4, 4);
    DirectPrice(4, 3);
    DirectPrice(4, 2);
    DirectPrice(4, 1);
  }

  // Slots 12 and 13 take five modelled bits where the long slots take four and direct bits.
  lemma DecodeDistanceFunded(c: Coder, slot: nat, input: seq<byte>, n: nat)
    requires Sound(c) && slot < DIST_SLOTS && Funded(c, n, 4, 26)
    ensures DecodeDistance(c, slot, input).0.pos - c.pos <= n
  {
    hide TreeFits, DecodeReverseTree, DecodeDirect, Funded;
    if slot < 4 {
    } else if slot < 14 {
      var count := slot / 2 - 1;
      SpecialFits(slot);
      DirectBitsForOneModelled(c, n);
      DecodeReverseTreeFunded(c, DIST_SPECIAL + (2 + slot % 2) * Pow2(count) - slot - 1, 1, 0, count, input, n, 5, 0);
    } else {
      DecodeDirectFunded(c, 2 + slot % 2, slot / 2 - 5, input, n, 4, 26);
      var (c1, high) := DecodeDirect(c, 2 + slot % 2, slot / 2 - 5, input);
      AlignFits();
      DecodeReverseTreeFunded(c1, DIST_ALIGN, 1, 0, 4, input, n - (c1.pos - c.pos), 4, 26 - (slot / 2 - 5));
    }
  }

  lemma DecodeMatchFunded(z: Lzma, posState: nat, input: seq<byte>, n: nat)
    requires Good(z) && posState < 16 && Funded(z.c, n, 20, 26)
    ensures DecodeMatch(z, posState, input).0.c.pos - z.c.pos <= n
  {
    hide TreeFits, DecodeTree, DecodeLen, DecodeDistance, Funded;
    DecodeLenFunded(z.c, MATCH_LEN, posState, input, n, 20, 26);
    var (c1, len) := DecodeLen(z.c, MATCH_LEN, posState, input);
    var base := DIST_SLOT + 64 * DistState(len);
    SlotFits(c1, base, input);
    var n1 := n - (c1.pos - z.c.pos);
    DecodeTreeFunded(c1, base, 1, 6, input, n1, 10, 26);
    var (c2, symbol) := DecodeTree(c1, base, 1, 6, input);
    DecodeDistanceFunded(c2, symbol - DIST_SLOTS, input, n1 - (c2.pos - c1.pos));
  }

  lemma DecodeRepMatchFunded(z: Lzma, posState: nat, input: seq<byte>, n: nat)
    requires Good(z) && posState < 16 && Funded(z.c, n, 13, 26)
    ensures DecodeRepMatch(z, posState, input).0.c.pos - z.c.pos <= n
  {
    hide DecodeBit, DecodeLen, Funded;
    DecodeBitFunded(z.c, IS_REP0 + z.state, input, n, 13, 26);
    var (c1, notRep0) := DecodeBit(z.c, IS_REP0 + z.state, input);
    var n1 := n - (c1.pos - z.c.pos);
    DecodeBitFunded(c1, IS_REP0_LONG + 16 * z.state + posState, input, n1, 12, 26);
    DecodeBitFunded(c1, IS_REP1 + z.state, input, n1, 12, 26);
    var (c2, notRep1) := DecodeBit(c1, IS_REP1 + z.state, input);
    var n2 := n1 - (c2.pos - c1.pos);
    DecodeBitFunded(c2, IS_REP2 + z.state, input, n2, 11, 26);
    var z1 := DecodeWhichRep(z, posState, input).0;
    var n' := n - (z1.c.pos - z.c.pos);
    if !notRep0 {
      FundedLess(z1.c, n', 11, 26, 10, 26);
    } else if !notRep1 {
      FundedLess(z1.c, n', 11, 26, 10, 26);
    }
    DecodeLenFunded(z1.c, REP_LEN, posState, input, n', 10, 26);
  }

  lemma DecodeRepeatFunded(z: Lzma, posState: nat, input: seq<byte>, n: nat)
    requires Good(z) && posState < 16 && Funded(z.c, n, 21, 26)
    ensures DecodeRepeat(z, posState, input).0.c.pos - z.c.pos <= n
  {
    hide DecodeBit, DecodeRepMatch, DecodeMatch, Funded;
    DecodeBitFunded(z.c, IS_REP + z.state, input, n, 21, 26);
    var (c, isRep) := DecodeBit(z.c, IS_REP + z.state, input);
    var n1 := n - (c.pos - z.c.pos);
    if isRep {
      FundedLess(c, n1, 20, 26, 13, 26);
      DecodeRepMatchFunded(z.(c := c), posState, input, n1);
    } else {
      DecodeMatchFunded(z.(c := c), posState, input, n1);
    }
  }

  // Whatever the input and the probabilities, one symbol consumes at most 20 bytes, and with
  // the normalisation that follows it at most 21.
  lemma SymbolConsumesAtMostTwentyBytes(z: Lzma, p: Props, h: seq<byte>, input: seq<byte>)
    requires Good(z) && ValidProps(p)
    ensures DecodeSymbol(z, p, h, input).0.c.pos - z.c.pos <= 20
    ensures Normalize(DecodeSymbol(z, p, h, input).0.c, input).pos - z.c.pos <= 21
  {
    hide DecodeBit, DecodeLiteral, DecodeRepeat, PosState, Funded;
    TwentyBytesSuffice(z.c);
    var i := IS_MATCH + 16 * z.state + PosState(p, h);
    DecodeBitFunded(z.c, i, input, 20, 22, 26);
    var (c1, isMatch) := DecodeBit(z.c, i, input);
    var n1 := 20 - (c1.pos - z.c.pos);
    if !isMatch {
      DecodeLiteralFunded(z.(c := c1), p, h, input, n1, 21, 26);
    } else {
      DecodeRepeatFunded(z.(c := c1), PosState(p, h), input, n1);
    }
  }
}
