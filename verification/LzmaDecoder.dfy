// The LZMA decoder proper: literals, matches and the loop that decodes until the dictionary
// or the input limit stops it.
module LzmaDecoders {
  import opened Words
  import opened RangeCoder
  import opened RangeDecoders
  import opened LzmaSymbols
  import opened LzmaLocality
  import opened Dictionaries
  import opened Lzma2Reference
  import opened Memory
  import opened XzBuffers

  // What can be seen of a decoder from outside: the LZMA state, with its input position set
  // to 0, the history, and how much of the history has not been flushed.
  datatype View = View(
    valid: bool, z: Lzma, initLeft: nat, props: Props, distanceOk: bool, len: nat, history: seq<byte>, pending: int)

  // After some or all of the initial bytes.
  ghost function InitView(v: View, bytes: seq<byte>): View
    requires |bytes| <= v.initLeft
  {
    v.(z := v.z.(c := v.z.c.(code := InitCode(v.z.c.code, bytes))), initLeft := v.initLeft - |bytes|)
  }

  class LzmaDecoder {
    const rc: RangeDecoder
    const dict: Dictionary
    var rep0: u32
    var rep1: u32
    var rep2: u32
    var rep3: u32
    var state: nat
    // What is left to repeat of a match that did not fit.
    var len: nat
    var lc: nat
    var literalPosMask: nat
    var posMask: nat
    ghost var props: Props

    ghost predicate Valid()
      reads this, rc, rc.probs, dict, dict.buf
    {
      && rc.Valid() && dict.Valid() && rc.probs as object != dict.buf
      && state < STATES && ValidProps(props)
      && lc == props.lc && literalPosMask == Pow2(props.lp) - 1 && posMask == Pow2(props.pb) - 1
    }

    ghost function Value(): (z: Lzma)
      requires Valid()
      reads this, rc, rc.probs, dict, dict.buf
      ensures Good(z)
    {
      Lzma(rc.Value(), state, rep0, rep1, rep2, rep3)
    }

    // Whenever the last symbol was no literal, or a match is unfinished, its distance is
    // inside the window.
    ghost predicate DistanceOk()
      reads this, dict
    {
      LIT_STATES <= state || 0 < len ==> rep0 < dict.full
    }

    ghost function Look(): (v: View)
      reads this, rc, rc.probs, dict, dict.buf
    {
      View(Valid() && TOP_VALUE <= rc.range, if Valid() then At(Value(), 0) else FreshLzma(), rc.initBytesLeft, props,
           DistanceOk(), len, dict.history, dict.pos - dict.start)
    }

    lemma LookIs()
      ensures Look().pending == dict.pos - dict.start && Look().history == dict.history && Look().len == len
      ensures Look().initLeft == rc.initBytesLeft && Look().props == props && Look().distanceOk == DistanceOk()
      ensures Look().valid == (Valid() && TOP_VALUE <= rc.range)
      ensures Valid() ==> Look().z == At(Value(), 0)
    {
      hide DistanceOk, Valid;
    }

    constructor (size: nat)
      requires 0 < size && size % 16 == 0
      ensures Valid() && DistanceOk() && fresh(rc) && fresh(rc.probs) && fresh(dict) && fresh(dict.buf)
      ensures dict.end == size && dict.history == [] && dict.start == dict.pos == 0 && len == 0
      ensures rc.initBytesLeft == 5 && TOP_VALUE <= rc.range
    {
      rc := new RangeDecoder();
      dict := new Dictionary(size);
      rep0, rep1, rep2, rep3 := 0, 0, 0, 0;
      state, len := 0, 0;
      lc, literalPosMask, posMask := 0, 0, 0;
      props := Props(0, 0, 0);
      PowersTable();
    }

    // The position in the dictionary stands for the length of the history.
    lemma MaskedPosition(mask: nat, bits: nat)
      requires dict.Valid() && bits <= 4 && mask == Pow2(bits) - 1
      ensures dict.pos % (mask + 1) == |dict.history| % Pow2(bits)
    {
      hide Window;
      WindowFull(dict.buf[..], dict.pos, dict.full, dict.history);
      SmallModulus(dict.pos, |dict.history|, bits);
    }

    method LiteralProbs() returns (base: nat)
      requires Valid()
      ensures base == LiteralBase(props, dict.history)
    {
      hide Window, Pow2, HistoryByte, LiteralCoder;
      var prevByte := dict.Get(0);
      MaskedPosition(literalPosMask, props.lp);
      LiteralCoders(props, HistoryByte(dict.history, 0), |dict.history|);
      base := LITERAL + LITERAL_CODER_SIZE * LiteralCoder(prevByte, dict.pos % (literalPosMask + 1), lc);
    }

    method Literal()
      requires Valid() && DistanceOk() && dict.pos < dict.limit <= dict.end
      requires DecodeLiteral(Value(), props, dict.history, rc.input).0.c.pos <= |rc.input|
      modifies this`state, rc`range, rc`code, rc`inPos, rc.probs, dict, dict.buf
      ensures Valid()
      ensures var (z, b) := DecodeLiteral(old(Value()), props, old(dict.history), rc.input);
              Value() == z && dict.history == old(dict.history) + [b]
      ensures dict.pos == old(dict.pos) + 1 && dict.start == old(dict.start) && dict.limit == old(dict.limit)
    {
      hide TreeFits, MatchedFits, DecodeTree, DecodeMatched, LiteralBase, Window, HistoryByte;
      var base := LiteralProbs();
      LiteralFits(base);
      PowersTable();
      var symbol;
      if state < LIT_STATES {
        symbol := rc.Tree(base, 0x100, 8);
      } else {
        var matchByte: nat := dict.Get(rep0);
        symbol := rc.MatchedTree(base, matchByte + matchByte);
      }
      dict.Put(symbol % 0x100);
      state := AfterLiteral(state);
    }

    method Len(base: nat, posState: nat)
      requires Valid() && base + 514 <= PROBS_TOTAL && posState < 16
      requires DecodeLen(rc.Value(), base, posState, rc.input).0.pos <= |rc.input|
      modifies this`len, rc`range, rc`code, rc`inPos, rc.probs
      ensures Valid() && (rc.Value(), len) == DecodeLen(old(rc.Value()), base, posState, rc.input)
    {
      hide TreeFits, DecodeTree, DecodeBit, Window;
      PowersTable();
      var probs, limit;
      ghost var count := 3;
      var choice := rc.Bit(base);
      if !choice {
        probs := base + 2 + 8 * posState;
        limit := 8;
        len := MATCH_LEN_MIN;
      } else {
        var choice2 := rc.Bit(base + 1);
        if !choice2 {
          probs := base + 130 + 8 * posState;
          limit := 8;
          len := MATCH_LEN_MIN + 8;
        } else {
          probs := base + 258;
          limit := 256;
          count := 8;
          len := MATCH_LEN_MIN + 16;
        }
      }
      TreeFitsWithin(probs, 1, count);
      DecodeTreeRange(rc.Value(), probs, 1, count, rc.input);
      var symbol := rc.Tree(probs, limit, count);
      len := len + symbol - limit;
    }

    // The bits of rep0 below the two that the distance slot gives.
    method Distance(slot: nat)
      requires Valid() && slot < DIST_SLOTS
      requires DecodeDistance(rc.Value(), slot, rc.input).0.pos <= |rc.input|
      modifies this`rep0, rc`range, rc`code, rc`inPos, rc.probs
      ensures Valid() && (rc.Value(), rep0) == DecodeDistance(old(rc.Value()), slot, rc.input)
    {
      hide TreeFits, DecodeReverseTree, DecodeDirect, Window, Pow2;
      if slot < 4 {
        rep0 := slot;
      } else {
        var limit := slot / 2 - 1;
        if slot < 14 {
          SpecialFits(slot);
          var dist := (2 + slot % 2) * Pow2(limit);
          DecodeReverseTreeRange(rc.Value(), DIST_SPECIAL + dist - slot - 1, 1, 0, limit, rc.input);
          PowersTable();
          var sum := rc.ReverseTree(DIST_SPECIAL + dist - slot - 1, dist, limit);
          rep0 := sum;
        } else {
          AlignFits();
          DirectFits(rc.Value(), 2 + slot % 2, limit - 4, rc.input);
          var high := rc.Direct(2 + slot % 2, limit - 4);
          DecodeReverseTreeRange(rc.Value(), DIST_ALIGN, 1, 0, 4, rc.input);
          var sum := rc.ReverseTree(DIST_ALIGN, 16 * high, 4);
          rep0 := sum;
        }
      }
    }

    method Match(posState: nat)
      requires Valid() && posState < 16
      requires DecodeMatch(Value(), posState, rc.input).0.c.pos <= |rc.input|
      modifies this`len, this`state, this`rep0, this`rep1, this`rep2, this`rep3
      modifies rc`range, rc`code, rc`inPos, rc.probs
      ensures Valid() && (Value(), len) == DecodeMatch(old(Value()), posState, rc.input)
    {
      hide TreeFits, DecodeTree, DecodeLen, DecodeDistance, Window;
      state := AfterMatch(state);
      rep3 := rep2;
      rep2 := rep1;
      rep1 := rep0;
      Len(MATCH_LEN, posState);
      var base := DIST_SLOT + 64 * DistState(len);
      SlotFits(rc.Value(), base, rc.input);
      PowersTable();
      var symbol := rc.Tree(base, DIST_SLOTS, 6);
      Distance(symbol - DIST_SLOTS);
    }

    method RepMatch(posState: nat)
      requires Valid() && posState < 16
      requires DecodeRepMatch(Value(), posState, rc.input).0.c.pos <= |rc.input|
      modifies this`len, this`state, this`rep0, this`rep1, this`rep2, this`rep3
      modifies rc`range, rc`code, rc`inPos, rc.probs
      ensures Valid() && (Value(), len) == DecodeRepMatch(old(Value()), posState, rc.input)
    {
      hide DecodeBit, DecodeLen, Window;
      var notRep0 := rc.Bit(IS_REP0 + state);
      if !notRep0 {
        var long := rc.Bit(IS_REP0_LONG + 16 * state + posState);
        if !long {
          state := AfterShortRep(state);
          len := 1;
          return;
        }
      } else {
        var tmp;
        var notRep1 := rc.Bit(IS_REP1 + state);
        if !notRep1 {
          tmp := rep1;
        } else {
          var notRep2 := rc.Bit(IS_REP2 + state);
          if !notRep2 {
            tmp := rep2;
          } else {
            tmp := rep3;
            rep3 := rep2;
          }
          rep2 := rep1;
        }
        rep1 := rep0;
        rep0 := tmp;
      }
      state := AfterLongRep(state);
      Len(REP_LEN, posState);
    }

    // Decodes what is to be repeated and repeats it as far as it fits.
    method Repeat(posState: nat) returns (ok: bool)
      requires Valid() && posState < 16 && dict.pos < dict.limit <= dict.end
      requires DecodeRepeat(Value(), posState, rc.input).0.c.pos <= |rc.input|
      modifies this`len, this`state, this`rep0, this`rep1, this`rep2, this`rep3
      modifies rc`range, rc`code, rc`inPos, rc.probs, dict, dict.buf
      ensures Valid()
      ensures var (z, n) := DecodeRepeat(old(Value()), posState, rc.input);
              && Value() == z
              && ok == (rep0 < Min(|old(dict.history)|, dict.end))
              && (!ok ==> dict.history == old(dict.history) && dict.pos == old(dict.pos))
              && (ok ==> len == n - Min(n, old(dict.limit - dict.pos))
                         && dict.history == RepeatFrom(old(dict.history), rep0, n - len)
                         && dict.pos == old(dict.pos) + (n - len)
                         && rep0 < dict.full)
      ensures dict.start == old(dict.start) && dict.limit == old(dict.limit)
    {
      hide DecodeBit, DecodeRepMatch, DecodeMatch, Window, RepeatFrom;
      var isRep := rc.Bit(IS_REP + state);
      if isRep {
        RepMatch(posState);
      } else {
        Match(posState);
      }
      ok, len := dict.Repeat(len, rep0);
      if ok {
        WindowFull(dict.buf[..], dict.pos, dict.full, dict.history);
      }
    }

    // One pass of the decoding loop: a symbol, put into the dictionary as far as it fits.
    method NextSymbol() returns (ok: bool)
      requires Valid() && DistanceOk() && len == 0 && dict.pos < dict.limit <= dict.end
      requires rc.inPos + 20 <= |rc.input|
      modifies this`len, this`state, this`rep0, this`rep1, this`rep2, this`rep3
      modifies rc`range, rc`code, rc`inPos, rc.probs, dict, dict.buf
      ensures Valid()
      ensures var (z, symbol) := DecodeSymbol(old(Value()), props, old(dict.history), rc.input);
              && Value() == z && z.c.pos <= old(rc.inPos) + 20
              && match symbol
                 case Literal(b) => ok && len == 0 && dict.history == old(dict.history) + [b]
                 case Repeat(n) =>
                   && ok == (rep0 < Min(|old(dict.history)|, dict.end))
                   && (!ok ==> dict.history == old(dict.history))
                   && (ok ==> len == n - Min(n, old(dict.limit - dict.pos))
                              && dict.history == RepeatFrom(old(dict.history), rep0, n - len))
      ensures ok ==> DistanceOk() && old(dict.pos) < dict.pos <= dict.limit && (dict.pos < dict.limit ==> len == 0)
      ensures dict.pos - old(dict.pos) == |dict.history| - |old(dict.history)|
      ensures dict.start == old(dict.start) && dict.limit == old(dict.limit)
    {
      hide DecodeBit, DecodeLiteral, DecodeRepeat, Window, Pow2, PosState;
      SymbolConsumesAtMostTwentyBytes(Value(), props, dict.history, rc.input);
      var posState := PositionState();
      var isMatch := rc.Bit(IS_MATCH + 16 * state + posState);
      if !isMatch {
        Literal();
        ok := true;
      } else {
        ok := Repeat(posState);
      }
    }

    method PositionState() returns (posState: nat)
      requires Valid()
      ensures posState == PosState(props, dict.history)
    {
      hide Window, Pow2;
      MaskedPosition(posMask, props.pb);
      posState := dict.pos % (posMask + 1);
    }

    // Resets the LZMA state and the range decoder, but not the dictionary.
    method Reset()
      requires Valid()
      modifies this`state, this`rep0, this`rep1, this`rep2, this`rep3
      modifies rc`range, rc`code, rc`initBytesLeft, rc.probs
      ensures Valid() && At(Value(), 0) == FreshLzma() && rc.initBytesLeft == 5 && TOP_VALUE <= rc.range
    {
      hide Window;
      state := 0;
      rep0, rep1, rep2, rep3 := 0, 0, 0, 0;
      rc.ResetProbs();
      rc.Reset();
      assert rc.probs[..] == FreshProbs();
    }

    // The caller's output buffer is none of the decoder's own memory.
    ghost predicate Apart(b: XzBuf)
      reads b
    {
      dict.buf != b.output && rc.probs as object != b.output
    }

    method SetLimit(outMax: nat)
      requires Valid() && dict.pos < dict.end
      modifies dict`limit
      ensures Valid() && Look() == old(Look()) && dict.pos <= dict.limit <= dict.end
      ensures dict.limit - dict.pos <= outMax && (outMax > 0 ==> dict.pos < dict.limit)
    {
      hide Window;
      dict.SetLimit(outMax);
    }

    method Flush(b: XzBuf) returns (n: nat)
      requires Valid() && b.Valid() && Apart(b) && dict.pos - dict.start <= b.outSize - b.outPos
      modifies dict`pos, dict`start, b`outPos, b.output
      ensures Valid() && b.Valid() && Look() == old(Look()).(pending := 0)
      ensures dict.start == dict.pos < dict.end && dict.history == old(dict.history)
      ensures n == old(dict.pos - dict.start) <= |dict.history| && b.outPos == old(b.outPos) + n
      ensures Wrote(old(b.output[..]), b.output[..], old(b.outPos), dict.history[|dict.history| - n..])
    {
      hide Window, Wrote;
      n := dict.Flush(b);
    }

    // Stored bytes go into the dictionary too, so that distances stay inside the window.
    method CopyStored(b: XzBuf, left: nat) returns (rest: nat)
      requires Valid() && dict.start == dict.pos < dict.end && b.Valid() && Apart(b)
      modifies dict, dict.buf, b`inPos, b`outPos, b.output
      ensures Valid() && dict.start == dict.pos < dict.end && b.Valid()
      ensures rest == left - Min(left, Min(|b.input| - old(b.inPos), b.outSize - old(b.outPos)))
      ensures b.inPos == old(b.inPos) + (left - rest) && b.outPos == old(b.outPos) + (left - rest)
      ensures var data := b.input[old(b.inPos)..b.inPos];
              && Look() == old(Look()).(history := old(dict.history) + data, distanceOk := DistanceOk())
              && Wrote(old(b.output[..]), b.output[..], old(b.outPos), data)
      ensures old(DistanceOk()) ==> DistanceOk()
    {
      hide Window, Wrote;
      WindowFull(dict.buf[..], dict.pos, dict.full, dict.history);
      rest := dict.CopyUncompressed(b, left);
      WindowFull(dict.buf[..], dict.pos, dict.full, dict.history);
    }

    // The range coder starts afresh after a chunk.
    method FinishChunk()
      requires Valid()
      modifies rc`range, rc`code, rc`initBytesLeft
      ensures Valid() && Look() == old(Look()).(valid := true, z := ResetCoder(old(Look()).z), initLeft := 5)
    {
      hide Window;
      rc.Reset();
    }

    // The initial bytes of the range coder; nothing else changes.
    method ReadInit(b: XzBuf) returns (done: bool)
      requires Valid() && b.Valid()
      modifies rc`code, rc`initBytesLeft, b`inPos
      ensures Valid() && b.Valid() && old(b.inPos) <= b.inPos
      ensures b.inPos - old(b.inPos) == Min(old(rc.initBytesLeft), |b.input| - old(b.inPos))
      ensures Look() == InitView(old(Look()), b.input[old(b.inPos)..b.inPos])
      ensures done <==> rc.initBytesLeft == 0
      ensures !done ==> b.inPos == |b.input|
    {
      hide Window, InitCode;
      done := rc.ReadInit(b);
    }

    // Decodes the properties byte into lc and the two position masks.
    method SetProps(b: byte) returns (ok: bool)
      requires Valid()
      modifies this`state, this`rep0, this`rep1, this`rep2, this`rep3
      modifies this`lc, this`literalPosMask, this`posMask, this`props
      modifies rc`range, rc`code, rc`initBytesLeft, rc.probs
      ensures ok <==> ParseProps(b).GoodProps?
      ensures ok ==> Valid() && props == ParseProps(b).props
      ensures ok ==> At(Value(), 0) == FreshLzma() && rc.initBytesLeft == 5 && TOP_VALUE <= rc.range
    {
      hide Window, Pow2;
      if b > (4 * 5 + 4) * 9 + 8 {
        return false;
      }
      var left: nat := b;
      var pb: nat := 0;
      while left >= 9 * 5
        invariant left + 45 * pb == b
      {
        left := left - 9 * 5;
        pb := pb + 1;
      }
      posMask := Pow2(pb) - 1;
      var lp: nat := 0;
      while left >= 9
        invariant left + 9 * lp + 45 * pb == b && left + 9 * lp < 45
      {
        left := left - 9;
        lp := lp + 1;
      }
      PropsDigits(b, left, lp, pb);
      lc := left;
      if lc + lp > 4 {
        return false;
      }
      literalPosMask := Pow2(lp) - 1;
      props := Props(left, lp, pb);
      Reset();
      ok := true;
    }

    // Attaches the range decoder to a buffer. The reference at x is where this decoder is.
    method SetInput(input: seq<byte>, inPos: nat, inLimit: nat, ghost x: Run)
      requires Valid() && DistanceOk() && TOP_VALUE <= rc.range
      requires At(x.z, 0) == At(Value(), 0) && x.hist == Owed(dict.history, rep0, len)
      modifies rc`input, rc`inPos, rc`inLimit
      ensures Tracks(x, x.z.c.pos - inPos)
      ensures rc.input == input && rc.inPos == inPos && rc.inLimit == inLimit
    {
      hide Window, Owed;
      rc.input := input;
      rc.inPos := inPos;
      rc.inLimit := inLimit;
    }

    // The reference run x is where this decoder will be once it is normalised and the
    // unfinished match is written out; positions in its stream are delta further on.
    ghost predicate Tracks(x: Run, delta: int)
      reads this, rc, rc.probs, dict, dict.buf
    {
      && Valid() && DistanceOk()
      && 0 <= rc.inPos + delta
      && x.z == ShiftBy(Normalized(Value(), rc.input), delta)
      && x.hist == Owed(dict.history, rep0, len)
    }

    // The reference is either where this decoder is, or has found the chunk broken because
    // this decoder has read past the end of it.
    ghost predicate Coupled(y: Progress, delta: int, hi: nat, end: nat)
      requires Valid()
      reads this, rc, rc.probs, dict, dict.buf
    {
      if Normalized(Value(), rc.input).c.pos <= hi then
        y.Going? && Tracks(y.run, delta) && dict.limit - dict.pos <= y.run.left + len
      else
        y.Broken? && hi + delta == end
    }

    // A symbol here and in the reference.
    method CoupledSymbol(ghost y: Progress, ghost stream: seq<byte>, ghost delta: int, ghost lo: nat, ghost hi: nat, ghost end: nat)
      returns (ok: bool, ghost y': Progress)
      requires Valid() && DistanceOk() && len == 0 && dict.pos < dict.limit <= dict.end
      requires lo <= rc.inPos <= rc.inLimit && rc.inLimit + 21 <= |rc.input|
      requires hi + delta <= end && Agree(rc.input, stream, delta, lo, hi)
      requires hi + delta == end || rc.inLimit + 21 <= hi
      requires Coupled(y, delta, hi, end)
      modifies this`len, this`state, this`rep0, this`rep1, this`rep2, this`rep3
      modifies rc`range, rc`code, rc`inPos, rc.probs, dict, dict.buf
      ensures Valid()
      ensures y.Going? ==> GoodRun(y.run, props) && y' == SymbolStep(y.run, props, stream, end, dict.end)
      ensures y.Broken? ==> y'.Broken?
      ensures !ok ==> y'.Broken?
      ensures ok ==> DistanceOk() && Coupled(y', delta, hi, end)
      ensures ok && y'.Going? ==> y.Going? && y'.run.left + len == y.run.left - (dict.pos - old(dict.pos))
      ensures ok ==> old(dict.pos) < dict.pos <= dict.limit && (dict.pos < dict.limit ==> len == 0)
      ensures old(dict.pos) <= dict.pos <= dict.limit == old(dict.limit) && dict.start == old(dict.start)
      ensures old(dict.history) <= dict.history
      ensures dict.pos - old(dict.pos) == |dict.history| - |old(dict.history)|
      ensures old(rc.inPos) <= rc.inPos <= old(rc.inPos) + 20
    {
      hide DecodeSymbol, Window, Normalize, SymbolStep, Agree, RepeatFrom, Owed, Emit;
      ghost var v, h := Value(), dict.history;
      OwedAfter(h, rep0, 0, 0);
      ok := NextSymbol();
      NormalizedIs(v, rc.input);
      NormalizedIs(Value(), rc.input);
      NormalizedFirst(v, props, h, rc.input);
      y' := Broken;
      if y.Going? {
        AgreeLater(rc.input, stream, delta, lo, v.c.pos, hi);
        TrackStep(v, h, rc.input, y.run, props, stream, delta, hi, end, dict.end);
        TrackOwed(v, h, rc.input, y.run, props, ShiftBy(Normalized(Value(), rc.input), delta), dict.end, dict.history, len, ok);
        y' := SymbolStep(y.run, props, stream, end, dict.end);
      }
    }

    // Writes out more of a match left over from the previous call, if there is one.
    method FinishRepeat()
      requires Valid() && DistanceOk() && dict.pos <= dict.limit <= dict.end
      modifies this`len, dict, dict.buf
      ensures Valid() && DistanceOk() && Owed(dict.history, rep0, len) == old(Owed(dict.history, rep0, len))
      ensures len + dict.pos == old(len + dict.pos) && (dict.pos < dict.limit ==> len == 0)
      ensures old(dict.pos) <= dict.pos <= dict.limit == old(dict.limit) && dict.start == old(dict.start)
      ensures dict.pos == old(dict.pos) ==> len == old(len)
      ensures old(dict.history) <= dict.history
      ensures dict.pos - old(dict.pos) == |dict.history| - |old(dict.history)|
    {
      hide Window, RepeatFrom, Owed;
      if dict.HasSpace() && len > 0 {
        WindowFull(dict.buf[..], dict.pos, dict.full, dict.history);
        var ignored;
        ignored, len := dict.Repeat(len, rep0);
        OwedAfter(old(dict.history), rep0, old(len) - len, len);
        WindowFull(dict.buf[..], dict.pos, dict.full, dict.history);
      }
    }

    // Finishes a pending match, then decodes symbols while there is room in the dictionary
    // and input below the limit. end is where the chunk ends in the reference's stream, and
    // the two inputs agree up to hi.
    method LzmaMain(ghost x: Run, ghost stream: seq<byte>, ghost delta: int, ghost hi: nat, ghost end: nat)
      returns (ok: bool, ghost n: nat, ghost y: Progress)
      requires Tracks(x, delta) && dict.pos <= dict.limit <= dict.end && TOP_VALUE <= rc.range
      requires rc.inPos <= rc.inLimit && rc.inLimit + 21 <= |rc.input|
      requires rc.inPos <= hi && hi + delta <= end && Agree(rc.input, stream, delta, rc.inPos, hi)
      requires hi + delta == end || rc.inLimit + 21 <= hi
      requires dict.limit - dict.pos <= x.left + len
      modifies this`len, this`state, this`rep0, this`rep1, this`rep2, this`rep3
      modifies rc`range, rc`code, rc`inPos, rc.probs, dict, dict.buf
      ensures Valid()
      ensures GoodRun(x, props) && y == Symbols(x, props, stream, end, dict.end, n)
      ensures !ok || hi < rc.inPos ==> y.Broken?
      ensures ok && rc.inPos <= hi ==>
                && y.Going? && Tracks(y.run, delta) && TOP_VALUE <= rc.range
                && y.run.left + len == x.left + old(len) - (dict.pos - old(dict.pos))
      ensures ok && old(dict.pos < dict.limit) ==> old(dict.pos) < dict.pos
      ensures ok ==> dict.pos == dict.limit || rc.inLimit < rc.inPos
      ensures ok ==> old(rc.inPos) <= rc.inPos <= |rc.input| && (hi < rc.inPos ==> hi + delta == end)
      ensures old(dict.pos) <= dict.pos <= dict.limit == old(dict.limit) && dict.start == old(dict.start)
      ensures old(dict.history) <= dict.history
      ensures dict.pos - old(dict.pos) == |dict.history| - |old(dict.history)|
    {
      hide DecodeSymbol, Window, Normalize, Symbols, SymbolStep, Agree, RepeatFrom, Owed, Emit;
      NormalizedIs(Value(), rc.input);
      n, y := 0, Going(x);
      SymbolsNone(x, props, stream, end, dict.end);
      ok := true;
      FinishRepeat();
      while dict.HasSpace() && !(rc.inPos > rc.inLimit)
        invariant Valid() && DistanceOk() && ok
        invariant old(dict.pos) <= dict.pos <= dict.limit == old(dict.limit) && dict.start == old(dict.start)
        invariant old(dict.history) <= dict.history
        invariant dict.pos - old(dict.pos) == |dict.history| - |old(dict.history)|
        invariant dict.pos < dict.limit ==> len == 0
        invariant old(rc.inPos) <= rc.inPos <= rc.inLimit + 20
        invariant old(dict.pos < dict.limit) && dict.pos == old(dict.pos) ==> rc.inPos <= rc.inLimit
        invariant y == Symbols(x, props, stream, end, dict.end, n)
        invariant Coupled(y, delta, hi, end)
        invariant y.Going? ==> y.run.left + len == x.left + old(len) - (dict.pos - old(dict.pos))
        decreases dict.limit - dict.pos
      {
        SymbolsNext(x, props, stream, end, dict.end, n);
        n := n + 1;
        ok, y := CoupledSymbol(y, stream, delta, old(rc.inPos), hi, end);
        if !ok {
          return;
        }
      }
      NormalizedIs(Value(), rc.input);
      rc.Normalise();
      NormalizedIs(Value(), rc.input);
    }
  }

  lemma NormalizedIs(z: Lzma, input: seq<byte>)
    requires Good(z)
    ensures Normalized(z, input).c == Normalize(z.c, input)
    ensures z.c.pos <= Normalized(z, input).c.pos <= z.c.pos + 1
    ensures TOP_VALUE <= z.c.range ==> Normalized(z, input) == z
    ensures TOP_VALUE <= Normalized(z, input).c.range
  {
  }

  lemma AgreeLater(a: seq<byte>, b: seq<byte>, delta: int, lo: int, lo': int, hi: int)
    requires Agree(a, b, delta, lo, hi) && lo <= lo'
    ensures Agree(a, b, delta, lo', hi)
  {
  }

  // One symbol of the decoder and one of the reference.
  lemma TrackStep(v: Lzma, h: seq<byte>, input: seq<byte>, x: Run, p: Props, stream: seq<byte>,
                  delta: int, hi: nat, end: nat, size: nat)
    requires Good(v) && ValidProps(p) && 0 <= v.c.pos + delta && Agree(input, stream, delta, v.c.pos, hi)
    requires Normalized(v, input).c.pos <= hi && hi + delta <= end
    requires x.z == ShiftBy(Normalized(v, input), delta) && x.hist == h && 0 < x.left
    ensures GoodRun(x, p)
    ensures var (z, symbol) := DecodeSymbol(v, p, h, input);
            var z' := Normalized(z, input);
            && v.c.pos <= z.c.pos
            && (hi < z'.c.pos && hi + delta == end ==> SymbolStep(x, p, stream, end, size).Broken?)
            && (z'.c.pos <= hi ==> SymbolStep(x, p, stream, end, size) == Emit(x, ShiftBy(z', delta), symbol, size))
  {
    hide DecodeSymbol, Normalize, Agree, RepeatFrom;
    StepLocal(v, p, h, input, stream, delta, hi);
    NormalizedIs(v, input);
  }

  // The dictionary holds the part of the symbol's output that fitted.
  lemma TrackOwed(v: Lzma, h: seq<byte>, input: seq<byte>, x: Run, p: Props, z: Lzma, size: nat, h': seq<byte>, len: nat, ok: bool)
    requires Good(v) && ValidProps(p) && x.hist == h
    requires var (z1, symbol) := DecodeSymbol(v, p, h, input);
             && z.rep0 == z1.rep0
             && (symbol.Literal? ==> ok && len == 0 && h' == h + [symbol.b])
             && (symbol.Repeat? ==> ok == (z.rep0 < Min(|h|, size)))
             && (symbol.Repeat? && ok ==> len <= symbol.len && h' == RepeatFrom(h, z.rep0, symbol.len - len))
    ensures var y := Emit(x, z, DecodeSymbol(v, p, h, input).1, size);
            && ok == y.Going?
            && (ok ==> y.run.z == z && y.run.hist == Owed(h', z.rep0, len) && h <= h'
                       && y.run.left + len == x.left - (|h'| - |h|))
  {
    hide DecodeSymbol, RepeatFrom, Owed;
    var symbol := DecodeSymbol(v, p, h, input).1;
    if symbol.Literal? {
      OwedAfter(h', z.rep0, 0, 0);
    } else if ok {
      OwedAfter(h, z.rep0, symbol.len - len, len);
    }
  }

  lemma SymbolsNone(x: Run, p: Props, stream: seq<byte>, end: nat, size: nat)
    requires GoodRun(x, p)
    ensures Symbols(x, p, stream, end, size, 0) == Going(x)
  {
  }

  lemma SymbolsNext(x: Run, p: Props, stream: seq<byte>, end: nat, size: nat, n: nat)
    requires GoodRun(x, p)
    ensures Symbols(x, p, stream, end, size, n + 1) ==
              match Symbols(x, p, stream, end, size, n)
              case Broken => Broken
              case Going(y) => SymbolStep(y, p, stream, end, size)
  {
    hide SymbolStep;
  }

  // The history once a match has been written out in full.
  ghost function Owed(h: seq<byte>, dist: nat, len: nat): seq<byte> {
    if dist < |h| then RepeatFrom(h, dist, len) else h
  }

  lemma {:induction false} RepeatSplit(h: seq<byte>, dist: nat, m: nat, n: nat)
    requires dist < |h|
    ensures RepeatFrom(RepeatFrom(h, dist, m), dist, n) == RepeatFrom(h, dist, m + n)
    decreases m
  {
    if m > 0 {
      RepeatSplit(h + [HistoryByte(h, dist)], dist, m - 1, n);
    }
  }

  // Writing out part of a match leaves the same history owed.
  lemma OwedAfter(h: seq<byte>, dist: nat, m: nat, n: nat)
    ensures dist < |h| ==> Owed(RepeatFrom(h, dist, m), dist, n) == RepeatFrom(h, dist, m + n) == Owed(h, dist, m + n)
    ensures Owed(h, dist, 0) == h
  {
    if dist < |h| {
      RepeatSplit(h, dist, m, n);
    }
  }

  lemma PropsDigits(b: byte, lc: nat, lp: nat, pb: nat)
    requires lc < 9 && lc + 9 * lp < 45 && lc + 9 * lp + 45 * pb == b
    ensures b / 45 == pb && b % 45 == lc + 9 * lp && b % 45 / 9 == lp && b % 9 == lc
  {
    var m := b % 45;
    assert m == lc + 9 * lp;
    assert m / 9 == lp;
    assert b == 9 * (lp + 5 * pb) + lc;
  }

  lemma Remainder8(a: int, k: int, r: int)
    requires 0 <= r < 8 && a == 8 * k + r
    ensures a % 8 == r
  {
  }

  lemma Remainder4(a: int, k: int, r: int)
    requires 0 <= r < 4 && a == 4 * k + r
    ensures a % 4 == r
  {
  }

  lemma Remainder2(a: int, k: int, r: int)
    requires 0 <= r < 2 && a == 2 * k + r
    ensures a % 2 == r
  {
  }

  // A remainder by 16 determines those by 8, 4 and 2.
  lemma SmallRemainders(a: nat)
    ensures a % 8 == a % 16 % 8 && a % 4 == a % 16 % 4 && a % 2 == a % 16 % 2
  {
    var q, r := a / 16, a % 16;
    Remainder8(a, 2 * q + r / 8, r % 8);
    Remainder4(a, 4 * q + r / 4, r % 4);
    Remainder2(a, 8 * q + r / 2, r % 2);
  }

  lemma SmallModulus(a: nat, b: nat, bits: nat)
    requires a % 16 == b % 16 && bits <= 4
    ensures a % Pow2(bits) == b % Pow2(bits)
  {
    hide Pow2;
    PowersTable();
    SmallRemainders(a);
    SmallRemainders(b);
    if bits == 0 {} else if bits == 1 {} else if bits == 2 {} else if bits == 3 {} else {}
  }
}
