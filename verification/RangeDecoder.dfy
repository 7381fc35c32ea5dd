// The range decoder as the decoder object updates it in place, proved against RangeCoder.
module RangeDecoders {
  import opened Words
  import opened RangeCoder
  import opened LzmaSymbols
  import opened Lzma2Reference
  import opened XzBuffers

  class RangeDecoder {
    var range: u32
    var code: u32
    var initBytesLeft: nat
    var input: seq<byte>
    var inPos: nat
    var inLimit: nat
    const probs: array<Prob>

    ghost predicate Valid()
      reads this, probs
    {
      probs.Length == PROBS_TOTAL && MIN_RANGE <= range
    }

    ghost function Value(): (c: Coder)
      requires Valid()
      reads this, probs
      ensures Sound(c)
    {
      Coder(range, code, inPos, probs[..])
    }

    constructor ()
      ensures Valid() && fresh(probs) && initBytesLeft == 5 && TOP_VALUE <= range
    {
      range, code, initBytesLeft := 0xFFFF_FFFF, 0, 5;
      input, inPos, inLimit := [], 0, 0;
      probs := new Prob[PROBS_TOTAL](_ => 1024);
    }

    method Reset()
      requires Valid()
      modifies this`range, this`code, this`initBytesLeft
      ensures Valid() && range == 0xFFFF_FFFF && code == 0 && initBytesLeft == 5
    {
      range := 0xFFFF_FFFF;
      code := 0;
      initBytesLeft := 5;
    }

    // Sets every probability to one half.
    method ResetProbs()
      requires Valid()
      modifies probs
      ensures Valid() && forall i :: 0 <= i < PROBS_TOTAL ==> probs[i] == 1024
    {
      for i := 0 to PROBS_TOTAL
        invariant forall k :: 0 <= k < i ==> probs[k] == 1024
      {
        probs[i] := 1024;
      }
    }

    // Reads the initial bytes into code; false when the input ends before all are read.
    method ReadInit(b: XzBuf) returns (done: bool)
      requires Valid() && b.Valid()
      modifies this`code, this`initBytesLeft, b`inPos
      ensures Valid() && b.Valid()
      ensures initBytesLeft == old(initBytesLeft) - Min(old(initBytesLeft), |b.input| - old(b.inPos))
      ensures b.inPos == old(b.inPos) + (old(initBytesLeft) - initBytesLeft)
      ensures code == InitCode(old(code), b.input[old(b.inPos)..b.inPos])
      ensures done <==> initBytesLeft == 0
      ensures !done ==> b.inPos == |b.input|
    {
      while initBytesLeft > 0
        invariant b.Valid() && Valid()
        invariant 0 <= initBytesLeft <= old(initBytesLeft)
        invariant b.inPos == old(b.inPos) + (old(initBytesLeft) - initBytesLeft)
        invariant code == InitCode(old(code), b.input[old(b.inPos)..b.inPos])
      {
        if b.inPos == |b.input| {
          return false;
        }
        ghost var seen := b.input[old(b.inPos)..b.inPos];
        code := Wrap32(code * 256 + b.input[b.inPos]);
        b.inPos := b.inPos + 1;
        initBytesLeft := initBytesLeft - 1;
        assert b.input[old(b.inPos)..b.inPos] == seen + [b.input[b.inPos - 1]];
      }
      return true;
    }

    // The closing normalisation, and the one before every bit. The byte it may read is in
    // the input.
    method Normalise()
      requires Valid() && Normalize(Value(), input).pos <= |input|
      modifies this`range, this`code, this`inPos
      ensures Valid() && Value() == Normalize(old(Value()), input)
    {
      if range < TOP_VALUE {
        range := range * 256;
        code := Wrap32(code * 256 + input[inPos]);
        inPos := inPos + 1;
      }
    }

    method Bit(i: nat) returns (bit: bool)
      requires Valid() && i < PROBS_TOTAL
      requires DecodeBit(Value(), i, input).0.pos <= |input|
      modifies this`range, this`code, this`inPos, probs
      ensures Valid() && (Value(), bit) == DecodeBit(old(Value()), i, input)
    {
      hide Bound;
      Normalise();
      var bound := Bound(range, probs[i]);
      if code < bound {
        range := bound;
        probs[i] := Adapt(probs[i], false);
        bit := false;
      } else {
        range := range - bound;
        code := code - bound;
        probs[i] := Adapt(probs[i], true);
        bit := true;
      }
      assert probs[..] == old(probs[..])[i := probs[i]];
    }

    // Decodes a tree of limit leaves. The loop ends when the symbol reaches limit, which is
    // after exactly count bits.
    method Tree(base: int, limit: nat, ghost count: nat) returns (symbol: nat)
      requires Valid() && 0 < count && limit == Pow2(count) && TreeFits(base, 1, count)
      requires DecodeTree(Value(), base, 1, count, input).0.pos <= |input|
      modifies this`range, this`code, this`inPos, probs
      ensures Valid() && (Value(), symbol) == DecodeTree(old(Value()), base, 1, count, input)
    {
      hide DecodeBit;
      symbol := 1;
      ghost var left := count;
      while true
        invariant 0 < left <= count && Valid() && TreeFits(base, symbol, left)
        invariant Pow2(count - left) <= symbol < 2 * Pow2(count - left)
        invariant DecodeTree(Value(), base, symbol, left, input) == DecodeTree(old(Value()), base, 1, count, input)
        decreases left
      {
        var bit := Bit(base + symbol);
        if bit {
          symbol := 2 * symbol + 1;
        } else {
          symbol := 2 * symbol;
        }
        left := left - 1;
        assert Pow2(count - left) == 2 * Pow2(count - left - 1);
        if symbol >= limit {
          if left > 0 { Pow2Monotone(count - left + 1, count); }
          break;
        }
      }
    }

    // The eight bits of a literal that follows a match; matchByte is twice the byte at rep0.
    method MatchedTree(base: nat, matchByte: nat) returns (symbol: nat)
      requires Valid() && MatchedFits(base, 1, 0x100, 8)
      requires DecodeMatched(Value(), base, 1, matchByte, 0x100, 8, input).0.pos <= |input|
      modifies this`range, this`code, this`inPos, probs
      ensures Valid() && (Value(), symbol) == DecodeMatched(old(Value()), base, 1, matchByte, 0x100, 8, input)
    {
      hide DecodeBit, MatchBit, MatchedFits, NextOffset, DecodeMatched;
      symbol := 1;
      var byteBits, offset := matchByte, 0x100;
      ghost var left, goal := 8, DecodeMatched(Value(), base, 1, matchByte, 0x100, 8, input);
      while true
        invariant 0 < left <= 8 && Valid() && MatchedFits(base, symbol, offset, left)
        invariant DecodeMatched(Value(), base, symbol, byteBits, offset, left, input) == goal
        decreases left
      {
        var matchBit := MatchBit(byteBits, offset);
        DecodeMatchedStep(Value(), base, symbol, byteBits, offset, left, input);
        byteBits := 2 * byteBits;
        var bit := Bit(base + offset + matchBit + symbol);
        if bit {
          symbol := 2 * symbol + 1;
        } else {
          symbol := 2 * symbol;
        }
        offset := NextOffset(offset, matchBit, bit);
        left := left - 1;
        MatchedFitsEnd(base, symbol, offset, left);
        DecodeMatchedEnd(Value(), base, symbol, byteBits, offset, input);
        if symbol >= 0x100 {
          break;
        }
      }
    }

    // The same from the least significant bit, for exactly limit bits; the value is added
    // to dest.
    method ReverseTree(base: int, dest: nat, limit: nat) returns (sum: nat)
      requires Valid() && 0 < limit && TreeFits(base, 1, limit)
      requires DecodeReverseTree(Value(), base, 1, 0, limit, input).0.pos <= |input|
      modifies this`range, this`code, this`inPos, probs
      ensures Valid() && (Value(), sum - dest) == DecodeReverseTree(old(Value()), base, 1, 0, limit, input)
    {
      hide DecodeBit;
      var symbol: nat, i: nat := 1, 0;
      sum := dest;
      ghost var goal := DecodeReverseTree(Value(), base, 1, 0, limit, input);
      while true
        invariant 0 <= i < limit && Valid() && TreeFits(base, symbol, limit - i)
        invariant var (c, rest) := DecodeReverseTree(Value(), base, symbol, i, limit - i, input);
                  goal == (c, sum - dest + rest)
        decreases limit - i
      {
        var bit := Bit(base + symbol);
        if bit {
          symbol := 2 * symbol + 1;
          sum := sum + Pow2(i);
        } else {
          symbol := 2 * symbol;
        }
        i := i + 1;
        if i >= limit {
          break;
        }
      }
    }

    // limit equiprobable bits, appended to dest, by the branch-free sequence on 32-bit words.
    method Direct(dest: u32, limit: nat) returns (result: u32)
      requires Valid() && 0 < limit
      requires DecodeDirect(Value(), dest, limit, input).0.pos <= |input|
      requires DecodeDirect(Value(), dest, limit, input).1 < 0x1_0000_0000
      modifies this`range, this`code, this`inPos
      ensures Valid() && (Value(), result) == DecodeDirect(old(Value()), dest, limit, input)
    {
      hide Normalize, SplitDirect, DecodeDirect, Wrap32;
      result := dest;
      var left := limit;
      ghost var goal, n0 := DecodeDirect(Value(), dest, limit, input), probs[..];
      while true
        invariant 0 < left <= limit && Valid()
        invariant Value().probs == n0 && DecodeDirect(Value(), result, left, input) == goal
        decreases left
      {
        DirectGrows(Normalize(Value(), input), result, left, input, Value());
        Normalise();
        ghost var n := Value();
        range := range / 2;
        code := Wrap32(code - range);
        var mask: int := Wrap32(0 - code / 0x8000_0000);
        MaskForm(n, mask, result);
        code := Wrap32(code + And(range, mask));
        result := Wrap32(Wrap32(2 * result) + Wrap32(1 + mask));
        left := left - 1;
        if left == 0 {
          DirectNothing(Value(), result, input);
          break;
        }
      }
    }
  }

  // range & mask, for a mask of all ones or all zeros.
  function And(range: u32, mask: u32): u32 {
    if mask == 0 then 0 else range
  }

  // What the mask computed from the wrapped difference does, word by word.
  lemma MaskForm(n: Coder, mask: u32, dest: u32)
    requires Sound(n) && TOP_VALUE <= n.range
    requires mask == Wrap32(0 - Wrap32(n.code - n.range / 2) / 0x8000_0000)
    ensures var (r, bit) := SplitDirect(n);
            && r == Coder(n.range / 2, Wrap32(Wrap32(n.code - n.range / 2) + And(n.range / 2, mask)), n.pos, n.probs)
            && (2 * dest + BitValue(bit) < 0x1_0000_0000 ==>
                  Wrap32(Wrap32(2 * dest) + Wrap32(mask + 1)) == 2 * dest + BitValue(bit))
  {
    var diff := Wrap32(n.code - n.range / 2);
    if diff >= 0x8000_0000 {
      assert diff / 0x8000_0000 == 1 && mask == 0xFFFF_FFFF;
    } else {
      assert diff / 0x8000_0000 == 0 && mask == 0;
      assert Wrap32(diff + 0) == diff;
    }
  }

  lemma DirectNothing(c: Coder, dest: nat, input: seq<byte>)
    requires Sound(c)
    ensures DecodeDirect(c, dest, 0, input) == (c, dest)
  {
  }

  // The value only grows, so it fits 32 bits all the way when it does at the end.
  lemma DirectGrows(n: Coder, dest: nat, count: nat, input: seq<byte>, c: Coder)
    requires Sound(c) && 0 < count && n == Normalize(c, input)
    ensures var (c1, bit) := SplitDirect(n);
            && DecodeDirect(c, dest, count, input) == DecodeDirect(c1, 2 * dest + BitValue(bit), count - 1, input)
            && n.pos <= DecodeDirect(c, dest, count, input).0.pos
            && 2 * dest + BitValue(bit) <= DecodeDirect(c, dest, count, input).1
  {
    var (c1, bit) := SplitDirect(n);
    var d := 2 * dest + BitValue(bit);
    DecodeDirectRange(c1, d, count - 1, input);
    MulMonotone(d, 1, Pow2(count - 1));
  }
}
