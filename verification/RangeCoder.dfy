// The adaptive binary range decoder of LZMA, as functions on values.
module RangeCoder {
  import opened Words

  const TOP_VALUE := 0x100_0000          // 2^24
  const BIT_MODEL_TOTAL := 2048
  const MIN_RANGE := 31 * 0x2000         // smallest range a single decoded bit can leave
  const PROBS_TOTAL := 1846 + 16 * 0x300

  // An adaptive probability. The bounds are what adaptation keeps, see AdaptIsExact.
  type Prob = p: int | 31 <= p <= 2017 witness 1024

  // The decoder's registers, its position in the input buffer and all probabilities, in the
  // flat layout that lzma_reset itself relies on.
  datatype Coder = Coder(range: u32, code: u32, pos: nat, probs: seq<Prob>)

  ghost predicate Sound(c: Coder) {
    MIN_RANGE <= c.range && |c.probs| == PROBS_TOTAL
  }

  function Adapt(p: int, bit: bool): int
    requires 0 <= p <= BIT_MODEL_TOTAL
  {
    if bit then p - p / 32 else p + (BIT_MODEL_TOTAL - p) / 32
  }

  // [31, 2017] is exactly the smallest interval around 1024 closed under adaptation.
  lemma AdaptIsExact(lo: int, hi: int)
    requires 0 <= lo <= 1024 <= hi <= BIT_MODEL_TOTAL
    ensures (forall p, bit | lo <= p <= hi :: lo <= Adapt(p, bit) <= hi) <==> lo <= 31 && 2017 <= hi
  {
    if lo > 31 {
      assert Adapt(lo, true) < lo;
    }
    if hi < 2017 {
      assert Adapt(hi, false) > hi;
    }
    if lo <= 31 && 2017 <= hi {
      forall p, bit | lo <= p <= hi
        ensures lo <= Adapt(p, bit) <= hi
      {
        if p <= 31 { assert p / 32 == 0; }
        if p >= 2017 { assert (BIT_MODEL_TOTAL - p) / 32 == 0; }
      }
    }
  }

  function Normalize(c: Coder, input: seq<byte>): (r: Coder)
    requires Sound(c)
    ensures Sound(r) && TOP_VALUE <= r.range && c.pos <= r.pos <= c.pos + 1 && r.probs == c.probs
  {
    if c.range < TOP_VALUE then
      Coder(c.range * 256, Wrap32(c.code * 256 + ByteAt(input, c.pos)), c.pos + 1, c.probs)
    else
      c
  }

  function Bound(range: u32, p: Prob): (r: int)
    requires TOP_VALUE <= range
    ensures MIN_RANGE <= r <= range - MIN_RANGE
    ensures range <= 67 * r && range <= 67 * (range - r)
  {
    var q := range / 2048;
    MulMonotone(q, 31, p);
    MulMonotone(q, p, 2017);
    q * p
  }

  // One modelled bit, after normalisation.
  function SplitBit(c: Coder, i: nat): (r: (Coder, bool))
    requires Sound(c) && TOP_VALUE <= c.range && i < PROBS_TOTAL
    ensures Sound(r.0) && r.0.pos == c.pos && c.range <= 67 * r.0.range
  {
    var p := c.probs[i];
    var bound := Bound(c.range, p);
    if c.code < bound then
      (Coder(bound, c.code, c.pos, c.probs[i := Adapt(p, false)]), false)
    else
      (Coder(c.range - bound, c.code - bound, c.pos, c.probs[i := Adapt(p, true)]), true)
  }

  function DecodeBit(c: Coder, i: nat, input: seq<byte>): (r: (Coder, bool))
    requires Sound(c) && i < PROBS_TOTAL
    ensures Sound(r.0) && c.pos <= r.0.pos
  {
    SplitBit(Normalize(c, input), i)
  }

  function BitValue(bit: bool): nat {
    if bit then 1 else 0
  }

  // Every node of the tree below symbol, count levels deep, has its probability in the table.
  ghost predicate TreeFits(base: int, symbol: nat, count: nat)
    decreases count
  {
    && 0 <= base + symbol
    && (count > 0 ==>
          && base + symbol < PROBS_TOTAL
          && TreeFits(base, 2 * symbol, count - 1)
          && TreeFits(base, 2 * symbol + 1, count - 1))
  }

  // A probability tree walked from the most significant bit; count bits are still to come.
  function DecodeTree(c: Coder, base: int, symbol: nat, count: nat, input: seq<byte>): (r: (Coder, nat))
    requires Sound(c) && TreeFits(base, symbol, count)
    ensures Sound(r.0) && c.pos <= r.0.pos
    decreases count
  {
    if count == 0 then
      (c, symbol)
    else
      var (c1, bit) := DecodeBit(c, base + symbol, input);
      DecodeTree(c1, base, 2 * symbol + BitValue(bit), count - 1, input)
  }

  // A probability tree walked from the least significant bit. The value of the i-th bit is 2^i.
  function DecodeReverseTree(c: Coder, base: int, symbol: nat, i: nat, count: nat, input: seq<byte>): (r: (Coder, nat))
    requires Sound(c) && TreeFits(base, symbol, count)
    ensures Sound(r.0) && c.pos <= r.0.pos
    decreases count
  {
    if count == 0 then
      (c, 0)
    else
      var (c1, bit) := DecodeBit(c, base + symbol, input);
      var (c2, rest) := DecodeReverseTree(c1, base, 2 * symbol + BitValue(bit), i + 1, count - 1, input);
      (c2, rest + BitValue(bit) * Pow2(i))
  }

  // One equiprobable bit, after normalisation, in the branch-free form: the sign bit of
  // the wrapped difference becomes a mask.
  function SplitDirect(c: Coder): (r: (Coder, bool))
    requires Sound(c) && TOP_VALUE <= c.range
    ensures Sound(r.0) && r.0.pos == c.pos
    ensures r.0.range == c.range / 2
  {
    var half := c.range / 2;
    var diff := Wrap32(c.code - half);
    var negative := diff >= 0x8000_0000;
    (Coder(half, if negative then Wrap32(diff + half) else diff, c.pos, c.probs), !negative)
  }

  // count direct bits appended below dest, in 32-bit arithmetic.
  function DecodeDirect(c: Coder, dest: nat, count: nat, input: seq<byte>): (r: (Coder, nat))
    requires Sound(c)
    ensures Sound(r.0) && c.pos <= r.0.pos
    decreases count
  {
    if count == 0 then
      (c, dest)
    else
      var (c1, bit) := SplitDirect(Normalize(c, input));
      DecodeDirect(c1, 2 * dest + BitValue(bit), count - 1, input)
  }

  /* ---- The values trees and direct bits can take ---- */

  lemma {:induction false} TreeFitsWithin(base: int, symbol: nat, count: nat)
    requires 0 <= base + symbol
    requires count > 0 ==> base + (symbol + 1) * Pow2(count - 1) <= PROBS_TOTAL
    ensures TreeFits(base, symbol, count)
    decreases count
  {
    if count > 0 {
      MulMonotone(symbol + 1, 1, Pow2(count - 1));
      if count > 1 {
        var p := Pow2(count - 2);
        assert (symbol + 1) * Pow2(count - 1) == (2 * symbol + 2) * p;
        assert (2 * symbol + 1) * p <= (2 * symbol + 2) * p;
      }
      TreeFitsWithin(base, 2 * symbol, count - 1);
      TreeFitsWithin(base, 2 * symbol + 1, count - 1);
    }
  }

  lemma JoinHalves(s: nat, bit: bool, p: nat, v: int)
    requires (2 * s + BitValue(bit)) * p <= v < (2 * s + BitValue(bit) + 1) * p
    ensures s * (2 * p) <= v < (s + 1) * (2 * p)
  {
    assert s * (2 * p) == 2 * (s * p);
    assert (2 * s) * p == 2 * (s * p);
    assert (s + 1) * (2 * p) == 2 * (s * p) + 2 * p;
    assert (2 * s + 1) * p == 2 * (s * p) + p;
    assert (2 * s + 2) * p == 2 * (s * p) + 2 * p;
  }

  lemma {:induction false} DecodeTreeRange(c: Coder, base: int, symbol: nat, count: nat, input: seq<byte>)
    requires Sound(c) && TreeFits(base, symbol, count)
    ensures symbol * Pow2(count) <= DecodeTree(c, base, symbol, count, input).1 < (symbol + 1) * Pow2(count)
    decreases count
  {
    hide DecodeBit;
    if count > 0 {
      var (c1, bit) := DecodeBit(c, base + symbol, input);
      DecodeTreeRange(c1, base, 2 * symbol + BitValue(bit), count - 1, input);
      JoinHalves(symbol, bit, Pow2(count - 1), DecodeTree(c, base, symbol, count, input).1);
    }
  }

  lemma {:induction false} DecodeReverseTreeRange(c: Coder, base: int, symbol: nat, i: nat, count: nat, input: seq<byte>)
    requires Sound(c) && TreeFits(base, symbol, count)
    ensures DecodeReverseTree(c, base, symbol, i, count, input).1 <= Pow2(i + count) - Pow2(i)
    decreases count
  {
    hide DecodeBit;
    if count > 0 {
      var (c1, bit) := DecodeBit(c, base + symbol, input);
      DecodeReverseTreeRange(c1, base, 2 * symbol + BitValue(bit), i + 1, count - 1, input);
      assert Pow2(i + 1 + (count - 1)) == Pow2(i + count);
    }
  }

  lemma {:induction false} DecodeDirectRange(c: Coder, dest: nat, count: nat, input: seq<byte>)
    requires Sound(c)
    ensures dest * Pow2(count) <= DecodeDirect(c, dest, count, input).1 < (dest + 1) * Pow2(count)
    decreases count
  {
    hide Normalize, SplitDirect;
    if count > 0 {
      var (c1, bit) := SplitDirect(Normalize(c, input));
      DecodeDirectRange(c1, 2 * dest + BitValue(bit), count - 1, input);
      JoinHalves(dest, bit, Pow2(count - 1), DecodeDirect(c, dest, count, input).1);
    }
  }

  /* ---- What normalisation and single bits keep ---- */

  // From code < range a modelled bit keeps code < range, for every probability and input byte.
  lemma BitKeepsCodeBelowRange(c: Coder, i: nat, input: seq<byte>)
    requires Sound(c) && i < PROBS_TOTAL && c.code < c.range
    ensures DecodeBit(c, i, input).0.code < DecodeBit(c, i, input).0.range
    ensures Normalize(c, input).code < Normalize(c, input).range
  {
    var n := Normalize(c, input);
    if c.range < TOP_VALUE {
      assert c.code * 256 + ByteAt(input, c.pos) < c.range * 256;
    }
    var b := Bound(n.range, n.probs[i]);
  }

  // From code < range the branch-free direct bit is "compare with half the range and
  // subtract"; it leaves code <= range, with equality exactly for an odd range whose code
  // was the largest possible one.
  lemma DirectIsCompareSubtract(c: Coder)
    requires Sound(c) && TOP_VALUE <= c.range && c.code < c.range
    ensures var half := c.range / 2;
            var (r, bit) := SplitDirect(c);
            && bit == (half <= c.code)
            && r.code == (if bit then c.code - half else c.code)
            && r.code <= r.range
            && (r.code == r.range <==> c.range % 2 == 1 && c.code == c.range - 1)
  {
    var half := c.range / 2;
    if c.code < half {
      assert Wrap32(c.code - half) == c.code - half + 0x1_0000_0000;
    } else {
      assert Wrap32(c.code - half) == c.code - half;
    }
  }

  /* ---- Splitting the input: only the bytes before the final position matter ---- */

  // The two buffers hold the same bytes at positions [lo, hi) of the first, shifted by delta.
  ghost predicate Agree(a: seq<byte>, b: seq<byte>, delta: int, lo: int, hi: int) {
    forall i {:trigger ByteAt(a, i)} :: lo <= i < hi ==> ByteAt(a, i) == ByteAt(b, i + delta)
  }

  function Shift(c: Coder, delta: int): Coder
    requires 0 <= c.pos + delta
  {
    c.(pos := c.pos + delta)
  }

  // r and s come from decoding the same thing in two buffers that agree below hi: either
  // both stayed below hi and are the same, or both ran past it.
  ghost predicate SameUpTo(r: Coder, s: Coder, delta: int, hi: int) {
    && 0 <= r.pos + delta
    && (if r.pos <= hi then s == Shift(r, delta) else hi + delta < s.pos)
  }

  lemma NormalizeLocal(c: Coder, a: seq<byte>, b: seq<byte>, delta: int, hi: int)
    requires Sound(c) && 0 <= c.pos + delta && Agree(a, b, delta, c.pos, hi)
    ensures SameUpTo(Normalize(c, a), Normalize(Shift(c, delta), b), delta, hi)
    ensures Normalize(Shift(c, delta), b).pos == Normalize(c, a).pos + delta
  {
    assert c.pos < hi ==> ByteAt(a, c.pos) == ByteAt(b, c.pos + delta);
  }

  lemma DecodeBitLocal(c: Coder, i: nat, a: seq<byte>, b: seq<byte>, delta: int, hi: int)
    requires Sound(c) && i < PROBS_TOTAL && 0 <= c.pos + delta && Agree(a, b, delta, c.pos, hi)
    ensures SameUpTo(DecodeBit(c, i, a).0, DecodeBit(Shift(c, delta), i, b).0, delta, hi)
    ensures DecodeBit(c, i, a).0.pos <= hi ==> DecodeBit(c, i, a).1 == DecodeBit(Shift(c, delta), i, b).1
  {
    NormalizeLocal(c, a, b, delta, hi);
  }

  lemma {:induction false} DecodeTreeLocal(c: Coder, base: int, symbol: nat, count: nat, a: seq<byte>, b: seq<byte>, delta: int, hi: int)
    requires Sound(c) && TreeFits(base, symbol, count) && 0 <= c.pos + delta && Agree(a, b, delta, c.pos, hi)
    ensures SameUpTo(DecodeTree(c, base, symbol, count, a).0, DecodeTree(Shift(c, delta), base, symbol, count, b).0, delta, hi)
    ensures DecodeTree(c, base, symbol, count, a).0.pos <= hi ==>
              DecodeTree(c, base, symbol, count, a).1 == DecodeTree(Shift(c, delta), base, symbol, count, b).1
    decreases count
  {
    hide DecodeBit;
    if count > 0 {
      DecodeBitLocal(c, base + symbol, a, b, delta, hi);
      var (c1, bit) := DecodeBit(c, base + symbol, a);
      if c1.pos <= hi {
        DecodeTreeLocal(c1, base, 2 * symbol + BitValue(bit), count - 1, a, b, delta, hi);
      }
    }
  }

  lemma {:induction false} DecodeReverseTreeLocal(c: Coder, base: int, symbol: nat, i: nat, count: nat, a: seq<byte>, b: seq<byte>, delta: int, hi: int)
    requires Sound(c) && TreeFits(base, symbol, count) && 0 <= c.pos + delta && Agree(a, b, delta, c.pos, hi)
    ensures SameUpTo(DecodeReverseTree(c, base, symbol, i, count, a).0,
                     DecodeReverseTree(Shift(c, delta), base, symbol, i, count, b).0, delta, hi)
    ensures DecodeReverseTree(c, base, symbol, i, count, a).0.pos <= hi ==>
              DecodeReverseTree(c, base, symbol, i, count, a).1 == DecodeReverseTree(Shift(c, delta), base, symbol, i, count, b).1
    decreases count
  {
    hide DecodeBit;
    if count > 0 {
      DecodeBitLocal(c, base + symbol, a, b, delta, hi);
      var (c1, bit) := DecodeBit(c, base + symbol, a);
      if c1.pos <= hi {
        DecodeReverseTreeLocal(c1, base, 2 * symbol + BitValue(bit), i + 1, count - 1, a, b, delta, hi);
      }
    }
  }

  lemma {:induction false} DecodeDirectLocal(c: Coder, dest: nat, count: nat, a: seq<byte>, b: seq<byte>, delta: int, hi: int)
    requires Sound(c) && 0 <= c.pos + delta && Agree(a, b, delta, c.pos, hi)
    ensures SameUpTo(DecodeDirect(c, dest, count, a).0, DecodeDirect(Shift(c, delta), dest, count, b).0, delta, hi)
    ensures DecodeDirect(c, dest, count, a).0.pos <= hi ==>
              DecodeDirect(c, dest, count, a).1 == DecodeDirect(Shift(c, delta), dest, count, b).1
    decreases count
  {
    hide Normalize;
    if count > 0 {
      NormalizeLocal(c, a, b, delta, hi);
      var (c1, bit) := SplitDirect(Normalize(c, a));
      if c1.pos <= hi {
        DecodeDirectLocal(c1, 2 * dest + BitValue(bit), count - 1, a, b, delta, hi);
      }
    }
  }

  /* ---- How many bytes a run of bits can need ---- */

  // What a modelled bits and d direct bits may divide the range by, with room for rounding:
  // a modelled bit divides by at most 67, a direct bit by at most 2.01.
  ghost function Price(a: nat, d: nat): (r: real)
    ensures r >= 1.0
  {
    if a > 0 then 67.0 * Price(a - 1, d) else if d > 0 then 2.01 * Price(0, d - 1) else 1.0
  }

  // x multiplied by 256 once for each of n bytes.
  ghost function Scaled(x: real, n: nat): real {
    if n == 0 then x else 256.0 * Scaled(x, n - 1)
  }

  // With n more bytes the decoder can pay for a modelled and d direct bits: multiplying
  // the range by 256 per byte keeps it at 2^24 before every one of them.
  ghost predicate Funded(c: Coder, n: nat, a: nat, d: nat) {
    16777216.0 * Price(a, d) <= 67.0 * Scaled(c.range as real, n)
  }

  lemma {:induction false} DirectPrice(a: nat, d: nat)
    requires d > 0
    ensures Price(a, d) == 2.01 * Price(a, d - 1)
    decreases a
  {
    if a > 0 { DirectPrice(a - 1, d); }
  }

  lemma {:induction false} ScaledMonotone(k: real, x: real, y: real, n: nat)
    requires x <= k * y && (k == 67.0 || k == 2.01 || k == 1.0)
    ensures Scaled(x, n) <= k * Scaled(y, n)
    decreases n
  {
    if n > 0 { ScaledMonotone(k, x, y, n - 1); }
  }

  lemma {:induction false} ScaledByte(x: real, n: nat)
    ensures Scaled(256.0 * x, n) == Scaled(x, n + 1)
    decreases n
  {
    if n > 0 { ScaledByte(x, n - 1); }
  }

  // Normalising spends a byte and keeps the funding; when bits are still to be decoded and
  // no byte is left, the range is already large enough.
  lemma NormalizeFunded(c: Coder, input: seq<byte>, n: nat, a: nat, d: nat)
    requires Sound(c) && Funded(c, n, a, d) && a > 0
    ensures var r := Normalize(c, input);
            && r.pos - c.pos <= n
            && Funded(r, n - (r.pos - c.pos), a, d)
  {
    if c.range < TOP_VALUE && n > 0 {
      ScaledByte(c.range as real, n - 1);
    }
  }

  lemma DecodeBitFunded(c: Coder, i: nat, input: seq<byte>, n: nat, a: nat, d: nat)
    requires Sound(c) && i < PROBS_TOTAL && Funded(c, n, a, d) && a > 0
    ensures var r := DecodeBit(c, i, input).0;
            && r.pos - c.pos <= n
            && Funded(r, n - (r.pos - c.pos), a - 1, d)
  {
    NormalizeFunded(c, input, n, a, d);
    var m := Normalize(c, input);
    var r := SplitBit(m, i).0;
    ScaledMonotone(67.0, m.range as real, r.range as real, n - (m.pos - c.pos));
  }

  lemma {:induction false} DecodeTreeFunded(c: Coder, base: int, symbol: nat, count: nat, input: seq<byte>, n: nat, a: nat, d: nat)
    requires Sound(c) && TreeFits(base, symbol, count)
    requires Funded(c, n, a, d) && count <= a
    ensures var r := DecodeTree(c, base, symbol, count, input).0;
            && r.pos - c.pos <= n
            && Funded(r, n - (r.pos - c.pos), a - count, d)
    decreases count
  {
    hide DecodeBit;
    if count > 0 {
      DecodeBitFunded(c, base + symbol, input, n, a, d);
      var (c1, bit) := DecodeBit(c, base + symbol, input);
      DecodeTreeFunded(c1, base, 2 * symbol + BitValue(bit), count - 1, input, n - (c1.pos - c.pos), a - 1, d);
    }
  }

  lemma {:induction false} DecodeReverseTreeFunded(c: Coder, base: int, symbol: nat, i: nat, count: nat, input: seq<byte>, n: nat, a: nat, d: nat)
    requires Sound(c) && TreeFits(base, symbol, count)
    requires Funded(c, n, a, d) && count <= a
    ensures var r := DecodeReverseTree(c, base, symbol, i, count, input).0;
            && r.pos - c.pos <= n
            && Funded(r, n - (r.pos - c.pos), a - count, d)
    decreases count
  {
    hide DecodeBit;
    if count > 0 {
      DecodeBitFunded(c, base + symbol, input, n, a, d);
      var (c1, bit) := DecodeBit(c, base + symbol, input);
      DecodeReverseTreeFunded(c1, base, 2 * symbol + BitValue(bit), i + 1, count - 1, input, n - (c1.pos - c.pos), a - 1, d);
    }
  }

  lemma {:induction false} DecodeDirectFunded(c: Coder, dest: nat, count: nat, input: seq<byte>, n: nat, a: nat, d: nat)
    requires Sound(c) && Funded(c, n, a, d) && count <= d && a > 0
    ensures var r := DecodeDirect(c, dest, count, input).0;
            && r.pos - c.pos <= n
            && Funded(r, n - (r.pos - c.pos), a, d - count)
    decreases count
  {
    if count > 0 {
      NormalizeFunded(c, input, n, a, d);
      var m := Normalize(c, input);
      var (c1, bit) := SplitDirect(m);
      DirectPrice(a, d);
      ScaledMonotone(2.01, m.range as real, c1.range as real, n - (m.pos - c.pos));
      DecodeDirectFunded(c1, 2 * dest + BitValue(bit), count - 1, input, n - (m.pos - c.pos), a, d - 1);
    }
  }

  // Funds left over may be ignored.
  lemma {:induction false} FundedLess(c: Coder, n: nat, a: nat, d: nat, a': nat, d': nat)
    requires Funded(c, n, a, d) && a' <= a && d' <= d
    ensures Funded(c, n, a', d')
    decreases a - a', d - d'
  {
    if a' < a {
      FundedLess(c, n, a - 1, d, a', d');
    } else if d' < d {
      DirectPrice(a, d);
      FundedLess(c, n, a, d - 1, a', d');
    }
  }

  ghost function Power(x: real, n: nat): real {
    if n == 0 then 1.0 else x * Power(x, n - 1)
  }

  lemma {:induction false} PowerAdd(x: real, m: nat, n: nat)
    ensures Power(x, m + n) == Power(x, m) * Power(x, n)
  {
    if m > 0 {
      PowerAdd(x, m - 1, n);
      assert Power(x, m + n) == x * Power(x, m - 1 + n);
    }
  }

  lemma {:induction false} PriceIsPower(a: nat, d: nat)
    ensures Price(a, d) == Power(67.0, a) * Power(2.01, d)
  {
    if a > 0 { PriceIsPower(a - 1, d); } else if d > 0 { PriceIsPower(0, d - 1); }
  }

  lemma {:induction false} ScaledIsPower(x: real, n: nat)
    ensures Scaled(x, n) == x * Power(256.0, n)
  {
    if n > 0 { ScaledIsPower(x, n - 1); }
  }

  lemma PowersOf67()
    ensures Power(67.0, 22) == 14915769363385151583217201855136979828889.0
  {
    assert Power(67.0, 2) == 4489.0;
    PowerAdd(67.0, 2, 2);
    PowerAdd(67.0, 4, 4);
    PowerAdd(67.0, 8, 8);
    PowerAdd(67.0, 16, 4);
    PowerAdd(67.0, 20, 2);
  }

  lemma PowersOf256()
    ensures Power(256.0, 20) == 1461501637330902918203684832716283019655932542976.0
  {
    assert Power(256.0, 2) == 65536.0;
    PowerAdd(256.0, 2, 2);
    PowerAdd(256.0, 4, 4);
    PowerAdd(256.0, 8, 8);
    PowerAdd(256.0, 16, 4);
  }

  lemma PowersOf201()
    ensures Power(2.01, 26) <= 76700000.0
  {
    assert Power(2.01, 2) == 4.0401;
    PowerAdd(2.01, 2, 2);
    PowerAdd(2.01, 4, 4);
    assert Power(2.01, 8) <= 266.43;
    PowerAdd(2.01, 8, 8);
    assert Power(2.01, 16) <= 70985.0;
    PowerAdd(2.01, 16, 8);
    assert Power(2.01, 24) <= 18912534.0;
    PowerAdd(2.01, 24, 2);
  }

  // The worst symbol, 22 modelled and 26 direct bits, is paid for by 20 bytes even when
  // the range has not been normalised since the previous bit.
  lemma TwentyBytesSuffice(c: Coder)
    requires Sound(c)
    ensures Funded(c, 20, 22, 26)
  {
    hide Power, Price, Scaled;
    PowersOf67();
    PowersOf256();
    PowersOf201();
    PriceIsPower(22, 26);
    ScaledIsPower(c.range as real, 20);
    assert c.range as real >= 253952.0;
    Enough();
  }

  lemma Enough()
    ensures 16777216.0 * (14915769363385151583217201855136979828889.0 * 76700000.0)
            <= 67.0 * (253952.0 * 1461501637330902918203684832716283019655932542976.0)
  {
  }
}
