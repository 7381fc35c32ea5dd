// The ARM-Thumb branch filter: the targets of BL instructions, made absolute by the encoder,
// are made relative again.
module ArmThumb {
  import opened Words

  // A BL instruction: 11 bits of its target in each of two halfwords.
  predicate IsCall(q: seq<byte>)
    requires 4 <= |q|
  {
    q[1] / 8 == 0x1E && q[3] / 8 == 0x1F
  }

  const TARGETS := 0x40_0000

  function Target(q: seq<byte>): (a: nat)
    requires 4 <= |q|
    ensures a < TARGETS
  {
    var b0: nat, b1: nat, b2: nat, b3: nat := q[0], q[1], q[2], q[3];
    b1 % 8 * 0x8_0000 + b0 * 0x800 + b3 % 8 * 0x100 + b2
  }

  function Call(a: nat): (q: seq<byte>)
    ensures |q| == 4 && IsCall(q)
  {
    [a / 0x800 % 0x100, 0xF0 + a / 0x8_0000 % 8, a % 0x100, 0xF8 + a / 0x100 % 8]
  }

  lemma CallOfTarget(q: seq<byte>)
    requires |q| == 4 && IsCall(q)
    ensures Call(Target(q)) == q
  {
    var a := Target(q);
    var b0: nat, b1: nat, b2: nat, b3: nat := q[0], q[1], q[2], q[3];
    assert a / 0x100 == b1 % 8 * 0x800 + b0 * 8 + b3 % 8;
    assert a / 0x800 == b1 % 8 * 0x100 + b0;
    assert a / 0x8_0000 == b1 % 8;
  }

  lemma TargetOfCall(a: nat)
    ensures Target(Call(a)) == a % TARGETS
  {
    var h, m := a / 0x800, a / 0x100;
    assert m == 8 * h + m % 8;
    assert h / 0x100 == a / 0x8_0000;
    var t := a / 0x8_0000;
    assert a == t / 8 * TARGETS + (t % 8 * 0x8_0000 + h % 0x100 * 0x800 + m % 8 * 0x100 + a % 0x100);
  }

  // The target of the instruction at position p, made relative (sign -1, as the decoder does)
  // or absolute (sign 1, as the encoder does). Both work in halfwords and in 32 bits.
  function Moved(a: nat, p: nat, sign: int): nat {
    Wrap32(2 * a + sign * (p + 4)) / 2
  }

  function Convert(q: seq<byte>, p: nat, sign: int): (r: seq<byte>)
    requires 4 <= |q|
    ensures |r| == 4 && IsCall(r)
  {
    Call(Moved(Target(q), p, sign))
  }

  /* ---- What the instruction means to a processor ---- */

  function Halfword(low: byte, high: byte): nat {
    high * 0x100 + low
  }

  // BL is two halfwords: 11110 and 11111, each with 11 bits of the distance in halfwords.
  lemma CallIsBranchWithLink(q: seq<byte>)
    requires 4 <= |q|
    ensures IsCall(q) <==> Halfword(q[0], q[1]) / 0x800 == 0x1E && Halfword(q[2], q[3]) / 0x800 == 0x1F
    ensures Target(q) == Halfword(q[0], q[1]) % 0x800 * 0x800 + Halfword(q[2], q[3]) % 0x800
  {
    HalfwordParts(q[0], q[1]);
    HalfwordParts(q[2], q[3]);
    hide Halfword;
  }

  lemma HalfwordParts(low: byte, high: byte)
    ensures Halfword(low, high) / 0x800 == high / 8
    ensures Halfword(low, high) % 0x800 == high % 8 * 0x100 + low
  {
    var t: nat := high / 8;
    assert Halfword(low, high) == t * 0x800 + (high % 8 * 0x100 + low);
  }

  // A branch goes to its own address, and 4, and the distance. After decoding, a BL at address
  // p goes to just what it carried before, within the 23 bits of a target.
  lemma DecodedGoesToTarget(q: seq<byte>, p: nat)
    requires |q| == 4 && IsCall(q) && p % 2 == 0
    ensures var r := Convert(q, p, -1);
            IsCall(r) && (p + 4 + 2 * Target(r)) % 0x80_0000 == 2 * Target(q)
  {
    hide Moved, Call, Target;
    var a, c := Target(q), p / 2 + 2;
    MovedEven(a, p, -1);
    TargetOfCall(Moved(a, p, -1));
    var t, k := (a - c) % TARGETS, (a - c) / TARGETS;
    assert a - c == TARGETS * k + t;
    assert c + t == a - TARGETS * k;
    assert (2 * (c + t)) % 0x80_0000 == 2 * a;
  }

  // The filter applied once to the whole of data, which starts at position p: instructions
  // start at even offsets, and one that has been converted is not looked at again.
  function Filter(data: seq<byte>, p: nat, sign: int): (r: seq<byte>)
    ensures |r| == |data|
  {
    if |data| < 4 then data
    else if IsCall(data) then Convert(data, p, sign) + Filter(data[4..], p + 4, sign)
    else data[..2] + Filter(data[2..], p + 2, sign)
  }

  // The scan of data comes by offset k.
  predicate Stop(data: seq<byte>, k: nat) {
    k == 0 || (4 <= |data| && if IsCall(data) then 4 <= k && Stop(data[4..], k - 4) else 2 <= k && Stop(data[2..], k - 2))
  }

  /* ---- The filter is a bijection ---- */

  lemma HalfOfEven(x: int)
    ensures Wrap32(2 * x) / 2 % TARGETS == x % TARGETS
  {
    var k := 2 * x / 0x1_0000_0000;
    assert Wrap32(2 * x) == 2 * (x - k * 0x8000_0000);
    var y := x - k * 0x8000_0000;
    assert y == x - TARGETS * (k * 0x200);
    ModuloShift(x, k * 0x200);
  }

  lemma ModuloShift(x: int, k: int)
    ensures (x - TARGETS * k) % TARGETS == x % TARGETS
  {
  }

  lemma MovedEven(a: nat, p: nat, sign: int)
    requires p % 2 == 0 && (sign == 1 || sign == -1)
    ensures Moved(a, p, sign) % TARGETS == (a + sign * (p / 2 + 2)) % TARGETS
  {
    HalfOfEven(a + sign * (p / 2 + 2));
  }

  lemma ConvertInverse(q: seq<byte>, p: nat, sign: int)
    requires |q| == 4 && IsCall(q) && p % 2 == 0 && (sign == 1 || sign == -1)
    ensures Convert(Convert(q, p, sign), p, -sign) == q
  {
    hide Moved, Target, Call;
    var m, c := Moved(Target(q), p, sign), p / 2 + 2;
    MovedEven(Target(q), p, sign);
    TargetOfCall(m);
    MovedEven(m % TARGETS, p, -sign);
    var back := Moved(m % TARGETS, p, -sign);
    assert back % TARGETS == Target(q) by {
      var k := (Target(q) + sign * c) / TARGETS;
      assert m % TARGETS == Target(q) + sign * c - TARGETS * k;
      assert m % TARGETS - sign * c == Target(q) - TARGETS * k;
      ModuloShift(Target(q), k);
    }
    CallModulo(back);
    CallOfTarget(q);
  }

  lemma CallModulo(a: nat)
    ensures Call(a) == Call(a % TARGETS)
  {
    hide Target;
    TargetOfCall(a);
    CallOfTarget(Call(a));
  }

  // The bits that tell instructions apart survive the conversion.
  lemma OpcodeSurvives(data: seq<byte>, p: nat, sign: int)
    requires 2 <= |data|
    ensures Filter(data, p, sign)[1] / 8 == data[1] / 8
  {
    hide Moved, Target;
  }

  // For every even start position the decoder's filter undoes the encoder's, and the other
  // way round: both scans stop at the same places.
  lemma {:induction false} FilterInverse(data: seq<byte>, p: nat, sign: int)
    requires p % 2 == 0 && (sign == 1 || sign == -1)
    ensures Filter(Filter(data, p, sign), p, -sign) == data
    decreases |data|
  {
    hide Convert;
    var f := Filter(data, p, sign);
    if |data| < 4 {
    } else if IsCall(data) {
      FilterInverse(data[4..], p + 4, sign);
      ConvertFront(data, p, sign);
      ConvertFront(f, p, -sign);
      ConvertInverse(data[..4], p, sign);
      assert f[..4] == Convert(data, p, sign) && f[4..] == Filter(data[4..], p + 4, sign);
      assert data == data[..4] + data[4..];
    } else {
      FilterInverse(data[2..], p + 2, sign);
      OpcodeSurvives(data[2..], p + 2, sign);
      assert f[..2] == data[..2] && f[2..] == Filter(data[2..], p + 2, sign);
      assert data == data[..2] + data[2..];
    }
  }

  lemma ConvertFront(q: seq<byte>, p: nat, sign: int)
    requires 4 <= |q|
    ensures Convert(q, p, sign) == Convert(q[..4], p, sign) && IsCall(q) == IsCall(q[..4])
  {
  }

  lemma FilterIsOneToOne(a: seq<byte>, b: seq<byte>, p: nat, sign: int)
    requires p % 2 == 0 && (sign == 1 || sign == -1) && Filter(a, p, sign) == Filter(b, p, sign)
    ensures a == b
  {
    FilterInverse(a, p, sign);
    FilterInverse(b, p, sign);
  }

  /* ---- The filter can be applied piece by piece ---- */

  lemma {:induction false} StopAdd(data: seq<byte>, j: nat, k: nat)
    requires Stop(data, j) && j <= |data| && Stop(data[j..], k)
    ensures Stop(data, j + k)
    decreases |data|
  {
    hide IsCall;
    if j > 0 {
      var n := if IsCall(data) then 4 else 2;
      StopWithin(data[n..], j - n);
      assert data[j..] == data[n..][j - n..];
      StopAdd(data[n..], j - n, k);
      assert j + k - n == (j - n) + k;
    }
  }

  lemma {:induction false} StopWithin(data: seq<byte>, k: nat)
    requires Stop(data, k)
    ensures k <= |data| && k % 2 == 0
    decreases |data|
  {
    if k > 0 {
      var n := if IsCall(data) then 4 else 2;
      StopWithin(data[n..], k - n);
    }
  }

  // How many bytes one round of the scan moves on by, and what it makes of them.
  function Width(data: seq<byte>): (n: nat)
    requires 4 <= |data|
    ensures n == 2 || n == 4
  {
    if IsCall(data) then 4 else 2
  }

  function Front(data: seq<byte>, p: nat, sign: int): (r: seq<byte>)
    requires 4 <= |data|
    ensures |r| == Width(data)
  {
    if IsCall(data) then Convert(data, p, sign) else data[..2]
  }

  lemma FilterIs(data: seq<byte>, p: nat, sign: int)
    requires 4 <= |data|
    ensures Filter(data, p, sign) == Front(data, p, sign) + Filter(data[Width(data)..], p + Width(data), sign)
  {
    hide IsCall, Convert;
  }

  lemma FrontOnly(data: seq<byte>, more: seq<byte>, p: nat, sign: int)
    requires 4 <= |data|
    ensures Width(data + more) == Width(data) && Front(data + more, p, sign) == Front(data, p, sign)
  {
    hide Convert, IsCall;
    ConvertFront(data + more, p, sign);
    ConvertFront(data, p, sign);
    assert (data + more)[..4] == data[..4];
    assert (data + more)[..2] == data[..2];
  }

  lemma StopIs(data: seq<byte>, k: nat)
    ensures 0 < k && Stop(data, k) ==> 4 <= |data| && Width(data) <= k && Stop(data[Width(data)..], k - Width(data))
    ensures 4 <= |data| && Width(data) <= k && Stop(data[Width(data)..], k - Width(data)) ==> Stop(data, k)
  {
    hide IsCall;
  }

  lemma StopZero(data: seq<byte>)
    ensures Stop(data, 0)
  {
  }

  // More data changes nothing before a stop, and goes on from it.
  lemma {:induction false} FilterSplits(data: seq<byte>, more: seq<byte>, p: nat, sign: int, k: nat)
    requires Stop(data, k)
    ensures k <= |data| && Stop(data + more, k)
    ensures Filter(data + more, p, sign) == Filter(data, p, sign)[..k] + Filter(data[k..] + more, p + k, sign)
    ensures Filter(data, p, sign) == Filter(data, p, sign)[..k] + Filter(data[k..], p + k, sign)
    decreases |data|
  {
    hide Filter, Stop, Front, Width;
    StopWithin(data, k);
    if k == 0 {
      StopZero(data + more);
      assert data[0..] == data;
    } else {
      StopIs(data, k);
      var n, front := Width(data), Front(data, p, sign);
      FilterSplits(data[n..], more, p + n, sign, k - n);
      FrontOnly(data, more, p, sign);
      assert (data + more)[n..] == data[n..] + more;
      StopIs(data + more, k);
      FilterIs(data, p, sign);
      FilterIs(data + more, p, sign);
      assert data[n..][k - n..] == data[k..];
      var g := Filter(data[n..], p + n, sign);
      Spliced(front, g, Filter(data[n..] + more, p + n, sign), k - n, Filter(data[k..] + more, p + k, sign));
      Spliced(front, g, g, k - n, Filter(data[k..], p + k, sign));
    }
  }

  lemma Spliced(front: seq<byte>, g: seq<byte>, g': seq<byte>, j: nat, h: seq<byte>)
    requires j <= |g| && g' == g[..j] + h
    ensures front + g' == (front + g)[..|front| + j] + h
  {
    assert (front + g)[..|front| + j] == front + g[..j];
  }

  // One round of the scan.
  lemma ScanStep(data: seq<byte>, p: nat, sign: int, i: nat)
    requires Stop(data, i) && i + 4 <= |data|
    ensures var n := if IsCall(data[i..]) then 4 else 2;
            && Stop(data, i + n)
            && Filter(data, p, sign)[..i + n] == Filter(data, p, sign)[..i] +
                 (if IsCall(data[i..]) then Convert(data[i..], p + i, sign) else data[i..i + 2])
  {
    hide Convert, IsCall;
    var n := if IsCall(data[i..]) then 4 else 2;
    FilterSplits(data, [], p, sign, i);
    assert Stop(data[i..][n..], 0);
    assert Stop(data[i..], n);
    StopAdd(data, i, n);
    assert data[i..][..2] == data[i..i + 2];
    assert Filter(data[i..], p + i, sign)[..n] == if IsCall(data[i..]) then Convert(data[i..], p + i, sign) else data[i..i + 2];
  }

  lemma ScanEnd(data: seq<byte>, p: nat, sign: int, i: nat)
    requires Stop(data, i) && i <= |data| < i + 4
    ensures Filter(data, p, sign) == Filter(data, p, sign)[..i] + data[i..]
  {
    FilterSplits(data, [], p, sign, i);
  }

  // Positions count modulo 2^32.
  lemma {:induction false} FilterWraps(data: seq<byte>, p: nat, sign: int)
    requires sign == 1 || sign == -1
    ensures Filter(data, Wrap32(p), sign) == Filter(data, p, sign)
  {
    FilterCongruent(data, Wrap32(p), p, sign, p / 0x1_0000_0000);
  }

  lemma {:induction false} FilterCongruent(data: seq<byte>, p: nat, q: nat, sign: int, k: int)
    requires q == p + 0x1_0000_0000 * k && (sign == 1 || sign == -1)
    ensures Filter(data, p, sign) == Filter(data, q, sign)
    decreases |data|
  {
    hide Moved, Target, Call, IsCall;
    if |data| < 4 {
    } else if IsCall(data) {
      MovedCongruent(Target(data), p, q, sign, k);
      FilterCongruent(data[4..], p + 4, q + 4, sign, k);
    } else {
      FilterCongruent(data[2..], p + 2, q + 2, sign, k);
    }
  }

  lemma MovedCongruent(a: nat, p: nat, q: nat, sign: int, k: int)
    requires q == p + 0x1_0000_0000 * k && (sign == 1 || sign == -1)
    ensures Moved(a, p, sign) == Moved(a, q, sign)
  {
    var x := 2 * a + sign * (p + 4);
    assert 2 * a + sign * (q + 4) == x + 0x1_0000_0000 * (sign * k);
    WrapShift(x, sign * k);
  }

  lemma WrapShift(x: int, k: int)
    ensures Wrap32(x + 0x1_0000_0000 * k) == Wrap32(x)
  {
  }
}

// The filter between the LZMA2 decoder and the caller. It looks four bytes ahead, so what
// cannot be filtered yet waits in a small buffer, which also takes over when the room for
// output is too small.
module BcjDecoders {
  import opened Words
  import opened ArmThumb
  import opened Lzma2Reference
  import opened Lzma2Decoders
  import opened Memory
  import opened XzBuffers

  // Of the raw bytes, some are delivered; size more are in temp, the first ones of them
  // filtered.
  ghost predicate Pending(raw: seq<byte>, delivered: seq<byte>, temp: seq<byte>, filtered: nat, size: nat) {
    && filtered <= size <= |temp| && |delivered| + size == |raw|
    && delivered + temp[..filtered] == Filter(raw, 0, -1)[..|delivered| + filtered]
    && temp[filtered..size] == raw[|delivered| + filtered..]
  }

  // More raw bytes may come.
  ghost predicate Open(raw: seq<byte>, delivered: seq<byte>, temp: seq<byte>, filtered: nat, size: nat, pos: u32) {
    && Pending(raw, delivered, temp, filtered, size) && size - filtered < 4
    && Stop(raw, |delivered| + filtered) && pos == Wrap32(|delivered| + filtered)
  }

  // data was given from position at on; what was written behind it, up to end, counts for
  // nothing.
  ghost predicate Gave(before: seq<byte>, after: seq<byte>, at: nat, data: seq<byte>, end: nat) {
    && |after| == |before| && at + |data| <= end <= |before|
    && after[..at] == before[..at] && after[at..at + |data|] == data && after[end..] == before[end..]
  }

  lemma WroteThere(before: seq<byte>, after: seq<byte>, at: nat, data: seq<byte>)
    requires Wrote(before, after, at, data)
    ensures |after| == |before| && at + |data| <= |after| && after[at..at + |data|] == data
  {
  }

  lemma GaveAll(before: seq<byte>, mid: seq<byte>, after: seq<byte>, at: nat, rest: seq<byte>, done: seq<byte>, i: nat, end: nat)
    requires Wrote(before, mid, at, rest) && Wrote(mid, after, at, done) && |rest| == |done| && i <= |done|
    requires at + |done| <= end <= |before|
    ensures Gave(before, after, at, done, end) && Gave(before, after, at, done[..i], end)
    ensures after[at + i..at + |done|] == done[i..]
  {
    assert after[..at] == mid[..at] == before[..at];
    assert after[at..at + |done|] == done;
    assert after[at..at + i] == after[at..at + |done|][..i];
    assert after[at + i..at + |done|] == after[at..at + |done|][i..];
    assert after[at + |done|..] == mid[at + |done|..] == before[at + |done|..];
    assert after[end..] == after[at + |done|..][end - at - |done|..];
    assert before[end..] == before[at + |done|..][end - at - |done|..];
  }

  lemma RawFollows(before: seq<byte>, mid: seq<byte>, after: seq<byte>, at: nat, temp: seq<byte>, more: seq<byte>)
    requires Wrote(before, mid, at, temp) && Wrote(mid, after, at + |temp|, more)
    ensures Wrote(before, after, at, temp + more) && after[at..at + |temp + more|] == temp + more
  {
    WroteMore(before, mid, after, at, temp, more);
    WroteThere(before, after, at, temp + more);
  }

  // The raw bytes at position at of the output have been filtered, the first i for good.
  lemma OutputFiltered(before: seq<byte>, mid: seq<byte>, after: seq<byte>, at: nat, raw: seq<byte>, delivered: seq<byte>,
                       temp: seq<byte>, size: nat, pos: u32, more: seq<byte>, i: nat, end: nat)
    requires Open(raw, delivered, temp, 0, size, pos)
    requires Stop(temp[..size] + more, i) && i <= size + |more| < i + 4
    requires Wrote(before, mid, at, temp[..size] + more) && Wrote(mid, after, at, Filter(temp[..size] + more, pos, -1))
    requires at + size + |more| <= end <= |before|
    ensures var done := Filter(temp[..size] + more, pos, -1);
            var rest := size + |more| - i;
            && Gave(before, after, at, done, end) && Gave(before, after, at, done[..i], end)
            && delivered + done == Filter(raw + more, 0, -1)
            && Open(raw + more, delivered + done[..i], after[at + i..at + i + rest], 0, rest, Wrap32(pos + i))
  {
    hide Filter, Stop, Wrote, Gave;
    var done := Filter(temp[..size] + more, pos, -1);
    FilterRest(raw, delivered, temp, size, pos, more);
    FilterMore(raw, delivered, temp, size, pos, more, i);
    GaveAll(before, mid, after, at, temp[..size] + more, done, i, end);
    assert delivered + done[..i] + after[at + i..at + size + |more|][..0] == delivered + done[..i];
  }

  lemma WroteAfter(before: seq<byte>, after: seq<byte>, at: nat, data: seq<byte>)
    requires Wrote(before, after, at, data)
    ensures at + |data| <= |after| == |before| && after[..at + |data|] == before[..at] + data
  {
  }

  // The raw bytes in the temporary buffer have been filtered, the first i for good.
  lemma TempFiltered(raw: seq<byte>, delivered: seq<byte>, temp: seq<byte>, size: nat, pos: u32, more: seq<byte>, i: nat, temp': seq<byte>)
    requires Open(raw, delivered, temp, 0, size, pos) && |temp'| == |temp| && size + |more| <= |temp|
    requires Stop(temp[..size] + more, i) && i <= size + |more| < i + 4
    requires temp'[..size + |more|] == Filter(temp[..size] + more, pos, -1)
    ensures Pending(raw + more, delivered, temp', i, size + |more|)
    ensures Pending(raw + more, delivered, temp', size + |more|, size + |more|)
    ensures Stop(raw + more, |delivered| + i) && Wrap32(pos + i) == Wrap32(|delivered| + i)
  {
    hide Filter, Stop, Open;
    OpenFits(raw, delivered, temp, 0, size, pos);
    OpenAt(raw, delivered, temp, size, pos, i);
    var done, n := Filter(temp[..size] + more, pos, -1), size + |more|;
    FilterRest(raw, delivered, temp, size, pos, more);
    FilterMore(raw, delivered, temp, size, pos, more, i);
    assert temp'[..i] == temp'[..n][..i];
    assert temp'[i..n] == temp'[..n][i..];
    assert Filter(raw + more, 0, -1)[..|delivered| + n] == Filter(raw + more, 0, -1);
    assert temp'[n..n] == (raw + more)[|delivered| + n..];
  }

  lemma OpenAt(raw: seq<byte>, delivered: seq<byte>, temp: seq<byte>, size: nat, pos: u32, i: nat)
    requires Open(raw, delivered, temp, 0, size, pos)
    ensures Wrap32(pos + i) == Wrap32(|delivered| + i)
  {
    hide Filter, Stop;
    WrapShift(|delivered| + i, -(|delivered| / 0x1_0000_0000));
  }

  // Flushing leaves the place where the filter stopped.
  lemma OpenKept(raw: seq<byte>, delivered: seq<byte>, temp: seq<byte>, filtered: nat, size: nat, pos: u32)
    requires Pending(raw, delivered, temp, filtered, size)
    ensures size - filtered < 4 && Stop(raw, |delivered| + filtered) && pos == Wrap32(|delivered| + filtered) ==>
              Open(raw, delivered, temp, filtered, size, pos)
    ensures size == 0 ==> delivered == Filter(raw, 0, -1)
  {
    hide Filter, Stop;
    if size == 0 {
      assert delivered + temp[..0] == delivered;
    }
  }

  lemma GaveNothing(s: seq<byte>, at: nat, end: nat)
    requires at <= end <= |s|
    ensures Gave(s, s, at, [], end)
  {
  }

  lemma GaveWrote(before: seq<byte>, after: seq<byte>, at: nat, data: seq<byte>, end: nat)
    requires Wrote(before, after, at, data) && at + |data| <= end <= |before|
    ensures Gave(before, after, at, data, end)
  {
    assert after[end..] == before[end..];
  }

  // Two calls give what one call would.
  lemma GaveMore(s0: seq<byte>, s1: seq<byte>, s2: seq<byte>, at: nat, d0: seq<byte>, d1: seq<byte>, d2: seq<byte>, end: nat)
    requires d0 <= d1 <= d2 && Gave(s0, s1, at, d1[|d0|..], end) && Gave(s1, s2, at + |d1| - |d0|, d2[|d1|..], end)
    ensures Gave(s0, s2, at, d2[|d0|..], end)
  {
    var m, n := at + |d1| - |d0|, at + |d2| - |d0|;
    assert d2[|d0|..] == d1[|d0|..] + d2[|d1|..];
    assert s2[..at] == s2[..m][..at] == s1[..m][..at] == s1[..at];
    assert s2[at..m] == s2[..m][at..] == s1[..m][at..] == s1[at..m];
    assert s2[at..n] == s2[at..m] + s2[m..n];
  }

  lemma GaveThen(s0: seq<byte>, s1: seq<byte>, s2: seq<byte>, at: nat, d0: seq<byte>, d1: seq<byte>, d2: seq<byte>, end: nat)
    requires d0 <= d1 <= d2 && Gave(s0, s1, at, d1[|d0|..], end) && Wrote(s1, s2, at + |d1| - |d0|, d2[|d1|..])
    requires at + |d2| - |d0| <= end
    ensures Gave(s0, s2, at, d2[|d0|..], end)
  {
    hide Wrote, Gave;
    GaveFits(s0, s1, at, d1[|d0|..], end);
    GaveWrote(s1, s2, at + |d1| - |d0|, d2[|d1|..], end);
    GaveMore(s0, s1, s2, at, d0, d1, d2, end);
  }

  lemma GaveFits(before: seq<byte>, after: seq<byte>, at: nat, data: seq<byte>, end: nat)
    requires Gave(before, after, at, data, end)
    ensures |after| == |before| && end <= |before|
  {
  }

  lemma OpenStart(temp: seq<byte>)
    ensures Open([], [], temp, 0, 0, 0)
  {
  }

  lemma PendingBounds(raw: seq<byte>, delivered: seq<byte>, temp: seq<byte>, filtered: nat, size: nat)
    requires Pending(raw, delivered, temp, filtered, size)
    ensures filtered <= size <= |temp|
  {
    hide Filter;
  }

  lemma FlushPending(raw: seq<byte>, delivered: seq<byte>, temp: seq<byte>, filtered: nat, size: nat, n: nat, temp': seq<byte>)
    requires Pending(raw, delivered, temp, filtered, size) && n <= filtered
    requires Wrote(temp, temp', 0, temp[n..size])
    ensures Pending(raw, delivered + temp[..n], temp', filtered - n, size - n)
  {
    hide Filter;
    assert temp'[..size - n] == temp[n..size];
    assert temp'[..filtered - n] == temp[n..size][..filtered - n] == temp[n..filtered];
    assert temp'[filtered - n..size - n] == temp[n..size][filtered - n..] == temp[filtered..size];
    assert delivered + temp[..n] + temp[n..filtered] == delivered + temp[..filtered];
  }

  // More raw bytes have come: the filter goes on from where it had stopped.
  lemma FilterRest(raw: seq<byte>, delivered: seq<byte>, temp: seq<byte>, size: nat, pos: u32, more: seq<byte>)
    requires Open(raw, delivered, temp, 0, size, pos)
    ensures var rest := temp[..size] + more;
            && rest == (raw + more)[|delivered|..]
            && delivered + Filter(rest, pos, -1) == Filter(raw + more, 0, -1)
            && Stop(raw + more, |delivered|)
  {
    hide Filter, Stop;
    var k := |delivered|;
    assert temp[..size] == temp[0..size] == raw[k..];
    assert delivered == delivered + temp[..0] == Filter(raw, 0, -1)[..k];
    FilterSplits(raw, more, 0, -1, k);
    FilterWraps(raw[k..] + more, k, -1);
  }

  // The filter has been applied to all that had not been filtered yet, as far as it could.
  lemma FilterMore(raw: seq<byte>, delivered: seq<byte>, temp: seq<byte>, size: nat, pos: u32, more: seq<byte>, i: nat)
    requires Open(raw, delivered, temp, 0, size, pos)
    requires Stop(temp[..size] + more, i) && i <= size + |more| < i + 4
    ensures var done := Filter(temp[..size] + more, pos, -1);
            && delivered + done[..i] == Filter(raw + more, 0, -1)[..|delivered| + i]
            && done[i..] == (raw + more)[|delivered| + i..]
            && Stop(raw + more, |delivered| + i)
  {
    hide Filter, Stop, Open;
    OpenFits(raw, delivered, temp, 0, size, pos);
    var k, rest := |delivered|, temp[..size] + more;
    FilterRest(raw, delivered, temp, size, pos, more);
    StopAdd(raw + more, k, i);
    ScanEnd(rest, pos, -1, i);
    assert delivered + Filter(rest, pos, -1)[..i] == (delivered + Filter(rest, pos, -1))[..k + i];
    assert Filter(rest, pos, -1)[i..] == rest[i..];
  }

  lemma OpenFits(raw: seq<byte>, delivered: seq<byte>, temp: seq<byte>, filtered: nat, size: nat, pos: u32)
    requires Open(raw, delivered, temp, filtered, size, pos)
    ensures filtered <= size <= |temp| && |delivered| + size == |raw| && size - filtered < 4
  {
  }

  class BcjDecoder {
    const lzma2: Lzma2Decoder
    var ret: XzRet
    var pos: u32
    const tempBuf: array<byte>
    var filtered: nat
    var size: nat

    // All that the caller has been given.
    ghost var delivered: seq<byte>

    constructor (lzma2: Lzma2Decoder)
      requires lzma2.Valid() && lzma2.produced == []
      ensures Valid() && this.lzma2 == lzma2 && delivered == [] && ret == XzOk && fresh(tempBuf)
    {
      hide Filter, Lzma2Decoder.Valid, Open;
      this.lzma2 := lzma2;
      ret, pos := XzOk, 0;
      tempBuf := new byte[16](_ => 0);
      filtered, size, delivered := 0, 0, [];
      new;
      OpenStart(tempBuf[..]);
    }

    ghost predicate Valid()
      reads this, tempBuf
      reads lzma2, lzma2.lzma, lzma2.lzma.rc, lzma2.lzma.rc.probs, lzma2.lzma.dict, lzma2.lzma.dict.buf, lzma2.tempBuf
    {
      && tempBuf.Length == 16 && OwnBuffer()
      && match ret
         case XzOk => lzma2.Valid() && Open(lzma2.produced, delivered, tempBuf[..], filtered, size, pos)
         case XzStreamEnd => Done() && Pending(lzma2.produced, delivered, tempBuf[..], filtered, size) && 0 < filtered == size
         case XzDataError => false
    }

    ghost predicate OwnBuffer() {
      tempBuf != lzma2.lzma.dict.buf && tempBuf != lzma2.tempBuf && tempBuf as object != lzma2.lzma.rc.probs
    }

    // The LZMA2 decoder has come to the end of its stream.
    ghost predicate Done()
      reads lzma2`steps, lzma2`ref, lzma2`produced
    {
      lzma2.RefOk() && lzma2.ref.phase == Ended && lzma2.produced == lzma2.ref.Out()
    }

    ghost predicate Apart(b: XzBuf)
      reads b
    {
      lzma2.Apart(b) && b.output != tempBuf
    }

    // Hands out filtered bytes, and moves the others to the front.
    method Flush(b: XzBuf)
      requires b.Valid() && b.output != tempBuf && Pending(lzma2.produced, delivered, tempBuf[..], filtered, size)
      modifies this`filtered, this`size, this`delivered, tempBuf, b`outPos, b.output
      ensures Pending(lzma2.produced, delivered, tempBuf[..], filtered, size)
      ensures var n := Min(old(filtered), old(b.outSize - b.outPos));
              && filtered == old(filtered) - n && size == old(size) - n && b.outPos == old(b.outPos) + n
              && |delivered| == |old(delivered)| + n && old(delivered) <= delivered
      ensures b.Valid() && Wrote(old(b.output[..]), b.output[..], old(b.outPos), delivered[|old(delivered)|..])
    {
      PendingBounds(lzma2.produced, delivered, tempBuf[..], filtered, size);
      hide Filter, Wrote, Pending;
      var copySize := Min(filtered, b.outSize - b.outPos);
      ghost var data := tempBuf[..copySize];
      CopyBytes(b.output, b.outPos, tempBuf[..copySize]);
      b.outPos := b.outPos + copySize;
      DropFront(copySize);
      assert delivered == old(delivered) + data;
      assert delivered[|old(delivered)|..] == data;
    }

    method DropFront(n: nat)
      requires Pending(lzma2.produced, delivered, tempBuf[..], filtered, size) && n <= filtered <= size <= tempBuf.Length
      modifies this`filtered, this`size, this`delivered, tempBuf
      ensures Pending(lzma2.produced, delivered, tempBuf[..], filtered, size)
      ensures filtered == old(filtered) - n && size == old(size) - n && delivered == old(delivered) + old(tempBuf[..n])
    {
      hide Filter, Wrote, Pending;
      ghost var had := tempBuf[..];
      CopyBytes(tempBuf, 0, tempBuf[n..size]);
      assert had[n..size] == old(tempBuf[n..size]) && had[..n] == old(tempBuf[..n]);
      FlushPending(lzma2.produced, delivered, had, filtered, size, n, tempBuf[..]);
      filtered := filtered - n;
      size := size - n;
      delivered := delivered + had[..n];
    }

    // What waits unfiltered is copied to the output, and more raw bytes come behind it.
    method DecodeBehind(b: XzBuf) returns (ghost more: seq<byte>)
      requires lzma2.Valid() && tempBuf.Length == 16 && OwnBuffer() && lzma2.Feeds(b) && Apart(b)
      requires size <= 16 && size <= b.outSize - b.outPos
      modifies this`ret, b`inPos, b`outPos, b.output
      modifies lzma2, lzma2.tempBuf, lzma2.lzma, lzma2.lzma.rc, lzma2.lzma.rc.probs, lzma2.lzma.dict, lzma2.lzma.dict.buf
      ensures b.Valid() && tempBuf[..] == old(tempBuf[..])
      ensures ret.XzOk? ==> lzma2.Valid() && lzma2.Feeds(b) && lzma2.Starved(b)
      ensures ret.XzStreamEnd? ==> Done()
      ensures ret.XzDataError? ==> lzma2.RefOk() && lzma2.ref.phase == Failed
      ensures !ret.XzDataError? ==>
                && old(b.inPos) <= b.inPos && lzma2.taken - old(lzma2.taken) == b.inPos - old(b.inPos)
                && lzma2.produced == old(lzma2.produced) + more
                && var rest := tempBuf[..size] + more;
                && b.outPos == old(b.outPos) + |rest|
                && Wrote(old(b.output[..]), b.output[..], old(b.outPos), rest)
                && b.output[old(b.outPos)..b.outPos] == rest
    {
      hide Wrote, Lzma2Decoder.Valid, Lzma2Decoder.RefOk, Continues;
      ghost var was, raw := b.output[..], lzma2.produced;
      CopyBytes(b.output, b.outPos, tempBuf[..size]);
      b.outPos := b.outPos + size;
      ghost var copied := b.output[..];
      ret := lzma2.Run(b);
      more := lzma2.produced[|raw|..];
      RawFollows(was, copied, b.output[..], old(b.outPos), tempBuf[..size], more);
    }

    // Decodes into the output buffer and filters there. What cannot be filtered yet goes back
    // to the temporary buffer; at the end of the stream it is meant to stay as it is.
    method FillOutput(b: XzBuf)
      requires Valid() && ret == XzOk && filtered == 0 && lzma2.Feeds(b) && Apart(b)
      requires size < b.outSize - b.outPos || size == 0
      modifies this, tempBuf, b`inPos, b`outPos, b.output
      modifies lzma2, lzma2.tempBuf, lzma2.lzma, lzma2.lzma.rc, lzma2.lzma.rc.probs, lzma2.lzma.dict, lzma2.lzma.dict.buf
      ensures b.Valid()
      ensures ret.XzOk? ==> Valid() && lzma2.Feeds(b) && filtered == 0
      ensures ret.XzOk? ==> b.outPos + size == b.outSize || lzma2.Starved(b)
      ensures ret.XzStreamEnd? ==> Done() && delivered == Filter(lzma2.produced, 0, -1)
      ensures ret.XzDataError? ==> lzma2.RefOk() && lzma2.ref.phase == Failed && delivered == old(delivered)
      ensures !ret.XzDataError? ==>
                && old(b.inPos) <= b.inPos && lzma2.taken - old(lzma2.taken) == b.inPos - old(b.inPos)
                && old(b.outPos) <= b.outPos && old(delivered) <= delivered
                && |delivered| - |old(delivered)| == b.outPos - old(b.outPos)
                && Gave(old(b.output[..]), b.output[..], old(b.outPos), delivered[|old(delivered)|..], b.outSize)
    {
      hide Filter, Stop, Wrote, Open, Gave, Lzma2Decoder.Valid, Lzma2Decoder.RefOk, Continues;
      var outStart := b.outPos;
      ghost var was, raw, temp := b.output[..], lzma2.produced, tempBuf[..];
      OpenFits(raw, delivered, temp, filtered, size, pos);
      ghost var more := DecodeBehind(b);
      if ret.XzDataError? {
        return;
      }
      FilterOutput(b, outStart, was, raw, more);
    }

    // Filters the raw bytes from outStart on.
    method FilterOutput(b: XzBuf, outStart: nat, ghost was: seq<byte>, ghost raw: seq<byte>, ghost more: seq<byte>)
      requires tempBuf.Length == 16 && !ret.XzDataError? && b.Valid() && b.output != tempBuf
      requires Open(raw, delivered, tempBuf[..], 0, size, pos) && lzma2.produced == raw + more && size <= 16
      requires var rest := tempBuf[..size] + more;
               && b.outPos == outStart + |rest| && b.output[outStart..b.outPos] == rest
               && Wrote(was, b.output[..], outStart, rest) && |was| == b.output.Length
      modifies this`pos, this`delivered, this`size, tempBuf, b`outPos, b.output
      ensures ret.XzOk? ==> Open(lzma2.produced, delivered, tempBuf[..], 0, size, pos) && b.outPos + size == old(b.outPos)
      ensures ret.XzStreamEnd? ==> delivered == Filter(lzma2.produced, 0, -1)
      ensures b.Valid() && outStart <= b.outPos && old(delivered) <= delivered
      ensures |delivered| - |old(delivered)| == b.outPos - outStart
      ensures Gave(was, b.output[..], outStart, delivered[|old(delivered)|..], b.outSize)
    {
      hide Filter, Stop, Wrote, Open, Gave;
      ghost var out, temp := b.output[..], tempBuf[..];
      OpenFits(raw, delivered, temp, 0, size, pos);
      var i := Apply(b.output, outStart, b.outPos);
      ghost var done := Filter(temp[..size] + more, old(pos), -1);
      OutputFiltered(was, out, b.output[..], outStart, raw, delivered, temp, size, old(pos), more, i, b.outSize);
      if ret.XzStreamEnd? {
        delivered := delivered + done;
        assert delivered[|old(delivered)|..] == done;
        return;
      }
      delivered := delivered + done[..i];
      assert delivered[|old(delivered)|..] == done[..i];
      size := b.outPos - (outStart + i);
      b.outPos := b.outPos - size;
      TakeBack(b.output, b.outPos);
    }

    method TakeBack(buf: array<byte>, at: nat)
      requires at + size <= buf.Length && size <= tempBuf.Length && buf != tempBuf
      requires Open(lzma2.produced, delivered, buf[at..at + size], 0, size, pos)
      modifies tempBuf
      ensures Open(lzma2.produced, delivered, tempBuf[..], 0, size, pos)
    {
      hide Filter, Stop;
      CopyBytes(tempBuf, 0, buf[at..at + size]);
      assert tempBuf[..][..size] == buf[at..at + size];
    }

    // Decodes into the temporary buffer behind what waits there.
    method DecodeToTemp(b: XzBuf) returns (ghost more: seq<byte>)
      requires Valid() && ret == XzOk && filtered == 0 && lzma2.Feeds(b) && Apart(b)
      modifies this`ret, this`size, tempBuf, b
      modifies lzma2, lzma2.tempBuf, lzma2.lzma, lzma2.lzma.rc, lzma2.lzma.rc.probs, lzma2.lzma.dict, lzma2.lzma.dict.buf
      ensures b.output == old(b.output) && b.outPos == old(b.outPos) && b.outSize == old(b.outSize) && b.input == old(b.input)
      ensures b.Valid() && b.output[..] == old(b.output[..])
      ensures ret.XzOk? ==> lzma2.Valid() && lzma2.Feeds(b)
      ensures ret.XzOk? ==> size == 16 || (b.inPos == |b.input| && (lzma2.sequence == LzmaRun ==> lzma2.tempSize < lzma2.compressed))
      ensures ret.XzStreamEnd? ==> Done()
      ensures ret.XzDataError? ==> lzma2.RefOk() && lzma2.ref.phase == Failed
      ensures !ret.XzDataError? ==>
                && old(b.inPos) <= b.inPos && lzma2.taken - old(lzma2.taken) == b.inPos - old(b.inPos)
                && lzma2.produced == old(lzma2.produced) + more
                && old(size) <= size <= 16 && tempBuf[..size] == old(tempBuf[..size]) + more
    {
      hide Filter, Stop, Wrote, Open, Lzma2Decoder.Valid, Lzma2Decoder.RefOk, Continues;
      OpenFits(lzma2.produced, delivered, tempBuf[..], filtered, size, pos);
      var out, outPos, outSize := b.output, b.outPos, b.outSize;
      ghost var temp, raw := tempBuf[..], lzma2.produced;
      b.output, b.outPos, b.outSize := tempBuf, size, tempBuf.Length;
      ret := lzma2.Run(b);
      more := lzma2.produced[|raw|..];
      WroteAfter(temp, tempBuf[..], size, more);
      size := b.outPos;
      b.output, b.outPos, b.outSize := out, outPos, outSize;
    }

    // Filters in the temporary buffer, and hands out what has been filtered. At the end of the
    // stream everything counts as filtered.
    method FillTemp(b: XzBuf)
      requires Valid() && ret == XzOk && filtered == 0 && lzma2.Feeds(b) && Apart(b)
      modifies this, tempBuf, b, b.output
      modifies lzma2, lzma2.tempBuf, lzma2.lzma, lzma2.lzma.rc, lzma2.lzma.rc.probs, lzma2.lzma.dict, lzma2.lzma.dict.buf
      ensures b.output == old(b.output) && b.outSize == old(b.outSize) && b.input == old(b.input) && b.Valid()
      ensures ret.XzOk? ==> Valid() && lzma2.Feeds(b)
      ensures ret.XzOk? ==> || 13 <= b.outPos - old(b.outPos) || 0 < filtered
                            || (b.inPos == |b.input| && (lzma2.sequence == LzmaRun ==> lzma2.tempSize < lzma2.compressed))
      ensures 0 < filtered && !ret.XzDataError? ==> b.outPos == b.outSize
      ensures ret.XzStreamEnd? && 0 < filtered ==> Valid()
      ensures ret.XzStreamEnd? && 0 == filtered ==> Done() && delivered == Filter(lzma2.produced, 0, -1)
      ensures ret.XzDataError? ==> lzma2.RefOk() && lzma2.ref.phase == Failed && delivered == old(delivered)
      ensures !ret.XzDataError? ==>
                && old(b.inPos) <= b.inPos && lzma2.taken - old(lzma2.taken) == b.inPos - old(b.inPos)
                && old(b.outPos) <= b.outPos && old(delivered) <= delivered
                && |delivered| - |old(delivered)| == b.outPos - old(b.outPos)
                && Wrote(old(b.output[..]), b.output[..], old(b.outPos), delivered[|old(delivered)|..])
    {
      hide Filter, Stop, Wrote, Open, Pending, Lzma2Decoder.Valid, Lzma2Decoder.RefOk, Continues;
      ghost var temp, raw, had := tempBuf[..], lzma2.produced, size;
      OpenFits(raw, delivered, temp, 0, size, pos);
      ghost var more := DecodeToTemp(b);
      if ret.XzDataError? {
        return;
      }
      assert temp[..had] == old(tempBuf[..size]);
      ghost var rest := tempBuf[..size];
      filtered := Apply(tempBuf, 0, size);
      TempFiltered(raw, delivered, temp, had, old(pos), more, filtered, tempBuf[..]);
      if ret.XzStreamEnd? {
        filtered := size;
      }
      Flush(b);
      OpenKept(lzma2.produced, delivered, tempBuf[..], filtered, size, pos);
    }

    // Hands out filtered bytes until the output is full, the input is used up or the stream
    // ends. Whatever room there was in each call: what has been delivered is the beginning
    // of the filtered whole, and at the end of the stream it is all of it.
    method Run(b: XzBuf) returns (r: XzRet)
      requires Valid() && b.Valid() && Apart(b) && (ret.XzOk? ==> lzma2.Feeds(b))
      modifies this, tempBuf, b, b.output
      modifies lzma2, lzma2.tempBuf, lzma2.lzma, lzma2.lzma.rc, lzma2.lzma.rc.probs, lzma2.lzma.dict, lzma2.lzma.dict.buf
      ensures b.output == old(b.output) && b.outSize == old(b.outSize) && b.input == old(b.input) && b.Valid()
      ensures r.XzOk? ==> Valid() && (ret.XzOk? ==> lzma2.Feeds(b))
      ensures r.XzOk? ==> || b.outPos == b.outSize
                          || (b.inPos == |b.input| && (lzma2.sequence == LzmaRun ==> lzma2.tempSize < lzma2.compressed))
      ensures r.XzStreamEnd? ==> Done() && delivered == Filter(lzma2.produced, 0, -1)
      ensures r.XzOk? ==> delivered <= Filter(lzma2.produced, 0, -1)
      ensures r.XzDataError? ==> lzma2.RefOk() && lzma2.ref.phase == Failed
      ensures !r.XzDataError? ==>
                && old(b.inPos) <= b.inPos && lzma2.taken - old(lzma2.taken) == b.inPos - old(b.inPos)
                && old(b.outPos) <= b.outPos && old(delivered) <= delivered
                && |delivered| - |old(delivered)| == b.outPos - old(b.outPos)
                && Gave(old(b.output[..]), b.output[..], old(b.outPos), delivered[|old(delivered)|..], b.outSize)
    {
      hide Filter, Stop, Wrote, Gave, Open, Pending, Lzma2Decoder.Valid, Lzma2Decoder.RefOk, Continues;
      ghost var was, had := b.output[..], delivered;
      PendingFits();
      GaveNothing(was, b.outPos, b.outSize);
      assert delivered[|had|..] == [];
      if filtered > 0 {
        FlushFirst(b);
        if filtered > 0 {
          DeliveredIsRight();
          return XzOk;
        }
        if ret.XzStreamEnd? {
          return XzStreamEnd;
        }
      }
      ghost var mid, given := b.output[..], delivered;
      r := Refill(b);
      if !r.XzDataError? {
        GaveMore(was, mid, b.output[..], old(b.outPos), had, given, delivered, b.outSize);
      }
      if r.XzOk? {
        DeliveredIsRight();
      }
    }

    lemma DeliveredIsRight()
      requires Valid()
      ensures delivered <= Filter(lzma2.produced, 0, -1)
    {
      hide Filter, Stop, Lzma2Decoder.Valid, Lzma2Decoder.RefOk, Done;
      var n := |delivered| + filtered;
      var f := Filter(lzma2.produced, 0, -1);
      assert Pending(lzma2.produced, delivered, tempBuf[..], filtered, size);
      assert f[..n][..|delivered|] == (delivered + tempBuf[..filtered])[..|delivered|] == delivered;
    }

    // Nothing that has been filtered is left over.
    method Refill(b: XzBuf) returns (r: XzRet)
      requires Valid() && ret == XzOk && filtered == 0 && lzma2.Feeds(b) && Apart(b)
      modifies this, tempBuf, b, b.output
      modifies lzma2, lzma2.tempBuf, lzma2.lzma, lzma2.lzma.rc, lzma2.lzma.rc.probs, lzma2.lzma.dict, lzma2.lzma.dict.buf
      ensures b.output == old(b.output) && b.outSize == old(b.outSize) && b.input == old(b.input) && b.Valid()
      ensures r.XzOk? ==> Valid() && (ret.XzOk? ==> lzma2.Feeds(b))
      ensures r.XzOk? ==> || b.outPos == b.outSize
                          || (b.inPos == |b.input| && (lzma2.sequence == LzmaRun ==> lzma2.tempSize < lzma2.compressed))
      ensures r.XzStreamEnd? ==> Done() && delivered == Filter(lzma2.produced, 0, -1)
      ensures r.XzDataError? ==> lzma2.RefOk() && lzma2.ref.phase == Failed
      ensures !r.XzDataError? ==>
                && old(b.inPos) <= b.inPos && lzma2.taken - old(lzma2.taken) == b.inPos - old(b.inPos)
                && old(b.outPos) <= b.outPos && old(delivered) <= delivered
                && |delivered| - |old(delivered)| == b.outPos - old(b.outPos)
                && Gave(old(b.output[..]), b.output[..], old(b.outPos), delivered[|old(delivered)|..], b.outSize)
    {
      hide Filter, Stop, Wrote, Gave, Open, Pending, Lzma2Decoder.Valid, Lzma2Decoder.RefOk, Continues;
      ghost var was, had := b.output[..], delivered;
      PendingFits();
      GaveNothing(was, b.outPos, b.outSize);
      assert delivered[|had|..] == [];
      if size < b.outSize - b.outPos || size == 0 {
        FillOutput(b);
        if !ret.XzOk? {
          return ret;
        }
        PendingFits();
        if b.outPos + size < b.outSize {
          return XzOk;
        }
      }
      if b.outPos < b.outSize {
        ghost var mid, given := b.output[..], delivered;
        FillTemp(b);
        if ret.XzDataError? {
          return XzDataError;
        }
        GaveThen(was, mid, b.output[..], old(b.outPos), had, given, delivered, b.outSize);
        if filtered > 0 {
          return XzOk;
        }
      }
      r := ret;
    }

    method FlushFirst(b: XzBuf)
      requires Valid() && b.Valid() && Apart(b) && (ret.XzOk? ==> lzma2.Feeds(b)) && 0 < filtered
      modifies this`filtered, this`size, this`delivered, tempBuf, b`outPos, b.output
      ensures ret.XzOk? || 0 < filtered ==> Valid()
      ensures ret.XzStreamEnd? && filtered == 0 ==> Done() && delivered == Filter(lzma2.produced, 0, -1)
      ensures b.Valid() && (ret.XzOk? ==> lzma2.Feeds(b)) && (0 < filtered ==> b.outPos == b.outSize)
      ensures old(b.outPos) <= b.outPos && old(delivered) <= delivered
      ensures |delivered| - |old(delivered)| == b.outPos - old(b.outPos)
      ensures Gave(old(b.output[..]), b.output[..], old(b.outPos), delivered[|old(delivered)|..], b.outSize)
    {
      hide Filter, Stop, Wrote, Gave, Pending, Lzma2Decoder.Valid, Lzma2Decoder.RefOk, Continues;
      ghost var was := b.output[..];
      Flush(b);
      GaveWrote(was, b.output[..], old(b.outPos), delivered[|old(delivered)|..], b.outSize);
      OpenKept(lzma2.produced, delivered, tempBuf[..], filtered, size, pos);
    }

    lemma PendingFits()
      requires Valid()
      ensures filtered <= size <= 16 && (ret.XzOk? ==> size - filtered < 4) && (ret.XzStreamEnd? ==> 0 < filtered)
    {
      hide Filter, Stop, Lzma2Decoder.Valid, Lzma2Decoder.RefOk;
    }

    // Converts buf[from..to] in place, and says how far it got.
    method Apply(buf: array<byte>, from: nat, to: nat) returns (i: nat)
      requires from <= to <= buf.Length
      modifies this`pos, buf
      ensures Stop(old(buf[from..to]), i) && i <= to - from < i + 4 && pos == Wrap32(old(pos) + i)
      ensures Wrote(old(buf[..]), buf[..], from, Filter(old(buf[from..to]), old(pos), -1))
    {
      i := Scan(buf, from, to);
      pos := Wrap32(pos + i);
    }

    method Scan(buf: array<byte>, from: nat, to: nat) returns (i: nat)
      requires from <= to <= buf.Length
      modifies buf
      ensures Stop(old(buf[from..to]), i) && i <= to - from < i + 4
      ensures Wrote(old(buf[..]), buf[..], from, Filter(old(buf[from..to]), pos, -1))
    {
      hide Filter, Stop, IsCall, Convert, Scanned, Wrote;
      ghost var was, data := buf[..], buf[from..to];
      i := 0;
      ScanStart(was, data, pos, from);
      while i + 4 <= to - from
        invariant i <= to - from
        invariant Scanned(was, buf[..], data, pos, from, i)
      {
        ScanRound(was, buf[..], data, pos, from, i);
        if IsCall(buf[from + i..from + i + 4]) {
          ConvertAt(buf, from + i, pos + i);
          i := i + 4;
        } else {
          i := i + 2;
        }
      }
      ScanDone(was, buf[..], data, pos, from, i);
    }

    static method ConvertAt(buf: array<byte>, at: nat, p: nat)
      requires at + 4 <= buf.Length
      modifies buf
      ensures buf[..] == old(buf[..at]) + Convert(old(buf[at..at + 4]), p, -1) + old(buf[at + 4..])
    {
      hide IsCall;
      var addr := Wrap32(2 * Target(buf[at..at + 4]) - (p + 4)) / 2;
      buf[at + 1] := 0xF0 + addr / 0x8_0000 % 8;
      buf[at] := addr / 0x800 % 0x100;
      buf[at + 3] := 0xF8 + addr / 0x100 % 8;
      buf[at + 2] := addr % 0x100;
      assert buf[..] == old(buf[..at]) + Call(addr) + old(buf[at + 4..]);
    }
  }

  // data, found at offset from, has been scanned up to i.
  ghost predicate Scanned(was: seq<byte>, now: seq<byte>, data: seq<byte>, p: nat, from: nat, i: nat) {
    && i <= |data| && from + |data| <= |was| && Stop(data, i)
    && now == was[..from] + Filter(data, p, -1)[..i] + data[i..] + was[from + |data|..]
  }

  lemma ScanStart(was: seq<byte>, data: seq<byte>, p: nat, from: nat)
    requires from + |data| <= |was| && data == was[from..from + |data|]
    ensures Scanned(was, was, data, p, from, 0)
  {
    hide Filter;
  }

  lemma ScanRound(was: seq<byte>, now: seq<byte>, data: seq<byte>, p: nat, from: nat, i: nat)
    requires Scanned(was, now, data, p, from, i) && i + 4 <= |data|
    ensures |now| == |was|
    ensures var q := now[from + i..from + i + 4];
            if IsCall(q) then Scanned(was, now[..from + i] + Convert(q, p + i, -1) + now[from + i + 4..], data, p, from, i + 4)
            else Scanned(was, now, data, p, from, i + 2)
  {
    hide Filter, Stop, IsCall, Convert;
    ScanStep(data, p, -1, i);
    var pre, done, rest, post := was[..from], Filter(data, p, -1)[..i], data[i..], was[from + |data|..];
    AtFront(pre, done, rest, post, now);
    ConvertFront(rest, p + i, -1);
    if IsCall(rest) {
      ReplaceFront(pre, done, rest, post, Convert(rest, p + i, -1));
    } else {
      ReplaceFront(pre, done, rest, post, rest[..2]);
      assert rest[..2] == data[i..i + 2];
    }
  }

  lemma ScanDone(was: seq<byte>, now: seq<byte>, data: seq<byte>, p: nat, from: nat, i: nat)
    requires Scanned(was, now, data, p, from, i) && |data| < i + 4
    ensures Stop(data, i) && Wrote(was, now, from, Filter(data, p, -1))
  {
    hide Filter, Stop;
    ScanEnd(data, p, -1, i);
    assert was[..from] + Filter(data, p, -1)[..i] + data[i..] == was[..from] + Filter(data, p, -1);
  }

  lemma AtFront(pre: seq<byte>, done: seq<byte>, rest: seq<byte>, post: seq<byte>, all: seq<byte>)
    requires all == pre + done + rest + post && 4 <= |rest|
    ensures all[|pre| + |done|..|pre| + |done| + 4] == rest[..4]
  {
  }

  // The first bytes of rest are replaced by as many others.
  lemma ReplaceFront(pre: seq<byte>, done: seq<byte>, rest: seq<byte>, post: seq<byte>, front: seq<byte>)
    requires |front| <= |rest|
    ensures var all := pre + done + rest + post;
            all[..|pre| + |done|] + front + all[|pre| + |done| + |front|..] == pre + (done + front) + rest[|front|..] + post
    ensures front == rest[..|front|] ==> pre + (done + front) + rest[|front|..] + post == pre + done + rest + post
  {
    var all, n, k := pre + done + rest + post, |pre| + |done|, |front|;
    assert all[..n] == pre + done;
    assert all[n + k..] == rest[k..] + post;
    if front == rest[..k] {
      assert rest == front + rest[k..];
    }
  }
}
