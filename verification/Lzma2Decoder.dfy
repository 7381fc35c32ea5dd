// The LZMA2 decoder that is fed input and output space piece by piece, proved to follow the
// one-shot decoder of Lzma2Reference on the concatenation of all the pieces.
module Lzma2Decoders {
  import opened Words
  import opened RangeCoder
  import opened LzmaSymbols
  import opened Dictionaries
  import opened LzmaDecoders
  import opened Lzma2Reference
  import opened Lzma2Laws
  import opened Memory
  import opened XzBuffers

  const LZMA_IN_REQUIRED := 21

  // The first size bytes of the buffer are the stream's at position pos.
  ghost predicate Waiting(temp: seq<byte>, size: nat, stream: seq<byte>, pos: nat) {
    size <= |temp| && pos + size <= |stream| && temp[..size] == stream[pos..pos + size]
  }

  // The unread input is the stream's at position pos.
  ghost predicate Continues(input: seq<byte>, inPos: nat, stream: seq<byte>, pos: nat) {
    && inPos <= |input| && pos + (|input| - inPos) <= |stream|
    && input[inPos..] == stream[pos..pos + (|input| - inPos)]
  }

  lemma ContinuesAfter(input: seq<byte>, inPos: nat, n: nat, stream: seq<byte>, pos: nat)
    requires Continues(input, inPos, stream, pos) && inPos + n <= |input|
    ensures Continues(input, inPos + n, stream, pos + n)
  {
    assert input[inPos + n..] == input[inPos..][n..];
  }

  lemma WaitingMore(had: seq<byte>, now: seq<byte>, size: nat, input: seq<byte>, inPos: nat, n: nat, stream: seq<byte>, pos: nat)
    requires Waiting(had, size, stream, pos) && Continues(input, inPos, stream, pos + size) && inPos + n <= |input|
    requires Wrote(had, now, size, input[inPos..inPos + n])
    ensures Waiting(now, size + n, stream, pos)
  {
    assert now[..size + n] == had[..size] + input[inPos..inPos + n];
    assert input[inPos..inPos + n] == input[inPos..][..n];
  }

  lemma WaitingKept(had: seq<byte>, now: seq<byte>, size: nat, at: nat, data: seq<byte>, stream: seq<byte>, pos: nat)
    requires Waiting(had, size, stream, pos) && size <= at && Wrote(had, now, at, data)
    ensures Waiting(now, size, stream, pos)
  {
    assert now[..size] == had[..size];
  }

  lemma WaitingLess(temp: seq<byte>, size: nat, n: nat, stream: seq<byte>, pos: nat)
    requires Waiting(temp, size, stream, pos) && n <= size
    ensures Waiting(temp, n, stream, pos)
  {
    assert temp[..n] == temp[..size][..n];
  }

  // The first n bytes are gone, the others have moved to the front.
  lemma WaitingMoved(had: seq<byte>, now: seq<byte>, size: nat, n: nat, stream: seq<byte>, pos: nat)
    requires Waiting(had, size, stream, pos) && n <= size && Wrote(had, now, 0, had[n..size])
    ensures Waiting(now, size - n, stream, pos + n)
  {
    assert now[..size - n] == had[n..size] == had[..size][n..];
  }

  lemma WaitingAgrees(temp: seq<byte>, size: nat, stream: seq<byte>, pos: nat)
    requires Waiting(temp, size, stream, pos)
    ensures Agree(temp, stream, pos, 0, size)
  {
    forall i | 0 <= i < size
      ensures ByteAt(temp, i) == ByteAt(stream, i + pos)
    {
      assert temp[..size][i] == stream[pos..pos + size][i];
    }
  }

  lemma ContinuesAgrees(input: seq<byte>, inPos: nat, stream: seq<byte>, pos: nat)
    requires Continues(input, inPos, stream, pos)
    ensures Agree(input, stream, pos - inPos, inPos, |input|)
  {
    forall i | inPos <= i < |input|
      ensures ByteAt(input, i) == ByteAt(stream, i + (pos - inPos))
    {
      assert input[inPos..][i - inPos] == stream[pos..pos + (|input| - inPos)][i - inPos];
    }
  }

  // The fields of the control layer, and what has been handed out.
  datatype ControlState = ControlState(
    sequence: Phase, next: Phase, uncompressed: nat, needDictReset: bool, needProps: bool, produced: seq<byte>)

  // The decoder agrees with the one-shot decoder r, which is ahead by what has been decoded
  // but not yet flushed and by what is left of a match. Input is not covered here.
  ghost predicate Mirror(c: ControlState, v: View, r: Ref) {
    && v.valid && Lawful(r) && r.phase != Ended && r.phase != Failed
    && c.sequence == r.phase && c.next == r.next
    && c.needDictReset == r.needDictReset && c.needProps == r.needProps
    && (Live(r) ==> v.props == r.props && v.distanceOk)
    && v.initLeft == r.initLeft && v.z == r.z
    && c.uncompressed - v.pending == r.uncompressed + v.len
    && (0 < v.len ==> r.phase == LzmaRun)
    && r.hist == Owed(v.history, v.z.rep0, v.len)
    && 0 <= v.pending <= |v.history|
    && c.produced == r.prior + v.history[..|v.history| - v.pending]
  }

  // Mirroring says nothing about the position and the compressed size.
  lemma MirrorAt(c: ControlState, v: View, r: Ref, pos: nat, compressed: nat)
    requires Mirror(c, v, r) && (r.phase == Copy ==> 0 < compressed)
    ensures Mirror(c, v, r.(pos := pos, compressed := compressed))
  {
    hide Owed;
  }

  lemma MirrorFacts(c: ControlState, v: View, r: Ref)
    requires Mirror(c, v, r)
    ensures v.valid && Lawful(r) && c.sequence == r.phase && c.next == r.next
    ensures c.needDictReset == r.needDictReset && c.needProps == r.needProps
    ensures r.phase != Ended && r.phase != Failed && v.initLeft == r.initLeft
    ensures 0 <= v.pending <= |v.history| && c.uncompressed - v.pending == r.uncompressed + v.len
    ensures r.phase != LzmaRun && v.pending == 0 ==>
              v.len == 0 && r.hist == v.history && c.produced == r.Out()
    ensures r.phase == LzmaPrepare ==> 0 < r.initLeft
    ensures r.phase == Copy ==> 0 < r.compressed
  {
    hide Live;
    OwedNothing(v.history, v.z.rep0);
  }

  // What has been handed out is the beginning of what the one-shot decoder has decoded.
  lemma MirrorBehind(c: ControlState, v: View, r: Ref)
    requires Mirror(c, v, r)
    ensures c.produced <= r.Out()
  {
    hide Lawful, Live;
    OwedGrows(v.history, v.z.rep0, v.len);
    assert v.history[..|v.history| - v.pending] <= r.hist;
  }

  lemma OwedGrows(h: seq<byte>, dist: nat, len: nat)
    ensures h <= Owed(h, dist, len)
  {
  }

  lemma MirrorRunFacts(c: ControlState, v: View, r: Ref)
    requires Mirror(c, v, r) && r.phase == LzmaRun
    ensures v.valid && v.props == r.props && v.distanceOk && v.z == r.z && r.hist == Owed(v.history, v.z.rep0, v.len)
    ensures 0 <= v.pending <= |v.history| && c.uncompressed - v.pending == r.uncompressed + v.len
    ensures Lawful(r) && Live(r) && GoodRef(r)
  {
    hide Owed;
  }

  // Both have moved on in an LZMA chunk, by the same amount.
  lemma MirrorRun(c: ControlState, v: View, r: Ref, v': View, r': Ref)
    requires Mirror(c, v, r) && r.phase == LzmaRun
    requires Lawful(r') && r'.phase == LzmaRun && r'.next == r.next && r'.initLeft == r.initLeft && r'.props == r.props
    requires r'.needDictReset == r.needDictReset && r'.needProps == r.needProps && r'.prior == r.prior
    requires v'.valid && v'.z == r'.z && v'.initLeft == v.initLeft && v'.props == v.props && v'.distanceOk
    requires r'.hist == Owed(v'.history, v'.z.rep0, v'.len)
    requires v.history <= v'.history && v'.pending - v.pending == |v'.history| - |v.history|
    requires r'.uncompressed + v'.len == r.uncompressed + v.len - (v'.pending - v.pending)
    ensures Mirror(c, v', r')
  {
    hide Owed, Lawful;
    LawfulRun(r);
    PrefixKept(v.history, v'.history, |v.history| - v.pending);
  }

  lemma MirrorFlush(c: ControlState, v: View, r: Ref)
    requires Mirror(c, v, r) && r.phase == LzmaRun && v.pending <= c.uncompressed
    ensures Mirror(c.(uncompressed := c.uncompressed - v.pending, produced := c.produced + v.history[|v.history| - v.pending..]),
                   v.(pending := 0), r)
  {
    hide Owed, Lawful, Live;
    var k := |v.history| - v.pending;
    Concat3(r.prior, v.history[..k], v.history[k..]);
    assert v.history[..k] + v.history[k..] == v.history == v.history[..|v.history|];
  }

  // A chunk that has given all it promised.
  lemma MirrorFinish(c: ControlState, v: View, r: Ref, stream: seq<byte>, size: nat)
    requires Mirror(c, v, r) && r.phase == LzmaRun && v.pending == 0 && c.uncompressed == 0
    ensures Step(r, stream, size) == FinishStep(r)
    ensures FinishStep(r).phase == Failed <==> r.compressed > 0 || v.len > 0 || v.z.c.code != 0
    ensures FinishStep(r).phase != Failed ==>
              && Mirror(c.(sequence := Control), v.(z := ResetCoder(v.z), initLeft := 5), FinishStep(r))
              && FinishStep(r).pos == r.pos && FinishStep(r).compressed == r.compressed && FinishStep(r).phase == Control
  {
    hide SymbolStep, ControlStep, ByteStep, InitStep;
    OwedNothing(v.history, v.z.rep0);
  }

  lemma FinishKeepsOutput(r: Ref)
    requires GoodRef(r)
    ensures FinishStep(r).Out() == r.Out()
  {
  }

  lemma MirrorCopy(c: ControlState, v: View, r: Ref, data: seq<byte>, d: bool)
    requires Mirror(c, v, r) && r.phase == Copy && v.pending == 0 && |data| <= r.compressed && (v.distanceOk ==> d)
    ensures var r' := r.(hist := r.hist + data, compressed := r.compressed - |data|, pos := r.pos + |data|,
                         phase := if |data| == r.compressed then Control else Copy);
            Mirror(c.(sequence := r'.phase, produced := c.produced + data), v.(history := v.history + data, distanceOk := d), r')
  {
    OwedNothing(v.history, v.z.rep0);
    OwedNothing(v.history + data, v.z.rep0);
  }

  lemma MirrorReset(c: ControlState, v: View, r: Ref)
    requires Mirror(c, v, r) && r.phase == Control && v.pending == 0
    ensures Mirror(c.(needProps := true, needDictReset := false), v.(history := [], distanceOk := true), ResetHistory(r))
    ensures Mirror(c.(needProps := true, needDictReset := false), v.(history := [], distanceOk := false), ResetHistory(r))
  {
    OwedNothing(v.history, v.z.rep0);
    OwedNothing([], v.z.rep0);
  }

  // The fields of the control layer after the control byte of a chunk.
  ghost function EnterFields(c: ControlState, b: byte): ControlState {
    if b < 0x80 then c.(sequence := Compressed0, next := Copy)
    else
      var c1 := c.(sequence := Uncompressed1, uncompressed := b % 0x20 * 0x1_0000);
      if b >= 0xC0 then c1.(next := Properties, needProps := false) else c1.(next := LzmaPrepare)
  }

  lemma MirrorEnter(c: ControlState, v: View, r: Ref, b: byte)
    requires Mirror(c, v, r) && r.phase == Control && v.pending == 0 && 0 < b && !r.needDictReset
    ensures EnterChunk(r, b).phase == Failed <==> (2 < b < 0x80 || (0x80 <= b < 0xC0 && r.needProps))
    ensures EnterChunk(r, b).phase != Failed ==>
              Mirror(EnterFields(c, b), if 0xA0 <= b < 0xC0 then FreshView(v, v.props) else v, EnterChunk(r, b))
    ensures EnterChunk(r, b).pos == r.pos && EnterChunk(r, b).compressed == r.compressed && EnterChunk(r, b).phase != LzmaRun
  {
    hide Owed, Lawful, Live;
    EnterIsLawful(r, b);
    OwedNothing(v.history, v.z.rep0);
    OwedNothing(v.history, 0);
  }

  // After a state reset.
  ghost function FreshView(v: View, p: Props): View {
    v.(z := FreshLzma(), initLeft := 5, props := p, distanceOk := true)
  }

  ghost function SizeFields(c: ControlState, b: byte): ControlState {
    match c.sequence
    case Uncompressed1 => c.(uncompressed := c.uncompressed + 0x100 * b, sequence := Uncompressed2)
    case Uncompressed2 => c.(uncompressed := c.uncompressed + b + 1, sequence := Compressed0)
    case Compressed0 => c.(sequence := Compressed1)
    case _ => c.(sequence := c.next)
  }

  lemma MirrorSize(c: ControlState, v: View, r: Ref, b: byte)
    requires Mirror(c, v, r) && r.phase in {Uncompressed1, Uncompressed2, Compressed0, Compressed1} && v.pending == 0
    ensures Mirror(SizeFields(c, b), v, ByteStep(r, b)) && ByteStep(r, b).pos == r.pos + 1
    ensures ByteStep(r, b).phase != LzmaRun
    ensures ByteStep(r, b).compressed == match r.phase
                                         case Compressed0 => 0x100 * b
                                         case Compressed1 => r.compressed + b + 1
                                         case _ => r.compressed
  {
    hide Owed;
    ByteIsLawful(r, b);
  }

  lemma MirrorProperties(c: ControlState, v: View, r: Ref, b: byte)
    requires Mirror(c, v, r) && r.phase == Properties && v.pending == 0
    ensures ByteStep(r, b).phase == Failed <==> ParseProps(b).BadProps?
    ensures ParseProps(b).GoodProps? ==>
              && Mirror(c.(sequence := LzmaPrepare), FreshView(v, ParseProps(b).props), ByteStep(r, b))
              && ByteStep(r, b).pos == r.pos + 1 && ByteStep(r, b).compressed == r.compressed
              && ByteStep(r, b).phase == LzmaPrepare
  {
    hide Owed, ParseProps;
    ByteIsLawful(r, b);
    OwedNothing(v.history, v.z.rep0);
    OwedNothing(v.history, 0);
  }

  lemma MirrorInit(c: ControlState, v: View, r: Ref, bytes: seq<byte>)
    requires Mirror(c, v, r) && r.phase == LzmaPrepare && 5 <= r.compressed && |bytes| <= v.initLeft
    ensures var r' := AfterInit(r, bytes);
            if |bytes| == v.initLeft then Mirror(c.(sequence := LzmaRun), InitView(v, bytes), StartRun(r'))
            else Mirror(c, InitView(v, bytes), r')
  {
    hide Owed, Lawful, Live;
    LawfulInit(r, bytes);
  }

  class Lzma2Decoder {
    const lzma: LzmaDecoder
    var sequence: Phase
    var nextSequence: Phase
    var uncompressed: nat
    var compressed: nat
    var needDictReset: bool
    var needProps: bool
    const tempBuf: array<byte>
    var tempSize: nat

    // The whole stream, of which taken bytes have been taken over from the caller, and
    // what has been handed out so far.
    ghost const stream: seq<byte>
    ghost const origin: Ref
    ghost var taken: nat
    ghost var produced: seq<byte>
    // The one-shot decoder on the same stream, after some number of steps.
    ghost var steps: nat
    ghost var ref: Ref

    ghost predicate RefOk()
      reads this`steps, this`ref
    {
      GoodRef(origin) && ref == Steps(origin, stream, lzma.dict.end, steps)
    }

    // The fields agree with the one-shot decoder, which is ahead by what has been decoded
    // but not yet flushed and by what is left of a match. Input is not covered here.
    ghost predicate Follows()
      reads this`sequence, this`nextSequence, this`uncompressed, this`needDictReset, this`needProps
      reads this`produced, this`steps, this`ref, lzma, lzma.rc, lzma.rc.probs, lzma.dict, lzma.dict.buf
    {
      RefOk() && Mirrors(ref)
    }

    ghost function Fields(): (c: ControlState)
      reads this`sequence, this`nextSequence, this`uncompressed, this`needDictReset, this`needProps, this`produced
    {
      ControlState(sequence, nextSequence, uncompressed, needDictReset, needProps, produced)
    }

    ghost predicate Mirrors(r: Ref)
      reads this`sequence, this`nextSequence, this`uncompressed, this`needDictReset, this`needProps
      reads this`produced, lzma, lzma.rc, lzma.rc.probs, lzma.dict, lzma.dict.buf
    {
      Mirror(Fields(), lzma.Look(), r)
    }

    // Input that was taken from the caller but not decoded yet waits in tempBuf.
    ghost predicate Buffered()
      reads this`compressed, this`tempSize, this`taken, this`ref, tempBuf
    {
      && tempBuf.Length == 3 * LZMA_IN_REQUIRED && tempBuf != lzma.dict.buf
      && compressed == ref.compressed
      && tempSize < LZMA_IN_REQUIRED && tempSize <= compressed
      && taken == ref.pos + tempSize && Waiting(tempBuf[..], tempSize, stream, ref.pos)
      && (0 < tempSize ==> ref.phase == LzmaRun)
    }

    ghost predicate Valid()
      reads this, lzma, lzma.rc, lzma.rc.probs, lzma.dict, lzma.dict.buf, tempBuf
    {
      && Follows() && Buffered()
      && lzma.dict.start == lzma.dict.pos < lzma.dict.end
      && (ref.phase == LzmaRun ==> 0 < uncompressed)
    }

    // A decoder for a new Block, with a dictionary of the given size. Whether properties are
    // needed is left as it happens to be.
    constructor (size: nat, needProps: bool, ghost stream: seq<byte>)
      requires 0 < size && size % 16 == 0
      ensures Valid() && this.stream == stream && taken == 0 && produced == [] && sequence == Control
      ensures lzma.dict.end == size && origin == ref && steps == 0 && origin == Start(origin.z, needProps)
      ensures fresh(lzma) && fresh(lzma.rc) && fresh(lzma.rc.probs) && fresh(lzma.dict) && fresh(lzma.dict.buf) && fresh(tempBuf)
    {
      var decoder := new LzmaDecoder(size);
      lzma := decoder;
      sequence, nextSequence := Control, Control;
      uncompressed, compressed := 0, 0;
      needDictReset, this.needProps := true, needProps;
      tempBuf := new byte[3 * LZMA_IN_REQUIRED](_ => 0);
      tempSize := 0;
      this.stream := stream;
      origin := Start(At(decoder.Value(), 0), needProps);
      ref := Start(At(decoder.Value(), 0), needProps);
      taken, produced, steps := 0, [], 0;
    }

    // What the caller offers continues the stream.
    ghost predicate Feeds(b: XzBuf)
      reads this`taken, b
    {
      b.Valid() && Continues(b.input, b.inPos, stream, taken)
    }

    // Decodes symbols here and in the reference, from position inPos of the given buffer
    // while the position is at most inLimit. The two inputs agree up to hi.
    method DecodeSymbols(input: seq<byte>, inPos: nat, inLimit: nat, ghost hi: nat) returns (ok: bool)
      requires Follows() && ref.phase == LzmaRun
      requires lzma.dict.pos <= lzma.dict.limit <= lzma.dict.end
      requires lzma.dict.limit - lzma.dict.start <= uncompressed
      requires inPos <= inLimit && inLimit + 21 <= |input| && inPos <= hi
      requires var delta := ref.pos - inPos;
               && Agree(input, stream, delta, inPos, hi)
               && hi + delta <= ref.pos + ref.compressed
               && (hi + delta == ref.pos + ref.compressed || inLimit + 21 <= hi)
      modifies this`steps, this`ref
      modifies lzma`len, lzma`state, lzma`rep0, lzma`rep1, lzma`rep2, lzma`rep3
      modifies lzma.rc`range, lzma.rc`code, lzma.rc`inPos, lzma.rc`input, lzma.rc`inLimit, lzma.rc.probs
      modifies lzma.dict, lzma.dict.buf
      ensures RefOk()
      ensures !ok || hi < lzma.rc.inPos ==> ref.phase == Failed
      ensures ok ==> inPos <= lzma.rc.inPos <= |input|
      ensures ok && lzma.rc.inPos <= hi ==>
                && Follows() && ref.phase == LzmaRun
                && ref.pos == old(ref.pos) + (lzma.rc.inPos - inPos)
                && ref.compressed == old(ref.compressed) - (lzma.rc.inPos - inPos)
      ensures ok ==> lzma.dict.pos == lzma.dict.limit || inLimit < lzma.rc.inPos
      ensures ok && old(lzma.dict.pos < lzma.dict.limit) ==> old(lzma.dict.pos) < lzma.dict.pos
      ensures old(lzma.dict.pos) <= lzma.dict.pos <= lzma.dict.limit == old(lzma.dict.limit)
      ensures lzma.dict.start == old(lzma.dict.start)
    {
      hide Symbols, Steps, Agree, Owed, Lawful, Live, GoodRef, Mirror, LzmaDecoder.Valid, LzmaDecoder.DistanceOk,
        LzmaDecoder.Look, LzmaDecoder.Tracks;
      ghost var v, before := lzma.Look(), ref;
      lzma.LookIs();
      MirrorRunFacts(Fields(), v, ref);
      ghost var n, y;
      ok, n, y := RunSymbols(input, inPos, inLimit, hi);
      steps, ref := AdvanceRef(origin, ref, stream, lzma.dict.end, steps, n);
      if ok && lzma.rc.inPos <= hi {
        InStep(y.run, before.pos - inPos);
        RanOn(v, before, y.run, before.pos - inPos);
      }
    }

    lemma InStep(x: Run, delta: int)
      requires lzma.Tracks(x, delta) && TOP_VALUE <= lzma.rc.range
      ensures x.z.c.pos == lzma.rc.inPos + delta
    {
      hide Normalize;
      NormalizedIs(lzma.Value(), lzma.rc.input);
    }

    // The decoder's part of it; n symbols of the one-shot decoder come to y.
    method RunSymbols(input: seq<byte>, inPos: nat, inLimit: nat, ghost hi: nat) returns (ok: bool, ghost n: nat, ghost y: Progress)
      requires Follows() && ref.phase == LzmaRun
      requires lzma.dict.pos <= lzma.dict.limit <= lzma.dict.end
      requires lzma.dict.limit - lzma.dict.start <= uncompressed
      requires inPos <= inLimit && inLimit + 21 <= |input| && inPos <= hi
      requires var delta := ref.pos - inPos;
               && Agree(input, stream, delta, inPos, hi)
               && hi + delta <= ref.pos + ref.compressed
               && (hi + delta == ref.pos + ref.compressed || inLimit + 21 <= hi)
      modifies lzma`len, lzma`state, lzma`rep0, lzma`rep1, lzma`rep2, lzma`rep3
      modifies lzma.rc`range, lzma.rc`code, lzma.rc`inPos, lzma.rc`input, lzma.rc`inLimit, lzma.rc.probs
      modifies lzma.dict, lzma.dict.buf
      ensures GoodRef(ref) && y == Symbols(RunOf(ref), ref.props, stream, ref.pos + ref.compressed, lzma.dict.end, n)
      ensures !ok || hi < lzma.rc.inPos ==> y.Broken?
      ensures ok ==> inPos <= lzma.rc.inPos <= |input|
      ensures ok && lzma.rc.inPos <= hi ==>
                && y.Going? && lzma.Tracks(y.run, ref.pos - inPos) && TOP_VALUE <= lzma.rc.range
                && y.run.left + lzma.len == ref.uncompressed + old(lzma.len) - (lzma.dict.pos - old(lzma.dict.pos))
      ensures ok ==> lzma.dict.pos == lzma.dict.limit || inLimit < lzma.rc.inPos
      ensures ok && old(lzma.dict.pos < lzma.dict.limit) ==> old(lzma.dict.pos) < lzma.dict.pos
      ensures old(lzma.dict.pos) <= lzma.dict.pos <= lzma.dict.limit == old(lzma.dict.limit)
      ensures lzma.dict.start == old(lzma.dict.start) && old(lzma.dict.history) <= lzma.dict.history
      ensures lzma.dict.pos - old(lzma.dict.pos) == |lzma.dict.history| - |old(lzma.dict.history)|
    {
      hide Symbols, Steps, Agree, Owed, Lawful, Live, GoodRef, Mirror, LzmaDecoder.Valid, LzmaDecoder.DistanceOk,
        LzmaDecoder.Look, LzmaDecoder.Tracks;
      lzma.LookIs();
      MirrorRunFacts(Fields(), lzma.Look(), ref);
      lzma.SetInput(input, inPos, inLimit, RunOf(ref));
      ok, n, y := lzma.LzmaMain(RunOf(ref), stream, ref.pos - inPos, hi, ref.pos + ref.compressed);
    }

    // Both decoders have gone on in an LZMA chunk.
    lemma RanOn(v: View, before: Ref, x: Run, delta: int)
      requires Mirror(Fields(), v, before) && before.phase == LzmaRun && RefOk() && Advanced(before, ref, x)
      requires lzma.Tracks(x, delta) && TOP_VALUE <= lzma.rc.range
      requires v.initLeft == lzma.rc.initBytesLeft && v.props == lzma.props && v.history <= lzma.dict.history
      requires (lzma.dict.pos - lzma.dict.start) - v.pending == |lzma.dict.history| - |v.history|
      requires x.left + lzma.len == before.uncompressed + v.len - (lzma.dict.pos - lzma.dict.start - v.pending)
      ensures Follows()
    {
      hide Lawful, Live, Mirror, LzmaDecoder.Valid, LzmaDecoder.DistanceOk, LzmaDecoder.Look, Owed;
      NormalizedIs(lzma.Value(), lzma.rc.input);
      lzma.LookIs();
      MirrorRun(Fields(), v, before, lzma.Look(), ref);
    }

    // How much of the input goes into tempBuf: up to two symbols' worth, the rest of the
    // chunk, or all there is.
    function TempFill(available: nat): (r: nat)
      reads this
      requires tempSize < LZMA_IN_REQUIRED && tempSize <= compressed
      ensures r <= available && tempSize + r <= 2 * LZMA_IN_REQUIRED && tempSize + r <= compressed
      ensures tempSize + r == compressed || tempSize + r == 2 * LZMA_IN_REQUIRED || r == available
    {
      Min(Min(2 * LZMA_IN_REQUIRED - tempSize, compressed - tempSize), available)
    }

    // Fills tempBuf and decodes from it. When the chunk ends inside it, zeros follow. done
    // says that the caller's input is not to be decoded from directly yet.
    method DecodeFromTemp(b: XzBuf) returns (ok: bool, done: bool)
      requires Follows() && Buffered() && ref.phase == LzmaRun && Feeds(b)
      requires lzma.dict.pos <= lzma.dict.limit <= lzma.dict.end
      requires lzma.dict.limit - lzma.dict.start <= uncompressed
      requires 0 < tempSize || compressed == 0
      modifies this`steps, this`ref, this`taken, this`compressed, this`tempSize, tempBuf
      modifies lzma`len, lzma`state, lzma`rep0, lzma`rep1, lzma`rep2, lzma`rep3
      modifies lzma.rc`range, lzma.rc`code, lzma.rc`inPos, lzma.rc`input, lzma.rc`inLimit, lzma.rc.probs
      modifies lzma.dict, lzma.dict.buf, b`inPos
      ensures b.Valid() && (!ok ==> RefOk() && ref.phase == Failed)
      ensures ok ==> Follows() && Buffered() && ref.phase == LzmaRun && Feeds(b)
      ensures ok ==> old(b.inPos) <= b.inPos && taken - old(taken) == b.inPos - old(b.inPos)
      ensures old(lzma.dict.pos) <= lzma.dict.pos <= lzma.dict.limit == old(lzma.dict.limit)
      ensures lzma.dict.start == old(lzma.dict.start)
      ensures ok && !done ==> tempSize == 0
      ensures ok && old(lzma.dict.pos < lzma.dict.limit) ==>
                old(lzma.dict.pos) < lzma.dict.pos || (b.inPos == |b.input| && tempSize < compressed)
    {
      hide Follows, RefOk, Agree, Waiting, Continues, Wrote;
      var tmp, inLimit, enough := FillTemp(b);
      if !enough {
        ContinuesAfter(b.input, b.inPos, tmp, stream, taken);
        tempSize := tempSize + tmp;
        b.inPos := b.inPos + tmp;
        taken := taken + tmp;
        return true, true;
      }
      ghost var temp, filled := tempBuf[..], tempSize + tmp;
      WaitingAgrees(temp, filled, stream, ref.pos);
      ok := DecodeSymbols(tempBuf[..], 0, inLimit, filled);
      if !ok || lzma.rc.inPos > tempSize + tmp {
        return false, true;
      }
      assert tempBuf[..] == temp;
      if lzma.rc.inPos < tempSize {
        KeepRest(lzma.rc.inPos, filled);
        return true, true;
      }
      TakeRest(b, lzma.rc.inPos);
      return true, false;
    }

    // Fewer bytes were decoded than had been waiting: the others move to the front.
    method KeepRest(n: nat, ghost filled: nat)
      requires ref.phase == LzmaRun && n <= ref.pos && compressed == ref.compressed + n && taken == ref.pos - n + tempSize
      requires n < tempSize <= filled <= tempBuf.Length == 3 * LZMA_IN_REQUIRED && tempBuf != lzma.dict.buf
      requires tempSize < LZMA_IN_REQUIRED && tempSize <= compressed
      requires Waiting(tempBuf[..], filled, stream, ref.pos - n)
      modifies this`compressed, this`tempSize, tempBuf
      ensures Buffered() && 0 < tempSize
    {
      hide Waiting, Wrote;
      compressed := compressed - n;
      tempSize := tempSize - n;
      ghost var had := tempBuf[..];
      CopyBytes(tempBuf, 0, tempBuf[n..n + tempSize]);
      KeepMoved(had, tempBuf[..], filled, n, tempSize, stream, ref.pos - n);
    }

    // All that had been waiting was decoded, and perhaps some of the new input.
    method TakeRest(b: XzBuf, n: nat)
      requires ref.phase == LzmaRun && n <= ref.pos && compressed == ref.compressed + n && taken == ref.pos - n + tempSize
      requires tempBuf.Length == 3 * LZMA_IN_REQUIRED && tempBuf != lzma.dict.buf
      requires Feeds(b) && tempSize <= n <= tempSize + (|b.input| - b.inPos)
      modifies this`compressed, this`tempSize, this`taken, b`inPos
      ensures Buffered() && Feeds(b) && tempSize == 0
      ensures b.inPos == old(b.inPos) + (n - old(tempSize)) && taken == old(taken) + (n - old(tempSize))
    {
      compressed := compressed - n;
      ContinuesAfter(b.input, b.inPos, n - tempSize, stream, taken);
      b.inPos := b.inPos + (n - tempSize);
      taken := taken + (n - tempSize);
      tempSize := 0;
    }

    // The bytes come after those already there. Where the chunk ends in the buffer, zeros
    // follow; where there is more of it to come, two symbols' worth of input must remain.
    method FillTemp(b: XzBuf) returns (tmp: nat, inLimit: nat, enough: bool)
      requires Buffered() && Feeds(b)
      modifies tempBuf
      ensures Buffered() && tmp <= |b.input| - b.inPos && tempSize + tmp <= compressed
      ensures tempSize + tmp <= 2 * LZMA_IN_REQUIRED
      ensures Waiting(tempBuf[..], tempSize + tmp, stream, ref.pos)
      ensures !enough ==> tempSize + tmp < LZMA_IN_REQUIRED && tempSize + tmp < compressed && tmp == |b.input| - b.inPos
      ensures enough ==> inLimit + LZMA_IN_REQUIRED <= tempBuf.Length
      ensures enough ==> tempSize + tmp == compressed || inLimit + LZMA_IN_REQUIRED <= tempSize + tmp
    {
      hide Waiting, Continues, Wrote;
      tmp := TempFill(|b.input| - b.inPos);
      inLimit := 0;
      ghost var had := tempBuf[..];
      CopyBytes(tempBuf, tempSize, b.input[b.inPos..b.inPos + tmp]);
      WaitingMore(had, tempBuf[..], tempSize, b.input, b.inPos, tmp, stream, ref.pos);
      enough := true;
      if tempSize + tmp == compressed {
        ghost var filled, zeros := tempBuf[..], seq(3 * LZMA_IN_REQUIRED - tempSize - tmp, _ => 0);
        CopyBytes(tempBuf, tempSize + tmp, seq(3 * LZMA_IN_REQUIRED - tempSize - tmp, _ => 0));
        WaitingKept(filled, tempBuf[..], tempSize + tmp, tempSize + tmp, zeros, stream, ref.pos);
        inLimit := tempSize + tmp;
      } else if tempSize + tmp < LZMA_IN_REQUIRED {
        enough := false;
      } else {
        inLimit := tempSize + tmp - LZMA_IN_REQUIRED;
      }
      WaitingLess(tempBuf[..], tempSize + tmp, tempSize, stream, ref.pos);
    }

    // Decodes from the caller's input directly, while a whole symbol's worth of it is left,
    // or up to the end of the chunk.
    method DecodeFromInput(b: XzBuf) returns (ok: bool)
      requires Follows() && Buffered() && ref.phase == LzmaRun && Feeds(b)
      requires lzma.dict.pos <= lzma.dict.limit <= lzma.dict.end
      requires lzma.dict.limit - lzma.dict.start <= uncompressed
      requires tempSize == 0 && LZMA_IN_REQUIRED <= |b.input| - b.inPos
      modifies this`steps, this`ref, this`taken, this`compressed, this`tempSize, tempBuf
      modifies lzma`len, lzma`state, lzma`rep0, lzma`rep1, lzma`rep2, lzma`rep3
      modifies lzma.rc`range, lzma.rc`code, lzma.rc`inPos, lzma.rc`input, lzma.rc`inLimit, lzma.rc.probs
      modifies lzma.dict, lzma.dict.buf, b`inPos
      ensures b.Valid() && (!ok ==> RefOk() && ref.phase == Failed)
      ensures ok ==> Follows() && Buffered() && ref.phase == LzmaRun && Feeds(b)
      ensures ok ==> old(b.inPos) <= b.inPos && taken - old(taken) == b.inPos - old(b.inPos)
      ensures old(lzma.dict.pos) <= lzma.dict.pos <= lzma.dict.limit == old(lzma.dict.limit)
      ensures lzma.dict.start == old(lzma.dict.start)
      ensures ok ==> tempSize == 0
      ensures ok && old(lzma.dict.pos < lzma.dict.limit) ==> old(lzma.dict.pos) < lzma.dict.pos
    {
      hide Follows, RefOk, Agree, Waiting, Continues;
      var inLimit;
      if |b.input| - b.inPos >= compressed + LZMA_IN_REQUIRED {
        inLimit := b.inPos + compressed;
      } else {
        inLimit := |b.input| - LZMA_IN_REQUIRED;
      }
      ghost var hi := Min(|b.input|, b.inPos + compressed);
      ContinuesAgrees(b.input, b.inPos, stream, taken);
      AgreeLess(b.input, stream, taken - b.inPos, b.inPos, |b.input|, hi);
      ok := DecodeSymbols(b.input, b.inPos, inLimit, hi);
      if !ok {
        return;
      }
      var used := lzma.rc.inPos - b.inPos;
      if used > compressed {
        return false;
      }
      TakeRest(b, used);
    }

    // Too little input is left for a symbol: it waits for the next call.
    method KeepInput(b: XzBuf)
      requires Buffered() && Feeds(b) && ref.phase == LzmaRun && tempSize == 0
      requires |b.input| - b.inPos < LZMA_IN_REQUIRED
      modifies this`tempSize, this`taken, tempBuf, b`inPos
      ensures Buffered() && Feeds(b)
      ensures tempSize == Min(|b.input| - old(b.inPos), compressed)
      ensures b.inPos == old(b.inPos) + tempSize && taken == old(taken) + tempSize
    {
      hide Waiting, Continues, Wrote;
      var n := Min(|b.input| - b.inPos, compressed);
      ghost var had := tempBuf[..];
      CopyBytes(tempBuf, 0, b.input[b.inPos..b.inPos + n]);
      WaitingMore(had, tempBuf[..], 0, b.input, b.inPos, n, stream, ref.pos);
      ContinuesAfter(b.input, b.inPos, n, stream, taken);
      tempSize := n;
      b.inPos := b.inPos + n;
      taken := taken + n;
    }

    // Decodes as much of an LZMA chunk as the input and the dictionary limit allow. Unless
    // the chunk is broken there is new output, or all input has been taken and more of the
    // chunk is to come.
    method DecodeChunk(b: XzBuf) returns (ok: bool)
      requires Follows() && Buffered() && ref.phase == LzmaRun && Feeds(b)
      requires lzma.dict.pos <= lzma.dict.limit <= lzma.dict.end
      requires lzma.dict.limit - lzma.dict.start <= uncompressed
      modifies this`steps, this`ref, this`taken, this`compressed, this`tempSize, tempBuf
      modifies lzma`len, lzma`state, lzma`rep0, lzma`rep1, lzma`rep2, lzma`rep3
      modifies lzma.rc`range, lzma.rc`code, lzma.rc`inPos, lzma.rc`input, lzma.rc`inLimit, lzma.rc.probs
      modifies lzma.dict, lzma.dict.buf, b`inPos
      ensures b.Valid() && (!ok ==> RefOk() && ref.phase == Failed)
      ensures ok ==> Follows() && Buffered() && ref.phase == LzmaRun && Feeds(b)
      ensures ok ==> old(b.inPos) <= b.inPos && taken - old(taken) == b.inPos - old(b.inPos)
      ensures old(lzma.dict.pos) <= lzma.dict.pos <= lzma.dict.limit == old(lzma.dict.limit)
      ensures lzma.dict.start == old(lzma.dict.start)
      ensures ok && old(lzma.dict.pos < lzma.dict.limit) ==>
                || old(lzma.dict.pos) < lzma.dict.pos || old(b.inPos) < b.inPos
                || (b.inPos == |b.input| && tempSize < compressed)
    {
      hide Follows, RefOk, Waiting, Continues;
      ok := true;
      if tempSize > 0 || compressed == 0 {
        var done;
        ok, done := DecodeFromTemp(b);
        if !ok || done {
          return;
        }
      }
      if |b.input| - b.inPos >= LZMA_IN_REQUIRED {
        ok := DecodeFromInput(b);
        if !ok {
          return;
        }
      }
      if |b.input| - b.inPos < LZMA_IN_REQUIRED {
        KeepInput(b);
      }
    }

    // The decoder takes the next byte, which is the stream's. The step that the one-shot
    // decoder takes with it is still to be matched.
    method TakeByte(b: XzBuf) returns (x: byte)
      requires Valid() && Feeds(b) && b.inPos < |b.input| && ref.phase != LzmaRun
      modifies this`taken, this`ref, b`inPos
      ensures x == b.input[old(b.inPos)] && b.inPos == old(b.inPos) + 1 && taken == old(taken) + 1 && Feeds(b)
      ensures old(ref.pos) < |stream| && x == stream[old(ref.pos)]
      ensures Mirrors(ref) && ref == old(ref).(pos := old(ref.pos) + 1) && taken == ref.pos
      ensures Waiting(tempBuf[..], 0, stream, ref.pos)
    {
      hide Continues, Waiting, Mirrors, Valid;
      ByteIs(b);
      x := b.input[b.inPos];
      b.inPos := b.inPos + 1;
      taken := taken + 1;
      ref := ref.(pos := ref.pos + 1);
    }

    lemma ByteIs(b: XzBuf)
      requires Valid() && Feeds(b) && b.inPos < |b.input| && ref.phase != LzmaRun
      ensures taken == ref.pos < |stream| && b.input[b.inPos] == stream[ref.pos]
      ensures Continues(b.input, b.inPos + 1, stream, taken + 1)
      ensures Mirrors(ref.(pos := ref.pos + 1)) && Waiting(tempBuf[..], 0, stream, ref.pos + 1)
    {
      hide Continues, Waiting, Mirror, RefOk, LzmaDecoder.Look, LzmaDecoder.Valid, LzmaDecoder.DistanceOk, Lawful,
        Live, Step, Steps, GoodRef;
      lzma.LookIs();
      MirrorFacts(Fields(), lzma.Look(), ref);
      LawfulAt(ref, ref.pos + 1);
      MirrorAt(Fields(), lzma.Look(), ref, ref.pos + 1, ref.compressed);
      ContinuesByte(b.input, b.inPos, stream, taken);
      ContinuesAfter(b.input, b.inPos, 1, stream, taken);
      WaitingNone(tempBuf[..], stream, ref.pos + 1);
    }

    // The byte is the control byte: the one-shot decoder has taken its step, and the decoder
    // still has to follow.
    method TakeControl(b: XzBuf, ghost next: Ref) returns (tmp: byte)
      requires Valid() && Feeds(b) && b.inPos < |b.input| && sequence == Control
      requires ref.pos < |stream| ==> next == ControlStep(ref, stream[ref.pos])
      modifies this`taken, this`ref, this`steps, b`inPos
      ensures b.inPos == old(b.inPos) + 1 && taken == old(taken) + 1 == ref.pos && Feeds(b)
      ensures Mirrors(ref) && ref == old(ref).(pos := ref.pos) && GoodRef(ref) && next == ControlStep(old(ref), tmp)
      ensures GoodRef(origin) && next == Steps(origin, stream, lzma.dict.end, steps)
      ensures Waiting(tempBuf[..], 0, stream, ref.pos) && tempSize == 0
      ensures needDictReset == ref.needDictReset && produced == ref.Out() && 0 < lzma.dict.end
    {
      hide Step, Steps, Lawful, Waiting, Continues, ControlStep, Mirror, LzmaDecoder.Look, LzmaDecoder.Valid,
        LzmaDecoder.DistanceOk, Live, Owed, Good;
      lzma.LookIs();
      GoodValid();
      MirrorFacts(Fields(), lzma.Look(), ref);
      NextStep(origin, ref, stream, lzma.dict.end, steps);
      tmp := TakeByte(b);
      StepControl(old(ref), stream, lzma.dict.end, tmp);
      steps := steps + 1;
    }

    // The control byte of a chunk, or of the end of the stream.
    method ControlByte(b: XzBuf) returns (ret: XzRet)
      requires Valid() && Feeds(b) && b.inPos < |b.input| && sequence == Control
      modifies this, lzma`state, lzma`rep0, lzma`rep1, lzma`rep2, lzma`rep3
      modifies lzma.rc`range, lzma.rc`code, lzma.rc`initBytesLeft, lzma.rc.probs, lzma.dict, b`inPos
      ensures b.inPos == old(b.inPos) + 1 && taken == old(taken) + 1 && produced == old(produced)
      ensures ret.XzOk? ==> Valid() && Feeds(b)
      ensures ret.XzStreamEnd? ==> RefOk() && ref.phase == Ended && produced == ref.Out()
      ensures ret.XzDataError? ==> RefOk() && ref.phase == Failed
    {
      hide Steps, Waiting, Continues, ControlStep, Mirror, Lawful, Live, LzmaDecoder.Look, LzmaDecoder.Valid,
        LzmaDecoder.DistanceOk, GoodRef;
      GoodValid();
      ghost var next := if ref.pos < |stream| then ControlStep(ref, stream[ref.pos]) else ref;
      var tmp := TakeControl(b, next);
      if tmp == 0 {
        ControlIs(old(ref), tmp);
        ref := next;
        return XzStreamEnd;
      }
      ret := StartChunk(tmp, old(ref));
    }

    // A chunk begins; r is the one-shot decoder before the control byte.
    method StartChunk(tmp: byte, ghost r: Ref) returns (ret: XzRet)
      requires GoodRef(r) && ref == r.(pos := r.pos + 1) && GoodRef(ref) && Mirrors(ref)
      requires sequence == Control && 0 < tmp && needDictReset == ref.needDictReset
      requires lzma.dict.start == lzma.dict.pos < lzma.dict.end
      modifies this`sequence, this`nextSequence, this`uncompressed, this`needProps, this`needDictReset, this`ref
      modifies lzma`state, lzma`rep0, lzma`rep1, lzma`rep2, lzma`rep3
      modifies lzma.rc`range, lzma.rc`code, lzma.rc`initBytesLeft, lzma.rc.probs, lzma.dict
      ensures ref == ControlStep(r, tmp) && ref.pos == old(ref.pos) && ref.compressed == old(ref.compressed)
      ensures ref.phase != LzmaRun && ret == if ref.phase == Failed then XzDataError else XzOk
      ensures ret.XzOk? ==> Mirrors(ref)
      ensures lzma.dict.start == lzma.dict.pos < lzma.dict.end
    {
      hide EnterChunk, ControlStep, Mirror, LzmaDecoder.Look;
      ControlIs(r, tmp);
      if tmp >= 0xE0 || tmp == 1 {
        ResetDictionary();
      } else if needDictReset {
        ref := ref.(phase := Failed);
        return XzDataError;
      }
      ret := Enter(tmp);
    }

    lemma ControlIs(r: Ref, b: byte)
      requires GoodRef(r)
      ensures var r1 := r.(pos := r.pos + 1);
              && GoodRef(r1) && GoodRef(ResetHistory(r1)) && ControlStep(r, b) ==
                   if b == 0 then r1.(phase := Ended)
                   else if b >= 0xE0 || b == 1 then EnterChunk(ResetHistory(r1), b)
                   else if r.needDictReset then r1.(phase := Failed)
                   else EnterChunk(r1, b)
      ensures r.(pos := r.pos + 1, phase := Ended).Out() == r.Out()
    {
      hide EnterChunk, ResetHistory;
    }

    lemma GoodValid()
      requires Valid()
      ensures GoodRef(ref) && lzma.dict.start == lzma.dict.pos
    {
      hide Owed;
    }

    method ResetDictionary()
      requires Mirrors(ref) && sequence == Control && lzma.dict.start == lzma.dict.pos < lzma.dict.end
      modifies this`needProps, this`needDictReset, this`ref, lzma.dict
      ensures Mirrors(ref) && ref == ResetHistory(old(ref)) && lzma.dict.start == lzma.dict.pos < lzma.dict.end
      ensures sequence == Control && !needDictReset
    {
      hide Mirror, Window;
      MirrorFacts(Fields(), lzma.Look(), ref);
      MirrorReset(Fields(), lzma.Look(), ref);
      needProps := true;
      needDictReset := false;
      lzma.dict.Reset();
      ref := ResetHistory(ref);
    }

    method Enter(tmp: nat) returns (ret: XzRet)
      requires Mirrors(ref) && sequence == Control && 0 < tmp < 0x100 && !needDictReset
      requires lzma.dict.start == lzma.dict.pos
      modifies this`sequence, this`nextSequence, this`uncompressed, this`needProps, this`ref
      modifies lzma`state, lzma`rep0, lzma`rep1, lzma`rep2, lzma`rep3
      modifies lzma.rc`range, lzma.rc`code, lzma.rc`initBytesLeft, lzma.rc.probs
      ensures ref == EnterChunk(old(ref), tmp)
      ensures ref.pos == old(ref.pos) && ref.compressed == old(ref.compressed) && ref.phase != LzmaRun
      ensures ret == if ref.phase == Failed then XzDataError else XzOk
      ensures ret.XzOk? ==> Mirrors(ref)
    {
      hide Mirror, Window, EnterChunk;
      MirrorFacts(Fields(), lzma.Look(), ref);
      MirrorEnter(Fields(), lzma.Look(), ref, tmp);
      ref := EnterChunk(ref, tmp);
      if tmp >= 0x80 {
        uncompressed := tmp % 0x20 * 0x1_0000;
        sequence := Uncompressed1;
        if tmp >= 0xC0 {
          needProps := false;
          nextSequence := Properties;
        } else if needProps {
          return XzDataError;
        } else {
          nextSequence := LzmaPrepare;
          if tmp >= 0xA0 {
            lzma.Reset();
          }
        }
      } else {
        if tmp > 2 {
          return XzDataError;
        }
        sequence := Compressed0;
        nextSequence := Copy;
      }
      ret := XzOk;
    }

    // A byte of a chunk header, with which the one-shot decoder has taken its step; the
    // decoder still has to follow.
    method TakeHeader(b: XzBuf, ghost next: Ref) returns (x: byte)
      requires Valid() && Feeds(b) && b.inPos < |b.input| && InHeader(ref)
      requires ref.pos < |stream| ==> next == ByteStep(ref, stream[ref.pos])
      modifies this`taken, this`ref, this`steps, b`inPos
      ensures b.inPos == old(b.inPos) + 1 && taken == old(taken) + 1 == ref.pos && Feeds(b)
      ensures ref == old(ref).(pos := ref.pos) && next == ByteStep(old(ref), x) && next.pos == ref.pos
      ensures GoodRef(origin) && next == Steps(origin, stream, lzma.dict.end, steps)
      ensures Waiting(tempBuf[..], 0, stream, ref.pos) && tempSize == 0
    {
      hide Step, Steps, Lawful, Waiting, Continues, ByteStep, Mirror, LzmaDecoder.Look, LzmaDecoder.Valid,
        LzmaDecoder.DistanceOk, Live, Owed, Good;
      lzma.LookIs();
      GoodValid();
      MirrorFacts(Fields(), lzma.Look(), ref);
      NextStep(origin, ref, stream, lzma.dict.end, steps);
      x := TakeByte(b);
      StepByte(old(ref), stream, lzma.dict.end, x);
      ByteMoves(old(ref), x);
      steps := steps + 1;
    }

    lemma ByteMoves(r: Ref, x: byte)
      requires GoodRef(r) && InHeader(r)
      ensures ByteStep(r, x).pos == r.pos + 1
    {
    }

    // The sizes of a chunk.
    method SizeByte(b: XzBuf)
      requires Valid() && Feeds(b) && b.inPos < |b.input|
      requires sequence in {Uncompressed1, Uncompressed2, Compressed0, Compressed1}
      modifies this, b`inPos
      ensures b.inPos == old(b.inPos) + 1 && taken == old(taken) + 1 && produced == old(produced)
      ensures Valid() && Feeds(b)
    {
      hide Steps, Waiting, Continues, Mirror, LzmaDecoder.Look, ByteStep, LzmaDecoder.Valid, LzmaDecoder.DistanceOk,
        Lawful, Live, GoodRef;
      GoodValid();
      lzma.LookIs();
      MirrorFacts(Fields(), lzma.Look(), ref);
      ghost var c, v, r := Fields(), lzma.Look(), ref;
      ghost var next := if ref.pos < |stream| then ByteStep(ref, stream[ref.pos]) else ref;
      var x := TakeHeader(b, next);
      MirrorSize(c, v, r, x);
      ref := next;
      NextSize(x);
    }

    method NextSize(x: nat)
      requires sequence in {Uncompressed1, Uncompressed2, Compressed0, Compressed1} && x < 0x100
      modifies this`uncompressed, this`compressed, this`sequence
      ensures Fields() == SizeFields(old(Fields()), x)
      ensures compressed == match old(sequence)
                            case Compressed0 => 0x100 * x
                            case Compressed1 => old(compressed) + x + 1
                            case _ => old(compressed)
    {
      if sequence == Uncompressed1 {
        uncompressed := uncompressed + x * 0x100;
        sequence := Uncompressed2;
      } else if sequence == Uncompressed2 {
        uncompressed := uncompressed + x + 1;
        sequence := Compressed0;
      } else if sequence == Compressed0 {
        compressed := x * 0x100;
        sequence := Compressed1;
      } else {
        compressed := compressed + x + 1;
        sequence := nextSequence;
      }
    }

    lemma LooksFresh(v: View)
      requires lzma.Valid() && At(lzma.Value(), 0) == FreshLzma() && lzma.rc.initBytesLeft == 5 && TOP_VALUE <= lzma.rc.range
      requires v.valid && v.pending == lzma.dict.pos - lzma.dict.start && v.history == lzma.dict.history && v.len == lzma.len == 0
      ensures lzma.Look() == FreshView(v, lzma.props)
    {
      hide LzmaDecoder.Valid;
    }

    method PropertiesByte(b: XzBuf) returns (ok: bool)
      requires Valid() && Feeds(b) && b.inPos < |b.input| && sequence == Properties
      modifies this, lzma`state, lzma`rep0, lzma`rep1, lzma`rep2, lzma`rep3
      modifies lzma`lc, lzma`literalPosMask, lzma`posMask, lzma`props
      modifies lzma.rc`range, lzma.rc`code, lzma.rc`initBytesLeft, lzma.rc.probs, b`inPos
      ensures b.inPos == old(b.inPos) + 1 && taken == old(taken) + 1 && produced == old(produced)
      ensures b.Valid() && (ok ==> Valid() && Feeds(b) && sequence == LzmaPrepare)
      ensures !ok ==> RefOk() && ref.phase == Failed
    {
      hide Steps, Waiting, Continues, Mirror, ByteStep, Lawful, Live, GoodRef, LzmaDecoder.Valid, LzmaDecoder.DistanceOk,
        LzmaDecoder.Look;
      GoodValid();
      lzma.LookIs();
      MirrorFacts(Fields(), lzma.Look(), ref);
      ghost var v, r := lzma.Look(), ref;
      ghost var next := if ref.pos < |stream| then ByteStep(ref, stream[ref.pos]) else ref;
      var x := TakeHeader(b, next);
      MirrorProperties(Fields(), v, r, x);
      ref := next;
      ok := lzma.SetProps(x);
      if ok {
        LooksFresh(v);
        sequence := LzmaPrepare;
      }
    }

    // The bytes that start the range coder; more says that all of them have been read.
    method PrepareChunk(b: XzBuf) returns (ok: bool, more: bool)
      requires Valid() && Feeds(b) && sequence == LzmaPrepare
      modifies this, lzma.rc`code, lzma.rc`initBytesLeft, b`inPos
      ensures old(b.inPos) <= b.inPos && taken - old(taken) == b.inPos - old(b.inPos) && produced == old(produced)
      ensures b.Valid() && (ok ==> Valid() && Feeds(b))
      ensures ok && more ==> sequence == LzmaRun && (old(b.inPos) < |b.input| ==> old(b.inPos) < b.inPos)
      ensures ok && !more ==> sequence == LzmaPrepare && b.inPos == |b.input|
      ensures !ok ==> RefOk() && ref.phase == Failed
    {
      hide Valid;
      more := false;
      ok := compressed >= 5;
      if !ok {
        TooShort();
        return;
      }
      more := ReadInitial(b);
    }

    method ReadInitial(b: XzBuf) returns (more: bool)
      requires Valid() && Feeds(b) && sequence == LzmaPrepare && 5 <= compressed
      modifies this, lzma.rc`code, lzma.rc`initBytesLeft, b`inPos
      ensures old(b.inPos) <= b.inPos && taken - old(taken) == b.inPos - old(b.inPos) && produced == old(produced)
      ensures Valid() && Feeds(b)
      ensures more ==> sequence == LzmaRun && (old(b.inPos) < |b.input| ==> old(b.inPos) < b.inPos)
      ensures !more ==> sequence == LzmaPrepare && b.inPos == |b.input|
    {
      hide Step, Steps, Waiting, Continues, Mirror, Lawful, Live, LzmaDecoder.Valid, LzmaDecoder.DistanceOk,
        LzmaDecoder.Look, InitCode, AfterInit, GoodRef;
      lzma.LookIs();
      MirrorFacts(Fields(), lzma.Look(), ref);
      ghost var v := lzma.Look();
      more := lzma.ReadInit(b);
      lzma.LookIs();
      TookInit(v, b, old(b.inPos));
      if more {
        compressed := compressed - 5;
        sequence := LzmaRun;
      }
    }

    // The chunk has no room for the initial bytes; the one-shot decoder fails here, too.
    ghost method TooShort()
      requires Valid() && sequence == LzmaPrepare && compressed < 5
      modifies this`steps, this`ref
      ensures RefOk() && ref.phase == Failed
    {
      hide Step, Steps, Waiting, Mirror, Lawful, GoodRef, LzmaDecoder.Look;
      MirrorFacts(Fields(), lzma.Look(), ref);
      FailsShort(ref, stream, lzma.dict.end);
      NextStep(origin, ref, stream, lzma.dict.end, steps);
      steps := steps + 1;
      ref := Steps(origin, stream, lzma.dict.end, steps);
    }

    // The one-shot decoder reads the same initial bytes.
    ghost method TookInit(v: View, b: XzBuf, from: nat)
      requires RefOk() && Mirror(Fields(), v, ref) && ref.phase == LzmaPrepare && 5 <= ref.compressed
      requires v.initLeft == ref.initLeft && taken == ref.pos
      requires from <= b.inPos <= |b.input| && b.inPos - from <= v.initLeft && Continues(b.input, from, stream, taken)
      modifies this`taken, this`steps, this`ref
      ensures RefOk() && taken == old(taken) + (b.inPos - from) && Continues(b.input, b.inPos, stream, taken)
      ensures var bytes := b.input[from..b.inPos];
              && (|bytes| == v.initLeft ==>
                    && Mirror(Fields().(sequence := LzmaRun), InitView(v, bytes), ref)
                    && ref.phase == LzmaRun && ref.compressed == old(ref.compressed) - 5)
              && (|bytes| < v.initLeft ==>
                    && Mirror(Fields(), InitView(v, bytes), ref)
                    && ref.phase == LzmaPrepare && ref.compressed == old(ref.compressed))
      ensures taken == ref.pos && Waiting(tempBuf[..], 0, stream, ref.pos) && 0 < uncompressed
    {
      hide Step, Steps, Waiting, Continues, Mirror, Lawful, Live, InitCode;
      var n := b.inPos - from;
      MirrorFacts(Fields(), v, ref);
      ContinuesSlice(b.input, from, n, stream, taken);
      ContinuesAfter(b.input, from, n, stream, taken);
      WaitingNone(tempBuf[..], stream, ref.pos + n);
      var bytes := stream[ref.pos..ref.pos + n];
      MirrorInit(Fields(), v, ref, bytes);
      LawfulInit(ref, bytes);
      InitSteps(ref, stream, lzma.dict.end, n);
      MoreSteps(origin, ref, stream, lzma.dict.end, steps, n);
      taken := taken + n;
      steps := steps + n;
      ref := Steps(origin, stream, lzma.dict.end, steps);
    }

    // Where the output goes is none of the decoder's own memory.
    ghost predicate Apart(b: XzBuf)
      reads b
    {
      lzma.Apart(b) && tempBuf != b.output
    }

    // A stored chunk, as far as input and output allow.
    method CopyChunk(b: XzBuf) returns (more: bool)
      requires Valid() && Feeds(b) && Apart(b) && sequence == Copy
      modifies this, lzma.dict, lzma.dict.buf, b`inPos, b`outPos, b.output
      ensures Valid() && Feeds(b) && Apart(b)
      ensures old(b.inPos) <= b.inPos && taken - old(taken) == b.inPos - old(b.inPos)
      ensures b.outPos - old(b.outPos) == b.inPos - old(b.inPos)
      ensures old(produced) <= produced && |produced| - |old(produced)| == b.outPos - old(b.outPos)
      ensures Wrote(old(b.output[..]), b.output[..], old(b.outPos), produced[|old(produced)|..])
      ensures more ==> sequence == Control && old(b.inPos) < b.inPos
      ensures !more ==> sequence == Copy && (b.inPos == |b.input| || b.outPos == b.outSize)
    {
      hide Step, Steps, Waiting, Continues, Mirror, Lawful, Live, LzmaDecoder.Valid, LzmaDecoder.DistanceOk,
        LzmaDecoder.Look, GoodRef, Wrote;
      lzma.LookIs();
      MirrorFacts(Fields(), lzma.Look(), ref);
      ghost var c, v := Fields(), lzma.Look();
      var rest := lzma.CopyStored(b, compressed);
      TookCopy(c, v, b, old(b.inPos), lzma.DistanceOk());
      more := rest == 0;
      compressed := rest;
      if more {
        sequence := Control;
      }
    }

    // The one-shot decoder copies the same bytes.
    ghost method TookCopy(c: ControlState, v: View, b: XzBuf, from: nat, d: bool)
      requires RefOk() && Mirror(c, v, ref) && ref.phase == Copy && v.pending == 0 && (v.distanceOk ==> d)
      requires taken == ref.pos && c.produced == produced && 0 < ref.compressed
      requires from <= b.inPos <= |b.input| && b.inPos - from <= ref.compressed && Continues(b.input, from, stream, taken)
      modifies this`taken, this`steps, this`ref, this`produced
      ensures var data := b.input[from..b.inPos];
              && RefOk() && taken == old(taken) + |data| == ref.pos && Continues(b.input, b.inPos, stream, taken)
              && produced == old(produced) + data && produced[|old(produced)|..] == data
              && ref.compressed == old(ref.compressed) - |data|
              && ref.phase == (if ref.compressed == 0 then Control else Copy)
              && Mirror(c.(sequence := ref.phase, produced := produced), v.(history := v.history + data, distanceOk := d), ref)
      ensures Waiting(tempBuf[..], 0, stream, ref.pos)
    {
      hide Step, Steps, Waiting, Continues, Mirror, Lawful, Live;
      var n := b.inPos - from;
      MirrorFacts(c, v, ref);
      ContinuesSlice(b.input, from, n, stream, taken);
      ContinuesAfter(b.input, from, n, stream, taken);
      WaitingNone(tempBuf[..], stream, ref.pos + n);
      MirrorCopy(c, v, ref, stream[ref.pos..ref.pos + n], d);
      CopySteps(ref, stream, lzma.dict.end, n);
      MoreSteps(origin, ref, stream, lzma.dict.end, steps, n);
      taken := taken + n;
      steps := steps + n;
      produced := produced + b.input[from..b.inPos];
      ref := Steps(origin, stream, lzma.dict.end, steps);
    }

    // The decoder cannot go on without more input, or without more room for output.
    ghost predicate Starved(b: XzBuf)
      reads this`sequence, this`tempSize, this`compressed, b
    {
      b.outPos == b.outSize || (b.inPos == |b.input| && (sequence == LzmaRun ==> tempSize < compressed))
    }

    // An LZMA chunk, as far as input and output allow.
    method RunChunk(b: XzBuf) returns (ok: bool, more: bool)
      requires Valid() && Feeds(b) && Apart(b) && sequence == LzmaRun
      modifies this, tempBuf, lzma, lzma.rc, lzma.rc.probs, lzma.dict, lzma.dict.buf, b`inPos, b`outPos, b.output
      ensures Apart(b) && b.Valid()
      ensures ok ==> Valid() && Feeds(b)
      ensures ok ==> old(b.inPos) <= b.inPos && taken - old(taken) == b.inPos - old(b.inPos)
      ensures old(b.outPos) <= b.outPos <= b.outSize
      ensures old(produced) <= produced && |produced| - |old(produced)| == b.outPos - old(b.outPos)
      ensures Wrote(old(b.output[..]), b.output[..], old(b.outPos), produced[|old(produced)|..])
      ensures ok && more ==> old(b.inPos) < b.inPos || old(b.outPos) < b.outPos
      ensures ok && !more ==> Starved(b)
      ensures !ok ==> RefOk() && ref.phase == Failed && (produced == old(produced) || produced <= ref.Out())
    {
      hide Follows, Buffered, RefOk, Continues, Wrote, LzmaDecoder.Valid, LzmaDecoder.DistanceOk, LzmaDecoder.Look;
      WroteNothing(b.output[..], b.outPos);
      LimitRun(b);
      ok := DecodeChunk(b);
      if !ok {
        assert produced[|old(produced)|..] == [];
        return false, false;
      }
      FlushChunk(b);
      if uncompressed == 0 {
        ok := EndChunk();
        more := true;
      } else {
        more := !(b.outPos == b.outSize || (b.inPos == |b.input| && tempSize < compressed));
      }
    }

    // How far the dictionary may be filled: by what the caller has room for and the chunk
    // still promises.
    method LimitRun(b: XzBuf)
      requires Valid() && b.Valid() && sequence == LzmaRun
      modifies lzma.dict`limit
      ensures Follows() && Buffered() && ref.phase == LzmaRun && 0 < uncompressed
      ensures lzma.dict.start == lzma.dict.pos <= lzma.dict.limit <= lzma.dict.end
      ensures lzma.dict.limit - lzma.dict.pos <= Min(b.outSize - b.outPos, uncompressed)
      ensures b.outPos < b.outSize ==> lzma.dict.pos < lzma.dict.limit
    {
      hide Step, Steps, Waiting, Mirror, Lawful, Live, LzmaDecoder.Valid, LzmaDecoder.DistanceOk, LzmaDecoder.Look, GoodRef;
      lzma.LookIs();
      MirrorFacts(Fields(), lzma.Look(), ref);
      lzma.SetLimit(Min(b.outSize - b.outPos, uncompressed));
    }

    // What was decoded is handed to the caller.
    method FlushChunk(b: XzBuf)
      requires Follows() && Buffered() && ref.phase == LzmaRun && Feeds(b) && Apart(b)
      requires lzma.dict.pos - lzma.dict.start <= Min(b.outSize - b.outPos, uncompressed)
      modifies this`uncompressed, this`produced, lzma.dict`pos, lzma.dict`start, b`outPos, b.output
      ensures Follows() && Buffered() && Feeds(b) && lzma.dict.start == lzma.dict.pos < lzma.dict.end
      ensures var n := old(lzma.dict.pos - lzma.dict.start);
              && 0 <= n && b.outPos == old(b.outPos) + n && uncompressed == old(uncompressed) - n
              && old(produced) <= produced && |produced| == |old(produced)| + n
      ensures Wrote(old(b.output[..]), b.output[..], old(b.outPos), produced[|old(produced)|..])
    {
      hide Waiting, Continues, Mirror, RefOk, Buffered, Lawful, Live, GoodRef, LzmaDecoder.Valid, LzmaDecoder.DistanceOk,
        LzmaDecoder.Look, Wrote;
      ghost var v := lzma.Look();
      lzma.LookIs();
      MirrorFacts(Fields(), v, ref);
      MirrorFlush(Fields(), v, ref);
      var copySize := lzma.Flush(b);
      uncompressed := uncompressed - copySize;
      ghost var data := lzma.dict.history[|lzma.dict.history| - copySize..];
      produced := produced + data;
      assert produced[|old(produced)|..] == data;
    }

    // The chunk has given all it promised: it must have consumed all it announced, have no
    // match pending, and have left the range coder at zero.
    method EndChunk() returns (ok: bool)
      requires Follows() && Buffered() && ref.phase == LzmaRun && uncompressed == 0
      requires lzma.dict.start == lzma.dict.pos < lzma.dict.end
      modifies this`sequence, this`steps, this`ref, lzma.rc`range, lzma.rc`code, lzma.rc`initBytesLeft
      ensures ok ==> Valid() && sequence == Control
      ensures !ok ==> RefOk() && ref.phase == Failed && produced <= ref.Out()
    {
      hide Step, Steps, Waiting, Mirror, FinishStep, LzmaDecoder.Valid, LzmaDecoder.DistanceOk, LzmaDecoder.Look;
      ghost var v := lzma.Look();
      lzma.LookIs();
      MirrorFacts(Fields(), v, ref);
      MirrorRunFacts(Fields(), v, ref);
      MirrorFinish(Fields(), v, ref, stream, lzma.dict.end);
      MirrorBehind(Fields(), v, ref);
      NextStep(origin, ref, stream, lzma.dict.end, steps);
      steps := steps + 1;
      ref := FinishStep(ref);
      FinishKeepsOutput(old(ref));
      if compressed > 0 || lzma.len > 0 || lzma.rc.code != 0 {
        return false;
      }
      lzma.FinishChunk();
      sequence := Control;
      ok := true;
    }

    // One pass over the state machine: some states go on to the next one directly. more says
    // that there has been progress and the next pass may follow.
    method Pass(b: XzBuf) returns (ret: XzRet, more: bool)
      requires Valid() && Feeds(b) && Apart(b) && (b.inPos < |b.input| || sequence == LzmaRun)
      modifies this, tempBuf, lzma, lzma.rc, lzma.rc.probs, lzma.dict, lzma.dict.buf, b`inPos, b`outPos, b.output
      ensures Apart(b) && b.Valid()
      ensures ret.XzOk? ==> Valid() && Feeds(b)
      ensures ret.XzOk? && more ==> |b.input| - b.inPos + (b.outSize - b.outPos) < old(|b.input| - b.inPos + (b.outSize - b.outPos))
      ensures ret.XzOk? && !more ==> Starved(b)
      ensures ret.XzStreamEnd? ==> RefOk() && ref.phase == Ended && produced == ref.Out()
      ensures ret.XzDataError? ==> RefOk() && ref.phase == Failed && (produced == old(produced) || produced <= ref.Out())
      ensures !ret.XzDataError? ==> old(b.inPos) <= b.inPos && taken - old(taken) == b.inPos - old(b.inPos)
      ensures old(b.outPos) <= b.outPos && old(produced) <= produced
      ensures |produced| - |old(produced)| == b.outPos - old(b.outPos)
      ensures Wrote(old(b.output[..]), b.output[..], old(b.outPos), produced[|old(produced)|..])
    {
      hide RefOk, Wrote, Mirror, Lawful, Buffered, Continues, LzmaDecoder.Look;
      lzma.LookIs();
      MirrorFacts(Fields(), lzma.Look(), ref);
      WroteNothing(b.output[..], b.outPos);
      ret, more := XzOk, true;
      if sequence == Control {
        ret := ControlByte(b);
        assert produced[|old(produced)|..] == [];
        return;
      }
      if sequence in {Uncompressed1, Uncompressed2, Compressed0, Compressed1} {
        SizeByte(b);
        assert produced[|old(produced)|..] == [];
        return;
      }
      if sequence == Copy {
        more := CopyChunk(b);
        return;
      }
      ret, more := LzmaPass(b);
    }

    // The states of an LZMA chunk from its properties on, each of which goes on to the next.
    method LzmaPass(b: XzBuf) returns (ret: XzRet, more: bool)
      requires Valid() && Feeds(b) && Apart(b) && (b.inPos < |b.input| || sequence == LzmaRun)
      requires sequence in {Properties, LzmaPrepare, LzmaRun}
      modifies this, tempBuf, lzma, lzma.rc, lzma.rc.probs, lzma.dict, lzma.dict.buf, b`inPos, b`outPos, b.output
      ensures Apart(b) && b.Valid() && !ret.XzStreamEnd?
      ensures ret.XzOk? ==> Valid() && Feeds(b)
      ensures ret.XzOk? && more ==> old(b.inPos) < b.inPos || old(b.outPos) < b.outPos
      ensures ret.XzOk? && !more ==> Starved(b)
      ensures ret.XzDataError? ==> RefOk() && ref.phase == Failed && (produced == old(produced) || produced <= ref.Out())
      ensures ret.XzOk? ==> old(b.inPos) <= b.inPos && taken - old(taken) == b.inPos - old(b.inPos)
      ensures old(b.outPos) <= b.outPos && old(produced) <= produced
      ensures |produced| - |old(produced)| == b.outPos - old(b.outPos)
      ensures Wrote(old(b.output[..]), b.output[..], old(b.outPos), produced[|old(produced)|..])
    {
      hide Valid, RefOk, Wrote, Continues;
      WroteNothing(b.output[..], b.outPos);
      assert produced[|produced|..] == [];
      var ok;
      if sequence == Properties {
        ok := PropertiesByte(b);
        if !ok {
          return XzDataError, false;
        }
      }
      if sequence == LzmaPrepare {
        ok, more := PrepareChunk(b);
        if !ok {
          return XzDataError, false;
        }
        if !more {
          return XzOk, false;
        }
      }
      ok, more := RunChunk(b);
      ret := if ok then XzOk else XzDataError;
    }

    lemma Behind()
      requires Valid()
      ensures RefOk() && GoodRef(origin) && produced <= ref.Out() && ref.Out() == Steps(origin, stream, lzma.dict.end, steps).Out()
    {
      hide Mirror, Steps, LzmaDecoder.Look;
      MirrorBehind(Fields(), lzma.Look(), ref);
    }

    lemma Compare()
      requires RefOk()
      ensures GoodRef(origin) && ref == Steps(origin, stream, lzma.dict.end, steps)
    {
      hide Steps;
    }

    // Where the one-shot decoder has failed it has all it ever decoded.
    lemma SinceFailed(n: nat)
      requires RefOk() && ref.phase == Failed
      ensures GoodRef(origin) && Steps(origin, stream, lzma.dict.end, n).Out() <= ref.Out()
    {
      hide Steps;
      OneAnswer(origin, stream, lzma.dict.end, steps, n);
    }

    // A decoder that has been given the whole stream, and waits for more of it, would wait
    // forever: the stream has no end.
    lemma WaitsForever(n: nat)
      requires Valid() && taken == |stream| && (sequence == LzmaRun ==> tempSize < compressed)
      ensures GoodRef(origin) && Steps(origin, stream, lzma.dict.end, n).phase != Ended
    {
      hide Mirror, Steps, LzmaDecoder.Look, Lawful, Waiting;
      MirrorFacts(Fields(), lzma.Look(), ref);
      CutOffForever(origin, ref, stream, lzma.dict.end, steps, n);
    }

    // Takes input and gives output until the input is used up, the output is full, the
    // stream ends or it turns out to be broken. In every case the one-shot decoder of the
    // whole stream agrees: what has been handed out so far is the beginning of what it
    // decodes, the stream ends here exactly when it ends there, and likewise for errors.
    method Run(b: XzBuf) returns (ret: XzRet)
      requires Valid() && Feeds(b) && Apart(b)
      modifies this, tempBuf, lzma, lzma.rc, lzma.rc.probs, lzma.dict, lzma.dict.buf, b`inPos, b`outPos, b.output
      ensures Apart(b) && b.Valid()
      ensures ret.XzOk? ==> Valid() && Feeds(b) && Starved(b)
      ensures ret.XzStreamEnd? ==> RefOk() && ref.phase == Ended && produced == ref.Out()
      ensures ret.XzDataError? ==> RefOk() && ref.phase == Failed
      ensures RefOk() && produced <= ref.Out()
      ensures !ret.XzDataError? ==> old(b.inPos) <= b.inPos && taken - old(taken) == b.inPos - old(b.inPos)
      ensures old(b.outPos) <= b.outPos && old(produced) <= produced
      ensures |produced| - |old(produced)| == b.outPos - old(b.outPos)
      ensures Wrote(old(b.output[..]), b.output[..], old(b.outPos), produced[|old(produced)|..])
    {
      hide Valid, RefOk, Apart, Continues, Given, Starved;
      ghost var was, at, before := b.output[..], b.outPos, produced;
      GivenNothing(b);
      while b.inPos < |b.input| || sequence == LzmaRun
        invariant Valid() && Feeds(b) && Apart(b) && b.Valid() && Given(b, was, at, before)
        invariant old(b.inPos) <= b.inPos && taken - old(taken) == b.inPos - old(b.inPos)
        decreases |b.input| - b.inPos + (b.outSize - b.outPos)
      {
        var more;
        ret, more := Round(b, was, at, before);
        if !ret.XzOk? || !more {
          GivenIs(b, was, at, before);
          return;
        }
      }
      Behind();
      GivenIs(b, was, at, before);
      UsedUp(b);
      ret := XzOk;
    }

    // What has been handed out since the call began.
    ghost predicate Given(b: XzBuf, was: seq<byte>, at: nat, before: seq<byte>)
      reads this`produced, b, b.output
    {
      && at <= b.outPos && before <= produced && |produced| - |before| == b.outPos - at
      && Wrote(was, b.output[..], at, produced[|before|..])
    }

    lemma GivenIs(b: XzBuf, was: seq<byte>, at: nat, before: seq<byte>)
      requires Given(b, was, at, before)
      ensures at <= b.outPos && before <= produced && |produced| - |before| == b.outPos - at
      ensures Wrote(was, b.output[..], at, produced[|before|..])
    {
    }

    lemma GivenNothing(b: XzBuf)
      requires b.Valid()
      ensures Given(b, b.output[..], b.outPos, produced)
    {
      WroteNothing(b.output[..], b.outPos);
      assert produced[|produced|..] == [];
    }

    lemma UsedUp(b: XzBuf)
      requires |b.input| == b.inPos && sequence != LzmaRun
      ensures Starved(b)
    {
    }

    // One pass, and where it has left the one-shot decoder.
    method Round(b: XzBuf, ghost was: seq<byte>, ghost at: nat, ghost before: seq<byte>) returns (ret: XzRet, more: bool)
      requires Valid() && Feeds(b) && Apart(b) && (b.inPos < |b.input| || sequence == LzmaRun) && Given(b, was, at, before)
      modifies this, tempBuf, lzma, lzma.rc, lzma.rc.probs, lzma.dict, lzma.dict.buf, b`inPos, b`outPos, b.output
      ensures Apart(b) && b.Valid() && Given(b, was, at, before) && RefOk() && produced <= ref.Out()
      ensures ret.XzOk? ==> Valid() && Feeds(b)
      ensures ret.XzOk? && more ==> |b.input| - b.inPos + (b.outSize - b.outPos) < old(|b.input| - b.inPos + (b.outSize - b.outPos))
      ensures ret.XzOk? && !more ==> Starved(b)
      ensures ret.XzStreamEnd? ==> ref.phase == Ended && produced == ref.Out()
      ensures ret.XzDataError? ==> ref.phase == Failed
      ensures !ret.XzDataError? ==> old(b.inPos) <= b.inPos && taken - old(taken) == b.inPos - old(b.inPos)
    {
      hide Valid, RefOk, Apart, Wrote, Continues, Starved;
      ghost var given, mid, n := produced, b.output[..], steps;
      Behind();
      ret, more := Pass(b);
      if ret.XzDataError? {
        SinceFailed(n);
      }
      assert produced[|before|..] == given[|before|..] + produced[|given|..];
      WroteMore(was, mid, b.output[..], at, given[|before|..], produced[|given|..]);
      if ret.XzOk? {
        Behind();
      }
    }
  }

  lemma ContinuesSlice(input: seq<byte>, inPos: nat, n: nat, stream: seq<byte>, pos: nat)
    requires Continues(input, inPos, stream, pos) && inPos + n <= |input|
    ensures pos + n <= |stream| && input[inPos..inPos + n] == stream[pos..pos + n]
  {
    assert input[inPos..inPos + n] == input[inPos..][..n];
  }

  lemma OwedNothing(h: seq<byte>, dist: nat)
    ensures Owed(h, dist, 0) == h
  {
  }

  lemma WaitingNone(temp: seq<byte>, stream: seq<byte>, pos: nat)
    ensures pos <= |stream| ==> Waiting(temp, 0, stream, pos)
  {
  }

  lemma ContinuesByte(input: seq<byte>, inPos: nat, stream: seq<byte>, pos: nat)
    requires Continues(input, inPos, stream, pos) && inPos < |input|
    ensures pos < |stream| && input[inPos] == stream[pos]
  {
    assert input[inPos..][0] == stream[pos..pos + (|input| - inPos)][0];
  }

  lemma AgreeLess(a: seq<byte>, b: seq<byte>, delta: int, lo: int, hi: int, hi': int)
    requires Agree(a, b, delta, lo, hi) && hi' <= hi
    ensures Agree(a, b, delta, lo, hi')
  {
  }

  lemma PrefixKept(h: seq<byte>, h': seq<byte>, n: int)
    requires h <= h' && 0 <= n <= |h|
    ensures h[..n] == h'[..n]
  {
  }

  lemma KeepMoved(had: seq<byte>, now: seq<byte>, filled: nat, n: nat, size: nat, stream: seq<byte>, pos: nat)
    requires Waiting(had, filled, stream, pos) && n + size <= filled
    requires Wrote(had, now, 0, had[n..n + size])
    ensures Waiting(now, size, stream, pos + n)
  {
    WaitingLess(had, filled, n + size, stream, pos);
    WaitingMoved(had, now, n + size, n, stream, pos);
  }
}
