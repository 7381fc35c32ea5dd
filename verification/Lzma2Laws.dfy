// Laws of the one-shot LZMA2 decoder, and so of every decoder that is fed piece by piece.
module Lzma2Laws {
  import opened Words
  import opened RangeCoder
  import opened LzmaSymbols
  import opened Lzma2Reference

  ghost predicate Finished(r: Ref) {
    r.phase == Ended || r.phase == Failed
  }

  /* ---- Nothing that was handed out is taken back ---- */

  lemma StepGrows(r: Ref, stream: seq<byte>, size: nat)
    requires GoodRef(r)
    ensures r.Out() <= Step(r, stream, size).Out()
    ensures Finished(r) ==> Step(r, stream, size) == r
  {
    hide SymbolStep, ParseProps;
  }

  lemma {:induction false} StepsGrow(r: Ref, stream: seq<byte>, size: nat, m: nat, n: nat)
    requires GoodRef(r) && m <= n
    ensures Steps(r, stream, size, m).Out() <= Steps(r, stream, size, n).Out()
    ensures Finished(Steps(r, stream, size, m)) ==> Steps(r, stream, size, n) == Steps(r, stream, size, m)
    decreases n
  {
    hide Step;
    if m < n {
      StepsGrow(r, stream, size, m, n - 1);
      StepGrows(Steps(r, stream, size, n - 1), stream, size);
    }
  }

  // However many steps two decoders have taken, the output of one begins with that of the
  // other, and when both are through they agree on everything.
  lemma OneAnswer(r: Ref, stream: seq<byte>, size: nat, m: nat, n: nat)
    requires GoodRef(r)
    ensures var x, y := Steps(r, stream, size, m), Steps(r, stream, size, n);
            && (x.Out() <= y.Out() || y.Out() <= x.Out())
            && (Finished(x) ==> y.Out() <= x.Out())
            && (Finished(x) && Finished(y) ==> x == y)
  {
    hide Steps, Step;
    StepsGrow(r, stream, size, Min(m, n), m);
    StepsGrow(r, stream, size, Min(m, n), n);
  }

  /* ---- State left over from an earlier stream never matters ---- */

  // The two agree in everything but what no chunk uses before it has been set.
  ghost predicate Alike(r: Ref, s: Ref) {
    && r.phase == s.phase && r.next == s.next && r.pos == s.pos
    && r.uncompressed == s.uncompressed && r.compressed == s.compressed
    && r.needDictReset == s.needDictReset && r.prior == s.prior && r.hist == s.hist
    && (!r.needDictReset ==> r.needProps == s.needProps)
    && (Live(r) && r.phase != Failed ==> r == s)
  }

  lemma StepAlike(r: Ref, s: Ref, stream: seq<byte>, size: nat)
    requires Alike(r, s) && GoodRef(r) && GoodRef(s) && (r.phase != Failed ==> Lawful(r) && Lawful(s))
    ensures Alike(Step(r, stream, size), Step(s, stream, size))
  {
    hide SymbolStep, ControlStep, ByteStep;
    if r.phase == Control && r.pos < |stream| {
      ControlAlike(r, s, stream[r.pos]);
    } else if (InHeader(r) || r.phase == Copy) && r.pos < |stream| {
      ByteAlike(r, s, stream[r.pos]);
    }
  }

  lemma ControlAlike(r: Ref, s: Ref, b: byte)
    requires Alike(r, s) && r.phase == Control && Lawful(r) && Lawful(s)
    ensures Alike(ControlStep(r, b), ControlStep(s, b))
  {
    hide Good, ValidProps;
    if b == 0 {
    } else if r.needDictReset && !ResetsDictionary(b) {
    } else if b < 0x80 {
    } else {
    }
  }

  lemma ByteAlike(r: Ref, s: Ref, b: byte)
    requires Alike(r, s) && (InHeader(r) || r.phase == Copy) && Lawful(r) && Lawful(s)
    ensures Alike(ByteStep(r, b), ByteStep(s, b))
  {
    hide ParseProps;
  }

  lemma {:induction false} StepsAlike(r: Ref, s: Ref, stream: seq<byte>, size: nat, n: nat)
    requires Alike(r, s) && Lawful(r) && Lawful(s)
    ensures var r', s' := Steps(r, stream, size, n), Steps(s, stream, size, n);
            Alike(r', s') && (r'.phase != Failed ==> Lawful(r') && Lawful(s'))
    decreases n
  {
    hide Step;
    if n > 0 {
      hide Alike, Lawful;
      StepsAlike(r, s, stream, size, n - 1);
      var r', s' := Steps(r, stream, size, n - 1), Steps(s, stream, size, n - 1);
      StepAlike(r', s', stream, size);
      if r'.phase != Failed {
        StepIsLawful(r', stream, size);
        StepIsLawful(s', stream, size);
      } else {
        StepGrows(r', stream, size);
        StepGrows(s', stream, size);
      }
      AlikeFails(Step(r', stream, size), Step(s', stream, size));
      AlikeFails(r', s');
    }
  }

  lemma AlikeFails(r: Ref, s: Ref)
    requires Alike(r, s)
    ensures r.phase == s.phase
  {
  }

  // A new Block keeps the LZMA state of the previous one, and does not say whether properties
  // are needed. Neither has any effect.
  lemma StaleStateIsUnused(z: Lzma, needProps: bool, z': Lzma, needProps': bool, stream: seq<byte>, size: nat, n: nat)
    requires Good(z) && z.c.pos == 0 && Good(z') && z'.c.pos == 0
    ensures var r, s := Steps(Start(z, needProps), stream, size, n), Steps(Start(z', needProps'), stream, size, n);
            r.phase == s.phase && r.pos == s.pos && r.Out() == s.Out()
  {
    hide Steps;
    StepsAlike(Start(z, needProps), Start(z', needProps'), stream, size, n);
  }

  /* ---- No chunk is decoded without a dictionary and properties of its own ---- */

  ghost predicate ResetAt(o: Ref, stream: seq<byte>, size: nat, i: nat)
    requires GoodRef(o)
  {
    var r := Steps(o, stream, size, i);
    r.phase == Control && r.pos < |stream| && ResetsDictionary(stream[r.pos])
  }

  ghost predicate PropsAt(o: Ref, stream: seq<byte>, size: nat, i: nat)
    requires GoodRef(o)
  {
    var r := Steps(o, stream, size, i);
    r.phase == Properties && r.pos < |stream| && ParseProps(stream[r.pos]).GoodProps?
  }

  // The last dictionary reset before step n was step i.
  ghost predicate LastReset(o: Ref, stream: seq<byte>, size: nat, i: nat, n: nat)
    requires GoodRef(o)
  {
    i < n && ResetAt(o, stream, size, i) && forall k :: i < k < n ==> !ResetAt(o, stream, size, k)
  }

  ghost predicate LastProps(o: Ref, stream: seq<byte>, size: nat, j: nat, n: nat)
    requires GoodRef(o)
  {
    j < n && PropsAt(o, stream, size, j) && forall k :: j < k < n ==> !PropsAt(o, stream, size, k)
  }

  // What the decoder remembers of resets and properties is what it has seen.
  lemma {:induction false} ResetsRemembered(z: Lzma, needProps: bool, stream: seq<byte>, size: nat, n: nat)
    returns (i: nat, j: nat)
    requires Good(z) && z.c.pos == 0
    ensures var o := Start(z, needProps);
            var r := Steps(o, stream, size, n);
            r.phase != Failed ==>
              && Lawful(r)
              && (!r.needDictReset ==> LastReset(o, stream, size, i, n))
              && (Live(r) ==> && i < j && LastProps(o, stream, size, j, n)
                              && r.props == ParseProps(stream[Steps(o, stream, size, j).pos]).props)
    decreases n
  {
    hide Step, ParseProps;
    if n == 0 {
      i, j := 0, 0;
    } else {
      hide Lawful, Live;
      i, j := ResetsRemembered(z, needProps, stream, size, n - 1);
      var o := Start(z, needProps);
      var r := Steps(o, stream, size, n - 1);
      if r.phase == Failed {
        StepGrows(r, stream, size);
      } else {
        StepIsLawful(r, stream, size);
        StepRemembers(r, stream, size);
        if ResetAt(o, stream, size, n - 1) {
          i := n - 1;
        } else if PropsAt(o, stream, size, n - 1) {
          j := n - 1;
        }
      }
    }
  }

  lemma StepRemembers(r: Ref, stream: seq<byte>, size: nat)
    requires Lawful(r)
    ensures var r' := Step(r, stream, size);
            var reset := r.phase == Control && r.pos < |stream| && ResetsDictionary(stream[r.pos]);
            var newProps := r.phase == Properties && r.pos < |stream| && ParseProps(stream[r.pos]).GoodProps?;
            r'.phase != Failed ==>
              && (!r'.needDictReset ==> reset || !r.needDictReset)
              && (newProps ==> !r.needDictReset)
              && (Live(r') ==> !reset && !r'.needDictReset
                               && (if newProps then r'.props == ParseProps(stream[r.pos]).props else Live(r) && r'.props == r.props))
              && (Live(r) ==> !r.needDictReset)
  {
    hide SymbolStep, ParseProps;
  }

  // The distance that a matched literal looks at, and a match that is continued copies from,
  // is always inside the history.
  ghost predicate Reaches(r: Ref, size: nat) {
    Live(r) && LIT_STATES <= r.z.state && r.phase != Failed ==> r.z.rep0 < Min(|r.hist|, size)
  }

  lemma StepReaches(r: Ref, stream: seq<byte>, size: nat)
    requires Lawful(r) && Reaches(r, size)
    ensures Reaches(Step(r, stream, size), size)
  {
    hide SymbolStep, ParseProps, ControlStep, ByteStep;
    if r.phase == LzmaRun {
      SymbolReaches(RunOf(r), r.props, stream, r.pos + r.compressed, size);
    } else if r.phase == Control && r.pos < |stream| {
      ControlReaches(r, stream[r.pos], size);
    } else if (InHeader(r) || r.phase == Copy) && r.pos < |stream| {
      ByteReaches(r, stream[r.pos], size);
    }
  }

  lemma ControlReaches(r: Ref, b: byte, size: nat)
    requires Lawful(r) && Reaches(r, size) && r.phase == Control
    ensures Reaches(ControlStep(r, b), size)
  {
  }

  lemma ByteReaches(r: Ref, b: byte, size: nat)
    requires Lawful(r) && Reaches(r, size) && (InHeader(r) || r.phase == Copy)
    ensures Reaches(ByteStep(r, b), size)
  {
    hide ParseProps;
  }

  lemma SymbolReaches(x: Run, p: Props, stream: seq<byte>, end: nat, size: nat)
    requires GoodRun(x, p) && (LIT_STATES <= x.z.state ==> x.z.rep0 < Min(|x.hist|, size))
    ensures var y := SymbolStep(x, p, stream, end, size);
            y.Going? && LIT_STATES <= y.run.z.state ==> y.run.z.rep0 < Min(|y.run.hist|, size)
  {
    hide DecodeBit, DecodeLiteral, DecodeRepeat, RepeatFrom, Normalize;
    var z := DecodeSymbol(x.z, p, x.hist, stream).0;
    assert DecodeSymbol(x.z, p, x.hist, stream).1.Literal? ==> z.state < LIT_STATES;
  }

  lemma {:induction false} StepsReach(o: Ref, stream: seq<byte>, size: nat, n: nat)
    requires Lawful(o) && Reaches(o, size)
    ensures var r := Steps(o, stream, size, n);
            Reaches(r, size) && (r.phase != Failed ==> Lawful(r))
    decreases n
  {
    hide Step, Live, Reaches;
    if n > 0 {
      StepsReach(o, stream, size, n - 1);
      var r := Steps(o, stream, size, n - 1);
      if r.phase == Failed {
        StepGrows(r, stream, size);
      } else {
        StepIsLawful(r, stream, size);
        StepReaches(r, stream, size);
      }
    }
  }

  // Whatever the state a Block finds: before any symbol of an LZMA chunk is decoded there has
  // been a dictionary reset and since then new properties, which are those in use; and after
  // a match the last distance is valid.
  lemma ChunksAreSafe(z: Lzma, needProps: bool, stream: seq<byte>, size: nat, n: nat) returns (i: nat, j: nat)
    requires Good(z) && z.c.pos == 0
    requires Steps(Start(z, needProps), stream, size, n).phase in {LzmaPrepare, LzmaRun}
    ensures var o := Start(z, needProps);
            var r := Steps(o, stream, size, n);
            && LastReset(o, stream, size, i, n) && i < j && LastProps(o, stream, size, j, n)
            && r.props == ParseProps(stream[Steps(o, stream, size, j).pos]).props
            && (LIT_STATES <= r.z.state ==> r.z.rep0 < Min(|r.hist|, size))
  {
    hide Steps, ParseProps, LastReset, LastProps;
    var o := Start(z, needProps);
    i, j := ResetsRemembered(z, needProps, stream, size, n);
    StepsReach(o, stream, size, n);
  }

  /* ---- An accepted chunk keeps to its sizes ---- */

  predicate Running(p: Phase) {
    p == LzmaPrepare || p == LzmaRun
  }

  // The end of the chunk, and what its output will come to.
  ghost function ChunkEnd(r: Ref): int {
    r.pos + r.compressed + if r.phase == LzmaPrepare then r.initLeft - 5 else 0
  }

  ghost function ChunkOut(r: Ref): int {
    |r.Out()| + r.uncompressed
  }

  lemma RunKeepsSizes(r: Ref, stream: seq<byte>, size: nat)
    requires Lawful(r) && Running(r.phase)
    ensures var r' := Step(r, stream, size);
            && (Running(r'.phase) || r'.phase == Control || r'.phase == Failed)
            && (Running(r'.phase) ==> ChunkOut(r') == ChunkOut(r) && ChunkEnd(r') == ChunkEnd(r))
            && (r'.phase == Control ==> r'.pos == ChunkEnd(r) && |r'.Out()| == ChunkOut(r) && r.z.c.code == 0)
  {
    hide SymbolStep, ParseProps;
  }

  // Up to its end a chunk stays on course for its declared sizes, and it is accepted only
  // there, with no byte of a match left over and the range coder at zero.
  lemma {:induction false} ChunkKeepsSizes(r: Ref, stream: seq<byte>, size: nat, n: nat)
    requires Lawful(r) && Running(r.phase)
    requires forall k: nat :: k < n ==> Running(Steps(r, stream, size, k).phase)
    ensures var r' := Steps(r, stream, size, n);
            && (Running(r'.phase) || r'.phase == Control || r'.phase == Failed)
            && (r'.phase != Failed ==> Lawful(r'))
            && (Running(r'.phase) ==> ChunkOut(r') == ChunkOut(r) && ChunkEnd(r') == ChunkEnd(r))
            && (r'.phase == Control ==> r'.pos == ChunkEnd(r) && |r'.Out()| == ChunkOut(r)
                                        && 0 < n && Steps(r, stream, size, n - 1).z.c.code == 0)
    decreases n
  {
    hide Step, Live, ChunkEnd, ChunkOut;
    if n > 0 {
      ChunkKeepsSizes(r, stream, size, n - 1);
      var r' := Steps(r, stream, size, n - 1);
      StepIsLawful(r', stream, size);
      RunKeepsSizes(r', stream, size);
    }
  }

  // The sizes in the header of an LZMA chunk, the control byte being b.
  function DeclaredOut(h: seq<byte>): nat
    requires 5 <= |h|
  {
    var b0: nat, b1: nat, b2: nat := h[0], h[1], h[2];
    b0 % 0x20 * 0x1_0000 + 0x100 * b1 + b2 + 1
  }

  function DeclaredIn(h: seq<byte>): nat
    requires 5 <= |h|
  {
    var b3: nat, b4: nat := h[3], h[4];
    0x100 * b3 + b4 + 1
  }

  function HeaderSize(b: byte): nat {
    if b >= 0xC0 then 6 else 5
  }

  lemma SizeSteps(r: Ref, stream: seq<byte>, size: nat)
    requires Lawful(r) && r.phase == Uncompressed1 && r.pos + 4 <= |stream|
    ensures var x: nat, y: nat, z: nat, w: nat := stream[r.pos], stream[r.pos + 1], stream[r.pos + 2], stream[r.pos + 3];
            Steps(r, stream, size, 4) ==
              r.(phase := r.next, pos := r.pos + 4, uncompressed := r.uncompressed + 0x100 * x + y + 1,
                 compressed := 0x100 * z + w + 1)
  {
    hide Step;
    var r1 := ByteStep(r, stream[r.pos]);
    var r2 := ByteStep(r1, stream[r.pos + 1]);
    var r3 := ByteStep(r2, stream[r.pos + 2]);
    StepByte(r, stream, size, stream[r.pos]);
    StepByte(r1, stream, size, stream[r.pos + 1]);
    StepByte(r2, stream, size, stream[r.pos + 2]);
    StepByte(r3, stream, size, stream[r.pos + 3]);
    StepsNext(r, stream, size, 1);
    StepsNext(r, stream, size, 2);
    StepsNext(r, stream, size, 3);
  }

  lemma ControlSizes(r: Ref, b: byte)
    requires Lawful(r) && r.phase == Control && 0x80 <= b
    ensures var r' := ControlStep(r, b);
            && (r'.phase == Failed || r'.phase == Uncompressed1)
            && (r'.phase == Uncompressed1 ==>
                  && Lawful(r') && r'.Out() == r.Out() && r'.pos == r.pos + 1
                  && r'.uncompressed == (b as int) % 0x20 * 0x1_0000
                  && r'.next == (if b >= 0xC0 then Properties else LzmaPrepare)
                  && (r'.next == LzmaPrepare ==> r'.initLeft == 5))
  {
  }

  // An LZMA chunk comes to its data with the sizes that its header declares.
  lemma HeaderSteps(r: Ref, stream: seq<byte>, size: nat)
    requires Lawful(r) && r.phase == Control && r.pos + 6 <= |stream| && 0x80 <= stream[r.pos]
    ensures var h := stream[r.pos..r.pos + 6];
            var r' := Steps(r, stream, size, HeaderSize(h[0]));
            && (r'.phase == LzmaPrepare || r'.phase == Failed)
            && (r'.phase == LzmaPrepare ==>
                  && r'.Out() == r.Out() && r'.pos == r.pos + HeaderSize(h[0])
                  && r'.uncompressed == DeclaredOut(h) && r'.compressed == DeclaredIn(h) && r'.initLeft == 5)
  {
    hide ParseProps, Live, ControlStep, Step, Steps;
    var b, size' := stream[r.pos], HeaderSize(stream[r.pos]);
    var r1 := ControlStep(r, b);
    ControlSizes(r, b);
    StepControl(r, stream, size, b);
    StepOne(r, stream, size);
    StepsAdd(r, stream, size, 1, 4);
    StepsNext(r, stream, size, 5);
    if r1.phase == Failed {
      StepsGrow(r, stream, size, 1, size');
    } else {
      SizeSteps(r1, stream, size);
      if b >= 0xC0 {
        StepByte(Steps(r, stream, size, 5), stream, size, stream[r.pos + 5]);
      }
    }
  }

  lemma StepOne(r: Ref, stream: seq<byte>, size: nat)
    requires GoodRef(r)
    ensures Steps(r, stream, size, 1) == Step(r, stream, size)
  {
    hide Step;
    assert Steps(r, stream, size, 0) == r;
  }

  /* ---- A stream that breaks off ---- */

  // The stream breaks off before the decoder can end: nothing is left where a byte is needed
  // next, or the current chunk promises more than there is.
  ghost predicate CutOff(r: Ref, stream: seq<byte>) {
    && r.phase != Ended
    && (r.phase == LzmaRun ==> |stream| < r.pos + r.compressed)
    && (r.phase != LzmaRun && r.phase != Failed ==> |stream| <= r.pos)
  }

  lemma StepCutOff(r: Ref, stream: seq<byte>, size: nat)
    requires GoodRef(r) && CutOff(r, stream)
    ensures CutOff(Step(r, stream, size), stream)
  {
    hide SymbolStep, ControlStep, ByteStep, InitStep;
  }

  lemma {:induction false} StaysCutOff(r: Ref, stream: seq<byte>, size: nat, n: nat)
    requires GoodRef(r) && CutOff(r, stream)
    ensures CutOff(Steps(r, stream, size, n), stream)
    decreases n
  {
    hide Step, CutOff;
    if n > 0 {
      StaysCutOff(r, stream, size, n - 1);
      StepCutOff(Steps(r, stream, size, n - 1), stream, size);
    }
  }

  lemma CutOffForever(o: Ref, r: Ref, stream: seq<byte>, size: nat, m: nat, n: nat)
    requires GoodRef(o) && r == Steps(o, stream, size, m) && CutOff(r, stream)
    ensures Steps(o, stream, size, n).phase != Ended
  {
    hide Steps;
    if n < m {
      StepsGrow(o, stream, size, n, m);
    } else {
      StepsAdd(o, stream, size, m, n - m);
      StaysCutOff(r, stream, size, n - m);
    }
  }
}
