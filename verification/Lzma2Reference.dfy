// A one-shot LZMA2 decoder over a whole stream: no circular buffer, no limits on input or
// output, every match copied at once. What the incremental decoder must agree with.
module Lzma2Reference {
  import opened Words
  import opened RangeCoder
  import opened LzmaSymbols

  /* ---- Symbols of one LZMA chunk ---- */

  // A chunk being decoded: the LZMA state (its position is that in the stream), everything
  // decoded since the last dictionary reset, and how many bytes the chunk still promises;
  // negative when a match went beyond them.
  datatype Run = Run(z: Lzma, hist: seq<byte>, left: int)

  datatype Progress = Going(run: Run) | Broken

  ghost predicate GoodRun(x: Run, p: Props) {
    && Good(x.z) && ValidProps(p)
  }

  // What a decoded symbol does to the history; a distance beyond the history or the
  // dictionary size is an error.
  ghost function Emit(x: Run, z: Lzma, symbol: Symbol, size: nat): (r: Progress)
  {
    match symbol
    case Literal(b) => Going(Run(z, x.hist + [b], x.left - 1))
    case Repeat(len) =>
      if z.rep0 < Min(|x.hist|, size) then Going(Run(z, RepeatFrom(x.hist, z.rep0, len), x.left - len))
      else Broken
  }

  // One symbol and the normalisation after it, while the chunk promises more. The chunk ends
  // at position end, and reading past it is an error.
  ghost function SymbolStep(x: Run, p: Props, stream: seq<byte>, end: nat, size: nat): (r: Progress)
    requires GoodRun(x, p)
    ensures r.Going? ==> GoodRun(r.run, p) && x.z.c.pos <= r.run.z.c.pos && (x.z.c.pos <= end ==> r.run.z.c.pos <= end)
    ensures r.Going? ==> x.hist <= r.run.hist && r.run.left == x.left - (|r.run.hist| - |x.hist|)
  {
    if x.left <= 0 then
      Going(x)
    else
      var (z1, symbol) := DecodeSymbol(x.z, p, x.hist, stream);
      var z2 := z1.(c := Normalize(z1.c, stream));
      if end < z2.c.pos then Broken else Emit(x, z2, symbol, size)
  }

  ghost function Symbols(x: Run, p: Props, stream: seq<byte>, end: nat, size: nat, n: nat): (r: Progress)
    requires GoodRun(x, p)
    ensures r.Going? ==> GoodRun(r.run, p)
    decreases n
  {
    if n == 0 then
      Going(x)
    else
      match Symbols(x, p, stream, end, size, n - 1)
      case Broken => Broken
      case Going(y) => SymbolStep(y, p, stream, end, size)
  }

  /* ---- The LZMA2 stream ---- */

  datatype Phase =
    | Control | Uncompressed1 | Uncompressed2 | Compressed0 | Compressed1
    | Properties | LzmaPrepare | LzmaRun | Copy
    | Ended | Failed

  // A decoder at position pos of the stream. uncompressed and compressed are what is left of
  // the chunk; everything decoded is prior + hist, where hist is what came after the last
  // dictionary reset. The position inside z is always 0.
  datatype Ref = Ref(
    phase: Phase, next: Phase, pos: nat, uncompressed: int, compressed: nat,
    needDictReset: bool, needProps: bool, props: Props, z: Lzma, initLeft: nat,
    prior: seq<byte>, hist: seq<byte>)
  {
    ghost function Out(): seq<byte> {
      prior + hist
    }
  }

  ghost predicate GoodRef(r: Ref) {
    Good(r.z) && ValidProps(r.props) && r.z.c.pos == 0
  }

  function At(z: Lzma, pos: nat): Lzma {
    z.(c := z.c.(pos := pos))
  }

  function FreshProbs(): (r: seq<Prob>)
    ensures |r| == PROBS_TOTAL
  {
    seq(PROBS_TOTAL, _ => 1024)
  }

  // The LZMA state after a state reset.
  function FreshLzma(): (r: Lzma)
    ensures Good(r) && r.c.pos == 0
  {
    Lzma(Coder(0xFFFF_FFFF, 0, 0, FreshProbs()), 0, 0, 0, 0, 0)
  }

  // The range coder is reset after every chunk, the probabilities are kept.
  function ResetCoder(z: Lzma): Lzma {
    z.(c := z.c.(range := 0xFFFF_FFFF, code := 0))
  }

  datatype PropsResult = BadProps | GoodProps(props: Props)

  function ParseProps(b: byte): (r: PropsResult)
    ensures r.GoodProps? ==> ValidProps(r.props)
  {
    if b > (4 * 5 + 4) * 9 + 8 then BadProps
    else if b % 9 + b % 45 / 9 > 4 then BadProps
    else GoodProps(Props(b % 9, b % 45 / 9, b / 45))
  }

  predicate ResetsDictionary(b: byte) {
    b >= 0xE0 || b == 1
  }

  // A dictionary reset starts a new history, and makes new properties necessary.
  ghost function ResetHistory(r: Ref): (r': Ref)
    requires GoodRef(r)
    ensures GoodRef(r')
  {
    r.(needProps := true, needDictReset := false, prior := r.prior + r.hist, hist := [])
  }

  // The kind of chunk that follows.
  ghost function EnterChunk(r: Ref, b: byte): (r': Ref)
    requires GoodRef(r)
    ensures GoodRef(r')
  {
    if b < 0x80 then
      if b > 2 then r.(phase := Failed) else r.(phase := Compressed0, next := Copy)
    else
      var r1 := r.(phase := Uncompressed1, uncompressed := b % 0x20 * 0x1_0000);
      if b >= 0xC0 then r1.(next := Properties, needProps := false)
      else if r.needProps then r.(phase := Failed)
      else if b >= 0xA0 then r1.(next := LzmaPrepare, z := FreshLzma(), initLeft := 5)
      else r1.(next := LzmaPrepare)
  }

  // The control byte of a chunk, or of the end of the stream.
  ghost function ControlStep(r: Ref, b: byte): (r': Ref)
    requires GoodRef(r)
    ensures GoodRef(r')
  {
    var r1 := r.(pos := r.pos + 1);
    if b == 0 then r1.(phase := Ended)
    else if ResetsDictionary(b) then EnterChunk(ResetHistory(r1), b)
    else if r.needDictReset then r1.(phase := Failed)
    else EnterChunk(r1, b)
  }

  // The bytes of a chunk header after the control byte, and the bytes of a stored chunk.
  ghost function ByteStep(r: Ref, b: byte): (r': Ref)
    requires GoodRef(r)
    ensures GoodRef(r')
  {
    var pos := r.pos + 1;
    match r.phase
    case Uncompressed1 => r.(uncompressed := r.uncompressed + 0x100 * b, phase := Uncompressed2, pos := pos)
    case Uncompressed2 => r.(uncompressed := r.uncompressed + b + 1, phase := Compressed0, pos := pos)
    case Compressed0 => r.(compressed := 0x100 * b, phase := Compressed1, pos := pos)
    case Compressed1 => r.(compressed := r.compressed + b + 1, phase := r.next, pos := pos)
    case Properties =>
      (match ParseProps(b)
       case BadProps => r.(phase := Failed, pos := pos)
       case GoodProps(p) => r.(props := p, z := FreshLzma(), initLeft := 5, phase := LzmaPrepare, pos := pos))
    case Copy =>
      r.(hist := r.hist + [b], compressed := if r.compressed == 0 then 0 else r.compressed - 1, pos := pos,
         phase := if r.compressed <= 1 then Control else Copy)
    case _ => r
  }

  // The code register after more initial bytes.
  function InitCode(code: u32, bytes: seq<byte>): u32 {
    if |bytes| == 0 then code else Wrap32(InitCode(code, bytes[..|bytes| - 1]) * 256 + bytes[|bytes| - 1])
  }

  // The five initial bytes of the range coder, of which the first one is shifted out.
  ghost function InitStep(r: Ref, b: byte): (r': Ref)
    requires GoodRef(r) && 5 <= r.compressed && 0 < r.initLeft
    ensures GoodRef(r')
  {
    var r1 := r.(z := r.z.(c := r.z.c.(code := Wrap32(r.z.c.code * 256 + b))), initLeft := r.initLeft - 1, pos := r.pos + 1);
    if r1.initLeft == 0 then r1.(compressed := r.compressed - 5, phase := LzmaRun) else r1
  }

  ghost function RunOf(r: Ref): (x: Run)
    requires GoodRef(r)
    ensures GoodRun(x, r.props)
  {
    Run(At(r.z, r.pos), r.hist, r.uncompressed)
  }

  // The chunk has been decoded as far as x.
  ghost function WithRun(r: Ref, x: Run): (r': Ref)
    requires GoodRef(r) && GoodRun(x, r.props) && x.z.c.pos <= r.pos + r.compressed
    ensures GoodRef(r')
  {
    r.(z := At(x.z, 0), pos := x.z.c.pos, compressed := r.pos + r.compressed - x.z.c.pos, hist := x.hist, uncompressed := x.left)
  }

  // The end of an LZMA chunk: it must have kept both its sizes, and the range coder must
  // have come out at zero.
  ghost function FinishStep(r: Ref): (r': Ref)
    requires GoodRef(r)
    ensures GoodRef(r')
  {
    if r.uncompressed < 0 || r.compressed > 0 || r.z.c.code != 0 then r.(phase := Failed)
    else r.(phase := Control, z := ResetCoder(r.z), initLeft := 5)
  }

  // One step of the one-shot decoder. When the stream is exhausted, and a byte is needed, it
  // stays where it is.
  ghost function Step(r: Ref, stream: seq<byte>, size: nat): (r': Ref)
    requires GoodRef(r)
    ensures GoodRef(r')
  {
    if r.phase == Ended || r.phase == Failed then
      r
    else if r.phase == LzmaPrepare && r.compressed < 5 then
      r.(phase := Failed)
    else if r.phase == LzmaRun then
      if r.uncompressed <= 0 then FinishStep(r)
      else
        match SymbolStep(RunOf(r), r.props, stream, r.pos + r.compressed, size)
        case Broken => r.(phase := Failed)
        case Going(x) => WithRun(r, x)
    else if r.pos < |stream| then
      var b := stream[r.pos];
      if r.phase == Control then ControlStep(r, b)
      else if r.phase == LzmaPrepare then (if 0 < r.initLeft then InitStep(r, b) else r)
      else ByteStep(r, b)
    else
      r
  }

  ghost function Steps(r: Ref, stream: seq<byte>, size: nat, n: nat): (r': Ref)
    requires GoodRef(r)
    ensures GoodRef(r')
    decreases n
  {
    if n == 0 then r else Step(Steps(r, stream, size, n - 1), stream, size)
  }

  lemma {:induction false} StepsAdd(r: Ref, stream: seq<byte>, size: nat, m: nat, n: nat)
    requires GoodRef(r)
    ensures Steps(Steps(r, stream, size, m), stream, size, n) == Steps(r, stream, size, m + n)
    decreases n
  {
    hide Step;
    if n > 0 {
      StepsAdd(r, stream, size, m, n - 1);
    }
  }

  // Decoding symbols is taking steps, not always one for one: a chunk that has given all it
  // promised stays where it is.
  lemma {:induction false} SymbolsAreSteps(r: Ref, stream: seq<byte>, size: nat, n: nat) returns (m: nat)
    requires GoodRef(r) && r.phase == LzmaRun
    ensures var y := Symbols(RunOf(r), r.props, stream, r.pos + r.compressed, size, n);
            var r' := Steps(r, stream, size, m);
            && (y.Broken? ==> r'.phase == Failed && r'.prior == r.prior)
            && (y.Going? ==> y.run.z.c.pos <= r.pos + r.compressed && r' == WithRun(r, y.run))
    decreases n
  {
    hide SymbolStep, Step;
    if n == 0 {
      m := 0;
    } else {
      m := SymbolsAreSteps(r, stream, size, n - 1);
      var y := Symbols(RunOf(r), r.props, stream, r.pos + r.compressed, size, n - 1);
      if y.Going? {
        m := SymbolIsStep(r, y.run, stream, size, m);
      }
    }
  }

  lemma SymbolStepStays(x: Run, p: Props, stream: seq<byte>, end: nat, size: nat)
    requires GoodRun(x, p)
    ensures x.left <= 0 ==> SymbolStep(x, p, stream, end, size) == Going(x)
  {
    hide DecodeSymbol;
  }

  lemma StepsNext(r: Ref, stream: seq<byte>, size: nat, n: nat)
    requires GoodRef(r)
    ensures Steps(r, stream, size, n + 1) == Step(Steps(r, stream, size, n), stream, size)
  {
    hide Step;
  }

  lemma SymbolIsStep(r: Ref, y: Run, stream: seq<byte>, size: nat, m: nat) returns (m': nat)
    requires GoodRef(r) && r.phase == LzmaRun && GoodRun(y, r.props) && y.z.c.pos <= r.pos + r.compressed
    requires Steps(r, stream, size, m) == WithRun(r, y)
    ensures var y' := SymbolStep(y, r.props, stream, r.pos + r.compressed, size);
            var r' := Steps(r, stream, size, m');
            && (y'.Broken? ==> r'.phase == Failed && r'.prior == r.prior)
            && (y'.Going? ==> y'.run.z.c.pos <= r.pos + r.compressed && r' == WithRun(r, y'.run))
  {
    hide SymbolStep, Emit, DecodeSymbol, Normalize, ControlStep, ByteStep, InitStep, FinishStep, Steps;
    SymbolStepStays(y, r.props, stream, r.pos + r.compressed, size);
    if y.left <= 0 {
      m' := m;
    } else {
      m' := m + 1;
      StepsNext(r, stream, size, m);
      assert RunOf(WithRun(r, y)) == y;
    }
  }

  /* ---- What holds of the one-shot decoder at every step ---- */

  // A new Block: a dictionary reset is needed. Whether properties are needed is not yet
  // known, since the source leaves that field as it was.
  ghost function Start(z: Lzma, needProps: bool): (r: Ref)
    requires Good(z) && z.c.pos == 0
    ensures GoodRef(r)
  {
    Ref(Control, Control, 0, 0, 0, true, needProps, Props(0, 0, 0), z, 5, [], [])
  }

  ghost predicate InHeader(r: Ref) {
    r.phase in {Uncompressed1, Uncompressed2, Compressed0, Compressed1, Properties}
  }

  ghost predicate InChunk(r: Ref) {
    InHeader(r) || r.phase in {LzmaPrepare, LzmaRun, Copy}
  }

  // The LZMA state belongs to the current dictionary and properties.
  ghost predicate Live(r: Ref) {
    !r.needDictReset && !r.needProps && !(InHeader(r) && r.next == Properties)
  }

  ghost predicate Lawful(r: Ref) {
    && GoodRef(r)
    && (r.phase in {Uncompressed1, Uncompressed2, Properties, LzmaPrepare, LzmaRun} ==> r.next in {Properties, LzmaPrepare})
    && (r.phase in {Compressed0, Compressed1} ==> r.next in {Properties, LzmaPrepare, Copy})
    && (r.phase == Properties ==> r.next == Properties)
    && (r.phase == Copy ==> r.next == Copy && 0 < r.compressed)
    && (InChunk(r) ==> !r.needDictReset && (r.next == Copy || !r.needProps))
    && (InHeader(r) && r.next != Copy ==> 0 <= r.uncompressed)
    && (r.phase in {Compressed0, Compressed1, Properties, LzmaPrepare} && r.next != Copy ==> 0 < r.uncompressed)
    && (Live(r) && r.phase !in {LzmaPrepare, LzmaRun} ==> r.initLeft == 5)
    && (r.phase == LzmaPrepare ==> 0 < r.initLeft <= 5)
  }

  lemma StepIsLawful(r: Ref, stream: seq<byte>, size: nat)
    requires Lawful(r)
    ensures var r' := Step(r, stream, size);
            r'.phase == Failed || Lawful(r')
  {
    hide SymbolStep, ControlStep, ByteStep;
    if r.phase == Control && r.pos < |stream| {
      ControlIsLawful(r, stream[r.pos]);
    } else if r.phase != Control && r.phase != LzmaPrepare && r.pos < |stream| {
      ByteIsLawful(r, stream[r.pos]);
    }
  }

  lemma ControlIsLawful(r: Ref, b: byte)
    requires Lawful(r) && r.phase == Control
    ensures ControlStep(r, b).phase == Failed || Lawful(ControlStep(r, b))
  {
  }

  lemma ByteIsLawful(r: Ref, b: byte)
    requires Lawful(r)
    ensures ByteStep(r, b).phase == Failed || Lawful(ByteStep(r, b))
  {
  }

  lemma LawfulRun(r: Ref)
    requires Lawful(r) && r.phase == LzmaRun
    ensures Live(r)
  {
  }

  // The one-shot decoder has gone on in an LZMA chunk as far as x.
  ghost predicate Advanced(r: Ref, r': Ref, x: Run) {
    && Lawful(r') && Live(r') && r'.phase == LzmaRun && r'.next == r.next && r'.initLeft == r.initLeft
    && r'.props == r.props && r'.needDictReset == r.needDictReset && r'.needProps == r.needProps
    && r'.prior == r.prior && r'.z == At(x.z, 0) && r'.hist == x.hist && r'.uncompressed == x.left
    && r'.pos == x.z.c.pos && r'.compressed == r.pos + r.compressed - x.z.c.pos
  }

  // The one-shot decoder takes the steps that n symbols stand for.
  lemma AdvanceRef(origin: Ref, r: Ref, stream: seq<byte>, size: nat, steps: nat, n: nat) returns (steps': nat, r': Ref)
    requires GoodRef(origin) && r == Steps(origin, stream, size, steps) && Lawful(r) && r.phase == LzmaRun
    ensures r' == Steps(origin, stream, size, steps')
    ensures Symbols(RunOf(r), r.props, stream, r.pos + r.compressed, size, n).Broken? ==> r'.phase == Failed
    ensures Symbols(RunOf(r), r.props, stream, r.pos + r.compressed, size, n).Going? ==>
              Advanced(r, r', Symbols(RunOf(r), r.props, stream, r.pos + r.compressed, size, n).run)
  {
    hide Symbols, Steps, Step;
    var m := SymbolsAreSteps(r, stream, size, n);
    StepsAdd(origin, stream, size, steps, m);
    steps', r' := steps + m, Steps(r, stream, size, m);
  }

  lemma NextStep(origin: Ref, r: Ref, stream: seq<byte>, size: nat, steps: nat)
    requires GoodRef(origin) && r == Steps(origin, stream, size, steps) && Lawful(r)
    ensures Step(r, stream, size) == Steps(origin, stream, size, steps + 1)
    ensures Step(r, stream, size).phase == Failed || Lawful(Step(r, stream, size))
  {
    hide Step, Steps, Lawful;
    StepsNext(origin, stream, size, steps);
    StepIsLawful(r, stream, size);
  }

  lemma StepControl(r: Ref, stream: seq<byte>, size: nat, b: byte)
    requires GoodRef(r) && r.phase == Control && r.pos < |stream| && b == stream[r.pos]
    ensures Step(r, stream, size) == ControlStep(r, b)
  {
  }

  lemma EnterIsLawful(r: Ref, b: byte)
    requires Lawful(r) && r.phase == Control && !r.needDictReset && 0 < b
    ensures EnterChunk(r, b).phase == Failed || Lawful(EnterChunk(r, b))
    ensures EnterChunk(r, b).hist == r.hist && EnterChunk(r, b).prior == r.prior
    ensures EnterChunk(r, b).compressed == r.compressed && EnterChunk(r, b).pos == r.pos
    ensures Live(EnterChunk(r, b)) ==> Live(r) && EnterChunk(r, b).props == r.props
    ensures EnterChunk(r, b).phase != Ended && EnterChunk(r, b).phase != LzmaRun
  {
  }

  lemma LawfulAt(r: Ref, pos: nat)
    requires Lawful(r)
    ensures Lawful(r.(pos := pos)) && Live(r.(pos := pos)) == Live(r)
  {
  }

  lemma StepByte(r: Ref, stream: seq<byte>, size: nat, b: byte)
    requires GoodRef(r) && (InHeader(r) || r.phase == Copy) && r.pos < |stream| && b == stream[r.pos]
    ensures Step(r, stream, size) == ByteStep(r, b)
  {
  }

  // A run of initial bytes, still in the same phase.
  ghost function AfterInit(r: Ref, bytes: seq<byte>): (r': Ref)
    requires GoodRef(r) && |bytes| <= r.initLeft
    ensures GoodRef(r')
  {
    r.(z := r.z.(c := r.z.c.(code := InitCode(r.z.c.code, bytes))), initLeft := r.initLeft - |bytes|, pos := r.pos + |bytes|)
  }

  // The last of them starts the chunk proper.
  ghost function StartRun(r: Ref): (r': Ref)
    requires GoodRef(r) && 5 <= r.compressed
    ensures GoodRef(r')
  {
    r.(compressed := r.compressed - 5, phase := LzmaRun)
  }

  lemma InitOne(r: Ref, stream: seq<byte>, size: nat, n: nat)
    requires GoodRef(r) && r.phase == LzmaPrepare && 5 <= r.compressed
    requires n < r.initLeft && r.pos + n < |stream|
    ensures var r' := AfterInit(r, stream[r.pos..r.pos + n + 1]);
            Step(AfterInit(r, stream[r.pos..r.pos + n]), stream, size) == if n + 1 == r.initLeft then StartRun(r') else r'
  {
    hide ControlStep, ByteStep, FinishStep, SymbolStep;
    var bytes := stream[r.pos..r.pos + n + 1];
    assert bytes[..n] == stream[r.pos..r.pos + n];
  }

  lemma {:induction false} InitSteps(r: Ref, stream: seq<byte>, size: nat, n: nat)
    requires GoodRef(r) && r.phase == LzmaPrepare && 5 <= r.compressed && 0 < r.initLeft
    requires n <= r.initLeft && r.pos + n <= |stream|
    ensures var r' := AfterInit(r, stream[r.pos..r.pos + n]);
            Steps(r, stream, size, n) == if n == r.initLeft then StartRun(r') else r'
    decreases n
  {
    hide Step;
    if n == 0 {
      assert stream[r.pos..r.pos] == [];
    } else {
      hide AfterInit;
      InitSteps(r, stream, size, n - 1);
      InitOne(r, stream, size, n - 1);
    }
  }

  // A run of stored bytes.
  lemma {:induction false} CopySteps(r: Ref, stream: seq<byte>, size: nat, n: nat)
    requires GoodRef(r) && r.phase == Copy && n <= r.compressed && 0 < r.compressed && r.pos + n <= |stream|
    ensures Steps(r, stream, size, n) ==
              r.(hist := r.hist + stream[r.pos..r.pos + n], compressed := r.compressed - n, pos := r.pos + n,
                 phase := if n == r.compressed then Control else Copy)
    decreases n
  {
    hide Step, GoodRef;
    if n == 0 {
      assert r.hist + stream[r.pos..r.pos] == r.hist;
    } else {
      CopySteps(r, stream, size, n - 1);
      StepsNext(r, stream, size, n - 1);
      hide Steps;
      StepByte(Steps(r, stream, size, n - 1), stream, size, stream[r.pos + n - 1]);
      assert r.hist + stream[r.pos..r.pos + (n - 1)] + [stream[r.pos + n - 1]] == r.hist + stream[r.pos..r.pos + n];
    }
  }

  // More steps from a state that has been reached.
  lemma MoreSteps(origin: Ref, r: Ref, stream: seq<byte>, size: nat, steps: nat, n: nat)
    requires GoodRef(origin) && r == Steps(origin, stream, size, steps)
    ensures Steps(origin, stream, size, steps + n) == Steps(r, stream, size, n)
  {
    StepsAdd(origin, stream, size, steps, n);
  }

  lemma FailsShort(r: Ref, stream: seq<byte>, size: nat)
    requires GoodRef(r) && r.phase == LzmaPrepare && r.compressed < 5
    ensures Step(r, stream, size).phase == Failed
  {
  }

  lemma LawfulInit(r: Ref, bytes: seq<byte>)
    requires Lawful(r) && r.phase == LzmaPrepare && 5 <= r.compressed && |bytes| <= r.initLeft
    ensures Live(r)
    ensures var r' := AfterInit(r, bytes);
            if |bytes| == r.initLeft then Lawful(StartRun(r')) && Live(StartRun(r')) else Lawful(r') && Live(r')
    ensures 0 < r.initLeft && 0 < r.uncompressed
  {
  }
}
