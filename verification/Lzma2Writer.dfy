// Writers for LZMA chunks and LZMA2 streams, and the proof that the one-shot decoder gives
// back what was written.
module LzmaWriter {
  import opened Words
  import opened RangeCoder
  import opened LzmaSymbols
  import opened LzmaContexts
  import opened RangeEncoder
  import opened LzmaPackets
  import opened Lzma2Reference

  // A writer between two packets: the range encoder, what it has to remember, and everything
  // written since the last dictionary reset.
  datatype Writer = Writer(e: Encoder, m: Memory, h: seq<byte>)

  ghost predicate GoodWriter(w: Writer) {
    Wide(w.e) && GoodMemory(w.m)
  }

  datatype Written = Refused | Written(w: Writer)

  ghost function WritePacket(w: Writer, props: Props, size: nat, p: Packet): (r: Written)
    requires GoodWriter(w) && ValidProps(props)
    ensures r.Written? ==> GoodWriter(r.w) && w.h <= r.w.h && |r.w.h| == |w.h| + Length(p)
  {
    if Sensible(p, w.m, w.h, size) then
      Written(Writer(Settle(PutAll(w.e, Choices(p, w.m, props, w.h))), NextMemory(w.m, p), NextHistory(p, w.m, w.h)))
    else
      Refused
  }

  // Refused as soon as one packet is no sensible one.
  ghost function Write(w: Writer, props: Props, size: nat, packets: seq<Packet>): (r: Written)
    requires GoodWriter(w) && ValidProps(props)
    ensures r.Written? ==> GoodWriter(r.w) && w.h <= r.w.h
    decreases packets
  {
    hide WritePacket;
    if packets == [] then
      Written(w)
    else
      match Write(w, props, size, packets[..|packets| - 1])
      case Refused => Refused
      case Written(v) => WritePacket(v, props, size, packets[|packets| - 1])
  }

  // The decoder at x stands where the writer stood at w.
  ghost predicate Beside(x: Run, w: Writer, stream: seq<byte>, v: nat, end: nat, total: nat) {
    && Good(x.z) && Remembers(x.z, w.m) && x.hist == w.h
    && Tracks(x.z.c, w.e, stream, v, end, total)
  }

  lemma PacketHolds(w: Writer, props: Props, size: nat, p: Packet, v: nat, total: nat)
    requires GoodWriter(w) && ValidProps(props) && WritePacket(w, props, size, p).Written?
    requires Holds(WritePacket(w, props, size, p).w.e, v, total)
    ensures Holds(PutAll(w.e, Choices(p, w.m, props, w.h)), v, total) && Holds(w.e, v, total)
  {
    hide Holds, PutAll, Choices, Settle;
    HoldsSettled(PutAll(w.e, Choices(p, w.m, props, w.h)), v, total);
    HoldsAll(w.e, Choices(p, w.m, props, w.h), v, total);
  }

  // One packet: the same bytes appear, and both go on from the same place.
  lemma PacketStep(x: Run, w: Writer, props: Props, size: nat, p: Packet, stream: seq<byte>, v: nat, end: nat, total: nat)
    requires GoodWriter(w) && ValidProps(props) && Beside(x, w, stream, v, end, total)
    requires WritePacket(w, props, size, p).Written? && 0 < x.left
    requires Holds(WritePacket(w, props, size, p).w.e, v, total)
    ensures GoodRun(x, props)
    ensures var r := SymbolStep(x, props, stream, end, size);
            && r.Going? && r.run.left == x.left - Length(p)
            && Beside(r.run, WritePacket(w, props, size, p).w, stream, v, end, total)
  {
    var choices := Choices(p, w.m, props, w.h);
    PacketHolds(w, props, size, p, v, total);
    hide Holds, PutAll, Choices, Settle, Tracks, DecodeSymbol, Normalize, NextMemory, Carries, After, Sound;
    EncodedIsRead(x.z.c, w.e, choices, stream, v, end, total);
    PacketReads(x.z, w.m, props, w.h, p, stream);
    var (z1, symbol) := DecodeSymbol(x.z, props, x.hist, stream);
    TracksSettled(z1.c, PutAll(w.e, choices), stream, v, end, total);
    var z2 := z1.(c := Normalize(z1.c, stream));
    TracksEnd(z2.c, Settle(PutAll(w.e, choices)), stream, v, end, total);
    PacketEmits(x, w, z2, size, p);
  }

  lemma TracksEnd(c: Coder, e: Encoder, input: seq<byte>, v: nat, end: nat, total: nat)
    requires Tracks(c, e, input, v, end, total)
    ensures Sound(c) && c.pos <= end
  {
    hide Stands, Value, Pow256;
  }

  lemma PacketEmits(x: Run, w: Writer, z: Lzma, size: nat, p: Packet)
    requires GoodMemory(w.m) && Remembers(z, NextMemory(w.m, p)) && x.hist == w.h && Sensible(p, w.m, w.h, size)
    ensures Emit(x, z, if p.Lit? then Literal(p.b) else Repeat(Length(p)), size)
            == Going(Run(z, NextHistory(p, w.m, w.h), x.left - Length(p)))
  {
    hide RepeatFrom, Copied, NextState, NextReps;
    if !p.Lit? {
      RepeatCopies(x.hist, z.rep0, Length(p));
    }
  }

  lemma {:induction false} WriteHolds(w: Writer, props: Props, size: nat, packets: seq<Packet>, v: nat, total: nat)
    requires GoodWriter(w) && ValidProps(props) && Write(w, props, size, packets).Written?
    requires Holds(Write(w, props, size, packets).w.e, v, total)
    ensures Holds(w.e, v, total)
    decreases packets
  {
    hide Holds, WritePacket;
    if packets != [] {
      var n := |packets| - 1;
      PacketHolds(Write(w, props, size, packets[..n]).w, props, size, packets[n], v, total);
      WriteHolds(w, props, size, packets[..n], v, total);
    }
  }

  // Any number of packets.
  lemma {:induction false} PacketsAreSymbols(x: Run, w: Writer, props: Props, size: nat, packets: seq<Packet>, stream: seq<byte>, v: nat, end: nat, total: nat)
    requires GoodWriter(w) && ValidProps(props) && Beside(x, w, stream, v, end, total) && GoodRun(x, props)
    requires Write(w, props, size, packets).Written? && |Write(w, props, size, packets).w.h| <= |w.h| + x.left
    requires Holds(Write(w, props, size, packets).w.e, v, total)
    ensures var r := Symbols(x, props, stream, end, size, |packets|);
            && r.Going? && r.run.left == x.left - (|r.run.hist| - |w.h|)
            && Beside(r.run, Write(w, props, size, packets).w, stream, v, end, total)
    decreases packets
  {
    hide Holds, WritePacket, SymbolStep, Beside, GoodRun;
    if packets == [] {
      NoPackets(x, w, stream, v, end, total);
    } else {
      var n := |packets| - 1;
      var w1 := Write(w, props, size, packets[..n]).w;
      PacketHolds(w1, props, size, packets[n], v, total);
      PacketsAreSymbols(x, w, props, size, packets[..n], stream, v, end, total);
      var y := Symbols(x, props, stream, end, size, n).run;
      NoPackets(y, w1, stream, v, end, total);
      PacketLength(packets[n], w1, props, size);
      PacketStep(y, w1, props, size, packets[n], stream, v, end, total);
      NoPackets(SymbolStep(y, props, stream, end, size).run, WritePacket(w1, props, size, packets[n]).w, stream, v, end, total);
    }
  }

  lemma NoPackets(x: Run, w: Writer, stream: seq<byte>, v: nat, end: nat, total: nat)
    requires Beside(x, w, stream, v, end, total)
    ensures x.hist == w.h
  {
  }

  lemma PacketLength(p: Packet, w: Writer, props: Props, size: nat)
    requires GoodWriter(w) && ValidProps(props) && WritePacket(w, props, size, p).Written?
    ensures 1 <= Length(p)
  {
  }
}

module Lzma2Writer {
  import opened Words
  import opened RangeCoder
  import opened LzmaSymbols
  import opened LzmaContexts
  import opened RangeEncoder
  import opened LzmaPackets
  import opened LzmaWriter
  import opened Lzma2Reference
  import opened Lzma2Laws

  // What an LZMA chunk starts over: nothing, the state, the state with new properties, or
  // the dictionary too.
  datatype Reset = Keep | NewState | NewProps(props: Props) | NewDict(props: Props)

  // Stored bytes, behind a dictionary reset when clean is set, or packets.
  datatype Chunk = Stored(clean: bool, data: seq<byte>) | Packed(reset: Reset, packets: seq<Packet>)

  // A writer between two chunks: what it still has to reset, what it remembers, what was
  // written before the last dictionary reset, and since.
  datatype Archive = Archive(
    needDict: bool, needProps: bool, props: Props, m: Memory, chances: map<Ctx, Prob>,
    prior: seq<byte>, hist: seq<byte>)

  const NEW_ARCHIVE := Archive(true, true, Props(0, 0, 0), NEW_MEMORY, map[], [], [])

  ghost predicate GoodArchive(a: Archive) {
    ValidProps(a.props) && GoodMemory(a.m)
  }

  // The first chunk resets the dictionary, and the first LZMA chunk after that sets properties.
  predicate Allowed(a: Archive, chunk: Chunk) {
    match chunk
    case Stored(clean, data) => (clean || !a.needDict) && 1 <= |data| <= 0x1_0000
    case Packed(NewDict(p), _) => p.lc + p.lp <= 4 && p.pb <= 4
    case Packed(NewProps(p), _) => !a.needDict && p.lc + p.lp <= 4 && p.pb <= 4
    case Packed(_, _) => !a.needDict && !a.needProps
  }

  function Forget(a: Archive): Archive {
    a.(needDict := false, needProps := true, prior := a.prior + a.hist, hist := [])
  }

  function Renew(a: Archive): Archive {
    a.(m := NEW_MEMORY, chances := map[])
  }

  // The resets that come with a chunk.
  function Reset4(a: Archive, chunk: Chunk): Archive {
    match chunk
    case Stored(clean, _) => if clean then Forget(a) else a
    case Packed(Keep, _) => a
    case Packed(NewState, _) => Renew(a)
    case Packed(NewProps(p), _) => Renew(a.(props := p, needProps := false))
    case Packed(NewDict(p), _) => Renew(Forget(a).(props := p, needProps := false))
  }

  function Control(reset: Reset): byte {
    match reset
    case Keep => 0x80
    case NewState => 0xA0
    case NewProps(_) => 0xC0
    case NewDict(_) => 0xE0
  }

  function PropsByte(p: Props): byte
    requires p.lc + p.lp <= 4 && p.pb <= 4
  {
    (p.pb * 5 + p.lp) * 9 + p.lc
  }

  predicate GoodReset(reset: Reset) {
    reset.NewProps? || reset.NewDict? ==> reset.props.lc + reset.props.lp <= 4 && reset.props.pb <= 4
  }

  function PropsBytes(reset: Reset): seq<byte>
    requires GoodReset(reset)
  {
    match reset
    case NewProps(p) => [PropsByte(p)]
    case NewDict(p) => [PropsByte(p)]
    case _ => []
  }

  // The header of an LZMA chunk for its two sizes.
  function Header(reset: Reset, out: nat, size: nat): seq<byte>
    requires GoodReset(reset)
    requires 1 <= out <= 0x20_0000 && 1 <= size <= 0x1_0000
  {
    [Control(reset) + (out - 1) / 0x1_0000, (out - 1) / 0x100 % 0x100, (out - 1) % 0x100,
     (size - 1) / 0x100, (size - 1) % 0x100] + PropsBytes(reset)
  }

  // The writer at the start of an LZMA chunk, and the archive when it has been written.
  function Begin(b: Archive): Writer {
    Writer(NewEncoder(b.chances), b.m, b.hist)
  }

  function Filled(b: Archive, w: Writer): Archive {
    b.(m := w.m, chances := w.e.chances, hist := w.h)
  }

  datatype Put = Refused | Done(a: Archive, bytes: seq<byte>)

  // Refused when the chunk is not allowed, or one of its packets is not, or it comes out too
  // long for its header.
  ghost function PutChunk(a: Archive, chunk: Chunk, size: nat): (r: Put)
    requires GoodArchive(a)
    ensures r.Done? ==> GoodArchive(r.a)
  {
    if !Allowed(a, chunk) then
      Put.Refused
    else
      var b := Reset4(a, chunk);
      match chunk
      case Stored(clean, data) =>
        Done(b.(hist := b.hist + data), StoredHead(clean, |data|) + data)
      case Packed(reset, packets) =>
        (match Write(Begin(b), b.props, size, packets)
         case Refused => Put.Refused
         case Written(w) =>
           var out, payload := |w.h| - |b.hist|, Payload(w.e);
           if 1 <= out <= 0x20_0000 && |payload| <= 0x1_0000 then
             Done(Filled(b, w), Header(reset, out, |payload|) + payload)
           else
             Put.Refused)
  }

  ghost function PutChunks(a: Archive, chunks: seq<Chunk>, size: nat): (r: Put)
    requires GoodArchive(a)
    ensures r.Done? ==> GoodArchive(r.a)
    decreases chunks
  {
    hide PutChunk;
    if chunks == [] then
      Done(a, [])
    else
      match PutChunks(a, chunks[..|chunks| - 1], size)
      case Refused => Put.Refused
      case Done(b, bytes) =>
        match PutChunk(b, chunks[|chunks| - 1], size)
        case Refused => Put.Refused
        case Done(d, more) => Done(d, bytes + more)
  }

  // The whole stream: the chunks, and a zero byte.
  ghost predicate Writes(chunks: seq<Chunk>, size: nat, stream: seq<byte>, contents: seq<byte>) {
    var r := PutChunks(NEW_ARCHIVE, chunks, size);
    r.Done? && stream == r.bytes + [0] && contents == r.a.prior + r.a.hist
  }

  /* ---- The decoder between two chunks ---- */

  ghost predicate SameState(r: Ref, a: Archive) {
    && r.props == a.props && Remembers(r.z, a.m) && Stands(r.z.c.probs, a.chances)
    && r.z.c.range == 0xFFFF_FFFF && r.z.c.code == 0
  }

  // The decoder knows what the writer does. What it has not reset yet does not matter.
  ghost predicate Follows(r: Ref, a: Archive) {
    && Lawful(r) && r.phase == Phase.Control && r.initLeft == 5 && GoodArchive(a)
    && r.prior == a.prior && r.hist == a.hist && r.needDictReset == a.needDict
    && (!a.needDict ==> r.needProps == a.needProps && (!a.needProps ==> SameState(r, a)))
  }

  lemma StartFollows(z: Lzma, needProps: bool)
    requires Good(z) && z.c.pos == 0
    ensures Follows(Start(z, needProps), NEW_ARCHIVE)
  {
  }

  // The bytes lie in the stream from position pos on.
  ghost predicate LieAt(stream: seq<byte>, pos: nat, bytes: seq<byte>) {
    pos + |bytes| <= |stream| && stream[pos..pos + |bytes|] == bytes
  }

  lemma LieApart(stream: seq<byte>, pos: nat, a: seq<byte>, b: seq<byte>)
    requires LieAt(stream, pos, a + b)
    ensures LieAt(stream, pos, a) && LieAt(stream, pos + |a|, b)
  {
    SliceJoin(stream, pos, pos + |a|, pos + |a| + |b|);
    assert stream[pos..pos + |a|] == (a + b)[..|a|];
    assert stream[pos + |a|..pos + |a| + |b|] == (a + b)[|a|..];
  }

  lemma LieByte(stream: seq<byte>, pos: nat, bytes: seq<byte>, i: nat)
    requires LieAt(stream, pos, bytes) && i < |bytes|
    ensures pos + i < |stream| && stream[pos + i] == bytes[i]
  {
    assert stream[pos..pos + |bytes|][i] == stream[pos + i];
  }

  /* ---- Stored chunks ---- */

  function StoredHead(clean: bool, n: nat): seq<byte>
    requires 1 <= n <= 0x1_0000
  {
    [if clean then 1 else 2, (n - 1) / 0x100, (n - 1) % 0x100]
  }

  lemma StoredHeader(r: Ref, a: Archive, clean: bool, data: seq<byte>, stream: seq<byte>, size: nat)
    requires Follows(r, a) && Allowed(a, Stored(clean, data)) && 1 <= |data| <= 0x1_0000
    requires LieAt(stream, r.pos, StoredHead(clean, |data|))
    ensures var b := Reset4(a, Stored(clean, data));
            var r' := Steps(r, stream, size, 3);
            && r'.phase == Copy && r'.compressed == |data| && r'.pos == r.pos + 3
            && Follows(r'.(phase := Phase.Control), b)
  {
    var head := StoredHead(clean, |data|);
    LieByte(stream, r.pos, head, 0);
    LieByte(stream, r.pos, head, 1);
    LieByte(stream, r.pos, head, 2);
    hide Step, LieAt, SameState;
    var r1 := ControlStep(r, head[0]);
    var r2 := ByteStep(r1, head[1]);
    StepControl(r, stream, size, head[0]);
    StepByte(r1, stream, size, head[1]);
    StepByte(r2, stream, size, head[2]);
    StepsNext(r, stream, size, 0);
    StepsNext(r, stream, size, 1);
    StepsNext(r, stream, size, 2);
  }

  // A stored chunk gives its data.
  lemma StoredReads(r: Ref, a: Archive, clean: bool, data: seq<byte>, stream: seq<byte>, size: nat) returns (n: nat)
    requires GoodRef(r) && Follows(r, a) && Allowed(a, Stored(clean, data)) && 1 <= |data| <= 0x1_0000
    requires LieAt(stream, r.pos, StoredHead(clean, |data|) + data)
    ensures var b := Reset4(a, Stored(clean, data));
            Follows(Steps(r, stream, size, n), b.(hist := b.hist + data))
    ensures Steps(r, stream, size, n).pos == r.pos + |StoredHead(clean, |data|) + data|
  {
    hide *;
    var head := StoredHead(clean, |data|);
    LieApart(stream, r.pos, head, data);
    StoredHeader(r, a, clean, data, stream, size);
    n := 3 + |data|;
    StepsAdd(r, stream, size, 3, |data|);
    ThreeBytes(clean, |data|);
    DataReads(Steps(r, stream, size, 3), Reset4(a, Stored(clean, data)), data, stream, size);
  }

  lemma ThreeBytes(clean: bool, n: nat)
    requires 1 <= n <= 0x1_0000
    ensures |StoredHead(clean, n)| == 3
  {
  }

  lemma DataReads(r: Ref, b: Archive, data: seq<byte>, stream: seq<byte>, size: nat)
    requires GoodRef(r) && r.phase == Copy && r.compressed == |data| && 0 < |data| && LieAt(stream, r.pos, data)
    requires Follows(r.(phase := Phase.Control), b)
    ensures Follows(Steps(r, stream, size, |data|), b.(hist := b.hist + data))
    ensures Steps(r, stream, size, |data|).pos == r.pos + |data|
  {
    hide Steps, Follows;
    CopySteps(r, stream, size, |data|);
    Extended(r.(phase := Phase.Control), b, data);
  }

  lemma Extended(r: Ref, a: Archive, data: seq<byte>)
    requires Follows(r, a)
    ensures Follows(r.(hist := r.hist + data, compressed := 0, pos := r.pos + |data|), a.(hist := a.hist + data))
  {
  }

  /* ---- LZMA chunks ---- */

  // The control byte does what the writer has reset, except for the properties.
  lemma PackedControl(r: Ref, a: Archive, reset: Reset, packets: seq<Packet>, k: nat)
    requires Follows(r, a) && Allowed(a, Packed(reset, packets)) && k < 0x20
    ensures var r1, b := ControlStep(r, Control(reset) + k), Reset4(a, Packed(reset, packets));
            && Lawful(r1) && r1.phase == Uncompressed1 && r1.pos == r.pos + 1 && r1.uncompressed == k * 0x1_0000
            && r1.initLeft == 5 && !r1.needDictReset && !r1.needProps && r1.prior == b.prior && r1.hist == b.hist
            && r1.next == (if reset.NewProps? || reset.NewDict? then Properties else LzmaPrepare)
            && (r1.next == LzmaPrepare ==> SameState(r1, b))
            && !b.needDict && !b.needProps && GoodArchive(b)
  {
    ControlIsLawful(r, Control(reset) + k);
    FreshIs();
    hide Stands, FreshProbs;
  }

  lemma FreshIs()
    ensures Stands(FreshLzma().c.probs, map[]) && Remembers(FreshLzma(), NEW_MEMORY)
  {
    StandsFresh(FreshProbs());
  }

  // The decoder behind the header of an LZMA chunk.
  ghost predicate Prepared(r: Ref, b: Archive, out: nat, payload: nat) {
    && Lawful(r) && r.phase == LzmaPrepare && r.initLeft == 5 && !r.needDictReset && !r.needProps
    && r.prior == b.prior && r.hist == b.hist && SameState(r, b)
    && r.uncompressed == out && r.compressed == payload
  }

  lemma HeaderSizes(reset: Reset, out: nat, size: nat, stream: seq<byte>, pos: nat)
    requires GoodReset(reset)
    requires 1 <= out <= 0x20_0000 && 1 <= size <= 0x1_0000 && LieAt(stream, pos, Header(reset, out, size))
    ensures pos + 5 <= |stream| && stream[pos] == Control(reset) + (out - 1) / 0x1_0000
    ensures var x: nat, y: nat, z: nat, w: nat := stream[pos + 1], stream[pos + 2], stream[pos + 3], stream[pos + 4];
            && (out - 1) / 0x1_0000 * 0x1_0000 + 0x100 * x + y + 1 == out && 0x100 * z + w + 1 == size
    ensures reset.NewProps? || reset.NewDict? ==> pos + 5 < |stream| && stream[pos + 5] == PropsByte(reset.props)
  {
    var h := Header(reset, out, size);
    LieByte(stream, pos, h, 0);
    LieByte(stream, pos, h, 1);
    LieByte(stream, pos, h, 2);
    LieByte(stream, pos, h, 3);
    LieByte(stream, pos, h, 4);
    if reset.NewProps? || reset.NewDict? {
      LieByte(stream, pos, h, 5);
    }
  }

  lemma PropsBack(p: Props)
    requires p.lc + p.lp <= 4 && p.pb <= 4
    ensures ParseProps(PropsByte(p)) == GoodProps(p)
  {
    var b: nat := PropsByte(p);
    QuotientIs(b, 45, p.pb, 9 * p.lp + p.lc);
    QuotientIs(9 * p.lp + p.lc, 9, p.lp, p.lc);
    QuotientIs(b, 9, 5 * p.pb + p.lp, p.lc);
    assert b <= 224;
  }

  lemma PackedHeader(r: Ref, a: Archive, reset: Reset, packets: seq<Packet>, out: nat, payload: nat, stream: seq<byte>, size: nat) returns (n: nat)
    requires Follows(r, a) && Allowed(a, Packed(reset, packets))
    requires 1 <= out <= 0x20_0000 && 1 <= payload <= 0x1_0000 && LieAt(stream, r.pos, Header(reset, out, payload))
    ensures Prepared(Steps(r, stream, size, n), Reset4(a, Packed(reset, packets)), out, payload)
    ensures Steps(r, stream, size, n).pos == r.pos + |Header(reset, out, payload)|
  {
    var b := Reset4(a, Packed(reset, packets));
    HeaderSizes(reset, out, payload, stream, r.pos);
    FiveSteps(r, a, reset, packets, out, payload, stream, size);
    var r5 := Steps(r, stream, size, 5);
    hide Step, Steps, LieAt, Allowed, Lawful, Reset4, SameState, ByteStep, PropsByte;
    n := 5;
    if reset.NewProps? || reset.NewDict? {
      n := 6;
      StepsNext(r, stream, size, 5);
      StepByte(r5, stream, size, stream[r.pos + 5]);
      PropsStep(r5, a, reset, packets, stream[r.pos + 5]);
    }
    LawfulThere(r, stream, size, n);
  }

  // The control byte and the sizes.
  lemma FiveSteps(r: Ref, a: Archive, reset: Reset, packets: seq<Packet>, out: nat, payload: nat, stream: seq<byte>, size: nat)
    requires Follows(r, a) && Allowed(a, Packed(reset, packets))
    requires 1 <= out <= 0x20_0000 && 1 <= payload <= 0x1_0000 && LieAt(stream, r.pos, Header(reset, out, payload))
    ensures var r', b := Steps(r, stream, size, 5), Reset4(a, Packed(reset, packets));
            && r'.phase == (if reset.NewProps? || reset.NewDict? then Properties else LzmaPrepare)
            && r'.pos == r.pos + 5 && r'.uncompressed == out && r'.compressed == payload
            && r'.initLeft == 5 && !r'.needDictReset && !r'.needProps && r'.prior == b.prior && r'.hist == b.hist
            && (r'.phase == LzmaPrepare ==> SameState(r', b))
  {
    hide *;
    FirstStep(r, a, reset, packets, out, payload, stream, size);
    var r1 := Step(r, stream, size);
    StepOne(r, stream, size);
    StepsAdd(r, stream, size, 1, 4);
    HeaderSizes(reset, out, payload, stream, r.pos);
    FourSteps(r1, out, payload, stream, size);
    SameStateAt(r1, Steps(r, stream, size, 5), Reset4(a, Packed(reset, packets)));
  }

  lemma SameStateAt(r: Ref, s: Ref, b: Archive)
    requires r.props == s.props && r.z == s.z
    ensures SameState(r, b) == SameState(s, b)
  {
  }

  lemma FirstStep(r: Ref, a: Archive, reset: Reset, packets: seq<Packet>, out: nat, payload: nat, stream: seq<byte>, size: nat)
    requires Follows(r, a) && Allowed(a, Packed(reset, packets))
    requires 1 <= out <= 0x20_0000 && 1 <= payload <= 0x1_0000 && LieAt(stream, r.pos, Header(reset, out, payload))
    ensures GoodRef(r) && GoodReset(reset)
    ensures var r1, b := Step(r, stream, size), Reset4(a, Packed(reset, packets));
            && Lawful(r1) && r1.phase == Uncompressed1 && r1.pos == r.pos + 1 && r1.uncompressed == (out - 1) / 0x1_0000 * 0x1_0000
            && r1.initLeft == 5 && !r1.needDictReset && !r1.needProps && r1.prior == b.prior && r1.hist == b.hist
            && r1.next == (if reset.NewProps? || reset.NewDict? then Properties else LzmaPrepare)
            && (r1.next == LzmaPrepare ==> SameState(r1, b))
  {
    HeaderSizes(reset, out, payload, stream, r.pos);
    PackedControl(r, a, reset, packets, (out - 1) / 0x1_0000);
    StepControl(r, stream, size, stream[r.pos]);
    hide Step, LieAt, Allowed, ControlStep, Reset4, Header, SameState;
  }

  lemma FourSteps(r: Ref, out: nat, payload: nat, stream: seq<byte>, size: nat)
    requires Lawful(r) && r.phase == Uncompressed1 && r.pos + 4 <= |stream|
    requires var x: nat, y: nat, z: nat, w: nat := stream[r.pos], stream[r.pos + 1], stream[r.pos + 2], stream[r.pos + 3];
             r.uncompressed + 0x100 * x + y + 1 == out && 0x100 * z + w + 1 == payload
    ensures Steps(r, stream, size, 4) == r.(phase := r.next, pos := r.pos + 4, uncompressed := out, compressed := payload)
  {
    hide Lawful, Step, Steps;
    SizeSteps(r, stream, size);
  }

  // All steps are lawful, as long as none of them fails.
  lemma {:induction false} LawfulThere(r: Ref, stream: seq<byte>, size: nat, n: nat)
    requires GoodRef(r) && Lawful(r)
    ensures Steps(r, stream, size, n).phase == Failed || Lawful(Steps(r, stream, size, n))
  {
    hide Lawful, Step, GoodRef;
    if n > 0 {
      LawfulThere(r, stream, size, n - 1);
      if Steps(r, stream, size, n - 1).phase != Failed {
        StepIsLawful(Steps(r, stream, size, n - 1), stream, size);
      } else {
        FailedStays(Steps(r, stream, size, n - 1), stream, size);
      }
    }
  }

  lemma FailedStays(r: Ref, stream: seq<byte>, size: nat)
    requires GoodRef(r) && r.phase == Failed
    ensures Step(r, stream, size) == r
  {
  }

  lemma PropsStep(r5: Ref, a: Archive, reset: Reset, packets: seq<Packet>, b: byte)
    requires Allowed(a, Packed(reset, packets)) && (reset.NewProps? || reset.NewDict?)
    requires GoodRef(r5) && r5.phase == Properties && b == PropsByte(reset.props)
    ensures var s := ByteStep(r5, b);
            && s == r5.(props := s.props, z := s.z, initLeft := 5, phase := LzmaPrepare, pos := r5.pos + 1)
            && SameState(s, Reset4(a, Packed(reset, packets)))
  {
    PropsBack(reset.props);
    FreshIs();
    hide Stands, FreshProbs, Lawful;
  }

  /* ---- The data of an LZMA chunk ---- */

  // Five bytes shifted through the code register: the first one is gone.
  lemma {:induction false} InitCodeValue(bytes: seq<byte>)
    ensures InitCode(0, bytes) == Wrap32(Value(bytes))
    decreases |bytes|
  {
    if bytes != [] {
      var n := |bytes| - 1;
      InitCodeValue(bytes[..n]);
      WrapShift(Value(bytes[..n]), bytes[n]);
    }
  }

  lemma WrapShift(v: nat, b: byte)
    ensures Wrap32(Wrap32(v) * 256 + b) == Wrap32(256 * v + b)
  {
    var q := v / 0x1_0000_0000;
    assert v == 0x1_0000_0000 * q + Wrap32(v);
    WrapPlus(Wrap32(v) * 256 + b, 256 * q);
  }

  lemma WrapPlus(y: nat, k: nat)
    ensures Wrap32(y + 0x1_0000_0000 * k) == Wrap32(y)
  {
    QuotientIs(y + 0x1_0000_0000 * k, 0x1_0000_0000, y / 0x1_0000_0000 + k, y % 0x1_0000_0000);
  }

  lemma FirstByteGone(bytes: seq<byte>)
    requires |bytes| == 5
    ensures InitCode(0, bytes) == Value(bytes[1..])
  {
    InitCodeValue(bytes);
    ValueHead(bytes);
    ValueBound(bytes[1..]);
    FourBytes(0);
    hide Value, Pow256, InitCode;
    assert Pow256(4) == 0x1_0000_0000 && Pow256(0) == 1;
    WrapPlus(Value(bytes[1..]), bytes[0]);
  }

  // The packets have been written as far as w, between the resets and the end of the chunk.
  ghost predicate Fills(b: Archive, w: Writer, packets: seq<Packet>, size: nat) {
    && GoodArchive(b) && !b.needDict && !b.needProps
    && Write(Begin(b), b.props, size, packets) == Written(w)
  }

  // The finished interval lies within the one that the chunk starts with.
  lemma WholeHolds(b: Archive, w: Writer, packets: seq<Packet>, size: nat)
    requires Fills(b, w, packets, size)
    ensures GoodWriter(w) && Holds(w.e, w.e.low, w.e.count)
    ensures Holds(NewEncoder(b.chances), w.e.low, w.e.count)
  {
    hide Write, Holds;
    EndHolds(w.e);
    WriteHolds(Begin(b), b.props, size, packets, w.e.low, w.e.count);
  }

  // The initial bytes: the decoder stands where the writer starts.
  lemma InitReads(r: Ref, b: Archive, w: Writer, out: nat, stream: seq<byte>, size: nat)
    requires GoodArchive(b) && Prepared(r, b, out, 5 + w.e.count) && LieAt(stream, r.pos, Payload(w.e))
    requires Wide(w.e) && Holds(NewEncoder(b.chances), w.e.low, w.e.count)
    ensures var r' := Steps(r, stream, size, 5);
            Inside(r', b, w, out, stream) && r'.pos == r.pos + 5
  {
    hide *;
    PreparedIs(r, b, w, out, stream);
    InitSteps(r, stream, size, 5);
    LawfulInit(r, stream[r.pos..r.pos + 5]);
    InitBeside(r, b, w, stream);
    InitInside(r, b, w, out, stream);
  }

  lemma PreparedIs(r: Ref, b: Archive, w: Writer, out: nat, stream: seq<byte>)
    requires Prepared(r, b, out, 5 + w.e.count) && LieAt(stream, r.pos, Payload(w.e))
    ensures Lawful(r) && GoodRef(r) && r.phase == LzmaPrepare && r.initLeft == 5 && SameState(r, b) && r.hist == b.hist
    ensures r.compressed == 5 + w.e.count && r.pos + 5 <= |stream|
  {
    hide SameState;
  }

  lemma InitInside(r: Ref, b: Archive, w: Writer, out: nat, stream: seq<byte>)
    requires Prepared(r, b, out, 5 + w.e.count) && GoodRef(r) && r.initLeft == 5 && 5 <= r.compressed && r.pos + 5 <= |stream|
    requires var r' := StartRun(AfterInit(r, stream[r.pos..r.pos + 5]));
             Lawful(r') && Beside(RunOf(r'), Begin(b), stream, w.e.low, r.pos + 5 + w.e.count, w.e.count)
    ensures var r' := StartRun(AfterInit(r, stream[r.pos..r.pos + 5]));
            Inside(r', b, w, out, stream) && r'.pos == r.pos + 5
  {
    hide Lawful, Beside, InitCode, Stands, Remembers;
  }

  lemma InitBeside(r: Ref, b: Archive, w: Writer, stream: seq<byte>)
    requires GoodRef(r) && GoodArchive(b) && SameState(r, b) && r.hist == b.hist
    requires r.initLeft == 5 && 5 <= r.compressed && LieAt(stream, r.pos, Payload(w.e))
    requires Wide(w.e) && Holds(NewEncoder(b.chances), w.e.low, w.e.count)
    ensures Beside(RunOf(StartRun(AfterInit(r, stream[r.pos..r.pos + 5]))), Begin(b), stream, w.e.low, r.pos + 5 + w.e.count, w.e.count)
  {
    var bytes := stream[r.pos..r.pos + 5];
    FirstByteGone(bytes);
    assert bytes[1..] == stream[r.pos + 1..r.pos + 5];
    hide InitCode, Payload, Value, Pow256, Holds, Stands, Tracks;
    var r' := StartRun(AfterInit(r, bytes));
    StartTracks(w.e, b.chances, RunOf(r').z.c, stream, r.pos);
  }

  // The decoder at the first symbol of a chunk that will be written as far as w.
  ghost predicate Inside(r: Ref, b: Archive, w: Writer, out: nat, stream: seq<byte>) {
    && Lawful(r) && r.phase == LzmaRun && r.compressed == w.e.count && r.uncompressed == out
    && r.props == b.props && !r.needDictReset && !r.needProps && r.prior == b.prior
    && Beside(RunOf(r), Begin(b), stream, w.e.low, r.pos + w.e.count, w.e.count)
  }

  // The packets, and the end of the chunk.
  lemma DataEnds(r: Ref, b: Archive, w: Writer, packets: seq<Packet>, out: nat, stream: seq<byte>, size: nat) returns (n: nat)
    requires GoodRef(r) && Inside(r, b, w, out, stream) && Fills(b, w, packets, size) && out == |w.h| - |b.hist|
    ensures Follows(Steps(r, stream, size, n), Filled(b, w)) && Steps(r, stream, size, n).pos == r.pos + w.e.count
  {
    hide *;
    var y := DataRead(r, b, w, packets, out, stream, size);
    InsideIs(r, b, w, out, stream);
    StepsNone(r, stream, size);
    var m, r' := AdvanceRef(r, r, stream, size, 0, |packets|);
    n := m + 1;
    AdvancedIs(r, r', y);
    NextStep(r, r', stream, size, m);
    FillsIs(b, w, packets, size);
    EndFollows(r', b, w, y, r.pos + w.e.count, stream, size);
  }

  lemma DataRead(r: Ref, b: Archive, w: Writer, packets: seq<Packet>, out: nat, stream: seq<byte>, size: nat) returns (y: Run)
    requires GoodRef(r) && Inside(r, b, w, out, stream) && Fills(b, w, packets, size) && out == |w.h| - |b.hist|
    ensures Symbols(RunOf(r), r.props, stream, r.pos + r.compressed, size, |packets|) == Going(y)
    ensures Beside(y, w, stream, w.e.low, r.pos + w.e.count, w.e.count) && y.left == 0
  {
    hide *;
    WholeHolds(b, w, packets, size);
    BeginIs(r, b, w, packets, out, stream, size);
    PacketsAreSymbols(RunOf(r), Begin(b), b.props, size, packets, stream, w.e.low, r.pos + w.e.count, w.e.count);
    y := Symbols(RunOf(r), r.props, stream, r.pos + r.compressed, size, |packets|).run;
    NoPackets(y, w, stream, w.e.low, r.pos + w.e.count, w.e.count);
  }

  lemma BeginIs(r: Ref, b: Archive, w: Writer, packets: seq<Packet>, out: nat, stream: seq<byte>, size: nat)
    requires GoodRef(r) && Inside(r, b, w, out, stream) && Fills(b, w, packets, size)
    ensures GoodWriter(Begin(b)) && ValidProps(b.props) && Begin(b).h == b.hist && Begin(b).e == NewEncoder(b.chances)
    ensures r.props == b.props && r.compressed == w.e.count && RunOf(r).left == out
    ensures Write(Begin(b), b.props, size, packets) == Written(w)
    ensures Beside(RunOf(r), Begin(b), stream, w.e.low, r.pos + w.e.count, w.e.count)
  {
    hide Write, Beside, Lawful;
  }

  lemma StepsNone(r: Ref, stream: seq<byte>, size: nat)
    requires GoodRef(r)
    ensures Steps(r, stream, size, 0) == r
  {
  }

  lemma InsideIs(r: Ref, b: Archive, w: Writer, out: nat, stream: seq<byte>)
    requires Inside(r, b, w, out, stream)
    ensures Lawful(r) && r.phase == LzmaRun && r.compressed == w.e.count
    ensures r.props == b.props && !r.needDictReset && !r.needProps && r.prior == b.prior
  {
    hide Lawful, Beside;
  }

  lemma AdvancedIs(r: Ref, r': Ref, x: Run)
    requires Advanced(r, r', x)
    ensures Lawful(r') && r'.phase == LzmaRun && r'.props == r.props && r'.needDictReset == r.needDictReset
    ensures r'.needProps == r.needProps && r'.prior == r.prior && r'.z == At(x.z, 0) && r'.hist == x.hist
    ensures r'.uncompressed == x.left && r'.pos == x.z.c.pos && r'.compressed == r.pos + r.compressed - x.z.c.pos
  {
    hide Lawful, Live;
  }

  lemma FillsIs(b: Archive, w: Writer, packets: seq<Packet>, size: nat)
    requires Fills(b, w, packets, size)
    ensures GoodArchive(b) && GoodMemory(w.m) && Wide(w.e) && !b.needDict && !b.needProps
  {
    hide Write;
  }

  lemma EndFollows(r: Ref, b: Archive, w: Writer, y: Run, end: nat, stream: seq<byte>, size: nat)
    requires GoodArchive(b) && GoodMemory(w.m) && Lawful(r) && r.phase == LzmaRun
    requires Beside(y, w, stream, w.e.low, end, w.e.count)
    requires r.z == At(y.z, 0) && r.hist == y.hist && r.pos == y.z.c.pos && r.compressed == end - y.z.c.pos && r.uncompressed == 0
    requires r.props == b.props && !r.needDictReset && !r.needProps && r.prior == b.prior && !b.needDict && !b.needProps
    ensures Follows(Step(r, stream, size), Filled(b, w)) && Step(r, stream, size).pos == end
  {
    EndTracks(y.z.c, w.e, stream, end);
    StepIsLawful(r, stream, size);
    TracksStands(y.z.c, w.e, stream, w.e.low, end, w.e.count);
    hide Tracks, Stands, Lawful;
    assert Step(r, stream, size) == FinishStep(r);
  }

  lemma TracksStands(c: Coder, e: Encoder, input: seq<byte>, v: nat, end: nat, total: nat)
    requires Tracks(c, e, input, v, end, total)
    ensures Stands(c.probs, e.chances)
  {
    hide Stands, Value, Pow256;
  }

  /* ---- Chunks and streams ---- */

  // An LZMA chunk gives what its packets stand for.
  lemma PackedReads(r: Ref, a: Archive, reset: Reset, packets: seq<Packet>, b: Archive, w: Writer, out: nat, stream: seq<byte>, size: nat) returns (n: nat)
    requires Follows(r, a) && GoodRef(r) && Allowed(a, Packed(reset, packets)) && GoodReset(reset)
    requires b == Reset4(a, Packed(reset, packets)) && Fills(b, w, packets, size)
    requires 1 <= out <= 0x20_0000 && out == |w.h| - |b.hist| && 5 + w.e.count <= 0x1_0000
    requires LieAt(stream, r.pos, Header(reset, out, 5 + w.e.count) + Payload(w.e))
    ensures Follows(Steps(r, stream, size, n), Filled(b, w))
    ensures Steps(r, stream, size, n).pos == r.pos + |Header(reset, out, 5 + w.e.count) + Payload(w.e)|
  {
    hide *;
    FillsIs(b, w, packets, size);
    WholeHolds(b, w, packets, size);
    LieApart(stream, r.pos, Header(reset, out, 5 + w.e.count), Payload(w.e));
    var n1 := PackedHeader(r, a, reset, packets, out, 5 + w.e.count, stream, size);
    var r1 := Steps(r, stream, size, n1);
    InitReads(r1, b, w, out, stream, size);
    var r2 := Steps(r1, stream, size, 5);
    var n2 := DataEnds(r2, b, w, packets, out, stream, size);
    StepsAdd(r, stream, size, n1, 5);
    StepsAdd(r, stream, size, n1 + 5, n2);
    n := n1 + 5 + n2;
  }

  lemma NoNeeds(a: Archive, reset: Reset, packets: seq<Packet>)
    requires Allowed(a, Packed(reset, packets)) && GoodArchive(a)
    ensures var b := Reset4(a, Packed(reset, packets));
            GoodArchive(b) && !b.needDict && !b.needProps && GoodReset(reset)
  {
  }

  lemma FollowsGood(r: Ref, a: Archive)
    requires Follows(r, a)
    ensures GoodRef(r) && GoodArchive(a) && r.phase == Phase.Control && r.Out() == a.prior + a.hist
  {
  }

  // Every chunk that is not refused is read back, and decoder and writer go on alike.
  lemma ChunkReads(r: Ref, a: Archive, chunk: Chunk, stream: seq<byte>, size: nat) returns (n: nat)
    requires GoodRef(r) && GoodArchive(a) && Follows(r, a) && PutChunk(a, chunk, size).Done?
    requires LieAt(stream, r.pos, PutChunk(a, chunk, size).bytes)
    ensures Follows(Steps(r, stream, size, n), PutChunk(a, chunk, size).a)
    ensures Steps(r, stream, size, n).pos == r.pos + |PutChunk(a, chunk, size).bytes|
  {
    hide Follows, LieAt, Write, Steps, Step, Payload, Header, StoredHead, Lawful;
    match chunk
    case Stored(clean, data) =>
      n := StoredReads(r, a, clean, data, stream, size);
    case Packed(reset, packets) =>
      var b := Reset4(a, chunk);
      NoNeeds(a, reset, packets);
      var w := Write(Begin(b), b.props, size, packets).w;
      n := PackedReads(r, a, reset, packets, b, w, |w.h| - |b.hist|, stream, size);
  }

  lemma {:induction false} ChunksRead(r: Ref, a: Archive, chunks: seq<Chunk>, stream: seq<byte>, size: nat) returns (n: nat)
    requires GoodRef(r) && GoodArchive(a) && Follows(r, a) && PutChunks(a, chunks, size).Done?
    requires LieAt(stream, r.pos, PutChunks(a, chunks, size).bytes)
    ensures Follows(Steps(r, stream, size, n), PutChunks(a, chunks, size).a)
    ensures Steps(r, stream, size, n).pos == r.pos + |PutChunks(a, chunks, size).bytes|
    decreases chunks
  {
    hide Follows, LieAt, Step, PutChunk, GoodRef, GoodArchive;
    n := 0;
    if chunks != [] {
      var k := |chunks| - 1;
      var before := PutChunks(a, chunks[..k], size);
      var more := PutChunk(before.a, chunks[k], size);
      LieApart(stream, r.pos, before.bytes, more.bytes);
      hide Steps, PutChunks;
      var m := ChunksRead(r, a, chunks[..k], stream, size);
      var r1 := Steps(r, stream, size, m);
      FollowsGood(r1, before.a);
      n := ChunkReads(r1, before.a, chunks[k], stream, size);
      StepsAdd(r, stream, size, m, n);
      n := m + n;
    }
  }

  // Whatever is written is decoded to its contents, from any state that an earlier stream may
  // have left, and up to the last byte.
  lemma StreamReads(chunks: seq<Chunk>, size: nat, stream: seq<byte>, contents: seq<byte>, z: Lzma, needProps: bool) returns (n: nat)
    requires Writes(chunks, size, stream, contents) && Good(z) && z.c.pos == 0
    ensures var r := Steps(Start(z, needProps), stream, size, n);
            r.phase == Ended && r.Out() == contents && r.pos == |stream|
  {
    var r := Start(z, needProps);
    var w := PutChunks(NEW_ARCHIVE, chunks, size);
    StartFollows(z, needProps);
    FollowsGood(r, NEW_ARCHIVE);
    assert LieAt(stream, 0, w.bytes);
    hide PutChunks, Steps, Follows, LieAt;
    n := ChunksRead(r, NEW_ARCHIVE, chunks, stream, size);
    var r1 := Steps(r, stream, size, n);
    FollowsGood(r1, w.a);
    StepControl(r1, stream, size, 0);
    StepsNext(r, stream, size, n);
    n := n + 1;
  }

  /* ---- Everything can be written ---- */

  // Stored chunks alone are enough, the first one with a dictionary reset.
  function Storing(data: seq<byte>): seq<Chunk>
    decreases |data|
  {
    if data == [] then []
    else if |data| <= 0x1_0000 then [Stored(true, data)]
    else Storing(data[..|data| - 0x1_0000]) + [Stored(false, data[|data| - 0x1_0000..])]
  }

  lemma {:induction false} StoringWrites(data: seq<byte>, size: nat)
    ensures var r := PutChunks(NEW_ARCHIVE, Storing(data), size);
            r.Done? && r.a.prior == [] && r.a.hist == data && (data != [] ==> !r.a.needDict)
    decreases |data|
  {
    hide Header, Payload;
    if data == [] {
    } else if |data| <= 0x1_0000 {
      assert Storing(data)[..0] == [];
      assert PutChunks(NEW_ARCHIVE, [], size) == Done(NEW_ARCHIVE, []);
    } else {
      var k := |data| - 0x1_0000;
      StoringWrites(data[..k], size);
      assert Storing(data)[..|Storing(data)| - 1] == Storing(data[..k]);
      assert data[..k] + data[k..] == data;
    }
  }
}
