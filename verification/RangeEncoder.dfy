// A writer's side of the range coder: the adaptive contexts of LZMA by name, an encoder on
// whole numbers, and the proof that the decoder reads back every choice that was encoded.
module LzmaContexts {
  import opened Words
  import opened RangeCoder
  import opened LzmaSymbols

  // The trees of modelled bits: distance slots by length, low bits of a distance by slot, the
  // lowest four bits of a long distance, three kinds of length, and literals.
  datatype Tree =
    | SlotTree(lens: nat) | SpecialTree(slot: nat) | AlignTree
    | LowTree(rep: bool, pos: nat) | MidTree(rep: bool, pos: nat) | HighTree(rep: bool)
    | LiteralTree(coder: nat)

  // Everything that has a probability of its own.
  datatype Context =
    | IsMatch(state: nat, pos: nat) | IsRep(state: nat) | IsRep0(state: nat) | IsRep1(state: nat) | IsRep2(state: nat)
    | IsRep0Long(state: nat, pos: nat) | LenChoice(rep: bool) | LenChoice2(rep: bool) | Node(tree: Tree, node: nat)

  function TreeSize(t: Tree): nat {
    match t
    case SlotTree(_) => 64
    case SpecialTree(slot) => Pow2(slot / 2) / 2
    case AlignTree => 16
    case LowTree(_, _) => 8
    case MidTree(_, _) => 8
    case HighTree(_) => 256
    case LiteralTree(_) => 0x300
  }

  predicate KnownTree(t: Tree) {
    match t
    case SlotTree(lens) => lens < 4
    case SpecialTree(slot) => 4 <= slot < 14
    case LowTree(_, pos) => pos < 16
    case MidTree(_, pos) => pos < 16
    case LiteralTree(coder) => coder < 16
    case _ => true
  }

  predicate Known(x: Context) {
    match x
    case IsMatch(state, pos) => state < STATES && pos < 16
    case IsRep0Long(state, pos) => state < STATES && pos < 16
    case IsRep(state) => state < STATES
    case IsRep0(state) => state < STATES
    case IsRep1(state) => state < STATES
    case IsRep2(state) => state < STATES
    case LenChoice(_) => true
    case LenChoice2(_) => true
    case Node(t, node) => KnownTree(t) && 1 <= node < TreeSize(t)
  }

  type Ctx = x: Context | Known(x) witness IsRep(0)

  function LenTable(rep: bool): nat {
    if rep then REP_LEN else MATCH_LEN
  }

  // Where the decoder keeps the root's parent of a tree; node n is n places on.
  function TreeBase(t: Tree): int {
    match t
    case SlotTree(lens) => DIST_SLOT + 64 * lens
    case SpecialTree(slot) => if slot < 2 then 0 else DIST_SPECIAL + (2 + slot % 2) * Pow2(slot / 2 - 1) - slot - 1
    case AlignTree => DIST_ALIGN
    case LowTree(rep, pos) => LenTable(rep) + 2 + 8 * pos
    case MidTree(rep, pos) => LenTable(rep) + 130 + 8 * pos
    case HighTree(rep) => LenTable(rep) + 258
    case LiteralTree(coder) => LITERAL + LITERAL_CODER_SIZE * coder
  }

  // Where the decoder keeps a probability.
  function Place(x: Context): int {
    match x
    case IsMatch(state, pos) => IS_MATCH + 16 * state + pos
    case IsRep(state) => IS_REP + state
    case IsRep0(state) => IS_REP0 + state
    case IsRep1(state) => IS_REP1 + state
    case IsRep2(state) => IS_REP2 + state
    case IsRep0Long(state, pos) => IS_REP0_LONG + 16 * state + pos
    case LenChoice(rep) => LenTable(rep)
    case LenChoice2(rep) => LenTable(rep) + 1
    case Node(t, node) => TreeBase(t) + node
  }

  /* ---- No two contexts share a place ---- */

  // The tables in the order they lie in, and where each of them starts.
  function Rank(x: Context): nat {
    match x
    case IsMatch(_, _) => 0
    case IsRep(_) => 1
    case IsRep0(_) => 2
    case IsRep1(_) => 3
    case IsRep2(_) => 4
    case IsRep0Long(_, _) => 5
    case LenChoice(rep) => if rep then 14 else 9
    case LenChoice2(rep) => if rep then 15 else 10
    case Node(t, _) =>
      match t
      case SlotTree(_) => 6
      case SpecialTree(_) => 7
      case AlignTree => 8
      case LowTree(rep, _) => if rep then 16 else 11
      case MidTree(rep, _) => if rep then 17 else 12
      case HighTree(rep) => if rep then 18 else 13
      case LiteralTree(_) => 19
  }

  const STARTS := [0, 192, 204, 216, 228, 240, 432, 688, 802, 818, 819, 820, 948, 1076, 1332, 1333, 1334, 1462, 1590, 1846, 14134]

  lemma StartsAscend(r: nat, s: nat)
    requires r < s < 20
    ensures STARTS[r + 1] <= STARTS[s]
    decreases s
  {
    if r + 1 < s { StartsAscend(r, s - 1); }
  }

  // The ten trees for the low bits of a distance lie one behind the other.
  lemma SpecialTable(slot: nat)
    requires 4 <= slot < 14
    ensures TreeSize(SpecialTree(slot)) == if slot < 6 then 2 else if slot < 8 then 4 else if slot < 10 then 8 else if slot < 12 then 16 else 32
    ensures TreeBase(SpecialTree(slot)) - DIST_SPECIAL ==
              [-1, 0, 1, 4, 7, 14, 21, 36, 51, 82][slot - 4]
  {
    PowersTable();
    if slot < 6 {} else if slot < 8 {} else if slot < 10 {} else if slot < 12 {} else {}
  }

  lemma InTable(x: Context)
    requires Known(x)
    ensures STARTS[Rank(x)] <= Place(x) < STARTS[Rank(x) + 1]
    ensures 0 <= Place(x) < PROBS_TOTAL
  {
    hide Pow2;
    if x.Node? && x.tree.SpecialTree? {
      SpecialTable(x.tree.slot);
    }
  }

  lemma OnePlace(x: Context, y: Context)
    requires Known(x) && Known(y) && Place(x) == Place(y)
    ensures x == y
  {
    InTable(x);
    InTable(y);
    if Rank(x) < Rank(y) {
      StartsAscend(Rank(x), Rank(y));
    } else if Rank(y) < Rank(x) {
      StartsAscend(Rank(y), Rank(x));
    } else {
      SameTable(x, y);
    }
  }

  lemma SameTable(x: Context, y: Context)
    requires Known(x) && Known(y) && Place(x) == Place(y) && Rank(x) == Rank(y)
    ensures x == y
  {
    hide Pow2;
    if x.Node? {
      SameTree(x.tree, x.node, y.tree, y.node);
    }
  }

  lemma SameTree(t: Tree, m: nat, u: Tree, n: nat)
    requires KnownTree(t) && 1 <= m < TreeSize(t) && KnownTree(u) && 1 <= n < TreeSize(u)
    requires Rank(Node(t, m)) == Rank(Node(u, n)) && TreeBase(t) + m == TreeBase(u) + n
    ensures t == u && m == n
  {
    hide Pow2;
    if t.SpecialTree? {
      SpecialTable(t.slot);
      SpecialTable(u.slot);
      hide TreeBase, TreeSize;
    }
  }

  /* ---- Probabilities by name ---- */

  // A context that has not been used yet is even.
  function Chance(m: map<Ctx, Prob>, x: Ctx): Prob {
    if x in m then m[x] else 1024
  }

  // The decoder's table holds the same probabilities.
  ghost predicate Stands(probs: seq<Prob>, m: map<Ctx, Prob>) {
    && |probs| == PROBS_TOTAL
    && (forall x: Ctx :: 0 <= Place(x) < PROBS_TOTAL && probs[Place(x)] == Chance(m, x))
  }

  lemma StandsFresh(probs: seq<Prob>)
    requires |probs| == PROBS_TOTAL && (forall i :: 0 <= i < PROBS_TOTAL ==> probs[i] == 1024)
    ensures Stands(probs, map[])
  {
    hide Place;
    forall x: Ctx
      ensures 0 <= Place(x) < PROBS_TOTAL && probs[Place(x)] == Chance(map[], x)
    {
      InTable(x);
    }
  }

  lemma StandsAt(probs: seq<Prob>, m: map<Ctx, Prob>, x: Ctx)
    requires Stands(probs, m)
    ensures 0 <= Place(x) < |probs| && probs[Place(x)] == Chance(m, x)
  {
    hide Place;
  }

  lemma StandsUpdate(probs: seq<Prob>, m: map<Ctx, Prob>, x: Ctx, p: Prob)
    requires Stands(probs, m) && 0 <= Place(x) < |probs|
    ensures Stands(probs[Place(x) := p], m[x := p])
  {
    hide Place;
    forall y: Ctx
      ensures 0 <= Place(y) < PROBS_TOTAL && probs[Place(x) := p][Place(y)] == Chance(m[x := p], y)
    {
      assert probs[Place(y)] == Chance(m, y);
      if Place(x) == Place(y) {
        OnePlace(x, y);
      }
    }
  }
}

module RangeEncoder {
  import opened Words
  import opened RangeCoder
  import opened LzmaContexts

  // What is encoded: a bit with a context, or a bit that is even either way.
  datatype Choice = Modelled(ctx: Ctx, bit: bool) | Equal(bit: bool)

  // The interval that stands for everything encoded so far: from low on, range long, in units
  // of which count bytes' worth have been split off below those of the first four bytes.
  datatype Encoder = Encoder(low: nat, range: u32, count: nat, chances: map<Ctx, Prob>)

  ghost predicate Wide(e: Encoder) {
    MIN_RANGE <= e.range
  }

  function NewEncoder(chances: map<Ctx, Prob>): (e: Encoder)
    ensures Wide(e)
  {
    Encoder(0, 0xFFFF_FFFF, 0, chances)
  }

  // A range that has become narrow is measured in smaller units.
  function Settle(e: Encoder): (r: Encoder)
    requires Wide(e)
    ensures Wide(r) && TOP_VALUE <= r.range
  {
    if e.range < 0x100_0000 then e.(low := 256 * e.low, range := 256 * e.range, count := e.count + 1) else e
  }

  // The lower part of the interval for a 0, the upper part for a 1; the context learns.
  function Split(e: Encoder, choice: Choice): (r: Encoder)
    requires TOP_VALUE <= e.range
    ensures Wide(r)
  {
    match choice
    case Modelled(x, bit) =>
      var p := Chance(e.chances, x);
      var part := e.range / 2048 * p;
      assert part == Bound(e.range, p);
      if bit then
        Encoder(e.low + part, e.range - part, e.count, e.chances[x := p - p / 32])
      else
        Encoder(e.low, part, e.count, e.chances[x := p + (2048 - p) / 32])
    case Equal(bit) =>
      Encoder(if bit then e.low + e.range / 2 else e.low, e.range / 2, e.count, e.chances)
  }

  function Put(e: Encoder, choice: Choice): (r: Encoder)
    requires Wide(e)
    ensures Wide(r)
  {
    Split(Settle(e), choice)
  }

  function PutAll(e: Encoder, choices: seq<Choice>): (r: Encoder)
    requires Wide(e)
    ensures Wide(r)
    decreases choices
  {
    if choices == [] then e else PutAll(Put(e, choices[0]), choices[1..])
  }

  /* ---- Numbers and their bytes, most significant first ---- */

  function Pow256(n: nat): (r: nat)
    ensures 0 < r
  {
    if n == 0 then 1 else 256 * Pow256(n - 1)
  }

  function Value(s: seq<byte>): nat {
    if s == [] then 0 else 256 * Value(s[..|s| - 1]) + s[|s| - 1]
  }

  function Bytes(v: nat, n: nat): (s: seq<byte>)
    ensures |s| == n
  {
    if n == 0 then [] else Bytes(v / 256, n - 1) + [v % 256]
  }

  lemma {:induction false} BytesValue(v: nat, n: nat)
    requires v < Pow256(n)
    ensures Value(Bytes(v, n)) == v
    decreases n
  {
    if n > 0 {
      BytesValue(v / 256, n - 1);
      assert Bytes(v, n)[..n - 1] == Bytes(v / 256, n - 1);
    }
  }

  lemma {:induction false} ValueHead(s: seq<byte>)
    requires s != []
    ensures Value(s) == s[0] * Pow256(|s| - 1) + Value(s[1..])
    decreases |s|
  {
    if |s| > 1 {
      var t := s[..|s| - 1];
      ValueHead(t);
      assert s[1..][..|s| - 2] == t[1..];
      var p := Pow256(|s| - 2);
      assert 256 * (s[0] * p) == s[0] * (256 * p);
    }
  }

  lemma {:induction false} ValueBound(s: seq<byte>)
    ensures Value(s) < Pow256(|s|)
  {
    if s != [] {
      ValueBound(s[..|s| - 1]);
    }
  }

  /* ---- Intervals lie within one another ---- */

  // v lies in the interval when it is written with total bytes below the first four.
  ghost predicate Holds(e: Encoder, v: nat, total: nat) {
    && e.count <= total
    && e.low * Pow256(total - e.count) <= v < (e.low + e.range) * Pow256(total - e.count)
  }

  lemma HoldsSettled(e: Encoder, v: nat, total: nat)
    requires Wide(e) && Holds(Settle(e), v, total)
    ensures Holds(e, v, total)
  {
    if e.range < TOP_VALUE {
      var p := Pow256(total - e.count - 1);
      assert (256 * e.low) * p == e.low * (256 * p);
      assert (256 * e.low + 256 * e.range) * p == (e.low + e.range) * (256 * p);
    }
  }

  lemma HoldsSplit(e: Encoder, choice: Choice, v: nat, total: nat)
    requires TOP_VALUE <= e.range && Holds(Split(e, choice), v, total)
    ensures Holds(e, v, total)
  {
    var f := Split(e, choice);
    assert f.count == e.count && e.low <= f.low && f.low + f.range <= e.low + e.range by {
      if choice.Modelled? {
        var p := Chance(e.chances, choice.ctx);
        assert Bound(e.range, p) == e.range / 2048 * p;
      }
    }
    hide Split;
    MulMonotone(Pow256(total - e.count), e.low, f.low);
    MulMonotone(Pow256(total - e.count), f.low + f.range, e.low + e.range);
  }

  lemma HoldsPut(e: Encoder, choice: Choice, v: nat, total: nat)
    requires Wide(e) && Holds(Put(e, choice), v, total)
    ensures Holds(Settle(e), v, total) && Holds(e, v, total)
  {
    hide Split, Settle, Holds;
    HoldsSplit(Settle(e), choice, v, total);
    HoldsSettled(e, v, total);
  }

  lemma {:induction false} HoldsAll(e: Encoder, choices: seq<Choice>, v: nat, total: nat)
    requires Wide(e) && Holds(PutAll(e, choices), v, total)
    ensures Holds(e, v, total)
    decreases choices
  {
    hide Put, Holds;
    if choices != [] {
      HoldsAll(Put(e, choices[0]), choices[1..], v, total);
      HoldsPut(e, choices[0], v, total);
    }
  }

  /* ---- The decoder's side of a choice ---- */

  function Read(c: Coder, choice: Choice, input: seq<byte>): (r: (Coder, bool))
    requires Sound(c)
    ensures Sound(r.0) && c.pos <= r.0.pos
  {
    match choice
    case Modelled(x, _) =>
      InTable(x);
      DecodeBit(c, Place(x), input)
    case Equal(_) => SplitDirect(Normalize(c, input))
  }

  // Read bit by bit, the input gives these choices.
  ghost predicate Carries(c: Coder, input: seq<byte>, choices: seq<Choice>)
    requires Sound(c)
    decreases choices
  {
    choices == [] ||
    (var (c1, bit) := Read(c, choices[0], input);
     bit == choices[0].bit && Carries(c1, input, choices[1..]))
  }

  ghost function After(c: Coder, input: seq<byte>, choices: seq<Choice>): (r: Coder)
    requires Sound(c)
    ensures Sound(r) && c.pos <= r.pos
    decreases choices
  {
    if choices == [] then c else After(Read(c, choices[0], input).0, input, choices[1..])
  }

  lemma CarriesNone(c: Coder, input: seq<byte>)
    requires Sound(c)
    ensures Carries(c, input, []) && After(c, input, []) == c
  {
  }

  lemma CarriesOne(c: Coder, input: seq<byte>, choice: Choice, rest: seq<Choice>)
    requires Sound(c)
    ensures var (c1, bit) := Read(c, choice, input);
            && (Carries(c, input, [choice] + rest) <==> bit == choice.bit && Carries(c1, input, rest))
            && After(c, input, [choice] + rest) == After(c1, input, rest)
  {
    hide Read;
    assert ([choice] + rest)[1..] == rest;
  }

  lemma {:induction false} CarriesMore(c: Coder, input: seq<byte>, a: seq<Choice>, b: seq<Choice>)
    requires Sound(c)
    ensures Carries(c, input, a + b) <==> Carries(c, input, a) && Carries(After(c, input, a), input, b)
    ensures After(c, input, a + b) == After(After(c, input, a), input, b)
    decreases a
  {
    hide Read;
    if a == [] {
      assert a + b == b;
    } else {
      assert (a + b)[1..] == a[1..] + b;
      CarriesMore(Read(c, a[0], input).0, input, a[1..], b);
    }
  }

  /* ---- What was encoded is read back ---- */

  // The decoder at c knows what the encoder knew at e: its code is how far v lies above low.
  ghost predicate Tracks(c: Coder, e: Encoder, input: seq<byte>, v: nat, end: nat, total: nat) {
    && Sound(c) && c.range == e.range && Stands(c.probs, e.chances)
    && c.pos <= end <= |input| && total == e.count + (end - c.pos)
    && c.code * Pow256(end - c.pos) + Value(input[c.pos..end]) == v - e.low * Pow256(end - c.pos)
  }

  // How far v lies above low, in terms of one byte less.
  lemma CodeBelow(code: nat, low: nat, part: nat, p: nat, tail: nat, v: nat)
    requires 0 < p && tail < p && code * p + tail == v - low * p
    ensures code < part <==> v < (low + part) * p
  {
    assert (low + part) * p == low * p + part * p;
    if code < part {
      MulMonotone(p, code + 1, part);
      assert (code + 1) * p == code * p + p;
    } else {
      MulMonotone(p, part, code);
    }
  }

  lemma TracksBelow(c: Coder, e: Encoder, input: seq<byte>, v: nat, end: nat, total: nat)
    requires Tracks(c, e, input, v, end, total) && Holds(e, v, total)
    ensures c.code < c.range
  {
    hide Stands;
    ValueBound(input[c.pos..end]);
    CodeBelow(c.code, e.low, e.range, Pow256(end - c.pos), Value(input[c.pos..end]), v);
  }

  lemma TracksSettled(c: Coder, e: Encoder, input: seq<byte>, v: nat, end: nat, total: nat)
    requires Wide(e) && Tracks(c, e, input, v, end, total) && Holds(Settle(e), v, total)
    ensures Tracks(Normalize(c, input), Settle(e), input, v, end, total)
  {
    hide Stands;
    HoldsSettled(e, v, total);
    TracksBelow(c, e, input, v, end, total);
    if c.range < TOP_VALUE {
      var tail := input[c.pos..end];
      ValueHead(tail);
      assert tail[1..] == input[c.pos + 1..end];
      ShiftedCode(c.code, tail[0], e.low, Pow256(end - c.pos - 1), Value(tail[1..]), v);
    }
  }

  lemma ShiftedCode(code: nat, b: nat, low: nat, p: nat, tail: nat, v: nat)
    requires code * (256 * p) + (b * p + tail) == v - low * (256 * p)
    ensures (code * 256 + b) * p + tail == v - (256 * low) * p
  {
    assert (code * 256 + b) * p == code * (256 * p) + b * p;
    assert (256 * low) * p == low * (256 * p);
  }

  lemma MovedCode(code: nat, low: nat, part: nat, p: nat, tail: nat, v: nat)
    requires code * p + tail == v - low * p && part <= code
    ensures (code - part) * p + tail == v - (low + part) * p
  {
    assert (code - part) * p == code * p - part * p;
    assert (low + part) * p == low * p + part * p;
  }

  // The two sides split the interval at the same place.
  lemma TracksModelled(c: Coder, e: Encoder, x: Ctx, bit: bool, input: seq<byte>, v: nat, end: nat, total: nat)
    requires Tracks(c, e, input, v, end, total) && TOP_VALUE <= c.range
    requires Holds(Split(e, Modelled(x, bit)), v, total)
    ensures 0 <= Place(x) < PROBS_TOTAL
    ensures SplitBit(c, Place(x)).1 == bit
    ensures Tracks(SplitBit(c, Place(x)).0, Split(e, Modelled(x, bit)), input, v, end, total)
  {
    hide Stands, Place, Pow256, Value;
    StandsAt(c.probs, e.chances, x);
    var p := Chance(e.chances, x);
    var part := Bound(c.range, p);
    var w, tail := Pow256(end - c.pos), Value(input[c.pos..end]);
    ValueBound(input[c.pos..end]);
    CodeBelow(c.code, e.low, part, w, tail, v);
    StandsUpdate(c.probs, e.chances, x, Adapt(p, bit));
    if bit {
      MovedCode(c.code, e.low, part, w, tail, v);
    }
  }

  lemma TracksEqual(c: Coder, e: Encoder, bit: bool, input: seq<byte>, v: nat, end: nat, total: nat)
    requires Tracks(c, e, input, v, end, total) && TOP_VALUE <= c.range && Holds(e, v, total)
    requires Holds(Split(e, Equal(bit)), v, total)
    ensures SplitDirect(c).1 == bit
    ensures Tracks(SplitDirect(c).0, Split(e, Equal(bit)), input, v, end, total)
  {
    TracksBelow(c, e, input, v, end, total);
    hide Stands, Pow256, Value;
    DirectIsCompareSubtract(c);
    hide SplitDirect;
    var half := c.range / 2;
    var w, tail := Pow256(end - c.pos), Value(input[c.pos..end]);
    ValueBound(input[c.pos..end]);
    CodeBelow(c.code, e.low, half, w, tail, v);
    if bit {
      MovedCode(c.code, e.low, half, w, tail, v);
    }
    DirectKeeps(c);
  }

  lemma DirectKeeps(c: Coder)
    requires Sound(c) && TOP_VALUE <= c.range
    ensures var r := SplitDirect(c).0;
            r.range == c.range / 2 && r.pos == c.pos && r.probs == c.probs
  {
  }

  lemma TracksPut(c: Coder, e: Encoder, choice: Choice, input: seq<byte>, v: nat, end: nat, total: nat)
    requires Wide(e) && Tracks(c, e, input, v, end, total) && Holds(Put(e, choice), v, total)
    ensures Read(c, choice, input).1 == choice.bit
    ensures Tracks(Read(c, choice, input).0, Put(e, choice), input, v, end, total)
  {
    HoldsPut(e, choice, v, total);
    TracksSettled(c, e, input, v, end, total);
    NormalizedRange(c, e, input, v, end, total);
    hide Tracks, Holds, Settle, Split, Normalize, SplitBit, SplitDirect, Place;
    match choice
    case Modelled(x, bit) => TracksModelled(Normalize(c, input), Settle(e), x, bit, input, v, end, total);
    case Equal(bit) => TracksEqual(Normalize(c, input), Settle(e), bit, input, v, end, total);
  }

  lemma NormalizedRange(c: Coder, e: Encoder, input: seq<byte>, v: nat, end: nat, total: nat)
    requires Wide(e) && Tracks(c, e, input, v, end, total)
    ensures Sound(c) && TOP_VALUE <= Normalize(c, input).range
  {
    hide Stands, Pow256, Value;
  }

  // Whatever choices were encoded, and whatever was encoded behind them: the decoder reads
  // them back, and knows again what the encoder knew then.
  lemma {:induction false} EncodedIsRead(c: Coder, e: Encoder, choices: seq<Choice>, input: seq<byte>, v: nat, end: nat, total: nat)
    requires Wide(e) && Tracks(c, e, input, v, end, total) && Holds(PutAll(e, choices), v, total)
    ensures Sound(c) && Carries(c, input, choices)
    ensures Tracks(After(c, input, choices), PutAll(e, choices), input, v, end, total)
    decreases choices
  {
    assert Sound(c) by { hide Stands, Pow256, Value; }
    hide Tracks, Holds, Put, Read;
    if choices != [] {
      HoldsAll(Put(e, choices[0]), choices[1..], v, total);
      TracksPut(c, e, choices[0], input, v, end, total);
      EncodedIsRead(Read(c, choices[0], input).0, Put(e, choices[0]), choices[1..], input, v, end, total);
    }
  }

  /* ---- From the first byte to the last ---- */

  // What is written: a byte that is not looked at, and low.
  function Payload(e: Encoder): (s: seq<byte>)
    ensures |s| == 5 + e.count
  {
    [0] + Bytes(e.low, 4 + e.count)
  }

  lemma {:induction false} ValueSplit(a: seq<byte>, b: seq<byte>)
    ensures Value(a + b) == Value(a) * Pow256(|b|) + Value(b)
    decreases |b|
  {
    if b == [] {
      assert a + b == a;
    } else {
      var b' := b[..|b| - 1];
      ValueSplit(a, b');
      assert (a + b)[..|a + b| - 1] == a + b';
      assert 256 * (Value(a) * Pow256(|b'|)) == Value(a) * (256 * Pow256(|b'|));
    }
  }

  lemma PayloadIs(e: Encoder, input: seq<byte>, at: nat)
    requires at + 5 + e.count <= |input| && input[at..at + 5 + e.count] == Payload(e)
    ensures input[at + 1..at + 5 + e.count] == Bytes(e.low, 4 + e.count)
  {
    var end := at + 5 + e.count;
    assert input[at..end][1..] == Payload(e)[1..];
    assert input[at..end][1..] == input[at + 1..end];
  }

  // The four bytes behind the first one give the code to start with.
  lemma StartValue(e: Encoder, input: seq<byte>, at: nat)
    requires e.low < 0xFFFF_FFFF * Pow256(e.count)
    requires at + 5 + e.count <= |input| && input[at..at + 5 + e.count] == Payload(e)
    ensures Value(input[at + 1..at + 5]) * Pow256(e.count) + Value(input[at + 5..at + 5 + e.count]) == e.low
  {
    var end := at + 5 + e.count;
    FourBytes(e.count);
    PayloadIs(e, input, at);
    BytesValue(e.low, 4 + e.count);
    hide Bytes, Pow256, Value;
    SliceJoin(input, at + 1, at + 5, end);
    ValueSplit(input[at + 1..at + 5], input[at + 5..end]);
  }

  lemma StartTracks(e: Encoder, chances: map<Ctx, Prob>, c: Coder, input: seq<byte>, at: nat)
    requires Wide(e) && Holds(NewEncoder(chances), e.low, e.count)
    requires at + 5 + e.count <= |input| && input[at..at + 5 + e.count] == Payload(e)
    requires Sound(c) && c.range == 0xFFFF_FFFF && Stands(c.probs, chances) && c.pos == at + 5
    requires c.code == Value(input[at + 1..at + 5])
    ensures Tracks(c, NewEncoder(chances), input, e.low, at + 5 + e.count, e.count)
  {
    hide Stands, Pow256, Value, Payload;
    StartValue(e, input, at);
  }

  lemma FourBytes(n: nat)
    ensures Pow256(4 + n) == 0x1_0000_0000 * Pow256(n)
  {
    assert Pow256(4 + n) == 256 * Pow256(3 + n);
    assert Pow256(3 + n) == 256 * Pow256(2 + n);
    assert Pow256(2 + n) == 256 * Pow256(1 + n);
  }

  // At the end nothing is left of low.
  lemma EndTracks(c: Coder, e: Encoder, input: seq<byte>, end: nat)
    requires Tracks(c, e, input, e.low, end, e.count)
    ensures c.pos == end && c.code == 0
  {
    hide Stands;
    assert c.pos == end;
    assert input[c.pos..end] == [];
  }

  lemma EndHolds(e: Encoder)
    requires Wide(e)
    ensures Holds(e, e.low, e.count)
  {
  }
}
