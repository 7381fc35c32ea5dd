// LZMA packets as a writer sees them: literals, matches and repeats of one of the last four
// distances, each a list of choices for the range encoder. The symbol decoder gives back every
// packet, with its effect on the history, the last distances and the state.
module LzmaPackets {
  import opened Words
  import opened RangeCoder
  import opened LzmaSymbols
  import opened LzmaContexts
  import opened RangeEncoder

  // Distances are counted from 0: a match at distance 0 repeats the last byte.
  datatype Packet = Lit(b: byte) | Match(dist: u32, len: nat) | ShortRep | Rep(k: nat, len: nat)

  // What a writer has to remember: the state, and the last four distances, the latest first.
  datatype Memory = Memory(state: nat, reps: seq<u32>)

  ghost predicate GoodMemory(m: Memory) {
    m.state < STATES && |m.reps| == 4
  }

  const NEW_MEMORY := Memory(0, [0, 0, 0, 0])

  /* ---- What packets mean ---- */

  // The k-th distance comes to the front, the others stay in their order.
  function MoveToFront(reps: seq<u32>, k: nat): seq<u32>
    requires k < |reps|
  {
    [reps[k]] + reps[..k] + reps[k + 1..]
  }

  // len bytes from distance dist on; what lies beyond the end is what has been copied before.
  function Copied(h: seq<byte>, dist: nat, len: nat): (r: seq<byte>)
    requires dist < |h|
    ensures |r| == len
  {
    seq(len, i requires 0 <= i => h[|h| - 1 - dist + i % (dist + 1)])
  }

  // The states, by what the last packets were.
  const AFTER_LITERAL := [0, 0, 0, 0, 1, 2, 3, 4, 5, 6, 4, 5]

  function NextState(state: nat, p: Packet): (r: nat)
    requires state < STATES
    ensures r < STATES
  {
    match p
    case Lit(_) => AFTER_LITERAL[state]
    case Match(_, _) => if state <= 6 then 7 else 10
    case Rep(_, _) => if state <= 6 then 8 else 11
    case ShortRep => if state <= 6 then 9 else 11
  }

  function NextReps(reps: seq<u32>, p: Packet): (r: seq<u32>)
    requires |reps| == 4
    ensures |r| == 4
  {
    match p
    case Match(dist, _) => [dist] + reps[..3]
    case Rep(k, _) => if k < 4 then MoveToFront(reps, k) else reps
    case _ => reps
  }

  function NextMemory(m: Memory, p: Packet): (r: Memory)
    requires GoodMemory(m)
    ensures GoodMemory(r)
  {
    Memory(NextState(m.state, p), NextReps(m.reps, p))
  }

  function Length(p: Packet): nat {
    match p
    case Lit(_) => 1
    case ShortRep => 1
    case Match(_, len) => len
    case Rep(_, len) => len
  }

  // A packet that can be written: lengths from 2 to 273, distances within the history and the
  // dictionary.
  ghost predicate Sensible(p: Packet, m: Memory, h: seq<byte>, size: nat)
    requires GoodMemory(m)
  {
    && (p.Rep? ==> p.k < 4)
    && (p.Match? || p.Rep? ==> 2 <= Length(p) <= 273)
    && (!p.Lit? ==> NextReps(m.reps, p)[0] < Min(|h|, size))
  }

  function NextHistory(p: Packet, m: Memory, h: seq<byte>): (r: seq<byte>)
    requires GoodMemory(m) && (!p.Lit? ==> NextReps(m.reps, p)[0] < |h|)
    ensures h <= r && |r| == |h| + Length(p)
  {
    match p
    case Lit(b) => h + [b]
    case _ => h + Copied(h, NextReps(m.reps, p)[0], Length(p))
  }

  /* ---- The choices for a number ---- */

  // A number without its lowest n bits.
  function Top(v: nat, n: nat): nat {
    hide Pow2;
    v / Pow2(n)
  }

  lemma QuotientIs(v: nat, d: nat, q: nat, r: nat)
    requires 0 < d && v == d * q + r && r < d
    ensures v / d == q && v % d == r
  {
    var q', r' := v / d, v % d;
    assert v == d * q' + r';
    assert d * (q + 1) == d * q + d && d * (q' + 1) == d * q' + d;
    if q < q' {
      MulMonotone(d, q + 1, q');
    } else if q' < q {
      MulMonotone(d, q' + 1, q);
    }
  }

  lemma Halved(v: nat, p: nat, q: nat, r: nat)
    requires 0 < p && v == p * q + r && r < p
    ensures v / (2 * p) == q / 2
  {
    var a, b := q / 2, q % 2;
    assert p * q == (2 * p) * a + p * b by {
      assert q == 2 * a + b;
      assert p * (2 * a + b) == (2 * p) * a + p * b;
    }
    assert p * b <= p by { if b == 0 {} else {} }
    QuotientIs(v, 2 * p, a, p * b + r);
  }

  lemma TopNone(v: nat)
    ensures Top(v, 0) == v
  {
    assert Pow2(0) == 1;
  }

  // On the way down a tree one bit after the other comes in.
  lemma TopStep(v: nat, n: nat)
    requires 0 < n
    ensures Top(v, n) == Top(v, n - 1) / 2
  {
    assert Pow2(n) == 2 * Pow2(n - 1);
    hide Pow2;
    var p := Pow2(n - 1);
    assert v == p * (v / p) + v % p;
    Halved(v, p, v / p, v % p);
  }

  lemma NodeFits(v: nat, count: nat)
    requires 0 < count && Pow2(count) <= v
    ensures 1 <= Top(v, count) <= v / 2 && Pow2(count - 1) <= v
    ensures Top(v, count) == Top(v, count - 1) / 2
  {
    TopStep(v, count);
    var p := Pow2(count - 1);
    var q := v / p;
    assert v == p * q + v % p;
    if q < 2 {
      MulMonotone(p, q, 1);
    }
    MulMonotone(q, 1, p);
    assert q * 1 <= q * p;
  }

  // From the most significant bit on: v with its leading 1 is the number of the leaf.
  function TreeChoices(t: Tree, v: nat, count: nat): (r: seq<Choice>)
    requires KnownTree(t) && Pow2(count) <= v < 2 * TreeSize(t)
    decreases count
  {
    hide Pow2, TreeSize, Top;
    if count == 0 then
      []
    else
      NodeFits(v, count);
      [Modelled(Node(t, Top(v, count)), Top(v, count - 1) % 2 == 1)] + TreeChoices(t, v, count - 1)
  }

  // From the least significant bit on, as far as count bits.
  function ReverseChoices(t: Tree, node: nat, v: nat, count: nat): (r: seq<Choice>)
    requires KnownTree(t) && 1 <= node && (node + 1) * Pow2(count) <= 2 * TreeSize(t)
    decreases count
  {
    hide TreeSize;
    if count == 0 then
      []
    else
      ReverseFits(node, v % 2, count);
      [Modelled(Node(t, node), v % 2 == 1)] + ReverseChoices(t, 2 * node + v % 2, v / 2, count - 1)
  }

  lemma ReverseFits(node: nat, bit: nat, count: nat)
    requires 0 < count && bit < 2
    ensures (2 * node + bit + 1) * Pow2(count - 1) <= (node + 1) * Pow2(count)
    ensures 2 * (node + 1) <= (node + 1) * Pow2(count)
  {
    var p := Pow2(count - 1);
    assert (node + 1) * Pow2(count) == (2 * node + 2) * p;
    MulMonotone(p, 2 * node + bit + 1, 2 * node + 2);
    MulMonotone(2 * node + 2, 1, p);
  }

  function DirectChoices(v: nat, count: nat): seq<Choice>
    decreases count
  {
    if count == 0 then [] else [Equal(Top(v, count - 1) % 2 == 1)] + DirectChoices(v, count - 1)
  }

  lemma {:induction false} TreeReads(c: Coder, input: seq<byte>, t: Tree, v: nat, count: nat)
    requires Sound(c) && KnownTree(t) && Pow2(count) <= v < 2 * TreeSize(t)
    requires TreeFits(TreeBase(t), Top(v, count), count)
    requires Carries(c, input, TreeChoices(t, v, count))
    ensures DecodeTree(c, TreeBase(t), Top(v, count), count, input) == (After(c, input, TreeChoices(t, v, count)), v)
    decreases count
  {
    hide TreeSize, TreeBase, DecodeBit, Carries, After, Pow2, Top;
    if count == 0 {
      TopNone(v);
      CarriesNone(c, input);
    } else {
      NodeFits(v, count);
      var node, bit := Top(v, count), Top(v, count - 1) % 2 == 1;
      CarriesOne(c, input, Modelled(Node(t, node), bit), TreeChoices(t, v, count - 1));
      var (c1, b) := DecodeBit(c, TreeBase(t) + node, input);
      assert b == bit && 2 * node + BitValue(b) == Top(v, count - 1);
      TreeReads(c1, input, t, v, count - 1);
    }
  }

  lemma OnePower()
    ensures Pow2(0) == 1
  {
  }

  lemma {:induction false} ReverseReads(c: Coder, input: seq<byte>, t: Tree, node: nat, v: nat, i: nat, count: nat)
    requires Sound(c) && KnownTree(t) && 1 <= node && (node + 1) * Pow2(count) <= 2 * TreeSize(t) && v < Pow2(count)
    requires TreeFits(TreeBase(t), node, count)
    requires Carries(c, input, ReverseChoices(t, node, v, count))
    ensures DecodeReverseTree(c, TreeBase(t), node, i, count, input)
            == (After(c, input, ReverseChoices(t, node, v, count)), v * Pow2(i))
    decreases count
  {
    hide TreeSize, TreeBase, DecodeBit, Carries, After;
    if count == 0 {
      CarriesNone(c, input);
    } else {
      ReverseFits(node, v % 2, count);
      CarriesOne(c, input, Modelled(Node(t, node), v % 2 == 1), ReverseChoices(t, 2 * node + v % 2, v / 2, count - 1));
      var (c1, b) := DecodeBit(c, TreeBase(t) + node, input);
      assert 2 * node + BitValue(b) == 2 * node + v % 2;
      ReverseReads(c1, input, t, 2 * node + v % 2, v / 2, i + 1, count - 1);
      BitJoins(v, Pow2(i));
    }
  }

  lemma BitJoins(v: nat, p: nat)
    ensures v / 2 * (2 * p) + (v % 2) * p == v * p
  {
    assert v == 2 * (v / 2) + v % 2;
    assert v / 2 * (2 * p) == (2 * (v / 2)) * p;
    assert (2 * (v / 2) + v % 2) * p == (2 * (v / 2)) * p + (v % 2) * p;
  }

  lemma {:induction false} DirectReads(c: Coder, input: seq<byte>, v: nat, count: nat)
    requires Sound(c) && Carries(c, input, DirectChoices(v, count))
    ensures DecodeDirect(c, Top(v, count), count, input) == (After(c, input, DirectChoices(v, count)), v)
    decreases count
  {
    hide SplitDirect, Normalize, Carries, After, Pow2, Top;
    if count == 0 {
      TopNone(v);
      CarriesNone(c, input);
    } else {
      TopStep(v, count);
      CarriesOne(c, input, Equal(Top(v, count - 1) % 2 == 1), DirectChoices(v, count - 1));
      var (c1, b) := SplitDirect(Normalize(c, input));
      assert 2 * (Top(v, count)) + BitValue(b) == Top(v, count - 1);
      DirectReads(c1, input, v, count - 1);
    }
  }

  /* ---- Lengths ---- */

  function LenChoices(rep: bool, pos: nat, len: nat): seq<Choice>
    requires pos < 16 && 2 <= len <= 273
  {
    PowersTable();
    hide Pow2;
    if len < 10 then
      [Modelled(LenChoice(rep), false)] + TreeChoices(LowTree(rep, pos), 8 + (len - 2), 3)
    else if len < 18 then
      [Modelled(LenChoice(rep), true)] + ([Modelled(LenChoice2(rep), false)] + TreeChoices(MidTree(rep, pos), 8 + (len - 10), 3))
    else
      [Modelled(LenChoice(rep), true)] + ([Modelled(LenChoice2(rep), true)] + TreeChoices(HighTree(rep), 256 + (len - 18), 8))
  }

  lemma LenReads(c: Coder, input: seq<byte>, rep: bool, pos: nat, len: nat)
    requires Sound(c) && pos < 16 && 2 <= len <= 273
    requires Carries(c, input, LenChoices(rep, pos, len))
    ensures DecodeLen(c, LenTable(rep), pos, input) == (After(c, input, LenChoices(rep, pos, len)), len)
  {
    PowersTable();
    hide TreeFits, DecodeTree, DecodeBit, Carries, After, TreeChoices, Pow2;
    var base := LenTable(rep);
    TreeFitsSmall(base + 2 + 8 * pos, base + 130 + 8 * pos, base + 258);
    var (c1, choice) := DecodeBit(c, base, input);
    if len < 10 {
      CarriesOne(c, input, Modelled(LenChoice(rep), false), TreeChoices(LowTree(rep, pos), 8 + (len - 2), 3));
      TreeReads(c1, input, LowTree(rep, pos), 8 + (len - 2), 3);
    } else if len < 18 {
      var rest := TreeChoices(MidTree(rep, pos), 8 + (len - 10), 3);
      CarriesOne(c, input, Modelled(LenChoice(rep), true), [Modelled(LenChoice2(rep), false)] + rest);
      CarriesOne(c1, input, Modelled(LenChoice2(rep), false), rest);
      TreeReads(DecodeBit(c1, base + 1, input).0, input, MidTree(rep, pos), 8 + (len - 10), 3);
    } else {
      var rest := TreeChoices(HighTree(rep), 256 + (len - 18), 8);
      CarriesOne(c, input, Modelled(LenChoice(rep), true), [Modelled(LenChoice2(rep), true)] + rest);
      CarriesOne(c1, input, Modelled(LenChoice2(rep), true), rest);
      TreeReads(DecodeBit(c1, base + 1, input).0, input, HighTree(rep), 256 + (len - 18), 8);
    }
  }

  lemma TreeFitsSmall(low: nat, mid: nat, high: nat)
    requires low + 8 <= PROBS_TOTAL && mid + 8 <= PROBS_TOTAL && high + 256 <= PROBS_TOTAL
    ensures TreeFits(low, 1, 3) && TreeFits(mid, 1, 3) && TreeFits(high, 1, 8)
  {
    hide TreeFits;
    PowersTable();
    TreeFitsWithin(low, 1, 3);
    TreeFitsWithin(mid, 1, 3);
    TreeFitsWithin(high, 1, 8);
  }

  /* ---- Distances ---- */

  // The number of bits below the most significant one.
  function Log2(d: nat): (n: nat)
    requires 0 < d
    ensures Pow2(n) <= d < 2 * Pow2(n)
  {
    if d == 1 then 0 else 1 + Log2(d / 2)
  }

  // The slot of a distance tells its two most significant bits and where they stand.
  function Slot(d: nat): nat {
    if d < 4 then d else 2 * Log2(d) + Top(d, Log2(d) - 1) % 2
  }

  // How many bits of a distance lie below the two that its slot tells.
  function LowBits(d: nat): nat {
    if d < 4 then 0 else Log2(d) - 1
  }

  lemma Log2Below(d: nat, n: nat)
    requires 0 < d < Pow2(n)
    ensures Log2(d) < n
  {
    if n <= Log2(d) {
      Pow2Monotone(n, Log2(d));
    }
  }

  lemma Log2Above(d: nat, n: nat)
    requires Pow2(n) <= d
    ensures n <= Log2(d)
  {
    if Log2(d) < n {
      Pow2Monotone(Log2(d) + 1, n);
    }
  }

  lemma Power32()
    ensures Pow2(32) == 0x1_0000_0000
  {
    PowersTable();
    Pow2Add(8, 8);
    Pow2Add(16, 16);
  }

  // The lowest n bits of a number.
  function Low(v: nat, n: nat): (r: nat)
    ensures r < Pow2(n)
  {
    hide Pow2;
    v % Pow2(n)
  }

  lemma TopAndLow(v: nat, n: nat)
    ensures v == Top(v, n) * Pow2(n) + Low(v, n)
  {
    hide Pow2;
    assert v == Pow2(n) * (v / Pow2(n)) + v % Pow2(n);
  }

  // The two most significant bits, by their position.
  lemma TopTwo(d: nat, n: nat)
    requires 2 * Pow2(n) <= d < 4 * Pow2(n)
    ensures 2 <= Top(d, n) <= 3
  {
    TopAndLow(d, n);
    hide Pow2, Top, Low;
    var p, q := Pow2(n), Top(d, n);
    if q < 2 {
      MulMonotone(p, q, 1);
    } else if 4 <= q {
      MulMonotone(p, 4, q);
    }
  }

  lemma SlotIs(d: u32)
    requires 4 <= d
    ensures var n := LowBits(d);
            && 1 <= n <= 30 && Slot(d) / 2 - 1 == n && 4 <= Slot(d) < 64
            && Top(d, n) == 2 + Slot(d) % 2
            && (Slot(d) < 14 <==> n <= 5)
  {
    var n := Log2(d) - 1;
    assert Pow2(2) == 4;
    Log2Above(d, 2);
    Power32();
    Log2Below(d, 32);
    assert Pow2(n + 1) == 2 * Pow2(n);
    TopTwo(d, n);
    hide Pow2, Log2, Top;
  }

  // Slots below 4 are the distance, slots below 14 have a tree each for the low bits, and
  // from there on all but four of them are even either way.
  function DistanceChoices(d: u32): seq<Choice>
  {
    if d < 4 then []
    else
      SlotIs(d);
      if Slot(d) < 14 then ShortChoices(d, Slot(d)) else LongChoices(d)
  }

  function ShortChoices(d: nat, slot: nat): seq<Choice>
    requires 4 <= slot < 14
  {
    SpecialRoom(slot);
    ReverseChoices(SpecialTree(slot), 1, Low(d, slot / 2 - 1), slot / 2 - 1)
  }

  function LongChoices(d: nat): seq<Choice>
    requires 4 <= LowBits(d)
  {
    AlignRoom();
    DirectChoices(d / 16, LowBits(d) - 4) + ReverseChoices(AlignTree, 1, d % 16, 4)
  }

  lemma SpecialRoom(slot: nat)
    requires 4 <= slot < 14
    ensures (1 + 1) * Pow2(slot / 2 - 1) == 2 * TreeSize(SpecialTree(slot))
  {
    assert Pow2(slot / 2) == 2 * Pow2(slot / 2 - 1);
  }

  lemma AlignRoom()
    ensures (1 + 1) * Pow2(4) == 2 * TreeSize(AlignTree)
  {
    PowersTable();
  }

  lemma DistanceReads(c: Coder, input: seq<byte>, d: u32)
    requires Sound(c) && Carries(c, input, DistanceChoices(d))
    ensures Slot(d) < DIST_SLOTS
    ensures DecodeDistance(c, Slot(d), input) == (After(c, input, DistanceChoices(d)), d)
  {
    hide Pow2, Top, Low, ShortChoices, LongChoices, DecodeShortDistance, DecodeLongDistance, Sound;
    if d < 4 {
      hide Slot, LowBits, Log2;
      CarriesNone(c, input);
      SlotSmall(d);
    } else {
      SlotIs(d);
      hide Slot, LowBits, Log2;
      if Slot(d) < 14 {
        ShortDistanceReads(c, input, d, Slot(d));
      } else {
        LongDistanceReads(c, input, d, Slot(d));
      }
    }
  }

  lemma SlotSmall(d: nat)
    requires d < 4
    ensures Slot(d) == d
  {
  }

  lemma ShortDistanceReads(c: Coder, input: seq<byte>, d: u32, slot: nat)
    requires Sound(c) && 4 <= slot < 14 && Top(d, slot / 2 - 1) == 2 + slot % 2
    requires Carries(c, input, ShortChoices(d, slot))
    ensures DecodeShortDistance(c, slot, input) == (After(c, input, ShortChoices(d, slot)), d)
  {
    hide *;
    var n, tree := slot / 2 - 1, SpecialTree(slot);
    var top := ShortFacts(d, slot);
    ShortIsReverse(d, slot);
    ReverseReads(c, input, tree, 1, Low(d, n), 0, n);
    ShortIs(c, slot, top, TreeBase(tree), input);
  }

  lemma ShortFacts(d: nat, slot: nat) returns (top: nat)
    requires 4 <= slot < 14 && Top(d, slot / 2 - 1) == 2 + slot % 2
    ensures top == (2 + slot % 2) * Pow2(slot / 2 - 1) && d == top + Low(d, slot / 2 - 1)
    ensures TreeBase(SpecialTree(slot)) == DIST_SPECIAL + top - slot - 1
    ensures TreeFits(TreeBase(SpecialTree(slot)), 1, slot / 2 - 1)
    ensures Low(d, slot / 2 - 1) * Pow2(0) == Low(d, slot / 2 - 1)
  {
    hide Pow2, Top, Low, TreeFits, TreeBase;
    top := (2 + slot % 2) * Pow2(slot / 2 - 1);
    TopAndLow(d, slot / 2 - 1);
    SpecialTreeFits(slot);
    SpecialBase(slot);
    OnePower();
  }

  lemma SpecialTreeFits(slot: nat)
    requires 4 <= slot < 14
    ensures TreeFits(TreeBase(SpecialTree(slot)), 1, slot / 2 - 1)
  {
    hide TreeFits;
    SpecialFits(slot);
  }

  lemma ShortIsReverse(d: nat, slot: nat)
    requires 4 <= slot < 14
    ensures KnownTree(SpecialTree(slot)) && (1 + 1) * Pow2(slot / 2 - 1) == 2 * TreeSize(SpecialTree(slot))
    ensures ShortChoices(d, slot) == ReverseChoices(SpecialTree(slot), 1, Low(d, slot / 2 - 1), slot / 2 - 1)
  {
    SpecialRoom(slot);
    hide Pow2, TreeSize, ReverseChoices, Low;
  }

  lemma ShortIs(c: Coder, slot: nat, dist: nat, base: int, input: seq<byte>)
    requires Sound(c) && 4 <= slot < 14 && dist == (2 + slot % 2) * Pow2(slot / 2 - 1)
    requires base == DIST_SPECIAL + dist - slot - 1 && TreeFits(base, 1, slot / 2 - 1)
    ensures var (c1, low) := DecodeReverseTree(c, base, 1, 0, slot / 2 - 1, input);
            DecodeShortDistance(c, slot, input) == (c1, dist + low)
  {
    hide TreeFits, DecodeReverseTree, Pow2, Sound;
  }

  lemma SpecialBase(slot: nat)
    requires 4 <= slot < 14
    ensures TreeBase(SpecialTree(slot)) == DIST_SPECIAL + (2 + slot % 2) * Pow2(slot / 2 - 1) - slot - 1
  {
  }

  lemma LongDistanceReads(c: Coder, input: seq<byte>, d: u32, slot: nat)
    requires Sound(c) && 14 <= slot < DIST_SLOTS && slot / 2 - 1 == LowBits(d)
    requires Top(d, LowBits(d)) == 2 + slot % 2 && Carries(c, input, LongChoices(d))
    ensures DecodeLongDistance(c, slot, input) == (After(c, input, LongChoices(d)), d)
  {
    AlignRoom();
    AlignFits();
    hide TreeFits, DecodeReverseTree, DecodeDirect, Carries, After, ReverseChoices, DirectChoices, Pow2, Top, LowBits, Sound;
    var n := LowBits(d);
    QuotientSplits(d, n);
    var high, low := DirectChoices(d / 16, n - 4), ReverseChoices(AlignTree, 1, d % 16, 4);
    CarriesMore(c, input, high, low);
    DirectReads(c, input, d / 16, n - 4);
    ReverseReads(After(c, input, high), input, AlignTree, 1, d % 16, 0, 4);
  }

  lemma QuotientSplits(d: nat, n: nat)
    requires 4 <= n
    ensures Top(d / 16, n - 4) == Top(d, n)
  {
    PowersTable();
    Pow2Add(4, n - 4);
    TopAndLow(d / 16, n - 4);
    hide Pow2, Low;
    SplitQuotient(d, Pow2(n - 4), Top(d / 16, n - 4), Low(d / 16, n - 4));
  }

  lemma SplitQuotient(d: nat, p: nat, q: nat, r: nat)
    requires d / 16 == q * p + r && r < p
    ensures d / (16 * p) == q
  {
    assert d == 16 * (d / 16) + d % 16;
    assert (16 * p) * q == 16 * (q * p);
    QuotientIs(d, 16 * p, q, 16 * r + d % 16);
  }

  /* ---- Literals ---- */

  // A literal behind a match: as long as its bits are those of the byte that the match would
  // have gone on with, the next of those bits is part of the context.
  function MatchedChoices(coder: nat, v: nat, m: nat, count: nat): seq<Choice>
    requires coder < 16 && 0x100 <= v < 0x200 && 0x100 <= m < 0x200 && count <= 8
    decreases count
  {
    if count == 0 then
      []
    else
      PowersTable();
      Pow2Monotone(count, 8);
      NodeFits(v, count);
      hide Pow2;
      var node := Top(v, count);
      var side := if node == Top(m, count) then 0x100 + 0x100 * (Top(m, count - 1) % 2) else 0;
      [Modelled(Node(LiteralTree(coder), side + node), Top(v, count - 1) % 2 == 1)] + MatchedChoices(coder, v, m, count - 1)
  }

  // The coder of a literal: the low lp bits of the position, and the high lc bits of the last byte.
  function CoderFor(p: Props, h: seq<byte>): (r: nat)
    requires ValidProps(p)
    ensures r < 16
  {
    LiteralCoders(p, HistoryByte(h, 0), |h|);
    |h| % Pow2(p.lp) * Pow2(p.lc) + HistoryByte(h, 0) / Pow2(8 - p.lc)
  }

  function LiteralChoices(m: Memory, p: Props, h: seq<byte>, b: byte): seq<Choice>
    requires GoodMemory(m) && ValidProps(p)
  {
    PowersTable();
    if m.state <= 6 then TreeChoices(LiteralTree(CoderFor(p, h)), 0x100 + b, 8)
    else MatchedChoices(CoderFor(p, h), 0x100 + b, 0x100 + HistoryByte(h, m.reps[0]), 8)
  }

  /* ---- How the decoder keeps track of the byte that a match would go on with ---- */

  // What it has left of that byte with count bits to come.
  ghost function Left(m: byte, count: nat): nat
    requires count <= 9
  {
    m * Pow2(9 - count)
  }

  // Whether the bits so far are those of that byte.
  ghost function Offset(v: nat, w: nat, count: nat): nat {
    if Top(v, count) == Top(w, count) then 0x100 else 0
  }

  // The next bit of that byte, on the decoder's side.
  lemma LeftBit(m: byte, count: nat)
    requires 1 <= count <= 8
    ensures Left(m, count) / 0x100 % 2 == Top(0x100 + m, count - 1) % 2
    ensures 2 * Left(m, count) == Left(m, count - 1)
  {
    PowersTable();
    Pow2Add(9 - count, count - 1);
    assert Pow2(9 - count) == 2 * Pow2(8 - count) && Pow2(10 - count) == 2 * Pow2(9 - count);
    LeftQuotient(m, Pow2(9 - count), Pow2(count - 1), Pow2(8 - count));
  }

  lemma LeftQuotient(m: byte, p: nat, q: nat, half: nat)
    requires 0 < q && p * q == 0x100 && p == 2 * half
    ensures m * p / 0x100 % 2 == (0x100 + m) / q % 2
    ensures 2 * (m * p) == m * (2 * p)
  {
    var a, r := m / q, m % q;
    assert m == q * a + r;
    LeftProduct(m, p, q, a, r);
    RightQuotient(m, p, q, a, r);
  }

  lemma LeftProduct(m: nat, p: nat, q: nat, a: nat, r: nat)
    requires 0 < p && m == q * a + r && r < q && p * q == 0x100
    ensures m * p / 0x100 == a
  {
    assert m * p == 0x100 * a + p * r by {
      assert (q * a + r) * p == (p * q) * a + p * r;
    }
    MulMonotone(p, r + 1, q);
  }

  lemma RightQuotient(m: nat, p: nat, q: nat, a: nat, r: nat)
    requires m == q * a + r && r < q && p * q == 0x100
    ensures (0x100 + m) / q == p + a
  {
    assert 0x100 + m == q * (p + a) + r by {
      assert q * (p + a) == p * q + q * a;
    }
    QuotientIs(0x100 + m, q, p + a, r);
  }

  lemma OffsetStep(v: nat, w: nat, count: nat)
    requires 1 <= count
    ensures var bit, matchBit := Top(v, count - 1) % 2 == 1, if Offset(v, w, count) == 0 then 0 else 0x100 * (Top(w, count - 1) % 2);
            Offset(v, w, count - 1) == NextOffset(Offset(v, w, count), matchBit, bit)
    ensures 2 * Top(v, count) + BitValue(Top(v, count - 1) % 2 == 1) == Top(v, count - 1)
  {
    TopStep(v, count);
    TopStep(w, count);
    hide Top;
  }

  lemma {:induction false} NodeBounds(v: nat, count: nat)
    requires 0x100 <= v < 0x200 && count <= 8
    ensures ByteBits(Top(v, count), count)
    decreases 8 - count
  {
    if count == 8 {
      TopByte(v - 0x100);
    } else {
      NodeBounds(v, count + 1);
      TopStep(v, count + 1);
      hide Top;
    }
  }

  // A decoder in the middle of a literal that is encoded as v, w being the byte of the match.
  ghost predicate MatchedAt(coder: nat, v: nat, m: byte, count: nat, base: nat, node: nat, left: nat, offset: nat) {
    && coder < 16 && 0x100 <= v < 0x200 && count <= 8
    && base == LITERAL + LITERAL_CODER_SIZE * coder && node == Top(v, count)
    && left == Left(m, count) && offset == Offset(v, 0x100 + m, count)
  }

  lemma MatchedAtFits(coder: nat, v: nat, m: byte, count: nat, base: nat, node: nat, left: nat, offset: nat)
    requires MatchedAt(coder, v, m, count, base, node, left, offset)
    ensures MatchedFits(base, node, offset, count) && base == TreeBase(LiteralTree(coder))
  {
    NodeBounds(v, count);
    hide Top, ByteBits, Left;
  }

  // The context of the next choice is the one that the decoder looks at.
  lemma MatchedStep(coder: nat, v: nat, m: byte, count: nat, base: nat, node: nat, left: nat, offset: nat) returns (x: Ctx, bit: bool)
    requires MatchedAt(coder, v, m, count, base, node, left, offset)
    requires coder < 16 && 0x100 <= v < 0x200 && 0 < count <= 8
    ensures Place(x) == base + offset + MatchBit(left, offset) + node
    ensures MatchedAt(coder, v, m, count - 1, base, 2 * node + BitValue(bit), 2 * left, NextOffset(offset, MatchBit(left, offset), bit))
    ensures MatchedChoices(coder, v, 0x100 + m, count) == [Modelled(x, bit)] + MatchedChoices(coder, v, 0x100 + m, count - 1)
  {
    SideIs(m, count, left, offset);
    var w := 0x100 + m;
    x, bit := MatchedFront(coder, v, w, count);
    LeftBit(m, count);
    OffsetStep(v, w, count);
    hide Top, Left, Pow2, NextOffset, MatchedChoices, MatchBit;
  }

  lemma MatchedFront(coder: nat, v: nat, w: nat, count: nat) returns (x: Ctx, bit: bool)
    requires coder < 16 && 0x100 <= v < 0x200 && 0x100 <= w < 0x200 && 0 < count <= 8
    ensures bit == (Top(v, count - 1) % 2 == 1)
    ensures x == Node(LiteralTree(coder), Offset(v, w, count) + (if Offset(v, w, count) == 0 then 0 else 0x100 * (Top(w, count - 1) % 2)) + Top(v, count))
    ensures MatchedChoices(coder, v, w, count) == [Modelled(x, bit)] + MatchedChoices(coder, v, w, count - 1)
  {
    hide Top;
    bit := Top(v, count - 1) % 2 == 1;
    x := MatchedChoices(coder, v, w, count)[0].ctx;
  }

  lemma SideIs(m: byte, count: nat, left: nat, offset: nat)
    requires 0 < count <= 8 && left == Left(m, count) && (offset == 0 || offset == 0x100)
    ensures MatchBit(left, offset) == if offset == 0 then 0 else 0x100 * (Top(0x100 + m, count - 1) % 2)
  {
    LeftBit(m, count);
    hide Left, Top;
  }

  lemma {:induction false} MatchedReads(c: Coder, input: seq<byte>, coder: nat, v: nat, m: byte, count: nat,
                                        base: nat, node: nat, left: nat, offset: nat)
    requires Sound(c) && MatchedAt(coder, v, m, count, base, node, left, offset)
    requires coder < 16 && 0x100 <= v < 0x200 && count <= 8
    requires MatchedFits(base, node, offset, count)
    requires Carries(c, input, MatchedChoices(coder, v, 0x100 + m, count))
    ensures DecodeMatched(c, base, node, left, offset, count, input)
            == (After(c, input, MatchedChoices(coder, v, 0x100 + m, count)), v)
    decreases count
  {
    hide *;
    if count == 0 {
      MatchedDone(c, input, coder, v, m, base, node, left, offset);
    } else {
      var rest := MatchedChoices(coder, v, 0x100 + m, count - 1);
      var x, bit := MatchedStep(coder, v, m, count, base, node, left, offset);
      var node', offset' := 2 * node + BitValue(bit), NextOffset(offset, MatchBit(left, offset), bit);
      MatchedAtFits(coder, v, m, count - 1, base, node', 2 * left, offset');
      CarriesOne(c, input, Modelled(x, bit), rest);
      MatchedDecodes(c, input, x, bit, base, node, left, offset, count);
      MatchedReads(Read(c, Modelled(x, bit), input).0, input, coder, v, m, count - 1, base, node', 2 * left, offset');
    }
  }

  lemma MatchedDone(c: Coder, input: seq<byte>, coder: nat, v: nat, m: byte, base: nat, node: nat, left: nat, offset: nat)
    requires Sound(c) && MatchedAt(coder, v, m, 0, base, node, left, offset) && coder < 16 && 0x100 <= v < 0x200
    requires MatchedFits(base, node, offset, 0)
    ensures DecodeMatched(c, base, node, left, offset, 0, input) == (After(c, input, MatchedChoices(coder, v, 0x100 + m, 0)), v)
  {
    hide Left, Offset, Top, MatchedFits, DecodeMatched, Sound;
    TopNone(v);
    CarriesNone(c, input);
    DecodeMatchedEnd(c, base, node, left, offset, input);
  }

  lemma MatchedDecodes(c: Coder, input: seq<byte>, x: Ctx, bit: bool, base: nat, node: nat, left: nat, offset: nat, count: nat)
    requires Sound(c) && MatchedFits(base, node, offset, count) && 0 < count
    requires Place(x) == base + offset + MatchBit(left, offset) + node && Read(c, Modelled(x, bit), input).1 == bit
    requires MatchedFits(base, 2 * node + BitValue(bit), NextOffset(offset, MatchBit(left, offset), bit), count - 1)
    ensures DecodeMatched(c, base, node, left, offset, count, input)
            == DecodeMatched(Read(c, Modelled(x, bit), input).0, base, 2 * node + BitValue(bit), 2 * left,
                             NextOffset(offset, MatchBit(left, offset), bit), count - 1, input)
  {
    hide Place, DecodeBit, MatchBit, NextOffset, MatchedFits, DecodeMatched, Sound;
    DecodeMatchedStep(c, base, node, left, offset, count, input);
  }

  /* ---- Packets ---- */

  // Which of the last distances: none of the others asked for, one after the other.
  function WhichChoices(m: Memory, pos: nat, p: Packet): seq<Choice>
    requires GoodMemory(m) && pos < 16 && (p.ShortRep? || p.Rep?)
  {
    var s := m.state;
    if p.ShortRep? then [Modelled(IsRep0(s), false), Modelled(IsRep0Long(s, pos), false)]
    else if p.k == 0 then [Modelled(IsRep0(s), false), Modelled(IsRep0Long(s, pos), true)]
    else if p.k == 1 then [Modelled(IsRep0(s), true), Modelled(IsRep1(s), false)]
    else [Modelled(IsRep0(s), true), Modelled(IsRep1(s), true), Modelled(IsRep2(s), p.k != 2)]
  }

  function MatchChoices(pos: nat, dist: u32, len: nat): seq<Choice>
    requires pos < 16 && 2 <= len <= 273
  {
    SlotLeaf(dist);
    LenChoices(false, pos, len) +
    (TreeChoices(SlotTree(Min(len - 2, 3)), 64 + Slot(dist), 6) + DistanceChoices(dist))
  }

  lemma SlotLeaf(d: u32)
    ensures Slot(d) < 64 && Pow2(6) == 64
  {
    PowersTable();
    if 4 <= d {
      SlotIs(d);
    }
  }

  // The low pb bits of the position.
  function PosOf(p: Props, h: seq<byte>): (r: nat)
    requires ValidProps(p)
    ensures r < 16
  {
    PowersTable();
    Pow2Monotone(p.pb, 4);
    hide Pow2;
    |h| % Pow2(p.pb)
  }

  function RepeatChoices(m: Memory, pos: nat, p: Packet): seq<Choice>
    requires GoodMemory(m) && pos < 16 && !p.Lit?
    requires p.Match? || p.Rep? ==> 2 <= Length(p) <= 273
  {
    match p
    case Match(dist, len) => [Modelled(IsRep(m.state), false)] + MatchChoices(pos, dist, len)
    case ShortRep => [Modelled(IsRep(m.state), true)] + WhichChoices(m, pos, p)
    case Rep(_, len) => [Modelled(IsRep(m.state), true)] + (WhichChoices(m, pos, p) + LenChoices(true, pos, len))
  }

  function Choices(p: Packet, m: Memory, props: Props, h: seq<byte>): seq<Choice>
    requires GoodMemory(m) && ValidProps(props)
    requires p.Match? || p.Rep? ==> 2 <= Length(p) <= 273
  {
    var pos := PosOf(props, h);
    match p
    case Lit(b) => [Modelled(IsMatch(m.state, pos), false)] + LiteralChoices(m, props, h, b)
    case _ => [Modelled(IsMatch(m.state, pos), true)] + RepeatChoices(m, pos, p)
  }

  /* ---- The decoder gives back packets ---- */

  // The decoder remembers what the writer does.
  ghost predicate Remembers(z: Lzma, m: Memory) {
    GoodMemory(m) && z.state == m.state && [z.rep0, z.rep1, z.rep2, z.rep3] == m.reps
  }

  // The choices of index k bring the k-th of the last distances to the front.
  lemma WhichReads(z: Lzma, m: Memory, pos: nat, p: Packet, input: seq<byte>)
    requires Good(z) && Remembers(z, m) && pos < 16 && (p.ShortRep? || (p.Rep? && p.k < 4))
    requires Carries(z.c, input, WhichChoices(m, pos, p))
    ensures var (z1, short) := DecodeWhichRep(z, pos, input);
            && short == p.ShortRep?
            && z1.c == After(z.c, input, WhichChoices(m, pos, p)) && z1.state == m.state
            && [z1.rep0, z1.rep1, z1.rep2, z1.rep3] == NextReps(m.reps, p)
  {
    hide DecodeBit, Carries, After, Sound;
    var s := m.state;
    if p.ShortRep? || p.k == 0 {
      TwoChoices(z.c, input, Modelled(IsRep0(s), false), Modelled(IsRep0Long(s, pos), p.Rep?));
    } else if p.k == 1 {
      TwoChoices(z.c, input, Modelled(IsRep0(s), true), Modelled(IsRep1(s), false));
    } else {
      ThreeChoices(z.c, input, Modelled(IsRep0(s), true), Modelled(IsRep1(s), true), Modelled(IsRep2(s), p.k != 2));
    }
  }

  lemma TwoChoices(c: Coder, input: seq<byte>, x: Choice, y: Choice)
    requires Sound(c) && Carries(c, input, [x, y])
    ensures var (c1, a) := Read(c, x, input);
            var (c2, b) := Read(c1, y, input);
            a == x.bit && b == y.bit && c2 == After(c, input, [x, y])
  {
    hide Read;
    assert [x, y] == [x] + [y] && [y] == [y] + [];
    CarriesOne(c, input, x, [y]);
    CarriesOne(Read(c, x, input).0, input, y, []);
  }

  lemma ThreeChoices(c: Coder, input: seq<byte>, w: Choice, x: Choice, y: Choice)
    requires Sound(c) && Carries(c, input, [w, x, y])
    ensures var (c1, a) := Read(c, w, input);
            var (c2, b) := Read(c1, x, input);
            var (c3, d) := Read(c2, y, input);
            a == w.bit && b == x.bit && d == y.bit && c3 == After(c, input, [w, x, y])
  {
    hide Read;
    assert [w, x, y] == [w] + [x, y];
    CarriesOne(c, input, w, [x, y]);
    TwoChoices(Read(c, w, input).0, input, x, y);
  }

  lemma RepReads(z: Lzma, m: Memory, pos: nat, p: Packet, input: seq<byte>)
    requires Good(z) && Remembers(z, m) && pos < 16 && (p.ShortRep? || (p.Rep? && p.k < 4 && 2 <= p.len <= 273))
    requires Carries(z.c, input, if p.Rep? then WhichChoices(m, pos, p) + LenChoices(true, pos, p.len) else WhichChoices(m, pos, p))
    ensures var (z1, len) := DecodeRepMatch(z, pos, input);
            && len == Length(p) && Remembers(z1, NextMemory(m, p))
            && z1.c == After(z.c, input, if p.Rep? then WhichChoices(m, pos, p) + LenChoices(true, pos, p.len) else WhichChoices(m, pos, p))
  {
    hide DecodeWhichRep, DecodeLen, Carries, After, WhichChoices, LenChoices, NextReps, Sound;
    if p.Rep? {
      CarriesMore(z.c, input, WhichChoices(m, pos, p), LenChoices(true, pos, p.len));
    }
    WhichReads(z, m, pos, p, input);
    var (z1, short) := DecodeWhichRep(z, pos, input);
    if p.Rep? {
      LenReads(z1.c, input, true, pos, p.len);
    }
  }

  // A match, piece by piece.
  lemma MatchIs(z: Lzma, pos: nat, len: nat, slot: nat, dist: u32, c1: Coder, c2: Coder, c3: Coder, input: seq<byte>)
    requires Good(z) && pos < 16 && 2 <= len <= 273 && Sound(c1) && Sound(c2) && Sound(c3)
    requires DecodeLen(z.c, MATCH_LEN, pos, input) == (c1, len)
    requires TreeFits(DIST_SLOT + 64 * DistState(len), 1, 6)
    requires DecodeTree(c1, DIST_SLOT + 64 * DistState(len), 1, 6, input) == (c2, DIST_SLOTS + slot) && slot < DIST_SLOTS
    requires DecodeDistance(c2, slot, input) == (c3, dist)
    ensures DecodeMatch(z, pos, input) == (Lzma(c3, AfterMatch(z.state), dist, z.rep0, z.rep1, z.rep2), len)
  {
    hide TreeFits, DecodeTree, DecodeDistance, DecodeLen, Sound;
  }

  lemma MatchReads(z: Lzma, m: Memory, pos: nat, dist: u32, len: nat, input: seq<byte>)
    requires Good(z) && Remembers(z, m) && pos < 16 && 2 <= len <= 273
    requires Carries(z.c, input, MatchChoices(pos, dist, len))
    ensures var (z1, n) := DecodeMatch(z, pos, input);
            && n == len && Remembers(z1, NextMemory(m, Match(dist, len)))
            && z1.c == After(z.c, input, MatchChoices(pos, dist, len))
  {
    hide TreeFits, DecodeTree, DecodeDistance, DecodeLen, DecodeMatch, Carries, After, MatchChoices, Slot, NextMemory, Remembers, Sound;
    var c1, c2, c3 := PiecesRead(z.c, input, pos, dist, len);
    MatchIs(z, pos, len, Slot(dist), dist, c1, c2, c3, input);
    MatchMemory(z, m, dist, len, c3);
  }

  lemma MatchMemory(z: Lzma, m: Memory, dist: u32, len: nat, c: Coder)
    requires Remembers(z, m)
    ensures Remembers(Lzma(c, AfterMatch(z.state), dist, z.rep0, z.rep1, z.rep2), NextMemory(m, Match(dist, len)))
  {
  }

  lemma PiecesRead(c: Coder, input: seq<byte>, pos: nat, dist: u32, len: nat) returns (c1: Coder, c2: Coder, c3: Coder)
    requires Sound(c) && pos < 16 && 2 <= len <= 273 && Carries(c, input, MatchChoices(pos, dist, len))
    ensures Sound(c1) && Sound(c2) && Sound(c3) && Slot(dist) < DIST_SLOTS
    ensures DecodeLen(c, MATCH_LEN, pos, input) == (c1, len)
    ensures TreeFits(DIST_SLOT + 64 * DistState(len), 1, 6)
    ensures DecodeTree(c1, DIST_SLOT + 64 * DistState(len), 1, 6, input) == (c2, DIST_SLOTS + Slot(dist))
    ensures DecodeDistance(c2, Slot(dist), input) == (c3, dist)
    ensures c3 == After(c, input, MatchChoices(pos, dist, len))
  {
    SlotLeaf(dist);
    var tree := SlotTree(Min(len - 2, 3));
    assert TreeBase(tree) == DIST_SLOT + 64 * DistState(len) && KnownTree(tree) && LenTable(false) == MATCH_LEN;
    assert 2 * TreeSize(tree) == 128;
    var first, second, third := LenChoices(false, pos, len), TreeChoices(tree, 64 + Slot(dist), 6), DistanceChoices(dist);
    assert MatchChoices(pos, dist, len) == first + (second + third);
    hide *;
    CarriesMore(c, input, first, second + third);
    LenReads(c, input, false, pos, len);
    c1 := After(c, input, first);
    CarriesMore(c1, input, second, third);
    SlotFits(c1, TreeBase(tree), input);
    SlotReads(c1, input, tree, Slot(dist));
    c2 := After(c1, input, second);
    DistanceReads(c2, input, dist);
    c3 := After(c2, input, third);
  }

  lemma SlotReads(c: Coder, input: seq<byte>, t: Tree, slot: nat)
    requires Sound(c) && t.SlotTree? && KnownTree(t) && slot < 64 && Pow2(6) == 64 && TreeFits(TreeBase(t), 1, 6)
    requires Carries(c, input, TreeChoices(t, 64 + slot, 6))
    ensures DecodeTree(c, TreeBase(t), 1, 6, input) == (After(c, input, TreeChoices(t, 64 + slot, 6)), 64 + slot)
  {
    hide Carries, After, TreeChoices, TreeFits, DecodeTree, TreeBase, Sound, Pow2;
    assert Top(64 + slot, 6) == 1;
    TreeReads(c, input, t, 64 + slot, 6);
  }

  lemma RepeatReads(z: Lzma, m: Memory, pos: nat, p: Packet, input: seq<byte>)
    requires Good(z) && Remembers(z, m) && pos < 16 && !p.Lit?
    requires (p.Rep? ==> p.k < 4) && (p.Match? || p.Rep? ==> 2 <= Length(p) <= 273)
    requires Carries(z.c, input, RepeatChoices(m, pos, p))
    ensures var (z1, len) := DecodeRepeat(z, pos, input);
            && len == Length(p) && Remembers(z1, NextMemory(m, p))
            && z1.c == After(z.c, input, RepeatChoices(m, pos, p))
  {
    hide DecodeRepMatch, DecodeMatch, Carries, After, WhichChoices, LenChoices, MatchChoices, NextMemory, DecodeBit, Sound;
    var rest :=
      if p.Match? then MatchChoices(pos, p.dist, p.len)
      else if p.Rep? then WhichChoices(m, pos, p) + LenChoices(true, pos, p.len)
      else WhichChoices(m, pos, p);
    CarriesOne(z.c, input, Modelled(IsRep(m.state), !p.Match?), rest);
    var (c, isRep) := DecodeBit(z.c, IS_REP + z.state, input);
    if p.Match? {
      MatchReads(z.(c := c), m, pos, p.dist, p.len, input);
    } else {
      RepReads(z.(c := c), m, pos, p, input);
    }
  }

  lemma CoderBase(props: Props, h: seq<byte>)
    requires ValidProps(props)
    ensures LiteralBase(props, h) == TreeBase(LiteralTree(CoderFor(props, h)))
  {
    hide Pow2;
  }

  lemma LiteralReads(z: Lzma, m: Memory, props: Props, h: seq<byte>, b: byte, input: seq<byte>)
    requires Good(z) && Remembers(z, m) && ValidProps(props)
    requires Carries(z.c, input, LiteralChoices(m, props, h, b))
    ensures var (z1, b1) := DecodeLiteral(z, props, h, input);
            && b1 == b && Remembers(z1, NextMemory(m, Lit(b)))
            && z1.c == After(z.c, input, LiteralChoices(m, props, h, b))
  {
    var c1 := After(z.c, input, LiteralChoices(m, props, h, b));
    LiteralMemory(z, m, b, c1);
    assert Sound(z.c) && z.state == m.state && z.rep0 == m.reps[0] && GoodMemory(m);
    hide *;
    if m.state <= 6 {
      PlainReads(z.c, m, props, h, b, input);
    } else {
      AgainstReads(z.c, m, props, h, b, HistoryByte(h, z.rep0), input);
    }
    LiteralIs(z, props, h, b, c1, input);
  }

  // A literal, when its eight bits come out as b.
  lemma LiteralIs(z: Lzma, props: Props, h: seq<byte>, b: byte, c1: Coder, input: seq<byte>)
    requires Good(z) && ValidProps(props) && Sound(c1)
    requires z.state <= 6 ==>
               && TreeFits(LiteralBase(props, h), 1, 8)
               && DecodeTree(z.c, LiteralBase(props, h), 1, 8, input) == (c1, 0x100 + b)
    requires 7 <= z.state ==>
               && MatchedFits(LiteralBase(props, h), 1, 0x100, 8)
               && DecodeMatched(z.c, LiteralBase(props, h), 1, 2 * HistoryByte(h, z.rep0), 0x100, 8, input) == (c1, 0x100 + b)
    ensures DecodeLiteral(z, props, h, input) == (z.(c := c1, state := AfterLiteral(z.state)), b)
  {
    hide TreeFits, MatchedFits, DecodeTree, DecodeMatched, LiteralBase, Sound, HistoryByte, AfterLiteral;
  }

  lemma PlainReads(c: Coder, m: Memory, props: Props, h: seq<byte>, b: byte, input: seq<byte>)
    requires Sound(c) && GoodMemory(m) && ValidProps(props) && m.state <= 6
    requires Carries(c, input, LiteralChoices(m, props, h, b))
    ensures TreeFits(LiteralBase(props, h), 1, 8)
    ensures DecodeTree(c, LiteralBase(props, h), 1, 8, input) == (After(c, input, LiteralChoices(m, props, h, b)), 0x100 + b)
  {
    hide *;
    CoderBase(props, h);
    LiteralFits(LiteralBase(props, h));
    PlainIs(m, props, h, b, CoderFor(props, h));
    TopByte(b);
    TreeReads(c, input, LiteralTree(CoderFor(props, h)), 0x100 + b, 8);
  }

  lemma PlainIs(m: Memory, props: Props, h: seq<byte>, b: byte, coder: nat)
    requires GoodMemory(m) && ValidProps(props) && m.state <= 6 && coder == CoderFor(props, h)
    ensures KnownTree(LiteralTree(coder)) && Pow2(8) <= 0x100 + b < 2 * TreeSize(LiteralTree(coder))
    ensures LiteralChoices(m, props, h, b) == TreeChoices(LiteralTree(coder), 0x100 + b, 8)
  {
    PowersTable();
    hide CoderFor, TreeChoices, MatchedChoices, Pow2;
  }

  lemma AgainstReads(c: Coder, m: Memory, props: Props, h: seq<byte>, b: byte, last: byte, input: seq<byte>)
    requires Sound(c) && GoodMemory(m) && ValidProps(props) && 7 <= m.state && last == HistoryByte(h, m.reps[0])
    requires Carries(c, input, LiteralChoices(m, props, h, b))
    ensures MatchedFits(LiteralBase(props, h), 1, 0x100, 8)
    ensures DecodeMatched(c, LiteralBase(props, h), 1, 2 * last, 0x100, 8, input) == (After(c, input, LiteralChoices(m, props, h, b)), 0x100 + b)
  {
    hide *;
    CoderBase(props, h);
    LiteralFits(LiteralBase(props, h));
    AgainstIs(m, props, h, b, CoderFor(props, h), last);
    MatchedBegins(CoderFor(props, h), b, last, LiteralBase(props, h));
    MatchedReads(c, input, CoderFor(props, h), 0x100 + b, last, 8, LiteralBase(props, h), 1, 2 * last, 0x100);
  }

  lemma AgainstIs(m: Memory, props: Props, h: seq<byte>, b: byte, coder: nat, last: byte)
    requires GoodMemory(m) && ValidProps(props) && 7 <= m.state
    requires coder == CoderFor(props, h) && last == HistoryByte(h, m.reps[0])
    ensures LiteralChoices(m, props, h, b) == MatchedChoices(coder, 0x100 + b, 0x100 + last, 8)
  {
    hide CoderFor, HistoryByte, MatchedChoices, TreeChoices, Pow2;
  }

  lemma LiteralMemory(z: Lzma, m: Memory, b: byte, c: Coder)
    requires z.state < STATES && Remembers(z, m)
    ensures Remembers(z.(c := c, state := AfterLiteral(z.state)), NextMemory(m, Lit(b)))
  {
  }

  lemma TopByte(b: byte)
    ensures Top(0x100 + b, 8) == 1
  {
    PowersTable();
  }

  lemma MatchedBegins(coder: nat, b: byte, m: byte, base: nat)
    requires coder < 16 && base == TreeBase(LiteralTree(coder))
    ensures MatchedAt(coder, 0x100 + b, m, 8, base, 1, 2 * m, 0x100)
  {
    TopByte(b);
    TopByte(m);
    PowersTable();
    hide Top;
  }

  // Whatever the packet: when its choices are read, it is decoded again, and afterwards the
  // decoder remembers what the writer does.
  lemma PacketReads(z: Lzma, m: Memory, props: Props, h: seq<byte>, p: Packet, input: seq<byte>)
    requires Good(z) && Remembers(z, m) && ValidProps(props)
    requires (p.Rep? ==> p.k < 4) && (p.Match? || p.Rep? ==> 2 <= Length(p) <= 273)
    requires Carries(z.c, input, Choices(p, m, props, h))
    ensures var (z1, symbol) := DecodeSymbol(z, props, h, input);
            && symbol == (if p.Lit? then Literal(p.b) else Repeat(Length(p)))
            && Remembers(z1, NextMemory(m, p))
            && z1.c == After(z.c, input, Choices(p, m, props, h))
  {
    hide DecodeLiteral, DecodeRepeat, DecodeBit, Carries, After, LiteralChoices, RepeatChoices, NextMemory, Pow2, Sound;
    var pos := PosOf(props, h);
    var rest := if p.Lit? then LiteralChoices(m, props, h, p.b) else RepeatChoices(m, pos, p);
    CarriesOne(z.c, input, Modelled(IsMatch(m.state, pos), !p.Lit?), rest);
    var (c, isMatch) := DecodeBit(z.c, IS_MATCH + 16 * z.state + pos, input);
    if p.Lit? {
      LiteralReads(z.(c := c), m, props, h, p.b, input);
    } else {
      RepeatReads(z.(c := c), m, pos, p, input);
    }
  }

  /* ---- Copies ---- */

  lemma CopiedStep(h: seq<byte>, dist: nat, len: nat)
    requires dist < |h| && 0 < len
    ensures Copied(h, dist, len) == [h[|h| - 1 - dist]] + Copied(h + [h[|h| - 1 - dist]], dist, len - 1)
  {
    var h' := h + [h[|h| - 1 - dist]];
    forall i | 0 <= i < len
      ensures Copied(h, dist, len)[i] == ([h[|h| - 1 - dist]] + Copied(h', dist, len - 1))[i]
    {
      if 0 < i {
        NextInPattern(i - 1, dist + 1);
      }
    }
  }

  // Copying byte by byte what may not have been there before gives the pattern over and over.
  lemma {:induction false} RepeatCopies(h: seq<byte>, dist: nat, len: nat)
    requires dist < |h|
    ensures RepeatFrom(h, dist, len) == h + Copied(h, dist, len)
    decreases len
  {
    if len == 0 {
      assert h + Copied(h, dist, 0) == h;
    } else {
      CopiedStep(h, dist, len);
      hide Copied;
      var h' := h + [HistoryByte(h, dist)];
      RepeatCopies(h', dist, len - 1);
      Concat3(h, [HistoryByte(h, dist)], Copied(h', dist, len - 1));
    }
  }

  lemma NextInPattern(i: nat, n: nat)
    requires 0 < n
    ensures (i + 1) % n == if i % n == n - 1 then 0 else i % n + 1
  {
    assert i == n * (i / n) + i % n;
    if i % n == n - 1 {
      assert n * (i / n + 1) == n * (i / n) + n;
      QuotientIs(i + 1, n, i / n + 1, 0);
    } else {
      QuotientIs(i + 1, n, i / n, i % n + 1);
    }
  }
}
