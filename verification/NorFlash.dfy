// NOR flash: programming can only clear bits, erasing sets them all again.
module NorFlash {
  import opened Words
  import opened Bits

  // Bitwise conjunction.
  function And(x: nat, y: nat): (r: nat)
    ensures r <= x && r <= y
  {
    if x == 0 || y == 0 then 0
    else (if x % 2 == 1 && y % 2 == 1 then 1 else 0) + 2 * And(x / 2, y / 2)
  }

  // Every bit of x is one of y.
  predicate Within(x: nat, y: nat) {
    And(x, y) == x
  }

  lemma AndStep(x: nat, y: nat)
    ensures And(x, y) == (if x % 2 == 1 && y % 2 == 1 then 1 else 0) + 2 * And(x / 2, y / 2)
  {
  }

  lemma {:induction false} AndOnes(n: nat, y: nat)
    requires y < Pow2(n)
    ensures And(Pow2(n) - 1, y) == y
    decreases n
  {
    if n > 0 {
      hide And;
      var p := Pow2(n - 1);
      AndOnes(n - 1, y / 2);
      AndStep(2 * p - 1, y);
      assert (2 * p - 1) / 2 == p - 1 && (2 * p - 1) % 2 == 1;
    }
  }

  lemma AndErased(y: byte)
    ensures And(0xFF, y) == y
  {
    assert Pow2(8) == 0x100 by {
      assert Pow2(4) == 16;
    }
    AndOnes(8, y);
  }

  lemma {:induction false} AndSame(x: nat)
    ensures And(x, x) == x
  {
    if x > 0 {
      AndSame(x / 2);
    }
  }

  // An operation on an area of flash, whose first byte has offset 0.
  datatype Op = Erase | Program(at: nat, data: seq<byte>)

  function Do(a: seq<byte>, op: Op): (r: seq<byte>)
    ensures |r| == |a|
  {
    match op
    case Erase => seq(|a|, _ => 0xFF)
    case Program(at, data) =>
      seq(|a|, i requires 0 <= i < |a| => if at <= i < at + |data| then And(a[i], data[i - at]) else a[i])
  }

  function DoAll(a: seq<byte>, ops: seq<Op>): (r: seq<byte>)
    ensures |r| == |a|
    decreases |ops|
  {
    if ops == [] then a else DoAll(Do(a, ops[0]), ops[1..])
  }

  lemma DoNone(a: seq<byte>)
    ensures DoAll(a, []) == a
  {
  }

  // The power went off while op was under way: of the bits that it was to clear any number
  // has been cleared, and no other bit has changed.
  ghost predicate Partly(a: seq<byte>, op: Op, a': seq<byte>) {
    && op.Program? && |a'| == |a|
    && forall i :: 0 <= i < |a| ==>
         Within(a'[i], a[i]) && Within(Do(a, op)[i], a'[i])
  }

  // The power went off at some point of a series of operations.
  ghost predicate Interrupted(a: seq<byte>, ops: seq<Op>, a': seq<byte>)
    decreases |ops|
  {
    || a' == a
    || (ops != [] && (Partly(a, ops[0], a') || Interrupted(Do(a, ops[0]), ops[1..], a')))
  }

  lemma {:induction false} Completed(a: seq<byte>, ops: seq<Op>)
    ensures Interrupted(a, ops, DoAll(a, ops))
    decreases |ops|
  {
    if ops != [] {
      Completed(Do(a, ops[0]), ops[1..]);
    }
  }

  // What programming does, bit by bit: the bits that are left are those that are set both in
  // the flash and in the data; none is set that was not, and nothing else changes.
  lemma ProgramClears(a: seq<byte>, at: nat, data: seq<byte>, i: nat, k: nat)
    requires i < |a|
    ensures var r := Do(a, Program(at, data));
            if at <= i < at + |data| then Bit(r[i], k) == (Bit(a[i], k) && Bit(data[i - at], k)) else r[i] == a[i]
    ensures Within(Do(a, Program(at, data))[i], a[i])
  {
    if at <= i < at + |data| {
      BitAnd(a[i], data[i - at], k);
      AndTwice(a[i], data[i - at]);
    } else {
      AndSame(a[i]);
    }
  }

  lemma {:induction false} BitAnd(x: nat, y: nat, k: nat)
    ensures Bit(And(x, y), k) == (Bit(x, k) && Bit(y, k))
    decreases k
  {
    if x == 0 || y == 0 {
      NoBits(k);
    } else if k > 0 {
      assert And(x, y) / 2 == And(x / 2, y / 2);
      BitAnd(x / 2, y / 2, k - 1);
    }
  }

  lemma {:induction false} AndTwice(x: nat, y: nat)
    ensures And(And(x, y), x) == And(x, y)
  {
    if x > 0 && y > 0 {
      var z := And(x, y);
      assert z / 2 == And(x / 2, y / 2) && z % 2 == (if x % 2 == 1 && y % 2 == 1 then 1 else 0);
      AndTwice(x / 2, y / 2);
    }
  }

  // A flash device. Reads and writes beyond its end fail; so does nothing else.
  class Flash {
    var mem: seq<byte>

    constructor (mem: seq<byte>)
      ensures this.mem == mem
    {
      this.mem := mem;
    }

    method Read(at: nat, n: nat) returns (data: seq<byte>)
      ensures data == if at + n <= |mem| then mem[at..at + n] else []
    {
      data := if at + n <= |mem| then mem[at..at + n] else [];
    }

    method EraseArea(at: nat, n: nat) returns (ok: bool)
      modifies this
      ensures ok <==> at + n <= old(|mem|)
      ensures mem == if ok then old(mem[..at]) + Do(old(mem[at..at + n]), Erase) + old(mem[at + n..]) else old(mem)
    {
      ok := at + n <= |mem|;
      if ok {
        mem := mem[..at] + seq(n, _ => 0xFF) + mem[at + n..];
      }
    }

    method Write(at: nat, data: seq<byte>) returns (n: nat)
      modifies this
      ensures n == if at + |data| <= old(|mem|) then |data| else 0
      ensures mem == if at + |data| <= old(|mem|) then Do(old(mem), Program(at, data)) else old(mem)
    {
      n := 0;
      if at + |data| <= |mem| {
        mem := Do(mem, Program(at, data));
        n := |data|;
      }
    }
  }

  // Programming inside an area is programming the device.
  lemma ProgramInside(mem: seq<byte>, base: nat, size: nat, at: nat, data: seq<byte>)
    requires base + size <= |mem| && at + |data| <= size
    ensures Do(mem, Program(base + at, data)) ==
              mem[..base] + Do(mem[base..base + size], Program(at, data)) + mem[base + size..]
  {
    hide And;
    var x := Do(mem, Program(base + at, data));
    var y := Do(mem[base..base + size], Program(at, data));
    assert x[..base] == mem[..base];
    assert x[base + size..] == mem[base + size..];
    assert x[base..base + size] == y;
    assert x == x[..base] + x[base..base + size] + x[base + size..];
  }
}
