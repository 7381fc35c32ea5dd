// Variable-length integers of the .xz container: seven bits to a byte, the lowest ones first,
// as section 1.2 of the .xz file format lays down.
module Vli {
  import opened Words

  const VLI_BYTES_MAX := 9
  // 2^63: the values that nine bytes can hold.
  const VLI_LIMIT := 0x8000_0000_0000_0000

  function Encode(n: nat): (r: seq<byte>)
    ensures 0 < |r|
  {
    if n < 0x80 then [n] else [0x80 + n % 0x80] + Encode(n / 0x80)
  }

  // What has been decoded, after pos bits.
  datatype VliState = VliMore(pos: nat, value: nat) | VliDone(value: nat) | VliBad

  // The bits of a byte, put in place behind pos others.
  function Placed(d: nat, pos: nat): (r: nat) {
    d * Pow2(pos)
  }

  function VliByte(pos: nat, value: nat, b: byte): VliState {
    hide Placed;
    var d: nat := b;
    if d < 0x80 then
      if d == 0 && pos != 0 then VliBad else VliDone(value + Placed(d, pos))
    else if pos + 7 == 7 * VLI_BYTES_MAX then VliBad
    else VliMore(pos + 7, value + Placed(d - 0x80, pos))
  }

  // All of data is one integer, or the beginning of one.
  function VliBytes(pos: nat, value: nat, data: seq<byte>): VliState
    decreases |data|
  {
    if data == [] then VliMore(pos, value)
    else
      match VliByte(pos, value, data[0])
      case VliMore(p, v) => VliBytes(p, v, data[1..])
      case other => if |data| == 1 then other else VliBad
  }

  // However the input is split: what was decoded of the first part is all that counts.
  lemma {:induction false} VliSplits(pos: nat, value: nat, a: seq<byte>, b: seq<byte>)
    ensures VliBytes(pos, value, a + b) ==
              match VliBytes(pos, value, a)
              case VliMore(p, v) => VliBytes(p, v, b)
              case other => if b == [] then other else VliBad
    decreases |a|
  {
    hide VliByte;
    if a == [] {
      assert a + b == b;
    } else {
      assert (a + b)[1..] == a[1..] + b;
      var s := VliByte(pos, value, a[0]);
      if s.VliMore? {
        VliSplits(s.pos, s.value, a[1..], b);
      }
    }
  }

  predicate OnTheWay(pos: nat) {
    pos % 7 == 0 && pos < 7 * VLI_BYTES_MAX
  }

  // 2^(63 - pos): what may still come after pos bits.
  function Room(pos: nat): nat
    requires pos <= 63
  {
    Pow2(63 - pos)
  }

  lemma RoomStep(pos: nat)
    requires OnTheWay(pos)
    ensures Pow2(pos + 7) == 0x80 * Pow2(pos) && pos + 7 <= 63 && Room(pos) == 0x80 * Room(pos + 7)
    ensures 0x80 <= Room(pos) && (pos + 7 == 63 <==> Room(pos + 7) == 1)
  {
    Pow2Seven(pos);
    Pow2Seven(56 - pos);
    if pos + 7 < 63 {
      Pow2Seven(49 - pos);
    }
  }

  lemma Pow2Seven(n: nat)
    ensures Pow2(n + 7) == 0x80 * Pow2(n)
  {
    Pow2Add(n, 7);
    assert Pow2(3) == 8 && Pow2(5) == 4 * Pow2(3) && Pow2(7) == 4 * Pow2(5);
  }

  // An encoded integer decodes to itself, if it fits in what is left of the 63 bits. Only a
  // lone 0 may end in the byte 0.
  lemma {:induction false} EncodeDecodes(pos: nat, value: nat, n: nat)
    requires OnTheWay(pos) && n < Room(pos) && (0 < pos ==> 0 < n)
    ensures VliBytes(pos, value, Encode(n)) == VliDone(value + n * Pow2(pos))
    decreases n
  {
    hide Pow2, Room;
    RoomStep(pos);
    if n < 0x80 {
    } else {
      var low, rest := n % 0x80, n / 0x80;
      assert Encode(n)[1..] == Encode(rest);
      EncodeDecodes(pos + 7, value + low * Pow2(pos), rest);
      Regroup(n, Pow2(pos));
    }
  }

  lemma Regroup(n: nat, p: nat)
    ensures n % 0x80 * p + n / 0x80 * (0x80 * p) == n * p
  {
    var q, r := n / 0x80, n % 0x80;
    assert n == 0x80 * q + r;
    assert q * (0x80 * p) == (0x80 * q) * p;
    assert r * p + (0x80 * q) * p == (r + 0x80 * q) * p;
  }

  // Nothing else decodes.
  lemma {:induction false} DecodesOnlyEncoded(pos: nat, value: nat, data: seq<byte>) returns (n: nat)
    requires OnTheWay(pos) && VliBytes(pos, value, data).VliDone?
    ensures data == Encode(n) && n < Room(pos) && (0 < pos ==> 0 < n)
    ensures VliBytes(pos, value, data).value == value + n * Pow2(pos)
    decreases |data|
  {
    hide Pow2, Room;
    RoomStep(pos);
    var b: nat := data[0];
    if b < 0x80 {
      n := b;
    } else {
      var low := b - 0x80;
      var rest := DecodesOnlyEncoded(pos + 7, value + low * Pow2(pos), data[1..]);
      n := low + 0x80 * rest;
      assert n % 0x80 == low && n / 0x80 == rest;
      Regroup(n, Pow2(pos));
    }
  }

  // The decoder accepts exactly the shortest encodings of the integers below 2^63, and gives
  // back the integer that was encoded.
  lemma VliIsExact(data: seq<byte>, n: nat)
    ensures VliBytes(0, 0, data) == VliDone(n) <==> n < VLI_LIMIT && data == Encode(n)
  {
    hide VliBytes, Encode;
    RoomAtStart();
    if VliBytes(0, 0, data) == VliDone(n) {
      var m := DecodesOnlyEncoded(0, 0, data);
    }
    if n < VLI_LIMIT && data == Encode(n) {
      EncodeDecodes(0, 0, n);
    }
  }

  lemma RoomAtStart()
    ensures Room(0) == VLI_LIMIT && Pow2(0) == 1
  {
    assert Pow2(0) == 1;
    hide Pow2;
    assert Pow2(7) == 0x80 by { Pow2Seven(0); }
    assert Pow2(14) == 0x4000 by { Pow2Seven(7); }
    assert Pow2(21) == 0x20_0000 by { Pow2Seven(14); }
    assert Pow2(28) == 0x1000_0000 by { Pow2Seven(21); }
    assert Pow2(35) == 0x8_0000_0000 by { Pow2Seven(28); }
    assert Pow2(42) == 0x400_0000_0000 by { Pow2Seven(35); }
    assert Pow2(49) == 0x2_0000_0000_0000 by { Pow2Seven(42); }
    assert Pow2(56) == 0x100_0000_0000_0000 by { Pow2Seven(49); }
    assert Pow2(63) == 0x8000_0000_0000_0000 by { Pow2Seven(56); }
  }

  lemma EncodeIsOneToOne(m: nat, n: nat)
    requires m < VLI_LIMIT && n < VLI_LIMIT && Encode(m) == Encode(n)
    ensures m == n
  {
    VliIsExact(Encode(m), m);
    VliIsExact(Encode(n), n);
  }

  // After every byte the bits decoded so far are below 2^pos, so that the next ones can be
  // added in instead of or'ed in.
  lemma {:induction false} VliDisjoint(data: seq<byte>)
    ensures var r := VliBytes(0, 0, data);
            r.VliMore? ==> OnTheWay(r.pos) && r.value < Pow2(r.pos)
    decreases |data|
  {
    hide Pow2;
    if data == [] {
      RoomAtStart();
    } else {
      var n := |data| - 1;
      VliDisjoint(data[..n]);
      assert data == data[..n] + [data[n]];
      VliSplits(0, 0, data[..n], [data[n]]);
      var r := VliBytes(0, 0, data[..n]);
      if r.VliMore? {
        Pow2Seven(r.pos);
        var low: nat := if data[n] < 0x80 then 0 else data[n] - 0x80;
        MulMonotone(Pow2(r.pos), low, 0x7F);
        assert VliBytes(r.pos, r.value, [data[n]]) == match VliByte(r.pos, r.value, data[n])
                                                     case VliMore(p, v) => VliMore(p, v)
                                                     case other => other;
      }
    }
  }
}
