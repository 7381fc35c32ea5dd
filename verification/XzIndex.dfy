// The Index and the Stream Footer of an .xz stream, taken byte by byte: what the decoder
// accepts is exactly what sections 4 and 2.1.2 of the .xz file format lay down for the Blocks
// that it has decoded.
module XzIndex {
  import opened Words
  import opened Crc32
  import opened Vli

  const TWO64 := 0x1_0000_0000_0000_0000

  // The sizes of one Block.
  datatype Record = Record(unpadded: nat, uncompressed: nat)

  // Sums modulo 2^64, and a CRC over how they grew.
  datatype Hash = Hash(unpadded: nat, uncompressed: nat, crc: Checksum)

  function Le(n: nat, count: nat): (r: seq<byte>)
    ensures |r| == count
  {
    if count == 0 then [] else [n % 0x100] + Le(n / 0x100, count - 1)
  }

  // The hash as it lies in memory, with four bytes of padding.
  function HashBytes(h: Hash): seq<byte> {
    Le(h.unpadded, 8) + Le(h.uncompressed, 8) + CrcBytes(h.crc) + [0, 0, 0, 0]
  }

  function AddRecord(h: Hash, r: Record): Hash {
    var sums := h.(unpadded := (h.unpadded + r.unpadded) % TWO64, uncompressed := (h.uncompressed + r.uncompressed) % TWO64);
    sums.(crc := Crc(HashBytes(sums), sums.crc))
  }

  function HashAll(h: Hash, rs: seq<Record>): Hash
    decreases |rs|
  {
    if rs == [] then h else HashAll(AddRecord(h, rs[0]), rs[1..])
  }

  const NO_HASH := Hash(0, 0, ZERO_CRC)

  // What the decoder knows of the Blocks: their number and hash; and the type of check.
  datatype Blocks = Blocks(count: nat, hash: Hash, check: byte)

  datatype IndexPhase = Indicator | CountField | UnpaddedField | UncompressedField | Padding | CheckCrc | Footer | Accepted | Rejected

  // The decoder inside the Index: size and crc cover it up to here. temp collects the footer.
  datatype Index = Index(phase: IndexPhase, pos: nat, vli: nat, size: nat, crc: Checksum, count: nat, hash: Hash, temp: seq<byte>)

  predicate InField(p: IndexPhase) {
    p == CountField || p == UnpaddedField || p == UncompressedField
  }

  // Before the byte that tells the Index from a Block.
  function BeforeIndex(): Index {
    Index(Indicator, 0, 0, 0, ZERO_CRC, 0, NO_HASH, [])
  }

  // After that byte, which is part of the Index.
  function StartIndex(): Index {
    Index(CountField, 0, 0, 1, Crc([0], ZERO_CRC), 0, NO_HASH, [])
  }

  // More bytes of the Index have gone by.
  function Grown(s: Index, data: seq<byte>): Index {
    s.(size := s.size + |data|, crc := Crc(data, s.crc))
  }

  function FieldDone(s: Index, blocks: Blocks, n: nat): Index {
    var t := s.(pos := 0, vli := 0);
    match s.phase
    case CountField =>
      if n != blocks.count then t.(phase := Rejected)
      else t.(count := n, phase := if n == 0 then Padding else UnpaddedField)
    case UnpaddedField => t.(hash := s.hash.(unpadded := (s.hash.unpadded + n) % TWO64), phase := UncompressedField)
    case UncompressedField =>
      var sums := s.hash.(uncompressed := (s.hash.uncompressed + n) % TWO64);
      t.(hash := sums.(crc := Crc(HashBytes(sums), sums.crc)), count := if s.count == 0 then 0 else s.count - 1,
         phase := if s.count <= 1 then Padding else UnpaddedField)
    case _ => s
  }

  // With the padding complete the sizes of the Blocks are compared.
  function Settle(s: Index, blocks: Blocks): Index {
    if s.phase != Padding || s.size % 4 != 0 then s
    else if s.hash == blocks.hash then s.(phase := CheckCrc, pos := 0)
    else s.(phase := Rejected)
  }

  function FooterOk(t: seq<byte>, size: nat, check: byte): bool
    requires |t| == 12
  {
    && t[10] == 0x59 && t[11] == 0x5A
    && CrcBytes(Crc(t[4..10], ZERO_CRC)) == t[..4]
    && size / 4 == FromLe(t[4..8])
    && t[8] == 0 && t[9] == check
  }

  function FromLe(t: seq<byte>): (r: nat) {
    if t == [] then 0
    else
      var b: nat := t[0];
      b + 0x100 * FromLe(t[1..])
  }

  function IndexByte(s: Index, blocks: Blocks, b: byte): Index {
    match s.phase
    case Indicator => if b == 0 then StartIndex() else s.(phase := Rejected)
    case CheckCrc =>
      if b != CrcByte(s.crc, s.pos / 8) then s.(phase := Rejected)
      else if s.pos + 8 < 32 then s.(pos := s.pos + 8)
      else s.(phase := Footer, pos := 0, crc := ZERO_CRC, temp := [])
    case Footer =>
      var t := s.(temp := s.temp + [b]);
      if |t.temp| < 12 then t
      else if |t.temp| == 12 && FooterOk(t.temp, s.size, blocks.check) then t.(phase := Accepted)
      else t.(phase := Rejected)
    case Padding => if b != 0 then s.(phase := Rejected) else Settle(Grown(s, [b]), blocks)
    case Accepted => s.(phase := Rejected)
    case Rejected => s
    case _ =>
      match VliByte(s.pos, s.vli, b)
      case VliMore(p, v) => Grown(s, [b]).(pos := p, vli := v)
      case VliDone(n) => Settle(FieldDone(Grown(s, [b]), blocks, n), blocks)
      case VliBad => s.(phase := Rejected)
  }

  function IndexBytes(s: Index, blocks: Blocks, data: seq<byte>): Index
    decreases |data|
  {
    if data == [] then s else IndexBytes(IndexByte(s, blocks, data[0]), blocks, data[1..])
  }

  // However the bytes are split over calls.
  lemma {:induction false} IndexSplits(s: Index, blocks: Blocks, a: seq<byte>, b: seq<byte>)
    ensures IndexBytes(s, blocks, a + b) == IndexBytes(IndexBytes(s, blocks, a), blocks, b)
    decreases |a|
  {
    hide IndexByte;
    if a == [] {
      assert a + b == b;
    } else {
      assert (a + b)[1..] == a[1..] + b;
      IndexSplits(IndexByte(s, blocks, a[0]), blocks, a[1..], b);
    }
  }

  lemma {:induction false} StaysRejected(s: Index, blocks: Blocks, data: seq<byte>)
    requires s.phase == Rejected
    ensures IndexBytes(s, blocks, data) == s
    decreases |data|
  {
    if data != [] {
      StaysRejected(s, blocks, data[1..]);
    }
  }

  lemma GrownTwice(s: Index, a: seq<byte>, b: seq<byte>)
    ensures Grown(Grown(s, a), b) == Grown(s, a + b)
  {
    hide Crc;
    CrcSplits(a, b, s.crc);
  }

  /* ---- What the Index must look like ---- */

  function EncodeRecords(rs: seq<Record>): seq<byte>
    decreases |rs|
  {
    if rs == [] then [] else Encode(rs[0].unpadded) + Encode(rs[0].uncompressed) + EncodeRecords(rs[1..])
  }

  // All fields fit into variable-length integers.
  predicate Fits(rs: seq<Record>) {
    |rs| < VLI_LIMIT && forall i :: 0 <= i < |rs| ==> rs[i].unpadded < VLI_LIMIT && rs[i].uncompressed < VLI_LIMIT
  }

  function Zeros(n: nat): (r: seq<byte>)
    ensures |r| == n
  {
    seq(n, _ => 0)
  }

  function PadSize(size: nat): nat {
    (4 - size % 4) % 4
  }

  // The Index up to its CRC32, without and with its padding.
  function Unpadded(rs: seq<Record>): seq<byte> {
    [0] + Encode(|rs|) + EncodeRecords(rs)
  }

  function EncodeIndex(rs: seq<Record>): (r: seq<byte>)
    ensures |r| % 4 == 0
  {
    PadIsFour(|Unpadded(rs)|);
    Unpadded(rs) + Zeros(PadSize(|Unpadded(rs)|))
  }

  lemma PadIsFour(n: nat)
    ensures (n + PadSize(n)) % 4 == 0
  {
    var r := n % 4;
    if r == 0 {} else if r == 1 {} else if r == 2 {} else {}
  }

  function EncodeFooter(size: nat, check: byte): (r: seq<byte>)
    ensures |r| == 12
  {
    var flags := Le(size / 4, 4) + [0, check];
    CrcBytes(Crc(flags, ZERO_CRC)) + flags + [0x59, 0x5A]
  }

  // The Index, its CRC32, and the footer.
  function EncodeTail(rs: seq<Record>, check: byte): seq<byte> {
    EncodeIndex(rs) + CrcBytes(Crc(EncodeIndex(rs), ZERO_CRC)) + EncodeFooter(|EncodeIndex(rs)|, check)
  }

  /* ---- Fields ---- */

  // One variable-length integer, and what it does.
  lemma {:induction false} FieldTaken(s: Index, blocks: Blocks, e: seq<byte>, rest: seq<byte>)
    requires InField(s.phase) && VliBytes(s.pos, s.vli, e).VliDone?
    ensures IndexBytes(s, blocks, e + rest) ==
              IndexBytes(Settle(FieldDone(Grown(s, e), blocks, VliBytes(s.pos, s.vli, e).value), blocks), blocks, rest)
    decreases |e|
  {
    hide Crc, VliByte, Settle, HashBytes;
    assert (e + rest)[1..] == e[1..] + rest;
    assert e == [e[0]] + e[1..];
    var r := VliByte(s.pos, s.vli, e[0]);
    if r.VliMore? {
      var t := Grown(s, [e[0]]).(pos := r.pos, vli := r.value);
      FieldTaken(t, blocks, e[1..], rest);
      GrownTwice(s, [e[0]], e[1..]);
    } else {
      assert e == [e[0]];
    }
  }

  // The decoder gets past a field only at the end of an integer.
  lemma {:induction false} FieldEnds(s: Index, blocks: Blocks, data: seq<byte>) returns (k: nat)
    requires InField(s.phase) && IndexBytes(s, blocks, data).phase == Accepted
    ensures k <= |data| && VliBytes(s.pos, s.vli, data[..k]).VliDone?
    decreases |data|
  {
    hide Crc, VliByte, Settle, HashBytes, FieldDone;
    var r := VliByte(s.pos, s.vli, data[0]);
    if r.VliMore? {
      var t := Grown(s, [data[0]]).(pos := r.pos, vli := r.value);
      k := FieldEnds(t, blocks, data[1..]);
      k := k + 1;
      assert data[..k][1..] == data[1..][..k - 1];
    } else if r.VliBad? {
      StaysRejected(s.(phase := Rejected), blocks, data[1..]);
    } else {
      k := 1;
      assert data[..1] == [data[0]];
    }
  }

  // What comes first in data is the encoding of an integer, and it is dealt with.
  lemma FieldOnly(s: Index, blocks: Blocks, data: seq<byte>) returns (n: nat, rest: seq<byte>)
    requires InField(s.phase) && s.pos == 0 && s.vli == 0 && IndexBytes(s, blocks, data).phase == Accepted
    ensures n < VLI_LIMIT && data == Encode(n) + rest
    ensures IndexBytes(s, blocks, data) == IndexBytes(Settle(FieldDone(Grown(s, Encode(n)), blocks, n), blocks), blocks, rest)
  {
    hide IndexByte, Grown, VliBytes, Settle, FieldDone, IndexBytes, Encode;
    var k := FieldEnds(s, blocks, data);
    n, rest := VliBytes(s.pos, s.vli, data[..k]).value, data[k..];
    assert data == data[..k] + rest;
    VliIsExact(data[..k], n);
    FieldTaken(s, blocks, data[..k], rest);
  }

  lemma FieldBack(s: Index, blocks: Blocks, n: nat, rest: seq<byte>)
    requires InField(s.phase) && s.pos == 0 && s.vli == 0 && n < VLI_LIMIT
    ensures IndexBytes(s, blocks, Encode(n) + rest) ==
              IndexBytes(Settle(FieldDone(Grown(s, Encode(n)), blocks, n), blocks), blocks, rest)
  {
    hide IndexByte, Grown, VliBytes, Settle, FieldDone, IndexBytes, Encode;
    VliIsExact(Encode(n), n);
    FieldTaken(s, blocks, Encode(n), rest);
  }

  /* ---- Records ---- */

  // One Record has been dealt with.
  function AfterRecord(s: Index, r: Record): Index {
    Grown(s, Encode(r.unpadded) + Encode(r.uncompressed)).(
      hash := AddRecord(s.hash, r), count := if s.count == 0 then 0 else s.count - 1,
      phase := if s.count <= 1 then Padding else UnpaddedField)
  }

  function AfterRecords(s: Index, rs: seq<Record>): Index {
    Grown(s, EncodeRecords(rs)).(hash := HashAll(s.hash, rs), count := 0, phase := Padding)
  }

  lemma TwoFields(s: Index, blocks: Blocks, r: Record)
    requires s.phase == UnpaddedField && s.pos == 0 && s.vli == 0
    ensures var t := Settle(FieldDone(Grown(s, Encode(r.unpadded)), blocks, r.unpadded), blocks);
            && t.phase == UncompressedField && t.pos == 0 && t.vli == 0
            && FieldDone(Grown(t, Encode(r.uncompressed)), blocks, r.uncompressed) == AfterRecord(s, r)
  {
    hide Crc, HashBytes, Encode;
    CrcSplits(Encode(r.unpadded), Encode(r.uncompressed), s.crc);
  }

  lemma RecordBack(s: Index, blocks: Blocks, r: Record, rest: seq<byte>)
    requires s.phase == UnpaddedField && s.pos == 0 && s.vli == 0 && r.unpadded < VLI_LIMIT && r.uncompressed < VLI_LIMIT
    ensures IndexBytes(s, blocks, Encode(r.unpadded) + Encode(r.uncompressed) + rest) ==
              IndexBytes(Settle(AfterRecord(s, r), blocks), blocks, rest)
  {
    hide IndexBytes, Settle, FieldDone, Grown, Encode, AfterRecord;
    assert Encode(r.unpadded) + Encode(r.uncompressed) + rest == Encode(r.unpadded) + (Encode(r.uncompressed) + rest);
    FieldBack(s, blocks, r.unpadded, Encode(r.uncompressed) + rest);
    TwoFields(s, blocks, r);
    FieldBack(Settle(FieldDone(Grown(s, Encode(r.unpadded)), blocks, r.unpadded), blocks), blocks, r.uncompressed, rest);
  }

  lemma RecordOnly(s: Index, blocks: Blocks, data: seq<byte>) returns (r: Record, rest: seq<byte>)
    requires s.phase == UnpaddedField && s.pos == 0 && s.vli == 0 && IndexBytes(s, blocks, data).phase == Accepted
    ensures r.unpadded < VLI_LIMIT && r.uncompressed < VLI_LIMIT
    ensures data == Encode(r.unpadded) + Encode(r.uncompressed) + rest
    ensures IndexBytes(s, blocks, data) == IndexBytes(Settle(AfterRecord(s, r), blocks), blocks, rest)
  {
    hide IndexBytes, Settle, FieldDone, Grown, Encode, AfterRecord;
    var m, mid := FieldOnly(s, blocks, data);
    TwoFields(s, blocks, Record(m, 0));
    var n;
    n, rest := FieldOnly(Settle(FieldDone(Grown(s, Encode(m)), blocks, m), blocks), blocks, mid);
    r := Record(m, n);
    TwoFields(s, blocks, r);
  }

  lemma RecordsStep(s: Index, rs: seq<Record>)
    requires rs != [] && s.phase == UnpaddedField && s.count == |rs| && s.pos == 0 && s.vli == 0
    ensures |rs| == 1 ==> AfterRecord(s, rs[0]) == AfterRecords(s, rs)
    ensures |rs| > 1 ==>
              var t := AfterRecord(s, rs[0]);
              && t.phase == UnpaddedField && t.count == |rs| - 1 && t.pos == 0 && t.vli == 0
              && AfterRecords(t, rs[1..]) == AfterRecords(s, rs)
  {
    hide Crc, HashBytes, Encode, AddRecord;
    var e := Encode(rs[0].unpadded) + Encode(rs[0].uncompressed);
    CrcSplits(e, EncodeRecords(rs[1..]), s.crc);
    if |rs| == 1 {
      assert rs[1..] == [];
      assert EncodeRecords(rs) == e;
      assert HashAll(AddRecord(s.hash, rs[0]), []) == HashAll(s.hash, rs);
    }
  }

  lemma {:induction false} RecordsBack(s: Index, blocks: Blocks, rs: seq<Record>, rest: seq<byte>)
    requires rs != [] && Fits(rs) && s.phase == UnpaddedField && s.count == |rs| && s.pos == 0 && s.vli == 0
    ensures IndexBytes(s, blocks, EncodeRecords(rs) + rest) == IndexBytes(Settle(AfterRecords(s, rs), blocks), blocks, rest)
    decreases |rs|
  {
    hide IndexBytes, Encode, AfterRecord, AfterRecords, Settle;
    var e := Encode(rs[0].unpadded) + Encode(rs[0].uncompressed);
    RecordsStep(s, rs);
    assert EncodeRecords(rs) + rest == e + (EncodeRecords(rs[1..]) + rest);
    RecordBack(s, blocks, rs[0], EncodeRecords(rs[1..]) + rest);
    if |rs| == 1 {
      assert EncodeRecords(rs[1..]) + rest == rest;
    } else {
      SettleField(AfterRecord(s, rs[0]), blocks);
      RecordsBack(AfterRecord(s, rs[0]), blocks, rs[1..], rest);
    }
  }

  lemma SettleField(s: Index, blocks: Blocks)
    ensures InField(s.phase) ==> Settle(s, blocks) == s
  {
  }

  lemma {:induction false} RecordsOnly(s: Index, blocks: Blocks, data: seq<byte>) returns (rs: seq<Record>, rest: seq<byte>)
    requires s.phase == UnpaddedField && 0 < s.count < VLI_LIMIT && s.pos == 0 && s.vli == 0
    requires IndexBytes(s, blocks, data).phase == Accepted
    ensures |rs| == s.count && Fits(rs) && data == EncodeRecords(rs) + rest
    ensures IndexBytes(s, blocks, data) == IndexBytes(Settle(AfterRecords(s, rs), blocks), blocks, rest)
    decreases s.count
  {
    hide IndexBytes, Encode, AfterRecords, Settle;
    var r, mid := RecordOnly(s, blocks, data);
    if s.count == 1 {
      rs, rest := [r], mid;
      assert rs[1..] == [];
    } else {
      SettleField(AfterRecord(s, r), blocks);
      var more;
      more, rest := RecordsOnly(AfterRecord(s, r), blocks, mid);
      rs := [r] + more;
      assert rs[1..] == more;
    }
    RecordsStep(s, rs);
  }

  /* ---- Padding, CRC32 and footer ---- */

  // With its padding the Index is whole.
  function Padded(s: Index): Index {
    Grown(s, Zeros(PadSize(s.size))).(phase := CheckCrc, pos := 0)
  }

  lemma PadOne(s: Index)
    requires s.size % 4 != 0
    ensures 0 < PadSize(s.size) && PadSize(s.size + 1) == PadSize(s.size) - 1
    ensures Zeros(PadSize(s.size)) == [0] + Zeros(PadSize(s.size + 1))
  {
    var r, q := s.size % 4, s.size / 4;
    assert s.size + 1 == if r == 3 then 4 * (q + 1) else 4 * q + (r + 1);
    assert (s.size + 1) % 4 == if r == 3 then 0 else r + 1;
  }

  lemma {:induction false} PaddingBack(s: Index, blocks: Blocks, rest: seq<byte>)
    requires s.phase == Padding && s.hash == blocks.hash
    ensures IndexBytes(Settle(s, blocks), blocks, Zeros(PadSize(s.size)) + rest) == IndexBytes(Padded(s), blocks, rest)
    decreases PadSize(s.size)
  {
    hide Crc;
    if s.size % 4 == 0 {
      assert Zeros(0) + rest == rest;
      CrcNone(s.crc);
    } else {
      PadOne(s);
      var t := Grown(s, [0]);
      assert (Zeros(PadSize(s.size)) + rest)[1..] == Zeros(PadSize(t.size)) + rest;
      PaddingBack(t, blocks, rest);
      GrownTwice(s, [0], Zeros(PadSize(t.size)));
    }
  }

  lemma {:induction false} PaddingOnly(s: Index, blocks: Blocks, data: seq<byte>) returns (rest: seq<byte>)
    requires s.phase == Padding && IndexBytes(Settle(s, blocks), blocks, data).phase == Accepted
    ensures s.hash == blocks.hash && data == Zeros(PadSize(s.size)) + rest
    ensures IndexBytes(Settle(s, blocks), blocks, data) == IndexBytes(Padded(s), blocks, rest)
    decreases PadSize(s.size)
  {
    hide Crc;
    if s.size % 4 == 0 {
      if s.hash != blocks.hash {
        StaysRejected(Settle(s, blocks), blocks, data);
      }
      rest := data;
      assert Zeros(0) + rest == rest;
      CrcNone(s.crc);
    } else {
      PadOne(s);
      var t := Grown(s, [0]);
      if data[0] != 0 {
        StaysRejected(s.(phase := Rejected), blocks, data[1..]);
      }
      rest := PaddingOnly(t, blocks, data[1..]);
      assert data == [0] + data[1..];
      GrownTwice(s, [0], Zeros(PadSize(t.size)));
    }
  }

  lemma CrcByteStep(s: Index, blocks: Blocks, data: seq<byte>)
    requires s.phase == CheckCrc && s.pos in {0, 8, 16, 24} && data != []
    ensures IndexBytes(s, blocks, data) ==
              if data[0] != CrcByte(s.crc, s.pos / 8) then s.(phase := Rejected)
              else if s.pos < 24 then IndexBytes(s.(pos := s.pos + 8), blocks, data[1..])
              else IndexBytes(AtFooter(s), blocks, data[1..])
  {
    hide CrcByte;
    if data[0] != CrcByte(s.crc, s.pos / 8) {
      StaysRejected(s.(phase := Rejected), blocks, data[1..]);
    }
  }

  function AtFooter(s: Index): Index {
    s.(phase := Footer, pos := 0, crc := ZERO_CRC, temp := [])
  }

  // The four bytes after the padding are the CRC32 of the Index.
  lemma CrcTaken(s: Index, blocks: Blocks, data: seq<byte>)
    requires s.phase == CheckCrc && s.pos == 0
    ensures 4 <= |data| && data[..4] == CrcBytes(s.crc) ==>
              IndexBytes(s, blocks, data) == IndexBytes(AtFooter(s), blocks, data[4..])
    ensures IndexBytes(s, blocks, data).phase == Accepted ==> 4 <= |data| && data[..4] == CrcBytes(s.crc)
  {
    hide CrcByte, IndexByte;
    if 1 <= |data| {
      CrcByteStep(s, blocks, data);
    }
    if 2 <= |data| {
      CrcByteStep(s.(pos := 8), blocks, data[1..]);
      assert data[1..][1..] == data[2..];
    }
    if 3 <= |data| {
      CrcByteStep(s.(pos := 16), blocks, data[2..]);
      assert data[2..][1..] == data[3..];
    }
    if 4 <= |data| {
      CrcByteStep(s.(pos := 24), blocks, data[3..]);
      assert data[3..][1..] == data[4..];
    }
  }

  lemma {:induction false} FooterTaken(s: Index, blocks: Blocks, data: seq<byte>)
    requires s.phase == Footer && |s.temp| < 12
    ensures IndexBytes(s, blocks, data).phase == Accepted <==>
              |s.temp + data| == 12 && FooterOk(s.temp + data, s.size, blocks.check)
    decreases |data|
  {
    hide FooterOk;
    if data != [] {
      var t := s.temp + [data[0]];
      assert s.temp + data == t + data[1..];
      if |t| < 12 {
        FooterTaken(s.(temp := t), blocks, data[1..]);
      } else {
        var u := IndexByte(s, blocks, data[0]);
        assert t + [] == t;
        if data[1..] != [] {
          if u.phase == Rejected {
            StaysRejected(u, blocks, data[1..]);
          } else {
            StaysRejected(u.(phase := Rejected), blocks, data[2..]);
            assert data[1..][1..] == data[2..];
          }
        }
      }
    }
  }

  lemma {:induction false} LeBack(n: nat, count: nat)
    requires n < Bytes(count)
    ensures FromLe(Le(n, count)) == n
    decreases count
  {
    if count > 0 {
      assert Le(n, count)[1..] == Le(n / 0x100, count - 1);
      LeBack(n / 0x100, count - 1);
    }
  }

  // 256^count.
  function Bytes(count: nat): (r: nat) {
    if count == 0 then 1 else 0x100 * Bytes(count - 1)
  }

  lemma {:induction false} LeOnly(t: seq<byte>)
    ensures FromLe(t) < Bytes(|t|) && Le(FromLe(t), |t|) == t
    decreases |t|
  {
    if t != [] {
      var b: nat := t[0];
      var n := FromLe(t);
      LeOnly(t[1..]);
      assert n % 0x100 == b && n / 0x100 == FromLe(t[1..]);
    }
  }

  // The footer that is accepted is the one that fits the Index.
  lemma FooterExact(t: seq<byte>, size: nat, check: byte)
    requires |t| == 12
    ensures FooterOk(t, size, check) <==> size / 4 < 0x1_0000_0000 && t == EncodeFooter(size, check)
  {
    hide CrcByte, Crc, Le, FromLe;
    assert Bytes(4) == 0x1_0000_0000 by {
      assert Bytes(2) == 0x1_0000;
    }
    LeOnly(t[4..8]);
    if size / 4 < 0x1_0000_0000 {
      LeBack(size / 4, 4);
    }
    if FooterOk(t, size, check) {
      assert t[4..10] == t[4..8] + [t[8], t[9]];
      assert t == t[..4] + t[4..10] + [t[10], t[11]];
    }
    if t == EncodeFooter(size, check) {
      assert t[4..10] == Le(size / 4, 4) + [0, check];
      assert t[4..8] == Le(size / 4, 4);
    }
  }

  /* ---- The whole ---- */

  // The Records that the accepted Index holds, and the Blocks that the decoder has seen, are
  // as many, and have the same hash.
  predicate Matches(rs: seq<Record>, blocks: Blocks) {
    && Fits(rs) && |rs| == blocks.count && HashAll(NO_HASH, rs) == blocks.hash
    && |EncodeIndex(rs)| / 4 < 0x1_0000_0000
  }

  // After the last Record, with all of the Index so far accounted for.
  function AfterAll(rs: seq<Record>): Index {
    Grown(Index(Padding, 0, 0, 0, ZERO_CRC, 0, HashAll(NO_HASH, rs), []), Unpadded(rs))
  }

  lemma CountStage(blocks: Blocks, rs: seq<Record>)
    requires |rs| == blocks.count
    ensures var s := FieldDone(Grown(StartIndex(), Encode(|rs|)), blocks, |rs|);
            && s.pos == 0 && s.vli == 0 && s.count == |rs| && s.phase == (if rs == [] then Padding else UnpaddedField)
            && AfterRecords(s, rs) == AfterAll(rs) && (rs == [] ==> s == AfterAll(rs))
  {
    hide Crc, Encode, AddRecord;
    var e := Encode(|rs|);
    CrcSplits([0], e, ZERO_CRC);
    CrcSplits([0] + e, EncodeRecords(rs), ZERO_CRC);
    if rs == [] {
      assert [0] + e + EncodeRecords(rs) == [0] + e;
    }
  }

  lemma AfterPadding(rs: seq<Record>)
    ensures var s := Padded(AfterAll(rs));
            && s.phase == CheckCrc && s.pos == 0 && s.size == |EncodeIndex(rs)| && s.crc == Crc(EncodeIndex(rs), ZERO_CRC)
  {
    hide Crc, Encode;
    CrcSplits(Unpadded(rs), Zeros(PadSize(|Unpadded(rs)|)), ZERO_CRC);
  }

  // From the CRC32 on there is only one way to go on.
  lemma RestExact(blocks: Blocks, rs: seq<Record>, rest: seq<byte>)
    ensures IndexBytes(Padded(AfterAll(rs)), blocks, rest).phase == Accepted <==>
              && |EncodeIndex(rs)| / 4 < 0x1_0000_0000
              && rest == CrcBytes(Crc(EncodeIndex(rs), ZERO_CRC)) + EncodeFooter(|EncodeIndex(rs)|, blocks.check)
  {
    hide Crc, Encode, IndexBytes, EncodeFooter, FooterOk, EncodeIndex, CrcByte, IndexByte, AfterAll, Padded, Crc;
    var s := Padded(AfterAll(rs));
    AfterPadding(rs);
    CrcTaken(s, blocks, rest);
    if 4 <= |rest| {
      FooterTaken(AtFooter(s), blocks, rest[4..]);
      assert [] + rest[4..] == rest[4..];
      assert rest == rest[..4] + rest[4..];
      if |rest| == 16 {
        FooterExact(rest[4..], s.size, blocks.check);
      }
    }
  }

  // The decoder accepts exactly the Index and the footer of the Blocks it has decoded.
  lemma TailIsExact(blocks: Blocks, data: seq<byte>)
    requires blocks.count < VLI_LIMIT
    ensures IndexBytes(StartIndex(), blocks, data).phase == Accepted <==>
              exists rs :: Matches(rs, blocks) && [0] + data == EncodeTail(rs, blocks.check)
  {
    hide IndexBytes, EncodeTail, Matches, StartIndex;
    if IndexBytes(StartIndex(), blocks, data).phase == Accepted {
      var rs := TailOnly(blocks, data);
    }
    forall rs | Matches(rs, blocks) && [0] + data == EncodeTail(rs, blocks.check)
      ensures IndexBytes(StartIndex(), blocks, data).phase == Accepted
    {
      TailBack(blocks, rs, data);
    }
  }

  // The same with the byte that tells the Index from a Block.
  lemma StreamTailIsExact(blocks: Blocks, data: seq<byte>)
    requires blocks.count < VLI_LIMIT
    ensures IndexBytes(BeforeIndex(), blocks, data).phase == Accepted <==>
              exists rs :: Matches(rs, blocks) && data == EncodeTail(rs, blocks.check)
  {
    hide EncodeTail, Matches, StartIndex;
    forall rs
      ensures EncodeTail(rs, blocks.check) != [] && EncodeTail(rs, blocks.check)[0] == 0
    {
      TailStarts(blocks, rs);
    }
    if data == [] {
    } else if data[0] != 0 {
      StaysRejected(BeforeIndex().(phase := Rejected), blocks, data[1..]);
    } else {
      assert data == [0] + data[1..];
      TailIsExact(blocks, data[1..]);
    }
  }

  lemma TailStarts(blocks: Blocks, rs: seq<Record>)
    ensures EncodeTail(rs, blocks.check) != [] && EncodeTail(rs, blocks.check)[0] == 0
  {
    hide EncodeTail, Encode, EncodeRecords, CrcBytes, EncodeFooter, EncodeIndex, Crc;
    TailSplits(blocks, rs, []);
  }

  lemma TailSplits(blocks: Blocks, rs: seq<Record>, rest: seq<byte>)
    ensures EncodeTail(rs, blocks.check) ==
              [0] + (Encode(|rs|) + (EncodeRecords(rs) + (Zeros(PadSize(|Unpadded(rs)|)) +
                (CrcBytes(Crc(EncodeIndex(rs), ZERO_CRC)) + EncodeFooter(|EncodeIndex(rs)|, blocks.check)))))
  {
    hide Crc, Encode, CrcBytes, EncodeFooter, EncodeRecords;
  }

  lemma TailBack(blocks: Blocks, rs: seq<Record>, data: seq<byte>)
    requires Matches(rs, blocks) && [0] + data == EncodeTail(rs, blocks.check)
    ensures IndexBytes(StartIndex(), blocks, data).phase == Accepted
  {
    hide IndexBytes, Encode, FieldDone, Grown, Crc, CrcByte, AfterAll, AfterRecords, EncodeRecords, Padded, EncodeFooter;
    var end := CrcBytes(Crc(EncodeIndex(rs), ZERO_CRC)) + EncodeFooter(|EncodeIndex(rs)|, blocks.check);
    var padded := Zeros(PadSize(|Unpadded(rs)|)) + end;
    TailSplits(blocks, rs, []);
    assert data == ([0] + data)[1..] == Encode(|rs|) + (EncodeRecords(rs) + padded);
    FieldBack(StartIndex(), blocks, |rs|, EncodeRecords(rs) + padded);
    CountStage(blocks, rs);
    var s := FieldDone(Grown(StartIndex(), Encode(|rs|)), blocks, |rs|);
    if rs == [] {
      assert EncodeRecords(rs) + padded == padded by {
        NoRecords();
      }
    } else {
      RecordsBack(s, blocks, rs, padded);
    }
    AllPending(rs);
    PaddingBack(AfterAll(rs), blocks, end);
    RestExact(blocks, rs, end);
  }

  lemma NoRecords()
    ensures EncodeRecords([]) == []
  {
  }

  lemma AllPending(rs: seq<Record>)
    ensures AfterAll(rs).phase == Padding && AfterAll(rs).size == |Unpadded(rs)| && AfterAll(rs).hash == HashAll(NO_HASH, rs)
  {
    hide Crc, Encode, HashAll;
  }

  lemma TailOnly(blocks: Blocks, data: seq<byte>) returns (rs: seq<Record>)
    requires blocks.count < VLI_LIMIT && IndexBytes(StartIndex(), blocks, data).phase == Accepted
    ensures Matches(rs, blocks) && [0] + data == EncodeTail(rs, blocks.check)
  {
    hide IndexBytes, Encode, Grown, Crc, CrcByte, AfterAll, AfterRecords, EncodeRecords, Padded, EncodeFooter;
    var n, rest := FieldOnly(StartIndex(), blocks, data);
    var s := FieldDone(Grown(StartIndex(), Encode(n)), blocks, n);
    CountOnly(blocks, n);
    if n != blocks.count {
      StaysRejected(s, blocks, rest);
    }
    var padded := rest;
    if n == 0 {
      rs := [];
      NoRecords();
    } else {
      rs, padded := RecordsOnly(s, blocks, rest);
    }
    CountStage(blocks, rs);
    AllPending(rs);
    var end := PaddingOnly(AfterAll(rs), blocks, padded);
    RestExact(blocks, rs, end);
    TailSplits(blocks, rs, []);
  }

  lemma CountOnly(blocks: Blocks, n: nat)
    ensures var s := FieldDone(Grown(StartIndex(), Encode(n)), blocks, n);
            if n != blocks.count then s.phase == Rejected == Settle(s, blocks).phase
            else s.pos == 0 && s.vli == 0 && s.count == n && s.phase == if n == 0 then Padding else UnpaddedField
  {
    hide Crc, Encode;
  }

  /* ---- What the hash says about the sizes ---- */

  function Sum(rs: seq<Record>): (r: Record)
    decreases |rs|
  {
    if rs == [] then Record(0, 0)
    else
      var more := Sum(rs[1..]);
      Record(rs[0].unpadded + more.unpadded, rs[0].uncompressed + more.uncompressed)
  }

  lemma {:induction false} HashSums(h: Hash, rs: seq<Record>)
    requires h.unpadded < TWO64 && h.uncompressed < TWO64
    ensures HashAll(h, rs).unpadded == (h.unpadded + Sum(rs).unpadded) % TWO64
    ensures HashAll(h, rs).uncompressed == (h.uncompressed + Sum(rs).uncompressed) % TWO64
    decreases |rs|
  {
    hide Crc, HashBytes;
    if rs != [] {
      HashSums(AddRecord(h, rs[0]), rs[1..]);
      SumWraps(h.unpadded + rs[0].unpadded, Sum(rs[1..]).unpadded);
      SumWraps(h.uncompressed + rs[0].uncompressed, Sum(rs[1..]).uncompressed);
    }
  }

  lemma SumWraps(a: nat, b: nat)
    ensures (a % TWO64 + b) % TWO64 == (a + b) % TWO64
  {
    var q := a / TWO64;
    assert a + b == (a % TWO64 + b) + TWO64 * q;
    ShiftWraps(a % TWO64 + b, q);
  }

  lemma ShiftWraps(a: nat, q: nat)
    ensures (a + TWO64 * q) % TWO64 == a % TWO64
  {
  }

  lemma {:induction false} HashAppend(h: Hash, rs: seq<Record>, r: Record)
    ensures HashAll(h, rs + [r]) == AddRecord(HashAll(h, rs), r)
    decreases |rs|
  {
    hide AddRecord;
    if rs == [] {
      assert [r][1..] == [];
    } else {
      assert (rs + [r])[1..] == rs[1..] + [r];
      HashAppend(AddRecord(h, rs[0]), rs[1..], r);
    }
  }

  // An accepted Index has as many Records as there were Blocks, and both sums of sizes agree
  // modulo 2^64.
  lemma AcceptedSums(bs: seq<Record>, check: byte, data: seq<byte>) returns (rs: seq<Record>)
    requires |bs| < VLI_LIMIT
    requires IndexBytes(BeforeIndex(), Blocks(|bs|, HashAll(NO_HASH, bs), check), data).phase == Accepted
    ensures |rs| == |bs| && data == EncodeTail(rs, check)
    ensures Sum(rs).unpadded % TWO64 == Sum(bs).unpadded % TWO64
    ensures Sum(rs).uncompressed % TWO64 == Sum(bs).uncompressed % TWO64
  {
    hide IndexBytes, BeforeIndex, EncodeTail, HashAll, EncodeIndex;
    var blocks := Blocks(|bs|, HashAll(NO_HASH, bs), check);
    StreamTailIsExact(blocks, data);
    rs :| Matches(rs, blocks) && data == EncodeTail(rs, check);
    HashSums(NO_HASH, rs);
    HashSums(NO_HASH, bs);
  }
}
