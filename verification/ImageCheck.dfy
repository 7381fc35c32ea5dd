// Checking the sections of an image: 16-bit sums over headers and data, which come out at all
// ones for a section that is whole.
module ImageChecksum {
  import opened Words

  const ONES := 0xFFFF

  function Wrap16(x: nat): (r: nat)
    ensures r < 0x1_0000
  {
    x % 0x1_0000
  }

  // The sum of the halfwords, low bytes first; a last single byte counts as a halfword.
  function Checksum16(data: seq<byte>): (r: nat)
    ensures r < 0x1_0000
  {
    if data == [] then 0
    else
      var lo: nat := data[0];
      if |data| == 1 then lo
      else
        var hi: nat := data[1];
        Wrap16(lo + 0x100 * hi + Checksum16(data[2..]))
  }

  lemma WrapTwice(x: nat, y: nat)
    ensures Wrap16(x + Wrap16(y)) == Wrap16(x + y)
    ensures Wrap16(Wrap16(x) + y) == Wrap16(x + y)
  {
  }

  // The sum can be taken piece by piece, if only the last piece is of odd length.
  lemma {:induction false} ChecksumSplits(a: seq<byte>, b: seq<byte>)
    requires |a| % 2 == 0
    ensures Checksum16(a + b) == Wrap16(Checksum16(a) + Checksum16(b))
    decreases |a|
  {
    if a == [] {
      assert a + b == b;
    } else {
      var lo: nat, hi: nat := a[0], a[1];
      assert (a + b)[2..] == a[2..] + b && (a + b)[0] == a[0] && (a + b)[1] == a[1];
      hide Wrap16;
      ChecksumSplits(a[2..], b);
      WrapTwice(lo + 0x100 * hi, Checksum16(a[2..]) + Checksum16(b));
      WrapTwice(lo + 0x100 * hi + Checksum16(a[2..]), Checksum16(b));
    }
  }

  // A byte at an odd offset is the upper half of a halfword.
  lemma ChecksumJoint(x: byte, y: byte)
    ensures var lo: nat, hi: nat := x, y;
            Checksum16([x]) == lo && Checksum16([x, y]) == lo + 0x100 * hi
  {
    assert [x, y][2..] == [];
  }

  method Checksum16Of(data: seq<byte>) returns (cs: nat)
    ensures cs == Checksum16(data)
  {
    cs := 0;
    var p: nat, len: nat := 0, |data|;
    assert data[0..] == data;
    while len > 1
      invariant p + len == |data| && cs < 0x1_0000
      invariant Checksum16(data) == Wrap16(cs + Checksum16(data[p..]))
    {
      var lo: nat, hi: nat := data[p], data[p + 1];
      assert data[p..][2..] == data[p + 2..];
      WrapTwice(cs + (lo + 0x100 * hi), Checksum16(data[p + 2..]));
      WrapTwice(cs, lo + 0x100 * hi + Checksum16(data[p + 2..]));
      cs := Wrap16(cs + (lo + 0x100 * hi));
      p, len := p + 2, len - 2;
    }
    if len == 1 {
      var lo: nat := data[p];
      assert data[p..] == [data[p]];
      cs := Wrap16(cs + lo);
    } else {
      assert data[p..] == [];
    }
  }

  // The sum in pieces of n bytes.
  function InPieces(data: seq<byte>, n: nat): (r: nat)
    requires 0 < n
    ensures r < 0x1_0000
  {
    if |data| <= n then Checksum16(data) else Wrap16(Checksum16(data[..n]) + InPieces(data[n..], n))
  }

  lemma {:induction false} EvenPieces(data: seq<byte>, n: nat)
    requires 0 < n && n % 2 == 0
    ensures InPieces(data, n) == Checksum16(data)
    decreases |data|
  {
    if n < |data| {
      EvenPieces(data[n..], n);
      ChecksumSplits(data[..n], data[n..]);
      assert data[..n] + data[n..] == data;
    }
  }

  lemma {:induction false} ZerosSumUp(n: nat)
    ensures Checksum16(seq(n, _ => 0)) == 0
  {
    var z: seq<byte> := seq(n, _ => 0);
    if n > 1 {
      assert z[2..] == seq(n - 2, _ => 0);
      ZerosSumUp(n - 2);
    }
  }

  // Data whose sum comes out wrong in pieces of odd length: the last byte changes its place.
  lemma OddPieces(n: nat) returns (data: seq<byte>)
    requires n % 2 == 1
    ensures InPieces(data, n) != Checksum16(data)
  {
    var z: seq<byte> := seq(n, _ => 0);
    data := z + [1];
    assert data[..n] == z && data[n..] == [1];
    ZerosSumUp(n);
    ZerosSumUp(n - 1);
    assert data == seq(n - 1, _ => 0) + [0, 1];
    ChecksumSplits(seq(n - 1, _ => 0), [0, 1]);
    ChecksumJoint(0, 1);
    ChecksumJoint(1, 0);
  }

  // The buffer that a section is read through may have any size, as long as it is even.
  lemma PiecesAreWholeIff(n: nat)
    requires 0 < n
    ensures n % 2 == 0 <==> forall data :: InPieces(data, n) == Checksum16(data)
  {
    if n % 2 == 0 {
      forall data
        ensures InPieces(data, n) == Checksum16(data)
      {
        EvenPieces(data, n);
      }
    } else {
      var data := OddPieces(n);
    }
  }

  // The sum over a body and a tailer that lie in different places.
  method CheckData(dataChksum: nat, body: seq<byte>, tailer: seq<byte>) returns (valid: bool)
    requires dataChksum < 0x1_0000
    ensures valid <==> body != [] && Wrap16(dataChksum + Checksum16(body + tailer)) == ONES
  {
    if body == [] {
      return false;
    }
    var sum;
    if tailer == [] {
      assert body + tailer == body;
      var x := Checksum16Of(body);
      sum := Wrap16(dataChksum + x);
    } else if |body| % 2 == 0 {
      ChecksumSplits(body, tailer);
      hide Checksum16;
      var x := Checksum16Of(body);
      var y := Checksum16Of(tailer);
      WrapTwice(dataChksum, x + y);
      sum := Wrap16(dataChksum + x + y);
    } else {
      var n := |body| - 1;
      var joint := [body[n], tailer[0]];
      JointSums(dataChksum, body, tailer);
      hide Checksum16, Wrap16;
      var x := Checksum16Of(body[..n]);
      var y := Checksum16Of(joint);
      var z := Checksum16Of(tailer[1..]);
      sum := Wrap16(dataChksum + x + y + z);
    }
    valid := sum == ONES;
  }

  lemma JointSums(d: nat, body: seq<byte>, tailer: seq<byte>)
    requires |body| % 2 == 1 && tailer != []
    ensures var n := |body| - 1;
            Wrap16(d + Checksum16(body + tailer)) ==
            Wrap16(d + Checksum16(body[..n]) + Checksum16([body[n], tailer[0]]) + Checksum16(tailer[1..]))
  {
    hide Checksum16, Wrap16;
    var n := |body| - 1;
    var joint := [body[n], tailer[0]];
    assert body + tailer == body[..n] + (joint + tailer[1..]);
    ChecksumSplits(body[..n], joint + tailer[1..]);
    ChecksumSplits(joint, tailer[1..]);
    FourSum(d, Checksum16(body[..n]), Checksum16(joint), Checksum16(tailer[1..]));
  }

  lemma FourSum(d: nat, x: nat, y: nat, z: nat)
    ensures Wrap16(d + Wrap16(x + Wrap16(y + z))) == Wrap16(d + x + y + z)
  {
    hide Wrap16;
    WrapTwice(x, y + z);
    WrapTwice(d, x + y + z);
  }

  // What a tailer adds to the sum of the body in front of it.
  function TailerSum(body: seq<byte>, tailer: seq<byte>): (r: nat)
    ensures r < 0x1_0000
  {
    if tailer == [] then 0
    else if |body| % 2 == 0 then Checksum16(tailer)
    else
      var first: nat := tailer[0];
      Wrap16(0x100 * first + Checksum16(tailer[1..]))
  }

  lemma TailerAdds(body: seq<byte>, tailer: seq<byte>)
    ensures Checksum16(body + tailer) == Wrap16(Checksum16(body) + TailerSum(body, tailer))
  {
    if tailer == [] {
      assert body + tailer == body;
    } else if |body| % 2 == 0 {
      ChecksumSplits(body, tailer);
    } else {
      OddTailer(body, tailer);
    }
  }

  lemma OddTailer(body: seq<byte>, tailer: seq<byte>)
    requires |body| % 2 == 1 && tailer != []
    ensures Checksum16(body + tailer) == Wrap16(Checksum16(body) + TailerSum(body, tailer))
  {
    hide Wrap16;
    var n := |body| - 1;
    var last: nat, first: nat := body[n], tailer[0];
    var front, rest := Checksum16(body[..n]), Checksum16(tailer[1..]);
    ChecksumJoint(body[n], tailer[0]);
    hide Checksum16;
    JointSums(0, body, tailer);
    WrapZero(Checksum16(body + tailer));
    ChecksumSplits(body[..n], [body[n]]);
    assert body[..n] + [body[n]] == body;
    WrapTwice(Wrap16(front + last), 0x100 * first + rest);
    WrapTwice(front + last, 0x100 * first + rest);
    assert Checksum16(body + tailer) == Wrap16(front + last + (0x100 * first + rest));
  }

  lemma WrapZero(x: nat)
    requires x < 0x1_0000
    ensures Wrap16(0 + x) == x
  {
  }

  // The boot loader looks at the body alone. A section that is whole passes there too if and
  // only if its tailer adds nothing to the sum.
  lemma LoadsIff(dataChksum: nat, body: seq<byte>, tailer: seq<byte>)
    requires dataChksum < 0x1_0000 && Wrap16(dataChksum + Checksum16(body + tailer)) == ONES
    ensures Wrap16(dataChksum + Checksum16(body)) == ONES <==> TailerSum(body, tailer) == 0
  {
    TailerAdds(body, tailer);
    hide Checksum16, TailerSum;
    Cancel(dataChksum, Checksum16(body), TailerSum(body, tailer));
  }

  lemma Cancel(d: nat, x: nat, y: nat)
    requires d < 0x1_0000 && x < 0x1_0000 && y < 0x1_0000 && Wrap16(d + Wrap16(x + y)) == ONES
    ensures Wrap16(d + x) == ONES <==> y == 0
  {
    WrapTwice(d, x + y);
    WrapTwice(d + x, y);
  }
}

module ImageCheck {
  import opened Words
  import opened NorFlash
  import opened ImageChecksum
  import opened ImageSections

  const IMAGE_HEADER_SIZE := 64
  const IMAGE_MAGIC_NUMBER := 0x4849_5741

  function Le32(h: seq<byte>, at: nat): (r: nat)
    requires at + 4 <= |h|
    ensures r < ImageSections.WORD
  {
    var a: nat, b: nat, c: nat, d: nat := h[at], h[at + 1], h[at + 2], h[at + 3];
    a + 0x100 * b + 0x1_0000 * c + 0x100_0000 * d
  }

  function DataChksum(h: seq<byte>): (r: nat)
    requires IMAGE_HEADER_SIZE <= |h|
    ensures r < 0x1_0000
  {
    var a: nat, b: nat := h[10], h[11];
    a + 0x100 * b
  }

  function DataLength(h: seq<byte>): nat
    requires IMAGE_HEADER_SIZE <= |h|
  {
    Le32(h, 12)
  }

  function NextAddr(h: seq<byte>): nat
    requires IMAGE_HEADER_SIZE <= |h|
  {
    Le32(h, 32)
  }

  predicate HeaderIsValid(h: seq<byte>)
    requires IMAGE_HEADER_SIZE <= |h|
  {
    Le32(h, 0) == IMAGE_MAGIC_NUMBER && Checksum16(h) == ONES
  }

  // A section is whole: its header and all of its data are there, and both sums are right.
  predicate SectionOk(mem: seq<byte>, addr: nat) {
    && addr + IMAGE_HEADER_SIZE <= |mem|
    && var h := mem[addr..addr + IMAGE_HEADER_SIZE];
    && HeaderIsValid(h)
    && addr + IMAGE_HEADER_SIZE + DataLength(h) <= |mem|
    && var data := mem[addr + IMAGE_HEADER_SIZE..addr + IMAGE_HEADER_SIZE + DataLength(h)];
    Wrap16(DataChksum(h) + Checksum16(data)) == ONES
  }

  method CheckHeader(h: seq<byte>) returns (valid: bool)
    requires |h| == IMAGE_HEADER_SIZE
    ensures valid <==> HeaderIsValid(h)
  {
    if Le32(h, 0) != IMAGE_MAGIC_NUMBER {
      return false;
    }
    var checksum := Checksum16Of(h);
    valid := checksum == ONES;
  }

  // Checks a section through a buffer of the given size, which must hold a header.
  method CheckSection(flash: Flash, addr: nat, bufLen: nat) returns (valid: bool, next: nat)
    requires IMAGE_HEADER_SIZE <= bufLen && bufLen % 2 == 0
    ensures valid <==> SectionOk(flash.mem, addr)
    ensures valid ==> next == NextAddr(flash.mem[addr..addr + IMAGE_HEADER_SIZE])
  {
    valid, next := false, 0;
    var buf := flash.Read(addr, IMAGE_HEADER_SIZE);
    if |buf| != IMAGE_HEADER_SIZE {
      return;
    }
    var ok := CheckHeader(buf);
    if !ok {
      return;
    }
    next := NextAddr(buf);
    var read, sum := SumOfData(flash, addr + IMAGE_HEADER_SIZE, DataChksum(buf), DataLength(buf), bufLen);
    valid := read && sum == ONES;
  }

  // Sums up data piece by piece; read says that all of it is there.
  method SumOfData(flash: Flash, start: nat, dataChksum: nat, length: nat, bufLen: nat) returns (read: bool, sum: nat)
    requires 0 < bufLen && bufLen % 2 == 0 && dataChksum < 0x1_0000 && start <= |flash.mem|
    ensures read <==> start + length <= |flash.mem|
    ensures read ==> sum == Wrap16(dataChksum + Checksum16(flash.mem[start..start + length]))
  {
    hide Checksum16, Wrap16;
    ghost var mem := flash.mem;
    var addr: nat, size: nat := start, length;
    sum := dataChksum;
    NothingToSum(dataChksum);
    assert mem[start..start] == [];
    while 0 < size
      invariant size <= length && addr == start + (length - size) <= |mem| && sum < 0x1_0000
      invariant size == 0 || (length - size) % 2 == 0
      invariant sum == Wrap16(dataChksum + Checksum16(mem[start..addr]))
    {
      var n := Min(size, bufLen);
      var buf := flash.Read(addr, n);
      if |buf| != n {
        return false, sum;
      }
      var more := Checksum16Of(buf);
      SumOn(mem, dataChksum, start, addr, n);
      sum := Wrap16(sum + more);
      addr, size := addr + n, size - n;
    }
    read := true;
  }

  lemma NothingToSum(d: nat)
    requires d < 0x1_0000
    ensures Wrap16(d + Checksum16([])) == d
  {
  }

  lemma SumOn(mem: seq<byte>, d: nat, start: nat, addr: nat, n: nat)
    requires start <= addr && addr + n <= |mem| && (addr - start) % 2 == 0
    ensures Wrap16(d + Checksum16(mem[start..addr + n])) ==
            Wrap16(Wrap16(d + Checksum16(mem[start..addr])) + Checksum16(mem[addr..addr + n]))
  {
    var x, y := mem[start..addr], mem[addr..addr + n];
    SliceJoin(mem, start, addr, addr + n);
    ChecksumSplits(x, y);
    hide Checksum16;
    WrapTwice(d, Checksum16(x) + Checksum16(y));
    WrapTwice(d + Checksum16(x), Checksum16(y));
  }

  /* ---- Loading a section ---- */

  function BodyLength(h: seq<byte>): nat
    requires IMAGE_HEADER_SIZE <= |h|
  {
    Le32(h, 24)
  }

  // Bit 4 of the attribute.
  predicate Compressed(h: seq<byte>)
    requires IMAGE_HEADER_SIZE <= |h|
  {
    Le32(h, 28) / 16 % 2 == 1
  }

  // The boot loader can load the section: its header is valid, and the body is there, fits in
  // front of maxAddr, and sums up on its own. For a compressed body unpacks says whether it
  // can be unpacked.
  predicate Loads(mem: seq<byte>, addr: nat, maxAddr: nat, unpacks: bool) {
    && addr + IMAGE_HEADER_SIZE <= |mem|
    && var h := mem[addr..addr + IMAGE_HEADER_SIZE];
    && HeaderIsValid(h)
    && if Compressed(h) then unpacks
       else
         && BodyLength(h) != 0 && Wrap32(Le32(h, 16) + BodyLength(h)) <= maxAddr
         && addr + IMAGE_HEADER_SIZE + BodyLength(h) <= |mem|
         && Wrap16(DataChksum(h) + Checksum16(mem[addr + IMAGE_HEADER_SIZE..addr + IMAGE_HEADER_SIZE + BodyLength(h)])) == ONES
  }

  method LoadBinById(flash: Flash, addr: nat, maxAddr: nat, unpacks: bool) returns (ok: bool)
    ensures ok <==> Loads(flash.mem, addr, maxAddr, unpacks)
  {
    hide HeaderIsValid, Compressed, Checksum16;
    ok := false;
    var h := flash.Read(addr, IMAGE_HEADER_SIZE);
    if |h| != IMAGE_HEADER_SIZE {
      return;
    }
    var valid := CheckHeader(h);
    if !valid {
      return;
    }
    if Compressed(h) {
      return unpacks;
    }
    if BodyLength(h) == 0 || Wrap32(Le32(h, 16) + BodyLength(h)) > maxAddr {
      return;
    }
    var body := flash.Read(addr + IMAGE_HEADER_SIZE, BodyLength(h));
    if |body| != BodyLength(h) {
      return;
    }
    ok := CheckData(DataChksum(h), body, []);
    assert body + [] == body;
  }

  // A whole section that is not compressed can be loaded if and only if it has a body, which
  // fits, and its tailer adds nothing to the sum.
  lemma WholeLoadsIff(mem: seq<byte>, addr: nat, maxAddr: nat, unpacks: bool)
    requires SectionOk(mem, addr)
    requires var h := mem[addr..addr + IMAGE_HEADER_SIZE];
             !Compressed(h) && BodyLength(h) <= DataLength(h)
    ensures var h := mem[addr..addr + IMAGE_HEADER_SIZE];
            var from, mid := addr + IMAGE_HEADER_SIZE, addr + IMAGE_HEADER_SIZE + BodyLength(h);
            Loads(mem, addr, maxAddr, unpacks) <==>
              && BodyLength(h) != 0 && Wrap32(Le32(h, 16) + BodyLength(h)) <= maxAddr
              && TailerSum(mem[from..mid], mem[mid..from + DataLength(h)]) == 0
  {
    hide HeaderIsValid, Compressed, TailerSum, Checksum16;
    var h := mem[addr..addr + IMAGE_HEADER_SIZE];
    var from, mid := addr + IMAGE_HEADER_SIZE, addr + IMAGE_HEADER_SIZE + BodyLength(h);
    SliceJoin(mem, from, mid, from + DataLength(h));
    LoadsIff(DataChksum(h), mem[from..mid], mem[mid..from + DataLength(h)]);
  }

  // A section that is whole, and yet the boot loader refuses it: two bytes of body and two of
  // tailer, 1 and 0 each.
  function Refused(): (mem: seq<byte>)
    ensures |mem| == 68
  {
    RefusedFront() + (RefusedSizes() + (RefusedEnd() + [1, 0, 1, 0]))
  }

  // The magic number, the version, both checksums and the size of the data.
  function RefusedFront(): (r: seq<byte>)
    ensures |r| == 16
  {
    [0x41, 0x57, 0x49, 0x48, 0, 0, 0, 0, 0x74, 0x60, 0xFD, 0xFF, 4, 0, 0, 0]
  }

  // The load address, the entry point, the length of the body and the attribute.
  function RefusedSizes(): (r: seq<byte>)
    ensures |r| == 16
  {
    [0, 0, 0, 0, 0, 0, 0, 0, 2, 0, 0, 0, 0, 0, 0, 0]
  }

  // No next section, and the rest.
  function RefusedEnd(): (r: seq<byte>)
    ensures |r| == 32
  {
    [0xFF, 0xFF, 0xFF, 0xFF] + seq(28, _ => 0)
  }

  lemma FourBytes(w: seq<byte>)
    requires |w| == 4
    ensures var a: nat, b: nat, c: nat, d: nat := w[0], w[1], w[2], w[3];
            Checksum16(w) == Wrap16(a + 0x100 * b + c + 0x100 * d)
  {
    var c: nat, d: nat := w[2], w[3];
    assert w[2..] == [w[2], w[3]];
    ChecksumJoint(w[2], w[3]);
  }

  lemma SixteenBytes(w: seq<byte>)
    requires |w| == 16
    ensures Checksum16(w) ==
            Wrap16(Checksum16(w[..4]) + Wrap16(Checksum16(w[4..8]) + Wrap16(Checksum16(w[8..12]) + Checksum16(w[12..]))))
  {
    hide Checksum16;
    assert w == w[..4] + (w[4..8] + (w[8..12] + w[12..]));
    ChecksumSplits(w[..4], w[4..8] + (w[8..12] + w[12..]));
    ChecksumSplits(w[4..8], w[8..12] + w[12..]);
    ChecksumSplits(w[8..12], w[12..]);
  }

  // Sixteen given bytes.
  lemma SumOfSixteen(w: seq<byte>, x: nat, y: nat, z: nat, v: nat)
    requires |w| == 16
    requires Checksum16(w[..4]) == x && Checksum16(w[4..8]) == y && Checksum16(w[8..12]) == z && Checksum16(w[12..]) == v
    ensures Checksum16(w) == Wrap16(x + Wrap16(y + Wrap16(z + v)))
  {
    hide Checksum16;
    SixteenBytes(w);
  }

  lemma FrontSum()
    ensures Checksum16(RefusedFront()) == 0xFFFF
  {
    hide Checksum16;
    var w := RefusedFront();
    FourBytes(w[..4]);
    FourBytes(w[4..8]);
    FourBytes(w[8..12]);
    FourBytes(w[12..]);
    SumOfSixteen(w, 0x9F8A, 0, 0x6071, 4);
  }

  lemma SizesSum()
    ensures Checksum16(RefusedSizes()) == 2
  {
    hide Checksum16;
    var w := RefusedSizes();
    FourBytes(w[..4]);
    FourBytes(w[4..8]);
    FourBytes(w[8..12]);
    FourBytes(w[12..]);
    SumOfSixteen(w, 0, 0, 2, 0);
  }

  lemma EndSum()
    ensures Checksum16(RefusedEnd()) == 0xFFFE
  {
    hide Checksum16;
    FourBytes([0xFF, 0xFF, 0xFF, 0xFF]);
    ChecksumSplits([0xFF, 0xFF, 0xFF, 0xFF], seq(28, _ => 0));
    ZerosSumUp(28);
  }

  lemma RefusedHeader()
    ensures var h := Header64(Refused(), 0);
            && h == RefusedFront() + (RefusedSizes() + RefusedEnd()) && HeaderIsValid(h)
            && DataChksum(h) == 0xFFFD && DataLength(h) == 4 && BodyLength(h) == 2 && !Compressed(h)
  {
    hide Checksum16;
    var mem, h := Refused(), Header64(Refused(), 0);
    assert h == RefusedFront() + (RefusedSizes() + RefusedEnd());
    ChecksumSplits(RefusedFront(), RefusedSizes() + RefusedEnd());
    ChecksumSplits(RefusedSizes(), RefusedEnd());
    FrontSum();
    SizesSum();
    EndSum();
    assert h[..16] == RefusedFront() && h[16..32] == RefusedSizes();
    assert Le32(h, 0) == Le32(RefusedFront(), 0) == IMAGE_MAGIC_NUMBER;
    assert Le32(h, 12) == Le32(RefusedFront(), 12) == 4 && Le32(h, 24) == Le32(RefusedSizes(), 8) == 2;
  }

  lemma RefusedIsWhole(maxAddr: nat, unpacks: bool)
    ensures SectionOk(Refused(), 0) && !Loads(Refused(), 0, maxAddr, unpacks)
  {
    var mem, h := Refused(), Header64(Refused(), 0);
    RefusedHeader();
    hide HeaderIsValid, Compressed;
    var body: seq<byte>, data: seq<byte> := [1, 0], [1, 0, 1, 0];
    assert mem[64..66] == body && mem[64..68] == data;
    FourBytes(data);
    ChecksumJoint(1, 0);
  }

  /* ---- All sections of an image ---- */

  // An image whose chain never ends would be checked forever; here the walk is given up after
  // a number of sections.
  datatype Verdict = Valid | Invalid | Unending

  function Header64(mem: seq<byte>, addr: nat): (h: seq<byte>)
    requires addr + IMAGE_HEADER_SIZE <= |mem|
    ensures |h| == IMAGE_HEADER_SIZE
  {
    mem[addr..addr + IMAGE_HEADER_SIZE]
  }

  predicate Placed(mems: seq<seq<byte>>, layout: Layout, image: nat) {
    layout.Valid() && image < SEQ_NUM && layout.flash[0] < |mems| && layout.flash[image] < |mems|
  }

  function CheckFrom(mems: seq<seq<byte>>, layout: Layout, image: nat, dev: nat, addr: nat, limit: nat): Verdict
    requires Placed(mems, layout, image) && dev < |mems|
    decreases limit
  {
    if limit == 0 then Unending
    else if !SectionOk(mems[dev], addr) then Invalid
    else
      var next := NextAddr(Header64(mems[dev], addr));
      if next == INVALID_ADDR then Valid
      else CheckFrom(mems, layout, image, layout.flash[image], layout.SectionAddr(image, next), limit - 1)
  }

  function Check(mems: seq<seq<byte>>, layout: Layout, image: nat, limit: nat): Verdict
    requires Placed(mems, layout, image)
  {
    CheckFrom(mems, layout, image, layout.flash[0], layout.BlAddr(), limit)
  }

  // Going on for longer changes no verdict.
  lemma {:induction false} VerdictIsFinal(mems: seq<seq<byte>>, layout: Layout, image: nat, dev: nat, addr: nat, m: nat, n: nat)
    requires Placed(mems, layout, image) && dev < |mems| && m <= n
    requires CheckFrom(mems, layout, image, dev, addr, m) != Unending
    ensures CheckFrom(mems, layout, image, dev, addr, n) == CheckFrom(mems, layout, image, dev, addr, m)
    decreases m
  {
    if SectionOk(mems[dev], addr) {
      var next := NextAddr(Header64(mems[dev], addr));
      if next != INVALID_ADDR {
        VerdictIsFinal(mems, layout, image, layout.flash[image], layout.SectionAddr(image, next), m - 1, n - 1);
      }
    }
  }

  // The headers that are in flash.
  ghost predicate Mirrors(content: Content, mems: seq<seq<byte>>) {
    forall d, a :: 0 <= d < |mems| && 0 <= a && a + IMAGE_HEADER_SIZE <= |mems[d]| ==>
      At(content, d, a) == Header(NextAddr(Header64(mems[d], a)), Le32(Header64(mems[d], a), 36))
  }

  ghost predicate AllOk(mems: seq<seq<byte>>, layout: Layout, image: nat, secs: seq<Section>)
    requires Placed(mems, layout, image)
  {
    forall k :: 0 <= k < |secs| ==> SectionOk(mems[Device(layout, image, k)], secs[k].addr)
  }

  lemma {:induction false} ValidFrom(content: Content, mems: seq<seq<byte>>, layout: Layout, image: nat, dev: nat, addr: nat, next: nat,
                                     front: seq<Section>, limit: nat)
    returns (secs: seq<Section>)
    requires Placed(mems, layout, image) && dev < |mems| && Mirrors(content, mems)
    requires Linked(content, layout, image, front) && AllOk(mems, layout, image, front)
    requires Behind(content, layout, image, dev, addr, next, front) && next != INVALID_ADDR
    requires CheckFrom(mems, layout, image, dev, addr, limit) == Valid
    ensures IsChain(content, layout, image, secs) && AllOk(mems, layout, image, secs) && |secs| <= |front| + limit
    decreases limit
  {
    hide Mirrors, SectionOk, AllOk, IsChain, Linked;
    var h := At(content, dev, addr);
    WholeSection(content, mems, layout, image, dev, addr, front, limit);
    LinkedGrows(content, layout, image, dev, addr, next, front);
    secs := front + [Section(h.id, addr)];
    if h.next == INVALID_ADDR {
      EndsHere(content, layout, image, h.next, secs);
    } else {
      secs := ValidFrom(content, mems, layout, image, layout.flash[image], layout.SectionAddr(image, h.next), h.next, secs, limit - 1);
    }
  }

  lemma WholeSection(content: Content, mems: seq<seq<byte>>, layout: Layout, image: nat, dev: nat, addr: nat, front: seq<Section>, limit: nat)
    requires Placed(mems, layout, image) && dev == Device(layout, image, |front|) && Mirrors(content, mems)
    requires AllOk(mems, layout, image, front) && CheckFrom(mems, layout, image, dev, addr, limit) == Valid
    ensures var h := At(content, dev, addr);
            && 0 < limit && AllOk(mems, layout, image, front + [Section(h.id, addr)])
            && (h.next != INVALID_ADDR ==>
                  CheckFrom(mems, layout, image, layout.flash[image], layout.SectionAddr(image, h.next), limit - 1) == Valid)
  {
    hide HeaderIsValid, Layout.SectionAddr;
    var h := At(content, dev, addr);
    assert h == Header(NextAddr(Header64(mems[dev], addr)), Le32(Header64(mems[dev], addr), 36));
    var secs := front + [Section(h.id, addr)];
    forall k | 0 <= k < |secs|
      ensures SectionOk(mems[Device(layout, image, k)], secs[k].addr)
    {
      if k < |front| {
        assert secs[k] == front[k];
      }
    }
  }

  lemma EndsHere(content: Content, layout: Layout, image: nat, next: nat, secs: seq<Section>)
    requires layout.Valid() && image < SEQ_NUM && secs != [] && Linked(content, layout, image, secs) && next == INVALID_ADDR
    requires next == At(content, Device(layout, image, |secs| - 1), secs[|secs| - 1].addr).next
    ensures IsChain(content, layout, image, secs)
  {
  }

  // An image that has been found valid is a chain of whole sections.
  lemma ValidIsChain(content: Content, mems: seq<seq<byte>>, layout: Layout, image: nat, limit: nat) returns (secs: seq<Section>)
    requires Placed(mems, layout, image) && Mirrors(content, mems) && Check(mems, layout, image, limit) == Valid
    ensures IsChain(content, layout, image, secs) && AllOk(mems, layout, image, secs) && |secs| <= limit
  {
    secs := ValidFrom(content, mems, layout, image, layout.flash[0], layout.BlAddr(), layout.BlAddr(), [], limit);
  }

  // From section k of a chain of whole sections on, all that is checked is valid.
  lemma {:induction false} ChainFrom(content: Content, mems: seq<seq<byte>>, layout: Layout, image: nat, secs: seq<Section>, k: nat, limit: nat)
    requires Placed(mems, layout, image) && Mirrors(content, mems)
    requires IsChain(content, layout, image, secs) && AllOk(mems, layout, image, secs) && k < |secs| <= k + limit
    ensures CheckFrom(mems, layout, image, Device(layout, image, k), secs[k].addr, limit) == Valid
    decreases |secs| - k
  {
    hide Mirrors, HeaderIsValid, Layout.SectionAddr, Checksum16;
    var dev, addr := Device(layout, image, k), secs[k].addr;
    assert SectionOk(mems[dev], addr);
    NextMirrored(content, mems, dev, addr);
    if k + 1 < |secs| {
      assert Follows(content, layout, image, k + 1, secs[k], secs[k + 1]);
      ChainFrom(content, mems, layout, image, secs, k + 1, limit - 1);
    }
  }

  lemma NextMirrored(content: Content, mems: seq<seq<byte>>, dev: nat, addr: nat)
    requires Mirrors(content, mems) && dev < |mems| && addr + IMAGE_HEADER_SIZE <= |mems[dev]|
    ensures At(content, dev, addr).next == NextAddr(Header64(mems[dev], addr))
  {
  }

  // An image is found valid if and only if it is a chain of whole sections, as long as the
  // check goes.
  lemma ValidIffChain(content: Content, mems: seq<seq<byte>>, layout: Layout, image: nat, limit: nat)
    requires Placed(mems, layout, image) && Mirrors(content, mems)
    ensures Check(mems, layout, image, limit) == Valid <==>
            exists secs :: IsChain(content, layout, image, secs) && AllOk(mems, layout, image, secs) && |secs| <= limit
  {
    hide Mirrors, AllOk, CheckFrom;
    if Check(mems, layout, image, limit) == Valid {
      var secs := ValidIsChain(content, mems, layout, image, limit);
    }
    forall secs | IsChain(content, layout, image, secs) && AllOk(mems, layout, image, secs) && |secs| <= limit
      ensures Check(mems, layout, image, limit) == Valid
    {
      ChainFrom(content, mems, layout, image, secs, 0, limit);
    }
  }

  lemma {:induction false} FirstWithIsOne(secs: seq<Section>, id: nat) returns (k: nat)
    ensures Has(secs, id) ==> k < |secs| && secs[k].id == id && secs[k].addr == FirstWith(secs, id)
    ensures !Has(secs, id) ==> FirstWith(secs, id) == INVALID_ADDR
  {
    k := 0;
    if secs != [] && secs[0].id != id {
      k := FirstWithIsOne(secs[1..], id);
      k := k + 1;
    }
  }

  // Whatever is found in an image that has been found valid, with any part of the chain in the
  // cache, is a section that is whole.
  lemma FoundIsWhole(content: Content, mems: seq<seq<byte>>, layout: Layout, image: nat, cache: seq<Section>, id: nat)
    requires Placed(mems, layout, image) && Mirrors(content, mems) && Check(mems, layout, image, MAX_SECTIONS) == Valid
    requires Linked(content, layout, image, cache) && Agrees(content, layout, image)
    ensures var r := Lookup(content, layout, image, cache, id);
            r.Answer? && (r.addr == INVALID_ADDR || SectionOk(mems[layout.flash[0]], r.addr) || SectionOk(mems[layout.flash[image]], r.addr))
  {
    var secs := ValidIsChain(content, mems, layout, image, MAX_SECTIONS);
    LookupIsRight(content, layout, image, cache, id, secs);
    var k := FirstWithIsOne(secs, id);
  }

  ghost function Mems(devices: seq<Flash>): (r: seq<seq<byte>>)
    reads devices
    ensures |r| == |devices|
  {
    seq(|devices|, i requires 0 <= i < |devices| reads devices => devices[i].mem)
  }

  method CheckSections(devices: seq<Flash>, layout: Layout, image: nat, bufLen: nat, limit: nat) returns (verdict: Verdict)
    requires Placed(Mems(devices), layout, image) && IMAGE_HEADER_SIZE <= bufLen && bufLen % 2 == 0
    ensures verdict == Check(Mems(devices), layout, image, limit)
  {
    ghost var mems := Mems(devices);
    hide SectionOk, Layout.SectionAddr, Layout.BlAddr;
    var dev: nat, addr: nat, left: nat := layout.flash[0], layout.BlAddr(), limit;
    while 0 < left
      invariant dev < |devices| && Mems(devices) == mems
      invariant CheckFrom(mems, layout, image, dev, addr, left) == Check(mems, layout, image, limit)
    {
      assert mems[dev] == devices[dev].mem;
      var ok, next := CheckSection(devices[dev], addr, bufLen);
      if !ok {
        return Invalid;
      }
      if next == INVALID_ADDR {
        return Valid;
      }
      dev, addr, left := layout.flash[image], layout.SectionAddr(image, next), left - 1;
    }
    verdict := Unending;
  }
}
