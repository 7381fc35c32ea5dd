// The bootloader's use of the decompressor: a section body is read block by block, and
// decoded straight to its load address.
module BootDecompress {
  import opened Words
  import opened Lzma2Reference
  import opened Lzma2Laws
  import opened Lzma2Decoders
  import opened Memory
  import opened XzBuffers

  // The dictionary size that the properties byte of the LZMA2 filter stands for.
  function DictSize(props: nat): (size: nat)
    requires props <= 39
    ensures 4096 <= size <= 0xC000_0000 && size % 16 == 0
  {
    SizeBounds(props / 2, 2 + props % 2);
    var m := (2 + props % 2) * Pow2(props / 2);
    2048 * m
  }

  // From 4 KiB and 6 KiB on, each size is twice the one before the last.
  lemma DictSizeDoubles(props: nat)
    requires props + 2 <= 39
    ensures DictSize(0) == 0x1000 && DictSize(1) == 0x1800
    ensures DictSize(props + 2) == 2 * DictSize(props)
  {
    var e, k := props / 2, 2 + props % 2;
    assert Pow2(e + 1) == 2 * Pow2(e);
    assert k * (2 * Pow2(e)) == 2 * (k * Pow2(e));
  }

  lemma SizeBounds(e: nat, k: nat)
    requires e <= 19 && 2 <= k <= 3
    ensures 2 <= k * Pow2(e) <= 0x18_0000
  {
    Pow2Monotone(e, 19);
    assert Pow2(19) == 0x8_0000 by {
      assert Pow2(9) == 512;
      assert Pow2(10) == 1024;
      Pow2Add(9, 10);
    }
    MulMonotone(k, 1, Pow2(e));
    MulMonotone(k, Pow2(e), 0x8_0000);
  }

  // The one-shot decoder makes out of the whole of body.
  ghost predicate DecodesTo(body: seq<byte>, size: nat, out: seq<byte>) {
    exists n: nat :: EndsWith(body, size, out, n)
  }

  ghost predicate EndsWith(body: seq<byte>, size: nat, out: seq<byte>, n: nat) {
    var r := Steps(Start(FreshLzma(), true), body, size, n);
    r.phase == Ended && r.Out() == out
  }

  lemma DecodesToOne(body: seq<byte>, size: nat, out: seq<byte>, out': seq<byte>)
    requires DecodesTo(body, size, out) && DecodesTo(body, size, out')
    ensures out == out'
  {
    var m :| EndsWith(body, size, out, m);
    var n :| EndsWith(body, size, out', n);
    OneAnswer(Start(FreshLzma(), true), body, size, m, n);
  }

  // What a decoder in any initial state comes to is what a fresh one comes to.
  lemma Settled(o: Ref, body: seq<byte>, size: nat, m: nat)
    requires GoodRef(o) && o == Start(o.z, o.needProps)
    ensures Steps(o, body, size, m).phase == Ended ==> DecodesTo(body, size, Steps(o, body, size, m).Out())
    ensures forall out :: DecodesTo(body, size, out) ==>
                            Steps(o, body, size, m).phase != Failed && Steps(o, body, size, m).Out() <= out
  {
    hide Steps;
    StaleStateIsUnused(o.z, o.needProps, FreshLzma(), true, body, size, m);
    if Steps(o, body, size, m).phase == Ended {
      assert EndsWith(body, size, Steps(o, body, size, m).Out(), m);
    }
    forall out | DecodesTo(body, size, out)
      ensures Steps(o, body, size, m).phase != Failed && Steps(o, body, size, m).Out() <= out
    {
      var n :| EndsWith(body, size, out, n);
      StaleStateIsUnused(o.z, o.needProps, FreshLzma(), true, body, size, n);
      OneAnswer(o, body, size, n, m);
    }
  }

  // A decoder that waits for more than the whole body has nothing to come to.
  lemma Unfinished(s: Lzma2Decoder)
    requires s.Valid() && s.taken == |s.stream| && (s.sequence == LzmaRun ==> s.tempSize < s.compressed)
    requires s.origin == Start(s.origin.z, s.origin.needProps)
    ensures forall out :: !DecodesTo(s.stream, s.lzma.dict.end, out)
  {
    hide Steps, Lzma2Decoder.Valid;
    forall out | DecodesTo(s.stream, s.lzma.dict.end, out)
      ensures false
    {
      var n :| EndsWith(s.stream, s.lzma.dict.end, out, n);
      s.WaitsForever(n);
      StaleStateIsUnused(s.origin.z, s.origin.needProps, FreshLzma(), true, s.stream, s.lzma.dict.end, n);
    }
  }

  // Decodes body to the load address. It must come out shorter than the room there is.
  // Succeeds exactly when the one-shot decoder does, whatever the size of the blocks.
  method Decompress(body: seq<byte>, load: array<byte>, blockSize: nat, dictProps: nat, needProps: bool)
    returns (ok: bool, outPos: nat)
    requires 0 < blockSize && dictProps <= 39
    modifies load
    ensures ok <==> exists out :: DecodesTo(body, DictSize(dictProps), out) && |out| < load.Length
    ensures outPos <= load.Length && (ok ==> DecodesTo(body, DictSize(dictProps), load[..outPos]))
    ensures Wrote(old(load[..]), load[..], 0, load[..outPos])
  {
    hide Lzma2Decoder.Valid, Lzma2Decoder.RefOk, Wrote, Continues, Steps, DecodesTo, DictSize;
    var s := new Lzma2Decoder(DictSize(dictProps), needProps, body);
    var b := new XzBuf([], load);
    var offset: nat := 0;
    WroteNothing(load[..], 0);
    ok := false;
    while true
      invariant s.Valid() && s.Apart(b) && s.origin == Start(s.origin.z, s.origin.needProps)
      invariant s.sequence == LzmaRun ==> s.tempSize < s.compressed
      invariant offset <= |body| && s.taken == offset && b.inPos == |b.input| && b.output == load
      invariant b.outSize == load.Length && b.outPos <= b.outSize && !ok
      invariant |s.produced| == b.outPos && Wrote(old(load[..]), load[..], 0, s.produced)
      decreases |body| - offset
    {
      if offset == |body| {
        Unfinished(s);
        break;
      }
      var readSize := Min(blockSize, |body| - offset);
      b.input := body[offset..offset + readSize];
      b.inPos := 0;
      offset := offset + readSize;
      ContinuesBlock(body, s.taken, readSize);
      ghost var given, was := s.produced, load[..];
      var ret := s.Run(b);
      WroteMore(old(load[..]), was, load[..], 0, given, s.produced[|given|..]);
      assert s.produced == given + s.produced[|given|..];
      s.Compare();
      Settled(s.origin, body, DictSize(dictProps), s.steps);
      if b.outPos == b.outSize {
        break;
      }
      if ret.XzStreamEnd? {
        ok := true;
        break;
      } else if ret.XzDataError? {
        break;
      }
    }
    outPos := b.outPos;
    WroteIs(old(load[..]), load[..], s.produced);
  }

  lemma ContinuesBlock(body: seq<byte>, offset: nat, n: nat)
    requires offset + n <= |body|
    ensures Continues(body[offset..offset + n], 0, body, offset)
  {
  }

  lemma WroteIs(before: seq<byte>, after: seq<byte>, data: seq<byte>)
    requires Wrote(before, after, 0, data)
    ensures |data| <= |after| && after[..|data|] == data
  {
  }
}

// Streams that were written, and what the bootloader makes of them.
module BootWritten {
  import opened Words
  import opened Lzma2Reference
  import opened Lzma2Writer
  import opened BootDecompress

  // Every stream that an LZMA2 writer writes decodes to what was written.
  lemma WrittenIsDecoded(chunks: seq<Chunk>, size: nat, stream: seq<byte>, contents: seq<byte>)
    requires Writes(chunks, size, stream, contents)
    ensures DecodesTo(stream, size, contents)
  {
    hide Steps, Writes;
    var n := StreamReads(chunks, size, stream, contents, FreshLzma(), true);
    assert EndsWith(stream, size, contents, n);
  }

  // Whatever the bytes, there is a stream that decodes to them.
  lemma EverythingIsDecoded(data: seq<byte>, size: nat) returns (stream: seq<byte>)
    ensures DecodesTo(stream, size, data)
  {
    hide Steps, DecodesTo;
    StoringWrites(data, size);
    var r := PutChunks(NEW_ARCHIVE, Storing(data), size);
    stream := r.bytes + [0];
    WrittenIsDecoded(Storing(data), size, stream, data);
  }
}
