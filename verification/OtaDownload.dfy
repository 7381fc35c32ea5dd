// Downloading an image into the slot that is not running. The image arrives in pieces of any
// sizes; its boot loader is left out.
module OtaDownload {
  import opened Words
  import opened NorFlash
  import opened FdcmArea
  import opened ImageSections
  import opened ImageCheck
  import OtaProtocol

  const OTA_BUF_SIZE := 2048
  const IMAGE_CHECK_SIZE := 1024

  // How the next call for data comes out: whether it fails, how much there is at most, and
  // whether the end is reported when it has been reached.
  datatype Answer = Answer(ok: bool, count: nat, eof: bool)

  // Where the image comes from. After a number of calls every call fails. It is remembered
  // whether a call has failed, and whether the end has been reported.
  class Source {
    const stream: seq<byte>
    var pos: nat
    var answers: seq<Answer>
    var failed: bool
    var ended: bool

    constructor (stream: seq<byte>, answers: seq<Answer>)
      ensures Valid() && Open() && this.stream == stream && this.answers == answers && pos == 0
    {
      this.stream, pos, this.answers, failed, ended := stream, 0, answers, false, false;
    }

    ghost predicate Valid()
      reads this
    {
      pos <= |stream|
    }

    // More can be asked for.
    predicate Open()
      reads this
    {
      !failed && !ended
    }

    // No call fails before the answers run out, and none has failed.
    ghost predicate Sound()
      reads this
    {
      (forall a :: a in answers ==> a.ok) && (failed ==> answers == [])
    }

    method Get(size: nat) returns (ok: bool, data: seq<byte>, eof: bool)
      requires Valid()
      modifies this
      ensures Valid() && old(pos) <= pos && data == stream[old(pos)..pos]
      ensures ok <==> old(answers) != [] && old(answers)[0].ok
      ensures answers == if old(answers) == [] then [] else old(answers)[1..]
      ensures |data| == if ok then Min(Min(old(answers)[0].count, size), |stream| - old(pos)) else 0
      ensures eof <==> ok && old(answers)[0].eof && pos == |stream|
      ensures failed == (old(failed) || !ok) && ended == (old(ended) || eof) && (old(Sound()) ==> Sound())
    {
      ok, data, eof := false, [], false;
      if answers == [] {
        failed := true;
        return;
      }
      var a := answers[0];
      answers := answers[1..];
      ok := a.ok;
      if ok {
        var n := Min(Min(a.count, size), |stream| - pos);
        data := stream[pos..pos + n];
        pos := pos + n;
        eof := a.eof && pos == |stream|;
      }
      failed, ended := failed || !ok, ended || eof;
    }
  }

  // The first n bytes of a slot are data; the rest is blank.
  ghost predicate Filled(slot: seq<byte>, data: seq<byte>) {
    |data| <= |slot| && slot == data + Blank(|slot| - |data|)
  }

  lemma FillMore(slot: seq<byte>, data: seq<byte>, more: seq<byte>)
    requires Filled(slot, data) && |data| + |more| <= |slot|
    ensures Filled(Do(slot, Program(|data|, more)), data + more)
  {
    hide And;
    assert slot[|data|..|data| + |more|] == Blank(|more|);
    ProgramBlank(slot, |data|, more);
    assert slot[|data| + |more|..] == Blank(|slot| - |data| - |more|);
    assert slot[..|data|] == data;
  }

  // Programming the next piece into a slot that lies somewhere in flash.
  lemma MorePlaced(mem: seq<byte>, at: nat, size: nat, got: seq<byte>, data: seq<byte>)
    requires at + size <= |mem| && |got| + |data| <= size && Filled(mem[at..at + size], got)
    ensures var now := Do(mem, Program(at + |got|, data));
            && |now| == |mem| && now[..at] == mem[..at] && now[at + size..] == mem[at + size..]
            && Filled(now[at..at + size], got + data)
  {
    hide And, Filled, Do;
    var slot := mem[at..at + size];
    FillMore(slot, got, data);
    ProgramInside(mem, at, size, |got|, data);
    Surrounded(mem[..at], Do(slot, Program(|got|, data)), mem[at + size..]);
  }

  class Updater {
    const devices: seq<Flash>
    const layout: Layout
    // How large an image may be, without its boot loader.
    const imgMaxSize: nat
    const runningSeq: nat
    var getSize: nat

    constructor (devices: seq<Flash>, layout: Layout, imgMaxSize: nat, runningSeq: nat)
      ensures this.devices == devices && this.layout == layout && this.imgMaxSize == imgMaxSize
      ensures this.runningSeq == runningSeq && getSize == 0
    {
      this.devices, this.layout, this.imgMaxSize, this.runningSeq := devices, layout, imgMaxSize, runningSeq;
      getSize := 0;
    }

    ghost predicate Fits(image: nat)
      reads devices
    {
      && layout.Valid() && image < SEQ_NUM && layout.flash[0] < |devices| && layout.flash[image] < |devices|
      && layout.addr[image] + imgMaxSize <= |devices[layout.flash[image]].mem|
    }

    // What is in a slot.
    ghost function Slot(image: nat): (s: seq<byte>)
      requires Fits(image)
      reads devices
      ensures |s| == imgMaxSize
    {
      devices[layout.flash[image]].mem[layout.addr[image]..layout.addr[image] + imgMaxSize]
    }

    // The rest of the device is as it was.
    ghost predicate Around(image: nat, mem: seq<byte>)
      requires Fits(image)
      reads devices
    {
      var now, at := devices[layout.flash[image]].mem, layout.addr[image];
      |now| == |mem| && now[..at] == mem[..at] && now[at + imgMaxSize..] == mem[at + imgMaxSize..]
    }

    // Leaves out the boot loader, which is the first part of the image.
    method SkipBootloader(src: Source) returns (ok: bool)
      requires src.Valid() && src.Open()
      modifies this`getSize, src
      ensures src.Valid() && getSize <= src.pos - old(src.pos) <= layout.blSize
      ensures ok <==> src.Open()
      ensures ok ==> getSize == layout.blSize == src.pos - old(src.pos)
      ensures old(src.Sound()) ==> src.Sound()
    {
      getSize := 0;
      var blSize: nat := layout.blSize;
      while 0 < blSize
        invariant src.Valid() && blSize + getSize == layout.blSize && getSize == src.pos - old(src.pos)
        invariant src.Open() && (old(src.Sound()) ==> src.Sound())
        decreases |src.answers|
      {
        var got, data, eof := src.Get(Min(blSize, OTA_BUF_SIZE));
        if !got || eof {
          return false;
        }
        blSize := blSize - |data|;
        getSize := getSize + |data|;
      }
      ok := true;
    }

    // Writes what comes next into the blank slot, until the end of the image or of the slot.
    method FillSlot(src: Source, image: nat) returns (ok: bool)
      requires src.Valid() && src.Open() && Fits(image) && Slot(image) == Blank(imgMaxSize)
      modifies this`getSize, src, devices[layout.flash[image]]
      ensures src.Valid() && Fits(image) && Around(image, old(devices[layout.flash[image]].mem))
      ensures old(src.pos) <= src.pos && getSize == old(getSize) + (src.pos - old(src.pos))
      ensures Filled(Slot(image), src.stream[old(src.pos)..src.pos])
      ensures ok <==> src.ended || src.pos - old(src.pos) == imgMaxSize
      ensures ok || src.failed
      ensures (src.ended ==> src.pos == |src.stream|) && (old(src.Sound()) ==> src.Sound())
    {
      ghost var from, mem := src.pos, devices[layout.flash[image]].mem;
      var room: nat, addr: nat := imgMaxSize, layout.addr[image];
      ok := false;
      assert src.stream[from..from] == [];
      assert Filled(Slot(image), src.stream[from..from]) && InPlace(src, image, room, from, mem);
      hide Filled, Blank, InPlace;
      while 0 < room
        invariant InPlace(src, image, room, from, mem) && !ok && room <= imgMaxSize
        invariant src.Open() && (old(src.Sound()) ==> src.Sound())
        invariant addr == layout.addr[image] + (imgMaxSize - room)
        invariant getSize == old(getSize) + (imgMaxSize - room)
        decreases |src.answers|
      {
        var got, n, eof := FillOnce(src, image, room, addr, from, mem);
        if !got {
          break;
        }
        room := room - n;
        getSize := getSize + n;
        addr := addr + n;
        if eof {
          ok := true;
          break;
        }
      }
      ok := ok || room == 0;
      Placed(src, image, room, from, mem);
    }

    // The slot holds what has arrived, and there is so much room left in it.
    ghost predicate InPlace(src: Source, image: nat, room: nat, from: nat, mem: seq<byte>)
      reads src, devices
    {
      && src.Valid() && Fits(image) && Around(image, mem) && room <= imgMaxSize
      && src.pos == from + (imgMaxSize - room) && Filled(Slot(image), src.stream[from..src.pos])
    }

    lemma Placed(src: Source, image: nat, room: nat, from: nat, mem: seq<byte>)
      requires InPlace(src, image, room, from, mem)
      ensures src.Valid() && Fits(image) && Around(image, mem) && room <= imgMaxSize
      ensures src.pos == from + (imgMaxSize - room) && Filled(Slot(image), src.stream[from..src.pos])
    {
    }

    // Asks for data once, and writes what comes.
    method FillOnce(src: Source, image: nat, room: nat, addr: nat, ghost from: nat, ghost mem: seq<byte>)
      returns (got: bool, n: nat, eof: bool)
      requires InPlace(src, image, room, from, mem) && 0 < room && addr == layout.addr[image] + (imgMaxSize - room)
      modifies src, devices[layout.flash[image]]
      ensures n <= room && InPlace(src, image, room - n, from, mem)
      ensures if got then |src.answers| < old(|src.answers|) else n == 0 && !eof
      ensures src.failed == (old(src.failed) || !got) && src.ended == (old(src.ended) || eof)
      ensures (eof ==> src.pos == |src.stream|) && (old(src.Sound()) ==> src.Sound())
    {
      hide Filled, Around, Blank;
      var data;
      got, data, eof := src.Get(Min(room, OTA_BUF_SIZE));
      n := |data|;
      if got && data != [] {
        WritePiece(image, addr, data, src.stream[from..src.pos - |data|], mem);
        SliceJoin(src.stream, from, src.pos - |data|, src.pos);
      }
    }

    method WritePiece(image: nat, addr: nat, data: seq<byte>, ghost got: seq<byte>, ghost mem: seq<byte>)
      requires Fits(image) && Around(image, mem) && Filled(Slot(image), got)
      requires addr == layout.addr[image] + |got| && |got| + |data| <= imgMaxSize
      modifies devices[layout.flash[image]]
      ensures Fits(image) && Around(image, mem) && Filled(Slot(image), got + data)
    {
      hide Do, Filled;
      ghost var was := devices[layout.flash[image]].mem;
      var n := devices[layout.flash[image]].Write(addr, data);
      PieceWritten(image, was, got, data, mem);
    }

    lemma PieceWritten(image: nat, was: seq<byte>, got: seq<byte>, data: seq<byte>, mem: seq<byte>)
      requires Fits(image) && layout.addr[image] + imgMaxSize <= |was| && |got| + |data| <= imgMaxSize
      requires devices[layout.flash[image]].mem == Do(was, Program(layout.addr[image] + |got|, data))
      requires |was| == |mem| && was[..layout.addr[image]] == mem[..layout.addr[image]]
      requires was[layout.addr[image] + imgMaxSize..] == mem[layout.addr[image] + imgMaxSize..]
      requires Filled(was[layout.addr[image]..layout.addr[image] + imgMaxSize], got)
      ensures Around(image, mem) && Filled(Slot(image), got + data)
    {
      hide Do, Filled;
      MorePlaced(was, layout.addr[image], imgMaxSize, got, data);
    }

    // Erases a slot.
    method EraseSlot(image: nat)
      requires Fits(image)
      modifies devices[layout.flash[image]]
      ensures Fits(image) && Around(image, old(devices[layout.flash[image]].mem)) && Slot(image) == Blank(imgMaxSize)
    {
      ghost var was, at := devices[layout.flash[image]].mem, layout.addr[image];
      EraseBlank(was[at..at + imgMaxSize]);
      hide Do;
      var ok := devices[layout.flash[image]].EraseArea(layout.addr[image], imgMaxSize);
      ghost var now := devices[layout.flash[image]].mem;
      assert now[..at] == was[..at] && now[at + imgMaxSize..] == was[at + imgMaxSize..];
      assert now[at..at + imgMaxSize] == Blank(imgMaxSize);
    }

    // There is a slot to replace, and a connection.
    ghost predicate Begins(connects: bool) {
      imgMaxSize != 0 && layout.blSize != 0 && runningSeq < SEQ_NUM && connects
    }

    // Replaces the image in the other slot. When it succeeds, the slot holds exactly what has
    // arrived behind the boot loader, however it was cut into pieces, and the image is a chain
    // of whole sections. When no call for data has failed and the data has not ended within
    // the boot loader, then it succeeds if the image is one.
    method UpdateImage(src: Source, connects: bool, limit: nat) returns (ok: bool)
      requires src.Valid() && src.Open() && (runningSeq < SEQ_NUM ==> Fits(OtaProtocol.Other(runningSeq)))
      modifies this`getSize, src, devices
      ensures src.Valid() && old(src.pos) <= src.pos && (old(src.Sound()) ==> src.Sound())
      ensures ok ==>
                && var image := OtaProtocol.Other(runningSeq);
                && Begins(connects) && Fits(image) && Check(Mems(devices), layout, image, limit) == ImageCheck.Valid
                && getSize == src.pos - old(src.pos) && old(src.pos) + layout.blSize <= src.pos
                && Filled(Slot(image), src.stream[old(src.pos) + layout.blSize..src.pos])
                && Around(image, old(devices[layout.flash[image]].mem))
      ensures Begins(connects) && !src.failed && !(src.ended && src.pos <= old(src.pos) + layout.blSize) ==>
                && var image := OtaProtocol.Other(runningSeq);
                && Fits(image) && (ok <==> Check(Mems(devices), layout, image, limit) == ImageCheck.Valid)
                && (if src.ended then src.pos == |src.stream| else src.pos == old(src.pos) + layout.blSize + imgMaxSize)
    {
      ok := false;
      getSize := 0;
      if imgMaxSize == 0 || layout.blSize == 0 || SEQ_NUM <= runningSeq {
        return;
      }
      var image := OtaProtocol.Other(runningSeq);
      EraseSlot(image);
      hide Filled, Blank, Check, Source.Sound;
      if !connects {
        return;
      }
      ok := SkipBootloader(src);
      if !ok {
        return;
      }
      ok := FillSlot(src, image);
      if !ok {
        return;
      }
      var verdict := CheckSections(devices, layout, image, IMAGE_CHECK_SIZE, limit);
      ok := verdict == ImageCheck.Valid;
    }
  }
}
