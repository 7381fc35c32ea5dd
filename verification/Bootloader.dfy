// Starting an application: the boot loader takes the slot that the configuration stands for, or
// else the other one, looks for the application in it, and loads that.
module Bootloader {
  import opened Words
  import opened NorFlash
  import opened FdcmArea
  import opened OtaProtocol
  import opened Ota
  import opened ImageSections
  import opened ImageCache
  import opened ImageCheck

  const IMAGE_APP_ID := 0xA5FE_5A01

  // The first section with the id of the application is one that can be loaded.
  ghost predicate AppLoads(mems: seq<seq<byte>>, layout: Layout, image: nat, secs: seq<Section>, maxAddr: nat, unpacks: bool)
    requires Placed(mems, layout, image)
  {
    var addr := FirstWith(secs, IMAGE_APP_ID);
    addr != INVALID_ADDR && Loads(mems[layout.flash[image]], addr, maxAddr, unpacks)
  }

  // What the flash holds in a slot, in the terms of the update protocol.
  ghost function SlotOf(mems: seq<seq<byte>>, layout: Layout, image: nat, secs: seq<Section>, maxAddr: nat, unpacks: bool, limit: nat): Slot
    requires Placed(mems, layout, image)
  {
    var loads := AppLoads(mems, layout, image, secs, maxAddr, unpacks);
    if Check(mems, layout, image, limit) == Valid then Complete(loads) else Broken(loads)
  }

  // The chains of sections of both images are there, and the headers are those in flash.
  ghost predicate Laid(content: Content, mems: seq<seq<byte>>, layout: Layout, secs: seq<seq<Section>>) {
    && |secs| == SEQ_NUM && Mirrors(content, mems)
    && forall i :: 0 <= i < SEQ_NUM ==>
         && Placed(mems, layout, i) && IsChain(content, layout, i, secs[i]) && |secs[i]| <= MAX_SECTIONS
         && Agrees(content, layout, i)
  }

  // The start of a slot, or of none, as a step of the update protocol.
  ghost predicate IsStep(a: seq<byte>, slots: seq<Slot>, started: bool, seqNo: nat, a': seq<byte>) {
    && var s := Sys(a, slots, Off);
    && WellFormed(s)
    && if started then Enabled(s, Boot(seqNo)) && a' == Next(s, Boot(seqNo)).area else Enabled(s, BootFails) && a' == a
  }

  lemma Starts(a: seq<byte>, slots: seq<Slot>, seqNo: nat)
    requires CfgArea(a) && |slots| == SLOTS
    ensures HEADER_SIZE < |a|
    ensures Picks(a, LoadsOf(slots), seqNo) ==> IsStep(a, slots, true, seqNo, AfterBoot(a, seqNo))
  {
    hide CfgOf;
  }

  lemma StartsNot(a: seq<byte>, slots: seq<Slot>, seqNo: nat)
    requires CfgArea(a) && |slots| == SLOTS
    ensures LoadsOf(slots) == [false, false] ==> IsStep(a, slots, false, seqNo, a)
  {
    hide CfgOf;
  }

  class Loader {
    const control: ImageControl
    const images: Images
    const devices: seq<Flash>
    // The end of the memory that an application may be loaded to.
    const maxAddr: nat

    constructor (control: ImageControl, images: Images, devices: seq<Flash>, maxAddr: nat)
      ensures this.control == control && this.images == images && this.devices == devices && this.maxAddr == maxAddr
    {
      this.control, this.images, this.devices, this.maxAddr := control, images, devices, maxAddr;
    }

    // The application is found through the cache of section addresses, where reads of headers
    // and requests for memory may fail.
    method LoadAppBin(image: nat, unpacks: bool, ghost secs: seq<seq<Section>>) returns (ok: bool)
      requires images.Valid() && image < SEQ_NUM && Laid(images.flash.content, Mems(devices), images.layout, secs)
      modifies images.first, images.second, images.first.secAddr, images.second.secAddr, images.flash.faults
      ensures images.Valid() && Onward(images.flash.faults)
      ensures Fresher(old(images.first.secAddr), images.first.secAddr) && Fresher(old(images.second.secAddr), images.second.secAddr)
      ensures ok <==> !Failed(images.flash.faults) && AppLoads(Mems(devices), images.layout, image, secs[image], maxAddr, unpacks)
    {
      ghost var mems := Mems(devices);
      hide FirstWith, IsChain, Agrees, Mirrors, Loads, Images.Valid, Faults.Over;
      var addr := images.GetAddr(image, IMAGE_APP_ID, secs[image]);
      ok := false;
      if addr == INVALID_ADDR {
        return;
      }
      var dev := images.layout.flash[image];
      assert mems[dev] == devices[dev].mem;
      ok := LoadBinById(devices[dev], addr, maxAddr, unpacks);
    }

    // What the protocol knows of the flash.
    ghost function Slots(mems: seq<seq<byte>>, secs: seq<seq<Section>>, unpacks: seq<bool>, limit: nat): (r: seq<Slot>)
      requires |secs| == |unpacks| == SLOTS && Placed(mems, images.layout, 0) && Placed(mems, images.layout, 1)
      ensures |r| == SLOTS
    {
      [SlotOf(mems, images.layout, 0, secs[0], maxAddr, unpacks[0], limit),
       SlotOf(mems, images.layout, 1, secs[1], maxAddr, unpacks[1], limit)]
    }

    lemma SlotsLoad(mems: seq<seq<byte>>, secs: seq<seq<Section>>, unpacks: seq<bool>, limit: nat)
      requires |secs| == |unpacks| == SLOTS && Placed(mems, images.layout, 0) && Placed(mems, images.layout, 1)
      ensures var loads := LoadsOf(Slots(mems, secs, unpacks, limit));
              && loads == [loads[0], loads[1]]
              && loads[0] == AppLoads(mems, images.layout, 0, secs[0], maxAddr, unpacks[0])
              && loads[1] == AppLoads(mems, images.layout, 1, secs[1], maxAddr, unpacks[1])
    {
      hide AppLoads, Check;
    }

    // Starts the configured slot, or else the next one that can be started. Unless something
    // fails in the look-up this is a step of the update protocol, for the slots as they are in
    // flash, however far their sections are checked.
    method LoadBin(unpacks: seq<bool>, ghost secs: seq<seq<Section>>, ghost limit: nat) returns (started: bool)
      requires control.Ready() && images.Valid() && |unpacks| == SLOTS
      requires Laid(images.flash.content, Mems(devices), images.layout, secs)
      modifies control`runningSeq, control.log.flash
      modifies images.first, images.second, images.first.secAddr, images.second.secAddr, images.flash.faults
      ensures control.Ready() && control.log.Around(old(control.log.flash.mem)) && Onward(images.flash.faults)
      ensures !started ==> control.log.Area() == old(control.log.Area())
      ensures started ==>
                && control.runningSeq < SLOTS && control.log.Area() == AfterBoot(old(control.log.Area()), control.runningSeq)
                && AppLoads(old(Mems(devices)), images.layout, control.runningSeq, secs[control.runningSeq], maxAddr,
                            unpacks[control.runningSeq])
      ensures !Failed(images.flash.faults) ==>
                IsStep(old(control.log.Area()), Slots(old(Mems(devices)), secs, unpacks, limit), started,
                       control.runningSeq, control.log.Area())
    {
      hide CfgArea, CfgOf, Choice, Rewrites, AfterBoot, Check, IsChain, Agrees, Mirrors, Images.Valid, IsStep, AppLoads,
        Faults.Over, Slots, LoadsOf, SlotOf;
      ghost var a, mems := control.log.Area(), Mems(devices);
      started := false;
      var cfgSeq := control.ConfiguredSeq();
      var loadSeq := if cfgSeq == SLOTS then 0 else cfgSeq;
      var i := 0;
      while i < SLOTS
        invariant i <= SLOTS && !started && control.Ready() && images.Valid() && control.log.Area() == a
        invariant control.log.flash.mem == old(control.log.flash.mem) && Mems(devices) == mems && Onward(images.flash.faults)
        invariant Fresher(old(images.first.secAddr), images.first.secAddr) && Fresher(old(images.second.secAddr), images.second.secAddr)
        invariant loadSeq == (Choice(a) + i) % SLOTS
        invariant !Failed(images.flash.faults) && 0 < i ==>
                    !AppLoads(mems, images.layout, Choice(a), secs[Choice(a)], maxAddr, unpacks[Choice(a)])
        invariant !Failed(images.flash.faults) && i == SLOTS ==>
                    !AppLoads(mems, images.layout, 0, secs[0], maxAddr, unpacks[0])
                    && !AppLoads(mems, images.layout, 1, secs[1], maxAddr, unpacks[1])
      {
        control.runningSeq := loadSeq;
        started := LoadAppBin(loadSeq, unpacks[loadSeq], secs);
        if started {
          SlotsLoad(mems, secs, unpacks, limit);
          Starts(a, Slots(mems, secs, unpacks, limit), loadSeq);
          control.NoteStarted(loadSeq, cfgSeq);
          return;
        }
        loadSeq := (loadSeq + 1) % SLOTS;
        i := i + 1;
      }
      SlotsLoad(mems, secs, unpacks, limit);
      StartsNot(a, Slots(mems, secs, unpacks, limit), control.runningSeq);
    }
  }
}
