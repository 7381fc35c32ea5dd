// The image configuration in flash, and the two image slots that are updated in turn.
module OtaProtocol {
  import opened Words
  import opened NorFlash
  import opened FdcmArea
  import opened FdcmCut

  const SLOTS := 2

  /* ---- The configuration record ---- */

  function RawSeq(seqNo: nat): (r: byte)
  {
    if seqNo == 0 then 0x55 else 0xAA
  }

  // The magic numbers for a slot and for the verified state, low bytes first.
  function RawCfg(seqNo: nat): (r: seq<byte>)
    ensures |r| == 4
  {
    [RawSeq(seqNo), RawSeq(seqNo), 0x69, 0x96]
  }

  datatype ImageState = Unverified | Verified | Undefined

  datatype CfgResult = NoCfg | Cfg(seqNo: nat, state: ImageState)

  function ParseState(lo: byte, hi: byte): ImageState {
    if lo == 0x69 && hi == 0x96 then Verified else if lo == 0x96 && hi == 0x69 then Unverified else Undefined
  }

  function ParseCfg(d: seq<byte>): (r: CfgResult)
    requires |d| == 4
    ensures r.Cfg? ==> r.seqNo < SLOTS
  {
    if d[0] == d[1] == 0x55 then Cfg(0, ParseState(d[2], d[3]))
    else if d[0] == d[1] == 0xAA then Cfg(1, ParseState(d[2], d[3]))
    else NoCfg
  }

  // What the area says.
  function CfgOf(a: seq<byte>): (r: CfgResult)
    ensures r.Cfg? ==> r.seqNo < SLOTS
  {
    match ReadLast(a, 4)
    case Record(d) => if |d| == 4 then ParseCfg(d) else NoCfg
    case _ => NoCfg
  }

  // The slot to start: the configured one if it is verified, otherwise the first.
  function Choice(a: seq<byte>): (r: nat)
    ensures r < SLOTS
  {
    var c := CfgOf(a);
    if c.Cfg? && c.state == Verified then c.seqNo else 0
  }

  // Writing the configuration for a slot, unless the power goes off.
  function SetCfg(a: seq<byte>, seqNo: nat): (r: seq<byte>)
    requires HEADER_SIZE < |a|
    ensures |r| == |a|
  {
    DoAll(a, WriteOps(a, RawCfg(seqNo)))
  }

  // An area as it may be found: what is read from it lies inside, and its bitmap is not
  // smaller than a record.
  ghost predicate CfgArea(a: seq<byte>) {
    CfgSize(|a|) && Sane(a) && !ReadLast(a, 4).Outside?
  }

  predicate CfgSize(size: nat) {
    HEADER_SIZE < size && 4 <= BitmapSize(size, 4) && Fits(size, 4)
  }

  lemma CfgAreaFits(size: nat)
    requires 4096 <= size <= 0x10_0000
    ensures CfgSize(size)
  {
    var q := (size - HEADER_SIZE - 1) / 33;
    assert 100 <= q < 0xFFFF;
  }

  // The magic numbers are such that clearing only some of the bits of one never gives
  // another.
  lemma MagicsApart()
    ensures !Within(0x55, 0xAA) && !Within(0xAA, 0x55)
  {
    assert And(0, 1) == 0 && And(1, 0) == 0;
    assert And(1, 2) == 0 && And(2, 1) == 0;
    assert And(2, 5) == 0 && And(5, 2) == 0;
    assert And(5, 10) == 0 && And(10, 5) == 0;
    assert And(10, 21) == 0 && And(21, 10) == 0;
    assert And(21, 42) == 0 && And(42, 21) == 0;
    assert And(42, 0x55) == 0 && And(0x55, 42) == 0;
    assert And(0x55, 0xAA) == 0 && And(0xAA, 0x55) == 0;
  }

  lemma HalfCfg(d: seq<byte>, seqNo: nat)
    requires Half(d, RawCfg(seqNo)) && seqNo < SLOTS
    ensures |d| == 4
    ensures var c := ParseCfg(d);
            c.Cfg? && c.state == Verified ==> c.seqNo == seqNo
  {
    hide And;
    MagicsApart();
    assert Within(RawCfg(seqNo)[0], d[0]);
  }

  // A write of the configuration, cut off anywhere, leaves the old choice, the first slot, or
  // the new choice.
  lemma SetCfgCut(a: seq<byte>, seqNo: nat, a': seq<byte>)
    requires CfgArea(a) && seqNo < SLOTS && Interrupted(a, WriteOps(a, RawCfg(seqNo)), a')
    ensures CfgArea(a') && (Choice(a') == Choice(a) || Choice(a') == 0 || Choice(a') == seqNo)
  {
    hide Sane, ReadLast, Half, WriteOps, BitmapSize, ParseCfg, Interrupted;
    CutIsSane(a, RawCfg(seqNo), a');
    CutWrite(a, RawCfg(seqNo), a');
    var r := ReadLast(a', 4);
    if r.Record? && Half(r.data, RawCfg(seqNo)) {
      HalfCfg(r.data, seqNo);
    }
  }

  lemma CfgReadBack(a: seq<byte>, seqNo: nat)
    requires ReadLast(a, 4) == Record(RawCfg(seqNo)) && seqNo < SLOTS
    ensures CfgOf(a) == Cfg(seqNo, Verified)
  {
  }

  // One that is not cut off gives the new choice, unless the area takes no record any more.
  lemma SetCfgWhole(a: seq<byte>, seqNo: nat)
    requires CfgArea(a) && seqNo < SLOTS
    ensures CfgArea(SetCfg(a, seqNo)) && (Stuck(SetCfg(a, seqNo), 4) <==> Stuck(a, 4))
    ensures WriteOps(a, RawCfg(seqNo)) == [] <==> Stuck(a, 4)
    ensures !Stuck(a, 4) ==>
              ReadLast(SetCfg(a, seqNo), 4) == Record(RawCfg(seqNo)) && CfgOf(SetCfg(a, seqNo)) == Cfg(seqNo, Verified)
    ensures Stuck(a, 4) ==> SetCfg(a, seqNo) == a
  {
    StuckMeans(a, RawCfg(seqNo));
    hide Sane, ReadLast, WriteOps, BitmapSize, Interrupted, DoAll, Stuck, CfgOf;
    Completed(a, WriteOps(a, RawCfg(seqNo)));
    SetCfgCut(a, seqNo, SetCfg(a, seqNo));
    if Stuck(a, 4) {
      DoNone(a);
    } else {
      WriteThenRead(a, RawCfg(seqNo));
      CfgReadBack(SetCfg(a, seqNo), seqNo);
      UncutSticksNot(a, RawCfg(seqNo));
    }
  }

  /* ---- The protocol ---- */

  // A slot is complete when every section of the image in it has passed its check. Whether
  // the bootloader can load the application from it is another question: it can load one
  // from a slot that is broken elsewhere, and it can refuse one of a slot that is complete.
  datatype Slot = Complete(loads: bool) | Broken(loads: bool)

  // The slot that has been started, and the one that the application takes to be running;
  // whether get_size is not 0, whether the last ota_get_image has returned OK, and whether
  // ota_verify_image has been called since then with get_size not 0.
  datatype Power = Off | Running(started: nat, seqNo: nat, fetched: bool, got: bool, changed: bool)

  datatype Sys = Sys(area: seq<byte>, slots: seq<Slot>, power: Power)

  // An update under way, or one that has failed, may leave anything in its slot.
  datatype Event =
    | PowerOff
    | Boot(seqNo: nat)
    | BootCut(seqNo: nat, area: seq<byte>)
    | BootFails
    | Update(slot: Slot, fetched: bool)
    | UpdateOk(slot: Slot)
    | Verify
    | VerifyCut(area: seq<byte>)

  ghost predicate WellFormed(s: Sys) {
    && |s.slots| == SLOTS && CfgArea(s.area)
    && (s.power.Running? ==> s.power.started < SLOTS && s.power.seqNo < SLOTS)
  }

  function Other(seqNo: nat): nat {
    1 - Min(seqNo, 1)
  }

  function LoadsOf(slots: seq<Slot>): (r: seq<bool>)
    requires |slots| == SLOTS
    ensures |r| == SLOTS
  {
    [slots[0].loads, slots[1].loads]
  }

  // The bootloader starts the configured slot, or else the other one.
  ghost predicate Picks(a: seq<byte>, loads: seq<bool>, seqNo: nat)
    requires |loads| == SLOTS
  {
    seqNo < SLOTS && loads[seqNo] && (seqNo == Choice(a) || !loads[Choice(a)])
  }

  // The bootloader writes the configuration if it has started another slot than that says.
  ghost predicate Rewrites(a: seq<byte>, seqNo: nat) {
    CfgOf(a) != Cfg(seqNo, Verified)
  }

  ghost function AfterBoot(a: seq<byte>, seqNo: nat): (r: seq<byte>)
    requires HEADER_SIZE < |a|
    ensures |r| == |a|
  {
    if Rewrites(a, seqNo) then SetCfg(a, seqNo) else a
  }

  // The application works out the running slot from the configuration on its own.
  function RunningSeq(a: seq<byte>): (r: nat) {
    match CfgOf(a)
    case NoCfg => 0
    case Cfg(seqNo, state) => if state == Verified then seqNo else 0
  }

  ghost predicate CutOff(a: seq<byte>, seqNo: nat, a': seq<byte>)
    requires HEADER_SIZE < |a|
  {
    Interrupted(a, WriteOps(a, RawCfg(seqNo)), a')
  }

  // What may happen in a state; nothing here is up to the caller of the update.
  ghost predicate Enabled(s: Sys, e: Event)
    requires WellFormed(s)
  {
    match e
    case PowerOff => true
    case Boot(seqNo) => s.power.Off? && Picks(s.area, LoadsOf(s.slots), seqNo)
    case BootCut(seqNo, area) =>
      s.power.Off? && Picks(s.area, LoadsOf(s.slots), seqNo) && Rewrites(s.area, seqNo) && CutOff(s.area, seqNo, area)
    case BootFails => s.power.Off? && LoadsOf(s.slots) == [false, false]
    case Update(_, _) => s.power.Running?
    case UpdateOk(slot) => s.power.Running? && slot.Complete?
    case Verify => s.power.Running? && s.power.fetched
    case VerifyCut(area) => s.power.Running? && s.power.fetched && CutOff(s.area, Other(s.power.seqNo), area)
  }

  ghost function Next(s: Sys, e: Event): (s': Sys)
    requires WellFormed(s) && Enabled(s, e)
  {
    match e
    case PowerOff => s.(power := Off)
    case Boot(seqNo) =>
      var area := AfterBoot(s.area, seqNo);
      s.(area := area, power := Running(seqNo, RunningSeq(area), false, false, false))
    case BootCut(seqNo, area) => s.(area := area)
    case BootFails => s
    case Update(slot, fetched) =>
      s.(slots := s.slots[Other(s.power.seqNo) := slot], power := s.power.(fetched := fetched, got := false))
    case UpdateOk(slot) =>
      s.(slots := s.slots[Other(s.power.seqNo) := slot], power := s.power.(fetched := true, got := true))
    case Verify => s.(area := SetCfg(s.area, Other(s.power.seqNo)), power := s.power.(changed := true))
    case VerifyCut(area) => s.(area := area, power := Off)
  }

  // The caller of the update keeps to two rules: it verifies only what ota_get_image has
  // returned OK for, and it does not update again after that until the next start.
  predicate Careful(s: Sys, e: Event) {
    match e
    case Update(_, _) => s.power.Running? && !s.power.changed
    case UpdateOk(_) => s.power.Running? && !s.power.changed
    case Verify => s.power.Running? && s.power.got
    case VerifyCut(_) => s.power.Running? && s.power.got
    case _ => true
  }

  // The bootloader will find a slot to start, and that is complete.
  ghost predicate Safe(s: Sys)
    requires WellFormed(s)
  {
    var c := Choice(s.area);
    if s.slots[c].loads then s.slots[c].Complete? else s.slots[Other(c)] == Complete(true)
  }

  ghost predicate Inv(s: Sys) {
    && WellFormed(s) && !Stuck(s.area, 4) && Safe(s)
    && (s.power.Running? ==>
          && s.power.seqNo == s.power.started && s.slots[s.power.started] == Complete(true)
          && (s.power.got || s.power.changed ==> s.slots[Other(s.power.started)].Complete?)
          && (!s.power.changed ==> Choice(s.area) == s.power.started))
  }

  lemma ChoiceIs(a: seq<byte>)
    ensures forall i :: CfgOf(a) == Cfg(i, Verified) ==> Choice(a) == i
    ensures RunningSeq(a) == Choice(a) && (Rewrites(a, Choice(a)) ==> Choice(a) == 0)
  {
  }

  lemma CutArea(a: seq<byte>, seqNo: nat, a': seq<byte>)
    requires CfgArea(a) && seqNo < SLOTS && CutOff(a, seqNo, a')
    ensures CfgArea(a') && |a'| == |a| && (Choice(a') == Choice(a) || Choice(a') == 0 || Choice(a') == seqNo)
    ensures !Stuck(a, 4) && !CanStick(|a|, 4) ==> !Stuck(a', 4)
  {
    hide CfgArea, Interrupted, WriteOps, Choice, Stuck, CanStick;
    SetCfgCut(a, seqNo, a');
    CfgAreaFacts(a);
    CfgAreaFacts(a');
    InterruptedSize(a, WriteOps(a, RawCfg(seqNo)), a');
    StuckMeans(a, RawCfg(seqNo));
    if !Stuck(a, 4) && !CanStick(|a|, 4) {
      CutSticksNot(a, RawCfg(seqNo), a');
    }
  }

  lemma CfgAreaFacts(a: seq<byte>)
    requires CfgArea(a)
    ensures HEADER_SIZE < |a| && Sane(a) && 4 <= BitmapSize(|a|, 4) && Fits(|a|, 4)
  {
  }

  lemma WholeArea(a: seq<byte>, seqNo: nat)
    requires CfgArea(a) && seqNo < SLOTS
    ensures HEADER_SIZE < |a|
    ensures CfgArea(SetCfg(a, seqNo)) && (Stuck(SetCfg(a, seqNo), 4) <==> Stuck(a, 4))
    ensures Choice(SetCfg(a, seqNo)) == if Stuck(a, 4) then Choice(a) else seqNo
    ensures CfgArea(AfterBoot(a, seqNo)) && (Stuck(AfterBoot(a, seqNo), 4) <==> Stuck(a, 4))
    ensures RunningSeq(AfterBoot(a, seqNo)) == Choice(AfterBoot(a, seqNo)) ==
            if !Rewrites(a, seqNo) || !Stuck(a, 4) then seqNo else Choice(a)
  {
    CfgAreaFacts(a);
    hide CfgArea, WriteOps, SetCfg, ReadLast, Stuck, CfgOf;
    SetCfgWhole(a, seqNo);
    ChoiceIs(a);
    ChoiceIs(SetCfg(a, seqNo));
  }

  // The power cut has left an area that takes no record any more.
  predicate Sticks(e: Event) {
    (e.BootCut? || e.VerifyCut?) && Stuck(e.area, 4)
  }

  lemma NextArea(s: Sys, e: Event)
    requires WellFormed(s) && Enabled(s, e)
    ensures WellFormed(Next(s, e)) && |Next(s, e).area| == |s.area|
    ensures !Stuck(s.area, 4) ==> (Stuck(Next(s, e).area, 4) <==> Sticks(e)) && (Sticks(e) ==> CanStick(|s.area|, 4))
  {
    hide CfgArea, Interrupted, WriteOps, SetCfg, CfgOf, Choice, Stuck, CutOff, Rewrites, AfterBoot, CanStick;
    CfgAreaFacts(s.area);
    match e
    case Boot(seqNo) => WholeArea(s.area, seqNo);
    case BootCut(seqNo, area) => CutArea(s.area, seqNo, area);
    case Verify => WholeArea(s.area, Other(s.power.seqNo));
    case VerifyCut(area) => CutArea(s.area, Other(s.power.seqNo), area);
    case _ =>
  }

  // Every step keeps the invariant, unless it gets the area stuck.
  lemma StepKeepsInv(s: Sys, e: Event)
    requires Inv(s) && Enabled(s, e) && Careful(s, e) && !Sticks(e)
    ensures Inv(Next(s, e))
  {
    NextArea(s, e);
    hide CfgArea, Interrupted, WriteOps, SetCfg, CfgOf, Choice, Stuck, CutOff, Rewrites, AfterBoot, RunningSeq;
    match e
    case Boot(seqNo) => WholeArea(s.area, seqNo);
    case BootCut(seqNo, area) =>
      CutArea(s.area, seqNo, area);
      ChoiceIs(s.area);
    case Verify => WholeArea(s.area, Other(s.power.seqNo));
    case VerifyCut(area) => CutArea(s.area, Other(s.power.seqNo), area);
    case _ =>
  }

  /* ---- Runs ---- */

  datatype Option<T> = None | Some(value: T)

  // Where a series of events leads, if it can happen, and if the caller is careful where that
  // is asked for.
  ghost function Play(s: Sys, events: seq<Event>, careful: bool): Option<Sys>
    decreases |events|
  {
    if events == [] then Some(s)
    else
      var n := |events| - 1;
      match Play(s, events[..n], careful)
      case None => None
      case Some(t) =>
        if WellFormed(t) && Enabled(t, events[n]) && (careful ==> Careful(t, events[n])) then Some(Next(t, events[n])) else None
  }

  lemma PlayMore(s: Sys, events: seq<Event>, careful: bool, e: Event)
    requires Play(s, events, careful).Some?
    requires var t := Play(s, events, careful).value;
             WellFormed(t) && Enabled(t, e) && (careful ==> Careful(t, e))
    ensures Play(s, events + [e], careful) == Some(Next(Play(s, events, careful).value, e))
  {
    hide WellFormed, Enabled, Next, Careful;
    assert (events + [e])[..|events|] == events;
  }

  // Whatever happens, the state has the form that Play asks for.
  lemma {:induction false} PlayIsWellFormed(s: Sys, events: seq<Event>, careful: bool)
    requires WellFormed(s) && Play(s, events, careful).Some?
    ensures WellFormed(Play(s, events, careful).value) && |Play(s, events, careful).value.area| == |s.area|
    decreases |events|
  {
    hide WellFormed, Enabled, Next;
    if events != [] {
      var n := |events| - 1;
      PlayIsWellFormed(s, events[..n], careful);
      NextArea(Play(s, events[..n], careful).value, events[n]);
    }
  }

  // In every run with a careful caller, the power going off anywhere: the invariant holds if
  // no power cut gets the area stuck, which for most sizes of the area none can.
  lemma {:induction false} RunKeepsInv(s: Sys, events: seq<Event>)
    requires Inv(s) && Play(s, events, true).Some?
    requires CanStick(|s.area|, 4) ==> forall e :: e in events ==> !Sticks(e)
    ensures Inv(Play(s, events, true).value) && |Play(s, events, true).value.area| == |s.area|
    decreases |events|
  {
    hide Enabled, Next, CanStick, Sticks, CfgArea, Safe, Stuck, Careful;
    if events != [] {
      var n := |events| - 1;
      RunKeepsInv(s, events[..n]);
      var t := Play(s, events[..n], true).value;
      NextArea(t, events[n]);
      StepKeepsInv(t, events[n]);
    }
  }

  // The bootloader does not fail, the slot that it starts is complete, and the application
  // takes itself to be running from that slot.
  ghost predicate BootsRight(s: Sys, e: Event)
    requires WellFormed(s) && Enabled(s, e)
  {
    && !e.BootFails?
    && (e.Boot? || e.BootCut? ==> s.slots[e.seqNo] == Complete(true))
    && (e.Boot? ==> Next(s, e).power.seqNo == e.seqNo)
  }

  lemma InvBootsRight(s: Sys, e: Event)
    requires Inv(s) && Enabled(s, e)
    ensures BootsRight(s, e)
  {
    hide CfgArea, CfgOf, Choice, Stuck, AfterBoot, Rewrites, RunningSeq, CutOff;
    if e.Boot? {
      WholeArea(s.area, e.seqNo);
    }
  }

  lemma BootsCompleteSlot(s: Sys, events: seq<Event>, e: Event)
    requires Inv(s) && Play(s, events, true).Some?
    requires CanStick(|s.area|, 4) ==> forall e :: e in events ==> !Sticks(e)
    ensures var t := Play(s, events, true).value;
            WellFormed(t) && (Enabled(t, e) ==> BootsRight(t, e))
  {
    hide Enabled, Play, CanStick, Sticks, CfgArea, Safe, Stuck, BootsRight;
    RunKeepsInv(s, events);
    var t := Play(s, events, true).value;
    if Enabled(t, e) {
      InvBootsRight(t, e);
    }
  }

  // A new device: the first slot is complete and loads, and the area is blank.
  lemma NewDevice(size: nat, second: Slot)
    requires CfgSize(size)
    ensures Inv(Sys(Blank(size), [Complete(true), second], Off))
  {
    BlankArea(size);
    hide CfgArea, Choice, Stuck;
  }

  lemma BlankArea(size: nat)
    requires CfgSize(size)
    ensures CfgArea(Blank(size)) && CfgOf(Blank(size)) == NoCfg && Choice(Blank(size)) == 0 && !Stuck(Blank(size), 4)
  {
    BlankIsNoHeader(size);
    hide BitmapSize, Blank;
  }

  /* ---- Areas that are stuck ---- */

  // The application knows which slot is running unless the area is stuck and the bootloader
  // has started another slot than the configured one.
  lemma RunningSeqIff(s: Sys, seqNo: nat)
    requires WellFormed(s) && Enabled(s, Boot(seqNo))
    ensures Next(s, Boot(seqNo)).power.seqNo == seqNo <==> !Stuck(s.area, 4) || seqNo == Choice(s.area)
  {
    hide CfgArea, CfgOf, Stuck, AfterBoot, Choice, CutOff;
    WholeArea(s.area, seqNo);
    ChoiceIs(s.area);
    assert !Rewrites(s.area, seqNo) ==> seqNo == Choice(s.area);
  }

  // The configuration stays as it is for ever.
  lemma {:induction false} StuckIsFrozen(s: Sys, events: seq<Event>, careful: bool)
    requires WellFormed(s) && Stuck(s.area, 4) && Play(s, events, careful).Some?
    ensures WellFormed(Play(s, events, careful).value) && Play(s, events, careful).value.area == s.area
    decreases |events|
  {
    hide CfgArea, Stuck, Careful, Choice, Interrupted, WriteOps;
    if events != [] {
      var n := |events| - 1;
      StuckIsFrozen(s, events[..n], careful);
      NextArea(Play(s, events[..n], careful).value, events[n]);
      StuckStep(Play(s, events[..n], careful).value, events[n]);
    }
  }

  lemma StuckStep(s: Sys, e: Event)
    requires WellFormed(s) && Stuck(s.area, 4) && Enabled(s, e)
    ensures Next(s, e).area == s.area
  {
    hide CfgArea, Stuck, Choice, WriteOps, Picks, CfgOf, DoAll;
    if e.Boot? || e.BootCut? || e.Verify? || e.VerifyCut? {
      StuckWrites(s.area, if e.Boot? || e.BootCut? then e.seqNo else Other(s.power.seqNo));
    }
  }

  lemma StuckWrites(a: seq<byte>, seqNo: nat)
    requires CfgArea(a) && Stuck(a, 4)
    ensures WriteOps(a, RawCfg(seqNo)) == [] && SetCfg(a, seqNo) == a
  {
    StuckMeans(a, RawCfg(seqNo));
    DoNone(a);
  }

  // Every run in an area of a size goes right: after any events, with a careful caller, the
  // next one does.
  ghost predicate RunsGoRight(size: nat) {
    forall s: Sys, events: seq<Event>, e: Event ::
      Inv(s) && |s.area| == size && Play(s, events, true).Some? ==> NextGoesRight(Play(s, events, true).value, e)
  }

  ghost predicate NextGoesRight(t: Sys, e: Event) {
    WellFormed(t) && (Enabled(t, e) ==> BootsRight(t, e))
  }

  // That is so exactly for the sizes for which no power cut can get the area stuck.
  lemma RunsGoRightIff(size: nat)
    requires CfgSize(size)
    ensures RunsGoRight(size) <==> !CanStick(size, 4)
  {
    hide BitmapSize, Fits, CanStick, Inv, Play, BootsRight, Enabled, WellFormed;
    if CanStick(size, 4) {
      var s, events := StuckRun(size);
      assert !NextGoesRight(Play(s, events, true).value, BootFails);
    } else {
      forall s: Sys, events: seq<Event>, e: Event | Inv(s) && |s.area| == size && Play(s, events, true).Some?
        ensures NextGoesRight(Play(s, events, true).value, e)
      {
        BootsCompleteSlot(s, events, e);
      }
    }
  }

  // The area gets stuck while the bootloader notes that it has started the second slot, since
  // the first one does not load. From then on the application in the second slot takes itself
  // to be in the first one, so that an update breaks the slot that it runs from; after that
  // nothing can be started.
  lemma StuckRun(size: nat) returns (s: Sys, events: seq<Event>)
    requires CfgSize(size) && CanStick(size, 4)
    ensures Inv(s) && |s.area| == size && WellFormed(s)
    ensures Play(s, events, true).Some? && WellFormed(Play(s, events, true).value)
    ensures Enabled(Play(s, events, true).value, BootFails) && !BootsRight(Play(s, events, true).value, BootFails)
  {
    BlankArea(size);
    var a := StuckCfg(size);
    s := Sys(Blank(size), [Complete(false), Complete(true)], Off);
    var t := Sys(a, s.slots, Off);
    var u := Sys(a, s.slots, Running(1, 0, false, false, false));
    var v := Sys(a, [Complete(false), Broken(false)], Running(1, 0, true, false, false));
    hide CfgArea, CfgOf, Choice, CutOff, Stuck, CanStick, Blank, CfgSize, Play, Rewrites, AfterBoot;
    assert Play(s, [], true) == Some(s) by { PlayNothing(s); }
    PlayMore(s, [], true, BootCut(1, a));
    events := [] + [BootCut(1, a)];
    assert AfterBoot(a, 1) == a && RunningSeq(a) == 0;
    PlayMore(s, events, true, Boot(1));
    events := events + [Boot(1)];
    PlayMore(s, events, true, Update(Broken(false), true));
    events := events + [Update(Broken(false), true)];
    PlayMore(s, events, true, PowerOff);
    events := events + [PowerOff];
  }

  lemma PlayNothing(s: Sys)
    ensures Play(s, [], true) == Play(s, [], false) == Some(s)
  {
  }

  // An area that the rewrite of a blank one may leave stuck; nothing is read from it.
  lemma StuckCfg(size: nat) returns (a: seq<byte>)
    requires CfgSize(size) && CanStick(size, 4)
    ensures |a| == size && CfgArea(a) && Stuck(a, 4) && CfgOf(a) == NoCfg && Choice(a) == 0
    ensures CutOff(Blank(size), 1, a) && Rewrites(Blank(size), 1) && Rewrites(a, 1) && AfterBoot(a, 1) == a && RunningSeq(a) == 0
  {
    a := StuckHeader(size, 4);
    BlankArea(size);
    HeaderIsReached(size, RawCfg(1));
    SetCfgCut(Blank(size), 1, a);
    HeaderReadsOnes(size, BitmapSize(size, 4), 4, a);
    StuckWrites(a, 1);
    hide BitmapSize, Sane, WriteOps, HeaderCut, CanStick, Stuck, Interrupted, SetCfg, ReadLast;
    assert ParseCfg(Blank(4)) == NoCfg;
  }

  /* ---- What the two rules are for ---- */

  ghost predicate SafeNext(s: Sys, e: Event) {
    WellFormed(s) && Enabled(s, e) && WellFormed(Next(s, e)) && Safe(Next(s, e))
  }

  // ota_get_image may be called again after the configuration has been changed. Whatever that
  // leaves in its slot is safe if and only if the configuration stands for the slot that is
  // running.
  lemma UpdateIsSafeIff(s: Sys)
    requires Inv(s) && s.power.Running?
    ensures (forall slot, fetched :: SafeNext(s, Update(slot, fetched))) <==> Choice(s.area) == s.power.started
  {
    hide Choice, CfgArea, Stuck;
    if Choice(s.area) != s.power.started {
      assert !SafeNext(s, Update(Broken(true), true));
    }
  }

  // One call of ota_get_image, which has downloaded something and returned OK or not.
  function Download(slot: Slot, ok: bool): Event {
    if ok then UpdateOk(slot) else Update(slot, true)
  }

  // ota_verify_image looks only at whether something has been downloaded. Whatever the
  // download has left in its slot, what it does is safe if and only if ota_get_image has
  // returned OK.
  lemma VerifyIsSafeIff(s: Sys, ok: bool)
    requires Inv(s) && s.power.Running?
    ensures (forall slot: Slot :: (ok ==> slot.Complete?) ==> SafeNext(Next(s, Download(slot, ok)), Verify)) <==> ok
  {
    hide Choice, CfgArea, Stuck, SetCfg;
    WholeArea(s.area, Other(s.power.seqNo));
    if !ok {
      var t := Next(s, Download(Broken(true), ok));
      assert t.slots[Other(s.power.seqNo)] == Broken(true);
      assert !SafeNext(t, Verify);
    }
  }

  // A new device, with an image in its first slot.
  ghost function Fresh(size: nat): Sys {
    Sys(Blank(size), [Complete(true), Broken(false)], Off)
  }

  // Where the events lead on a new device, whatever the caller does.
  ghost predicate LeadsTo(size: nat, events: seq<Event>, t: Sys) {
    Play(Fresh(size), events, false) == Some(t)
  }

  // A second download after a change of the configuration: the next start is one from a slot
  // that is broken.
  lemma SecondDownload(size: nat) returns (t: Sys)
    requires CfgSize(size)
    ensures LeadsTo(size, [Boot(0), UpdateOk(Complete(true)), Verify, Update(Broken(true), true), PowerOff, Boot(1)], t)
    ensures t.power.Running? && t.power.started == 1 && t.slots == [Complete(true), Broken(true)]
  {
    hide CfgArea, Choice, Stuck, SetCfg, Play, AfterBoot, RunningSeq, CfgOf, CfgSize, Blank, Rewrites, Fresh, Inv;
    var s := Started(size);
    SwitchedArea(s.area);
    var a := SetCfg(s.area, 1);
    t := Sys(AfterBoot(a, 1), [Complete(true), Broken(true)], Running(1, 1, false, false, false));
    var events := [Boot(0)];
    PlayMore(Fresh(size), events, false, UpdateOk(Complete(true)));
    events := events + [UpdateOk(Complete(true))];
    PlayMore(Fresh(size), events, false, Verify);
    events := events + [Verify];
    PlayMore(Fresh(size), events, false, Update(Broken(true), true));
    events := events + [Update(Broken(true), true)];
    PlayMore(Fresh(size), events, false, PowerOff);
    events := events + [PowerOff];
    PlayMore(Fresh(size), events, false, Boot(1));
    assert s.slots[1 := Complete(true)][1 := Broken(true)] == t.slots;
    assert events + [Boot(1)] == [Boot(0), UpdateOk(Complete(true)), Verify, Update(Broken(true), true), PowerOff, Boot(1)];
  }

  // A download that fails half way, and is verified nevertheless.
  lemma FailedDownload(size: nat) returns (t: Sys)
    requires CfgSize(size)
    ensures LeadsTo(size, [Boot(0), Update(Broken(true), true), Verify, PowerOff, Boot(1)], t)
    ensures t.power.Running? && t.power.started == 1 && t.slots == [Complete(true), Broken(true)]
  {
    hide CfgArea, Choice, Stuck, SetCfg, Play, AfterBoot, RunningSeq, CfgOf, CfgSize, Blank, Rewrites, Fresh, Inv;
    var s := Started(size);
    SwitchedArea(s.area);
    var a := SetCfg(s.area, 1);
    t := Sys(AfterBoot(a, 1), [Complete(true), Broken(true)], Running(1, 1, false, false, false));
    var events := [Boot(0)];
    PlayMore(Fresh(size), events, false, Update(Broken(true), true));
    events := events + [Update(Broken(true), true)];
    PlayMore(Fresh(size), events, false, Verify);
    events := events + [Verify];
    PlayMore(Fresh(size), events, false, PowerOff);
    events := events + [PowerOff];
    PlayMore(Fresh(size), events, false, Boot(1));
    assert s.slots[1 := Broken(true)] == t.slots;
    assert events + [Boot(1)] == [Boot(0), Update(Broken(true), true), Verify, PowerOff, Boot(1)];
  }

  // A new device that has been started.
  lemma Started(size: nat) returns (s: Sys)
    requires CfgSize(size)
    ensures Play(Fresh(size), [Boot(0)], false) == Some(s) && CfgArea(s.area) && !Stuck(s.area, 4)
    ensures s.slots == [Complete(true), Broken(false)] && s.power == Running(0, 0, false, false, false)
  {
    BlankArea(size);
    hide CfgArea, Choice, Stuck, SetCfg, AfterBoot, RunningSeq, CfgOf, CfgSize, Blank, Rewrites, Play;
    WholeArea(Blank(size), 0);
    PlayNothing(Fresh(size));
    PlayMore(Fresh(size), [], false, Boot(0));
    s := Next(Fresh(size), Boot(0));
    assert [] + [Boot(0)] == [Boot(0)];
  }

  lemma SwitchedArea(a: seq<byte>)
    requires CfgArea(a) && !Stuck(a, 4)
    ensures HEADER_SIZE < |a|
    ensures var b := SetCfg(a, 1);
            && CfgArea(b) && Choice(b) == 1 && CfgArea(AfterBoot(b, 1)) && RunningSeq(AfterBoot(b, 1)) == 1
  {
    hide CfgArea, Choice, Stuck, SetCfg, AfterBoot, RunningSeq, CfgOf, Rewrites;
    WholeArea(a, 1);
    WholeArea(SetCfg(a, 1), 1);
  }
}

// The bootloader's and the application's use of the configuration.
module Ota {
  import opened Words
  import opened NorFlash
  import opened FdcmArea
  import opened Fdcm
  import opened OtaProtocol

  class ImageControl {
    const log: FdcmHandle
    var runningSeq: nat
    var getSize: nat

    constructor (log: FdcmHandle)
      requires log.Valid()
      ensures this.log == log && getSize == 0
    {
      this.log := log;
      runningSeq, getSize := 0, 0;
    }

    ghost predicate Ready()
      reads log.flash
    {
      log.Valid() && CfgArea(log.Area())
    }

    method GetCfg() returns (c: CfgResult)
      requires Ready()
      ensures c == CfgOf(log.Area())
    {
      hide ReadLast, Sane, BitmapSize;
      var n, d := log.Read(4);
      if n != 4 {
        return NoCfg;
      }
      c := ParseCfg(d);
    }

    // Writes the record and reads it back. What is read back is what was written, so that
    // there is no second try.
    method SetRawCfg(raw: seq<byte>) returns (ok: bool)
      requires Ready() && (raw == RawCfg(0) || raw == RawCfg(1))
      modifies log.flash
      ensures Ready() && log.Around(old(log.flash.mem))
      ensures log.Area() == DoAll(old(log.Area()), WriteOps(old(log.Area()), raw))
      ensures ok <==> WriteOps(old(log.Area()), raw) != []
    {
      hide ReadLast, WriteOps, CfgArea, DoAll;
      ghost var seqNo := if raw == RawCfg(0) then 0 else 1;
      SetCfgWhole(log.Area(), seqNo);
      CfgAreaSize(log.Area());
      var n := log.Write(raw);
      if n != 4 {
        return false;
      }
      var m, back := log.Read(4);
      ok := m == 4 && back == raw;
    }

    method SetCfg(seqNo: nat) returns (ok: bool)
      requires Ready() && seqNo < SLOTS
      modifies log.flash
      ensures Ready() && log.Around(old(log.flash.mem)) && log.Area() == OtaProtocol.SetCfg(old(log.Area()), seqNo)
      ensures ok <==> WriteOps(old(log.Area()), RawCfg(seqNo)) != []
    {
      hide WriteOps, CfgArea, DoAll;
      ok := SetRawCfg(RawCfg(seqNo));
    }

    // The running slot as the application works it out.
    method InitRunningSeq() returns (seqNo: nat)
      requires Ready()
      ensures seqNo == RunningSeq(log.Area()) == Choice(log.Area())
    {
      hide CfgOf, CfgArea;
      seqNo := 0;
      var c := GetCfg();
      if c.NoCfg? {
        return;
      }
      if c.state == Verified {
        seqNo := c.seqNo;
      }
    }

    // The slot to start with: the configured one if it is verified. Otherwise none is, which
    // comes out as SLOTS.
    method ConfiguredSeq() returns (cfgSeq: nat)
      requires Ready()
      ensures cfgSeq <= SLOTS && Choice(log.Area()) == (if cfgSeq == SLOTS then 0 else cfgSeq)
      ensures forall seqNo :: 0 <= seqNo < SLOTS ==> (Rewrites(log.Area(), seqNo) <==> seqNo != cfgSeq)
    {
      hide CfgArea, CfgOf;
      var c := GetCfg();
      cfgSeq := if c.Cfg? && c.state == Verified then c.seqNo else SLOTS;
    }

    // Notes that a slot has been started which is not the configured one.
    method NoteStarted(seqNo: nat, cfgSeq: nat)
      requires Ready() && seqNo < SLOTS && (Rewrites(log.Area(), seqNo) <==> seqNo != cfgSeq)
      modifies log.flash
      ensures Ready() && log.Around(old(log.flash.mem)) && log.Area() == AfterBoot(old(log.Area()), seqNo)
    {
      hide CfgArea, OtaProtocol.SetCfg, Rewrites;
      if seqNo != cfgSeq {
        var ignored := SetCfg(seqNo);
      }
    }

    // Makes the other slot the configured one, once the digest has been found to be right.
    // Whether the download was found complete is for the caller to know.
    method VerifyImage(digestOk: bool) returns (ok: bool)
      requires Ready()
      modifies log.flash
      ensures Ready() && log.Around(old(log.flash.mem))
      ensures var go := runningSeq < SLOTS && getSize != 0 && digestOk;
              && log.Area() == (if go then OtaProtocol.SetCfg(old(log.Area()), Other(runningSeq)) else old(log.Area()))
              && (ok <==> go && WriteOps(old(log.Area()), RawCfg(Other(runningSeq))) != [])
    {
      hide CfgArea, OtaProtocol.SetCfg, WriteOps;
      ok := false;
      if runningSeq >= SLOTS || getSize == 0 || !digestOk {
        return;
      }
      ok := SetCfg(Other(runningSeq));
    }
  }

  lemma CfgAreaSize(a: seq<byte>)
    requires CfgArea(a)
    ensures HEADER_SIZE < |a|
  {
  }
}
