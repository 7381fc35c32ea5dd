// One-time programmable bits, some of which may refuse to be programmed.
module EfuseBits {

  // Programming can only set bits, and does not set those that are stuck. A bit that is
  // stuck at one is simply set from the beginning.
  function Programmed(bits: seq<bool>, stuck: seq<bool>, start: nat, data: seq<bool>): (r: seq<bool>)
    requires |stuck| == |bits| && start + |data| <= |bits|
    ensures |r| == |bits|
  {
    seq(|bits|, i requires 0 <= i < |bits| => bits[i] || (start <= i < start + |data| && data[i - start] && !stuck[i]))
  }

  // What programming does, bit by bit: none is cleared, a stuck one is not set, one that is
  // to be set and not stuck is, and no other changes. There is only one way to do that.
  lemma ProgrammedIs(bits: seq<bool>, stuck: seq<bool>, start: nat, data: seq<bool>, after: seq<bool>)
    requires |stuck| == |bits| == |after| && start + |data| <= |bits|
    ensures after == Programmed(bits, stuck, start, data) <==>
            forall i :: 0 <= i < |bits| ==>
              && (bits[i] ==> after[i])
              && (stuck[i] || !(start <= i < start + |data|) ==> after[i] == bits[i])
              && (start <= i < start + |data| && !stuck[i] ==> after[i] == (bits[i] || data[i - start]))
  {
    var r := Programmed(bits, stuck, start, data);
    if forall i :: 0 <= i < |bits| ==>
         && (bits[i] ==> after[i])
         && (stuck[i] || !(start <= i < start + |data|) ==> after[i] == bits[i])
         && (start <= i < start + |data| && !stuck[i] ==> after[i] == (bits[i] || data[i - start])) {
      assert forall i :: 0 <= i < |bits| ==> after[i] == r[i];
    }
  }

  // The fuse controller. A read or write beyond the last bit fails.
  class Efuse {
    var bits: seq<bool>
    const stuck: seq<bool>

    ghost predicate Valid()
      reads this
    {
      |stuck| == |bits|
    }

    constructor (bits: seq<bool>, stuck: seq<bool>)
      requires |stuck| == |bits|
      ensures Valid() && this.bits == bits && this.stuck == stuck
    {
      this.bits := bits;
      this.stuck := stuck;
    }

    method Read(start: nat, n: nat) returns (ok: bool, data: seq<bool>)
      ensures ok <==> start + n <= |bits|
      ensures data == if ok then bits[start..start + n] else []
    {
      ok := start + n <= |bits|;
      data := if ok then bits[start..start + n] else [];
    }

    method Write(start: nat, data: seq<bool>) returns (ok: bool)
      requires Valid()
      modifies this
      ensures Valid() && (ok <==> start + |data| <= old(|bits|))
      ensures bits == if ok then Programmed(old(bits), stuck, start, data) else old(bits)
    {
      ok := start + |data| <= |bits|;
      if ok {
        bits := Programmed(bits, stuck, start, data);
      }
    }
  }
}

// Values that can be written several times: slots that are used from the last to the first,
// each with two flag bits; the first slot with a flag is the one that counts.
module EfuseRegion {
  import opened Words
  import opened EfuseBits

  datatype Ack = AckOk | AckRwErr | AckDiErr | AckNoDataErr

  datatype Region = Region(flagStart: nat, slots: nat, dataStart: nat, dataBits: nat)

  // The flags come before the data, and all of it is there.
  ghost predicate Fits(r: Region, size: nat) {
    r.flagStart + 2 * r.slots <= r.dataStart && DataAt(r, r.slots) <= size
  }

  function DataAt(r: Region, k: nat): nat {
    r.dataStart + k * r.dataBits
  }

  lemma DataBefore(r: Region, j: nat, k: nat)
    requires j <= k
    ensures DataAt(r, 0) == r.dataStart && DataAt(r, j) <= DataAt(r, k) && DataAt(r, j + 1) == DataAt(r, j) + r.dataBits
    ensures j < k ==> DataAt(r, j) + r.dataBits <= DataAt(r, k)
  {
    MulMonotone(r.dataBits, j, k);
    if j < k {
      MulMonotone(r.dataBits, j + 1, k);
    }
    assert (j + 1) * r.dataBits == j * r.dataBits + r.dataBits;
  }

  predicate Flagged(bits: seq<bool>, r: Region, k: nat)
    requires r.flagStart + 2 * k + 2 <= |bits|
  {
    bits[r.flagStart + 2 * k] || bits[r.flagStart + 2 * k + 1]
  }

  // The first slot with a flag, from slot k on.
  function LowestFrom(bits: seq<bool>, r: Region, k: nat): (j: nat)
    requires r.flagStart + 2 * r.slots <= |bits| && k <= r.slots
    ensures k <= j <= r.slots
    ensures j < r.slots ==> Flagged(bits, r, j)
    ensures forall i :: k <= i < j ==> !Flagged(bits, r, i)
    decreases r.slots - k
  {
    if k == r.slots || Flagged(bits, r, k) then k else LowestFrom(bits, r, k + 1)
  }

  lemma {:induction false} LowestIs(bits: seq<bool>, r: Region, k: nat, j: nat)
    requires r.flagStart + 2 * r.slots <= |bits| && k <= j <= r.slots
    requires (j < r.slots ==> Flagged(bits, r, j)) && forall i :: k <= i < j ==> !Flagged(bits, r, i)
    ensures LowestFrom(bits, r, k) == j
    decreases j - k
  {
    if k < j {
      LowestIs(bits, r, k + 1, j);
    }
  }

  function Lowest(bits: seq<bool>, r: Region): nat
    requires r.flagStart + 2 * r.slots <= |bits|
  {
    LowestFrom(bits, r, 0)
  }

  datatype Option<T> = None | Some(value: T)

  // What is read: the slot that counts, if there is one.
  ghost function Stored(bits: seq<bool>, r: Region): Option<seq<bool>>
    requires Fits(r, |bits|)
  {
    DataBefore(r, 0, r.slots);
    var k := Lowest(bits, r);
    if k == r.slots then None
    else
      DataBefore(r, k, r.slots);
      Some(bits[DataAt(r, k)..DataAt(r, k) + r.dataBits])
  }

  method ReadRegion(e: Efuse, r: Region) returns (ack: Ack, data: seq<bool>)
    requires e.Valid() && Fits(r, |e.bits|)
    ensures match Stored(e.bits, r)
            case None => ack == AckNoDataErr
            case Some(d) => ack == AckOk && data == d
  {
    data := [];
    DataBefore(r, 0, r.slots);
    var ok, flag := e.Read(r.flagStart, 2 * r.slots);
    if !ok {
      return AckRwErr, data;
    }
    assert forall i :: 0 <= i < |flag| ==> flag[i] == e.bits[r.flagStart + i];
    if forall i :: 0 <= i < |flag| ==> !flag[i] {
      LowestIs(e.bits, r, 0, r.slots);
      return AckNoDataErr, data;
    }
    var idx := FirstFlag(e, r);
    if idx == r.slots {
      NoFlagAtAll(e.bits, r);
    }
    DataBefore(r, idx, r.slots);
    ok, data := e.Read(r.dataStart + idx * r.dataBits, r.dataBits);
    ack := if ok then AckOk else AckRwErr;
  }

  lemma NoFlagAtAll(bits: seq<bool>, r: Region)
    requires r.flagStart + 2 * r.slots <= |bits| && Lowest(bits, r) == r.slots
    ensures forall i :: r.flagStart <= i < r.flagStart + 2 * r.slots ==> !bits[i]
  {
    forall i | r.flagStart <= i < r.flagStart + 2 * r.slots
      ensures !bits[i]
    {
      assert !Flagged(bits, r, (i - r.flagStart) / 2);
    }
  }

  // Nothing but flags and data of the slots from lo to hi has changed.
  ghost predicate OnlySlots(before: seq<bool>, after: seq<bool>, r: Region, lo: nat, hi: nat)
  {
    && |before| == |after|
    && forall i :: 0 <= i < |before| && before[i] != after[i] ==>
         || r.flagStart + 2 * lo <= i < r.flagStart + 2 * hi
         || DataAt(r, lo) <= i < DataAt(r, hi)
  }

  // A slot has a flag, or takes one.
  predicate TakesFlag(bits: seq<bool>, stuck: seq<bool>, r: Region, k: nat)
    requires |stuck| == |bits| && r.flagStart + 2 * k + 2 <= |bits|
  {
    Flagged(bits, r, k) || !stuck[r.flagStart + 2 * k] || !stuck[r.flagStart + 2 * k + 1]
  }

  // What comes of data that is programmed into a slot.
  function Residue(bits: seq<bool>, stuck: seq<bool>, r: Region, data: seq<bool>, k: nat): (d: seq<bool>)
    requires |stuck| == |bits| && |data| == r.dataBits && DataAt(r, k) + r.dataBits <= |bits|
    ensures |d| == r.dataBits
  {
    Programmed(bits, stuck, DataAt(r, k), data)[DataAt(r, k)..DataAt(r, k) + r.dataBits]
  }

  // A slot takes both its flag and the data.
  predicate Takes(bits: seq<bool>, stuck: seq<bool>, r: Region, data: seq<bool>, k: nat) {
    && |stuck| == |bits| && |data| == r.dataBits && r.flagStart + 2 * k + 2 <= |bits| && DataAt(r, k) + r.dataBits <= |bits|
    && TakesFlag(bits, stuck, r, k) && Residue(bits, stuck, r, data, k) == data
  }

  // The first slot that has a flag or takes one.
  function LowestTaking(bits: seq<bool>, stuck: seq<bool>, r: Region, k: nat): (j: nat)
    requires |stuck| == |bits| && r.flagStart + 2 * r.slots <= |bits| && k <= r.slots
    ensures k <= j <= r.slots && (j < r.slots ==> TakesFlag(bits, stuck, r, j))
    ensures forall i :: k <= i < j ==> !TakesFlag(bits, stuck, r, i)
    decreases r.slots - k
  {
    if k == r.slots || TakesFlag(bits, stuck, r, k) then k else LowestTaking(bits, stuck, r, k + 1)
  }

  // What is read after a write that has failed. The value from before survives if no slot in
  // front of its own takes a flag; otherwise what the first of those has kept of the data has
  // taken its place.
  ghost function AfterFailure(bits: seq<bool>, stuck: seq<bool>, r: Region, data: seq<bool>): Option<seq<bool>>
    requires Fits(r, |bits|) && |stuck| == |bits| && |data| == r.dataBits
  {
    DataBefore(r, 0, r.slots);
    var k := LowestTaking(bits, stuck, r, 0);
    if k < Lowest(bits, r) then
      DataBefore(r, k, r.slots);
      Some(Residue(bits, stuck, r, data, k))
    else Stored(bits, r)
  }

  // A write that succeeds is read back, and makes an earlier slot the one that counts; the
  // slots before that one, those that have counted, and everything else are untouched.
  method WriteRegion(e: Efuse, r: Region, data: seq<bool>) returns (ack: Ack)
    requires e.Valid() && Fits(r, |e.bits|) && |data| == r.dataBits
    modifies e
    ensures e.Valid() && Fits(r, |e.bits|) && r.flagStart + 2 * r.slots <= |e.bits|
    ensures ack == AckOk <==> exists k :: 0 <= k < Lowest(old(e.bits), r) && Takes(old(e.bits), e.stuck, r, data, k)
    ensures ack == AckOk ==>
              && Stored(e.bits, r) == Some(data) && Lowest(e.bits, r) < Lowest(old(e.bits), r)
              && OnlySlots(old(e.bits), e.bits, r, Lowest(e.bits, r), Lowest(old(e.bits), r))
    ensures ack != AckOk ==>
              && ack == AckDiErr && OnlySlots(old(e.bits), e.bits, r, 0, Lowest(old(e.bits), r))
              && Stored(e.bits, r) == AfterFailure(old(e.bits), e.stuck, r, data)
              && (LowestTaking(old(e.bits), e.stuck, r, 0) < Lowest(old(e.bits), r) ==> Stored(e.bits, r) != Some(data))
  {
    hide OnlySlots, DataAt, Flagged, Tried, Stored, AfterFailure, Residue, TakesFlag, Takes;
    DataBefore(r, 0, r.slots);
    ghost var was := e.bits;
    var idx := FirstFlag(e, r);
    ghost var lowest := idx;
    NoSlots(was, r, lowest);
    while idx > 0
      invariant idx <= lowest && e.Valid() && |e.bits| == |was| && Fits(r, |was|) && OnlySlots(was, e.bits, r, idx, lowest)
      invariant forall k :: idx <= k < lowest ==> Tried(was, e.bits, e.stuck, r, data, k)
    {
      ghost var mid := e.bits;
      var done := TrySlot(e, r, data, idx - 1);
      FirstTried(was, mid, e.bits, e.stuck, r, data, idx - 1, lowest);
      WiderSlots(was, mid, e.bits, r, idx - 1, idx, lowest);
      if done {
        NotBelow(was, e.bits, r, idx - 1, lowest);
        WrittenSlot(was, e.bits, r, data, idx - 1, lowest);
        return AckOk;
      }
      forall k | idx <= k < lowest
        ensures Tried(was, e.bits, e.stuck, r, data, k)
      {
        StillTried(was, mid, e.bits, e.stuck, r, data, k, idx - 1);
      }
      idx := idx - 1;
    }
    ack := AckDiErr;
    forall k | 0 <= k < lowest
      ensures !Takes(was, e.stuck, r, data, k)
    {
      TriedMeans(was, e.bits, e.stuck, r, data, k);
    }
    Failed(was, e.bits, e.stuck, r, data);
  }

  // The first slot with a flag; the number of slots if there is none.
  method FirstFlag(e: Efuse, r: Region) returns (idx: nat)
    requires e.Valid() && r.flagStart + 2 * r.slots <= |e.bits|
    ensures idx == Lowest(e.bits, r)
  {
    var ok, flag := e.Read(r.flagStart, 2 * r.slots);
    idx := 0;
    while idx < r.slots && !flag[2 * idx] && !flag[2 * idx + 1]
      invariant idx <= r.slots && forall i :: 0 <= i < idx ==> !Flagged(e.bits, r, i)
    {
      assert flag[2 * idx] == e.bits[r.flagStart + 2 * idx] && flag[2 * idx + 1] == e.bits[r.flagStart + 2 * idx + 1];
      idx := idx + 1;
    }
    assert idx < r.slots ==> Flagged(e.bits, r, idx);
    LowestIs(e.bits, r, 0, idx);
  }

  lemma NoSlots(bits: seq<bool>, r: Region, k: nat)
    ensures OnlySlots(bits, bits, r, k, k)
  {
  }

  lemma WiderSlots(a: seq<bool>, b: seq<bool>, c: seq<bool>, r: Region, lo: nat, mid: nat, hi: nat)
    requires OnlySlots(a, b, r, mid, hi) && OnlySlots(b, c, r, lo, mid) && lo <= mid <= hi
    ensures OnlySlots(a, c, r, lo, hi)
  {
    DataBefore(r, lo, mid);
    DataBefore(r, mid, hi);
    hide DataAt;
  }

  lemma NotBelow(before: seq<bool>, after: seq<bool>, r: Region, lo: nat, hi: nat)
    requires OnlySlots(before, after, r, lo, hi) && lo <= hi <= r.slots && Fits(r, |before|)
    ensures r.flagStart + 2 * r.slots <= |before|
    ensures forall i :: 0 <= i < lo ==> Flagged(after, r, i) == Flagged(before, r, i)
  {
    DataBefore(r, 0, r.slots);
    DataBefore(r, 0, lo);
  }

  function SlotData(bits: seq<bool>, r: Region, k: nat): seq<bool>
    requires DataAt(r, k) + r.dataBits <= |bits|
  {
    bits[DataAt(r, k)..DataAt(r, k) + r.dataBits]
  }

  // A slot that has been tried in vain has taken its flag if it can, and then as much of the
  // data as it can, which is not all.
  ghost predicate Tried(was: seq<bool>, now: seq<bool>, stuck: seq<bool>, r: Region, data: seq<bool>, k: nat) {
    && |was| == |now| == |stuck| && |data| == r.dataBits
    && r.flagStart + 2 * k + 2 <= |was| && DataAt(r, k) + r.dataBits <= |was|
    && (Flagged(now, r, k) <==> TakesFlag(was, stuck, r, k))
    && (Flagged(now, r, k) ==> SlotData(now, r, k) == Residue(was, stuck, r, data, k) != data)
  }

  // A slot outside those that have changed.
  lemma SameSlot(before: seq<bool>, after: seq<bool>, r: Region, lo: nat, hi: nat, k: nat)
    requires OnlySlots(before, after, r, lo, hi) && Fits(r, |before|) && k < r.slots && lo <= hi <= r.slots && !(lo <= k < hi)
    ensures r.flagStart + 2 * k + 2 <= |after| == |before| && DataAt(r, k) + r.dataBits <= |after|
    ensures Flagged(after, r, k) == Flagged(before, r, k) && SlotData(after, r, k) == SlotData(before, r, k)
  {
    DataBefore(r, 0, r.slots);
    DataBefore(r, k, r.slots);
    DataBefore(r, 0, k);
    DataBefore(r, 0, lo);
    if k < lo {
      DataBefore(r, k, lo);
    } else {
      DataBefore(r, hi, k);
    }
    hide DataAt;
  }

  lemma ResidueBit(bits: seq<bool>, stuck: seq<bool>, r: Region, data: seq<bool>, k: nat, i: nat)
    requires |stuck| == |bits| && |data| == r.dataBits && DataAt(r, k) + r.dataBits <= |bits| && i < r.dataBits
    ensures var at := DataAt(r, k) + i;
            SlotData(bits, r, k)[i] == bits[at] && Residue(bits, stuck, r, data, k)[i] == (bits[at] || (data[i] && !stuck[at]))
  {
  }

  lemma SameResidue(before: seq<bool>, after: seq<bool>, stuck: seq<bool>, r: Region, data: seq<bool>, k: nat)
    requires |before| == |after| == |stuck| && |data| == r.dataBits && DataAt(r, k) + r.dataBits <= |before|
    requires SlotData(before, r, k) == SlotData(after, r, k)
    ensures Residue(before, stuck, r, data, k) == Residue(after, stuck, r, data, k)
  {
    var x, y := Residue(before, stuck, r, data, k), Residue(after, stuck, r, data, k);
    hide DataAt, Residue, SlotData;
    forall i | 0 <= i < r.dataBits
      ensures x[i] == y[i]
    {
      ResidueBit(before, stuck, r, data, k, i);
      ResidueBit(after, stuck, r, data, k, i);
    }
  }

  // The slot that has just been tried, seen from the start.
  lemma FirstTried(was: seq<bool>, mid: seq<bool>, now: seq<bool>, stuck: seq<bool>, r: Region, data: seq<bool>, k: nat, lowest: nat)
    requires |was| == |now| == |stuck| && |data| == r.dataBits && Fits(r, |was|) && k < lowest <= r.slots
    requires OnlySlots(was, mid, r, k + 1, lowest) && r.flagStart + 2 * k + 2 <= |was| && DataAt(r, k) + r.dataBits <= |was|
    requires Flagged(now, r, k) <==> TakesFlag(mid, stuck, r, k)
    requires Flagged(now, r, k) ==> SlotData(now, r, k) == Residue(mid, stuck, r, data, k)
    ensures if Flagged(now, r, k) && SlotData(now, r, k) == data then Takes(was, stuck, r, data, k)
            else Tried(was, now, stuck, r, data, k)
  {
    SameSlot(was, mid, r, k + 1, lowest, k);
    SameResidue(was, mid, stuck, r, data, k);
    hide Residue, SlotData, Flagged, OnlySlots, DataAt;
  }

  lemma StillTried(was: seq<bool>, mid: seq<bool>, now: seq<bool>, stuck: seq<bool>, r: Region, data: seq<bool>, k: nat, last: nat)
    requires Tried(was, mid, stuck, r, data, k) && OnlySlots(mid, now, r, last, last + 1) && Fits(r, |was|) && last < k < r.slots
    ensures Tried(was, now, stuck, r, data, k)
  {
    SameSlot(mid, now, r, last, last + 1, k);
    hide Residue, SlotData, Flagged, TakesFlag, OnlySlots, DataAt;
  }

  // The slot that has taken the flag and the data is the one that counts.
  lemma WrittenSlot(was: seq<bool>, now: seq<bool>, r: Region, data: seq<bool>, k: nat, lowest: nat)
    requires |was| == |now| && Fits(r, |now|) && r.flagStart + 2 * r.slots <= |was| && k < lowest == Lowest(was, r)
    requires OnlySlots(was, now, r, k, lowest)
    requires Flagged(now, r, k) && DataAt(r, k) + r.dataBits <= |now| && SlotData(now, r, k) == data
    ensures Lowest(now, r) == k && Stored(now, r) == Some(data)
  {
    NotBelow(was, now, r, k, lowest);
    hide Flagged, OnlySlots, DataAt;
    LowestIs(now, r, 0, k);
  }

  lemma Failed(was: seq<bool>, now: seq<bool>, stuck: seq<bool>, r: Region, data: seq<bool>)
    requires |was| == |now| == |stuck| && |data| == r.dataBits && Fits(r, |was|) && r.flagStart + 2 * r.slots <= |was|
    requires OnlySlots(was, now, r, 0, Lowest(was, r))
    requires forall k :: 0 <= k < Lowest(was, r) ==> Tried(was, now, stuck, r, data, k)
    ensures Stored(now, r) == AfterFailure(was, stuck, r, data)
    ensures LowestTaking(was, stuck, r, 0) < Lowest(was, r) ==> Stored(now, r) != Some(data)
  {
    var k, lowest := LowestTaking(was, stuck, r, 0), Lowest(was, r);
    hide OnlySlots, Residue, Tried, Takes;
    forall i | 0 <= i < lowest
      ensures Flagged(now, r, i) <==> TakesFlag(was, stuck, r, i)
    {
      TriedMeans(was, now, stuck, r, data, i);
    }
    hide Flagged, TakesFlag, DataAt;
    if k < lowest {
      LowestIs(now, r, 0, k);
      TriedMeans(was, now, stuck, r, data, k);
      StoredAt(now, r);
    } else {
      Untouched(was, now, r);
    }
  }

  lemma StoredAt(bits: seq<bool>, r: Region)
    requires Fits(r, |bits|) && r.flagStart + 2 * r.slots <= |bits| && Lowest(bits, r) < r.slots
    ensures DataAt(r, Lowest(bits, r)) + r.dataBits <= |bits| && Stored(bits, r) == Some(SlotData(bits, r, Lowest(bits, r)))
  {
    DataBefore(r, Lowest(bits, r), r.slots);
    hide DataAt;
  }

  // No slot in front of the one that counts has a flag now.
  lemma Untouched(was: seq<bool>, now: seq<bool>, r: Region)
    requires |was| == |now| && Fits(r, |was|) && r.flagStart + 2 * r.slots <= |was| && OnlySlots(was, now, r, 0, Lowest(was, r))
    requires forall i :: 0 <= i < Lowest(was, r) ==> !Flagged(now, r, i)
    ensures Stored(now, r) == Stored(was, r)
  {
    var lowest := Lowest(was, r);
    if lowest < r.slots {
      SameSlot(was, now, r, 0, lowest, lowest);
      hide Flagged, DataAt, OnlySlots, Stored;
      LowestIs(now, r, 0, lowest);
      StoredAt(now, r);
      StoredAt(was, r);
    } else {
      LowestIs(now, r, 0, lowest);
    }
  }

  lemma TriedMeans(was: seq<bool>, now: seq<bool>, stuck: seq<bool>, r: Region, data: seq<bool>, k: nat)
    requires Tried(was, now, stuck, r, data, k)
    ensures |was| == |now| == |stuck| && |data| == r.dataBits
    ensures r.flagStart + 2 * k + 2 <= |was| && DataAt(r, k) + r.dataBits <= |was|
    ensures Flagged(now, r, k) <==> TakesFlag(was, stuck, r, k)
    ensures Flagged(now, r, k) ==> SlotData(now, r, k) == Residue(was, stuck, r, data, k) != data
    ensures !Takes(was, stuck, r, data, k)
  {
    hide Flagged, DataAt, TakesFlag, SlotData, Residue;
  }

  // Programs the flag of one slot and then its data, and looks whether both have taken.
  method TrySlot(e: Efuse, r: Region, data: seq<bool>, k: nat) returns (done: bool)
    requires e.Valid() && Fits(r, |e.bits|) && |data| == r.dataBits && k < r.slots
    modifies e
    ensures e.Valid() && |e.bits| == old(|e.bits|) && r.flagStart + 2 * k + 2 <= |e.bits| && DataAt(r, k) + r.dataBits <= |e.bits|
    ensures OnlySlots(old(e.bits), e.bits, r, k, k + 1)
    ensures Flagged(e.bits, r, k) <==> TakesFlag(old(e.bits), e.stuck, r, k)
    ensures Flagged(e.bits, r, k) ==> SlotData(e.bits, r, k) == Residue(old(e.bits), e.stuck, r, data, k)
    ensures done <==> Flagged(e.bits, r, k) && SlotData(e.bits, r, k) == data
  {
    ghost var was := e.bits;
    FlagWritten(was, e.stuck, r, k);
    var at := r.flagStart + 2 * k;
    var start := r.dataStart + k * r.dataBits;
    assert start == DataAt(r, k);
    hide OnlySlots, TakesFlag, Residue, Programmed, Fits, DataAt;
    var ok := e.Write(at, [true, true]);
    ghost var flagged := e.bits;
    var tmp;
    ok, tmp := e.Read(at, 2);
    assert Flagged(flagged, r, k) <==> tmp[0] || tmp[1];
    hide Flagged;
    if !tmp[0] && !tmp[1] {
      return false;
    }
    DataWritten(flagged, e.stuck, r, data, k);
    SameResidue(was, flagged, e.stuck, r, data, k);
    ok := e.Write(start, data);
    OnlySlotsTwice(was, flagged, e.bits, r, k, k + 1);
    var back;
    ok, back := e.Read(start, r.dataBits);
    done := back == data;
  }

  lemma FlagWritten(bits: seq<bool>, stuck: seq<bool>, r: Region, k: nat)
    requires |stuck| == |bits| && Fits(r, |bits|) && k < r.slots
    ensures r.flagStart + 2 * k + 2 <= |bits| && DataAt(r, k) + r.dataBits <= |bits|
    ensures var now := Programmed(bits, stuck, r.flagStart + 2 * k, [true, true]);
            && OnlySlots(bits, now, r, k, k + 1) && (Flagged(now, r, k) <==> TakesFlag(bits, stuck, r, k))
            && SlotData(now, r, k) == SlotData(bits, r, k)
  {
    DataBefore(r, 0, k);
    DataBefore(r, k, r.slots);
    hide DataAt;
  }

  lemma DataWritten(bits: seq<bool>, stuck: seq<bool>, r: Region, data: seq<bool>, k: nat)
    requires |stuck| == |bits| && Fits(r, |bits|) && k < r.slots && |data| == r.dataBits
    ensures r.flagStart + 2 * k + 2 <= |bits| && DataAt(r, k) + r.dataBits <= |bits|
    ensures var now := Programmed(bits, stuck, DataAt(r, k), data);
            && OnlySlots(bits, now, r, k, k + 1) && Flagged(now, r, k) == Flagged(bits, r, k)
            && SlotData(now, r, k) == Residue(bits, stuck, r, data, k)
  {
    DataBefore(r, 0, k);
    DataBefore(r, k, r.slots);
    hide DataAt;
  }

  lemma OnlySlotsTwice(a: seq<bool>, b: seq<bool>, c: seq<bool>, r: Region, lo: nat, hi: nat)
    requires OnlySlots(a, b, r, lo, hi) && OnlySlots(b, c, r, lo, hi)
    ensures OnlySlots(a, c, r, lo, hi)
  {
    hide DataAt;
  }

  // Two slots with one bit of data each, of which the second holds a one. The bit of the first
  // is stuck, its flags are not.
  const TWO_SLOTS := Region(0, 2, 4, 1)

  function TwoSlots(): (bits: seq<bool>)
    ensures |bits| == 6
  {
    [false, false, true, true, false, true]
  }

  function OneStuck(): (stuck: seq<bool>)
    ensures |stuck| == 6
  {
    [false, false, false, false, true, false]
  }

  lemma TwoSlotsFacts()
    ensures Fits(TWO_SLOTS, 6) && TWO_SLOTS.dataBits == 1 && Lowest(TwoSlots(), TWO_SLOTS) == 1 && Stored(TwoSlots(), TWO_SLOTS) == Some([true])
    ensures !Takes(TwoSlots(), OneStuck(), TWO_SLOTS, [true], 0)
    ensures AfterFailure(TwoSlots(), OneStuck(), TWO_SLOTS, [true]) == Some([false])
  {
    LowestIs(TwoSlots(), TWO_SLOTS, 0, 1);
    ResidueBit(TwoSlots(), OneStuck(), TWO_SLOTS, [true], 0, 0);
    assert LowestTaking(TwoSlots(), OneStuck(), TWO_SLOTS, 0) == 0;
    assert Residue(TwoSlots(), OneStuck(), TWO_SLOTS, [true], 0) == [false];
    assert TwoSlots()[5..6] == [true];
  }

  // A write that fails and takes the value from before with it.
  method OldValueLost() returns (e: Efuse, ack: Ack)
    ensures e.Valid() && |e.bits| == 6 && Fits(TWO_SLOTS, 6) && Stored(TwoSlots(), TWO_SLOTS) == Some([true])
    ensures ack == AckDiErr && Stored(e.bits, TWO_SLOTS) == Some([false])
  {
    TwoSlotsFacts();
    hide TwoSlots, OneStuck, TWO_SLOTS, Stored, AfterFailure, LowestTaking, Lowest, Takes, OnlySlots, Fits, DataAt;
    e := new Efuse(TwoSlots(), OneStuck());
    ack := WriteRegion(e, TWO_SLOTS, [true]);
  }
}

// The hash of the boot code, of which up to two bits may have come out wrong: their numbers
// are stored beside it.
module EfuseBoot {
  import opened Words
  import opened EfuseBits
  import opened EfuseRegion

  const BOOT_FLAG := 332
  const FIRST_EN := 334
  const FIRST_NO := 335
  const SECOND_EN := 343
  const SECOND_NO := 344
  const BOOT_HASH := 352
  const HASH_BITS := 256
  const BOOT_END := 608

  function ToBits(n: nat, count: nat): (r: seq<bool>)
    ensures |r| == count
  {
    if count == 0 then [] else [n % 2 == 1] + ToBits(n / 2, count - 1)
  }

  function FromBits(bits: seq<bool>): (n: nat)
    ensures n < Pow2(|bits|)
  {
    if bits == [] then 0 else (if bits[0] then 1 else 0) + 2 * FromBits(bits[1..])
  }

  lemma {:induction false} BitsBack(n: nat, count: nat)
    requires n < Pow2(count)
    ensures FromBits(ToBits(n, count)) == n
    decreases count
  {
    if count > 0 {
      assert ToBits(n, count)[1..] == ToBits(n / 2, count - 1);
      BitsBack(n / 2, count - 1);
    }
  }

  lemma ByteNumber(bits: seq<bool>)
    requires |bits| == 8
    ensures FromBits(bits) < HASH_BITS && Pow2(8) == HASH_BITS
  {
    assert Pow2(4) == 16;
  }

  // The bits below n in which two hashes differ, in ascending order.
  function Differences(a: seq<bool>, b: seq<bool>, n: nat): (r: seq<nat>)
    requires n <= |a| == |b|
  {
    if n == 0 then [] else Differences(a, b, n - 1) + if a[n - 1] != b[n - 1] then [n - 1] else []
  }

  lemma {:induction false} DifferencesAre(a: seq<bool>, b: seq<bool>, n: nat)
    requires n <= |a| == |b|
    ensures var r := Differences(a, b, n);
            && (forall i :: 0 <= i < |r| ==> r[i] < n && a[r[i]] != b[r[i]])
            && (forall k :: 0 <= k < n && a[k] != b[k] ==> k in r)
            && (forall i, j :: 0 <= i < j < |r| ==> r[i] < r[j])
  {
    if n > 0 {
      DifferencesAre(a, b, n - 1);
    }
  }

  function Flip(h: seq<bool>, k: nat): (r: seq<bool>)
    requires k < |h|
    ensures |r| == |h|
  {
    h[k := !h[k]]
  }

  // What is read: the hash with the noted bits turned over.
  ghost function BootStored(bits: seq<bool>): Option<seq<bool>>
    requires BOOT_END <= |bits|
  {
    var h := bits[BOOT_HASH..BOOT_END];
    if !bits[BOOT_FLAG] && !bits[BOOT_FLAG + 1] then None
    else if !bits[FIRST_EN] then Some(h)
    else
      var h1 := Flip(h, NumberAt(bits, FIRST_NO));
      if !bits[SECOND_EN] then Some(h1) else Some(Flip(h1, NumberAt(bits, SECOND_NO)))
  }

  ghost function NumberAt(bits: seq<bool>, at: nat): (n: nat)
    requires at + 8 <= |bits|
    ensures n < HASH_BITS
  {
    ByteNumber(bits[at..at + 8]);
    FromBits(bits[at..at + 8])
  }

  method ReadBoot(e: Efuse) returns (ack: Ack, data: seq<bool>)
    requires e.Valid() && BOOT_END <= |e.bits|
    ensures match BootStored(e.bits)
            case None => ack == AckNoDataErr
            case Some(h) => ack == AckOk && data == h
  {
    hide FromBits;
    data := [];
    var ok, tmp := e.Read(BOOT_FLAG, 2);
    if !tmp[0] && !tmp[1] {
      return AckNoDataErr, data;
    }
    ok, data := e.Read(BOOT_HASH, HASH_BITS);
    ok, tmp := e.Read(FIRST_EN, 1);
    if tmp[0] {
      ok, tmp := e.Read(FIRST_NO, 8);
      ByteNumber(tmp);
      data := Flip(data, FromBits(tmp));
      ok, tmp := e.Read(SECOND_EN, 1);
      if tmp[0] {
        ok, tmp := e.Read(SECOND_NO, 8);
        ByteNumber(tmp);
        data := Flip(data, FromBits(tmp));
      }
    }
    ack := AckOk;
  }

  // Looks for up to two bits in which the hashes differ; byte by byte and bit by bit.
  method HashCmp(data: seq<bool>, buf: seq<bool>) returns (ok: bool, errCnt: nat, first: nat, second: nat)
    requires |data| == |buf| == HASH_BITS
    ensures var d := Differences(data, buf, HASH_BITS);
            && (ok <==> |d| <= 2)
            && (ok ==> errCnt == |d| && (1 <= errCnt ==> first == d[0]) && (errCnt == 2 ==> second == d[1]))
    ensures first < HASH_BITS && second < HASH_BITS
  {
    ok, errCnt, first, second := true, 0, 0, 0;
    NoDifferences(data, buf);
    hide Differences, Found;
    var byteCnt := 0;
    while byteCnt < 32
      invariant byteCnt <= 32 && errCnt <= 2 && first < HASH_BITS && second < HASH_BITS
      invariant Found(Differences(data, buf, 8 * byteCnt), errCnt, first, second)
    {
      var bitCnt := 0;
      while bitCnt < 8
        invariant bitCnt <= 8 && errCnt <= 2 && first < HASH_BITS && second < HASH_BITS
        invariant Found(Differences(data, buf, 8 * byteCnt + bitCnt), errCnt, first, second)
      {
        var k := 8 * byteCnt + bitCnt;
        NextDifference(data, buf, k);
        FoundMore(Differences(data, buf, k), k, errCnt, first, second);
        if data[k] != buf[k] {
          if errCnt == 0 {
            first, errCnt := k, 1;
          } else if errCnt == 1 {
            second, errCnt := k, 2;
          } else {
            MoreDifferences(data, buf, k + 1, HASH_BITS);
            return false, errCnt, first, second;
          }
        }
        bitCnt := bitCnt + 1;
      }
      byteCnt := byteCnt + 1;
    }
    FoundMore(Differences(data, buf, HASH_BITS), 0, errCnt, first, second);
  }

  lemma FoundMore(d: seq<nat>, k: nat, errCnt: nat, first: nat, second: nat)
    requires Found(d, errCnt, first, second)
    ensures |d| == errCnt && (1 <= errCnt ==> first == d[0]) && (errCnt == 2 ==> second == d[1])
    ensures d + [] == d
    ensures errCnt == 0 ==> Found(d + [k], 1, k, second)
    ensures errCnt == 1 ==> Found(d + [k], 2, first, k)
  {
  }

  lemma NoDifferences(a: seq<bool>, b: seq<bool>)
    requires |a| == |b|
    ensures Differences(a, b, 0) == []
  {
  }

  lemma NextDifference(a: seq<bool>, b: seq<bool>, k: nat)
    requires k < |a| == |b|
    ensures Differences(a, b, k + 1) == Differences(a, b, k) + if a[k] != b[k] then [k] else []
  {
  }

  ghost predicate Found(d: seq<nat>, errCnt: nat, first: nat, second: nat) {
    errCnt == |d| && (1 <= errCnt ==> first == d[0]) && (errCnt == 2 ==> second == d[1])
  }

  lemma {:induction false} MoreDifferences(a: seq<bool>, b: seq<bool>, m: nat, n: nat)
    requires m <= n <= |a| == |b|
    ensures |Differences(a, b, m)| <= |Differences(a, b, n)|
    decreases n
  {
    if m < n {
      MoreDifferences(a, b, m, n - 1);
    }
  }

  // Nothing outside a range has changed.
  ghost predicate Elsewhere(before: seq<bool>, after: seq<bool>, lo: nat, hi: nat) {
    |after| == |before| && forall i :: 0 <= i < |before| && !(lo <= i < hi) ==> after[i] == before[i]
  }

  lemma SameSlice(before: seq<bool>, after: seq<bool>, lo: nat, hi: nat, i: nat, j: nat)
    requires Elsewhere(before, after, lo, hi) && i <= j <= |before| && (j <= lo || hi <= i)
    ensures after[i..j] == before[i..j]
  {
  }

  // Programs some bits and looks whether they have taken.
  method WriteChecked(e: Efuse, at: nat, data: seq<bool>) returns (same: bool)
    requires e.Valid() && at + |data| <= |e.bits|
    modifies e
    ensures e.Valid() && e.bits == Programmed(old(e.bits), e.stuck, at, data)
    ensures same <==> e.bits[at..at + |data|] == data
    ensures Elsewhere(old(e.bits), e.bits, at, at + |data|)
  {
    var ok := e.Write(at, data);
    var back;
    ok, back := e.Read(at, |data|);
    same := back == data;
  }

  // The wrong bits as they are noted.
  ghost predicate Noted(bits: seq<bool>, data: seq<bool>)
    requires BOOT_END <= |bits| && |data| == HASH_BITS
  {
    var d := Differences(data, bits[BOOT_HASH..BOOT_END], HASH_BITS);
    && (bits[BOOT_FLAG] || bits[BOOT_FLAG + 1])
    && |d| <= 2
    && (1 <= |d| ==> bits[FIRST_EN] && NumberAt(bits, FIRST_NO) == d[0])
    && (|d| == 2 ==> bits[SECOND_EN] && NumberAt(bits, SECOND_NO) == d[1])
  }

  // What the correction bits say, beyond the number of wrong bits that are noted, does no harm.
  ghost predicate Harmless(bits: seq<bool>, wrong: nat)
    requires BOOT_END <= |bits|
  {
    && (wrong == 0 ==> !bits[FIRST_EN] || (bits[SECOND_EN] && NumberAt(bits, FIRST_NO) == NumberAt(bits, SECOND_NO)))
    && (wrong == 1 ==> !bits[SECOND_EN])
  }

  // The bits of the hash that will come out wrong.
  ghost function WrongBits(bits: seq<bool>, stuck: seq<bool>, data: seq<bool>): seq<nat>
    requires BOOT_END <= |bits| == |stuck| && |data| == HASH_BITS
  {
    Differences(data, Programmed(bits, stuck, BOOT_HASH, data)[BOOT_HASH..BOOT_END], HASH_BITS)
  }

  // A hash whose wrong bits are noted is read back if and only if the other correction bits
  // do no harm.
  lemma NotedIsRead(bits: seq<bool>, data: seq<bool>)
    requires BOOT_END <= |bits| && |data| == HASH_BITS && Noted(bits, data)
    ensures BootStored(bits) == Some(data) <==> Harmless(bits, |Differences(data, bits[BOOT_HASH..BOOT_END], HASH_BITS)|)
  {
    var h := bits[BOOT_HASH..BOOT_END];
    var d := Differences(data, h, HASH_BITS);
    DifferencesAre(data, h, HASH_BITS);
    var m, n := NumberAt(bits, FIRST_NO), NumberAt(bits, SECOND_NO);
    hide NumberAt, Differences;
    if |d| == 0 {
      assert h == data;
      if bits[FIRST_EN] {
        assert Flip(h, m)[m] != data[m];
        if bits[SECOND_EN] {
          assert m != n ==> Flip(Flip(h, m), n)[m] != data[m];
          assert m == n ==> Flip(Flip(h, m), n) == data;
        }
      }
    } else if |d| == 1 {
      assert d == [m];
      assert Flip(h, m) == data;
      assert Flip(data, n)[n] != data[n];
    } else {
      assert d == [m, n];
      assert m != n;
      assert Flip(Flip(h, m), n) == data;
    }
  }

  // Programs the hash, and notes which bits have come out wrong. It fails if they are more
  // than two, or if the notes themselves come out wrong.
  method WriteBoot(e: Efuse, data: seq<bool>) returns (ack: Ack)
    requires e.Valid() && BOOT_END <= |e.bits| && |data| == HASH_BITS
    modifies e
    ensures e.Valid() && Elsewhere(old(e.bits), e.bits, BOOT_FLAG, BOOT_END)
    ensures ack == AckOk ==> Noted(e.bits, data)
    ensures ack == AckOk ==>
              (BootStored(e.bits) == Some(data) <==> Harmless(old(e.bits), |WrongBits(old(e.bits), e.stuck, data)|))
    ensures ack == AckOk && !old(e.bits[FIRST_EN]) && !old(e.bits[SECOND_EN]) ==> BootStored(e.bits) == Some(data)
    ensures ack != AckOk ==> ack == AckDiErr
  {
    hide Differences, NumberAt, BootStored, FromBits, Programmed, Harmless;
    ghost var was := e.bits;
    FlagsSet(was, e.stuck);
    var ok := e.Write(BOOT_FLAG, [true, true]);
    ghost var flagged := e.bits;
    var tmp;
    ok, tmp := e.Read(BOOT_FLAG, 2);
    if !tmp[0] && !tmp[1] {
      return AckDiErr;
    }
    ok := WriteChecked(e, BOOT_HASH, data);
    SameHash(was, flagged, e.stuck, data);
    var buf;
    ok, buf := e.Read(BOOT_HASH, HASH_BITS);
    var same, errCnt, first, second := HashCmp(data, buf);
    if !same {
      return AckDiErr;
    }
    ghost var hashed := e.bits;
    if errCnt > 0 {
      ok := NoteBit(e, FIRST_EN, FIRST_NO, first);
      if !ok {
        return AckDiErr;
      }
      SameSlice(hashed, e.bits, FIRST_EN, SECOND_EN, BOOT_HASH, BOOT_END);
      if errCnt == 2 {
        ghost var noted := e.bits;
        ok := NoteBit(e, SECOND_EN, SECOND_NO, second);
        if !ok {
          return AckDiErr;
        }
        SameSlice(noted, e.bits, SECOND_EN, BOOT_HASH, BOOT_HASH, BOOT_END);
        SameNumber(noted, e.bits, SECOND_EN, BOOT_HASH, FIRST_NO);
      }
    }
    ack := AckOk;
    NotedIsRead(e.bits, data);
    SameHarm(was, e.bits, errCnt);
  }

  lemma FlagsSet(bits: seq<bool>, stuck: seq<bool>)
    requires BOOT_END <= |bits| == |stuck|
    ensures Elsewhere(bits, Programmed(bits, stuck, BOOT_FLAG, [true, true]), BOOT_FLAG, FIRST_EN)
  {
  }

  lemma SameHash(before: seq<bool>, after: seq<bool>, stuck: seq<bool>, data: seq<bool>)
    requires BOOT_END <= |before| == |stuck| && |data| == HASH_BITS && Elsewhere(before, after, BOOT_FLAG, FIRST_EN)
    ensures Programmed(before, stuck, BOOT_HASH, data)[BOOT_HASH..BOOT_END] == Programmed(after, stuck, BOOT_HASH, data)[BOOT_HASH..BOOT_END]
  {
  }

  // The correction bits that are not written.
  lemma SameHarm(before: seq<bool>, after: seq<bool>, wrong: nat)
    requires BOOT_END <= |before| == |after|
    requires wrong == 0 ==> forall i :: FIRST_EN <= i < BOOT_HASH ==> after[i] == before[i]
    requires wrong == 1 ==> after[SECOND_EN] == before[SECOND_EN]
    ensures Harmless(after, wrong) == Harmless(before, wrong)
    ensures !before[FIRST_EN] && !before[SECOND_EN] ==> Harmless(before, wrong)
  {
    if wrong == 0 {
      assert after[FIRST_NO..FIRST_NO + 8] == before[FIRST_NO..FIRST_NO + 8];
      assert after[SECOND_NO..SECOND_NO + 8] == before[SECOND_NO..SECOND_NO + 8];
    }
  }

  lemma SameNumber(before: seq<bool>, after: seq<bool>, lo: nat, hi: nat, at: nat)
    requires Elsewhere(before, after, lo, hi) && at + 8 <= |before| && (at + 8 <= lo || hi <= at)
    ensures NumberAt(after, at) == NumberAt(before, at)
  {
    SameSlice(before, after, lo, hi, at, at + 8);
  }

  // Sets an enable bit, and the number of a wrong bit behind it.
  method NoteBit(e: Efuse, en: nat, no: nat, k: nat) returns (ok: bool)
    requires e.Valid() && no == en + 1 && no + 8 <= |e.bits| && k < HASH_BITS
    modifies e
    ensures e.Valid() && Elsewhere(old(e.bits), e.bits, en, no + 8)
    ensures ok ==> e.bits[en] && NumberAt(e.bits, no) == k
  {
    hide FromBits, ToBits;
    ok := WriteChecked(e, en, [true]);
    if !ok {
      return;
    }
    assert e.bits[en..en + 1][0];
    ok := WriteChecked(e, no, ToBits(k, 8));
    if ok {
      ByteNumber(ToBits(k, 8));
      BitsBack(k, 8);
    }
  }
}
