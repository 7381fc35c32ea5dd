// Suspending and resuming devices: each device that suspends moves to a second list, and
// moves back from there when it resumes; the same happens again with interrupts off.
// What drivers, the platform and tests answer is an input, see PmCycle.
module Pm {
  import opened IntrusiveList
  import opened PmCycle
  import opened Words

  // Which callbacks the driver of a device has.
  datatype Driver = Driver(suspend: bool, resume: bool, suspendNoirq: bool, resumeNoirq: bool) {
    // All that is asked of a driver.
    predicate Sound() {
      suspend == resume && suspendNoirq == resumeNoirq && (suspend || suspendNoirq)
    }
  }

  class Device {
    const normal: ListHead
    const noirq: ListHead
    const driver: Driver
    var ref: nat

    constructor (number: nat, driver: Driver)
      ensures ref == 0 && fresh(normal) && fresh(noirq) && normal != noirq && normal.owner == noirq.owner == number
      ensures this.driver == driver && ListEmpty(normal) && ListEmpty(noirq)
    {
      var a := new ListHead(number);
      var b := new ListHead(number);
      normal, noirq, ref, this.driver := a, b, 0, driver;
    }
  }

  predicate NoDuplicates(s: seq<nat>) {
    forall i, j :: 0 <= i < j < |s| ==> s[i] != s[j]
  }

  class PowerManager {
    const devices: seq<Device>
    const dpmList: ListHead
    const dpmSuspended: ListHead
    const dpmLateEarly: ListHead
    const dpmNoirq: ListHead

    // The devices on each list, and all callbacks that have been called.
    ghost var normal: seq<nat>
    ghost var suspended: seq<nat>
    ghost var late: seq<nat>
    ghost var noirq: seq<nat>
    ghost var log: seq<Event>

    constructor (devices: seq<Device>)
      requires forall i, j :: 0 <= i < j < |devices| ==>
                 devices[i] != devices[j] && devices[i].normal != devices[j].normal && devices[i].noirq != devices[j].noirq
      requires forall i, j :: 0 <= i < |devices| && 0 <= j < |devices| ==> devices[i].normal != devices[j].noirq
      requires forall i :: 0 <= i < |devices| ==> devices[i].normal.owner == devices[i].noirq.owner == i
      ensures Valid() && Idle() && normal == [] && late == [] && log == [] && this.devices == devices
    {
      var a := new ListHead(|devices|);
      var b := new ListHead(|devices|);
      var c := new ListHead(|devices|);
      var d := new ListHead(|devices|);
      dpmList, dpmSuspended, dpmLateEarly, dpmNoirq := a, b, c, d;
      this.devices := devices;
      normal, suspended, late, noirq, log := [], [], [], [], [];
    }

    function Node(early: bool, dev: nat): ListHead
      requires dev < |devices|
    {
      if early then devices[dev].normal else devices[dev].noirq
    }

    // The nodes of devices, in the list for the given phase.
    ghost function Nodes(early: bool, devs: seq<nat>): (r: seq<ListHead>)
      requires forall i :: 0 <= i < |devs| ==> devs[i] < |devices|
      ensures |r| == |devs|
    {
      seq(|devs|, i requires 0 <= i < |devs| => Node(early, devs[i]))
    }

    ghost predicate Known(devs: seq<nat>) {
      forall i :: 0 <= i < |devs| ==> devs[i] < |devices|
    }

    ghost function Around(head: ListHead, early: bool, devs: seq<nat>): (r: seq<ListHead>)
      requires Known(devs)
    {
      [head] + Nodes(early, devs)
    }

    // No two list heads or nodes are the same.
    ghost predicate Apart() {
      && dpmList != dpmSuspended && dpmLateEarly != dpmNoirq
      && {dpmList, dpmSuspended} !! {dpmLateEarly, dpmNoirq}
      && (forall i, j :: 0 <= i < j < |devices| ==>
            devices[i] != devices[j] && devices[i].normal != devices[j].normal && devices[i].noirq != devices[j].noirq)
      && (forall i, j :: 0 <= i < |devices| && 0 <= j < |devices| ==> devices[i].normal != devices[j].noirq)
      && (forall i :: 0 <= i < |devices| ==>
            && devices[i].normal !in {dpmList, dpmSuspended, dpmLateEarly, dpmNoirq}
            && devices[i].noirq !in {dpmList, dpmSuspended, dpmLateEarly, dpmNoirq}
            && devices[i].normal.owner == devices[i].noirq.owner == i)
    }

    // Everything that links lists.
    ghost function Links(): set<ListHead> {
      {dpmList, dpmSuspended, dpmLateEarly, dpmNoirq}
      + (set i | 0 <= i < |devices| :: devices[i].normal) + (set i | 0 <= i < |devices| :: devices[i].noirq)
    }

    ghost predicate Valid()
      reads this`normal, this`suspended, this`late, this`noirq, Links()
    {
      && Apart() && Known(normal) && Known(suspended) && Known(late) && Known(noirq)
      && NoDuplicates(normal + suspended) && NoDuplicates(late + noirq)
      && Ring(Around(dpmList, true, normal)) && Ring(Around(dpmSuspended, true, suspended))
      && Ring(Around(dpmLateEarly, false, late)) && Ring(Around(dpmNoirq, false, noirq))
    }

    // No device is in the middle of being suspended or resumed.
    ghost predicate Idle()
      reads this
    {
      suspended == [] && noirq == []
    }

    // Lists that share no device, or are of different phases, share no node.
    lemma Separate(early: bool, early': bool, head: ListHead, head': ListHead, devs: seq<nat>, devs': seq<nat>)
      requires Apart() && Known(devs) && Known(devs') && head != head' && IsHead(head) && IsHead(head')
      requires early == early' ==> NoDuplicates(devs + devs')
      ensures forall x :: x in Around(head, early, devs) ==> x !in Around(head', early', devs')
    {
      if early == early' {
        ApartLists(devs, devs');
      }
    }

    ghost predicate IsHead(head: ListHead) {
      head == dpmList || head == dpmSuspended || head == dpmLateEarly || head == dpmNoirq
    }

    // Moves the first device of one list to the front of another.
    method Move(dev: nat, early: bool, from: ListHead, to: ListHead, ghost a: seq<nat>, ghost b: seq<nat>)
      requires Apart() && Known(a) && Known(b) && NoDuplicates(a + b) && a != [] && a[0] == dev
      requires from != to && IsHead(from) && IsHead(to)
      requires Ring(Around(from, early, a)) && Ring(Around(to, early, b))
      modifies Around(from, early, a), Around(to, early, b)
      ensures Known(a[1..]) && Known([dev] + b)
      ensures Ring(Around(from, early, a[1..])) && Ring(Around(to, early, [dev] + b))
    {
      hide Ring;
      ghost var x, y := Around(from, early, a), Around(to, early, b);
      Separate(early, early, from, to, a, b);
      assert Around(from, early, a[1..]) == x[..1] + x[2..];
      assert Around(to, early, [dev] + b) == [to, x[1]] + y[1..];
      hide Apart;
      ListMove(Node(early, dev), to, x, 1, y);
    }

    method ToSuspended(dev: nat)
      requires Valid() && normal != [] && normal[0] == dev
      modifies this`normal, this`suspended, Links()
      ensures Valid() && normal == old(normal[1..]) && suspended == [dev] + old(suspended)
    {
      hide Ring, Apart;
      SeparateAll();
      Rotate(normal, suspended);
      InLinks(true, dpmList, normal);
      InLinks(true, dpmSuspended, suspended);
      Move(dev, true, dpmList, dpmSuspended, normal, suspended);
      RingKept(Around(dpmLateEarly, false, late));
      RingKept(Around(dpmNoirq, false, noirq));
      normal, suspended := normal[1..], [dev] + suspended;
    }

    method ToNormal(dev: nat)
      requires Valid() && suspended != [] && suspended[0] == dev
      modifies this`normal, this`suspended, Links()
      ensures Valid() && suspended == old(suspended[1..]) && normal == [dev] + old(normal)
    {
      hide Ring, Apart;
      SeparateAll();
      Rotate(suspended, normal);
      Swapped(normal, suspended);
      InLinks(true, dpmList, normal);
      InLinks(true, dpmSuspended, suspended);
      Heads();
      Move(dev, true, dpmSuspended, dpmList, suspended, normal);
      RingKept(Around(dpmLateEarly, false, late));
      RingKept(Around(dpmNoirq, false, noirq));
      suspended, normal := suspended[1..], [dev] + normal;
    }

    method ToNoirq(dev: nat)
      requires Valid() && late != [] && late[0] == dev
      modifies this`late, this`noirq, Links()
      ensures Valid() && late == old(late[1..]) && noirq == [dev] + old(noirq)
    {
      hide Ring, Apart;
      SeparateAll();
      Rotate(late, noirq);
      InLinks(false, dpmLateEarly, late);
      InLinks(false, dpmNoirq, noirq);
      Heads();
      Move(dev, false, dpmLateEarly, dpmNoirq, late, noirq);
      RingKept(Around(dpmList, true, normal));
      RingKept(Around(dpmSuspended, true, suspended));
      late, noirq := late[1..], [dev] + noirq;
    }

    method ToLate(dev: nat)
      requires Valid() && noirq != [] && noirq[0] == dev
      modifies this`late, this`noirq, Links()
      ensures Valid() && noirq == old(noirq[1..]) && late == [dev] + old(late)
    {
      hide Ring, Apart;
      SeparateAll();
      Rotate(noirq, late);
      Swapped(late, noirq);
      InLinks(false, dpmLateEarly, late);
      InLinks(false, dpmNoirq, noirq);
      Heads();
      Move(dev, false, dpmNoirq, dpmLateEarly, noirq, late);
      RingKept(Around(dpmList, true, normal));
      RingKept(Around(dpmSuspended, true, suspended));
      noirq, late := noirq[1..], [dev] + late;
    }

    lemma Heads()
      requires Apart()
      ensures dpmList != dpmSuspended && dpmLateEarly != dpmNoirq
    {
    }

    lemma InLinks(early: bool, head: ListHead, devs: seq<nat>)
      requires Known(devs) && IsHead(head)
      ensures forall x :: x in Around(head, early, devs) ==> x in Links()
    {
    }

    // The lists of one phase share nothing with those of the other.
    lemma SeparateAll()
      requires Valid()
      ensures Apart() && dpmList != dpmSuspended
      ensures Others(Around(dpmLateEarly, false, late), Around(dpmList, true, normal), Around(dpmSuspended, true, suspended))
      ensures Others(Around(dpmNoirq, false, noirq), Around(dpmList, true, normal), Around(dpmSuspended, true, suspended))
      ensures Others(Around(dpmList, true, normal), Around(dpmLateEarly, false, late), Around(dpmNoirq, false, noirq))
      ensures Others(Around(dpmSuspended, true, suspended), Around(dpmLateEarly, false, late), Around(dpmNoirq, false, noirq))
    {
      hide Ring;
      Separate(true, false, dpmList, dpmLateEarly, normal, late);
      Separate(true, false, dpmList, dpmNoirq, normal, noirq);
      Separate(true, false, dpmSuspended, dpmLateEarly, suspended, late);
      Separate(true, false, dpmSuspended, dpmNoirq, suspended, noirq);
    }

    // Puts a device in front of those that are listed.
    method Add(dev: nat, early: bool, head: ListHead, ghost devs: seq<nat>)
      requires Apart() && Known(devs) && dev < |devices| && dev !in devs && IsHead(head) && Ring(Around(head, early, devs))
      modifies Node(early, dev), Around(head, early, devs)
      ensures Known([dev] + devs) && Ring(Around(head, early, [dev] + devs))
    {
      ghost var s := Around(head, early, devs);
      assert Node(early, dev) !in s;
      assert Around(head, early, [dev] + devs) == [head, Node(early, dev)] + s[1..];
      hide Ring, Apart;
      ListAdd(Node(early, dev), head, s);
    }

    // Whether a device is on a list.
    method Listed(dev: nat, early: bool, head: ListHead, ghost devs: seq<nat>) returns (found: bool)
      requires Apart() && Known(devs) && IsHead(head) && Ring(Around(head, early, devs))
      ensures found <==> dev in devs
    {
      ghost var s, k := Around(head, early, devs), 1;
      var hd := head.next;
      while hd != head
        invariant 1 <= k <= |s| && hd == (if k < |s| then s[k] else head) && dev !in devs[..k - 1]
        decreases |s| - k
      {
        assert s[k] == Node(early, devs[k - 1]);
        if hd.owner == dev {
          return true;
        }
        assert devs[..k] == devs[..k - 1] + [devs[k - 1]];
        hd, k := hd.next, k + 1;
      }
      assert devs[..k - 1] == devs;
      return false;
    }

    // The links of a node that is on no list: none yet, or to the node itself.
    ghost predicate Unlinked(node: ListHead)
      reads node
    {
      (node.next == null && node.prev == null) || ListEmpty(node)
    }

    lemma Linked(early: bool, dev: nat, head: ListHead, devs: seq<nat>)
      requires Apart() && Known(devs) && IsHead(head) && Ring(Around(head, early, devs)) && dev in devs
      ensures dev < |devices| && !Unlinked(Node(early, dev))
    {
      var s := Around(head, early, devs);
      var k :| 0 <= k < |devs| && devs[k] == dev;
      assert s[k + 1] == Node(early, dev);
      assert s[k + 1].next == if k + 2 < |s| then s[k + 2] else s[0];
    }

    // Registers a device, once only, in front of the others. A device whose driver has just one
    // of the callbacks for when interrupts are off is refused, but stays on the other list if
    // the rest of its driver is sound.
    method Register(dev: nat) returns (ok: bool)
      requires Valid() && dev < |devices|
      requires dev !in normal + suspended ==> Unlinked(devices[dev].normal)
      requires dev !in late + noirq ==> Unlinked(devices[dev].noirq)
      modifies this`normal, this`late, Links()
      ensures Valid()
      ensures ok <==> devices[dev].driver.Sound() && dev !in old(normal) + suspended && dev !in old(late) + noirq
      ensures late == (if ok && devices[dev].driver.suspendNoirq then [dev] else []) + old(late)
      ensures normal == (if dev !in old(normal) + suspended && dev !in old(late) + noirq
                           && devices[dev].driver.suspend && devices[dev].driver.resume then [dev] else []) + old(normal)
    {
      hide Ring, Apart;
      KnowHeads();
      var driver := devices[dev].driver;
      if (devices[dev].normal.next != null || devices[dev].normal.prev != null) && !ListEmpty(devices[dev].normal) {
        return false;
      }
      Unlisted(dev, true);
      if (devices[dev].noirq.next != null || devices[dev].noirq.prev != null) && !ListEmpty(devices[dev].noirq) {
        return false;
      }
      Unlisted(dev, false);
      if (!driver.suspendNoirq || !driver.resumeNoirq) && (!driver.suspend || !driver.resume) {
        return false;
      }
      if driver.suspend || driver.resume {
        if !driver.suspend || !driver.resume {
          return false;
        }
        var found := Listed(dev, true, dpmList, normal);
        if !found {
          AddNormal(dev);
        }
      }
      if driver.suspendNoirq || driver.resumeNoirq {
        if !driver.suspendNoirq || !driver.resumeNoirq {
          return false;
        }
        var found := Listed(dev, false, dpmLateEarly, late);
        if found {
          return false;
        }
        AddLate(dev);
      }
      return true;
    }

    lemma Unlisted(dev: nat, early: bool)
      requires Valid() && dev < |devices| && Unlinked(Node(early, dev))
      ensures early ==> dev !in normal + suspended
      ensures !early ==> dev !in late + noirq
    {
      KnowHeads();
      hide Ring, Apart;
      if early && dev in normal { Linked(true, dev, dpmList, normal); }
      if early && dev in suspended { Linked(true, dev, dpmSuspended, suspended); }
      if !early && dev in late { Linked(false, dev, dpmLateEarly, late); }
      if !early && dev in noirq { Linked(false, dev, dpmNoirq, noirq); }
    }

    method AddNormal(dev: nat)
      requires Valid() && dev < |devices| && dev !in normal + suspended
      modifies this`normal, Links()
      ensures Valid() && normal == [dev] + old(normal)
    {
      hide Ring, Apart;
      SeparateAll();
      KnowHeads();
      InLinks(true, dpmList, normal);
      Fresh(dev, true);
      Extended(dev, normal, suspended);
      NextTo();
      Add(dev, true, dpmList, normal);
      RingKept(Around(dpmSuspended, true, suspended));
      RingKept(Around(dpmLateEarly, false, late));
      RingKept(Around(dpmNoirq, false, noirq));
      normal := [dev] + normal;
    }

    method AddLate(dev: nat)
      requires Valid() && dev < |devices| && dev !in late + noirq
      modifies this`late, Links()
      ensures Valid() && late == [dev] + old(late)
    {
      hide Ring, Apart;
      SeparateAll();
      KnowHeads();
      InLinks(false, dpmLateEarly, late);
      Fresh(dev, false);
      Extended(dev, late, noirq);
      NextTo();
      Add(dev, false, dpmLateEarly, late);
      RingKept(Around(dpmList, true, normal));
      RingKept(Around(dpmSuspended, true, suspended));
      RingKept(Around(dpmNoirq, false, noirq));
      late := [dev] + late;
    }

    lemma NextTo()
      requires Valid()
      ensures Others(Around(dpmSuspended, true, suspended), Around(dpmList, true, normal), [])
      ensures Others(Around(dpmNoirq, false, noirq), Around(dpmLateEarly, false, late), [])
    {
      KnowHeads();
      Heads();
      hide Ring, Apart;
      Swapped(normal, suspended);
      Swapped(late, noirq);
      Separate(true, true, dpmSuspended, dpmList, suspended, normal);
      Separate(false, false, dpmNoirq, dpmLateEarly, noirq, late);
    }

    // A device that is on neither list of a phase has its node on no list at all.
    lemma Fresh(dev: nat, early: bool)
      requires Valid() && dev < |devices|
      requires if early then dev !in normal + suspended else dev !in late + noirq
      ensures Node(early, dev) in Links()
      ensures Node(early, dev) !in Around(dpmList, true, normal) && Node(early, dev) !in Around(dpmSuspended, true, suspended)
      ensures Node(early, dev) !in Around(dpmLateEarly, false, late) && Node(early, dev) !in Around(dpmNoirq, false, noirq)
    {
      hide Ring;
    }

    // The list is empty just when its head points to itself; otherwise the head points to the
    // first device.
    lemma FirstOf(head: ListHead, early: bool, devs: seq<nat>)
      requires Apart() && Known(devs) && IsHead(head) && Ring(Around(head, early, devs))
      ensures First(head, devs)
    {
      var s := Around(head, early, devs);
      if devs != [] {
        assert s[0].next == s[1];
      }
    }

    // The reference counts are what they were.
    twostate predicate SameRefs()
      reads devices`ref
    {
      forall i :: 0 <= i < |devices| ==> devices[i].ref == old(devices[i].ref)
    }

    ghost method Note(event: Event)
      modifies this`log
      ensures log == old(log) + [event] && (old(Valid()) ==> Valid())
    {
      hide Ring, Apart, Known, NoDuplicates;
      log := log + [event];
    }

    method Get(dev: Device)
      modifies dev`ref
      ensures dev.ref == old(dev.ref) + 1 && (old(Valid()) ==> Valid())
    {
      hide Ring, Apart, Known, NoDuplicates;
      dev.ref := dev.ref + 1;
    }

    method Put(dev: Device)
      requires 0 < dev.ref
      modifies dev`ref
      ensures dev.ref == old(dev.ref) - 1 && (old(Valid()) ==> Valid())
    {
      hide Ring, Apart, Known, NoDuplicates;
      dev.ref := dev.ref - 1;
    }

    // A list is empty just when its head points to itself, and otherwise its head points to
    // its first device.
    lemma Firsts()
      requires Valid()
      ensures First(dpmList, normal) && First(dpmSuspended, suspended) && First(dpmLateEarly, late) && First(dpmNoirq, noirq)
    {
      KnowHeads();
      hide Ring, Apart;
      FirstOf(dpmList, true, normal);
      FirstOf(dpmSuspended, true, suspended);
      FirstOf(dpmLateEarly, false, late);
      FirstOf(dpmNoirq, false, noirq);
    }

    lemma KnowHeads()
      requires Valid()
      ensures Apart() && IsHead(dpmList) && IsHead(dpmSuspended) && IsHead(dpmLateEarly) && IsHead(dpmNoirq)
    {
      hide Ring;
    }

    ghost predicate First(head: ListHead, devs: seq<nat>)
      reads head
    {
      head.next != null && (devs == [] <==> ListEmpty(head)) && (devs != [] ==> head.next.owner == devs[0] < |devices|)
    }

    // Suspends the first device, unless it refuses.
    method SuspendFirst(a: Answers) returns (error: bool)
      requires Valid() && !ListEmpty(dpmList)
      modifies this`normal, this`suspended, Links(), devices`ref
      ensures Valid() && SameRefs() && old(normal) != [] && (error <==> old(normal)[0] in a.refusing)
      ensures error ==> normal == old(normal) && suspended == old(suspended)
      ensures !error ==> normal == old(normal)[1..] && suspended == [old(normal)[0]] + old(suspended)
    {
      Firsts();
      hide Valid, Links;
      var dev := dpmList.next.owner;
      Get(devices[dev]);
      error := dev in a.refusing;
      if error {
        Put(devices[dev]);
        return;
      }
      ToSuspended(dev);
      Put(devices[dev]);
    }

    // Suspends one device after the other, until the first one that refuses.
    method DpmSuspend(a: Answers) returns (error: bool)
      requires Valid()
      modifies this`normal, this`suspended, this`log, Links(), devices`ref
      ensures Valid() && SameRefs() && (error <==> FirstIn(old(normal), a.refusing) < |old(normal)|)
      ensures normal == old(normal)[FirstIn(old(normal), a.refusing)..]
      ensures suspended == Reverse(old(normal)[..FirstIn(old(normal), a.refusing)]) + old(suspended)
      ensures log == old(log) + SuspendCalls(old(normal), a)
    {
      hide Valid, Calls, Reverse, FirstIn;
      error := false;
      ghost var all, n := normal, 0;
      Nothing(Suspends(Normal), all, suspended);
      while !ListEmpty(dpmList)
        invariant Valid() && SameRefs() && !error && n <= |all|
        invariant forall i :: 0 <= i < n ==> all[i] !in a.refusing
        invariant normal == all[n..] && suspended == Reverse(all[..n]) + old(suspended)
        invariant log == old(log) + Calls(Suspends(Normal), all[..n])
        decreases |all| - n
      {
        error := SuspendFirst(a);
        Note(if error then Refused(Normal, all[n]) else Suspended(Normal, all[n]));
        if error {
          break;
        }
        OneMore(Suspends(Normal), all, n, old(suspended));
        n := n + 1;
      }
      Firsts();
      FirstInIs(all, a.refusing, n);
    }

    method ResumeFirst()
      requires Valid() && !ListEmpty(dpmSuspended)
      modifies this`normal, this`suspended, Links(), devices`ref
      ensures Valid() && SameRefs() && old(suspended) != []
      ensures suspended == old(suspended)[1..] && normal == [old(suspended)[0]] + old(normal)
    {
      Firsts();
      hide Valid, Links;
      var dev := dpmSuspended.next.owner;
      Get(devices[dev]);
      ToNormal(dev);
      Put(devices[dev]);
    }

    // Resumes all devices that are suspended, the last one first.
    method DpmResume()
      requires Valid()
      modifies this`normal, this`suspended, this`log, Links(), devices`ref
      ensures Valid() && SameRefs() && suspended == [] && normal == Reverse(old(suspended)) + old(normal)
      ensures log == old(log) + Calls(Resumes(Normal), old(suspended))
    {
      hide Valid, Calls, Reverse;
      ghost var all, n := suspended, 0;
      Nothing(Resumes(Normal), all, normal);
      while !ListEmpty(dpmSuspended)
        invariant Valid() && SameRefs() && n <= |all|
        invariant suspended == all[n..] && normal == Reverse(all[..n]) + old(normal)
        invariant log == old(log) + Calls(Resumes(Normal), all[..n])
        decreases |all| - n
      {
        ResumeFirst();
        Note(Resumed(Normal, all[n]));
        OneMore(Resumes(Normal), all, n, old(normal));
        n := n + 1;
      }
      Firsts();
      assert all[..n] == all;
    }

    // A device that comes back with interrupts on stays where it is, as one that refuses does.
    method SuspendFirstNoirq(a: Answers) returns (error: bool, stays: bool, dev: nat)
      requires Valid() && !ListEmpty(dpmLateEarly)
      modifies this`late, this`noirq, Links(), devices`ref
      ensures Valid() && SameRefs() && old(late) != [] && dev == old(late)[0]
      ensures (error <==> dev in a.refusingNoirq) && (stays <==> Stays(dev, a))
      ensures stays ==> late == old(late) && noirq == old(noirq)
      ensures !stays ==> late == old(late)[1..] && noirq == [old(late)[0]] + old(noirq)
    {
      Firsts();
      hide Valid, Links;
      dev := dpmLateEarly.next.owner;
      Get(devices[dev]);
      error, stays := dev in a.refusingNoirq, false;
      if error || dev in a.unmasking {
        stays := true;
        Put(devices[dev]);
        return;
      }
      ToNoirq(dev);
      Put(devices[dev]);
    }

    // The same with interrupts off. It also stops when an interrupt is to wake the system up,
    // after a device that has suspended.
    method DpmSuspendNoirq(a: Answers) returns (error: bool)
      requires Valid()
      modifies this`late, this`noirq, this`log, Links(), devices`ref
      ensures Valid() && SameRefs() && (error <==> NoirqFails(old(late), a))
      ensures late == old(late)[NoirqCount(old(late), a)..]
      ensures noirq == Reverse(old(late)[..NoirqCount(old(late), a)]) + old(noirq)
      ensures log == old(log) + NoirqSuspendCalls(old(late), a)
    {
      hide Valid, Calls, Reverse, FirstIn, StopAt, NoirqFails, NoirqCount, NoirqSuspendCalls;
      error := false;
      ghost var all, n := late, 0;
      Nothing(Suspends(Noirq), all, noirq);
      while !ListEmpty(dpmLateEarly)
        invariant Valid() && SameRefs() && !error && n <= |all|
        invariant forall i :: 0 <= i < n ==> all[i] !in a.refusingNoirq + a.unmasking + a.waking
        invariant late == all[n..] && noirq == Reverse(all[..n]) + old(noirq)
        invariant log == old(log) + Calls(Suspends(Noirq), all[..n])
        decreases |all| - n
      {
        var dev, stays;
        error, stays, dev := SuspendFirstNoirq(a);
        Note(if stays then Refused(Noirq, all[n]) else Suspended(Noirq, all[n]));
        if stays {
          StopsAt(all, a, n);
          return;
        }
        OneMore(Suspends(Noirq), all, n, old(noirq));
        n := n + 1;
        if dev in a.waking {
          error := true;
          StopsAt(all, a, n - 1);
          return;
        }
      }
      Firsts();
      StopsAt(all, a, n);
    }

    method ResumeFirstNoirq()
      requires Valid() && !ListEmpty(dpmNoirq)
      modifies this`late, this`noirq, Links(), devices`ref
      ensures Valid() && SameRefs() && old(noirq) != []
      ensures noirq == old(noirq)[1..] && late == [old(noirq)[0]] + old(late)
    {
      Firsts();
      hide Valid, Links;
      var dev := dpmNoirq.next.owner;
      Get(devices[dev]);
      ToLate(dev);
      Put(devices[dev]);
    }

    method DpmResumeNoirq()
      requires Valid()
      modifies this`late, this`noirq, this`log, Links(), devices`ref
      ensures Valid() && SameRefs() && noirq == [] && late == Reverse(old(noirq)) + old(late)
      ensures log == old(log) + Calls(Resumes(Noirq), old(noirq))
    {
      hide Valid, Calls, Reverse;
      ghost var all, n := noirq, 0;
      Nothing(Resumes(Noirq), all, late);
      while !ListEmpty(dpmNoirq)
        invariant Valid() && SameRefs() && n <= |all|
        invariant noirq == all[n..] && late == Reverse(all[..n]) + old(late)
        invariant log == old(log) + Calls(Resumes(Noirq), all[..n])
        decreases |all| - n
      {
        ResumeFirstNoirq();
        Note(Resumed(Noirq, all[n]));
        OneMore(Resumes(Noirq), all, n, old(late));
        n := n + 1;
      }
      Firsts();
      assert all[..n] == all;
    }

    // Sleeps, unless a test or a wake-up turns it back at the last moment.
    method Sleep(a: Answers)
      modifies this`log
      ensures log == old(log) + SleepCalls(a) && (old(Valid()) ==> Valid())
    {
      hide Valid;
      if a.test != TestPlatform && !(a.test == TestCore || a.wakeupLast) {
        Note(Entered);
      }
      Note(Woken);
    }

    // With all devices suspended: suspends those that want it with interrupts off, sleeps,
    // and resumes them.
    method SuspendEnter(a: Answers)
      requires Valid() && noirq == []
      modifies this`late, this`noirq, this`log, Links(), devices`ref
      ensures Valid() && SameRefs() && noirq == [] && late == old(late)
      ensures log == old(log) + InnerCalls(late, a)
    {
      hide Valid, NoirqFails, NoirqCount, NoirqSuspendCalls, SleepCalls, Reverse, Calls;
      ghost var before, devs, n := log, late, NoirqCount(late, a);
      Note(Prepared);
      if !a.prepares {
        return;
      }
      if a.wakeupFirst {
        return;
      }
      var error := DpmSuspendNoirq(a);
      ghost var slept := log;
      if !error && a.test != TestDevices {
        Sleep(a);
      }
      ghost var sleep := if NoirqFails(devs, a) || a.test == TestDevices then [] else SleepCalls(a);
      assert log == slept + sleep;
      DpmResumeNoirq();
      Restored(devs, n);
      Joined(before, [Prepared], NoirqSuspendCalls(devs, a), sleep, Calls(Resumes(Noirq), Reverse(devs[..n])));
    }

    // One cycle: what is called depends on the answers alone, all lists and reference counts
    // are as before, and an error comes from begin or from a device that refuses with
    // interrupts on, but never from the phase with interrupts off.
    method SuspendDevicesAndEnter(a: Answers) returns (error: bool)
      requires Valid() && Idle()
      modifies this`normal, this`suspended, this`late, this`noirq, this`log, Links(), devices`ref
      ensures Valid() && Idle() && SameRefs() && normal == old(normal) && late == old(late)
      ensures log == old(log) + CycleCalls(normal, late, a)
      ensures error <==> !a.allowed || !a.begins || exists i :: 0 <= i < |normal| && normal[i] in a.refusing
    {
      hide Valid, SuspendCalls, InnerCalls, FirstIn, Calls, Reverse;
      ghost var before, devs, n := log, normal, FirstIn(normal, a.refusing);
      ghost var inner := if n < |normal| || a.test == TestDevices then [] else InnerCalls(late, a);
      if !a.allowed {
        return true;
      }
      Note(Begun);
      error := !a.begins;
      if !error {
        error := DpmSuspend(a);
        if !error && a.test != TestDevices {
          SuspendEnter(a);
        }
        DpmResume();
        Restored(devs, n);
        assert before + [Begun] + SuspendCalls(devs, a) + [] == before + [Begun] + SuspendCalls(devs, a);
        Joined(before, [Begun], SuspendCalls(devs, a), inner, Calls(Resumes(Normal), Reverse(devs[..n])));
        Concat3(before, [Begun] + SuspendCalls(devs, a) + inner + Calls(Resumes(Normal), Reverse(devs[..n])), [Ended]);
      } else {
        assert before + [Begun] + [Ended] == before + [Begun, Ended];
      }
      Note(Ended);
    }
  }

  // Devices that have suspended come back in their order, in front of the others.
  lemma Restored(devs: seq<nat>, n: nat)
    requires n <= |devs|
    ensures Reverse(devs[..n]) + [] == Reverse(devs[..n]) && Reverse(Reverse(devs[..n])) + devs[n..] == devs
  {
    ReverseTwice(devs[..n]);
  }

  lemma Joined(s: seq<Event>, a: seq<Event>, b: seq<Event>, c: seq<Event>, d: seq<Event>)
    ensures s + a + b + c + d == s + (a + b + c + d)
  {
  }

  lemma StopsAt(late: seq<nat>, a: Answers, n: nat)
    requires n <= |late| && (forall i :: 0 <= i < n ==> late[i] !in a.refusingNoirq + a.unmasking + a.waking)
    requires n < |late| ==> late[n] in a.refusingNoirq + a.unmasking + a.waking
    ensures NoirqFails(late, a) <==> n < |late| && (late[n] in a.refusingNoirq || late[n] !in a.unmasking)
    ensures NoirqCount(late, a) == if n < |late| && !Stays(late[n], a) then n + 1 else n
    ensures NoirqSuspendCalls(late, a) ==
              Calls(Suspends(Noirq), late[..NoirqCount(late, a)]) + if n < |late| && Stays(late[n], a) then [Refused(Noirq, late[n])] else []
  {
    FirstInIs(late, a.refusingNoirq + a.unmasking + a.waking, n);
    hide FirstIn, Calls;
  }

  lemma Nothing(call: nat -> Event, all: seq<nat>, rest: seq<nat>)
    ensures Calls(call, all[..0]) == [] && Reverse(all[..0]) + rest == rest
  {
  }

  lemma OneMore(call: nat -> Event, all: seq<nat>, n: nat, rest: seq<nat>)
    requires n < |all|
    ensures Calls(call, all[..n + 1]) == Calls(call, all[..n]) + [call(all[n])]
    ensures [all[n]] + (Reverse(all[..n]) + rest) == Reverse(all[..n + 1]) + rest
    ensures all[n..][0] == all[n] && all[n..][1..] == all[n + 1..]
  {
    assert all[..n + 1] == all[..n] + [all[n]];
    ReverseAppend(all[..n], all[n]);
  }

  ghost predicate Others(s: seq<ListHead>, a: seq<ListHead>, b: seq<ListHead>) {
    forall i :: 0 <= i < |s| ==> s[i] !in a && s[i] !in b
  }

  lemma ApartLists(a: seq<nat>, b: seq<nat>)
    requires NoDuplicates(a + b)
    ensures forall i, j :: 0 <= i < |a| && 0 <= j < |b| ==> a[i] != b[j]
  {
    forall i, j | 0 <= i < |a| && 0 <= j < |b|
      ensures a[i] != b[j]
    {
      assert (a + b)[i] == a[i] && (a + b)[|a| + j] == b[j];
    }
  }

  // Moving the first element of one list to the front of another makes no duplicates.
  lemma Rotate(a: seq<nat>, b: seq<nat>)
    requires (NoDuplicates(a + b) || NoDuplicates(b + a)) && a != []
    ensures NoDuplicates(a + b) && NoDuplicates(b + a)
    ensures NoDuplicates(a[1..] + ([a[0]] + b)) && NoDuplicates(([a[0]] + b) + a[1..])
  {
    Swapped(a, b);
    Swapped(b, a);
    var x, y := a + b, a[1..] + ([a[0]] + b);
    forall i, j | 0 <= i < j < |y|
      ensures y[i] != y[j]
    {
      var i', j' := Place(i, |a|), Place(j, |a|);
      assert y[i] == x[i'] && y[j] == x[j'] && i' != j';
      if i' < j' {
      } else {
      }
    }
    Swapped(a[1..], [a[0]] + b);
  }

  lemma Extended(dev: nat, a: seq<nat>, b: seq<nat>)
    requires NoDuplicates(a + b) && dev !in a + b
    ensures NoDuplicates(([dev] + a) + b)
  {
    assert ([dev] + a) + b == [dev] + (a + b);
  }

  function Place(i: nat, n: nat): nat
    requires 0 < n
  {
    if i < n - 1 then i + 1 else if i == n - 1 then 0 else i
  }

  lemma Swapped(a: seq<nat>, b: seq<nat>)
    ensures NoDuplicates(a + b) ==> NoDuplicates(b + a)
  {
    if NoDuplicates(a + b) {
      forall i, j | 0 <= i < j < |b + a|
        ensures (b + a)[i] != (b + a)[j]
      {
        var i', j' := if i < |b| then |a| + i else i - |b|, if j < |b| then |a| + j else j - |b|;
        assert (a + b)[i'] == (b + a)[i] && (a + b)[j'] == (b + a)[j] && i' != j';
        if i' < j' {
        } else {
        }
      }
    }
  }
}
