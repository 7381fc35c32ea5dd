// Finding the sections of an image by their ids. The sections form a chain through their
// headers in flash; the addresses of those that have been walked over are kept in a cache.
module ImageSections {

  const WORD := 0x1_0000_0000
  const INVALID_ADDR := 0xFFFF_FFFF
  const SEQ_NUM := 2
  const EXPAND_SIZE := 5
  // The number of cached sections is kept in a byte.
  const MAX_SECTIONS := 255

  // The two fields of a section header that make the chain.
  datatype Header = Header(next: nat, id: nat)

  // What the headers in flash are, by device and address. Flash that was never programmed
  // reads as ones.
  type Content = map<(nat, nat), Header>

  function At(content: Content, dev: nat, addr: nat): Header {
    if (dev, addr) in content then content[(dev, addr)] else Header(INVALID_ADDR, INVALID_ADDR)
  }

  // Where the images lie: a flash device and an address for each, without the boot loader,
  // which lies in front of the first.
  datatype Layout = Layout(flash: seq<nat>, addr: seq<nat>, blSize: nat) {
    predicate Valid() {
      && |flash| == |addr| == SEQ_NUM && blSize < WORD
      && (forall i :: 0 <= i < SEQ_NUM ==> addr[i] < WORD)
      && BlAddr() != INVALID_ADDR
    }

    function BlAddr(): nat
      requires |addr| == SEQ_NUM && blSize < WORD
    {
      (addr[0] + WORD - blSize) % WORD
    }

    function SectionAddr(image: nat, off: nat): nat
      requires image < |addr| && blSize < WORD
    {
      (addr[image] + off + WORD - blSize) % WORD
    }
  }

  datatype Section = Section(id: nat, addr: nat)

  // The chain of an image as far as the given sections go: the boot loader first, and then
  // each where the one before says.
  ghost predicate Linked(content: Content, layout: Layout, image: nat, secs: seq<Section>)
    requires layout.Valid() && image < SEQ_NUM
  {
    && (forall k :: 0 <= k < |secs| ==> Holds(content, Device(layout, image, k), secs[k]))
    && (secs != [] ==> secs[0].addr == layout.BlAddr())
    && (forall k :: 0 < k < |secs| ==> Follows(content, layout, image, k, secs[k - 1], secs[k]))
  }

  ghost predicate Holds(content: Content, dev: nat, sec: Section) {
    At(content, dev, sec.addr).id == sec.id
  }

  ghost predicate Follows(content: Content, layout: Layout, image: nat, k: nat, before: Section, sec: Section)
    requires layout.Valid() && image < SEQ_NUM && 0 < k
  {
    var next := At(content, Device(layout, image, k - 1), before.addr).next;
    next != INVALID_ADDR && sec.addr == layout.SectionAddr(image, next)
  }

  // The boot loader is on the first device; all other sections are on the device of the image.
  function Device(layout: Layout, image: nat, k: nat): nat
    requires layout.Valid() && image < SEQ_NUM
  {
    if k == 0 then layout.flash[0] else layout.flash[image]
  }

  // The whole chain.
  ghost predicate IsChain(content: Content, layout: Layout, image: nat, secs: seq<Section>)
    requires layout.Valid() && image < SEQ_NUM
  {
    && secs != [] && Linked(content, layout, image, secs)
    && At(content, Device(layout, image, |secs| - 1), secs[|secs| - 1].addr).next == INVALID_ADDR
  }

  // The address of the first section that has the id.
  function FirstWith(secs: seq<Section>, id: nat): nat {
    if secs == [] then INVALID_ADDR else if secs[0].id == id then secs[0].addr else FirstWith(secs[1..], id)
  }

  predicate Has(secs: seq<Section>, id: nat) {
    secs != [] && (secs[0].id == id || Has(secs[1..], id))
  }

  lemma {:induction false} FirstWithAppend(a: seq<Section>, b: seq<Section>, id: nat)
    ensures Has(a + b, id) <==> Has(a, id) || Has(b, id)
    ensures FirstWith(a + b, id) == if Has(a, id) then FirstWith(a, id) else FirstWith(b, id)
  {
    if a == [] {
      assert a + b == b;
    } else {
      assert (a + b)[1..] == a[1..] + b;
      FirstWithAppend(a[1..], b, id);
    }
  }

  // A part of the chain is a prefix of the whole chain.
  lemma {:induction false} LinkedIsPrefix(content: Content, layout: Layout, image: nat, part: seq<Section>, secs: seq<Section>)
    requires layout.Valid() && image < SEQ_NUM
    requires Linked(content, layout, image, part) && IsChain(content, layout, image, secs)
    ensures part <= secs
  {
    if part != [] {
      var n := |part| - 1;
      assert Linked(content, layout, image, part[..n]) by {
        forall k | 0 < k < n
          ensures Follows(content, layout, image, k, part[..n][k - 1], part[..n][k])
        {
          assert Follows(content, layout, image, k, part[k - 1], part[k]);
        }
      }
      LinkedIsPrefix(content, layout, image, part[..n], secs);
      assert Holds(content, Device(layout, image, n), part[n]);
      if n == 0 {
        assert Holds(content, Device(layout, image, 0), secs[0]);
      } else {
        assert Follows(content, layout, image, n, part[n - 1], part[n]);
        assert part[..n][n - 1] == secs[n - 1];
        assert Holds(content, Device(layout, image, n), secs[n]) && Follows(content, layout, image, n, secs[n - 1], secs[n]);
      }
      assert part == part[..n] + [part[n]];
    }
  }

  // An answer and the cache after it; or more sections than the cache can count.
  datatype Answer = Answer(addr: nat, cache: seq<Section>) | TooMany

  function Walk(content: Content, layout: Layout, image: nat, dev: nat, addr: nat, next: nat, cache: seq<Section>, id: nat): (r: Answer)
    requires layout.Valid() && image < SEQ_NUM
    ensures r.Answer? ==> cache <= r.cache
    decreases MAX_SECTIONS - |cache|
  {
    if next == INVALID_ADDR then Answer(INVALID_ADDR, cache)
    else if MAX_SECTIONS <= |cache| then TooMany
    else
      var h := At(content, dev, addr);
      var cache' := cache + [Section(h.id, addr)];
      if h.id == id then Answer(addr, cache')
      else Walk(content, layout, image, layout.flash[image], layout.SectionAddr(image, h.next), h.next, cache', id)
  }

  function Lookup(content: Content, layout: Layout, image: nat, cache: seq<Section>, id: nat): (r: Answer)
    requires layout.Valid() && image < SEQ_NUM
    ensures r.Answer? ==> cache <= r.cache
  {
    if Has(cache, id) then
      Answer(FirstWith(cache, id), cache)
    else if cache == [] then
      Walk(content, layout, image, layout.flash[0], layout.BlAddr(), layout.BlAddr(), cache, id)
    else
      var next := At(content, layout.flash[image], cache[|cache| - 1].addr).next;
      Walk(content, layout, image, layout.flash[image], layout.SectionAddr(image, next), next, cache, id)
  }

  // A search that goes on behind the boot loader looks for its header on the device of the
  // image. That finds the next section when the device is the same, or happens to say the same.
  ghost predicate Agrees(content: Content, layout: Layout, image: nat)
    requires layout.Valid() && image < SEQ_NUM
  {
    At(content, layout.flash[image], layout.BlAddr()).next == At(content, layout.flash[0], layout.BlAddr()).next
  }

  // The walk is at the section behind the cached ones.
  ghost predicate Behind(content: Content, layout: Layout, image: nat, dev: nat, addr: nat, next: nat, cache: seq<Section>)
    requires layout.Valid() && image < SEQ_NUM
  {
    if cache == [] then
      dev == layout.flash[0] && addr == next == layout.BlAddr()
    else
      && dev == layout.flash[image] && addr == layout.SectionAddr(image, next)
      && next == At(content, Device(layout, image, |cache| - 1), cache[|cache| - 1].addr).next
  }

  lemma LinkedGrows(content: Content, layout: Layout, image: nat, dev: nat, addr: nat, next: nat, cache: seq<Section>)
    requires layout.Valid() && image < SEQ_NUM && next != INVALID_ADDR
    requires Linked(content, layout, image, cache) && Behind(content, layout, image, dev, addr, next, cache)
    ensures var h := At(content, dev, addr);
            && Linked(content, layout, image, cache + [Section(h.id, addr)])
            && Behind(content, layout, image, layout.flash[image], layout.SectionAddr(image, h.next), h.next, cache + [Section(h.id, addr)])
  {
    var h := At(content, dev, addr);
    var longer := cache + [Section(h.id, addr)];
    assert Holds(content, Device(layout, image, |cache|), longer[|cache|]);
    forall k | 0 < k < |longer|
      ensures Follows(content, layout, image, k, longer[k - 1], longer[k])
    {
      if k < |cache| {
        assert Follows(content, layout, image, k, cache[k - 1], cache[k]);
      }
    }
  }

  lemma Ends(content: Content, layout: Layout, image: nat, k: nat, secs: seq<Section>)
    requires layout.Valid() && image < SEQ_NUM && IsChain(content, layout, image, secs) && 0 < k <= |secs|
    ensures k == |secs| <==> At(content, Device(layout, image, k - 1), secs[k - 1].addr).next == INVALID_ADDR
  {
    if k < |secs| {
      assert Follows(content, layout, image, k, secs[k - 1], secs[k]);
    }
  }

  // From behind the cached sections, none of which has the id, the walk finds the first one
  // that has it, and the cache still is a part of the chain.
  lemma {:induction false} WalkIsRight(content: Content, layout: Layout, image: nat, dev: nat, addr: nat, next: nat,
                                       cache: seq<Section>, id: nat, secs: seq<Section>)
    requires layout.Valid() && image < SEQ_NUM
    requires IsChain(content, layout, image, secs) && |secs| <= MAX_SECTIONS && !Has(cache, id)
    requires Linked(content, layout, image, cache) && Behind(content, layout, image, dev, addr, next, cache)
    ensures var r := Walk(content, layout, image, dev, addr, next, cache, id);
            r.Answer? && r.addr == FirstWith(secs, id) && Linked(content, layout, image, r.cache)
    decreases MAX_SECTIONS - |cache|
  {
    LinkedIsPrefix(content, layout, image, cache, secs);
    FirstWithAppend(cache, secs[|cache|..], id);
    assert secs == cache + secs[|cache|..];
    if next == INVALID_ADDR {
      Ends(content, layout, image, |cache|, secs);
    } else {
      LinkedGrows(content, layout, image, dev, addr, next, cache);
      var h := At(content, dev, addr);
      var longer := cache + [Section(h.id, addr)];
      LinkedIsPrefix(content, layout, image, longer, secs);
      assert secs[|cache|] == longer[|cache|];
      FirstWithAppend(cache, [Section(h.id, addr)], id);
      if h.id != id {
        WalkIsRight(content, layout, image, layout.flash[image], layout.SectionAddr(image, h.next), h.next, longer, id, secs);
      }
    }
  }

  // With any part of the chain in the cache, the answer is that of a plain walk of the chain.
  lemma LookupIsRight(content: Content, layout: Layout, image: nat, cache: seq<Section>, id: nat, secs: seq<Section>)
    requires layout.Valid() && image < SEQ_NUM && Agrees(content, layout, image)
    requires IsChain(content, layout, image, secs) && |secs| <= MAX_SECTIONS && Linked(content, layout, image, cache)
    ensures var r := Lookup(content, layout, image, cache, id);
            r.Answer? && r.addr == FirstWith(secs, id) && Linked(content, layout, image, r.cache)
  {
    if Has(cache, id) {
      LinkedIsPrefix(content, layout, image, cache, secs);
      FirstWithAppend(cache, secs[|cache|..], id);
      assert secs == cache + secs[|cache|..];
    } else if cache == [] {
      WalkIsRight(content, layout, image, layout.flash[0], layout.BlAddr(), layout.BlAddr(), cache, id, secs);
    } else {
      var next := At(content, layout.flash[image], cache[|cache| - 1].addr).next;
      WalkIsRight(content, layout, image, layout.flash[image], layout.SectionAddr(image, next), next, cache, id, secs);
    }
  }

  // All answers to a sequence of queries that starts with an empty cache are right.
  ghost predicate AllRight(content: Content, layout: Layout, image: nat, cache: seq<Section>, ids: seq<nat>, secs: seq<Section>)
    requires layout.Valid() && image < SEQ_NUM
    decreases |ids|
  {
    ids == [] ||
    var r := Lookup(content, layout, image, cache, ids[0]);
    r.Answer? && r.addr == FirstWith(secs, ids[0]) && AllRight(content, layout, image, r.cache, ids[1..], secs)
  }

  lemma {:induction false} AgreeingIsRight(content: Content, layout: Layout, image: nat, cache: seq<Section>, ids: seq<nat>, secs: seq<Section>)
    requires layout.Valid() && image < SEQ_NUM && Agrees(content, layout, image)
    requires IsChain(content, layout, image, secs) && |secs| <= MAX_SECTIONS && Linked(content, layout, image, cache)
    ensures AllRight(content, layout, image, cache, ids, secs)
    decreases |ids|
  {
    if ids != [] {
      LookupIsRight(content, layout, image, cache, ids[0], secs);
      AgreeingIsRight(content, layout, image, Lookup(content, layout, image, cache, ids[0]).cache, ids[1..], secs);
    }
  }

  // Two sections, and what the flash holds, when the boot loader is on another device than the
  // image: after the boot loader has been asked for, the other section is not found.
  lemma OtherDeviceIsWrong(layout: Layout, image: nat) returns (content: Content, ids: seq<nat>, secs: seq<Section>)
    requires layout.Valid() && image < SEQ_NUM && layout.flash[image] != layout.flash[0]
    ensures IsChain(content, layout, image, secs) && |secs| == 2 && |ids| == 2
    ensures !AllRight(content, layout, image, [], ids, secs)
  {
    var bl := layout.BlAddr();
    var off := Offset(layout.addr[image] + WORD - layout.blSize, bl);
    var addr := layout.SectionAddr(image, off);
    content := map[(layout.flash[0], bl) := Header(off, 1), (layout.flash[image], addr) := Header(INVALID_ADDR, 2)];
    ids, secs := [1, 2], [Section(1, bl), Section(2, addr)];
    assert Follows(content, layout, image, 1, secs[0], secs[1]);
    var r := Lookup(content, layout, image, [], 1);
    assert r == Answer(bl, [Section(1, bl)]);
    assert ids[1..][0] == 2 && secs[1..][0] == Section(2, addr);
    assert !Has(r.cache, 2);
    assert FirstWith(secs, 2) == FirstWith(secs[1..], 2) == addr;
    assert Lookup(content, layout, image, r.cache, 2) == Answer(INVALID_ADDR, r.cache);
  }

  // An offset that leads neither to the given address nor to the invalid one.
  lemma Offset(base: nat, avoid: nat) returns (off: nat)
    ensures off < 3 && (base + off) % WORD != avoid && (base + off) % WORD != INVALID_ADDR
  {
    if base % WORD != avoid && base % WORD != INVALID_ADDR {
      off := 0;
    } else if (base + 1) % WORD != avoid && (base + 1) % WORD != INVALID_ADDR {
      off := 1;
    } else {
      off := 2;
    }
  }

  // Whatever the flash holds, and however it is asked, the answers are right just when the
  // image lies on the same device as the boot loader.
  lemma RightJustOnSameDevice(layout: Layout, image: nat)
    requires layout.Valid() && image < SEQ_NUM
    ensures layout.flash[image] == layout.flash[0] <==> AlwaysRight(layout, image)
  {
    if layout.flash[image] == layout.flash[0] {
      forall content, ids, secs | IsChain(content, layout, image, secs) && |secs| <= MAX_SECTIONS
        ensures AllRight(content, layout, image, [], ids, secs)
      {
        AgreeingIsRight(content, layout, image, [], ids, secs);
      }
    } else {
      var content, ids, secs := OtherDeviceIsWrong(layout, image);
    }
  }

  ghost predicate AlwaysRight(layout: Layout, image: nat)
    requires layout.Valid() && image < SEQ_NUM
  {
    forall content, ids, secs :: IsChain(content, layout, image, secs) && |secs| <= MAX_SECTIONS ==>
      AllRight(content, layout, image, [], ids, secs)
  }
}

module ImageCache {
  import opened ImageSections

  function Failures(outcomes: seq<bool>): nat {
    if outcomes == [] then 0
    else Failures(outcomes[..|outcomes| - 1]) + if outcomes[|outcomes| - 1] then 0 else 1
  }

  // How the reads of headers and the requests for memory come out, one after the other; when
  // the outcomes are used up nothing fails any more. The failures so far are counted.
  class Faults {
    const outcomes: seq<bool>
    var used: nat
    var failures: nat

    constructor (outcomes: seq<bool>)
      ensures Valid() && this.outcomes == outcomes && used == failures == 0
    {
      this.outcomes, used, failures := outcomes, 0, 0;
    }

    ghost predicate Valid()
      reads this
    {
      used <= |outcomes| && failures == Failures(outcomes[..used])
    }

    // Nothing will fail.
    ghost predicate Over()
      reads this
    {
      used <= |outcomes| && forall i :: used <= i < |outcomes| ==> outcomes[i]
    }

    method Next() returns (ok: bool)
      requires Valid()
      modifies this
      ensures Valid() && old(used) <= used && (old(Over()) ==> ok && Over())
      ensures failures == old(failures) + if ok then 0 else 1
    {
      ok := used == |outcomes| || outcomes[used];
      if used < |outcomes| {
        assert outcomes[..used + 1][..used] == outcomes[..used];
        used := used + 1;
      }
      if !ok {
        failures := failures + 1;
      }
    }
  }

  // Something has failed meanwhile.
  twostate predicate Failed(faults: Faults)
    reads faults
  {
    old(faults.failures) < faults.failures
  }

  // Failures are only ever added, and only while some are to come.
  twostate predicate Onward(faults: Faults)
    reads faults
  {
    old(faults.failures) <= faults.failures && (old(faults.Over()) ==> faults.Over() && !Failed(faults))
  }

  // The headers in flash.
  class HeaderFlash {
    var content: Content
    const faults: Faults

    constructor (content: Content, faults: Faults)
      ensures this.content == content && this.faults == faults
    {
      this.content, this.faults := content, faults;
    }

    method Read(dev: nat, addr: nat) returns (ok: bool, h: Header)
      requires faults.Valid()
      modifies faults
      ensures h == At(content, dev, addr) && faults.Valid() && (old(faults.Over()) ==> ok && faults.Over())
      ensures faults.failures == old(faults.failures) + if ok then 0 else 1
    {
      ok := faults.Next();
      h := At(content, dev, addr);
    }
  }

  // The cached sections of one image.
  class SectionCache {
    var secNum: nat
    var secAddr: array?<Section>

    constructor ()
      ensures Valid() && Cached() == [] && secAddr == null
    {
      secNum, secAddr := 0, null;
    }

    // The array is made longer by EXPAND_SIZE whenever the number is a multiple of that.
    ghost predicate Valid()
      reads this
    {
      secNum <= MAX_SECTIONS && (0 < secNum ==> secAddr != null && (secNum + EXPAND_SIZE - 1) / EXPAND_SIZE * EXPAND_SIZE <= secAddr.Length)
    }

    ghost function Cached(): (r: seq<Section>)
      requires Valid()
      reads this, secAddr
      ensures |r| == secNum
    {
      if secNum == 0 then [] else secAddr[..secNum]
    }

    method Clear()
      requires Valid()
      modifies this
      ensures Valid() && Cached() == [] && secAddr == null
    {
      secNum, secAddr := 0, null;
    }

    // Fails when there is no memory.
    method Expand(faults: Faults) returns (ok: bool)
      requires Valid() && faults.Valid()
      modifies this`secAddr, faults
      ensures faults.Valid() && (old(faults.Over()) ==> ok && faults.Over())
      ensures faults.failures == old(faults.failures) + if ok then 0 else 1
      ensures Valid() && Cached() == old(Cached()) && (secAddr == old(secAddr) || fresh(secAddr))
      ensures ok ==> secAddr != null && secNum + EXPAND_SIZE <= secAddr.Length && fresh(secAddr)
    {
      ok := faults.Next();
      if !ok {
        return;
      }
      var longer := new Section[secNum + EXPAND_SIZE](i => Section(0, 0));
      if secAddr != null {
        for i := 0 to secNum
          modifies longer
          invariant longer[..i] == secAddr[..i]
          invariant unchanged(secAddr)
        {
          longer[i] := secAddr[i];
        }
      }
      secAddr := longer;
    }

    method FindCached(id: nat) returns (found: bool, addr: nat)
      requires Valid()
      ensures found <==> Has(Cached(), id)
      ensures found ==> addr == FirstWith(Cached(), id)
    {
      ghost var cache := Cached();
      for index := 0 to secNum
        invariant Has(cache, id) <==> Has(cache[index..], id)
        invariant FirstWith(cache, id) == FirstWith(cache[index..], id)
      {
        assert cache[index] == secAddr[index] && cache[index..][1..] == cache[index + 1..];
        if id == secAddr[index].id {
          return true, secAddr[index].addr;
        }
      }
      return false, 0;
    }

    // Reads the header of one more section, and keeps it.
    method Extend(flash: HeaderFlash, dev: nat, addr: nat) returns (ok: bool, h: Header)
      requires Valid() && secNum < MAX_SECTIONS && flash.faults.Valid()
      modifies this, secAddr, flash.faults
      ensures flash.faults.Valid() && (old(flash.faults.Over()) ==> ok && flash.faults.Over())
      ensures flash.faults.failures == old(flash.faults.failures) + if ok then 0 else 1
      ensures Valid() && (fresh(secAddr) || secAddr == old(secAddr)) && (ok ==> h == At(flash.content, dev, addr))
      ensures Cached() == if ok then old(Cached()) + [Section(h.id, addr)] else old(Cached())
    {
      h := Header(INVALID_ADDR, INVALID_ADDR);
      if secNum % EXPAND_SIZE == 0 {
        ok := Expand(flash.faults);
        if !ok {
          return;
        }
      }
      ok, h := flash.Read(dev, addr);
      if ok {
        secAddr[secNum] := Section(h.id, addr);
        secNum := secNum + 1;
      }
    }

    // The address of the section with the given id, or the invalid one when there is none, or
    // when something fails; then the cache still has a part of what it would have had.
    method GetAddr(flash: HeaderFlash, layout: Layout, image: nat, id: nat) returns (addr: nat)
      requires Valid() && layout.Valid() && image < SEQ_NUM && flash.faults.Valid()
      requires Lookup(flash.content, layout, image, Cached(), id).Answer?
      modifies this, secAddr, flash.faults
      ensures flash.faults.Valid() && Onward(flash.faults)
      ensures Valid() && old(Cached()) <= Cached() && (fresh(secAddr) || secAddr == old(secAddr))
      ensures var r := Lookup(flash.content, layout, image, old(Cached()), id);
              if Failed(flash.faults) then addr == INVALID_ADDR && Cached() <= r.cache else r == Answer(addr, Cached())
    {
      ghost var content, cache := flash.content, Cached();
      var found;
      found, addr := FindCached(id);
      if found {
        return;
      }
      var dev, next;
      if secNum == 0 {
        dev, addr, next := layout.flash[0], layout.BlAddr(), layout.BlAddr();
      } else {
        dev, addr := layout.flash[image], secAddr[secNum - 1].addr;
        assert cache[|cache| - 1] == secAddr[secNum - 1];
        var ok, h := flash.Read(dev, addr);
        if !ok {
          return INVALID_ADDR;
        }
        next, addr := h.next, layout.SectionAddr(image, h.next);
      }
      hide Has, FirstWith, At, Lookup, Valid, Layout.SectionAddr, Layout.BlAddr, Faults.Valid, Faults.Over;
      addr := WalkOn(flash, layout, image, dev, addr, next, id);
    }

    // Goes along the chain from a section that is not cached yet.
    method WalkOn(flash: HeaderFlash, layout: Layout, image: nat, dev0: nat, addr0: nat, next0: nat, id: nat) returns (addr: nat)
      requires Valid() && layout.Valid() && image < SEQ_NUM && flash.faults.Valid()
      requires Walk(flash.content, layout, image, dev0, addr0, next0, Cached(), id).Answer?
      modifies this, secAddr, flash.faults
      ensures flash.faults.Valid() && Onward(flash.faults)
      ensures Valid() && old(Cached()) <= Cached() && (fresh(secAddr) || secAddr == old(secAddr))
      ensures var r := Walk(flash.content, layout, image, dev0, addr0, next0, old(Cached()), id);
              if Failed(flash.faults) then addr == INVALID_ADDR && Cached() <= r.cache else r == Answer(addr, Cached())
    {
      ghost var content, cache := flash.content, Cached();
      hide Has, FirstWith, At, Lookup, Valid, Layout.SectionAddr, Layout.BlAddr, Faults.Valid, Faults.Over;
      var dev, next;
      dev, addr, next := dev0, addr0, next0;
      while next != INVALID_ADDR
        invariant Valid() && cache <= Cached() && (fresh(secAddr) || secAddr == old(secAddr)) && content == flash.content
        invariant Walk(content, layout, image, dev0, addr0, next0, cache, id) == Walk(content, layout, image, dev, addr, next, Cached(), id)
        invariant flash.faults.Valid() && Onward(flash.faults) && !Failed(flash.faults)
        decreases MAX_SECTIONS - |Cached()|
      {
        var ok, h := Extend(flash, dev, addr);
        if !ok {
          return INVALID_ADDR;
        }
        if id == h.id {
          return;
        }
        dev, next, addr := layout.flash[image], h.next, layout.SectionAddr(image, h.next);
      }
      addr := INVALID_ADDR;
    }
  }

  datatype Segment = HeaderSegment | Body | Tailer

  class Images {
    const layout: Layout
    const flash: HeaderFlash
    const first: SectionCache
    const second: SectionCache
    var runningSeq: nat

    constructor (layout: Layout, flash: HeaderFlash, runningSeq: nat)
      requires layout.Valid() && flash.faults.Valid()
      ensures Valid() && this.layout == layout && this.flash == flash && this.runningSeq == runningSeq
    {
      var a := new SectionCache();
      var b := new SectionCache();
      this.layout, this.flash, first, second, this.runningSeq := layout, flash, a, b, runningSeq;
    }

    // What is cached of an image is the beginning of its chain.
    ghost predicate Valid()
      reads this, flash, flash.faults, first, second, first.secAddr, second.secAddr
    {
      && layout.Valid() && flash.faults.Valid() && first != second && first.Valid() && second.Valid()
      && (first.secAddr == null || first.secAddr != second.secAddr)
      && Linked(flash.content, layout, 0, first.Cached()) && Linked(flash.content, layout, 1, second.Cached())
    }

    // At any time, and for either image, the answer is that of a walk over the whole chain as
    // it is in flash now, unless something fails.
    method GetAddr(image: nat, id: nat, ghost secs: seq<Section>) returns (addr: nat)
      requires Valid()
      requires image < SEQ_NUM ==> IsChain(flash.content, layout, image, secs) && |secs| <= MAX_SECTIONS
      requires image < SEQ_NUM ==> Agrees(flash.content, layout, image)
      modifies first, second, first.secAddr, second.secAddr, flash.faults
      ensures Onward(flash.faults)
      ensures Valid() && Fresher(old(first.secAddr), first.secAddr) && Fresher(old(second.secAddr), second.secAddr)
      ensures addr == if Failed(flash.faults) || SEQ_NUM <= image then INVALID_ADDR else FirstWith(secs, id)
    {
      if SEQ_NUM <= image {
        return INVALID_ADDR;
      }
      if image == 0 {
        LookupIsRight(flash.content, layout, image, first.Cached(), id, secs);
        hide Linked, IsChain, Lookup, FirstWith, Agrees;
        addr := first.GetAddr(flash, layout, image, id);
        PrefixIsLinked(flash.content, layout, image, first.Cached(), Lookup(flash.content, layout, image, old(first.Cached()), id).cache);
      } else {
        LookupIsRight(flash.content, layout, image, second.Cached(), id, secs);
        hide Linked, IsChain, Lookup, FirstWith, Agrees;
        addr := second.GetAddr(flash, layout, image, id);
        PrefixIsLinked(flash.content, layout, image, second.Cached(), Lookup(flash.content, layout, image, old(second.Cached()), id).cache);
      }
    }

    // Reading or writing part of a section of the running image. Writing to a header may change
    // all headers to anything, as nothing remains in the caches.
    method Rw(id: nat, segment: Segment, write: bool, content: Content, ghost secs: seq<Section>) returns (ok: bool)
      requires Valid()
      requires runningSeq < SEQ_NUM ==> IsChain(flash.content, layout, runningSeq, secs) && |secs| <= MAX_SECTIONS
      requires runningSeq < SEQ_NUM ==> Agrees(flash.content, layout, runningSeq)
      requires !(write && segment.HeaderSegment?) ==> content == flash.content
      modifies flash, flash.faults, first, second, first.secAddr, second.secAddr
      ensures Valid() && Onward(flash.faults) && flash.content == if ok then content else old(flash.content)
      ensures ok <==> !Failed(flash.faults) && runningSeq < SEQ_NUM && FirstWith(secs, id) != INVALID_ADDR
      ensures ok && write && segment.HeaderSegment? ==> first.Cached() == second.Cached() == []
      ensures Fresher(old(first.secAddr), first.secAddr) && Fresher(old(second.secAddr), second.secAddr)
    {
      var addr := GetAddr(runningSeq, id, secs);
      if addr == INVALID_ADDR {
        return false;
      }
      if write && segment.HeaderSegment? {
        ClearSecAddr();
        WriteHeader(content);
      }
      return true;
    }

    method ClearSecAddr()
      requires Valid()
      modifies first, second
      ensures Valid() && first.secAddr == second.secAddr == null && first.Cached() == second.Cached() == []
    {
      first.Clear();
      second.Clear();
    }

    method WriteHeader(content: Content)
      requires Valid() && first.Cached() == second.Cached() == []
      modifies flash
      ensures Valid() && flash.content == content
    {
      flash.content := content;
    }
  }

  // The array of a cache is the same, a new one, or none.
  twostate predicate Fresher(before: array?<Section>, new after: array?<Section>) {
    after == before || after == null || fresh(after)
  }

  lemma PrefixIsLinked(content: Content, layout: Layout, image: nat, a: seq<Section>, b: seq<Section>)
    requires layout.Valid() && image < SEQ_NUM && Linked(content, layout, image, b) && a <= b
    ensures Linked(content, layout, image, a)
  {
    forall k | 0 <= k < |a|
      ensures Holds(content, Device(layout, image, k), a[k])
      ensures 0 < k ==> Follows(content, layout, image, k, a[k - 1], a[k])
    {
      assert Holds(content, Device(layout, image, k), b[k]);
      assert 0 < k ==> Follows(content, layout, image, k, b[k - 1], b[k]);
    }
  }
}
