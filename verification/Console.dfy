// Hand-over of command lines from the receive interrupt to the console task. The interrupt may
// come between any two steps of the task, except while the task has interrupts disabled.

// How n buffers that are used in turn lie in a ring. Line i, counted from 0 over the whole
// run, is received into buffer i % n.
module ConsoleRing {

  type Line = seq<char>

  function Slot(i: nat, n: nat): (r: nat)
    requires 0 < n
    ensures r < n
  {
    i % n
  }

  lemma SlotSmall(i: nat, n: nat)
    requires i < n
    ensures Slot(i, n) == i
  {
  }

  lemma SlotNext(i: nat, n: nat)
    requires 0 < n
    ensures (Slot(i, n) + 1) % n == Slot(i + 1, n)
  {
    var q, r := i / n, i % n;
    assert i == n * q + r;
    if r + 1 < n {
      Quotient(i + 1, n, q, r + 1);
      SlotSmall(r + 1, n);
    } else {
      Quotient(n, n, 1, 0);
      assert i + 1 == n * (q + 1) by { Distribute(n, q); }
      Quotient(i + 1, n, q + 1, 0);
    }
  }

  lemma Distribute(n: int, q: int)
    ensures n * (q + 1) == n * q + n
  {
  }

  lemma Quotient(i: int, n: nat, q: int, r: nat)
    requires r < n && i == n * q + r
    ensures i / n == q && i % n == r
  {
    var q', r' := i / n, i % n;
    assert i == n * q' + r' && 0 <= r' < n;
    if q' < q {
      Gap(n, q', q);
    } else if q < q' {
      Gap(n, q, q');
    }
  }

  lemma {:induction false} Gap(n: nat, a: int, b: int)
    requires a < b
    ensures n * a + n <= n * b
  {
    assert n * b == n * a + n * (b - a) by { Split(n, a, b - a); }
    AtLeast(n, b - a);
  }

  lemma Split(n: int, a: int, b: int)
    ensures n * (a + b) == n * a + n * b
  {
  }

  lemma AtLeast(n: nat, k: int)
    requires 1 <= k
    ensures n <= n * k
  {
  }

  lemma SlotWraps(i: nat, n: nat)
    requires 0 < n
    ensures Slot(i + n, n) == Slot(i, n)
  {
    var q, r := i / n, i % n;
    assert i + n == n * (q + 1) + r by { Distribute(n, q); }
    Quotient(i + n, n, q + 1, r);
  }

  // Lines that are less than n apart are in different buffers.
  lemma SlotApart(i: nat, j: nat, n: nat)
    requires i < j < i + n
    ensures Slot(i, n) != Slot(j, n)
  {
    var q, r, q', r' := i / n, i % n, j / n, j % n;
    assert i == n * q + r && j == n * q' + r';
    if r == r' {
      if q < q' {
        Gap(n, q, q');
      } else if q' < q {
        Gap(n, q', q);
      }
    }
  }

  // Of any n lines in a row, one is in buffer b.
  lemma {:induction false} SlotHit(base: nat, n: nat, b: nat) returns (i: nat)
    requires b < n
    ensures base <= i < base + n && Slot(i, n) == b
  {
    if base == 0 {
      SlotSmall(b, n);
      i := b;
    } else {
      i := SlotHit(base - 1, n, b);
      if i == base - 1 {
        SlotWraps(i, n);
        i := i + n;
      }
    }
  }

  // The buffers when `released` lines have been done with, `taken` have been taken by the
  // task and `completed` have been received: what is ready is what was completed and is not
  // taken, the next line is received behind it, and the rest is free.
  ghost predicate Ringed(ready: seq<bool>, free: seq<bool>, rx: nat, released: nat, taken: nat, completed: nat) {
    && |ready| == |free| > 0
    && released <= taken <= released + 1 && taken <= completed <= released + |ready|
    && rx == (if completed < released + |ready| then Slot(completed, |ready|) else |ready|)
    && (forall i :: released <= i < released + |ready| ==>
          && ready[Slot(i, |ready|)] == (taken <= i < completed)
          && free[Slot(i, |ready|)] == (completed < i))
  }

  datatype Role = Free | Receiving | Ready | Executing

  // Every buffer has exactly one role.
  lemma OneRole(ready: seq<bool>, free: seq<bool>, rx: nat, released: nat, taken: nat, completed: nat, b: nat) returns (role: Role)
    requires Ringed(ready, free, rx, released, taken, completed) && b < |ready|
    ensures free[b] <==> role == Free
    ensures rx == b <==> role == Receiving
    ensures ready[b] <==> role == Ready
    ensures released < taken && b == Slot(released, |ready|) <==> role == Executing
  {
    var n := |ready|;
    var i := SlotHit(released, n, b);
    if i != released {
      SlotApart(released, i, n);
    }
    if completed < released + n && i < completed {
      SlotApart(i, completed, n);
    } else if completed < released + n && completed < i {
      SlotApart(completed, i, n);
    }
    role := if completed < i then Free else if i == completed then Receiving else if taken <= i then Ready else Executing;
  }

  // The number of entries that are set.
  function Count(bitmap: seq<bool>): nat {
    if bitmap == [] then 0 else (if bitmap[0] then 1 else 0) + Count(bitmap[1..])
  }

  lemma {:induction false} CountSet(bitmap: seq<bool>, k: nat)
    requires k < |bitmap| && bitmap[k]
    ensures Count(bitmap) == Count(bitmap[k := false]) + 1
    decreases |bitmap|
  {
    if k == 0 {
      assert bitmap[0 := false][1..] == bitmap[1..];
    } else {
      assert bitmap[k := false][1..] == bitmap[1..][k - 1 := false];
      CountSet(bitmap[1..], k - 1);
    }
  }

  lemma {:induction false} CountNone(bitmap: seq<bool>)
    requires forall b :: 0 <= b < |bitmap| ==> !bitmap[b]
    ensures Count(bitmap) == 0
  {
    if bitmap != [] {
      CountNone(bitmap[1..]);
    }
  }

  // As many entries are set as there are lines from lo up to hi.
  lemma {:induction false} CountLines(bitmap: seq<bool>, base: nat, lo: nat, hi: nat)
    requires 0 < |bitmap| && base <= lo <= hi <= base + |bitmap|
    requires forall i :: base <= i < base + |bitmap| ==> bitmap[Slot(i, |bitmap|)] == (lo <= i < hi)
    ensures Count(bitmap) == hi - lo
    decreases hi - lo
  {
    var n := |bitmap|;
    if lo == hi {
      forall b | 0 <= b < n
        ensures !bitmap[b]
      {
        var i := SlotHit(base, n, b);
        assert bitmap[Slot(i, n)] == (lo <= i < hi);
      }
      CountNone(bitmap);
    } else {
      var k := Slot(hi - 1, n);
      forall i | base <= i < base + n
        ensures bitmap[k := false][Slot(i, n)] == (lo <= i < hi - 1)
      {
        Same(i, hi - 1, n);
      }
      CountLines(bitmap[k := false], base, lo, hi - 1);
      CountSet(bitmap, k);
    }
  }

  // Searches a bitmap for an entry that is set, from the one behind the given one on, for a
  // number of entries.
  function Search(bitmap: seq<bool>, last: nat, loop: nat): (idx: nat)
    requires last < |bitmap|
    ensures idx <= |bitmap| && (idx < |bitmap| ==> bitmap[idx])
    decreases loop
  {
    if loop == 0 then |bitmap|
    else
      var idx := (last + 1) % |bitmap|;
      if bitmap[idx] then idx else Search(bitmap, idx, loop - 1)
  }

  // Where the set entries are those of the lines from lo up to hi, the one of line lo is found.
  lemma {:induction false} SearchFindsLine(bitmap: seq<bool>, before: nat, loop: nat, lo: nat, hi: nat)
    requires 0 < |bitmap| && before < lo
    requires forall i :: before < i <= before + loop ==> bitmap[Slot(i, |bitmap|)] == (lo <= i < hi)
    ensures Search(bitmap, Slot(before, |bitmap|), loop) ==
            if lo < hi && lo <= before + loop then Slot(lo, |bitmap|) else |bitmap|
    decreases loop
  {
    if loop != 0 {
      SlotNext(before, |bitmap|);
      assert bitmap[Slot(before + 1, |bitmap|)] == (lo <= before + 1 < hi);
      if !(lo <= before + 1 < hi) {
        if before + 1 < lo {
          SearchFindsLine(bitmap, before + 1, loop - 1, lo, hi);
        } else {
          Nothing(bitmap, before + 1, loop - 1);
        }
      }
    }
  }

  lemma {:induction false} Nothing(bitmap: seq<bool>, before: nat, loop: nat)
    requires 0 < |bitmap|
    requires forall i :: before < i <= before + loop ==> !bitmap[Slot(i, |bitmap|)]
    ensures Search(bitmap, Slot(before, |bitmap|), loop) == |bitmap|
    decreases loop
  {
    if loop != 0 {
      SlotNext(before, |bitmap|);
      assert !bitmap[Slot(before + 1, |bitmap|)];
      Nothing(bitmap, before + 1, loop - 1);
    }
  }

  // What a search leaves of the bitmap.
  function Without(bitmap: seq<bool>, idx: nat): (r: seq<bool>)
    ensures |r| == |bitmap|
  {
    if idx < |bitmap| then bitmap[idx := false] else bitmap
  }

  function AllFreeBut(n: nat): seq<bool> {
    seq(n, i => i != 0)
  }

  lemma RingStarts(n: nat)
    requires 0 < n
    ensures Ringed(seq(n, i => false), AllFreeBut(n), 0, 0, 0, 0)
  {
    SlotSmall(0, n);
    forall i | 0 <= i < n
      ensures Slot(i, n) == i
    {
      SlotSmall(i, n);
    }
  }

  // A line has been received: its buffer becomes ready, and the next one is received into the
  // next buffer that is free, if there is one.
  lemma RingCompletes(ready: seq<bool>, free: seq<bool>, rx: nat, released: nat, taken: nat, completed: nat)
    requires Ringed(ready, free, rx, released, taken, completed) && rx < |ready|
    ensures var next := Search(free, rx, |free|);
            Ringed(ready[rx := true], Without(free, next), next, released, taken, completed + 1)
  {
    var n := |ready|;
    var next := Search(free, rx, n);
    forall i | completed < i <= completed + n
      ensures free[Slot(i, n)] == (completed + 1 <= i < released + n)
    {
      if released + n <= i {
        SlotWraps(i - n, n);
        assert free[Slot(i - n, n)] == (completed < i - n);
      }
    }
    SearchFindsLine(free, completed, n, completed + 1, released + n);
    forall i | released <= i < released + n
      ensures ready[rx := true][Slot(i, n)] == (taken <= i < completed + 1)
      ensures Without(free, next)[Slot(i, n)] == (completed + 1 < i)
    {
      Same(i, completed, n);
      if completed + 1 < released + n {
        Same(i, completed + 1, n);
      }
    }
  }

  // Two lines that are less than n apart are in the same buffer only if they are the same.
  lemma Same(i: nat, j: nat, n: nat)
    requires i < j + n && j < i + n
    ensures Slot(i, n) == Slot(j, n) <==> i == j
  {
    if i < j {
      SlotApart(i, j, n);
    } else if j < i {
      SlotApart(j, i, n);
    }
  }

  // The task takes the line that has been ready for the longest.
  lemma RingTakes(ready: seq<bool>, free: seq<bool>, rx: nat, taken: nat, completed: nat)
    requires Ringed(ready, free, rx, taken, taken, completed) && taken < completed
    ensures var idx := Search(ready, Slot(taken + |ready| - 1, |ready|), |ready|);
            idx == Slot(taken, |ready|) && Ringed(Without(ready, idx), free, rx, taken, taken + 1, completed)
  {
    var n := |ready|;
    forall i | taken + n - 1 < i <= taken + n - 1 + n
      ensures ready[Slot(i, n)] == (taken + n <= i < completed + n)
    {
      SlotWraps(i - n, n);
      assert ready[Slot(i - n, n)] == (taken <= i - n < completed);
    }
    SearchFindsLine(ready, taken + n - 1, n, taken + n, completed + n);
    SlotWraps(taken, n);
    forall i | taken <= i < taken + n
      ensures Without(ready, Slot(taken, n))[Slot(i, n)] == (taken + 1 <= i < completed)
    {
      Same(i, taken, n);
    }
  }

  // The task is done with a line: its buffer is used for receiving if there was none for that,
  // and otherwise becomes free.
  lemma RingReleases(ready: seq<bool>, free: seq<bool>, rx: nat, released: nat, completed: nat)
    requires Ringed(ready, free, rx, released, released + 1, completed)
    ensures var idx := Slot(released, |ready|);
            if rx == |ready| then
              Ringed(ready, free, idx, released + 1, released + 1, completed)
            else
              Ringed(ready, free[idx := true], rx, released + 1, released + 1, completed)
  {
    var n := |ready|;
    var idx := Slot(released, n);
    SlotWraps(released, n);
    assert !ready[idx];
    var free' := if rx == n then free else free[idx := true];
    forall i | released + 1 <= i < released + 1 + n
      ensures ready[Slot(i, n)] == (released + 1 <= i < completed)
      ensures free'[Slot(i, n)] == (completed < i)
    {
      if i < released + n {
        Same(i, released, n);
      }
    }
  }
}

module Consoles {
  import opened ConsoleRing

  // Where the task is in its loop: waiting for the semaphore, woken up, with a line taken,
  // with the line executed, and with the index of its buffer noted.
  datatype Phase = Waiting | Woken | Taken | Executed | Noted {
    predicate Holding() {
      Taken? || Executed? || Noted?
    }
  }

  datatype Step = Receive(line: Line, complete: bool) | Task

  class Console {
    const n: nat
    const buf: array<Line>
    const free: array<bool>
    const ready: array<bool>
    var lastCmdBufIdx: nat
    var rxBufIdx: nat
    var cmdSem: nat
    // The local state of the task.
    var phase: Phase
    var cmdBufIdx: nat

    // All lines that have been received and that have been executed, in order.
    ghost var arrived: seq<Line>
    ghost var executed: seq<Line>
    ghost var taken: nat

    // The number of buffers is a constant; an index and one more than the last index fit in a
    // byte.
    constructor (n: nat)
      requires 0 < n <= 255
      ensures Valid() && this.n == n && arrived == executed == [] && phase == Waiting
      ensures fresh(buf) && fresh(free) && fresh(ready)
    {
      this.n := n;
      var b := new Line[n];
      var f := new bool[n](i => true);
      f[0] := false;
      var r := new bool[n](i => false);
      buf, free, ready := b, f, r;
      lastCmdBufIdx, rxBufIdx, cmdSem := n - 1, 0, 0;
      phase, cmdBufIdx := Waiting, 0;
      arrived, executed, taken := [], [], 0;
      new;
      assert free[..] == AllFreeBut(n) && ready[..] == seq(n, i => false);
      RingStarts(n);
      SlotSmall(n - 1, n);
    }

    ghost function Released(): nat
      reads this
    {
      if phase.Holding() && 0 < taken then taken - 1 else taken
    }

    ghost predicate Valid()
      reads this, buf, free, ready
    {
      && 0 < n <= 255 && buf.Length == free.Length == ready.Length == n && free != ready
      && Ringed(ready[..], free[..], rxBufIdx, Released(), taken, |arrived|)
      && Counted()
      && Kept(buf[..], Released(), arrived)
    }

    // The semaphore counts the lines that are ready, but for the one the task was woken up for.
    ghost predicate Counted()
      requires 0 < n
      reads this
    {
      && cmdSem + taken + (if phase.Woken? then 1 else 0) == |arrived|
      && (phase.Holding() ==> 0 < taken && cmdBufIdx == Slot(taken - 1, n))
      && lastCmdBufIdx == (if phase.Taken? || phase.Executed? then Slot(Before(taken, n), n) else Slot(taken + n - 1, n))
      && taken <= |arrived|
      && executed == arrived[..if phase.Taken? && 0 < taken then taken - 1 else taken]
    }

    // Between interrupts and steps of the task: the semaphore counts exactly the buffers that
    // are ready, lines have been executed once each and in the order they arrived, and those
    // that have not been executed are as they arrived.
    lemma Promises()
      requires Valid()
      ensures executed <= arrived && |arrived| <= |executed| + n
      ensures Count(ready[..]) == |arrived| - taken
      ensures cmdSem == Count(ready[..]) - if phase.Woken? then 1 else 0
      ensures phase == Waiting && cmdSem == 0 ==> executed == arrived
      ensures phase.Holding() ==> 0 < taken <= |arrived| && cmdBufIdx < n && buf[cmdBufIdx] == arrived[taken - 1]
      ensures rxBufIdx == n <==> |arrived| == Released() + n
    {
      CountLines(ready[..], Released(), taken, |arrived|);
      if phase.Holding() {
        assert buf[..][Slot(taken - 1, n)] == arrived[taken - 1];
      }
    }

    // Looks for the next buffer in a bitmap, and takes it out.
    method GetValidBufIdx(bitmap: array<bool>, lastIdx: nat) returns (idx: nat)
      requires lastIdx < bitmap.Length == n
      modifies bitmap
      ensures idx == Search(old(bitmap[..]), lastIdx, n)
      ensures bitmap[..] == Without(old(bitmap[..]), idx)
    {
      var loop: nat := n;
      idx := lastIdx;
      while 0 < loop
        invariant idx < n && loop <= n && bitmap[..] == old(bitmap[..])
        invariant Search(old(bitmap[..]), lastIdx, n) == Search(old(bitmap[..]), idx, loop)
      {
        idx := (idx + 1) % n;
        if bitmap[idx] {
          bitmap[idx] := false;
          return;
        }
        loop := loop - 1;
      }
      return n;
    }

    // The line in the receive buffer is complete.
    method RxCmdline()
      requires Valid() && rxBufIdx != n
      modifies this`rxBufIdx, this`cmdSem, this`arrived, free, ready
      ensures Valid() && arrived == old(arrived) + [buf[old(rxBufIdx)]]
    {
      RingCompletes(ready[..], free[..], rxBufIdx, Released(), taken, |arrived|);
      ghost var line := buf[rxBufIdx];
      OneMore(buf[..], Released(), arrived, rxBufIdx);
      assert (arrived + [line])[..|executed|] == arrived[..|executed|];
      hide Ringed, Kept, Search, Slot, Before, Without;
      ready[rxBufIdx] := true;
      rxBufIdx := GetValidBufIdx(free, rxBufIdx);
      cmdSem := cmdSem + 1;
      arrived := arrived + [line];
    }

    // The interrupt puts what it receives into the receive buffer, or throws it away when
    // there is none.
    method RxCallback(line: Line, complete: bool)
      requires Valid()
      modifies this`rxBufIdx, this`cmdSem, this`arrived, buf, free, ready
      ensures Valid() && arrived == old(arrived) + if complete && old(rxBufIdx) != n then [line] else []
    {
      if rxBufIdx != n {
        Untouched(buf[..], ready[..], free[..], rxBufIdx, Released(), taken, arrived, line);
        hide Ringed, Kept;
        buf[rxBufIdx] := line;
        if complete {
          RxCmdline();
        }
      }
    }

    method TaskStep()
      requires Valid()
      modifies this, free, ready
      ensures Valid() && arrived == old(arrived) && old(executed) <= executed
      ensures old(Idle()) ==> unchanged(this) && unchanged(free) && unchanged(ready)
      ensures !old(Idle()) ==> Work() < old(Work())
    {
      Promises();
      hide Ringed, Kept, Valid;
      match phase
      case Waiting =>
        SemaphoreWait();
      case Woken =>
        Take();
      case Taken =>
        Execute();
      case Executed =>
        NoteIndex();
      case Noted =>
        Release();
    }

    // With interrupts disabled, the task takes a buffer that is ready. There always is one.
    method Take()
      requires Valid() && phase == Woken
      modifies this`phase, this`cmdBufIdx, this`taken, ready
      ensures Valid() && phase == Taken && taken == old(taken) + 1
    {
      RingTakes(ready[..], free[..], rxBufIdx, taken, |arrived|);
      hide Ringed, Kept;
      var idx := GetValidBufIdx(ready, lastCmdBufIdx);
      if idx != n {
        cmdBufIdx, phase, taken := idx, Taken, taken + 1;
      } else {
        assert false;
      }
    }

    // Goes on only when the count is not 0.
    method SemaphoreWait()
      requires Valid() && phase == Waiting
      modifies this`phase, this`cmdSem
      ensures Valid() && if old(cmdSem) == 0 then unchanged(this) else phase == Woken && cmdSem == old(cmdSem) - 1
    {
      hide Ringed, Kept;
      if 0 < cmdSem {
        cmdSem, phase := cmdSem - 1, Woken;
      }
    }

    method NoteIndex()
      requires Valid() && phase == Executed
      modifies this`phase, this`lastCmdBufIdx
      ensures Valid() && phase == Noted && lastCmdBufIdx == cmdBufIdx
    {
      Promises();
      SlotWraps(taken - 1, n);
      hide Ringed, Kept;
      lastCmdBufIdx, phase := cmdBufIdx, Noted;
    }

    method Execute()
      requires Valid() && phase == Taken
      modifies this`phase, this`executed
      ensures Valid() && phase == Executed && executed == old(executed) + [buf[cmdBufIdx]]
    {
      Promises();
      hide Ringed, Kept;
      assert arrived[..taken] == arrived[..taken - 1] + [arrived[taken - 1]];
      executed, phase := executed + [buf[cmdBufIdx]], Executed;
    }

    // With interrupts disabled, the task gives its buffer back.
    method Release()
      requires Valid() && phase == Noted
      modifies this`phase, this`rxBufIdx, free
      ensures Valid() && phase == Waiting
    {
      RingReleases(ready[..], free[..], rxBufIdx, Released(), |arrived|);
      Shorter(buf[..], Released(), arrived);
      hide Ringed, Kept;
      if rxBufIdx == n {
        rxBufIdx := cmdBufIdx;
      } else {
        free[cmdBufIdx] := true;
      }
      phase := Waiting;
    }

    predicate Idle()
      reads this
    {
      phase == Waiting && cmdSem == 0
    }

    // How many steps the task has to go.
    ghost function Work(): int
      reads this
    {
      5 * (|arrived| - taken) + match phase case Waiting => 0 case Woken => -1 case Taken => 3 case Executed => 2 case Noted => 1
    }

    // Interrupts and steps of the task in any order. What is lost is only what is received
    // while no buffer is left for it.
    method Run(schedule: seq<Step>)
      requires Valid()
      modifies this, buf, free, ready
      ensures Valid() && old(arrived) <= arrived && old(executed) <= executed <= arrived
    {
      for i := 0 to |schedule|
        invariant Valid() && old(arrived) <= arrived && old(executed) <= executed
      {
        match schedule[i]
        case Receive(line, complete) => RxCallback(line, complete);
        case Task => TaskStep();
      }
      Promises();
    }

    // Left alone, the task executes all that has arrived, and waits again.
    method Drain()
      requires Valid()
      modifies this, free, ready
      ensures Valid() && Idle() && executed == arrived == old(arrived)
    {
      while !Idle()
        invariant Valid() && arrived == old(arrived)
        decreases Work()
      {
        Promises();
        TaskStep();
      }
      Promises();
    }
  }

  ghost function Before(taken: nat, n: nat): nat
    requires 0 < n
  {
    if taken + n < 2 then 0 else taken + n - 2
  }

  // The buffers of the lines from the given one on hold them.
  ghost predicate Kept(buf: seq<Line>, from: nat, arrived: seq<Line>) {
    0 < |buf| && forall i :: from <= i < |arrived| ==> buf[Slot(i, |buf|)] == arrived[i]
  }

  lemma OneMore(buf: seq<Line>, from: nat, arrived: seq<Line>, idx: nat)
    requires Kept(buf, from, arrived) && idx < |buf| && idx == Slot(|arrived|, |buf|)
    ensures Kept(buf, from, arrived + [buf[idx]])
  {
  }

  lemma Shorter(buf: seq<Line>, from: nat, arrived: seq<Line>)
    requires Kept(buf, from, arrived)
    ensures Kept(buf, from + 1, arrived)
  {
  }

  // Receiving does not touch a line that has arrived and is still needed.
  lemma Untouched(buf: seq<Line>, ready: seq<bool>, free: seq<bool>, rx: nat, released: nat, taken: nat, arrived: seq<Line>, line: Line)
    requires Ringed(ready, free, rx, released, taken, |arrived|) && |buf| == |ready| && rx < |buf|
    requires Kept(buf, released, arrived)
    ensures Kept(buf[rx := line], released, arrived)
  {
    forall i | released <= i < |arrived|
      ensures buf[rx := line][Slot(i, |buf|)] == arrived[i]
    {
      Same(i, |arrived|, |buf|);
    }
  }
}
