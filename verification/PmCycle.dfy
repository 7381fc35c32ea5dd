// What one cycle of suspending, sleeping and resuming calls, for every answer that the
// drivers, the platform and the tests can give.
module PmCycle {

  // Devices are suspended a first time with interrupts on, and again with interrupts off.
  datatype Phase = Normal | Noirq

  // Calls of device callbacks, how the suspending ones came out, and calls of the platform.
  datatype Event =
    | Suspended(phase: Phase, dev: nat) | Refused(phase: Phase, dev: nat) | Resumed(phase: Phase, dev: nat)
    | Begun | Prepared | Entered | Woken | Ended

  // Where a cycle is to turn back for a test.
  datatype TestLevel = NoTest | TestDevices | TestPlatform | TestCore

  // Everything that the code asks others: whether the state may be entered at all, whether
  // begin and prepare succeed, which devices refuse in which phase, which ones come back with
  // interrupts on, which ones see a wake-up after them, and whether there is one before the
  // noirq phase or at its end.
  datatype Answers = Answers(
    allowed: bool, begins: bool, refusing: set<nat>, test: TestLevel, prepares: bool, wakeupFirst: bool,
    refusingNoirq: set<nat>, unmasking: set<nat>, waking: set<nat>, wakeupLast: bool)

  function Reverse<T>(s: seq<T>): (r: seq<T>)
    ensures |r| == |s|
  {
    if s == [] then [] else Reverse(s[1..]) + [s[0]]
  }

  lemma {:induction false} ReverseAppend<T>(s: seq<T>, x: T)
    ensures Reverse(s + [x]) == [x] + Reverse(s)
    decreases |s|
  {
    if s == [] {
      assert [x][1..] == [];
      assert Reverse([x]) == [x];
    } else {
      assert (s + [x])[1..] == s[1..] + [x];
      ReverseAppend(s[1..], x);
    }
  }

  lemma {:induction false} ReverseTwice<T>(s: seq<T>)
    ensures Reverse(Reverse(s)) == s
    decreases |s|
  {
    if s != [] {
      ReverseAppend(Reverse(s[1..]), s[0]);
      ReverseTwice(s[1..]);
    }
  }

  /* ---- The calls ---- */

  function Suspends(phase: Phase): nat -> Event {
    (d: nat) => Suspended(phase, d)
  }

  function Resumes(phase: Phase): nat -> Event {
    (d: nat) => Resumed(phase, d)
  }

  // A call for each device.
  function Calls(call: nat -> Event, devs: seq<nat>): (r: seq<Event>)
    ensures |r| == |devs|
  {
    seq(|devs|, i requires 0 <= i < |devs| => call(devs[i]))
  }

  // The first of devs that is in s.
  function FirstIn(devs: seq<nat>, s: set<nat>): (r: nat)
    ensures r <= |devs| && (r < |devs| ==> devs[r] in s)
    ensures forall i :: 0 <= i < r ==> devs[i] !in s
  {
    if devs == [] || devs[0] in s then 0 else 1 + FirstIn(devs[1..], s)
  }

  lemma FirstInIs(devs: seq<nat>, s: set<nat>, n: nat)
    requires n <= |devs| && (forall i :: 0 <= i < n ==> devs[i] !in s) && (n < |devs| ==> devs[n] in s)
    ensures FirstIn(devs, s) == n
  {
    var r := FirstIn(devs, s);
    if r < n {
    } else if n < r {
    }
  }

  // Devices suspend in their order until one refuses.
  function SuspendCalls(normal: seq<nat>, a: Answers): seq<Event> {
    var n := FirstIn(normal, a.refusing);
    Calls(Suspends(Normal), normal[..n]) + if n < |normal| then [Refused(Normal, normal[n])] else []
  }

  // The device at which the noirq phase stops. One that refuses, or comes back with interrupts
  // on, has not suspended; one that is followed by a wake-up has.
  function StopAt(late: seq<nat>, a: Answers): (r: nat)
    ensures r <= |late|
  {
    FirstIn(late, a.refusingNoirq + a.unmasking + a.waking)
  }

  predicate Stays(dev: nat, a: Answers) {
    dev in a.refusingNoirq + a.unmasking
  }

  function NoirqCount(late: seq<nat>, a: Answers): (n: nat)
    ensures n <= |late|
  {
    var i := StopAt(late, a);
    if i < |late| && !Stays(late[i], a) then i + 1 else i
  }

  // A device that comes back with interrupts on stops the phase without an error.
  predicate NoirqFails(late: seq<nat>, a: Answers) {
    var i := StopAt(late, a);
    i < |late| && (late[i] in a.refusingNoirq || late[i] !in a.unmasking)
  }

  function NoirqSuspendCalls(late: seq<nat>, a: Answers): seq<Event> {
    var i := StopAt(late, a);
    Calls(Suspends(Noirq), late[..NoirqCount(late, a)]) + if i < |late| && Stays(late[i], a) then [Refused(Noirq, late[i])] else []
  }

  // The platform sleeps unless a test or a wake-up turns it back at the last moment.
  function SleepCalls(a: Answers): seq<Event> {
    if a.test == TestPlatform || a.test == TestCore || a.wakeupLast then [Woken] else [Entered, Woken]
  }

  function InnerCalls(late: seq<nat>, a: Answers): seq<Event> {
    if !a.prepares || a.wakeupFirst then
      [Prepared]
    else
      [Prepared] + NoirqSuspendCalls(late, a)
      + (if NoirqFails(late, a) || a.test == TestDevices then [] else SleepCalls(a))
      + Calls(Resumes(Noirq), Reverse(late[..NoirqCount(late, a)]))
  }

  function CycleCalls(normal: seq<nat>, late: seq<nat>, a: Answers): seq<Event> {
    if !a.allowed then []
    else if !a.begins then [Begun, Ended]
    else
      var n := FirstIn(normal, a.refusing);
      [Begun] + SuspendCalls(normal, a)
      + (if n < |normal| || a.test == TestDevices then [] else InnerCalls(late, a))
      + Calls(Resumes(Normal), Reverse(normal[..n])) + [Ended]
  }

  /* ---- Who is suspended and resumed, and in what order ---- */

  // The devices that have suspended in a phase, in the order of the calls.
  function SuspendedIn(calls: seq<Event>, phase: Phase): seq<nat> {
    if calls == [] then []
    else (if calls[0].Suspended? && calls[0].phase == phase then [calls[0].dev] else []) + SuspendedIn(calls[1..], phase)
  }

  function ResumedIn(calls: seq<Event>, phase: Phase): seq<nat> {
    if calls == [] then []
    else (if calls[0].Resumed? && calls[0].phase == phase then [calls[0].dev] else []) + ResumedIn(calls[1..], phase)
  }

  lemma {:induction false} InAppend(a: seq<Event>, b: seq<Event>, phase: Phase)
    ensures SuspendedIn(a + b, phase) == SuspendedIn(a, phase) + SuspendedIn(b, phase)
    ensures ResumedIn(a + b, phase) == ResumedIn(a, phase) + ResumedIn(b, phase)
    decreases a
  {
    if a == [] {
      assert a + b == b;
    } else {
      assert (a + b)[1..] == a[1..] + b;
      InAppend(a[1..], b, phase);
    }
  }

  lemma InParts(a: seq<Event>, b: seq<Event>, c: seq<Event>, d: seq<Event>, phase: Phase)
    ensures SuspendedIn(a + b + c + d, phase) == SuspendedIn(a, phase) + SuspendedIn(b, phase) + SuspendedIn(c, phase) + SuspendedIn(d, phase)
    ensures ResumedIn(a + b + c + d, phase) == ResumedIn(a, phase) + ResumedIn(b, phase) + ResumedIn(c, phase) + ResumedIn(d, phase)
  {
    hide SuspendedIn, ResumedIn;
    InAppend(a, b, phase);
    InAppend(a + b, c, phase);
    InAppend(a + b + c, d, phase);
  }

  lemma {:induction false} InCalls(devs: seq<nat>, phase: Phase, phase': Phase)
    ensures SuspendedIn(Calls(Suspends(phase), devs), phase') == (if phase == phase' then devs else [])
    ensures ResumedIn(Calls(Suspends(phase), devs), phase') == []
    ensures ResumedIn(Calls(Resumes(phase), devs), phase') == (if phase == phase' then devs else [])
    ensures SuspendedIn(Calls(Resumes(phase), devs), phase') == []
    decreases devs
  {
    if devs != [] {
      InCalls(devs[1..], phase, phase');
      assert Calls(Suspends(phase), devs)[1..] == Calls(Suspends(phase), devs[1..]);
      assert Calls(Resumes(phase), devs)[1..] == Calls(Resumes(phase), devs[1..]);
    }
  }

  lemma InOne(e: Event, phase: Phase)
    ensures SuspendedIn([e], phase) == if e.Suspended? && e.phase == phase then [e.dev] else []
    ensures ResumedIn([e], phase) == if e.Resumed? && e.phase == phase then [e.dev] else []
  {
  }

  lemma InSuspend(normal: seq<nat>, a: Answers, phase: Phase)
    ensures SuspendedIn(SuspendCalls(normal, a), phase) == if phase == Normal then normal[..FirstIn(normal, a.refusing)] else []
    ensures ResumedIn(SuspendCalls(normal, a), phase) == []
  {
    hide Calls, SuspendedIn, ResumedIn;
    var n := FirstIn(normal, a.refusing);
    InCalls(normal[..n], Normal, phase);
    if n < |normal| {
      InAppend(Calls(Suspends(Normal), normal[..n]), [Refused(Normal, normal[n])], phase);
      InOne(Refused(Normal, normal[n]), phase);
    } else {
      assert Calls(Suspends(Normal), normal[..n]) + [] == Calls(Suspends(Normal), normal[..n]);
    }
  }

  lemma InNoirq(late: seq<nat>, a: Answers, phase: Phase)
    ensures SuspendedIn(NoirqSuspendCalls(late, a), phase) == if phase == Noirq then late[..NoirqCount(late, a)] else []
    ensures ResumedIn(NoirqSuspendCalls(late, a), phase) == []
  {
    hide Calls, SuspendedIn, ResumedIn, StopAt, NoirqCount;
    var i, n := StopAt(late, a), NoirqCount(late, a);
    InCalls(late[..n], Noirq, phase);
    if i < |late| && Stays(late[i], a) {
      InAppend(Calls(Suspends(Noirq), late[..n]), [Refused(Noirq, late[i])], phase);
      InOne(Refused(Noirq, late[i]), phase);
    } else {
      assert Calls(Suspends(Noirq), late[..n]) + [] == Calls(Suspends(Noirq), late[..n]);
    }
  }

  lemma InSleep(late: seq<nat>, a: Answers, phase: Phase)
    ensures var calls := if NoirqFails(late, a) || a.test == TestDevices then [] else SleepCalls(a);
            SuspendedIn(calls, phase) == [] && ResumedIn(calls, phase) == []
  {
    assert [Entered, Woken] == [Entered] + [Woken];
    InAppend([Entered], [Woken], phase);
  }

  lemma InInner(late: seq<nat>, a: Answers, phase: Phase)
    ensures var done := if phase == Noirq && a.prepares && !a.wakeupFirst then late[..NoirqCount(late, a)] else [];
            && SuspendedIn(InnerCalls(late, a), phase) == done
            && ResumedIn(InnerCalls(late, a), phase) == Reverse(done)
  {
    hide Calls, SuspendedIn, ResumedIn, NoirqCount, NoirqFails, NoirqSuspendCalls, SleepCalls;
    InOne(Prepared, phase);
    if a.prepares && !a.wakeupFirst {
      var first := NoirqSuspendCalls(late, a);
      var middle := if NoirqFails(late, a) || a.test == TestDevices then [] else SleepCalls(a);
      var back := Reverse(late[..NoirqCount(late, a)]);
      InNoirq(late, a, phase);
      InSleep(late, a, phase);
      InCalls(back, Noirq, phase);
      InParts([Prepared], first, middle, Calls(Resumes(Noirq), back), phase);
    }
  }

  // Whoever refuses and whatever else goes wrong: in either phase the devices that have
  // suspended are resumed, once each and the last one first, and no other device is.
  lemma ResumedIsReverse(normal: seq<nat>, late: seq<nat>, a: Answers, phase: Phase)
    ensures var calls := CycleCalls(normal, late, a);
            ResumedIn(calls, phase) == Reverse(SuspendedIn(calls, phase))
    ensures SuspendedIn(CycleCalls(normal, late, a), phase) <= if phase == Normal then normal else late
    ensures a.allowed && a.begins ==>
              SuspendedIn(CycleCalls(normal, late, a), Normal) == normal[..FirstIn(normal, a.refusing)]
  {
    if a.allowed && a.begins {
      InCycle(normal, late, a, phase);
      InCycle(normal, late, a, Normal);
    } else {
      InOne(Begun, phase);
      InOne(Ended, phase);
      assert [Begun, Ended] == [Begun] + [Ended];
      InAppend([Begun], [Ended], phase);
    }
  }

  ghost predicate GoesIn(normal: seq<nat>, a: Answers) {
    a.allowed && a.begins && FirstIn(normal, a.refusing) == |normal| && a.test != TestDevices
  }

  lemma InCycle(normal: seq<nat>, late: seq<nat>, a: Answers, phase: Phase)
    requires a.allowed && a.begins
    ensures var done := if phase == Normal then normal[..FirstIn(normal, a.refusing)]
                        else if GoesIn(normal, a) && a.prepares && !a.wakeupFirst then late[..NoirqCount(late, a)] else [];
            var calls := CycleCalls(normal, late, a);
            SuspendedIn(calls, phase) == done && ResumedIn(calls, phase) == Reverse(done)
  {
    hide Calls, SuspendedIn, ResumedIn, NoirqCount, SuspendCalls, InnerCalls, FirstIn, Reverse;
    var n := FirstIn(normal, a.refusing);
    var first, back := SuspendCalls(normal, a), Reverse(normal[..n]);
    var middle := if n < |normal| || a.test == TestDevices then [] else InnerCalls(late, a);
    InOne(Begun, phase);
    InOne(Ended, phase);
    InSuspend(normal, a, phase);
    InInner(late, a, phase);
    InCalls(back, Normal, phase);
    NoneIn(phase);
    InParts([Begun], first, middle, Calls(Resumes(Normal), back), phase);
    InAppend([Begun] + first + middle + Calls(Resumes(Normal), back), [Ended], phase);
  }

  lemma NoneIn(phase: Phase)
    ensures SuspendedIn([], phase) == [] && ResumedIn([], phase) == []
  {
  }

  /* ---- When the system sleeps ---- */

  // Nobody objects. Behind a device that comes back with interrupts on nobody is asked.
  ghost predicate NothingObjects(normal: seq<nat>, late: seq<nat>, a: Answers) {
    && a.allowed && a.begins && (forall i :: 0 <= i < |normal| ==> normal[i] !in a.refusing)
    && a.test == NoTest && a.prepares && !a.wakeupFirst && !a.wakeupLast
    && (forall i :: 0 <= i < |late| && late[i] in a.refusingNoirq + a.waking ==> CutShort(late, a, i))
  }

  ghost predicate CutShort(late: seq<nat>, a: Answers, i: nat)
    requires i < |late|
  {
    exists j :: 0 <= j <= i && late[j] in a.unmasking && late[j] !in a.refusingNoirq
                && (forall k :: 0 <= k < j ==> late[k] !in a.refusingNoirq + a.waking)
  }

  lemma NoirqFailsIff(late: seq<nat>, a: Answers)
    ensures !NoirqFails(late, a) <==> forall i :: 0 <= i < |late| && late[i] in a.refusingNoirq + a.waking ==> CutShort(late, a, i)
  {
    var n := StopAt(late, a);
    if !NoirqFails(late, a) {
      forall i | 0 <= i < |late| && late[i] in a.refusingNoirq + a.waking
        ensures CutShort(late, a, i)
      {
        assert n <= i;
        assert late[n] in a.unmasking && late[n] !in a.refusingNoirq;
      }
    } else if late[n] in a.refusingNoirq + a.waking {
      assert forall j :: 0 <= j < n ==> late[j] !in a.unmasking;
      assert !CutShort(late, a, n);
    }
  }

  lemma NotInCalls(call: nat -> Event, devs: seq<nat>, e: Event)
    requires forall d :: call(d) != e
    ensures e !in Calls(call, devs)
  {
  }

  // The platform is put to sleep just when nobody objects.
  lemma SleepsIff(normal: seq<nat>, late: seq<nat>, a: Answers)
    ensures Entered in CycleCalls(normal, late, a) <==> NothingObjects(normal, late, a)
  {
    var n := FirstIn(normal, a.refusing);
    NoirqFailsIff(late, a);
    assert n == |normal| <==> forall i :: 0 <= i < |normal| ==> normal[i] !in a.refusing;
    NotInCalls(Suspends(Normal), normal[..n], Entered);
    NotInCalls(Resumes(Normal), Reverse(normal[..n]), Entered);
    NotInCalls(Suspends(Noirq), late[..NoirqCount(late, a)], Entered);
    NotInCalls(Resumes(Noirq), Reverse(late[..NoirqCount(late, a)]), Entered);
    hide Calls, NoirqFails, StopAt, CutShort, Reverse, FirstIn, NoirqCount;
  }

  // While the system sleeps all devices have suspended with interrupts on. They have all
  // suspended with interrupts off too just when none of them comes back with interrupts on.
  lemma AllAsleepIff(normal: seq<nat>, late: seq<nat>, a: Answers)
    requires Entered in CycleCalls(normal, late, a)
    ensures SuspendedIn(CycleCalls(normal, late, a), Normal) == normal
    ensures SuspendedIn(CycleCalls(normal, late, a), Noirq) == late <==> forall i :: 0 <= i < |late| ==> late[i] !in a.unmasking
  {
    SleepsIff(normal, late, a);
    InCycle(normal, late, a, Normal);
    InCycle(normal, late, a, Noirq);
    NoirqFailsIff(late, a);
    var n := NoirqCount(late, a);
    assert late[..|late|] == late && normal[..|normal|] == normal;
    if n < |late| {
      assert |late[..n]| == n;
    }
  }

  // Two devices of which the first one comes back with interrupts on: the system sleeps, and
  // neither of them has suspended with interrupts off.
  lemma AsleepUnprepared()
    ensures var a := Answers(true, true, {}, NoTest, true, false, {}, {0}, {}, false);
            var calls := CycleCalls([], [0, 1], a);
            Entered in calls && SuspendedIn(calls, Noirq) == []
  {
    var a := Answers(true, true, {}, NoTest, true, false, {}, {0}, {}, false);
    assert [0, 1][0] in a.unmasking;
    assert StopAt([0, 1], a) == 0;
    SleepsIff([], [0, 1], a);
    NoirqFailsIff([0, 1], a);
    InCycle([], [0, 1], a, Noirq);
  }

  // The platform is told at once when it has woken up.
  ghost predicate WokenAtOnce(calls: seq<Event>) {
    forall i :: 0 <= i < |calls| && calls[i] == Entered ==> i + 1 < |calls| && calls[i + 1] == Woken
  }

  lemma WokenJoins(a: seq<Event>, b: seq<Event>)
    requires WokenAtOnce(a) && WokenAtOnce(b)
    ensures WokenAtOnce(a + b)
  {
    forall i | 0 <= i < |a + b| && (a + b)[i] == Entered
      ensures i + 1 < |a + b| && (a + b)[i + 1] == Woken
    {
      if i < |a| {
        assert a[i] == Entered;
      } else {
        assert b[i - |a|] == Entered;
      }
    }
  }

  lemma WokenParts(a: seq<Event>, b: seq<Event>, c: seq<Event>, d: seq<Event>)
    requires WokenAtOnce(a) && WokenAtOnce(b) && WokenAtOnce(c) && WokenAtOnce(d)
    ensures WokenAtOnce(a + b + c + d)
  {
    hide WokenAtOnce;
    WokenJoins(a, b);
    WokenJoins(a + b, c);
    WokenJoins(a + b + c, d);
  }

  lemma NoEnter(calls: seq<Event>)
    requires Entered !in calls
    ensures WokenAtOnce(calls)
  {
  }

  lemma InnerWoken(late: seq<nat>, a: Answers)
    ensures WokenAtOnce(InnerCalls(late, a))
  {
    var n := NoirqCount(late, a);
    NotInCalls(Suspends(Noirq), late[..n], Entered);
    NotInCalls(Resumes(Noirq), Reverse(late[..n]), Entered);
    hide Calls, NoirqFails, StopAt, Reverse, FirstIn, NoirqCount;
    NoEnter(NoirqSuspendCalls(late, a));
    NoEnter(Calls(Resumes(Noirq), Reverse(late[..n])));
    var sleep := if NoirqFails(late, a) || a.test == TestDevices then [] else SleepCalls(a);
    hide NoirqSuspendCalls;
    if a.prepares && !a.wakeupFirst {
      WokenParts([Prepared], NoirqSuspendCalls(late, a), sleep, Calls(Resumes(Noirq), Reverse(late[..n])));
    }
  }

  // And it is told at the end when the cycle is over.
  lemma WokenBehindEntered(normal: seq<nat>, late: seq<nat>, a: Answers)
    ensures var calls := CycleCalls(normal, late, a);
            WokenAtOnce(calls) && (a.allowed ==> calls[|calls| - 1] == Ended)
  {
    var n := FirstIn(normal, a.refusing);
    InnerWoken(late, a);
    NotInCalls(Suspends(Normal), normal[..n], Entered);
    NotInCalls(Resumes(Normal), Reverse(normal[..n]), Entered);
    hide Calls, Reverse, FirstIn, InnerCalls;
    NoEnter(SuspendCalls(normal, a));
    NoEnter(Calls(Resumes(Normal), Reverse(normal[..n])));
    var inner := if n < |normal| || a.test == TestDevices then [] else InnerCalls(late, a);
    hide SuspendCalls;
    WokenParts([Begun], SuspendCalls(normal, a), inner, Calls(Resumes(Normal), Reverse(normal[..n])));
    WokenJoins([Begun] + SuspendCalls(normal, a) + inner + Calls(Resumes(Normal), Reverse(normal[..n])), [Ended]);
  }
}
