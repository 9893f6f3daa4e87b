/**
 * The camera unit tests' command sequences (TestInstructorCamera*.cs) run on the model: each
 * method starts as the tests' `SetUp` does, with a cut to P0T2C01, issues the commands and
 * states the containers and the transition list the test checks right after them. The
 * waits, which depend on the per-frame completion update, are not part of these.
 */
module InstructorTests {
  import opened Instructors

  // The test transitions, P<priority>T<time>C<variant>; P1T1C10 and P1T2C11 are two more
  // zone-1 transitions in the same scheme, for the full-list case below.
  const P0T1C00 := Transition("P0T1C00", NoPriority, 1.0)
  const P0T2C01 := Transition("P0T2C01", NoPriority, 2.0)
  const P0T1C10 := Transition("P0T1C10", NoPriority, 1.0)
  const P0T2C11 := Transition("P0T2C11", NoPriority, 2.0)
  const P1T1C00 := Transition("P1T1C00", Zone1, 1.0)
  const P1T2C01 := Transition("P1T2C01", Zone1, 2.0)
  const P1T1C10 := Transition("P1T1C10", Zone1, 1.0)
  const P1T2C11 := Transition("P1T2C11", Zone1, 2.0)
  const P2T1C00 := Transition("P2T1C00", Zone2, 1.0)
  const P2T2C01 := Transition("P2T2C01", Zone2, 2.0)

  /** A record heading for t, as `AddTransition` lists it. */
  function Heads(t: Transition): (e: Info)
    ensures e.container == t && e.priority == t.priority && e.release == NoPriority
  {
    NewInfo(t, t.priority, t.time, NoPriority)
  }

  /** A record heading back to t while releasing r's priority, as `ReleasePriority` lists it. */
  function Back(t: Transition, r: Transition): (e: Info)
    ensures e.container == t && e.priority == t.priority && e.release == r.priority
  {
    NewInfo(t, t.priority, r.time, r.priority)
  }

  /** The camera holds containers c, pending records l and priority p. */
  ghost predicate Holds(cam: InstructorProcessor, c: seq<Option<Transition>>, l: seq<Info>, p: Priority)
    reads cam, cam.containers, cam.slots
  {
    cam.Valid() && cam.containers[..] == c && cam.List() == l && cam.priority == p
  }

  /** What `Check.Transitions` compares: the container of each slot, or null. */
  function Heading(s: seq<Option<Info>>): (r: seq<Option<Transition>>)
    ensures |r| == |s|
    ensures forall i :: 0 <= i < |s| ==> (r[i].Some? <==> s[i].Some?)
    ensures forall i :: 0 <= i < |s| && s[i].Some? ==> r[i] == Some(s[i].value.container)
  {
    if s == [] then []
    else Heading(s[..|s| - 1]) + [if s[|s| - 1].Some? then Some(s[|s| - 1].value.container) else None]
  }

  /** A cut at p drops records of priority p that release nothing, and they leave the
      containers as they are. */
  lemma {:induction false} CutAllSameKeeps(c: seq<Option<Transition>>, l: seq<Info>, p: Priority)
    requires |c| == PriorityCount
    requires forall i :: 0 <= i < |l| ==> l[i].priority == p && l[i].release == NoPriority
    ensures CutAll(c, l, p) == c && Above(l, p) == []
  {
    if l != [] {
      CutAllSameKeeps(c, l[..|l| - 1], p);
    }
  }

  /** `AddTransition` of a t that nothing above its priority gets in the way of: it is
      appended to the list. */
  method Listing(cam: InstructorProcessor, t: Transition)
    requires cam.Valid() && |cam.List()| < MaxCount
    requires !Repeats(cam.containers[..], cam.List(), t) && HigherReleased(cam.containers[..], cam.List(), t.priority)
    modifies cam, cam.containers, cam.slots
    ensures cam.Valid() && cam.List() == old(cam.List()) + [Heads(t)]
    ensures cam.containers[..] == old(cam.containers[..]) && cam.priority == old(cam.priority)
  {
    var ok := cam.AddTransition(t);
  }

  /** The tests' `SetUp`: a fresh camera with a cut to P0T2C01. */
  method SetUp() returns (cam: InstructorProcessor)
    ensures fresh(cam) && fresh(cam.containers) && fresh(cam.slots)
    ensures Holds(cam, [Some(P0T2C01), None, None, None], [], NoPriority)
  {
    cam := new InstructorProcessor();
    cam.AddCut(P0T2C01);
  }

  /** `SetInitialContainerState(P0T2C01, P1T1C00, null, null)`: zone 1 installed and active. */
  method Zone1Cut() returns (cam: InstructorProcessor)
    ensures fresh(cam) && fresh(cam.containers) && fresh(cam.slots)
    ensures Holds(cam, [Some(P0T2C01), Some(P1T1C00), None, None], [], Zone1)
  {
    cam := SetUp();
    cam.AddCut(P0T2C01);
    cam.AddCut(P1T1C00);
  }

  /** Then `ReleaseT[P1T1C00]`: a record heads back to zone 0. */
  method Zone1CutReleased() returns (cam: InstructorProcessor)
    ensures fresh(cam) && fresh(cam.containers) && fresh(cam.slots)
    ensures Holds(cam, [Some(P0T2C01), Some(P1T1C00), None, None], [Back(P0T2C01, P1T1C00)], Zone1)
  {
    cam := Zone1Cut();
    var ok0 := cam.ReleasePriority(P1T1C00);
  }

  /** `SetInitialTransitionState(P1T1C00, ...)`: a zone-1 transition pending. */
  method Zone1Pending() returns (cam: InstructorProcessor)
    ensures fresh(cam) && fresh(cam.containers) && fresh(cam.slots)
    ensures Holds(cam, [Some(P0T2C01), None, None, None], [Heads(P1T1C00)], NoPriority)
  {
    cam := SetUp();
    var ok0 := cam.AddTransition(P1T1C00);
  }

  /** Then `Transition[P0T1C00]`: inserted before the zone-1 record. */
  method Zone0Inserted() returns (cam: InstructorProcessor)
    ensures fresh(cam) && fresh(cam.containers) && fresh(cam.slots)
    ensures Holds(cam, [Some(P0T2C01), None, None, None], [Heads(P0T1C00), Heads(P1T1C00)], NoPriority)
  {
    cam := Zone1Pending();
    var ok0 := cam.AddTransition(P0T1C00);
  }

  /** Then `ReleaseT[P1T1C00]`: the release heads back to P0T1C00, the last zone-0 container listed. */
  method Zone1Released() returns (cam: InstructorProcessor)
    ensures fresh(cam) && fresh(cam.containers) && fresh(cam.slots)
    ensures Holds(cam, [Some(P0T2C01), None, None, None], [Heads(P0T1C00), Heads(P1T1C00), Back(P0T1C00, P1T1C00)], NoPriority)
  {
    cam := Zone0Inserted();
    ghost var l := cam.List();
    assert l[..1] == [Heads(P0T1C00)];
    assert LastContainer(cam.containers[..], l, Zone1) == Some(P1T1C00);
    assert LastContainer(cam.containers[..], l, NoPriority) == Some(P0T1C00);
    assert NearestBelow(cam.containers[..], l, Zone1, 0) == Some(NoPriority);
    assert !HigherInList(l, Zone1);
    var ok0 := cam.ReleasePriority(P1T1C00);
  }

  /** TestInstructorCamera_AddCut: Cut[P0T1C00] replaces the base container. */
  method TrivialAddCut() returns (c: seq<Option<Transition>>, t: seq<Option<Transition>>)
    ensures c == [Some(P0T1C00), None, None, None] && t == [None, None, None, None]
  {
    var cam := SetUp();
    cam.AddCut(P0T1C00);
    c, t := cam.containers[..], Heading(cam.slots[..]);
  }

  /** TestInstructorCamera_AddTransition: Transition[P0T1C00] is listed. */
  method TrivialAddTransition() returns (c: seq<Option<Transition>>, t: seq<Option<Transition>>)
    ensures c == [Some(P0T2C01), None, None, None] && t == [Some(P0T1C00), None, None, None]
  {
    var cam := SetUp();
    var ok0 := cam.AddTransition(P0T1C00);
    c, t := cam.containers[..], Heading(cam.slots[..]);
  }

  /** TestInstructorCamera_OverrideTransition: a second zone-0 transition is listed behind the first. */
  method EasyOverrideTransition() returns (c: seq<Option<Transition>>, t: seq<Option<Transition>>)
    ensures c == [Some(P0T2C01), None, None, None] && t == [Some(P0T1C10), Some(P0T2C11), None, None]
  {
    var cam := SetUp();
    EmptyListHigherReleased(cam.containers[..], NoPriority);
    Listing(cam, P0T1C10);
    assert cam.List() == [Heads(P0T1C10)];
    Listing(cam, P0T2C11);
    c, t := cam.containers[..], Heading(cam.slots[..]);
  }

  /** TestInstructorCamera_InterruptTransitionWithCut: a zone-0 cut drops the pending zone-0 transition. */
  method EasyInterruptTransitionWithCut() returns (c: seq<Option<Transition>>, t: seq<Option<Transition>>)
    ensures c == [Some(P0T1C10), None, None, None] && t == [None, None, None, None]
  {
    var cam := Zone0Pending();
    CutAllSameKeeps(cam.containers[..][NoPriority := Some(P0T1C10)], cam.List(), NoPriority);
    cam.AddCut(P0T1C10);
    c, t := cam.containers[..], Heading(cam.slots[..]);
  }

  /** `SetInitialTransitionState(P0T2C11, ...)`: a zone-0 transition pending. */
  method Zone0Pending() returns (cam: InstructorProcessor)
    ensures fresh(cam) && fresh(cam.containers) && fresh(cam.slots)
    ensures Holds(cam, [Some(P0T2C01), None, None, None], [Heads(P0T2C11)], NoPriority)
  {
    cam := SetUp();
    EmptyListHigherReleased(cam.containers[..], NoPriority);
    Listing(cam, P0T2C11);
  }

  /** Then P0T1C10 and P0T1C00, each appended. */
  method ThreePending() returns (cam: InstructorProcessor)
    ensures fresh(cam) && fresh(cam.containers) && fresh(cam.slots)
    ensures Holds(cam, [Some(P0T2C01), None, None, None], [Heads(P0T2C11), Heads(P0T1C10), Heads(P0T1C00)], NoPriority)
  {
    cam := Zone0Pending();
    Listing(cam, P0T1C10);
    assert cam.List() == [Heads(P0T2C11), Heads(P0T1C10)];
    Listing(cam, P0T1C00);
  }

  /** The four zone-0 transitions of TestInstructorCamera_InterruptMultipleTransitionsWithCut. */
  method FourPending() returns (cam: InstructorProcessor)
    ensures fresh(cam) && fresh(cam.containers) && fresh(cam.slots)
    ensures Holds(cam, [Some(P0T2C01), None, None, None], [Heads(P0T2C11), Heads(P0T1C10), Heads(P0T1C00), Heads(P0T2C01)], NoPriority)
  {
    cam := ThreePending();
    Listing(cam, P0T2C01);
  }

  /** TestInstructorCamera_InterruptMultipleTransitionsWithCut: a zone-0 cut clears a full list. */
  method EasyInterruptMultipleTransitionsWithCut() returns (c: seq<Option<Transition>>, t: seq<Option<Transition>>)
    ensures c == [Some(P0T1C00), None, None, None] && t == [None, None, None, None]
  {
    var cam := FourPending();
    CutAllSameKeeps(cam.containers[..][NoPriority := Some(P0T1C00)], cam.List(), NoPriority);
    cam.AddCut(P0T1C00);
    c, t := cam.containers[..], Heading(cam.slots[..]);
  }

  /** TestInstructorCamera_TransitionToItself: a transition to the installed container is ignored. */
  method EasyTransitionToItself() returns (c: seq<Option<Transition>>, t: seq<Option<Transition>>)
    ensures c == [Some(P0T2C01), None, None, None] && t == [None, None, None, None]
  {
    var cam := SetUp();
    var ok0 := cam.AddTransition(P0T2C01);
    c, t := cam.containers[..], Heading(cam.slots[..]);
  }

  /** TestInstructorCamera_TransitionInSandwich: the installed container is listed again behind another transition. */
  method EasyTransitionInSandwich() returns (c: seq<Option<Transition>>, t: seq<Option<Transition>>)
    ensures c == [Some(P0T2C01), None, None, None] && t == [Some(P0T2C11), Some(P0T2C01), None, None]
  {
    var cam := Zone0Pending();
    Listing(cam, P0T2C01);
    c, t := cam.containers[..], Heading(cam.slots[..]);
  }

  /** TestInstructorCamera_AddingSameTransitionTwice: the last listed transition is not listed twice. */
  method EasyAddingSameTransitionTwice() returns (c: seq<Option<Transition>>, t: seq<Option<Transition>>)
    ensures c == [Some(P0T2C01), None, None, None] && t == [Some(P0T2C11), None, None, None]
  {
    var cam := Zone0Pending();
    var ok := cam.AddTransition(P0T2C11);
    c, t := cam.containers[..], Heading(cam.slots[..]);
  }

  /** TestInstructorCamera_TransitionInATransitionSandwich: a transition listed earlier, but not last, is listed again. */
  method EasyTransitionInATransitionSandwich() returns (c: seq<Option<Transition>>, t: seq<Option<Transition>>)
    ensures c == [Some(P0T2C01), None, None, None] && t == [Some(P0T2C11), Some(P0T2C01), Some(P0T2C11), None]
  {
    var cam := Zone0Pending();
    Listing(cam, P0T2C01);
    assert cam.List() == [Heads(P0T2C11), Heads(P0T2C01)];
    Listing(cam, P0T2C11);
    c, t := cam.containers[..], Heading(cam.slots[..]);
  }

  /** TestInstructorCamera_AddPriorityCut: a zone-1 cut installs its container and raises the priority. */
  method MediumAddPriorityCut() returns (c: seq<Option<Transition>>, t: seq<Option<Transition>>, p: Priority)
    ensures c == [Some(P0T2C01), Some(P1T1C00), None, None] && t == [None, None, None, None]
    ensures p == Zone1
  {
    var cam := SetUp();
    cam.AddCut(P1T1C00);
    c, t := cam.containers[..], Heading(cam.slots[..]);
    p := cam.priority;
  }

  /** TestInstructorCamera_AddPriorityTransition: a zone-1 transition is listed and the priority stays. */
  method MediumAddPriorityTransition() returns (c: seq<Option<Transition>>, t: seq<Option<Transition>>, p: Priority)
    ensures c == [Some(P0T2C01), None, None, None] && t == [Some(P1T1C00), None, None, None]
    ensures p == NoPriority
  {
    var cam := Zone1Pending();
    c, t := cam.containers[..], Heading(cam.slots[..]);
    p := cam.priority;
  }

  /** TestInstructorCamera_ChangeInactivePriority: a transition to the installed zone-0 container under an active zone 1 is ignored. */
  method MediumChangeInactivePriority() returns (c: seq<Option<Transition>>, t: seq<Option<Transition>>, p: Priority)
    ensures c == [Some(P0T2C01), Some(P1T1C00), None, None] && t == [None, None, None, None]
    ensures p == Zone1
  {
    var cam := SetUp();
    cam.AddCut(P1T1C00);
    var ok0 := cam.AddTransition(P0T2C01);
    c, t := cam.containers[..], Heading(cam.slots[..]);
    p := cam.priority;
  }

  /** TestInstructorCamera_ReleasePriority: releasing the active zone 1 lists a transition back to zone 0. */
  method MediumReleasePriority() returns (c: seq<Option<Transition>>, t: seq<Option<Transition>>)
    ensures c == [Some(P0T2C01), Some(P1T1C00), None, None] && t == [Some(P0T2C01), None, None, None]
  {
    var cam := Zone1CutReleased();
    c, t := cam.containers[..], Heading(cam.slots[..]);
  }

  /** TestInstructorCamera_ReleaseInactivePriority: releasing a zone below the active one clears it at once. */
  method MediumReleaseInactivePriority() returns (c: seq<Option<Transition>>, t: seq<Option<Transition>>)
    ensures c == [Some(P0T2C01), None, Some(P2T1C00), None] && t == [None, None, None, None]
  {
    var cam := Zone1Cut();
    cam.AddCut(P2T1C00);
    var ok0 := cam.ReleasePriority(P1T1C00);
    c, t := cam.containers[..], Heading(cam.slots[..]);
  }

  /** TestInstructorCamera_ReleasePriorityCut: a cut release of the active zone 1 clears it at once. */
  method MediumReleasePriorityCut() returns (c: seq<Option<Transition>>, t: seq<Option<Transition>>)
    ensures c == [Some(P0T2C01), None, None, None] && t == [None, None, None, None]
  {
    var cam := Zone1Cut();
    cam.ReleasePriorityCut(P1T1C00);
    c, t := cam.containers[..], Heading(cam.slots[..]);
  }

  /** TestInstructorCamera_ReleaseInactivePriorityCut: a cut release of an inactive zone clears it. */
  method MediumReleaseInactivePriorityCut() returns (c: seq<Option<Transition>>, t: seq<Option<Transition>>)
    ensures c == [Some(P0T2C01), None, Some(P2T1C00), None] && t == [None, None, None, None]
  {
    var cam := Zone1Cut();
    cam.AddCut(P2T1C00);
    cam.ReleasePriorityCut(P1T1C00);
    c, t := cam.containers[..], Heading(cam.slots[..]);
  }

  /** TestInstructorCamera_CutToHigherPriorityWhileTransition: a zone-2 cut applies the pending zone-1 transition at once. */
  method MediumCutToHigherPriorityWhileTransition() returns (c: seq<Option<Transition>>, t: seq<Option<Transition>>)
    ensures c == [Some(P0T2C01), Some(P1T2C01), Some(P2T2C01), None] && t == [None, None, None, None]
  {
    var cam := SetUp();
    EmptyListHigherReleased(cam.containers[..], Zone1);
    Listing(cam, P1T2C01);
    ghost var l := cam.List();
    assert l == [Heads(P1T2C01)] && l[..0] == [];
    assert Above(l, Zone2) == [];
    assert CutAll(cam.containers[..][Zone2 := Some(P2T2C01)], l, Zone2) == [Some(P0T2C01), Some(P1T2C01), Some(P2T2C01), None];
    cam.AddCut(P2T2C01);
    c, t := cam.containers[..], Heading(cam.slots[..]);
  }

  /** TestInstructorCamera_CutDuringPriorityRelease: a zone-2 cut completes a pending release of zone 1. */
  method HardCutDuringPriorityRelease() returns (c: seq<Option<Transition>>, t: seq<Option<Transition>>)
    ensures c == [Some(P0T2C01), None, Some(P2T1C00), None] && t == [None, None, None, None]
  {
    var cam := Zone1CutReleased();
    cam.AddCut(P2T1C00);
    c, t := cam.containers[..], Heading(cam.slots[..]);
  }

  /** TestInstructorCamera_CancelPriorityTransition: releasing a zone still being transitioned to lists the way back. */
  method HardCancelPriorityTransition() returns (c: seq<Option<Transition>>, t: seq<Option<Transition>>, p: Priority)
    ensures c == [Some(P0T2C01), None, None, None] && t == [Some(P1T1C00), Some(P0T2C01), None, None]
    ensures p == NoPriority
  {
    var cam := Zone1Pending();
    ghost var l := cam.List();
    assert l[..0] == [];
    assert LastContainer(cam.containers[..], l, NoPriority) == Some(P0T2C01);
    assert NearestBelow(cam.containers[..], l, Zone1, 0) == Some(NoPriority);
    assert !HigherInList(l, Zone1);
    var ok0 := cam.ReleasePriority(P1T1C00);
    c, t := cam.containers[..], Heading(cam.slots[..]);
    p := cam.priority;
  }

  /** TestInstructorCamera_InsertReleasePriorityWhileInProgress: the release of zone 1 is listed before the pending zone-2 transition. */
  method HardInsertReleasePriorityWhileInProgress() returns (c: seq<Option<Transition>>, t: seq<Option<Transition>>, p: Priority)
    ensures c == [Some(P0T2C01), None, None, None] && t == [Some(P1T1C00), Some(P0T2C01), Some(P2T1C00), None]
    ensures p == NoPriority
  {
    var cam := Zone1Pending();
    assert HigherReleased(cam.containers[..], cam.List(), Zone2);
    var ok0 := cam.AddTransition(P2T1C00);
    ghost var l := [Heads(P1T1C00), Heads(P2T1C00)];
    assert cam.List() == l;
    assert l[..1] == [Heads(P1T1C00)] && l[..1][..0] == [];
    assert LastContainer(cam.containers[..], l, Zone1) == Some(P1T1C00);
    assert LastContainer(cam.containers[..], l[..1], NoPriority) == Some(P0T2C01);
    assert LastContainer(cam.containers[..], l, NoPriority) == Some(P0T2C01);
    assert NearestBelow(cam.containers[..], l, Zone1, 0) == Some(NoPriority);
    assert !BeingReleased(l, Zone2);
    assert HigherInList(l, Zone1);
    assert FirstAbove(l, Zone1) == 1;
    var ok1 := cam.ReleasePriority(P1T1C00);
    c, t := cam.containers[..], Heading(cam.slots[..]);
    p := cam.priority;
  }

  /** TestInstructorCamera_InsertTransition: a zone-0 transition is listed before a pending zone-1 transition. */
  method HardInsertTransition() returns (c: seq<Option<Transition>>, t: seq<Option<Transition>>, p: Priority)
    ensures c == [Some(P0T2C01), None, None, None] && t == [Some(P0T1C00), Some(P1T1C00), None, None]
    ensures p == NoPriority
  {
    var cam := Zone0Inserted();
    c, t := cam.containers[..], Heading(cam.slots[..]);
    p := cam.priority;
  }

  /** TestInstructorCamera_AddLowerPriorityTransitionWhileGoingToHigherAndRelease: the release heads back to the last zone-0 container listed. */
  method HardAddLowerPriorityTransitionWhileGoingToHigherAndRelease() returns (c: seq<Option<Transition>>, t: seq<Option<Transition>>)
    ensures c == [Some(P0T2C01), None, None, None] && t == [Some(P0T1C00), Some(P1T1C00), Some(P0T1C00), None]
  {
    var cam := Zone1Released();
    c, t := cam.containers[..], Heading(cam.slots[..]);
  }

  /** TestInstructorCamera_LowPriorityTransitionWhileReleasingAPriority: a zone-0 transition is appended while zone 1 is being released. */
  method InsaneLowPriorityTransitionWhileReleasingAPriority() returns (c: seq<Option<Transition>>, t: seq<Option<Transition>>)
    ensures c == [Some(P0T2C01), None, None, None] && t == [Some(P0T1C00), Some(P1T1C00), Some(P0T1C00), Some(P0T2C01)]
  {
    var cam := Zone1Released();
    var ok0 := cam.AddTransition(P0T2C01);
    c, t := cam.containers[..], Heading(cam.slots[..]);
  }

  /** TestInstructorCamera_ReleasePriorityAfterDoubleLowPriorityTransitions: the release heads back to the later of two zone-0 transitions. */
  method InsaneReleasePriorityAfterDoubleLowPriorityTransitions() returns (c: seq<Option<Transition>>, t: seq<Option<Transition>>)
    ensures c == [Some(P0T2C01), None, None, None] && t == [Some(P0T1C00), Some(P0T2C01), Some(P1T1C00), Some(P0T2C01)]
  {
    var cam := Zone0Inserted();
    ghost var l0 := cam.List();
    assert !BeingReleased(l0, Zone1);
    assert HigherInList(l0, NoPriority);
    assert FirstAbove(l0, NoPriority) == 1;
    var ok0 := cam.AddTransition(P0T2C01);
    ghost var l := [Heads(P0T1C00), Heads(P0T2C01), Heads(P1T1C00)];
    assert cam.List() == l;
    assert l[..2] == [Heads(P0T1C00), Heads(P0T2C01)];
    assert LastContainer(cam.containers[..], l, Zone1) == Some(P1T1C00);
    assert LastContainer(cam.containers[..], l, NoPriority) == Some(P0T2C01);
    assert NearestBelow(cam.containers[..], l, Zone1, 0) == Some(NoPriority);
    assert !HigherInList(l, Zone1);
    var ok1 := cam.ReleasePriority(P1T1C00);
    c, t := cam.containers[..], Heading(cam.slots[..]);
  }

  /** TestInstructorCamera_OverridePriorityReleaseWithSamePriorityTransition: a zone-0 transition is listed behind a release to zone 0. */
  method InsaneOverridePriorityReleaseWithSamePriorityTransition() returns (c: seq<Option<Transition>>, t: seq<Option<Transition>>)
    ensures c == [Some(P0T2C01), Some(P1T1C00), None, None] && t == [Some(P0T2C01), Some(P0T1C00), None, None]
  {
    var cam := Zone1CutReleased();
    var ok0 := cam.AddTransition(P0T1C00);
    c, t := cam.containers[..], Heading(cam.slots[..]);
  }

  /** Four zone-1 transitions fill the list: nothing above zone 1 is on its way in, so each
      is appended. */
  method FourZone1Pending() returns (cam: InstructorProcessor)
    ensures fresh(cam) && fresh(cam.containers) && fresh(cam.slots)
    ensures Holds(cam, [Some(P0T2C01), None, None, None], [Heads(P1T1C00), Heads(P1T2C01), Heads(P1T1C10), Heads(P1T2C11)], NoPriority)
  {
    cam := Zone1Pending();
    Listing(cam, P1T2C01);
    assert cam.List() == [Heads(P1T1C00), Heads(P1T2C01)];
    Listing(cam, P1T1C10);
    assert cam.List() == [Heads(P1T1C00), Heads(P1T2C01), Heads(P1T1C10)];
    Listing(cam, P1T2C11);
  }

  /** A zone-0 transition on top of four pending zone-1 ones must be inserted first in a
      full list: the model refuses it and keeps the list. */
  method FullListInsertion() returns (ok: bool, t: seq<Option<Transition>>)
    ensures !ok && t == [Some(P1T1C00), Some(P1T2C01), Some(P1T1C10), Some(P1T2C11)]
  {
    var cam := FourZone1Pending();
    ghost var l := cam.List();
    assert !BeingReleased(l, Zone1);
    assert HigherInList(l, NoPriority);
    assert l[0].priority > NoPriority;
    assert FirstAbove(l, NoPriority) == 0;
    ok := cam.AddTransition(P0T1C00);
    t := Heading(cam.slots[..]);
  }

  /** The same insertion as written: five records counted, and P1T2C11, the last one
      pending, is gone from the slots. */
  lemma FullListInsertionAsWritten()
    ensures var s := [Some(Heads(P1T1C00)), Some(Heads(P1T2C01)), Some(Heads(P1T1C10)), Some(Heads(P1T2C11))];
      var r := InsertAsWritten(s, MaxCount, Heads(P0T1C00));
      r.1 == 5 && Some(Heads(P1T2C11)) !in r.0
  {
    var s := [Some(Heads(P1T1C00)), Some(Heads(P1T2C01)), Some(Heads(P1T1C10)), Some(Heads(P1T2C11))];
    assert Listed(s, MaxCount);
    assert Live(s, MaxCount)[0].priority > NoPriority;
    assert FirstAbove(Live(s, MaxCount), NoPriority) == 0;
    var r := InsertAsWritten(s, MaxCount, Heads(P0T1C00));
    assert r.0 == [Some(Heads(P0T1C00)), Some(Heads(P1T1C00)), Some(Heads(P1T2C01)), Some(Heads(P1T1C10))];
  }
}
