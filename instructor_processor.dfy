/**
 * The camera's container and transition-list logic (InstructorProcessor.cs). The processor
 * holds one container per priority (None, Zone1, Zone2, Zone3) and an ordered list of at most
 * four pending transitions, each heading for a container and possibly releasing a priority
 * when it completes. Cuts, transitions and releases insert into or remove from that list
 * with in-place shifts; a finished transition installs its container.
 */
module Instructors {

  datatype Option<T> = None | Some(value: T)

  // ---------------------------------------------------------------------------------------
  // Priorities, transitions and transition records
  // ---------------------------------------------------------------------------------------

  /** `ContainerPriority`: None = 0, Zone1 = 1, Zone2 = 2, Zone3 = 3; `Count` = 4 slots. */
  type Priority = p: int | 0 <= p < 4

  const NoPriority: Priority := 0
  const Zone1: Priority := 1
  const Zone2: Priority := 2
  const Zone3: Priority := 3
  const PriorityCount: nat := 4

  /** `m_TransitionMaxCount`: the transition list has four slots. */
  const MaxCount: nat := 4

  /** A `Transition` component: a set of instructors with the priority it is added at and
      the time a transition to it takes. Its identity is its name. */
  datatype Transition = Transition(name: string, priority: Priority, time: real)

  /** `TransitionInformation`: the container a pending transition heads for, the priority
      it installs the container at, its time, how far it has come, and the priority it
      releases when it completes (`NoPriority` for none). */
  datatype Info = Info(container: Transition, priority: Priority, time: real, release: Priority, completion: real)

  /** A new record: completion starts at 0. */
  function NewInfo(container: Transition, priority: Priority, time: real, release: Priority): (r: Info)
    ensures r.container == container && r.priority == priority && r.release == release
    ensures r.completion == 0.0
  {
    Info(container, priority, time, release, 0.0)
  }

  // ---------------------------------------------------------------------------------------
  // The transition list: slots below the count hold records, the rest are null
  // ---------------------------------------------------------------------------------------

  /** The four slots hold records exactly below the count. */
  ghost predicate Listed(s: seq<Option<Info>>, n: nat)
  {
    |s| == MaxCount && n <= MaxCount && forall i :: 0 <= i < |s| ==> (s[i].Some? <==> i < n)
  }

  /** The records of the list, in order. */
  ghost function Live(s: seq<Option<Info>>, n: nat): (l: seq<Info>)
    requires Listed(s, n)
    ensures |l| == n && forall i :: 0 <= i < n ==> s[i] == Some(l[i])
  {
    seq(n, i requires 0 <= i < n => s[i].value)
  }

  /** Two listed slot arrays with the same records are the same. */
  lemma LiveDetermines(s: seq<Option<Info>>, n: nat, s': seq<Option<Info>>, n': nat)
    requires Listed(s, n) && Listed(s', n') && Live(s, n) == Live(s', n')
    ensures s == s' && n == n'
  {
    assert |Live(s, n)| == n && |Live(s', n')| == n';
    forall i | 0 <= i < MaxCount ensures s[i] == s'[i] {
      if i < n {
        assert s[i] == Some(Live(s, n)[i]) && s'[i] == Some(Live(s', n')[i]);
      }
    }
  }

  /** Every container installed at priority q has priority q, and every record installs a
      container of its own priority. */
  ghost predicate Coherent(c: seq<Option<Transition>>, l: seq<Info>)
  {
    |c| == PriorityCount &&
    (forall q :: 0 <= q < |c| && c[q].Some? ==> c[q].value.priority == q) &&
    (forall i :: 0 <= i < |l| ==> l[i].container.priority == l[i].priority)
  }

  // ---------------------------------------------------------------------------------------
  // What finishing or cutting a record does to the containers
  // ---------------------------------------------------------------------------------------

  /** The priority a record releases is emptied. */
  function Released(c: seq<Option<Transition>>, e: Info): (r: seq<Option<Transition>>)
    requires |c| == PriorityCount
    ensures |r| == PriorityCount
    ensures e.release != NoPriority ==> r[e.release] == None
    ensures forall q :: 0 <= q < PriorityCount && q != e.release ==> r[q] == c[q]
  {
    if e.release != NoPriority then c[e.release := None] else c
  }

  /** `TerminateFirstTransition` on the containers: the record's container is installed at
      its priority, then the priority it releases is emptied. */
  function Terminated(c: seq<Option<Transition>>, e: Info): (r: seq<Option<Transition>>)
    requires |c| == PriorityCount
    ensures |r| == PriorityCount
    ensures e.release != NoPriority ==> r[e.release] == None
    ensures e.release != e.priority ==> r[e.priority] == Some(e.container)
    ensures forall q :: 0 <= q < PriorityCount && q != e.release && q != e.priority ==> r[q] == c[q]
  {
    Released(c[e.priority := Some(e.container)], e)
  }

  /** What a cut at priority p does with one record: a record of lower priority is finished
      at once, one of the same priority only releases, a higher one is kept. */
  function CutOne(c: seq<Option<Transition>>, e: Info, p: Priority): (r: seq<Option<Transition>>)
    requires |c| == PriorityCount
    ensures |r| == PriorityCount
  {
    if e.priority < p then Terminated(c, e) else if e.priority == p then Released(c, e) else c
  }

  /** The containers after a cut at priority p has dealt with the records l, in order. */
  function CutAll(c: seq<Option<Transition>>, l: seq<Info>, p: Priority): (r: seq<Option<Transition>>)
    requires |c| == PriorityCount
    ensures |r| == PriorityCount
  {
    if l == [] then c else CutOne(CutAll(c, l[..|l| - 1], p), l[|l| - 1], p)
  }

  /** The records a cut at priority p keeps: those of higher priority, in order. */
  function Above(l: seq<Info>, p: Priority): (r: seq<Info>)
  {
    if l == [] then [] else Above(l[..|l| - 1], p) + if l[|l| - 1].priority > p then [l[|l| - 1]] else []
  }

  /** A cut keeps exactly the records of higher priority. */
  lemma {:induction false} AboveMembers(l: seq<Info>, p: Priority)
    ensures forall e :: e in Above(l, p) <==> e in l && e.priority > p
    ensures |Above(l, p)| <= |l|
  {
    if l != [] {
      AboveMembers(l[..|l| - 1], p);
      assert l == l[..|l| - 1] + [l[|l| - 1]];
    }
  }

  /** A container the cut's records neither install nor release keeps its place. */
  lemma {:induction false} CutAllKeeps(c: seq<Option<Transition>>, l: seq<Info>, p: Priority, q: Priority)
    requires |c| == PriorityCount
    requires forall e :: e in l && e.priority <= p ==> e.release != q
    requires forall e :: e in l ==> e.priority != q || q >= p
    ensures CutAll(c, l, p)[q] == c[q]
  {
    if l != [] {
      var init := l[..|l| - 1];
      assert forall e :: e in init ==> e in l;
      CutAllKeeps(c, init, p, q);
      assert l[|l| - 1] in l;
    }
  }

  /** The first i records are dealt with one more step when the i-th has been. */
  lemma CutAllSnoc(c: seq<Option<Transition>>, l: seq<Info>, p: Priority, i: nat)
    requires |c| == PriorityCount && i < |l|
    ensures CutAll(c, l[..i + 1], p) == CutOne(CutAll(c, l[..i], p), l[i], p)
    ensures Above(l[..i + 1], p) == Above(l[..i], p) + if l[i].priority > p then [l[i]] else []
  {
    assert l[..i + 1][..i] == l[..i];
  }

  // ---------------------------------------------------------------------------------------
  // Finishing the head of the list
  // ---------------------------------------------------------------------------------------

  /** The containers and the current priority: what finished records act on. */
  datatype Installed = Installed(containers: seq<Option<Transition>>, priority: Priority)

  /** The head record finishes: its priority becomes current and `Terminated` applies. */
  function FinishOne(a: Installed, e: Info): (r: Installed)
    requires |a.containers| == PriorityCount
    ensures |r.containers| == PriorityCount && r.priority == e.priority
  {
    Installed(Terminated(a.containers, e), e.priority)
  }

  /** The records l finish one after another from the front. */
  function FinishAll(a: Installed, l: seq<Info>): (r: Installed)
    requires |a.containers| == PriorityCount
    ensures |r.containers| == PriorityCount
    ensures l != [] ==> r.priority == l[|l| - 1].priority
    ensures l == [] ==> r == a
  {
    if l == [] then a else FinishOne(FinishAll(a, l[..|l| - 1]), l[|l| - 1])
  }

  /** One record more of the list finishes. */
  lemma FinishAllSnoc(a: Installed, l: seq<Info>, i: nat)
    requires |a.containers| == PriorityCount && i < |l|
    ensures FinishAll(a, l[..i + 1]) == FinishOne(FinishAll(a, l[..i]), l[i])
  {
    assert l[..i + 1][..i] == l[..i];
  }

  /** How many records `RemoveFinishedTransitions` ends: all up to the last one whose
      completion has reached 1, or none. */
  function Finished(l: seq<Info>): (k: nat)
    ensures k <= |l|
    ensures k > 0 ==> l[k - 1].completion >= 1.0
    ensures forall i :: k <= i < |l| ==> l[i].completion < 1.0
  {
    if l == [] then 0
    else if l[|l| - 1].completion >= 1.0 then |l|
    else Finished(l[..|l| - 1])
  }

  // ---------------------------------------------------------------------------------------
  // The queries over the list and the containers
  // ---------------------------------------------------------------------------------------

  /** `IsPriorityBeingReleased`: scanning the list in order, a record releasing q sets the
      answer, a later record of priority q clears it. */
  function BeingReleased(l: seq<Info>, q: int): bool
  {
    if l == [] then false
    else
      var e := l[|l| - 1];
      if e.release == q then true else if e.priority == q then false else BeingReleased(l[..|l| - 1], q)
  }

  /** Priority q is being released iff some record releases it and no later record releases
      it or is of priority q. */
  lemma {:induction false} BeingReleasedMeans(l: seq<Info>, q: int)
    ensures BeingReleased(l, q) <==>
      exists k :: 0 <= k < |l| && l[k].release == q &&
        forall m :: k < m < |l| ==> l[m].release != q && l[m].priority != q
  {
    if l != [] {
      var init, e := l[..|l| - 1], l[|l| - 1];
      BeingReleasedMeans(init, q);
      if e.release == q {
        assert l[|l| - 1].release == q;
      } else if e.priority == q {
        forall k | 0 <= k < |l| && l[k].release == q
          ensures !(forall m :: k < m < |l| ==> l[m].release != q && l[m].priority != q)
        {
          assert k < |l| - 1 && l[|l| - 1].priority == q;
        }
      } else {
        if BeingReleased(init, q) {
          var k :| 0 <= k < |init| && init[k].release == q && forall m :: k < m < |init| ==> init[m].release != q && init[m].priority != q;
          assert l[k].release == q;
          assert forall m :: k < m < |l| ==> l[m].release != q && l[m].priority != q by {
            forall m | k < m < |l| ensures l[m].release != q && l[m].priority != q {
              if m < |l| - 1 {
                assert l[m] == init[m];
              }
            }
          }
        }
        if exists k :: 0 <= k < |l| && l[k].release == q && forall m :: k < m < |l| ==> l[m].release != q && l[m].priority != q {
          var k :| 0 <= k < |l| && l[k].release == q && forall m :: k < m < |l| ==> l[m].release != q && l[m].priority != q;
          assert k < |l| - 1;
          assert init[k].release == q;
          assert forall m :: k < m < |init| ==> init[m].release != q && init[m].priority != q by {
            forall m | k < m < |init| ensures init[m].release != q && init[m].priority != q {
              assert init[m] == l[m];
            }
          }
        }
      }
    }
  }

  /** `HigherPriorityInList`: some record of priority above p whose own priority is not
      being released. */
  ghost predicate HigherInList(l: seq<Info>, p: int)
  {
    exists i :: 0 <= i < |l| && l[i].priority > p && !BeingReleased(l, l[i].priority)
  }

  /** `HigherPrioritiesBeingReleased`: nothing above p is on its way in. With an empty list
      no container above p may be set; otherwise no record above p may be unreleased; and in
      both cases every container above p must be being released. */
  ghost predicate HigherReleased(c: seq<Option<Transition>>, l: seq<Info>, p: Priority)
    requires |c| == PriorityCount
  {
    (l == [] ==> forall q :: p < q < PriorityCount ==> c[q].None?) &&
    (l != [] ==> !HigherInList(l, p)) &&
    forall q :: p < q < PriorityCount && c[q].Some? ==> BeingReleased(l, q)
  }

  /** With an empty list, nothing above p is being released, so the list condition and the
      container condition say the same. */
  lemma EmptyListHigherReleased(c: seq<Option<Transition>>, p: Priority)
    requires |c| == PriorityCount
    ensures HigherReleased(c, [], p) <==> forall q :: p < q < PriorityCount ==> c[q].None?
  {
    assert forall q :: !BeingReleased([], q);
  }

  /** `GetLastContainer`: the container of the last record of priority q, or the container
      installed at q when the list has none of that priority. */
  function LastContainer(c: seq<Option<Transition>>, l: seq<Info>, q: Priority): Option<Transition>
    requires |c| == PriorityCount
  {
    if l == [] then c[q]
    else if l[|l| - 1].priority == q then Some(l[|l| - 1].container)
    else LastContainer(c, l[..|l| - 1], q)
  }

  /** With no record of priority q, the last container of q is the installed one. */
  lemma {:induction false} LastContainerInstalled(c: seq<Option<Transition>>, l: seq<Info>, q: Priority)
    requires |c| == PriorityCount
    requires forall i :: 0 <= i < |l| ==> l[i].priority != q
    ensures LastContainer(c, l, q) == c[q]
  {
    if l != [] {
      var init := l[..|l| - 1];
      assert forall i :: 0 <= i < |init| ==> init[i] == l[i];
      LastContainerInstalled(c, init, q);
    }
  }

  /** Otherwise it is the container of the last record of priority q. */
  lemma {:induction false} LastContainerListed(c: seq<Option<Transition>>, l: seq<Info>, q: Priority, k: nat)
    requires |c| == PriorityCount
    requires k < |l| && l[k].priority == q && forall m :: k < m < |l| ==> l[m].priority != q
    ensures LastContainer(c, l, q) == Some(l[k].container)
  {
    if k < |l| - 1 {
      var init := l[..|l| - 1];
      assert forall i :: 0 <= i < |init| ==> init[i] == l[i];
      assert l[|l| - 1].priority != q;
      LastContainerListed(c, init, q, k);
    }
  }

  /** The last container of q has priority q in a coherent state. */
  lemma {:induction false} LastContainerCoherent(c: seq<Option<Transition>>, l: seq<Info>, q: Priority)
    requires Coherent(c, l)
    ensures LastContainer(c, l, q).Some? ==> LastContainer(c, l, q).value.priority == q
  {
    if l != [] && l[|l| - 1].priority != q {
      var init := l[..|l| - 1];
      assert forall i :: 0 <= i < |init| ==> init[i] == l[i];
      LastContainerCoherent(c, init, q);
    }
  }

  /** Where `InsertTransition` puts a record inserted at priority q: before the first record
      of higher priority, or nowhere (|l|) when there is none. */
  function FirstAbove(l: seq<Info>, q: int): (i: nat)
    ensures i <= |l|
    ensures forall k :: 0 <= k < i ==> l[k].priority <= q
    ensures i < |l| ==> l[i].priority > q
  {
    if l == [] then 0
    else
      var i := FirstAbove(l[..|l| - 1], q);
      if i < |l| - 1 then i else if l[|l| - 1].priority > q then |l| - 1 else |l|
  }

  /** The priority `InsertTransition` places a record by: the one it releases, if any, and
      otherwise its own. */
  function InsertionPriority(priority: Priority, release: Priority): (q: Priority)
    ensures release != NoPriority ==> q == release
    ensures release == NoPriority ==> q == priority
  {
    if release != NoPriority then release else priority
  }

  /** `ReleasePriorityCut` on the current priority: the highest priority in [1, p) whose
      container is set, or `NoPriority`. Priorities above p are not looked at. */
  function HighestBelow(c: seq<Option<Transition>>, p: Priority): (r: Priority)
    requires |c| == PriorityCount
    ensures r == NoPriority ==> forall q :: 1 <= q < p ==> c[q].None?
    ensures r != NoPriority ==> r < p && c[r].Some? && forall q :: r < q < p ==> c[q].None?
  {
    if p <= 1 then NoPriority else if c[p - 1].Some? then p - 1 else HighestBelow(c, p - 1)
  }

  /** The priority `ReleasePriority` hands over to: the highest one below p with a last
      container, scanning down from p - 1 to `NoPriority`. */
  function NearestBelow(c: seq<Option<Transition>>, l: seq<Info>, p: Priority, from: int): (r: Option<Priority>)
    requires |c| == PriorityCount && from < p
    ensures r.Some? ==> r.value <= from && LastContainer(c, l, r.value).Some?
    ensures r.Some? ==> forall q: Priority :: r.value < q <= from ==> LastContainer(c, l, q).None?
    ensures r.None? ==> forall q: Priority :: q <= from ==> LastContainer(c, l, q).None?
    decreases from + 1
  {
    if from < 0 then None
    else if LastContainer(c, l, from).Some? then Some(from)
    else NearestBelow(c, l, p, from - 1)
  }

  /** `InsertTransition` on the list: the record goes just before the first record of
      higher priority than its insertion priority, and nowhere when there is none. The
      list must have a free slot for that (`None` when it is full). */
  function InsertInto(l: seq<Info>, e: Info): (r: Option<seq<Info>>)
    ensures r.Some? <==> FirstAbove(l, InsertionPriority(e.priority, e.release)) == |l| || |l| < MaxCount
  {
    var i := FirstAbove(l, InsertionPriority(e.priority, e.release));
    if i == |l| then Some(l)
    else if |l| >= MaxCount then None
    else Some(l[..i] + [e] + l[i..])
  }

  /** Where an insertion happens, the record sits after every record of no higher
      insertion priority and before the rest, which keep their order. */
  lemma InsertIntoPlaces(l: seq<Info>, e: Info)
    requires FirstAbove(l, InsertionPriority(e.priority, e.release)) < |l| < MaxCount
    ensures var q, i := InsertionPriority(e.priority, e.release), FirstAbove(l, InsertionPriority(e.priority, e.release));
      var r := InsertInto(l, e).value;
      |r| == |l| + 1 && r[i] == e && r[i + 1] == l[i] && l[i].priority > q &&
      (forall k :: 0 <= k < i ==> r[k] == l[k] && r[k].priority <= q) &&
      (forall k :: i < k < |r| ==> r[k] == l[k - 1]) &&
      multiset(r) == multiset(l) + multiset{e}
  {
    var i := FirstAbove(l, InsertionPriority(e.priority, e.release));
    assert l == l[..i] + l[i..];
  }

  /** `InsertTransition` as written, on the slots and the count: its assertion checks the
      insertion index against `m_TransitionMaxCount - 1` rather than the count against
      `m_TransitionMaxCount`, and only logs, so with a full list the record is still put in,
      the shift pushes the last record out and the count goes past the capacity. */
  ghost function InsertAsWritten(s: seq<Option<Info>>, n: nat, e: Info): (r: (seq<Option<Info>>, nat))
    requires Listed(s, n)
    ensures |r.0| == MaxCount
    ensures r.1 <= n + 1
    ensures var i := FirstAbove(Live(s, n), InsertionPriority(e.priority, e.release));
      r.0[..i] == s[..i] && (r.1 == n <==> i == n)
  {
    var i := FirstAbove(Live(s, n), InsertionPriority(e.priority, e.release));
    if i == n then (s, n) else (s[..i] + [Some(e)] + s[i..MaxCount - 1], n + 1)
  }

  /** With a full list and a record to insert, the code as written counts five records and
      loses the one that was in the last slot. */
  lemma InsertAsWrittenOverflows(s: seq<Option<Info>>, e: Info)
    requires Listed(s, MaxCount) && FirstAbove(Live(s, MaxCount), InsertionPriority(e.priority, e.release)) < MaxCount
    ensures var r := InsertAsWritten(s, MaxCount, e);
      r.1 == MaxCount + 1 && !Listed(r.0, r.1) &&
      multiset(r.0) == multiset(s) - multiset{s[MaxCount - 1]} + multiset{Some(e)}
  {
    var i := FirstAbove(Live(s, MaxCount), InsertionPriority(e.priority, e.release));
    assert s == s[..i] + s[i..MaxCount - 1] + [s[MaxCount - 1]];
  }

  /** Where the list has room the code as written does what `InsertInto` does. */
  lemma InsertAsWrittenWithRoom(s: seq<Option<Info>>, n: nat, e: Info)
    requires Listed(s, n) && n < MaxCount
    ensures var r := InsertAsWritten(s, n, e);
      Listed(r.0, r.1) && InsertInto(Live(s, n), e) == Some(Live(r.0, r.1))
  {
    var l := Live(s, n);
    var i := FirstAbove(l, InsertionPriority(e.priority, e.release));
    if i < n {
      var r := InsertAsWritten(s, n, e);
      assert Listed(r.0, r.1);
      assert Live(r.0, r.1) == l[..i] + [e] + l[i..];
    }
  }

  /** Appending at lines 310 and 358: one more record at the end, or `None` when the list is
      full and the write throws. */
  function AppendTo(l: seq<Info>, e: Info): (r: Option<seq<Info>>)
    ensures r.Some? <==> |l| < MaxCount
    ensures r.Some? ==> r.value == l + [e]
  {
    if |l| < MaxCount then Some(l + [e]) else None
  }

  /** The first check of `AddTransition`: t is what the camera last heads for, the last
      record's container or, with an empty list, the container at t's priority. */
  ghost predicate Repeats(c: seq<Option<Transition>>, l: seq<Info>, t: Transition)
    requires |c| == PriorityCount
  {
    (l == [] && c[t.priority] == Some(t)) || (l != [] && l[|l| - 1].container == t)
  }

  /** `ReleasePriorityCut` on the containers and the current priority: acts only when t is
      the container at its priority; it is emptied and the current priority drops to the
      highest set one below it (to `NoPriority` when t itself is of priority None, which the
      source's assertion calls a logic error but, as it only logs, still lets through). */
  function CutReleased(a: Installed, t: Transition): (r: Installed)
    requires |a.containers| == PriorityCount
    ensures |r.containers| == PriorityCount
    ensures a.containers[t.priority] != Some(t) ==> r == a
    ensures a.containers[t.priority] == Some(t) ==>
      r.containers[t.priority] == None && r.priority <= t.priority &&
      (t.priority != NoPriority ==> r.priority < t.priority) &&
      (forall q :: 0 <= q < PriorityCount && q != t.priority ==> r.containers[q] == a.containers[q]) &&
      (r.priority != NoPriority ==> a.containers[r.priority].Some?) &&
      (forall q :: r.priority < q < t.priority ==> a.containers[q].None?)
  {
    if a.containers[t.priority] == Some(t) then
      var c := a.containers[t.priority := None];
      Installed(c, HighestBelow(c, t.priority))
    else a
  }

  /** When the records of l from i on are those of l0 from k on, record i is record k and
      keeping it moves both on by one. */
  lemma NextRecord(l: seq<Info>, i: nat, l0: seq<Info>, k: nat)
    requires i < |l| && k <= |l0| && l[i..] == l0[k..]
    ensures k < |l0| && l[i] == l0[k]
    ensures l[..i + 1] == l[..i] + [l0[k]] && l[i + 1..] == l0[k + 1..]
  {
    assert l[i..][0] == l[i];
  }

  /** Dropping record i leaves the records before it and moves on to the next of l0. */
  lemma DroppedRecord(l: seq<Info>, i: nat, l0: seq<Info>, k: nat)
    requires i < |l| && k < |l0| && l[i..] == l0[k..]
    ensures (l[..i] + l[i + 1..])[..i] == l[..i]
    ensures (l[..i] + l[i + 1..])[i..] == l0[k + 1..]
  {
    assert l[i + 1..] == l[i..][1..];
  }

  // ---------------------------------------------------------------------------------------
  // The processor
  // ---------------------------------------------------------------------------------------

  /** `InstructorProcessor`'s list state: `m_Containers`, `m_Transitions`,
      `m_TransitionCount` and `m_Priority`. */
  class InstructorProcessor {
    const containers: array<Option<Transition>>
    const slots: array<Option<Info>>
    var count: nat
    var priority: Priority

    ghost predicate Valid()
      reads this, containers, slots
    {
      containers.Length == PriorityCount && Listed(slots[..], count) &&
      Coherent(containers[..], Live(slots[..], count))
    }

    /** The pending records, in order. */
    ghost function List(): seq<Info>
      reads this, slots
      requires Listed(slots[..], count)
    {
      Live(slots[..], count)
    }

    /** A fresh processor: no container, an empty list, priority None. */
    constructor ()
      ensures Valid() && fresh(containers) && fresh(slots)
      ensures containers[..] == [None, None, None, None] && slots[..] == [None, None, None, None]
      ensures count == 0 && priority == NoPriority && List() == []
    {
      containers := new Option<Transition>[PriorityCount](_ => None);
      slots := new Option<Info>[MaxCount](_ => None);
      count := 0;
      priority := NoPriority;
      new;
      assert containers[..] == [None, None, None, None];
      assert slots[..] == [None, None, None, None];
    }

    /** `Reset`: every container and slot null, count 0, priority None. */
    method Reset()
      requires Valid()
      modifies this, containers, slots
      ensures Valid()
      ensures containers[..] == [None, None, None, None] && slots[..] == [None, None, None, None]
      ensures count == 0 && priority == NoPriority && List() == []
    {
      for i := 0 to PriorityCount
        invariant forall q :: 0 <= q < i ==> containers[q] == None
      {
        containers[i] := None;
      }
      priority := NoPriority;
      for i := 0 to MaxCount
        invariant forall q :: 0 <= q < i ==> slots[q] == None
        invariant forall q :: 0 <= q < PriorityCount ==> containers[q] == None
        invariant priority == NoPriority
      {
        slots[i] := None;
      }
      count := 0;
      assert containers[..] == [None, None, None, None];
      assert slots[..] == [None, None, None, None];
    }

    /** Removes the record at i, shifting the later ones left and nulling the freed slot. */
    method RemoveSlot(i: nat)
      requires Valid() && i < count
      modifies this, slots
      ensures Valid() && priority == old(priority)
      ensures List() == old(List())[..i] + old(List())[i + 1..]
    {
      ghost var l := List();
      for j := i + 1 to count
        invariant count == old(count) && priority == old(priority)
        invariant forall k :: 0 <= k < i ==> slots[k] == old(slots[k])
        invariant forall k :: i <= k < j - 1 ==> slots[k] == old(slots[k + 1])
        invariant forall k :: j - 1 <= k < MaxCount ==> slots[k] == old(slots[k])
      {
        slots[j - 1] := slots[j];
      }
      slots[count - 1] := None;
      count := count - 1;
      assert Listed(slots[..], count);
      ghost var r := l[..i] + l[i + 1..];
      assert List() == r by {
        forall k | 0 <= k < count ensures List()[k] == r[k] {
          if k < i {
            assert slots[k] == Some(l[k]);
          } else {
            assert slots[k] == Some(l[k + 1]);
          }
        }
      }
    }

    /** Inserts a record at i, shifting the slots from i on right by one; the list must have
        a free slot. */
    method InsertSlot(i: nat, e: Info)
      requires Valid() && i <= count < MaxCount && e.container.priority == e.priority
      modifies this, slots
      ensures Valid() && priority == old(priority)
      ensures List() == old(List())[..i] + [e] + old(List())[i..]
    {
      ghost var l := List();
      var j := MaxCount - 1;
      while j > i
        invariant i <= j < MaxCount
        invariant count == old(count) && priority == old(priority)
        invariant forall k :: 0 <= k <= j ==> slots[k] == old(slots[k])
        invariant forall k :: j < k < MaxCount ==> slots[k] == old(slots[k - 1])
      {
        slots[j] := slots[j - 1];
        j := j - 1;
      }
      slots[i] := Some(e);
      count := count + 1;
      assert Listed(slots[..], count);
      ghost var r := l[..i] + [e] + l[i..];
      assert List() == r by {
        forall k | 0 <= k < count ensures List()[k] == r[k] {
          if k < i {
            assert slots[k] == Some(l[k]);
          } else if k > i {
            assert slots[k] == Some(l[k - 1]);
          }
        }
      }
    }

    /** Appends a record at the end of the list, as lines 310-316 and 358-359 do; with four
        records listed, the write past the end throws and nothing changes (`ok` false). */
    method Append(e: Info) returns (ok: bool)
      requires Valid() && e.container.priority == e.priority
      modifies this, slots
      ensures Valid() && priority == old(priority)
      ensures ok <==> old(count) < MaxCount
      ensures ok ==> List() == old(List()) + [e]
      ensures !ok ==> List() == old(List()) && slots[..] == old(slots[..])
    {
      if count == MaxCount {
        return false;
      }
      InsertSlot(count, e);
      ok := true;
      assert old(List())[..old(count)] == old(List());
    }

    /** `TerminateFirstTransition`: the head record finishes and leaves the list. */
    method TerminateFirstTransition()
      requires Valid() && count > 0
      modifies this, containers, slots
      ensures Valid()
      ensures List() == old(List())[1..]
      ensures Installed(containers[..], priority) == FinishOne(Installed(old(containers[..]), old(priority)), old(List())[0])
    {
      ghost var c0 := containers[..];
      var head := slots[0].value;
      priority := head.priority;
      containers[head.priority] := Some(head.container);
      if head.release != NoPriority {
        containers[head.release] := None;
      }
      assert containers[..] == Terminated(c0, head);
      RemoveSlot(0);
    }

    /** `AddCut`: t is installed at its priority at once. Every record of priority up to t's
        leaves the list: a lower one is finished on the spot, and any record releasing a
        priority empties that container. The current priority rises to t's if it was
        lower. */
    method AddCut(t: Transition)
      requires Valid()
      modifies this, containers, slots
      ensures Valid()
      ensures List() == Above(old(List()), t.priority)
      ensures containers[..] == CutAll(old(containers[..])[t.priority := Some(t)], old(List()), t.priority)
      ensures priority == if t.priority > old(priority) then t.priority else old(priority)
    {
      containers[t.priority] := Some(t);
      ghost var l0, c0, pr0 := List(), containers[..], priority;
      ghost var k := 0;
      var i := 0;
      while i < count
        invariant Valid() && priority == pr0
        invariant i <= count && k <= |l0| && count - i == |l0| - k
        invariant List()[..i] == Above(l0[..k], t.priority)
        invariant List()[i..] == l0[k..]
        invariant containers[..] == CutAll(c0, l0[..k], t.priority)
        decreases count - i
      {
        ghost var l := List();
        NextRecord(l, i, l0, k);
        CutAllSnoc(c0, l0, t.priority, k);
        if slots[i].value.priority <= t.priority {
          DropRecord(i, t.priority);
          DroppedRecord(l, i, l0, k);
        } else {
          i := i + 1;
        }
        k := k + 1;
      }
      assert List()[..i] == List();
      assert l0[..k] == l0;
      if t.priority > priority {
        priority := t.priority;
      }
    }

    /** The body of `AddCut`'s loop for a record at or below the cut's priority p: it is dealt
        with as `CutOne` says and leaves the list. */
    method DropRecord(i: nat, p: Priority)
      requires Valid() && i < count && slots[i].value.priority <= p
      modifies this, containers, slots
      ensures Valid() && priority == old(priority)
      ensures containers[..] == CutOne(old(containers[..]), old(List())[i], p)
      ensures List() == old(List())[..i] + old(List())[i + 1..]
    {
      var e := slots[i].value;
      assert e == List()[i];
      if e.priority < p {
        containers[e.priority] := Some(e.container);
      }
      if e.release != NoPriority {
        containers[e.release] := None;
      }
      assert containers[..] == CutOne(old(containers[..]), e, p);
      RemoveSlot(i);
    }

    /** `IsPriorityBeingReleased`. */
    method IsPriorityBeingReleased(q: Priority) returns (r: bool)
      requires Valid()
      ensures r == BeingReleased(List(), q)
    {
      r := false;
      for i := 0 to count
        invariant r == BeingReleased(List()[..i], q)
      {
        var e := slots[i].value;
        assert List()[..i + 1][..i] == List()[..i];
        if e.release == q {
          r := true;
        } else if e.priority == q {
          r := false;
        }
      }
      assert List()[..count] == List();
    }

    /** `HigherPriorityInList`. */
    method HigherPriorityInList(p: Priority) returns (r: bool)
      requires Valid()
      ensures r == HigherInList(List(), p)
    {
      for i := 0 to count
        invariant forall k :: 0 <= k < i ==> !(List()[k].priority > p && !BeingReleased(List(), List()[k].priority))
      {
        var e := slots[i].value;
        if e.priority > p {
          var released := IsPriorityBeingReleased(e.priority);
          if !released {
            assert List()[i].priority > p && !BeingReleased(List(), List()[i].priority);
            return true;
          }
        }
      }
      return false;
    }

    /** `HigherPrioritiesBeingReleased`. */
    method HigherPrioritiesBeingReleased(p: Priority) returns (r: bool)
      requires Valid()
      ensures r == HigherReleased(containers[..], List(), p)
    {
      if count == 0 {
        for i := p + 1 to PriorityCount
          invariant forall q :: p < q < i ==> containers[q].None?
        {
          if containers[i].Some? {
            return false;
          }
        }
      } else {
        var higher := HigherPriorityInList(p);
        if higher {
          return false;
        }
      }
      for i := p + 1 to PriorityCount
        invariant forall q :: p < q < i && containers[q].Some? ==> BeingReleased(List(), q)
      {
        if containers[i].Some? {
          var released := IsPriorityBeingReleased(i);
          if !released {
            return false;
          }
        }
      }
      return true;
    }

    /** `IsLastAddedTransition`: t is the last container of its priority. */
    method IsLastAddedTransition(t: Transition) returns (r: bool)
      requires Valid()
      ensures r <==> LastContainer(containers[..], List(), t.priority) == Some(t)
    {
      var i := count - 1;
      while i >= 0
        invariant -1 <= i < count
        invariant forall m :: i < m < count ==> List()[m].priority != t.priority
      {
        if slots[i].value.priority == t.priority {
          LastContainerListed(containers[..], List(), t.priority, i);
          return slots[i].value.container == t;
        }
        i := i - 1;
      }
      LastContainerInstalled(containers[..], List(), t.priority);
      return containers[t.priority] == Some(t);
    }

    /** `GetLastContainer`. */
    method GetLastContainer(q: Priority) returns (r: Option<Transition>)
      requires Valid()
      ensures r == LastContainer(containers[..], List(), q)
    {
      var i := count - 1;
      while i >= 0
        invariant -1 <= i < count
        invariant forall m :: i < m < count ==> List()[m].priority != q
      {
        if slots[i].value.priority == q {
          LastContainerListed(containers[..], List(), q, i);
          return Some(slots[i].value.container);
        }
        i := i - 1;
      }
      LastContainerInstalled(containers[..], List(), q);
      return containers[q];
    }

    /** `InsertTransition`, with the room check its assertion asks for: when the list is
        already full the record is not inserted and `ok` is false. */
    method InsertTransition(c: Transition, p: Priority, time: real, release: Priority) returns (ok: bool)
      requires Valid() && c.priority == p
      modifies this, slots
      ensures Valid() && priority == old(priority)
      ensures ok <==> InsertInto(old(List()), NewInfo(c, p, time, release)).Some?
      ensures ok ==> List() == InsertInto(old(List()), NewInfo(c, p, time, release)).value
      ensures !ok ==> List() == old(List())
    {
      var q := if release != NoPriority then release else p;
      ghost var l := List();
      for i := 0 to count
        invariant forall k :: 0 <= k < i ==> l[k].priority <= q
      {
        if slots[i].value.priority > q {
          assert FirstAbove(l, q) == i;
          if count == MaxCount {
            return false;
          }
          InsertSlot(i, NewInfo(c, p, time, release));
          return true;
        }
      }
      assert FirstAbove(l, q) == |l|;
      return true;
    }

    /** `AddTransition`. Nothing happens when t is what the camera already heads for. When
        nothing above t's priority is on its way in, t is appended to the list (`ok` false
        when the list is full and the write throws); otherwise a t below the current priority
        is installed directly, and any other t is inserted by `InsertTransition`. */
    method AddTransition(t: Transition) returns (ok: bool)
      requires Valid()
      modifies this, containers, slots
      ensures Valid()
      ensures Repeats(old(containers[..]), old(List()), t) ==>
        ok && List() == old(List()) && containers[..] == old(containers[..]) && priority == old(priority)
      ensures !Repeats(old(containers[..]), old(List()), t) && HigherReleased(old(containers[..]), old(List()), t.priority) ==>
        var r := AppendTo(old(List()), NewInfo(t, t.priority, t.time, NoPriority));
        (ok <==> r.Some?) && List() == (if ok then r.value else old(List())) &&
        containers[..] == old(containers[..]) && priority == old(priority)
      ensures (!Repeats(old(containers[..]), old(List()), t) && !HigherReleased(old(containers[..]), old(List()), t.priority) &&
        t.priority < old(priority)) ==>
        ok && List() == old(List()) && containers[..] == old(containers[..])[t.priority := Some(t)] && priority == old(priority)
      ensures (!Repeats(old(containers[..]), old(List()), t) && !HigherReleased(old(containers[..]), old(List()), t.priority) &&
        t.priority >= old(priority)) ==>
        var r := InsertInto(old(List()), NewInfo(t, t.priority, t.time, NoPriority));
        (ok <==> r.Some?) && List() == (if ok then r.value else old(List())) &&
        containers[..] == old(containers[..]) && priority == old(priority)
    {
      if (count == 0 && containers[t.priority] == Some(t)) || (count > 0 && slots[count - 1].value.container == t) {
        return true;
      }
      var higherReleased := HigherPrioritiesBeingReleased(t.priority);
      if higherReleased {
        ok := Append(NewInfo(t, t.priority, t.time, NoPriority));
      } else if t.priority < priority {
        containers[t.priority] := Some(t);
        ok := true;
      } else {
        ok := InsertTransition(t, t.priority, t.time, NoPriority);
      }
    }

    /** `ReleasePriorityCut`. */
    method ReleasePriorityCut(t: Transition)
      requires Valid()
      modifies this, containers
      ensures Valid() && count == old(count)
      ensures Installed(containers[..], priority) == CutReleased(Installed(old(containers[..]), old(priority)), t)
    {
      if containers[t.priority] == Some(t) {
        containers[t.priority] := None;
        priority := NoPriority;
        var i := t.priority - 1;
        while i >= 1
          invariant -1 <= i < t.priority && (t.priority > 0 ==> 0 <= i) && priority == NoPriority
          invariant forall q :: i < q < t.priority ==> containers[q].None?
        {
          if containers[i].Some? {
            priority := i;
            break;
          }
          i := i - 1;
        }
      }
    }

    /** `ReleasePriority`: acts only when t is the last container of its priority. If the
        camera is above t's priority already, the release is a cut; otherwise the nearest
        lower priority with a last container gets a record heading back to it and releasing
        t's priority, inserted when a higher priority is on its way in and appended
        otherwise (`ok` false when the list is full). */
    method ReleasePriority(t: Transition) returns (ok: bool)
      requires Valid()
      modifies this, containers, slots
      ensures Valid()
      ensures LastContainer(old(containers[..]), old(List()), t.priority) != Some(t) ==>
        ok && List() == old(List()) && containers[..] == old(containers[..]) && priority == old(priority)
      ensures LastContainer(old(containers[..]), old(List()), t.priority) == Some(t) && old(priority) > t.priority ==>
        ok && List() == old(List()) &&
        Installed(containers[..], priority) == CutReleased(Installed(old(containers[..]), old(priority)), t)
      ensures LastContainer(old(containers[..]), old(List()), t.priority) == Some(t) && old(priority) <= t.priority ==>
        containers[..] == old(containers[..]) && priority == old(priority) &&
        var n := NearestBelow(old(containers[..]), old(List()), t.priority, t.priority - 1);
        (n.None? ==> ok && List() == old(List())) &&
        (n.Some? ==>
          var e := NewInfo(LastContainer(old(containers[..]), old(List()), n.value).value, n.value, t.time, t.priority);
          var r := if HigherInList(old(List()), t.priority) then InsertInto(old(List()), e) else AppendTo(old(List()), e);
          (ok <==> r.Some?) && List() == (if ok then r.value else old(List())))
    {
      var last := IsLastAddedTransition(t);
      if !last {
        return true;
      }
      if priority > t.priority {
        ReleasePriorityCut(t);
        return true;
      }
      var i := t.priority - 1;
      var lastContainer: Option<Transition> := None;
      while i >= 0
        invariant -1 <= i < t.priority
        invariant Valid() && priority == old(priority) && count == old(count)
        invariant containers[..] == old(containers[..]) && slots[..] == old(slots[..])
        invariant NearestBelow(containers[..], List(), t.priority, t.priority - 1) ==
          NearestBelow(containers[..], List(), t.priority, i)
      {
        lastContainer := GetLastContainer(i);
        if lastContainer.Some? {
          break;
        }
        i := i - 1;
      }
      if i < 0 {
        return true;
      }
      LastContainerCoherent(containers[..], List(), i);
      var higher := HigherPriorityInList(t.priority);
      if higher {
        ok := InsertTransition(lastContainer.value, i, t.time, t.priority);
      } else {
        ok := Append(NewInfo(lastContainer.value, i, t.time, t.priority));
      }
    }

    /** `RemoveFinishedTransitions`: every record up to the last finished one finishes, in
        order; none of those left has finished. */
    method RemoveFinishedTransitions()
      requires Valid()
      modifies this, containers, slots
      ensures Valid()
      ensures List() == old(List())[Finished(old(List()))..]
      ensures Installed(containers[..], priority) ==
        FinishAll(Installed(old(containers[..]), old(priority)), old(List())[..Finished(old(List()))])
      ensures forall i :: 0 <= i < |List()| ==> List()[i].completion < 1.0
    {
      ghost var l := List();
      var i := count - 1;
      while i >= 0
        invariant -1 <= i < count
        invariant forall m :: i < m < count ==> l[m].completion < 1.0
      {
        if slots[i].value.completion >= 1.0 {
          assert Finished(l) == i + 1;
          TerminateFirstTransitions(i + 1);
          return;
        }
        i := i - 1;
      }
      assert Finished(l) == 0;
      assert l[0..] == l;
    }

    /** The inner loop of `RemoveFinishedTransitions`: the first k records finish. */
    method TerminateFirstTransitions(k: nat)
      requires Valid() && k <= count
      modifies this, containers, slots
      ensures Valid()
      ensures List() == old(List())[k..]
      ensures Installed(containers[..], priority) == FinishAll(Installed(old(containers[..]), old(priority)), old(List())[..k])
    {
      ghost var l, a := List(), Installed(containers[..], priority);
      assert l[..0] == [] && l[0..] == l;
      for j := 0 to k
        invariant Valid() && count == |l| - j
        invariant List() == l[j..]
        invariant Installed(containers[..], priority) == FinishAll(a, l[..j])
      {
        assert List()[0] == l[j];
        FinishAllSnoc(a, l, j);
        TerminateFirstTransition();
        assert l[j..][1..] == l[j + 1..];
      }
    }
  }
}
