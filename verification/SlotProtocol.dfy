/**
 * The bookkeeping of sessions: the table of slots, the count of active WTPs and the counts
 * per interface, as the dispatcher and the session threads change them.  Each stretch of code
 * under a mutex is one step, and what runs between two of them is another.
 */
module SlotProtocol {
  import opened Wrappers
  import opened Counting

  // ---------------------------------------------------------------- shared variables

  /** The part of a table entry the protocol uses; a freed entry keeps its interface index. */
  datatype Slot = Slot(isNotFree: bool, interfaceIndex: nat)

  /** gActiveWTPs, the WTPCount of every interface, and gWTPs */
  datatype Shared = Shared(active: int, counts: seq<int>, slots: seq<Slot>)

  /** The first free slot from i on, or the size of the table */
  function ScanFrom(slots: seq<Slot>, i: nat): (r: nat)
    requires i <= |slots|
    ensures i <= r <= |slots| && (r < |slots| ==> !slots[r].isNotFree)
    ensures forall j :: i <= j < r ==> slots[j].isNotFree
    decreases |slots| - i
  {
    if i < |slots| && slots[i].isNotFree then ScanFrom(slots, i + 1) else i
  }

  function Mark(v: Shared, i: nat, isNotFree: bool): Shared
    requires i < |v.slots|
  {
    v.(slots := v.slots[i := v.slots[i].(isNotFree := isNotFree)])
  }

  function StoreInterface(v: Shared, i: nat, interfaceIndex: nat): Shared
    requires i < |v.slots|
  {
    v.(slots := v.slots[i := v.slots[i].(interfaceIndex := interfaceIndex)])
  }

  function CountIn(v: Shared, interfaceIndex: nat): Shared
    requires interfaceIndex < |v.counts|
  {
    v.(active := v.active + 1, counts := v.counts[interfaceIndex := v.counts[interfaceIndex] + 1])
  }

  /** The interface to charge is read from the table entry. */
  function CountOut(v: Shared, i: nat): Shared
    requires i < |v.slots| && v.slots[i].interfaceIndex < |v.counts|
  {
    var k := v.slots[i].interfaceIndex;
    v.(active := v.active - 1, counts := v.counts[k := v.counts[k] - 1])
  }

  /** The controller's variables and the stretches of code that change them */
  class Controller {
    var gActiveWTPs: int
    const wtpCount: array<int>
    const gWTPs: array<Slot>

    ghost function View(): Shared
      reads this, wtpCount, gWTPs
    {
      Shared(gActiveWTPs, wtpCount[..], gWTPs[..])
    }

    constructor (interfaces: nat, gMaxWTPs: nat)
      ensures fresh(wtpCount) && fresh(gWTPs)
      ensures View() == Initial(interfaces, gMaxWTPs).shared
    {
      gActiveWTPs := 0;
      wtpCount := new int[interfaces](_ => 0);
      gWTPs := new Slot[gMaxWTPs](_ => Slot(false, 0));
    }

    /** The dispatcher's claim of the first free slot */
    method ClaimSlot() returns (i: nat)
      modifies gWTPs
      ensures i == ScanFrom(old(gWTPs[..]), 0)
      ensures View() == if i < gWTPs.Length then Mark(old(View()), i, true) else old(View())
    {
      i := 0;
      while i < gWTPs.Length && gWTPs[i].isNotFree
        invariant i <= gWTPs.Length && ScanFrom(gWTPs[..], i) == ScanFrom(gWTPs[..], 0)
      {
        i := i + 1;
      }
      if i < gWTPs.Length {
        gWTPs[i] := gWTPs[i].(isNotFree := true);
      }
    }

    method FreeSlot(i: nat)
      requires i < gWTPs.Length
      modifies gWTPs
      ensures View() == Mark(old(View()), i, false)
    {
      gWTPs[i] := gWTPs[i].(isNotFree := false);
    }

    /** The first locked stretch of a session thread */
    method EnterSession(interfaceIndex: nat)
      requires interfaceIndex < wtpCount.Length
      modifies this`gActiveWTPs, wtpCount
      ensures View() == CountIn(old(View()), interfaceIndex)
    {
      gActiveWTPs := gActiveWTPs + 1;
      wtpCount[interfaceIndex] := wtpCount[interfaceIndex] + 1;
    }

    method SetInterface(i: nat, interfaceIndex: nat)
      requires i < gWTPs.Length
      modifies gWTPs
      ensures View() == StoreInterface(old(View()), i, interfaceIndex)
    {
      gWTPs[i] := gWTPs[i].(interfaceIndex := interfaceIndex);
    }

    /** The locked stretch at the start of _CWCloseThread */
    method LeaveSession(i: nat)
      requires i < gWTPs.Length && gWTPs[i].interfaceIndex < wtpCount.Length
      modifies this`gActiveWTPs, wtpCount
      ensures View() == CountOut(old(View()), i)
    {
      wtpCount[gWTPs[i].interfaceIndex] := wtpCount[gWTPs[i].interfaceIndex] - 1;
      gActiveWTPs := gActiveWTPs - 1;
    }
  }

  // ---------------------------------------------------------------- threads

  datatype Phase =
    | Claimed   // by the dispatcher, before it creates the thread
    | Started   // the thread runs and is not counted yet
    | Counted   // counted, the interface not stored yet
    | Running
    | Uncounted // closing, the slot not released yet
    | Released

  datatype Session = Session(slot: nat, interfaceIndex: nat, phase: Phase)

  /**
   * `admitted` is the interface of the packet that passed the dispatcher's test and has no slot
   * yet; `early` counts, for each interface, the threads that closed before they were counted;
   * `overrun` is set when the scan found no free slot.
   */
  datatype System = System(
    shared: Shared, sessions: seq<Session>, admitted: Option<nat>, early: seq<int>, overrun: bool)

  function Initial(interfaces: nat, max: nat): System {
    var none := seq(interfaces, _ => 0);
    System(Shared(0, none, seq(max, _ => Slot(false, 0))), [], None, none, false)
  }

  /** The number is that of the session whose thread takes the step. */
  datatype Step =
    | Admit(interfaceIndex: nat)
    | Claim
    | Abandon(n: nat)
    | Start(n: nat)
    | CloseEarly(n: nat)
    | Count(n: nat)
    | Store(n: nat)
    | Close(n: nat)
    | Release(n: nat)

  /** The dispatcher is one thread: it admits no packet while it holds a claimed slot. */
  ghost predicate DispatcherIdle(s: System) {
    s.admitted == None && forall n :: 0 <= n < |s.sessions| ==> !s.sessions[n].phase.Claimed?
  }

  predicate InPhase(s: System, n: nat, phase: Phase) {
    n < |s.sessions| && s.sessions[n].phase == phase
  }

  ghost predicate Enabled(s: System, step: Step) {
    && !s.overrun
    && match step
       case Admit(k) => DispatcherIdle(s) && k < |s.shared.counts| && s.shared.active < |s.shared.slots|
       case Claim => s.admitted.Some?
       case Abandon(n) => InPhase(s, n, Claimed)
       case Start(n) => InPhase(s, n, Claimed)
       case CloseEarly(n) => InPhase(s, n, Started)
       case Count(n) => InPhase(s, n, Started)
       case Store(n) => InPhase(s, n, Counted)
       case Close(n) => InPhase(s, n, Running)
       case Release(n) => InPhase(s, n, Uncounted)
  }

  function Moved(s: System, n: nat, phase: Phase, shared: Shared): System
    requires n < |s.sessions|
  {
    s.(sessions := s.sessions[n := s.sessions[n].(phase := phase)], shared := shared)
  }

  function Next(s: System, step: Step): System
    requires Enabled(s, step) && Wellformed(s)
  {
    var v := s.shared;
    match step
    case Admit(k) => s.(admitted := Some(k))
    case Claim =>
      var i := ScanFrom(v.slots, 0);
      if i == |v.slots| then s.(overrun := true)
      else s.(shared := Mark(v, i, true), admitted := None,
              sessions := s.sessions + [Session(i, s.admitted.value, Claimed)])
    case Abandon(n) => Moved(s, n, Released, Mark(v, s.sessions[n].slot, false))
    case Start(n) => Moved(s, n, Started, v)
    case CloseEarly(n) =>
      var k := v.slots[s.sessions[n].slot].interfaceIndex;
      Moved(s.(early := s.early[k := s.early[k] + 1]), n, Uncounted, CountOut(v, s.sessions[n].slot))
    case Count(n) => Moved(s, n, Counted, CountIn(v, s.sessions[n].interfaceIndex))
    case Store(n) => Moved(s, n, Running, StoreInterface(v, s.sessions[n].slot, s.sessions[n].interfaceIndex))
    case Close(n) => Moved(s, n, Uncounted, CountOut(v, s.sessions[n].slot))
    case Release(n) => Moved(s, n, Released, Mark(v, s.sessions[n].slot, false))
  }

  /** Every index held anywhere is inside its table. */
  ghost predicate Wellformed(s: System) {
    && |s.early| == |s.shared.counts|
    && (s.admitted.Some? ==> s.admitted.value < |s.shared.counts|)
    && (forall i :: 0 <= i < |s.shared.slots| && |s.shared.counts| > 0 ==>
          s.shared.slots[i].interfaceIndex < |s.shared.counts|)
    && (forall n :: 0 <= n < |s.sessions| ==>
          s.sessions[n].slot < |s.shared.slots| && s.sessions[n].interfaceIndex < |s.shared.counts|)
  }

  // ---------------------------------------------------------------- tallies

  predicate Taken(slot: Slot) {
    slot.isNotFree
  }

  /** A session owns its slot until it is released. */
  predicate Live(x: Session) {
    !x.phase.Released?
  }

  predicate IsCounted(x: Session) {
    x.phase.Counted? || x.phase.Running?
  }

  function CountedOn(k: nat): Session -> bool {
    (x: Session) => IsCounted(x) && x.interfaceIndex == k
  }

  // ---------------------------------------------------------------- what every step keeps

  /** Every live session owns a slot of its own, and a running one has its interface stored there. */
  ghost predicate SlotsOwned(slots: seq<Slot>, sessions: seq<Session>) {
    && (forall n :: 0 <= n < |sessions| ==> sessions[n].slot < |slots|)
    && (forall n :: 0 <= n < |sessions| && Live(sessions[n]) ==> Taken(slots[sessions[n].slot]))
    && (forall m, n :: 0 <= m < n < |sessions| && Live(sessions[m]) && Live(sessions[n]) ==>
          sessions[m].slot != sessions[n].slot)
    && (forall n :: 0 <= n < |sessions| && sessions[n].phase.Running? ==>
          slots[sessions[n].slot].interfaceIndex == sessions[n].interfaceIndex)
  }

  ghost predicate Owned(s: System) {
    Wellformed(s) && SlotsOwned(s.shared.slots, s.sessions)
  }

  ghost predicate Tallied(s: System) {
    && |s.early| == |s.shared.counts|
    && Tally(s.shared.slots, Taken) == Tally(s.sessions, Live)
    && s.shared.active == Sum(s.shared.counts)
    && s.shared.active + Sum(s.early) == Tally(s.sessions, IsCounted)
    && (forall k :: 0 <= k < |s.early| ==>
          s.shared.counts[k] + s.early[k] == Tally(s.sessions, CountedOn(k)))
  }

  lemma InitialHolds(interfaces: nat, max: nat)
    ensures Owned(Initial(interfaces, max)) && Tallied(Initial(interfaces, max))
  {
    SumOfZeros(interfaces);
    TallyOfNone(Initial(interfaces, max).shared.slots, Taken);
  }

  lemma ClaimKeepsOwned(slots: seq<Slot>, sessions: seq<Session>, x: Session)
    requires SlotsOwned(slots, sessions)
    requires x.slot < |slots| && !Taken(slots[x.slot]) && x.phase.Claimed?
    ensures SlotsOwned(slots[x.slot := slots[x.slot].(isNotFree := true)], sessions + [x])
  {
  }

  /** A session that changes phase without touching its slot */
  lemma MoveKeepsOwned(slots: seq<Slot>, sessions: seq<Session>, n: nat, phase: Phase)
    requires SlotsOwned(slots, sessions) && n < |sessions|
    requires Live(sessions[n]) && !phase.Released? && !phase.Running?
    ensures SlotsOwned(slots, sessions[n := sessions[n].(phase := phase)])
  {
  }

  lemma FreeKeepsOwned(slots: seq<Slot>, sessions: seq<Session>, n: nat)
    requires SlotsOwned(slots, sessions) && n < |sessions| && Live(sessions[n])
    ensures var i := sessions[n].slot;
            SlotsOwned(slots[i := slots[i].(isNotFree := false)], sessions[n := sessions[n].(phase := Released)])
  {
  }

  lemma StoreKeepsOwned(slots: seq<Slot>, sessions: seq<Session>, n: nat)
    requires SlotsOwned(slots, sessions) && n < |sessions| && Live(sessions[n])
    ensures var x := sessions[n];
            SlotsOwned(slots[x.slot := slots[x.slot].(interfaceIndex := x.interfaceIndex)],
                       sessions[n := x.(phase := Running)])
  {
  }

  lemma StepKeepsWellformed(s: System, step: Step)
    requires Wellformed(s) && Enabled(s, step)
    ensures Wellformed(Next(s, step))
    ensures |Next(s, step).shared.slots| == |s.shared.slots|
    ensures |Next(s, step).shared.counts| == |s.shared.counts|
  {
  }

  lemma StepKeepsOwned(s: System, step: Step)
    requires Owned(s) && Enabled(s, step)
    ensures Owned(Next(s, step))
  {
    StepKeepsWellformed(s, step);
    var v := s.shared;
    match step
    case Admit(_) =>
    case Claim =>
      var i := ScanFrom(v.slots, 0);
      if i < |v.slots| {
        ClaimKeepsOwned(v.slots, s.sessions, Session(i, s.admitted.value, Claimed));
      }
    case Abandon(n) => FreeKeepsOwned(v.slots, s.sessions, n);
    case Start(n) => MoveKeepsOwned(v.slots, s.sessions, n, Started);
    case CloseEarly(n) => MoveKeepsOwned(v.slots, s.sessions, n, Uncounted);
    case Count(n) => MoveKeepsOwned(v.slots, s.sessions, n, Counted);
    case Store(n) => StoreKeepsOwned(v.slots, s.sessions, n);
    case Close(n) => MoveKeepsOwned(v.slots, s.sessions, n, Uncounted);
    case Release(n) => FreeKeepsOwned(v.slots, s.sessions, n);
  }

  /** What a change of phase does to the tallies */
  lemma TalliesMove(sessions: seq<Session>, n: nat, phase: Phase)
    requires n < |sessions|
    ensures var x, y := sessions[n], sessions[n].(phase := phase);
            var moved := sessions[n := y];
            && Tally(moved, Live) == Tally(sessions, Live) - One(Live(x)) + One(Live(y))
            && Tally(moved, IsCounted) == Tally(sessions, IsCounted) - One(IsCounted(x)) + One(IsCounted(y))
            && forall k: nat :: Tally(moved, CountedOn(k)) ==
                 Tally(sessions, CountedOn(k)) - One(IsCounted(x) && x.interfaceIndex == k)
                                               + One(IsCounted(y) && y.interfaceIndex == k)
  {
    var y := sessions[n].(phase := phase);
    TallyUpdate(sessions, n, y, Live);
    TallyUpdate(sessions, n, y, IsCounted);
    forall k: nat
      ensures Tally(sessions[n := y], CountedOn(k)) ==
        Tally(sessions, CountedOn(k)) - One(CountedOn(k)(sessions[n])) + One(CountedOn(k)(y))
    {
      TallyUpdate(sessions, n, y, CountedOn(k));
    }
  }

  lemma TalliesAppend(sessions: seq<Session>, x: Session)
    requires x.phase.Claimed?
    ensures Tally(sessions + [x], Live) == Tally(sessions, Live) + 1
    ensures Tally(sessions + [x], IsCounted) == Tally(sessions, IsCounted)
    ensures forall k: nat :: Tally(sessions + [x], CountedOn(k)) == Tally(sessions, CountedOn(k))
  {
    TallyAppend(sessions, x, Live);
    TallyAppend(sessions, x, IsCounted);
    forall k: nat ensures Tally(sessions + [x], CountedOn(k)) == Tally(sessions, CountedOn(k)) {
      TallyAppend(sessions, x, CountedOn(k));
    }
  }

  lemma ClaimKeepsTallied(s: System)
    requires Owned(s) && Tallied(s) && Enabled(s, Claim)
    ensures Tallied(Next(s, Claim))
  {
    var slots, i := s.shared.slots, ScanFrom(s.shared.slots, 0);
    if i < |slots| {
      TallyUpdate(slots, i, slots[i].(isNotFree := true), Taken);
      TalliesAppend(s.sessions, Session(i, s.admitted.value, Claimed));
    }
  }

  lemma FreeKeepsTallied(s: System, n: nat, step: Step)
    requires Owned(s) && Tallied(s) && Enabled(s, step) && (step == Abandon(n) || step == Release(n))
    ensures Tallied(Next(s, step))
  {
    var slots, i := s.shared.slots, s.sessions[n].slot;
    TallyUpdate(slots, i, slots[i].(isNotFree := false), Taken);
    TalliesMove(s.sessions, n, Released);
  }

  lemma CloseEarlyKeepsSums(s: System, n: nat)
    requires Owned(s) && Tallied(s) && Enabled(s, CloseEarly(n))
    ensures var t := Next(s, CloseEarly(n));
            && t.shared.active == Sum(t.shared.counts)
            && t.shared.active + Sum(t.early) == s.shared.active + Sum(s.early)
            && |t.early| == |t.shared.counts|
            && forall k :: 0 <= k < |t.early| ==> t.shared.counts[k] + t.early[k] == s.shared.counts[k] + s.early[k]
  {
    var k := s.shared.slots[s.sessions[n].slot].interfaceIndex;
    SumUpdate(s.shared.counts, k, s.shared.counts[k] - 1);
    SumUpdate(s.early, k, s.early[k] + 1);
  }

  lemma CloseEarlyKeepsTallied(s: System, n: nat)
    requires Owned(s) && Tallied(s) && Enabled(s, CloseEarly(n))
    ensures Tallied(Next(s, CloseEarly(n)))
  {
    CloseEarlyKeepsSums(s, n);
    TalliesMove(s.sessions, n, Uncounted);
  }

  lemma CountKeepsTallied(s: System, n: nat)
    requires Owned(s) && Tallied(s) && Enabled(s, Count(n))
    ensures Tallied(Next(s, Count(n)))
  {
    var k := s.sessions[n].interfaceIndex;
    SumUpdate(s.shared.counts, k, s.shared.counts[k] + 1);
    TalliesMove(s.sessions, n, Counted);
  }

  lemma StoreKeepsTallied(s: System, n: nat)
    requires Owned(s) && Tallied(s) && Enabled(s, Store(n))
    ensures Tallied(Next(s, Store(n)))
  {
    var slots, x := s.shared.slots, s.sessions[n];
    TallyUpdate(slots, x.slot, slots[x.slot].(interfaceIndex := x.interfaceIndex), Taken);
    TalliesMove(s.sessions, n, Running);
  }

  lemma CloseKeepsTallied(s: System, n: nat)
    requires Owned(s) && Tallied(s) && Enabled(s, Close(n))
    ensures Tallied(Next(s, Close(n)))
  {
    var k := s.sessions[n].interfaceIndex;
    SumUpdate(s.shared.counts, k, s.shared.counts[k] - 1);
    TalliesMove(s.sessions, n, Uncounted);
  }

  lemma StepKeepsTallied(s: System, step: Step)
    requires Owned(s) && Tallied(s) && Enabled(s, step)
    ensures Tallied(Next(s, step))
  {
    match step
    case Admit(_) =>
    case Claim => ClaimKeepsTallied(s);
    case Abandon(n) => FreeKeepsTallied(s, n, step);
    case Start(n) => TalliesMove(s.sessions, n, Started);
    case CloseEarly(n) => CloseEarlyKeepsTallied(s, n);
    case Count(n) => CountKeepsTallied(s, n);
    case Store(n) => StoreKeepsTallied(s, n);
    case Close(n) => CloseKeepsTallied(s, n);
    case Release(n) => FreeKeepsTallied(s, n, step);
  }

  // ---------------------------------------------------------------- whole runs

  /** The system after the steps, if each of them is enabled when its turn comes */
  ghost function After(s: System, steps: seq<Step>): Option<System>
    decreases |steps|
  {
    if steps == [] then Some(s)
    else if Wellformed(s) && Enabled(s, steps[0]) then After(Next(s, steps[0]), steps[1..])
    else None
  }

  lemma StepKeepsAll(s: System, step: Step)
    requires Owned(s) && Tallied(s) && Enabled(s, step)
    ensures Owned(Next(s, step)) && Tallied(Next(s, step))
    ensures |Next(s, step).shared.slots| == |s.shared.slots|
    ensures |Next(s, step).shared.counts| == |s.shared.counts|
  {
    StepKeepsWellformed(s, step);
    StepKeepsOwned(s, step);
    StepKeepsTallied(s, step);
  }

  lemma {:induction false} RunKeeps(s: System, steps: seq<Step>)
    requires Owned(s) && Tallied(s) && After(s, steps).Some?
    ensures var t := After(s, steps).value;
            Owned(t) && Tallied(t)
            && |t.shared.slots| == |s.shared.slots| && |t.shared.counts| == |s.shared.counts|
    decreases |steps|
  {
    if steps != [] {
      StepKeepsAll(s, steps[0]);
      RunKeeps(Next(s, steps[0]), steps[1..]);
    }
  }

  /** A state some interleaving of the dispatcher and the session threads leads to */
  ghost predicate Reachable(s: System, interfaces: nat, max: nat) {
    exists steps :: After(Initial(interfaces, max), steps) == Some(s)
  }

  /** A live session that is not among the counted ones */
  predicate InTransit(x: Session) {
    Live(x) && !IsCounted(x)
  }

  lemma {:induction false} LiveSplits(sessions: seq<Session>)
    ensures Tally(sessions, Live) == Tally(sessions, IsCounted) + Tally(sessions, InTransit)
  {
    if sessions != [] { LiveSplits(sessions[1..]); }
  }

  /**
   * After any run: the count of active WTPs is the sum of the counts per interface; both count
   * the threads between increment and decrement, less the threads that closed before they were
   * counted; the taken slots are the live sessions, at most the size of the table; and no two
   * live sessions share a slot.
   */
  lemma CountersAgree(s: System, interfaces: nat, max: nat)
    requires Reachable(s, interfaces, max)
    ensures var v := s.shared;
            && v.active == Sum(v.counts)
            && v.active + Sum(s.early) == Tally(s.sessions, IsCounted)
            && (forall k :: 0 <= k < interfaces ==>
                  |v.counts| == |s.early| == interfaces
                  && v.counts[k] + s.early[k] == Tally(s.sessions, CountedOn(k)))
            && Tally(v.slots, Taken) == Tally(s.sessions, IsCounted) + Tally(s.sessions, InTransit) <= max
            && (forall m, n :: 0 <= m < n < |s.sessions| && Live(s.sessions[m]) && Live(s.sessions[n]) ==>
                  s.sessions[m].slot != s.sessions[n].slot)
  {
    var steps :| After(Initial(interfaces, max), steps) == Some(s);
    InitialHolds(interfaces, max);
    RunKeeps(Initial(interfaces, max), steps);
    LiveSplits(s.sessions);
    TallyOfAll(s.shared.slots, Taken);
  }

  /**
   * The scan behind the dispatcher's test runs off the table exactly when the counted threads
   * and those on their way in or out together take every slot.
   */
  lemma ScanFailsIff(s: System, interfaces: nat, max: nat)
    requires Reachable(s, interfaces, max) && Enabled(s, Claim) && Wellformed(s)
    ensures Next(s, Claim).overrun <==>
            s.shared.active + Sum(s.early) + Tally(s.sessions, InTransit) == max
  {
    var steps :| After(Initial(interfaces, max), steps) == Some(s);
    InitialHolds(interfaces, max);
    RunKeeps(Initial(interfaces, max), steps);
    LiveSplits(s.sessions);
    TallyOfAll(s.shared.slots, Taken);
  }

  /**
   * A packet that finds the dispatcher idle is admitted exactly if the counted threads, less the
   * early closes that were taken off the count, are fewer than the slots.
   */
  lemma AdmittedIff(s: System, interfaces: nat, max: nat, k: nat)
    requires Reachable(s, interfaces, max) && !s.overrun && DispatcherIdle(s) && k < interfaces
    ensures Enabled(s, Admit(k)) <==> Tally(s.sessions, IsCounted) - Sum(s.early) < max
  {
    var steps :| After(Initial(interfaces, max), steps) == Some(s);
    InitialHolds(interfaces, max);
    RunKeeps(Initial(interfaces, max), steps);
  }

  /**
   * What the test is good for: the scan for an admitted packet fails only if a thread is on its
   * way in or out, or has closed early.
   */
  lemma OverrunNeedsTransit(s: System, interfaces: nat, max: nat, k: nat)
    requires Reachable(s, interfaces, max) && Wellformed(s) && Enabled(s, Admit(k))
    requires Next(Next(s, Admit(k)), Claim).overrun
    ensures Tally(s.sessions, InTransit) > 0 || Sum(s.early) > 0
  {
    var steps :| After(Initial(interfaces, max), steps) == Some(s);
    InitialHolds(interfaces, max);
    RunKeeps(Initial(interfaces, max), steps);
    LiveSplits(s.sessions);
    TallyOfAll(s.shared.slots, Taken);
  }

  // Told from the steps of a run alone, the last one first

  /** The interface of the packet that was admitted last and has no slot yet */
  function Waiting(steps: seq<Step>): Option<nat> {
    if steps == [] then None
    else
      match steps[|steps| - 1]
      case Admit(k) => Some(k)
      case Claim => None
      case _ => Waiting(steps[..|steps| - 1])
  }

  /** The interfaces of the packets that were given a slot, in their order */
  function Served(steps: seq<Step>): seq<nat> {
    if steps == [] then []
    else
      var front := steps[..|steps| - 1];
      if steps[|steps| - 1].Claim? && Waiting(front).Some? then Served(front) + [Waiting(front).value]
      else Served(front)
  }

  ghost predicate Serves(s: System, done: seq<Step>) {
    !s.overrun ==>
      && s.admitted == Waiting(done) && |s.sessions| == |Served(done)|
      && forall n :: 0 <= n < |s.sessions| ==> s.sessions[n].interfaceIndex == Served(done)[n]
  }

  lemma StepKeepsServes(s: System, done: seq<Step>, step: Step)
    requires Serves(s, done) && Wellformed(s) && Enabled(s, step)
    ensures Serves(Next(s, step), done + [step])
  {
    var next := done + [step];
    assert next[..|next| - 1] == done && next[|next| - 1] == step;
  }

  lemma {:induction false} RunKeepsServes(s: System, done: seq<Step>, steps: seq<Step>)
    requires Serves(s, done) && After(s, steps).Some?
    ensures Serves(After(s, steps).value, done + steps)
    decreases |steps|
  {
    if steps == [] {
      assert done + steps == done;
    } else {
      StepKeepsServes(s, done, steps[0]);
      RunKeepsServes(Next(s, steps[0]), done + [steps[0]], steps[1..]);
      assert done + [steps[0]] + steps[1..] == done + steps;
    }
  }

  /** Every session thread serves the interface its packet was admitted for. */
  lemma SessionsServeAdmitted(interfaces: nat, max: nat, steps: seq<Step>)
    requires After(Initial(interfaces, max), steps).Some? && !After(Initial(interfaces, max), steps).value.overrun
    ensures var sessions := After(Initial(interfaces, max), steps).value.sessions;
            && |sessions| == |Served(steps)|
            && forall n :: 0 <= n < |sessions| ==> sessions[n].interfaceIndex == Served(steps)[n]
  {
    RunKeepsServes(Initial(interfaces, max), [], steps);
    assert [] + steps == steps;
  }

  function EarlyCloses(steps: seq<Step>): nat {
    if steps == [] then 0 else One(steps[0].CloseEarly?) + EarlyCloses(steps[1..])
  }

  lemma {:induction false} EarlyIsCloses(s: System, steps: seq<Step>)
    requires After(s, steps).Some?
    ensures Sum(After(s, steps).value.early) == Sum(s.early) + EarlyCloses(steps)
    decreases |steps|
  {
    if steps != [] {
      if steps[0].CloseEarly? {
        var k := s.shared.slots[s.sessions[steps[0].n].slot].interfaceIndex;
        SumUpdate(s.early, k, s.early[k] + 1);
      }
      EarlyIsCloses(Next(s, steps[0]), steps[1..]);
    }
  }

  /** The count of active WTPs is the number of counted threads exactly on runs without an early close. */
  lemma ActiveExactIff(interfaces: nat, max: nat, steps: seq<Step>)
    requires After(Initial(interfaces, max), steps).Some?
    ensures var s := After(Initial(interfaces, max), steps).value;
            && s.shared.active == Tally(s.sessions, IsCounted) - EarlyCloses(steps)
            && (s.shared.active == Tally(s.sessions, IsCounted) <==> forall step <- steps :: !step.CloseEarly?)
  {
    var s := After(Initial(interfaces, max), steps).value;
    assert Reachable(s, interfaces, max);
    CountersAgree(s, interfaces, max);
    EarlyIsCloses(Initial(interfaces, max), steps);
    SumOfZeros(interfaces);
    NoEarlyCloses(steps);
  }

  lemma {:induction false} NoEarlyCloses(steps: seq<Step>)
    ensures EarlyCloses(steps) == 0 <==> forall step <- steps :: !step.CloseEarly?
  {
    if steps != [] {
      NoEarlyCloses(steps[1..]);
      assert steps == [steps[0]] + steps[1..];
    }
  }

  lemma Advance(s: System, step: Step, rest: seq<Step>)
    requires Wellformed(s) && Enabled(s, step)
    ensures After(s, [step] + rest) == After(Next(s, step), rest)
  {
    assert ([step] + rest)[1..] == rest;
  }

  /** A table of one slot, held by the first thread, which is not counted yet */
  function OneStarted(): System {
    System(Shared(0, [0], [Slot(true, 0)]), [Session(0, 0, Started)], None, [0], false)
  }

  lemma FirstClaim()
    ensures var free := System(Shared(0, [0], [Slot(false, 0)]), [], Some(0), [0], false);
            Next(free, Claim) ==
              System(Shared(0, [0], [Slot(true, 0)]), [Session(0, 0, Claimed)], None, [0], false)
  {
    assert ScanFrom([Slot(false, 0)], 0) == 0 && [Slot(false, 0)][0 := Slot(true, 0)] == [Slot(true, 0)];
  }

  lemma FirstStart()
    ensures var claimed := System(Shared(0, [0], [Slot(true, 0)]), [Session(0, 0, Claimed)], None, [0], false);
            Next(claimed, Start(0)) == OneStarted()
  {
    assert [Session(0, 0, Claimed)][0 := Session(0, 0, Started)] == [Session(0, 0, Started)];
  }

  lemma OneStartedIsReachable()
    ensures Reachable(OneStarted(), 1, 1)
  {
    var free, taken := [Slot(false, 0)], [Slot(true, 0)];
    var s0 := System(Shared(0, [0], free), [], None, [0], false);
    var s1 := s0.(admitted := Some(0));
    var s2 := System(Shared(0, [0], taken), [Session(0, 0, Claimed)], None, [0], false);
    assert Initial(1, 1) == s0 by {
      assert seq(1, _ => 0) == [0] && seq(1, _ => Slot(false, 0)) == free;
    }
    FirstClaim();
    FirstStart();
    Advance(s0, Admit(0), [Claim] + ([Start(0)] + []));
    Advance(s1, Claim, [Start(0)] + []);
    Advance(s2, Start(0), []);
  }

  /** The test does not keep the scan from failing: a thread that is not counted yet holds the only slot. */
  lemma AdmittedWithoutSlot()
    ensures Reachable(OneStarted(), 1, 1) && Wellformed(OneStarted())
    ensures Enabled(OneStarted(), Admit(0)) && Next(Next(OneStarted(), Admit(0)), Claim).overrun
  {
    OneStartedIsReachable();
    assert ScanFrom(OneStarted().shared.slots, 0) == 1;
  }

  /** A thread that closes before it is counted takes one away that was never added. */
  lemma EarlyCloseDrifts()
    ensures Reachable(OneStarted(), 1, 1) && Wellformed(OneStarted())
    ensures Enabled(OneStarted(), CloseEarly(0)) && Next(OneStarted(), CloseEarly(0)).shared.active == -1
  {
    OneStartedIsReachable();
  }
}
