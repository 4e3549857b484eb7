/**
 * The pool of application sockets: the acceptor hands a free socket to a new handler thread,
 * handlers give it back.  Each stretch of code under the mutex is one step; the acceptor marks
 * a socket free again outside the mutex when the thread cannot be created.
 */
module ApplicationPool {
  import opened Wrappers
  import opened Counting

  const MAX_APPS_CONNECTED_TO_AC := 4

  // ---------------------------------------------------------------- shared variables

  datatype Pool = Pool(isFree: seq<bool>, numSocketFree: int)

  predicate IsTrue(b: bool) {
    b
  }

  /** The first free socket from i on, or the size of the pool */
  function FreeFrom(isFree: seq<bool>, i: nat): (r: nat)
    requires i <= |isFree|
    ensures i <= r <= |isFree| && (r < |isFree| ==> isFree[r])
    ensures forall j :: i <= j < r ==> !isFree[j]
    decreases |isFree| - i
  {
    if i < |isFree| && !isFree[i] then FreeFrom(isFree, i + 1) else i
  }

  function Claim(p: Pool): Pool {
    var i := FreeFrom(p.isFree, 0);
    Pool(if i < |p.isFree| then p.isFree[i := false] else p.isFree, p.numSocketFree - 1)
  }

  function MarkFree(p: Pool, i: nat): Pool
    requires i < |p.isFree|
  {
    p.(isFree := p.isFree[i := true])
  }

  function CountFree(p: Pool): Pool {
    p.(numSocketFree := p.numSocketFree + 1)
  }

  class AppsManager {
    const isFree: array<bool>
    var numSocketFree: int

    ghost predicate Valid() {
      isFree.Length == MAX_APPS_CONNECTED_TO_AC
    }

    ghost function View(): Pool
      reads this, isFree
    {
      Pool(isFree[..], numSocketFree)
    }

    /** The set-up at the start of CWInterface */
    constructor ()
      ensures Valid() && fresh(isFree) && View() == Initial().pool
    {
      isFree := new bool[MAX_APPS_CONNECTED_TO_AC];
      numSocketFree := MAX_APPS_CONNECTED_TO_AC;
      new;
      for i := 0 to MAX_APPS_CONNECTED_TO_AC
        invariant forall j :: 0 <= j < i ==> isFree[j]
        invariant fresh(isFree) && numSocketFree == MAX_APPS_CONNECTED_TO_AC
      {
        isFree[i] := true;
      }
    }

    /** The locked stretch behind accept: `socket` stays `None` if the search finds nothing. */
    method ClaimSocket() returns (full: bool, socket: Option<nat>)
      requires Valid()
      modifies this`numSocketFree, isFree
      ensures full <==> old(numSocketFree) <= 0
      ensures View() == if full then old(View()) else Claim(old(View()))
      ensures var i := FreeFrom(old(isFree[..]), 0);
              socket == if full || i == isFree.Length then None else Some(i)
    {
      full, socket := !(numSocketFree > 0), None;
      if full {
        return;
      }
      var i := 0;
      while i < MAX_APPS_CONNECTED_TO_AC
        invariant i <= isFree.Length && isFree[..] == old(isFree[..]) && socket == None
        invariant FreeFrom(isFree[..], i) == FreeFrom(isFree[..], 0)
      {
        if isFree[i] {
          socket := Some(i);
          isFree[i] := false;
          break;
        }
        i := i + 1;
      }
      numSocketFree := numSocketFree - 1;
    }

    /** The unlocked assignment after a thread could not be created */
    method MarkSocketFree(i: nat)
      requires i < isFree.Length
      modifies isFree
      ensures View() == MarkFree(old(View()), i)
    {
      isFree[i] := true;
    }

    method CountSocketFree()
      modifies this`numSocketFree
      ensures View() == CountFree(old(View()))
    {
      numSocketFree := numSocketFree + 1;
    }

    /** The locked stretch at the end of a handler */
    method ReleaseSocket(i: nat)
      requires i < isFree.Length
      modifies this`numSocketFree, isFree
      ensures View() == CountFree(MarkFree(old(View()), i))
    {
      isFree[i] := true;
      numSocketFree := numSocketFree + 1;
    }
  }

  // ---------------------------------------------------------------- threads

  /**
   * `Holding` is the acceptor between claiming a socket and starting its handler, `Settling`
   * between marking the socket free and counting it; `Lost` is the acceptor that counted a
   * socket down and found none, and `Dead` the one that returned.
   */
  datatype Acceptor =
    | Waiting
    | Holding(socket: nat)
    | Settling
    | Lost
    | Dead(socket: nat)

  /** A handler that is `Gone` gave its socket back; one that `Quit` without doing so keeps it. */
  datatype Stage = Serving | Quit | Gone

  datatype Handler = Handler(socket: nat, stage: Stage)

  datatype System = System(pool: Pool, acceptor: Acceptor, handlers: seq<Handler>)

  function Initial(): System {
    System(Pool([true, true, true, true], MAX_APPS_CONNECTED_TO_AC), Waiting, [])
  }

  datatype Step =
    | Accept
    | MutexFails
    | Spawn
    | SpawnFails
    | Settle
    | Release(h: nat)
    | Leave(h: nat)

  predicate Enabled(s: System, step: Step) {
    match step
    case Accept => s.acceptor.Waiting?
    case MutexFails => s.acceptor.Holding?
    case Spawn => s.acceptor.Holding?
    case SpawnFails => s.acceptor.Holding?
    case Settle => s.acceptor.Settling?
    case Release(h) => h < |s.handlers| && s.handlers[h].stage.Serving?
    case Leave(h) => h < |s.handlers| && s.handlers[h].stage.Serving?
  }

  predicate Wellformed(s: System) {
    && |s.pool.isFree| == MAX_APPS_CONNECTED_TO_AC
    && (s.acceptor.Holding? || s.acceptor.Dead? ==> s.acceptor.socket < |s.pool.isFree|)
    && (forall h :: 0 <= h < |s.handlers| ==> s.handlers[h].socket < |s.pool.isFree|)
  }

  function Next(s: System, step: Step): System
    requires Wellformed(s) && Enabled(s, step)
  {
    match step
    case Accept =>
      if s.pool.numSocketFree <= 0 then s
      else
        var i := FreeFrom(s.pool.isFree, 0);
        s.(pool := Claim(s.pool), acceptor := if i < |s.pool.isFree| then Holding(i) else Lost)
    case MutexFails => s.(acceptor := Dead(s.acceptor.socket))
    case Spawn => s.(acceptor := Waiting, handlers := s.handlers + [Handler(s.acceptor.socket, Serving)])
    case SpawnFails => s.(pool := MarkFree(s.pool, s.acceptor.socket), acceptor := Settling)
    case Settle => s.(pool := CountFree(s.pool), acceptor := Waiting)
    case Release(h) =>
      s.(pool := CountFree(MarkFree(s.pool, s.handlers[h].socket)),
         handlers := s.handlers[h := s.handlers[h].(stage := Gone)])
    case Leave(h) => s.(handlers := s.handlers[h := s.handlers[h].(stage := Quit)])
  }

  // ---------------------------------------------------------------- what every step keeps

  /** The handler has not given its socket back. */
  predicate Holds(h: Handler) {
    !h.stage.Gone?
  }

  /** The socket the acceptor holds for a handler that does not exist yet, or never will */
  function Held(a: Acceptor): nat {
    One(a.Holding? || a.Dead?)
  }

  /** Sockets that are held are not free, and held by one thread only. */
  ghost predicate Owned(s: System) {
    && Wellformed(s)
    && (forall h :: 0 <= h < |s.handlers| && Holds(s.handlers[h]) ==> !s.pool.isFree[s.handlers[h].socket])
    && (forall g, h :: 0 <= g < h < |s.handlers| && Holds(s.handlers[g]) && Holds(s.handlers[h]) ==>
          s.handlers[g].socket != s.handlers[h].socket)
    && (s.acceptor.Holding? || s.acceptor.Dead? ==>
          && !s.pool.isFree[s.acceptor.socket]
          && forall h :: 0 <= h < |s.handlers| && Holds(s.handlers[h]) ==>
               s.handlers[h].socket != s.acceptor.socket)
  }

  ghost predicate Tallied(s: System) {
    && Tally(s.pool.isFree, IsTrue) == s.pool.numSocketFree + One(s.acceptor.Settling?)
    && s.pool.numSocketFree + One(s.acceptor.Settling?) + Tally(s.handlers, Holds) + Held(s.acceptor) ==
         MAX_APPS_CONNECTED_TO_AC
    && s.pool.numSocketFree >= 0
    && !s.acceptor.Lost?
  }

  lemma StepKeepsOwned(s: System, step: Step)
    requires Owned(s) && Enabled(s, step)
    ensures Owned(Next(s, step))
  {
    match step
    case Release(h) => HandlerKeepsOwned(s, h);
    case Leave(h) => HandlerKeepsOwned(s, h);
    case _ => AcceptorKeepsOwned(s, step);
  }

  lemma AcceptorKeepsOwned(s: System, step: Step)
    requires Owned(s) && Enabled(s, step) && !step.Release? && !step.Leave?
    ensures Owned(Next(s, step))
  {
  }

  lemma HandlerKeepsOwned(s: System, h: nat)
    requires Owned(s) && Enabled(s, Release(h))
    ensures Owned(Next(s, Release(h))) && Owned(Next(s, Leave(h)))
  {
  }

  /** While a socket is counted free the search finds one, and only then. */
  lemma SearchFindsIff(isFree: seq<bool>)
    ensures FreeFrom(isFree, 0) < |isFree| <==> Tally(isFree, IsTrue) > 0
  {
    var i := FreeFrom(isFree, 0);
    if i < |isFree| {
      TallyUpdate(isFree, i, false, IsTrue);
    } else {
      TallyOfNone(isFree, IsTrue);
    }
  }

  lemma StepKeepsTallied(s: System, step: Step)
    requires Owned(s) && Tallied(s) && Enabled(s, step)
    ensures Tallied(Next(s, step))
  {
    var isFree := s.pool.isFree;
    match step
    case Accept =>
      SearchFindsIff(isFree);
      if s.pool.numSocketFree > 0 {
        TallyUpdate(isFree, FreeFrom(isFree, 0), false, IsTrue);
      }
    case MutexFails =>
    case Spawn => TallyAppend(s.handlers, Handler(s.acceptor.socket, Serving), Holds);
    case SpawnFails => TallyUpdate(isFree, s.acceptor.socket, true, IsTrue);
    case Settle =>
    case Release(h) =>
      TallyUpdate(isFree, s.handlers[h].socket, true, IsTrue);
      TallyUpdate(s.handlers, h, s.handlers[h].(stage := Gone), Holds);
    case Leave(h) => TallyUpdate(s.handlers, h, s.handlers[h].(stage := Quit), Holds);
  }

  // ---------------------------------------------------------------- whole runs

  ghost function After(s: System, steps: seq<Step>): Option<System>
    decreases |steps|
  {
    if steps == [] then Some(s)
    else if Wellformed(s) && Enabled(s, steps[0]) then After(Next(s, steps[0]), steps[1..])
    else None
  }

  /** A state some interleaving of the acceptor and the handlers leads to */
  ghost predicate Reachable(s: System) {
    exists steps :: After(Initial(), steps) == Some(s)
  }

  lemma {:induction false} RunKeeps(s: System, steps: seq<Step>)
    requires Owned(s) && Tallied(s) && After(s, steps).Some?
    ensures Owned(After(s, steps).value) && Tallied(After(s, steps).value)
    decreases |steps|
  {
    if steps != [] {
      StepKeepsOwned(s, steps[0]);
      StepKeepsTallied(s, steps[0]);
      RunKeeps(Next(s, steps[0]), steps[1..]);
    }
  }

  lemma ReachableIsTallied(s: System)
    requires Reachable(s)
    ensures Owned(s) && Tallied(s)
  {
    var steps :| After(Initial(), steps) == Some(s);
    assert Tally([true, true, true, true], IsTrue) == 4 by {
      TallyOfAll([true, true, true, true], IsTrue);
    }
    RunKeeps(Initial(), steps);
  }

  /**
   * After any run the free sockets are as many as are counted, and one more exactly while the
   * acceptor is between marking and counting a socket; whenever the count is positive the search
   * finds a socket; and no socket has two handlers.
   */
  lemma PoolAgrees(s: System)
    requires Reachable(s)
    ensures Tally(s.pool.isFree, IsTrue) == s.pool.numSocketFree + One(s.acceptor.Settling?)
    ensures s.pool.numSocketFree > 0 ==> FreeFrom(s.pool.isFree, 0) < |s.pool.isFree|
    ensures !s.acceptor.Lost?
    ensures forall g, h :: 0 <= g < h < |s.handlers| && s.handlers[g].stage.Serving? && s.handlers[h].stage.Serving? ==>
              s.handlers[g].socket != s.handlers[h].socket
  {
    ReachableIsTallied(s);
    SearchFindsIff(s.pool.isFree);
  }

  /** A new application is served exactly when fewer handlers than sockets hold one, including those that left. */
  lemma ServedIff(s: System)
    requires Reachable(s) && s.acceptor.Waiting? && Wellformed(s)
    ensures Next(s, Accept).acceptor.Holding? <==> Tally(s.handlers, Holds) < MAX_APPS_CONNECTED_TO_AC
    ensures !Next(s, Accept).acceptor.Holding? ==> Next(s, Accept) == s
  {
    ReachableIsTallied(s);
    SearchFindsIff(s.pool.isFree);
  }

  predicate Left(h: Handler) {
    h.stage.Quit?
  }

  /** Once as many handlers as there are sockets have left without giving theirs back, nothing is served again. */
  lemma {:induction false} LeaksAreForever(s: System, steps: seq<Step>)
    requires Owned(s) && Tallied(s) && After(s, steps).Some?
    ensures Tally(After(s, steps).value.handlers, Left) >= Tally(s.handlers, Left)
    ensures Tally(s.handlers, Left) == MAX_APPS_CONNECTED_TO_AC ==> After(s, steps).value == s
    decreases |steps|
  {
    if steps != [] {
      var t := Next(s, steps[0]);
      StepKeepsOwned(s, steps[0]);
      StepKeepsTallied(s, steps[0]);
      LeaksAreForever(t, steps[1..]);
      LeaksStay(s, steps[0]);
    }
  }

  lemma LeaksStay(s: System, step: Step)
    requires Owned(s) && Tallied(s) && Enabled(s, step)
    ensures Tally(Next(s, step).handlers, Left) >= Tally(s.handlers, Left)
    ensures Tally(s.handlers, Left) == MAX_APPS_CONNECTED_TO_AC ==> Next(s, step) == s
  {
    match step {
      case Spawn => TallyAppend(s.handlers, Handler(s.acceptor.socket, Serving), Left);
      case Release(h) => TallyUpdate(s.handlers, h, s.handlers[h].(stage := Gone), Left);
      case Leave(h) => TallyUpdate(s.handlers, h, s.handlers[h].(stage := Quit), Left);
      case _ =>
    }
    TallyWithin(s.handlers, Left, Holds);
    if step.Release? || step.Leave? {
      StrictlyMoreHold(s.handlers, step.h);
    }
  }

  /** A serving handler holds a socket besides those that left. */
  lemma StrictlyMoreHold(handlers: seq<Handler>, h: nat)
    requires h < |handlers| && handlers[h].stage.Serving?
    ensures Tally(handlers, Left) < Tally(handlers, Holds)
  {
    var gone := handlers[h].(stage := Gone);
    TallyUpdate(handlers, h, gone, Left);
    TallyUpdate(handlers, h, gone, Holds);
    TallyWithin(handlers[h := gone], Left, Holds);
  }
}
