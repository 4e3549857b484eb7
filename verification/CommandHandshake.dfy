/**
 * The handshake between an application's handler and a session thread: the handler leaves a
 * command and waits, the thread takes the command and signals once it is answered, could not
 * be sent, or the session ends.
 *
 * A wait ends only by a signal, and a signal ends one wait: spurious wake-ups are not part of
 * this model.
 */
module CommandHandshake {
  import opened Wrappers
  import opened Counting

  // ---------------------------------------------------------------- shared variables

  const NO_CMD := 0
  const OFDM_CONTROL_CMD := 3
  const UCI_CONTROL_CMD := 4

  /** The fields of a session that the handshake uses */
  datatype Cell = Cell(
    interfaceCommand: nat, interfaceCommandProgress: bool, interfaceResult: int, applicationIndex: nat)

  /** A handler leaves its command, whatever was there before. */
  function Put(c: Cell, command: nat, socketIndex: nat): Cell {
    c.(interfaceCommand := command, applicationIndex := socketIndex)
  }

  /** The session thread takes the command; `sent` tells whether the request went out. */
  function Take(c: Cell, sent: bool): Cell {
    if sent then c.(interfaceCommand := NO_CMD, interfaceCommandProgress := true)
    else c.(interfaceCommand := NO_CMD, interfaceResult := 0)
  }

  /** A response arrives or the session closes */
  function Finish(c: Cell): Cell {
    if c.interfaceCommandProgress then c.(interfaceCommandProgress := false, interfaceResult := 1) else c
  }

  /** A new session in the same slot */
  function Reset(c: Cell): Cell {
    c.(interfaceCommand := NO_CMD, interfaceCommandProgress := false)
  }

  class CommandCell {
    var interfaceCommand: nat
    var interfaceCommandProgress: bool
    var interfaceResult: int
    var applicationIndex: nat

    ghost function View(): Cell
      reads this
    {
      Cell(interfaceCommand, interfaceCommandProgress, interfaceResult, applicationIndex)
    }

    /** What CWOFDMSetValues and its three siblings do before they wait */
    method SetValues(command: nat, socketIndex: nat)
      modifies this
      ensures View() == Put(old(View()), command, socketIndex)
    {
      interfaceCommand := command;
      applicationIndex := socketIndex;
    }

    /** The locked command branch of CWManageWTP; `signal` tells whether the waiting handler is signalled. */
    method ManageCommand(sent: bool) returns (signal: bool)
      modifies this
      ensures var taken := old(interfaceCommand) != NO_CMD;
              View() == (if taken then Take(old(View()), sent) else old(View())) && (signal <==> taken && !sent)
    {
      signal := false;
      if interfaceCommand != NO_CMD {
        interfaceCommand := NO_CMD;
        if sent {
          interfaceCommandProgress := true;
        } else {
          interfaceResult := 0;
          signal := true;
        }
      }
    }

    /** The completion in ACEnterRun after a response, and in _CWCloseThread */
    method Complete() returns (signal: bool)
      modifies this
      ensures View() == Finish(old(View())) && signal == old(interfaceCommandProgress)
    {
      signal := false;
      if interfaceCommandProgress {
        interfaceResult := 1;
        interfaceCommandProgress := false;
        signal := true;
      }
    }

    /** The set-up of a new session in CWManageWTP */
    method InitSession()
      modifies this
      ensures View() == Reset(old(View()))
    {
      interfaceCommandProgress := false;
      interfaceCommand := NO_CMD;
    }
  }

  // ---------------------------------------------------------------- threads

  /**
   * `open` says that the session thread runs; `waiting` counts the handlers that wait for a
   * signal.  The rest is history: commands left, taken, and signalled as complete; commands
   * replaced or wiped out before they were taken; commands taken while another was in progress.
   */
  datatype System = System(
    cell: Cell, open: bool, waiting: nat,
    posted: nat, consumed: nat, completed: nat, dropped: nat, overtaken: nat)

  function Initial(c: Cell): System {
    System(Reset(c), true, 0, 0, 0, 0, 0, 0)
  }

  predicate Pending(s: System) {
    s.cell.interfaceCommand != NO_CMD
  }

  predicate InProgress(s: System) {
    s.cell.interfaceCommandProgress
  }

  datatype Step =
    | Post(command: nat, socketIndex: nat)
    | Consume(sent: bool)
    | Respond
    | Close
    | Reopen

  predicate Enabled(s: System, step: Step) {
    match step
    case Post(command, _) => command != NO_CMD
    case Consume(_) => s.open && Pending(s)
    case Respond => s.open
    case Close => s.open
    case Reopen => !s.open
  }

  /** A signal ends one wait, or is lost if nobody waits. */
  function Signalled(s: System): System {
    s.(completed := s.completed + 1, waiting := if s.waiting > 0 then s.waiting - 1 else 0)
  }

  function Next(s: System, step: Step): System {
    match step
    case Post(command, socketIndex) =>
      s.(cell := Put(s.cell, command, socketIndex), posted := s.posted + 1, waiting := s.waiting + 1,
         dropped := s.dropped + One(Pending(s)))
    case Consume(sent) =>
      var t := s.(cell := Take(s.cell, sent), consumed := s.consumed + 1);
      if sent then t.(overtaken := s.overtaken + One(InProgress(s))) else Signalled(t)
    case Respond =>
      var t := s.(cell := Finish(s.cell));
      if InProgress(s) then Signalled(t) else t
    case Close =>
      var t := s.(cell := Finish(s.cell), open := false);
      if InProgress(s) then Signalled(t) else t
    case Reopen =>
      s.(cell := Reset(s.cell), open := true, dropped := s.dropped + One(Pending(s)))
  }

  // ---------------------------------------------------------------- what every run keeps

  /**
   * Commands taken are those completed, the one in progress and those overtaken; commands left
   * are those taken, the one pending and those dropped; and every command not completed has
   * its handler waiting.
   */
  ghost predicate Balanced(s: System) {
    && s.consumed == s.completed + One(InProgress(s)) + s.overtaken
    && s.posted == s.consumed + One(Pending(s)) + s.dropped
    && s.waiting + s.completed == s.posted
    && (!s.open ==> !InProgress(s))
  }

  ghost function After(s: System, steps: seq<Step>): Option<System>
    decreases |steps|
  {
    if steps == [] then Some(s)
    else if Enabled(s, steps[0]) then After(Next(s, steps[0]), steps[1..])
    else None
  }

  lemma StepKeepsBalance(s: System, step: Step)
    requires Balanced(s) && Enabled(s, step)
    ensures Balanced(Next(s, step))
  {
  }

  lemma {:induction false} RunKeepsBalance(s: System, steps: seq<Step>)
    requires Balanced(s) && After(s, steps).Some?
    ensures Balanced(After(s, steps).value)
    decreases |steps|
  {
    if steps != [] {
      StepKeepsBalance(s, steps[0]);
      RunKeepsBalance(Next(s, steps[0]), steps[1..]);
    }
  }

  /** The steps are those of one application at a time: no command is left while a handler waits. */
  ghost predicate OneAtATime(s: System, steps: seq<Step>)
    decreases |steps|
  {
    steps == [] ||
    (&& (steps[0].Post? ==> s.waiting == 0)
     && OneAtATime(Next(s, steps[0]), steps[1..]))
  }

  /** One application: at most one of its command pending, in progress or lost, and nothing is overtaken. */
  ghost predicate Exclusive(s: System) {
    Balanced(s) && s.overtaken == 0 && s.waiting <= 1
  }

  lemma {:induction false} RunKeepsExclusive(s: System, steps: seq<Step>)
    requires Exclusive(s) && After(s, steps).Some? && OneAtATime(s, steps)
    ensures Exclusive(After(s, steps).value)
    decreases |steps|
  {
    if steps != [] { RunKeepsExclusive(Next(s, steps[0]), steps[1..]); }
  }

  /**
   * With one application at a time the commands taken are the completions signalled, plus one
   * exactly while a command is in progress, through failed sends, responses and closed sessions;
   * and its handler waits exactly while its command is pending, in progress, or was dropped.
   */
  lemma ConsumedAreCompleted(c: Cell, steps: seq<Step>)
    requires After(Initial(c), steps).Some? && OneAtATime(Initial(c), steps)
    ensures var s := After(Initial(c), steps).value;
            && s.consumed == s.completed + One(InProgress(s))
            && s.posted == s.completed + s.waiting
            && s.waiting == One(InProgress(s)) + One(Pending(s)) + s.dropped <= 1
  {
    RunKeepsExclusive(Initial(c), steps);
  }

  /**
   * In these steps a command is sent while an earlier one is in progress; `busy` says whether
   * one is when they start.  A response or the end of the session comes between two commands
   * otherwise.
   */
  predicate Overtakes(steps: seq<Step>, busy: bool) {
    if steps == [] then false
    else match steps[0]
         case Consume(sent) => (sent && busy) || Overtakes(steps[1..], sent || busy)
         case Respond => Overtakes(steps[1..], false)
         case Close => Overtakes(steps[1..], false)
         case _ => Overtakes(steps[1..], busy)
  }

  lemma {:induction false} OvertakenIff(s: System, steps: seq<Step>)
    requires Balanced(s) && After(s, steps).Some?
    ensures After(s, steps).value.overtaken >= s.overtaken
    ensures After(s, steps).value.overtaken > s.overtaken <==> Overtakes(steps, InProgress(s))
    decreases |steps|
  {
    if steps != [] {
      var t := Next(s, steps[0]);
      StepKeepsBalance(s, steps[0]);
      OvertakenIff(t, steps[1..]);
    }
  }

  /**
   * With any number of applications the two counts agree exactly if in the run no command is
   * sent while another is in progress; and every command overtaken or dropped leaves one
   * handler waiting for good.
   */
  lemma WaitingAccounted(c: Cell, steps: seq<Step>)
    requires After(Initial(c), steps).Some?
    ensures var s := After(Initial(c), steps).value;
            && s.waiting == One(InProgress(s)) + One(Pending(s)) + s.overtaken + s.dropped
            && (s.consumed == s.completed + One(InProgress(s)) <==> !Overtakes(steps, false))
  {
    RunKeepsBalance(Initial(c), steps);
    OvertakenIff(Initial(c), steps);
  }

  /** Nothing takes back what was lost: as many handlers as commands overtaken or dropped wait in every later state. */
  lemma {:induction false} LostStayLost(s: System, steps: seq<Step>)
    requires Balanced(s) && After(s, steps).Some?
    ensures After(s, steps).value.waiting >= s.overtaken + s.dropped
    decreases |steps|
  {
    if steps != [] {
      StepKeepsBalance(s, steps[0]);
      LostStayLost(Next(s, steps[0]), steps[1..]);
    }
  }

  /** A session that closes loses a command exactly if one is pending: its slot's next session wipes it out. */
  lemma CloseLosesIff(s: System)
    requires Balanced(s) && s.open
    ensures var t := Next(Next(s, Close), Reopen);
            && Balanced(t) && !Pending(t) && !InProgress(t)
            && (t.dropped == s.dropped + 1 <==> Pending(s))
            && t.waiting == s.overtaken + s.dropped + One(Pending(s))
  {
  }

  // ---------------------------------------------------------------- what the shared fields say

  // Told from the steps of a run alone, the last one first

  datatype Command = Command(number: nat, socketIndex: nat)

  /** The command that was left last and neither taken nor wiped out */
  function LeftBehind(steps: seq<Step>): Option<Command> {
    if steps == [] then None
    else
      var front := steps[..|steps| - 1];
      match steps[|steps| - 1]
      case Post(number, socketIndex) => Some(Command(number, socketIndex))
      case Consume(_) => None
      case Reopen => None
      case _ => LeftBehind(front)
  }

  /** The command that was sent last and not answered in its session; another one sent takes its place. */
  function Unanswered(steps: seq<Step>): Option<Command> {
    if steps == [] then None
    else
      var front := steps[..|steps| - 1];
      match steps[|steps| - 1]
      case Consume(sent) => if sent then LeftBehind(front) else Unanswered(front)
      case Post(_, _) => Unanswered(front)
      case _ => None
  }

  /** The socket of the application that left a command last */
  function LastSocket(steps: seq<Step>, before: nat): nat {
    if steps == [] then before
    else
      match steps[|steps| - 1]
      case Post(_, socketIndex) => socketIndex
      case _ => LastSocket(steps[..|steps| - 1], before)
  }

  /** 0 if the last command that ended could not be sent, 1 if it was answered or its session closed */
  function LastResult(steps: seq<Step>, before: int): int {
    if steps == [] then before
    else
      var front := steps[..|steps| - 1];
      match steps[|steps| - 1]
      case Consume(sent) => if sent then LastResult(front, before) else 0
      case Respond => if Unanswered(front).Some? then 1 else LastResult(front, before)
      case Close => if Unanswered(front).Some? then 1 else LastResult(front, before)
      case _ => LastResult(front, before)
  }

  /** The fields of the session are what the steps done say, and commands are taken only when there is one. */
  ghost predicate Told(s: System, c: Cell, done: seq<Step>) {
    && s.cell.interfaceCommand == (if LeftBehind(done).Some? then LeftBehind(done).value.number else NO_CMD)
    && (LeftBehind(done).Some? ==> LeftBehind(done).value.number != NO_CMD)
    && (s.cell.interfaceCommandProgress <==> Unanswered(done).Some?)
    && s.cell.applicationIndex == LastSocket(done, c.applicationIndex)
    && s.cell.interfaceResult == LastResult(done, c.interfaceResult)
    && (!s.open ==> Unanswered(done).None?)
  }

  lemma StepKeepsTold(s: System, c: Cell, done: seq<Step>, step: Step)
    requires Told(s, c, done) && Enabled(s, step)
    ensures Told(Next(s, step), c, done + [step])
  {
    var next := done + [step];
    assert next[..|next| - 1] == done && next[|next| - 1] == step;
  }

  lemma {:induction false} RunKeepsTold(s: System, c: Cell, done: seq<Step>, steps: seq<Step>)
    requires Told(s, c, done) && After(s, steps).Some?
    ensures Told(After(s, steps).value, c, done + steps)
    decreases |steps|
  {
    if steps == [] {
      assert done + steps == done;
    } else {
      StepKeepsTold(s, c, done, steps[0]);
      RunKeepsTold(Next(s, steps[0]), c, done + [steps[0]], steps[1..]);
      assert done + [steps[0]] + steps[1..] == done + steps;
    }
  }

  /**
   * After every run, with any number of applications: the command pending is the one left last;
   * one is in progress exactly if one was sent and not answered; the application index is the
   * socket of the last application that left a command; and the result is 0 after a command that
   * could not be sent and 1 after one that was answered or whose session closed.
   */
  lemma FieldsTellSteps(c: Cell, steps: seq<Step>)
    requires After(Initial(c), steps).Some?
    ensures var cell := After(Initial(c), steps).value.cell;
            && (LeftBehind(steps).Some? ==> cell.interfaceCommand == LeftBehind(steps).value.number != NO_CMD)
            && (LeftBehind(steps).None? ==> cell.interfaceCommand == NO_CMD)
            && (cell.interfaceCommandProgress <==> Unanswered(steps).Some?)
            && cell.applicationIndex == LastSocket(steps, c.applicationIndex)
            && cell.interfaceResult == LastResult(steps, c.interfaceResult)
  {
    RunKeepsTold(Initial(c), c, [], steps);
    assert [] + steps == steps;
  }

  /** The socket whose handler waits, when one application at a time leaves commands */
  function Waiter(steps: seq<Step>): Option<nat> {
    if steps == [] then None
    else
      var front := steps[..|steps| - 1];
      match steps[|steps| - 1]
      case Post(_, socketIndex) => Some(socketIndex)
      case Consume(sent) => if sent then Waiter(front) else None
      case Respond => if Unanswered(front).Some? then None else Waiter(front)
      case Close => if Unanswered(front).Some? then None else Waiter(front)
      case Reopen => Waiter(front)
  }

  ghost predicate AnswersGoHome(s: System, c: Cell, done: seq<Step>) {
    && Told(s, c, done) && Exclusive(s)
    && (s.waiting == 1 <==> Waiter(done).Some?)
    && (Waiter(done).Some? ==> LastSocket(done, c.applicationIndex) == Waiter(done).value)
    && (Pending(s) || InProgress(s) ==> Waiter(done).Some?)
    && (Pending(s) ==> LeftBehind(done).value.socketIndex == Waiter(done).value)
    && (InProgress(s) ==> Unanswered(done).value.socketIndex == Waiter(done).value)
  }

  lemma StepKeepsAnswersHome(s: System, c: Cell, done: seq<Step>, step: Step)
    requires AnswersGoHome(s, c, done) && Enabled(s, step) && (step.Post? ==> s.waiting == 0)
    ensures AnswersGoHome(Next(s, step), c, done + [step])
  {
    var next := done + [step];
    assert next[..|next| - 1] == done && next[|next| - 1] == step;
    StepKeepsTold(s, c, done, step);
    StepKeepsBalance(s, step);
  }

  lemma {:induction false} RunKeepsAnswersHome(s: System, c: Cell, done: seq<Step>, steps: seq<Step>)
    requires AnswersGoHome(s, c, done) && After(s, steps).Some? && OneAtATime(s, steps)
    ensures AnswersGoHome(After(s, steps).value, c, done + steps)
    decreases |steps|
  {
    if steps == [] {
      assert done + steps == done;
    } else {
      StepKeepsAnswersHome(s, c, done, steps[0]);
      RunKeepsAnswersHome(Next(s, steps[0]), c, done + [steps[0]], steps[1..]);
      assert done + [steps[0]] + steps[1..] == done + steps;
    }
  }

  /**
   * With one application at a time, while a command is pending or in progress, a handler waits,
   * the command is its own, and the application index is its socket: the answer reaches it.
   */
  lemma AnswersReachTheirApplication(c: Cell, steps: seq<Step>)
    requires After(Initial(c), steps).Some? && OneAtATime(Initial(c), steps)
    ensures var s := After(Initial(c), steps).value;
            && (s.waiting == 1 <==> Waiter(steps).Some?)
            && (s.waiting == 1 ==> s.cell.applicationIndex == Waiter(steps).value)
            && (Pending(s) ==>
                  s.waiting == 1
                  && LeftBehind(steps) == Some(Command(s.cell.interfaceCommand, Waiter(steps).value)))
            && (InProgress(s) ==>
                  s.waiting == 1 && Unanswered(steps).Some?
                  && Unanswered(steps).value.socketIndex == Waiter(steps).value)
  {
    RunKeepsAnswersHome(Initial(c), c, [], steps);
    assert [] + steps == steps;
  }

  /** With two, the answer to the first one's command goes to the second one if that has left a command meanwhile. */
  lemma AnswerGoesAstray(c: Cell, mine: nat, other: nat)
    ensures var steps := [Post(OFDM_CONTROL_CMD, mine), Consume(true), Post(UCI_CONTROL_CMD, other)];
            && After(Initial(c), steps).Some?
            && Unanswered(steps) == Some(Command(OFDM_CONTROL_CMD, mine))
            && After(Initial(c), steps).value.cell.applicationIndex == other
  {
    var p, k, q := Post(OFDM_CONTROL_CMD, mine), Consume(true), Post(UCI_CONTROL_CMD, other);
    var steps := [p, k, q];
    var s := Next(Next(Initial(c), p), k);
    assert steps[1..] == [k, q] && [k, q][1..] == [q] && [q][1..] == [];
    assert After(s, [q]) == After(Next(s, q), []) == Some(Next(s, q));
    assert After(Next(Initial(c), p), [k, q]) == After(s, [q]);
    assert steps[..2] == [p, k] && [p, k][..1] == [p];
    assert LeftBehind([p]) == Some(Command(OFDM_CONTROL_CMD, mine));
    assert Unanswered([p, k]) == LeftBehind([p]);
  }

  /** Two applications on one session: the second command is taken while the first is in progress. */
  lemma TwoApplicationsDrift(c: Cell)
    ensures var steps := [Post(OFDM_CONTROL_CMD, 0), Consume(true)] + [Post(UCI_CONTROL_CMD, 1), Consume(true)];
            && !OneAtATime(Initial(c), steps)
            && After(Initial(c), steps).Some?
            && var s := After(Initial(c), steps).value;
               s.consumed == 2 && s.completed == 0 && InProgress(s)
  {
    var p0, p1, k := Post(OFDM_CONTROL_CMD, 0), Post(UCI_CONTROL_CMD, 1), Consume(true);
    var steps := [p0, k] + [p1, k];
    var s := Next(Next(Initial(c), p0), k);
    assert steps[1..] == [k, p1, k] && [k, p1, k][1..] == [p1, k] && [p1, k][1..] == [k] && [k][1..] == [];
    var t := Next(Next(s, p1), k);
    assert After(t, []) == Some(t) == After(Next(s, p1), [k]) == After(s, [p1, k]);
    assert After(Initial(c), steps) == After(s, [p1, k]);
    assert !OneAtATime(s, [p1, k]);
  }
}
