/** The leader election of one instance (pkg/app/clustering.go): a transition
    system with the leader flag and the contexts under which watching members,
    loading and dispatching run, and the loop that takes its steps. */
module Leadership {

  datatype Pc =
    | Start
    | Locking                   // the lock call is under way
    | Answered(failed: bool)
    | Won
    | Leading(ctx: nat)         // keeping the lock
    | Cancelled
    | Stopped

  datatype State = State(
    pc: Pc,
    isLeader: bool,
    live: set<nat>,             // leadership contexts that are not cancelled
    next: nat,
    done: bool)                 // the application's own context, parent of all

  datatype Step =
    | Reset
    | Answer(leader: bool, failed: bool)
    | Retry
    | Win
    | Begin
    | Lose
    | Clear
    | Shutdown
    | Stop

  function First(): State { State(Start, false, {}, 0, false) }

  predicate Init(s: State) { s.pc == Start && s.live == {} && !s.done }

  predicate Next(s: State, step: Step, s': State) {
    match step
    case Reset => s.pc.Start? && s' == s.(pc := Locking, isLeader := false)
    // the flag takes the answer even if the call also reports an error
    case Answer(leader, failed) => s.pc.Locking? && s' == s.(pc := Answered(failed), isLeader := leader)
    case Retry => s.pc.Answered? && (s.pc.failed || !s.isLeader) && s' == s.(pc := Start)
    case Win => s.pc.Answered? && !s.pc.failed && s.isLeader && s' == s.(pc := Won, isLeader := true)
    case Begin =>
      && s.pc.Won?
      && s' == s.(pc := Leading(s.next), live := s.live + if s.done then {} else {s.next}, next := s.next + 1)
    case Lose => s.pc.Leading? && s' == s.(pc := Cancelled, live := s.live - {s.pc.ctx})
    case Clear => s.pc.Cancelled? && s' == s.(pc := Start, isLeader := false)
    case Shutdown => s' == s.(done := true, live := {})
    // the deferred cancels run
    case Stop => s.pc.Leading? && s.done && s' == s.(pc := Stopped, live := {})
  }

  predicate IsRun(run: seq<State>, steps: seq<Step>) {
    && |run| == |steps| + 1 && Init(run[0])
    && forall j | 0 <= j < |steps| :: Next(run[j], steps[j], run[j + 1])
  }

  // ---------------------------------------------------------------------
  // The invariant
  // ---------------------------------------------------------------------

  predicate Inv(s: State) {
    && s.live <= (if s.pc.Leading? then {s.pc.ctx} else {})
    && (s.pc.Won? || s.pc.Leading? || s.pc.Cancelled? ==> s.isLeader)
    && (s.pc.Locking? ==> !s.isLeader)
    && forall c | c in s.live :: c < s.next
  }

  lemma {:induction false} RunInvariant(run: seq<State>, steps: seq<Step>, j: nat)
    requires IsRun(run, steps) && j < |run|
    ensures Inv(run[j])
  {
    if j > 0 {
      RunInvariant(run, steps, j - 1);
      assert Next(run[j - 1], steps[j - 1], run[j]);
    }
  }

  /** In every state of every run at most one leadership context is live, and a
      live one implies the flag; at a lock attempt none is live and the flag is
      cleared. */
  lemma AtMostOneLeadership(run: seq<State>, steps: seq<Step>, j: nat)
    requires IsRun(run, steps) && j < |run|
    ensures |run[j].live| <= 1
    ensures run[j].live != {} ==> run[j].isLeader && run[j].pc.Leading?
    ensures run[j].pc.Locking? ==> run[j].live == {} && !run[j].isLeader
  {
    RunInvariant(run, steps, j);
    var s := run[j];
    if s.pc.Leading? && s.live != {} { assert s.live == {s.pc.ctx}; }
  }

  /** The flag is cleared only when no context is live any more. */
  lemma CancelledBeforeCleared(run: seq<State>, steps: seq<Step>, j: nat)
    requires IsRun(run, steps) && j < |steps| && run[j].isLeader && !run[j + 1].isLeader
    ensures run[j].live == {}
  {
    RunInvariant(run, steps, j);
    assert Next(run[j], steps[j], run[j + 1]);
  }

  /** The last answer of the locker, from which only `steps` lead on. */
  ghost predicate LastAnswer(steps: seq<Step>, i: nat, j: nat, leader: bool, failed: bool) {
    && i < j <= |steps| && steps[i] == Answer(leader, failed)
    && forall k | i < k < j :: steps[k].Win? || steps[k].Shutdown?
  }

  lemma {:induction false} AnsweredSince(run: seq<State>, steps: seq<Step>, j: nat) returns (i: nat)
    requires IsRun(run, steps) && j < |run| && (run[j].pc.Answered? || run[j].pc.Won?)
    ensures run[j].pc.Answered? ==> LastAnswer(steps, i, j, run[j].isLeader, run[j].pc.failed)
    ensures run[j].pc.Won? ==> LastAnswer(steps, i, j, true, false)
  {
    assert Next(run[j - 1], steps[j - 1], run[j]);
    i := j - 1;
    if !steps[j - 1].Answer? { i := AnsweredSince(run, steps, j - 1); }
  }

  /** A leadership begins only after a positive answer without an error, with
      nothing else in between. */
  lemma LeadershipIsWon(run: seq<State>, steps: seq<Step>, j: nat) returns (i: nat)
    requires IsRun(run, steps) && j < |steps| && steps[j].Begin?
    ensures LastAnswer(steps, i, j, true, false)
  {
    assert Next(run[j], steps[j], run[j + 1]);
    i := AnsweredSince(run, steps, j);
  }

  /** After such an answer the lock is not tried again before that leadership. */
  lemma WonIsTaken(run: seq<State>, steps: seq<Step>, i: nat)
    requires IsRun(run, steps) && i + 1 < |steps| && steps[i] == Answer(true, false)
    ensures steps[i + 1].Win? || steps[i + 1].Shutdown?
  {
    assert Next(run[i], steps[i], run[i + 1]) && Next(run[i + 1], steps[i + 1], run[i + 2]);
  }

  /** Between leaderships the flag is set only by an answer that came with an error,
      and then until the next attempt, or because it was set at first. */
  lemma {:induction false} FlagAtStart(run: seq<State>, steps: seq<Step>, j: nat) returns (i: nat)
    requires IsRun(run, steps) && j < |run| && run[j].pc.Start? && run[j].isLeader
    ensures i <= j && forall k | i <= k < j :: steps[k].Shutdown?
    ensures i == 0 || (steps[i - 1].Retry? && run[i - 1].pc == Answered(true))
    decreases j
  {
    i := j;
    if j > 0 {
      assert Next(run[j - 1], steps[j - 1], run[j]);
      if steps[j - 1].Shutdown? { i := FlagAtStart(run, steps, j - 1); }
    }
  }

  /** A cancelled context stays cancelled: each leadership has its own. */
  lemma {:induction false} NeverLiveAgain(run: seq<State>, steps: seq<Step>, i: nat, j: nat, c: nat)
    requires IsRun(run, steps) && i <= j < |run|
    requires c < run[i].next && c !in run[i].live
    ensures c < run[j].next && c !in run[j].live
    decreases j
  {
    if i < j {
      NeverLiveAgain(run, steps, i, j - 1, c);
      assert Next(run[j - 1], steps[j - 1], run[j]);
    }
  }

  // ---------------------------------------------------------------------
  // The loop
  // ---------------------------------------------------------------------

  function Answers(steps: seq<Step>): nat {
    if steps == [] then 0 else Answers(steps[..|steps| - 1]) + if steps[|steps| - 1].Answer? then 1 else 0
  }

  /** The steps taken so far, and where they have led. */
  ghost predicate Taken(run: seq<State>, steps: seq<Step>, s: State, answers: nat) {
    IsRun(run, steps) && run[|run| - 1] == s && Answers(steps) == answers
  }

  lemma Take(run: seq<State>, steps: seq<Step>, s: State, answers: nat, step: Step, s': State)
    requires Taken(run, steps, s, answers) && Next(s, step, s')
    ensures Taken(run + [s'], steps + [step], s', answers + if step.Answer? then 1 else 0)
  {
    hide Next;
    var run', steps' := run + [s'], steps + [step];
    assert steps'[..|steps|] == steps;
    forall j | 0 <= j < |steps'| ensures Next(run'[j], steps'[j], run'[j + 1]) {
      if j < |steps| { assert Next(run[j], steps[j], run[j + 1]); }
    }
  }

  class Instance {
    var isLeader: bool
    /** The run so far. */
    ghost var run: seq<State>
    ghost var steps: seq<Step>

    constructor ()
      ensures !isLeader && Valid(Start) && Answers(steps) == 0
    {
      isLeader := false;
      run, steps := [First()], [];
    }

    ghost function Now(): State
      reads this
    {
      if run == [] then First() else run[|run| - 1]
    }

    /** The fields are at `pc` of a run. */
    ghost predicate Valid(pc: Pc)
      reads this
    {
      run != [] && IsRun(run, steps) && Now().pc == pc && Now().isLeader == isLeader
    }

    /** One step, which sets the flag. */
    method Go(ghost step: Step, ghost s: State, flag: bool)
      requires IsRun(run, steps) && Next(Now(), step, s) && s.isLeader == flag
      modifies this
      ensures run == old(run) + [s] && steps == old(steps) + [step] && isLeader == flag && Valid(s.pc)
      ensures Answers(steps) == Answers(old(steps)) + if step.Answer? then 1 else 0
    {
      Take(run, steps, Now(), Answers(steps), step, s);
      run, steps := run + [s], steps + [step];
      isLeader := flag;
    }

    /** Keeping the lock until it is lost, or the application ends. */
    method Lead() returns (stopped: bool)
      requires Valid(Won)
      modifies this
      ensures old(run) <= run && old(steps) <= steps && Answers(steps) == Answers(old(steps))
      ensures Valid(if stopped then Stopped else Start)
    {
      hide IsRun, Answers;
      ghost var s := Now();
      Go(Begin, s.(pc := Leading(s.next), live := s.live + if s.done then {} else {s.next}, next := s.next + 1), isLeader);
      stopped := *;
      if stopped {
        Go(Shutdown, Now().(done := true, live := {}), isLeader);
        Go(Stop, Now().(pc := Stopped, live := {}), isLeader);
        return;
      }
      Go(Lose, Now().(pc := Cancelled, live := Now().live - {Now().pc.ctx}), isLeader);
      Go(Clear, Now().(pc := Start, isLeader := false), false);
    }

    /** One lock attempt. */
    method Attempt() returns (won: bool)
      requires Valid(Start)
      modifies this
      ensures old(run) <= run && old(steps) <= steps && Answers(steps) == Answers(old(steps)) + 1
      ensures Valid(if won then Won else Start)
    {
      hide IsRun, Answers;
      Go(Reset, Now().(pc := Locking, isLeader := false), false);
      var answer: bool, failed: bool := *, *;
      Go(Answer(answer, failed), Now().(pc := Answered(failed), isLeader := answer), answer);
      won := !failed && isLeader;
      if won {
        Go(Win, Now().(pc := Won, isLeader := true), true);
      } else {
        Go(Retry, Now().(pc := Start), isLeader);
      }
    }

    /** The loop of startCluster with any answers of the locker and any losses of
        the lock: it takes a run, with one answer a round unless it is stopped. */
    method StartCluster(rounds: nat) returns (stopped: bool)
      requires Valid(Start)
      modifies this
      ensures old(run) <= run && old(steps) <= steps
      ensures Valid(if stopped then Stopped else Start)
      ensures Answers(steps) <= Answers(old(steps)) + rounds
      ensures !stopped ==> Answers(steps) == Answers(old(steps)) + rounds
    {
      hide IsRun, Answers;
      for round := 0 to rounds
        invariant old(run) <= run && old(steps) <= steps
        invariant Valid(Start) && Answers(steps) == Answers(old(steps)) + round
      {
        var won := Attempt();
        if won {
          stopped := Lead();
          if stopped { return; }
        }
      }
      stopped := false;
    }
  }
}
