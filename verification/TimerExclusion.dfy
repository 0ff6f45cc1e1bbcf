/**
  The handshake between the timer, which looks for missing completions, and the
  cleaner of the same queue: both read the transmit completion queue, and two
  flags keep them apart. Every action is one shared access, in any sequentially
  consistent interleaving.
 */
module TimerExclusion {
  import opened Words

  const ENA_CLEAN_BUDGET: nat := 8

  datatype CleanerPc =
    | Away
    | Starting                              // called, nothing stored yet
    | Stored                                // cleanup_running is stored
    | InCq(round: nat)                      // inside the completion queue
    | Checking(round: nat, again: bool)     // about to look at the flags again
    | Finishing                             // about to clear cleanup_running

  datatype TimerPc =
    | Idle
    | FlagSet                               // TRIGGER_RESET is set
    | ReadScheduled(scheduled: bool)
    | ReadRunning(scheduled: bool, running: bool)
    | Probing                               // inside the completion queue

  datatype State = State(
    triggerReset: bool,
    ifRunning: bool,
    cleanupScheduled: bool,
    cleanupRunning: bool,
    cleaner: CleanerPc,
    timer: TimerPc)

  datatype Action =
    | Interrupt
    | RunTask
    /** The cleaner's next access; `again` is what it finds out about more work. */
    | CleanerStep(again: bool)
    /** The timer counts too many missing completions. */
    | TimerFires
    | TimerStep
    | SetReset
    | ClearReset
    | SetIfRunning(up: bool)

  const START := State(false, true, false, false, Away, Idle)

  /** `ena_cleanup` */
  function StepCleaner(s: State, again: bool): Option<State> {
    match s.cleaner
    case Away => None
    case Starting => Some(s.(cleanupRunning := true, cleaner := Stored))
    case Stored => Some(s.(cleaner := if !s.ifRunning || s.triggerReset then Away else InCq(0)))
    case InCq(round) => Some(s.(cleaner := Checking(round, again)))
    case Checking(round, more) =>
      Some(s.(cleaner :=
        if !s.ifRunning || s.triggerReset then Away
        else if !more || round + 1 == ENA_CLEAN_BUDGET then Finishing
        else InCq(round + 1)))
    case Finishing => Some(s.(cleanupRunning := false, cleaner := Away))
  }

  /** The end of `check_missing_comp_in_tx_queue` */
  function StepTimer(s: State): Option<State> {
    match s.timer
    case Idle => None
    case FlagSet => Some(s.(timer := ReadScheduled(s.cleanupScheduled)))
    case ReadScheduled(scheduled) => Some(s.(timer := ReadRunning(scheduled, s.cleanupRunning)))
    case ReadRunning(scheduled, running) => Some(s.(timer := if scheduled || running then Idle else Probing))
    case Probing => Some(s.(timer := Idle))
  }

  function Step(s: State, a: Action): Option<State> {
    match a
    case Interrupt => Some(s.(cleanupScheduled := true))
    case RunTask =>
      if s.cleanupScheduled && s.cleaner == Away then Some(s.(cleanupScheduled := false, cleaner := Starting)) else None
    case CleanerStep(again) => StepCleaner(s, again)
    case TimerFires => if s.timer == Idle then Some(s.(triggerReset := true, timer := FlagSet)) else None
    case TimerStep => StepTimer(s)
    case SetReset => Some(s.(triggerReset := true))
    case ClearReset => Some(s.(triggerReset := false))
    case SetIfRunning(up) => Some(s.(ifRunning := up))
  }

  /** The state after a sequence of actions; None if one of them was not possible. */
  function Run(s: State, acts: seq<Action>): Option<State>
    decreases |acts|
  {
    if acts == [] then Some(s)
    else match Step(s, acts[0])
      case None => None
      case Some(t) => Run(t, acts[1..])
  }

  predicate CleanerInside(s: State) {
    s.cleaner.InCq?
  }

  predicate TimerInside(s: State) {
    s.timer == Probing
  }

  /** Nobody clears TRIGGER_RESET while the timer checks. */
  predicate Undisturbed(s: State, acts: seq<Action>)
    decreases |acts|
  {
    acts == []
    || ((acts[0] == ClearReset ==> s.timer == Idle)
        && (Step(s, acts[0]).Some? ==> Undisturbed(Step(s, acts[0]).value, acts[1..])))
  }

  ghost predicate Inv(s: State) {
    && (s.cleaner !in {Away, Starting} ==> s.cleanupRunning)
    && (s.timer != Idle ==> s.triggerReset)
    && (s.timer == Probing || (s.timer.ReadRunning? && !s.timer.running) ==> s.cleaner in {Away, Starting, Stored})
  }

  lemma {:induction false} StepKeepsInv(s: State, a: Action)
    requires Inv(s) && Step(s, a).Some? && (a == ClearReset ==> s.timer == Idle)
    ensures Inv(Step(s, a).value)
  {
  }

  lemma {:induction false} RunKeepsInv(s: State, acts: seq<Action>)
    requires Inv(s) && Undisturbed(s, acts) && Run(s, acts).Some?
    ensures Inv(Run(s, acts).value)
    decreases |acts|
  {
    if acts != [] {
      StepKeepsInv(s, acts[0]);
      RunKeepsInv(Step(s, acts[0]).value, acts[1..]);
    }
  }

  /** In every undisturbed run, the timer and the cleaner are never inside the queue together. */
  lemma {:induction false} NeverInsideTogether(acts: seq<Action>)
    requires Undisturbed(START, acts) && Run(START, acts).Some?
    ensures var s := Run(START, acts).value; !(CleanerInside(s) && TimerInside(s))
  {
    RunKeepsInv(START, acts);
  }

  /** Every run without a clearing is undisturbed. */
  lemma {:induction false} UndisturbedWithoutClearing(s: State, acts: seq<Action>)
    requires ClearReset !in acts
    ensures Undisturbed(s, acts)
    decreases |acts|
  {
    if acts != [] {
      assert acts[0] in acts;
      if Step(s, acts[0]).Some? {
        UndisturbedWithoutClearing(Step(s, acts[0]).value, acts[1..]);
      }
    }
  }

  lemma RunFirst(s: State, a: Action, acts: seq<Action>)
    requires Step(s, a).Some?
    ensures Run(s, [a] + acts) == Run(Step(s, a).value, acts)
    ensures Undisturbed(s, [a] + acts)
            <==> (a == ClearReset ==> s.timer == Idle) && Undisturbed(Step(s, a).value, acts)
  {
    assert ([a] + acts)[1..] == acts;
  }

  /** With the timer about to probe and the cleaner about to start, clearing the flag lets both in. */
  lemma {:induction false} BothEnter(s: State)
    requires s.cleaner == Starting && s.timer == Probing && s.ifRunning
    ensures var acts := [ClearReset] + ([CleanerStep(false)] + ([CleanerStep(false)] + []));
            && !Undisturbed(s, acts) && Run(s, acts).Some?
            && CleanerInside(Run(s, acts).value) && TimerInside(Run(s, acts).value)
  {
    var s1 := s.(triggerReset := false);
    var s2 := s1.(cleanupRunning := true, cleaner := Stored);
    RunFirst(s, ClearReset, [CleanerStep(false)] + ([CleanerStep(false)] + []));
    RunFirst(s1, CleanerStep(false), [CleanerStep(false)] + []);
    RunFirst(s2, CleanerStep(false), []);
  }

  /** Clearing the flag during the check is all it takes to let both in. */
  lemma {:induction false} ClearingDuringTheCheckBreaksIt() returns (acts: seq<Action>)
    ensures !Undisturbed(START, acts) && Run(START, acts).Some?
    ensures CleanerInside(Run(START, acts).value) && TimerInside(Run(START, acts).value)
  {
    hide Run, Undisturbed;
    var s1 := START.(cleanupScheduled := true);
    var s2 := s1.(cleanupScheduled := false, cleaner := Starting);
    var s3 := s2.(triggerReset := true, timer := FlagSet);
    var s4 := s3.(timer := ReadScheduled(false));
    var s5 := s4.(timer := ReadRunning(false, false));
    var s6 := s5.(timer := Probing);
    BothEnter(s6);
    acts := [ClearReset] + ([CleanerStep(false)] + ([CleanerStep(false)] + []));
    RunFirst(s5, TimerStep, acts);
    acts := [TimerStep] + acts;
    RunFirst(s4, TimerStep, acts);
    acts := [TimerStep] + acts;
    RunFirst(s3, TimerStep, acts);
    acts := [TimerStep] + acts;
    RunFirst(s2, TimerFires, acts);
    acts := [TimerFires] + acts;
    RunFirst(s1, RunTask, acts);
    acts := [RunTask] + acts;
    RunFirst(START, Interrupt, acts);
    acts := [Interrupt] + acts;
  }

  /** What an early return of the cleaner leaves behind as long as the reset is pending. */
  ghost predicate Abandoned(s: State) {
    && s.triggerReset && s.cleanupRunning
    && s.cleaner in {Away, Starting, Stored}
    && !(s.timer == Probing || (s.timer.ReadRunning? && !s.timer.running))
  }

  lemma {:induction false} AbandonedStays(s: State, acts: seq<Action>)
    requires Abandoned(s) && ClearReset !in acts && Run(s, acts).Some?
    ensures Abandoned(Run(s, acts).value)
    decreases |acts|
  {
    if acts != [] {
      assert acts[0] in acts;
      AbandonedStays(Step(s, acts[0]).value, acts[1..]);
    }
  }

  /**
    The cleaner leaves cleanup_running set when a pending reset makes it return
    early. In every undisturbed run in which it does so, unless the timer has just
    seen it cleared: until the reset is over, the timer takes it for running and
    never looks into the queue, however often it fires.
   */
  lemma {:induction false} NoProbeAfterEarlyReturn(before: seq<Action>, again: bool, acts: seq<Action>)
    requires Undisturbed(START, before) && Run(START, before).Some?
    requires var s := Run(START, before).value;
             && s.triggerReset && (s.cleaner == Stored || s.cleaner.Checking?)
             && !(s.timer == Probing || (s.timer.ReadRunning? && !s.timer.running))
    requires ClearReset !in acts && Run(Run(START, before).value, [CleanerStep(again)] + acts).Some?
    ensures var end := Run(Run(START, before).value, [CleanerStep(again)] + acts).value;
            !TimerInside(end) && end.cleanupRunning
  {
    var s := Run(START, before).value;
    RunKeepsInv(START, before);
    var t := Step(s, CleanerStep(again)).value;
    assert ([CleanerStep(again)] + acts)[1..] == acts;
    AbandonedStays(t, acts);
  }

  /** The timer has not seen that no cleaning is scheduled. */
  ghost predicate SeesScheduled(s: State) {
    && s.cleanupScheduled && s.timer != Probing
    && (s.timer.ReadScheduled? || s.timer.ReadRunning? ==> s.timer.scheduled)
  }

  lemma {:induction false} SeesScheduledStays(s: State, acts: seq<Action>)
    requires SeesScheduled(s) && RunTask !in acts && Run(s, acts).Some?
    ensures SeesScheduled(Run(s, acts).value)
    decreases |acts|
  {
    if acts != [] {
      assert acts[0] in acts;
      SeesScheduledStays(Step(s, acts[0]).value, acts[1..]);
    }
  }

  /**
    While a cleaning is scheduled and its task has not started, the
    timer does not look into the queue, however often it fires and whoever clears
    the flag.
   */
  lemma {:induction false} NoProbeWhileScheduled(s: State, acts: seq<Action>)
    requires s.cleanupScheduled && (s.timer == Idle || s.timer == FlagSet)
    requires RunTask !in acts && Run(s, acts).Some?
    ensures !TimerInside(Run(s, acts).value)
  {
    SeesScheduledStays(s, acts);
  }

  // ---------------------------------------------------------------- the cleaner's rounds

  /** Only its own steps move a cleaner, but for the task that starts it. */
  lemma {:induction false} OnlyOwnSteps(s: State, a: Action)
    requires Step(s, a).Some?
    ensures var t := Step(s, a).value;
            t.cleaner == s.cleaner || a.CleanerStep?
            || (a == RunTask && s.cleaner == Away && t.cleaner == Starting && s.cleanupScheduled && !t.cleanupScheduled)
    ensures s.cleanupScheduled && a != RunTask ==> Step(s, a).value.cleanupScheduled
  {
  }

  /** Without an interrupt there is no cleaning. */
  lemma {:induction false} NoCleaningWithoutInterrupt(s: State, acts: seq<Action>)
    requires s.cleaner == Away && !s.cleanupScheduled && Interrupt !in acts && Run(s, acts).Some?
    ensures Run(s, acts).value.cleaner == Away && !Run(s, acts).value.cleanupScheduled
    decreases |acts|
  {
    if acts != [] {
      assert acts[0] in acts;
      NoCleaningWithoutInterrupt(Step(s, acts[0]).value, acts[1..]);
    }
  }

  function Times(a: Action, n: nat): (acts: seq<Action>)
    ensures |acts| == n
  {
    seq(n, _ => a)
  }

  lemma {:induction false} TwoMore(a: Action, n: nat)
    ensures Times(a, n + 2) == [a] + ([a] + Times(a, n))
  {
  }

  /** `rounds` rounds on from the given one, while there is more to do and no reset. */
  lemma {:induction false} MoreRounds(s: State, from: nat, rounds: nat)
    requires s.cleaner == InCq(from) && s.ifRunning && !s.triggerReset && from + rounds <= 7
    ensures Run(s, Times(CleanerStep(true), 2 * rounds)) == Some(s.(cleaner := InCq(from + rounds)))
    decreases rounds
  {
    if rounds > 0 {
      var rest := Times(CleanerStep(true), 2 * (rounds - 1));
      TwoMore(CleanerStep(true), 2 * (rounds - 1));
      RunFirst(s, CleanerStep(true), [CleanerStep(true)] + rest);
      RunFirst(s.(cleaner := Checking(from, true)), CleanerStep(true), rest);
      MoreRounds(s.(cleaner := InCq(from + 1)), from + 1, rounds - 1);
    }
  }

  /**
    However much there is to do, a cleaner makes eight rounds, unless a reset or the
    interface going down stops it, and then clears its flag.
   */
  lemma {:induction false} EightRounds(s: State, rounds: nat)
    requires s.cleaner == InCq(0) && s.ifRunning && !s.triggerReset
    ensures rounds <= 7 ==>
              Run(s, Times(CleanerStep(true), 2 * rounds)) == Some(s.(cleaner := InCq(rounds)))
    ensures var last := [CleanerStep(true)] + ([CleanerStep(true)] + ([CleanerStep(true)] + []));
            Run(s.(cleaner := InCq(7)), last) == Some(s.(cleaner := Away, cleanupRunning := false))
  {
    if rounds <= 7 {
      MoreRounds(s, 0, rounds);
    }
    var a := CleanerStep(true);
    RunFirst(s.(cleaner := InCq(7)), a, [a] + ([a] + []));
    RunFirst(s.(cleaner := Checking(7, true)), a, [a] + []);
    RunFirst(s.(cleaner := Finishing), a, []);
  }
}
