/** The stop signal of a run: one flag, consumed by whichever joined task sees it first and raised
    again by that task as it leaves, so that the next one sees it too. */
module StopRelay {

  /** A waiter consumes the signal at its next guarded await. A timed waiter also ends the run when
      its time is up. A timer never looks at the signal. */
  datatype Kind = Waiter | TimedWaiter | Timer

  /** Running, between consuming the signal and raising it again, or done. */
  datatype Phase = Running | Holding | Done

  datatype Task = Task(kind: Kind, phase: Phase)

  datatype State = State(tasks: seq<Task>, raised: bool, stopped: bool)

  datatype Step = Request | Consume(i: nat) | Reraise(i: nat) | Expire(i: nat)

  function Start(kinds: seq<Kind>): State {
    State(seq(|kinds|, i requires 0 <= i < |kinds| => Task(kinds[i], Running)), false, false)
  }

  predicate Enabled(s: State, step: Step) {
    match step
    case Request => true
    case Consume(i) => i < |s.tasks| && s.tasks[i].phase == Running && s.tasks[i].kind != Timer && s.raised
    case Reraise(i) => i < |s.tasks| && s.tasks[i].phase == Holding
    case Expire(i) => i < |s.tasks| && s.tasks[i].phase == Running && s.tasks[i].kind != Waiter
  }

  function Move(s: State, i: nat, phase: Phase): seq<Task>
    requires i < |s.tasks|
  {
    s.tasks[i := s.tasks[i].(phase := phase)]
  }

  function Apply(s: State, step: Step): State
    requires Enabled(s, step)
  {
    match step
    case Request => s.(raised := true, stopped := true)
    case Consume(i) => s.(tasks := Move(s, i, Holding), raised := false)
    case Reraise(i) => s.(tasks := Move(s, i, Done), raised := true)
    case Expire(i) => s.(tasks := Move(s, i, Done), raised := true, stopped := true)
  }

  /** Every step is enabled when its turn comes. */
  predicate Possible(s: State, steps: seq<Step>)
    decreases |steps|
  {
    steps == [] || (Enabled(s, steps[0]) && Possible(Apply(s, steps[0]), steps[1..]))
  }

  function After(s: State, steps: seq<Step>): State
    requires Possible(s, steps)
    decreases |steps|
  {
    if steps == [] then s else After(Apply(s, steps[0]), steps[1..])
  }

  // ----- the signal is never lost -----

  /** Tasks in a phase. */
  function Count(tasks: seq<Task>, phase: Phase): (n: nat)
    ensures n <= |tasks|
  {
    if tasks == [] then 0
    else (if tasks[0].phase == phase then 1 else 0) + Count(tasks[1..], phase)
  }

  lemma {:induction false} CountMove(tasks: seq<Task>, i: nat, to: Phase, phase: Phase)
    requires i < |tasks|
    ensures Count(tasks[i := tasks[i].(phase := to)], phase) ==
            Count(tasks, phase) - (if tasks[i].phase == phase then 1 else 0) + if to == phase then 1 else 0
  {
    var moved := tasks[i := tasks[i].(phase := to)];
    if i == 0 {
      assert moved[1..] == tasks[1..];
    } else {
      assert moved[1..] == tasks[1..][i - 1 := tasks[1..][i - 1].(phase := to)];
      CountMove(tasks[1..], i - 1, to, phase);
    }
  }

  lemma {:induction false} CountFinds(tasks: seq<Task>, phase: Phase)
    ensures Count(tasks, phase) > 0 <==> exists i | 0 <= i < |tasks| :: tasks[i].phase == phase
  {
    if tasks != [] {
      CountFinds(tasks[1..], phase);
      if i :| 0 <= i < |tasks| - 1 && tasks[1..][i].phase == phase { assert tasks[i + 1].phase == phase; }
      if i :| 0 <= i < |tasks| && tasks[i].phase == phase && i > 0 { assert tasks[1..][i - 1].phase == phase; }
    }
  }

  /** Copies of the signal in the system: on the flag, or in the hand of a task. */
  function Copies(s: State): nat { (if s.raised then 1 else 0) + Count(s.tasks, Holding) }

  /** After a stop there is a copy; before it, none. */
  predicate SignalInv(s: State) {
    if s.stopped then Copies(s) > 0 else Copies(s) == 0
  }

  lemma CopiesStep(s: State, step: Step)
    requires Enabled(s, step) && SignalInv(s)
    ensures SignalInv(Apply(s, step))
    ensures step.Consume? || step.Reraise? ==> Copies(Apply(s, step)) <= Copies(s)
    ensures Copies(s) <= 1 && (step.Consume? || step.Reraise?) ==> Copies(Apply(s, step)) == Copies(s)
    ensures Copies(Apply(s, step)) <= Copies(s) + 1
  {
    match step
    case Request =>
    case Consume(i) => CountMove(s.tasks, i, Holding, Holding);
    case Reraise(i) => CountMove(s.tasks, i, Done, Holding);
    case Expire(i) => CountMove(s.tasks, i, Done, Holding);
  }

  lemma {:induction false} StartIsClear(kinds: seq<Kind>)
    ensures Count(Start(kinds).tasks, Holding) == 0
  {
    var tasks := Start(kinds).tasks;
    CountFinds(tasks, Holding);
  }

  lemma {:induction false} SignalKept(s: State, steps: seq<Step>)
    requires SignalInv(s) && Possible(s, steps)
    ensures SignalInv(After(s, steps))
    decreases |steps|
  {
    if steps != [] {
      CopiesStep(s, steps[0]);
      SignalKept(Apply(s, steps[0]), steps[1..]);
    }
  }

  /** Whatever the tasks, the stop requests and the timers do: once the run is stopped the signal is
      raised or some task is about to raise it. */
  lemma SignalIsNeverLost(kinds: seq<Kind>, steps: seq<Step>)
    requires Possible(Start(kinds), steps)
    ensures var s := After(Start(kinds), steps);
            s.stopped ==> s.raised || exists i | 0 <= i < |s.tasks| :: s.tasks[i].phase == Holding
  {
    StartIsClear(kinds);
    SignalKept(Start(kinds), steps);
    CountFinds(After(Start(kinds), steps).tasks, Holding);
  }

  /** After a single stop there is exactly one copy: the flag is up and nobody holds it, or it is
      down and exactly one task does. */
  lemma {:induction false} OneStopOneCopy(s: State, steps: seq<Step>)
    requires Possible(s, steps) && s.stopped && Copies(s) == 1
    requires forall k | 0 <= k < |steps| :: steps[k].Consume? || steps[k].Reraise?
    ensures Copies(After(s, steps)) == 1
    decreases |steps|
  {
    if steps != [] {
      CopiesStep(s, steps[0]);
      OneStopOneCopy(Apply(s, steps[0]), steps[1..]);
    }
  }

  lemma StopOfAFreshRun(kinds: seq<Kind>, steps: seq<Step>)
    requires Possible(Apply(Start(kinds), Request), steps)
    requires forall k | 0 <= k < |steps| :: steps[k].Consume? || steps[k].Reraise?
    ensures var s := After(Apply(Start(kinds), Request), steps);
            if s.raised then Count(s.tasks, Holding) == 0 else Count(s.tasks, Holding) == 1
  {
    StartIsClear(kinds);
    OneStopOneCopy(Apply(Start(kinds), Request), steps);
  }

  // ----- and everybody hears it -----

  predicate Listening(t: Task) { t.kind != Timer && t.phase != Done }

  /** Relay steps a task has still to take: two if it runs, one if it holds the signal. */
  function Weight(t: Task): nat {
    if !Listening(t) then 0 else if t.phase == Running then 2 else 1
  }

  function Remaining(tasks: seq<Task>): nat {
    if tasks == [] then 0 else Weight(tasks[0]) + Remaining(tasks[1..])
  }

  lemma {:induction false} RemainingMove(tasks: seq<Task>, i: nat, to: Phase)
    requires i < |tasks|
    ensures Remaining(tasks[i := tasks[i].(phase := to)]) ==
            Remaining(tasks) - Weight(tasks[i]) + Weight(tasks[i].(phase := to))
  {
    var moved := tasks[i := tasks[i].(phase := to)];
    if i == 0 {
      assert moved[1..] == tasks[1..];
    } else {
      assert moved[1..] == tasks[1..][i - 1 := tasks[1..][i - 1].(phase := to)];
      RemainingMove(tasks[1..], i - 1, to);
    }
  }

  lemma {:induction false} RemainingZero(tasks: seq<Task>)
    ensures Remaining(tasks) == 0 <==> forall i | 0 <= i < |tasks| :: !Listening(tasks[i])
  {
    if tasks != [] {
      RemainingZero(tasks[1..]);
      assert forall i | 1 <= i < |tasks| :: tasks[i] == tasks[1..][i - 1];
    }
  }

  /** Only a listener ever holds the signal. */
  predicate HoldersListen(s: State) {
    forall i | 0 <= i < |s.tasks| :: s.tasks[i].phase == Holding ==> s.tasks[i].kind != Timer
  }

  /** No task is stranded: while one listens after a stop, some relay step can be taken. */
  lemma NobodyIsStranded(s: State)
    requires SignalInv(s) && s.stopped && Remaining(s.tasks) > 0
    ensures exists i :: Enabled(s, Consume(i)) || Enabled(s, Reraise(i))
  {
    RemainingZero(s.tasks);
    var i :| 0 <= i < |s.tasks| && Listening(s.tasks[i]);
    if s.tasks[i].phase == Holding {
      assert Enabled(s, Reraise(i));
    } else if s.raised {
      assert Enabled(s, Consume(i));
    } else {
      CountFinds(s.tasks, Holding);
      var j :| 0 <= j < |s.tasks| && s.tasks[j].phase == Holding;
      assert Enabled(s, Reraise(j));
    }
  }

  /** Every relay step brings the end one step nearer, whichever task takes it. */
  lemma RelayStepsCount(s: State, step: Step)
    requires Enabled(s, step) && HoldersListen(s) && (step.Consume? || step.Reraise?)
    ensures HoldersListen(Apply(s, step))
    ensures Remaining(Apply(s, step).tasks) == Remaining(s.tasks) - 1
  {
    match step
    case Consume(i) => RemainingMove(s.tasks, i, Holding);
    case Reraise(i) => RemainingMove(s.tasks, i, Done);
    case _ =>
  }

  lemma {:induction false} HoldersKept(s: State, steps: seq<Step>)
    requires HoldersListen(s) && Possible(s, steps)
    ensures HoldersListen(After(s, steps))
    decreases |steps|
  {
    if steps != [] { HoldersKept(Apply(s, steps[0]), steps[1..]); }
  }

  /** So after a stop every schedule of relay steps is finite and, when no more can be taken, every
      task that listens is done and the signal is up: a task joined afterwards, such as the
      sniffer's second pass of its rate task, stops as well. */
  lemma {:induction false} EverybodyStops(s: State, steps: seq<Step>)
    requires SignalInv(s) && s.stopped && HoldersListen(s) && Possible(s, steps)
    requires forall k | 0 <= k < |steps| :: steps[k].Consume? || steps[k].Reraise?
    ensures |steps| <= Remaining(s.tasks)
    ensures var t := After(s, steps);
            (forall i :: !Enabled(t, Consume(i)) && !Enabled(t, Reraise(i))) ==>
              && |steps| == Remaining(s.tasks) && t.raised
              && forall i | 0 <= i < |t.tasks| :: !Listening(t.tasks[i])
    decreases |steps|
  {
    if steps == [] {
      if forall i :: !Enabled(s, Consume(i)) && !Enabled(s, Reraise(i)) {
        if Remaining(s.tasks) > 0 { NobodyIsStranded(s); }
        RemainingZero(s.tasks);
        CountFinds(s.tasks, Holding);
        if Count(s.tasks, Holding) > 0 {
          var i :| 0 <= i < |s.tasks| && s.tasks[i].phase == Holding;
          assert Enabled(s, Reraise(i));
        }
      }
    } else {
      CopiesStep(s, steps[0]);
      RelayStepsCount(s, steps[0]);
      EverybodyStops(Apply(s, steps[0]), steps[1..]);
    }
  }

  /** The relay of a whole run: whatever happened before and during the stop, from then on every
      schedule of the listeners ends with all of them done. */
  lemma StoppedRunEnds(kinds: seq<Kind>, before: seq<Step>, relay: seq<Step>)
    requires Possible(Start(kinds), before)
    requires var s := After(Start(kinds), before); s.stopped && Possible(s, relay)
    requires forall k | 0 <= k < |relay| :: relay[k].Consume? || relay[k].Reraise?
    ensures var s := After(Start(kinds), before);
            var t := After(s, relay);
            && |relay| <= Remaining(s.tasks)
            && ((forall i :: !Enabled(t, Consume(i)) && !Enabled(t, Reraise(i))) ==>
                 t.raised && forall i | 0 <= i < |t.tasks| :: !Listening(t.tasks[i]))
  {
    StartIsClear(kinds);
    SignalKept(Start(kinds), before);
    HoldersKept(Start(kinds), before);
    EverybodyStops(After(Start(kinds), before), relay);
  }

  // ----- the end of a run -----

  /** Steps a task has still to take, timers included. */
  function Work(tasks: seq<Task>): (n: nat)
    ensures n <= 2 * |tasks|
  {
    if tasks == [] then 0
    else (match tasks[0].phase case Running => 2 case Holding => 1 case Done => 0) + Work(tasks[1..])
  }

  lemma {:induction false} WorkShrinks(tasks: seq<Task>, i: nat, to: Phase)
    requires i < |tasks| && tasks[i].phase != Done && (to == Done || (to == Holding && tasks[i].phase == Running))
    ensures Work(tasks[i := tasks[i].(phase := to)]) < Work(tasks)
  {
    var moved := tasks[i := tasks[i].(phase := to)];
    if i == 0 {
      assert moved[1..] == tasks[1..];
    } else {
      assert moved[1..] == tasks[1..][i - 1 := tasks[1..][i - 1].(phase := to)];
      WorkShrinks(tasks[1..], i - 1, to);
    }
  }

  /** No task can take a step; only a further stop request could come. */
  ghost predicate Quiet(s: State) {
    forall i :: !Enabled(s, Consume(i)) && !Enabled(s, Reraise(i)) && !Enabled(s, Expire(i))
  }

  /** A stopped run in which no task can take a step has joined: every task is done. */
  lemma QuietIsDone(s: State)
    requires SignalInv(s) && s.stopped && Quiet(s)
    ensures forall i | 0 <= i < |s.tasks| :: s.tasks[i].phase == Done
  {
    forall i | 0 <= i < |s.tasks| ensures s.tasks[i].phase == Done {
      assert !Enabled(s, Consume(i)) && !Enabled(s, Reraise(i)) && !Enabled(s, Expire(i));
      if s.tasks[i].phase == Running && !s.raised {
        CountFinds(s.tasks, Holding);
        var j :| 0 <= j < |s.tasks| && s.tasks[j].phase == Holding;
        assert Enabled(s, Reraise(j));
      }
    }
  }

  lemma {:induction false} TaskStepsAreFew(s: State, steps: seq<Step>)
    requires Possible(s, steps) && Request !in steps
    ensures |steps| + Work(After(s, steps).tasks) <= Work(s.tasks)
    ensures |After(s, steps).tasks| == |s.tasks| && (s.stopped ==> After(s, steps).stopped)
    decreases |steps|
  {
    if steps != [] {
      match steps[0] {
        case Consume(i) => WorkShrinks(s.tasks, i, Holding);
        case Reraise(i) => WorkShrinks(s.tasks, i, Done);
        case Expire(i) => WorkShrinks(s.tasks, i, Done);
        case Request =>
      }
      TaskStepsAreFew(Apply(s, steps[0]), steps[1..]);
    }
  }

  /** The end of a run clears the flag. */
  function Reset(s: State): State { s.(raised := false, stopped := false) }

  /** A stopped run ends: its tasks, timers included, take at most two more steps each, whatever their
      order; when none can take another, all of them are done and clearing the flag leaves no copy of
      the signal behind for the next run. */
  lemma ClearAtTheEnd(kinds: seq<Kind>, before: seq<Step>, rest: seq<Step>)
    requires Possible(Start(kinds), before)
    requires var s := After(Start(kinds), before); s.stopped && Possible(s, rest)
    requires Request !in rest
    ensures |rest| <= 2 * |kinds|
    ensures var t := After(After(Start(kinds), before), rest);
            Quiet(t) ==> (forall i | 0 <= i < |t.tasks| :: t.tasks[i].phase == Done) && Copies(Reset(t)) == 0
  {
    StartIsClear(kinds);
    SignalKept(Start(kinds), before);
    TasksStay(Start(kinds), before);
    var s := After(Start(kinds), before);
    SignalKept(s, rest);
    TaskStepsAreFew(s, rest);
    var t := After(s, rest);
    if Quiet(t) {
      QuietIsDone(t);
      CountFinds(t.tasks, Holding);
    }
  }

  lemma {:induction false} TasksStay(s: State, steps: seq<Step>)
    requires Possible(s, steps)
    ensures |After(s, steps).tasks| == |s.tasks|
    decreases |steps|
  {
    if steps != [] { TasksStay(Apply(s, steps[0]), steps[1..]); }
  }
}
