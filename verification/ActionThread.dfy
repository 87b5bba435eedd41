/**
 When actions execute on the thread that is bound.
 */
module ActionThread {
  import opened ActionQueue

  /** The drain can still execute something. */
  predicate Live<A>(drain: Drain<A>) {
    drain.phase.Executing? || (drain.phase.Between? && drain.phase.left > 0)
  }

  /** Whatever executes now or next does so on the bound thread. */
  ghost predicate OnGameThread<A>(s: State<A>) {
    forall d | 0 <= d < |s.drains| && Live(s.drains[d]) :: s.drains[d].caller == s.gameThread
  }

  /** ... at every point of a run. */
  ghost predicate AlwaysOnGameThread<A(!new)>(s: State<A>, steps: seq<Step<A>>)
    requires Schedule(s, steps)
    decreases |steps|
  {
    OnGameThread(s) && (steps == [] || AlwaysOnGameThread(Next(s, steps[0]), steps[1..]))
  }

  /** The step binds another thread while a drain can still execute something. */
  ghost predicate Rebinds<A>(s: State<A>, step: Step<A>) {
    step.Bind? && step.thread != s.gameThread && exists d | 0 <= d < |s.drains| :: Live(s.drains[d])
  }

  ghost predicate NeverRebinds<A(!new)>(s: State<A>, steps: seq<Step<A>>)
    requires Schedule(s, steps)
    decreases |steps|
  {
    steps == [] || (!Rebinds(s, steps[0]) && NeverRebinds(Next(s, steps[0]), steps[1..]))
  }

  lemma StepOnGameThread<A>(s: State<A>, step: Step<A>)
    requires OnGameThread(s) && Enabled(s, step)
    ensures OnGameThread(Next(s, step)) <==> !Rebinds(s, step)
  {
    var t := Next(s, step);
    if d :| 0 <= d < |s.drains| && Live(s.drains[d]) && step.Bind? && step.thread != s.gameThread {
      assert t.drains[d] == s.drains[d];
    }
  }

  /** Executions stay on the bound thread, whoever moves next, exactly as long as no other thread is
      bound while a drain can still execute something. */
  lemma {:induction false} RunStaysOnGameThread<A(!new)>(s: State<A>, steps: seq<Step<A>>)
    requires OnGameThread(s) && Schedule(s, steps)
    ensures AlwaysOnGameThread(s, steps) <==> NeverRebinds(s, steps)
    decreases |steps|
  {
    hide OnGameThread, Rebinds, Next;
    if steps != [] {
      StepOnGameThread(s, steps[0]);
      if OnGameThread(Next(s, steps[0])) {
        RunStaysOnGameThread(Next(s, steps[0]), steps[1..]);
      } else {
        assert !AlwaysOnGameThread(Next(s, steps[0]), steps[1..]);
      }
    }
  }

  /** No step binds a thread other than the one already bound. */
  ghost predicate OneBinding<A(!new)>(s: State<A>, steps: seq<Step<A>>)
    requires Schedule(s, steps)
    decreases |steps|
  {
    steps == [] ||
    (&& (steps[0].Bind? ==> s.gameThread == 0 || s.gameThread == steps[0].thread)
     && OneBinding(Next(s, steps[0]), steps[1..]))
  }

  ghost predicate AllBy<A>(jobs: seq<Job<A>>, thread: nat) {
    forall i | 0 <= i < |jobs| :: jobs[i].caller == thread
  }

  /** With one fixed binding every action of the run was executed on the one bound thread. */
  lemma {:induction false} OneBindingOneThread<A(!new)>(s: State<A>, steps: seq<Step<A>>)
    requires OnGameThread(s) && AllBy(s.popped, s.gameThread) && AllBy(s.executed, s.gameThread)
    requires Schedule(s, steps) && OneBinding(s, steps)
    ensures AlwaysOnGameThread(s, steps)
    ensures var t := Run(s, steps); AllBy(t.popped, t.gameThread) && AllBy(t.executed, t.gameThread)
    decreases |steps|
  {
    if steps != [] {
      StepOnGameThread(s, steps[0]);
      OneBindingOneThread(Next(s, steps[0]), steps[1..]);
    }
  }

  /** It does happen: after a rebinding during a drain the action executes off the bound thread. */
  lemma RebindingSplits<A(!new)>(action: A)
    ensures var s: State<A> := Initial(1);
            var steps := [Push(action), Begin(1, 1), Bind(2), Pop(0), Executed(0)];
            && Schedule(s, steps) && Run(s, steps).gameThread == 2
            && Run(s, steps).executed == [Job(action, 1, 0)]
  {
    hide Run, Schedule;
    var s0: State<A> := Initial(1);
    var s1 := Next(s0, Push(action));
    var s2 := Next(s1, Begin(1, 1));
    var s3 := Next(s2, Bind(2));
    assert s3.queue == [action] && s3.drains == [Drain(1, 1, Between(1))];
    var s4 := Next(s3, Pop(0));
    assert s4.drains == [Drain(1, 1, Executing(action, 0))];
    var s5 := Next(s4, Executed(0));
    RunAlong([s0, s1, s2, s3, s4, s5], [Push(action), Begin(1, 1), Bind(2), Pop(0), Executed(0)]);
  }
}
