/**
 When actions finish in the order in which they were accepted, and all the queue's claims together.
 */
module ActionOrder {
  import opened ActionQueue
  import opened ActionThread

  /** At most one job is in flight, and it is the last one popped. */
  ghost predicate InOrder<A>(s: State<A>) {
    s.executed <= s.popped && |s.popped| <= |s.executed| + 1
  }

  /** Actions were executed in the order they were accepted, and whichever finishes next keeps it. */
  ghost predicate OrderSafe<A>(s: State<A>) {
    && s.executed <= s.popped
    && forall d: nat | Enabled(s, Executed(d)) :: Next(s, Executed(d)).executed <= s.popped
  }

  /** ... at every point of a run. */
  ghost predicate AlwaysOrderSafe<A(!new)>(s: State<A>, steps: seq<Step<A>>)
    requires Schedule(s, steps)
    decreases |steps|
  {
    OrderSafe(s) && (steps == [] || AlwaysOrderSafe(Next(s, steps[0]), steps[1..]))
  }

  /** The step pops an action while another one executes. */
  ghost predicate Overlaps<A>(s: State<A>, step: Step<A>)
    requires Enabled(s, step)
  {
    && step.Pop? && s.drains[step.drain].phase.left > 0 && s.queue != []
    && exists d | 0 <= d < |s.drains| :: s.drains[d].phase.Executing?
  }

  ghost predicate NeverOverlaps<A(!new)>(s: State<A>, steps: seq<Step<A>>)
    requires Schedule(s, steps)
    decreases |steps|
  {
    steps == [] || (!Overlaps(s, steps[0]) && NeverOverlaps(Next(s, steps[0]), steps[1..]))
  }

  lemma {:induction false} NoneInFlight<A>(drains: seq<Drain<A>>, n: nat)
    requires n <= |drains| && forall d | 0 <= d < n :: !drains[d].phase.Executing?
    ensures InFlight(drains, n) == multiset{}
  {
    if n != 0 {
      NoneInFlight(drains, n - 1);
    }
  }

  lemma {:induction false} OneInFlight<A>(drains: seq<Drain<A>>, n: nat, d: nat)
    requires d < n <= |drains|
    ensures Flying(drains[d], d) <= InFlight(drains, n)
  {
    if d < n - 1 {
      OneInFlight(drains, n - 1, d);
    }
  }

  lemma Cancel<T>(a: multiset<T>, b: multiset<T>, c: multiset<T>)
    requires a + b == a + c
    ensures b == c
  {
    assert (a + b) - a == b && (a + c) - a == c;
  }

  /** A job in flight is its own drain's, and there once. */
  lemma {:induction false} FlightIsOwn<A>(drains: seq<Drain<A>>, n: nat, job: Job<A>)
    requires n <= |drains|
    ensures InFlight(drains, n)[job] <= 1
    ensures job in InFlight(drains, n) ==>
              job.drain < n && Flying(drains[job.drain], job.drain) == multiset{job}
  {
    hide InFlight;
    if n != 0 {
      FlightIsOwn(drains, n - 1, job);
      FlightStep(drains, n - 1);
    } else {
      NoneInFlight(drains, 0);
    }
  }

  /** What was popped and not executed is what is in flight. */
  lemma PendingInFlight<A>(s: State<A>)
    requires Inv(s) && s.executed <= s.popped
    ensures multiset(s.popped[|s.executed|..]) == InFlight(s.drains, |s.drains|)
  {
    hide InFlight;
    var n := |s.executed|;
    assert s.popped == s.executed + s.popped[n..];
    assert multiset(s.popped) == multiset(s.executed) + multiset(s.popped[n..]);
    Cancel(multiset(s.executed), multiset(s.popped[n..]), InFlight(s.drains, |s.drains|));
  }

  /** With at most one in flight, it is the one that finishes next. */
  lemma NextInOrder<A>(s: State<A>, d: nat)
    requires Inv(s) && InOrder(s) && Enabled(s, Executed(d))
    ensures Next(s, Executed(d)).executed <= s.popped
  {
    hide InFlight, Inv;
    PendingInFlight(s);
    OneInFlight(s.drains, |s.drains|, d);
    var pending, job := s.popped[|s.executed|..], Job(s.drains[d].phase.action, s.drains[d].caller, d);
    assert job in multiset(pending);
    assert s.popped == s.executed + pending && pending == [job];
  }

  /** With two, the later one can finish next. */
  lemma NextOutOfOrder<A>(s: State<A>) returns (d: nat)
    requires Inv(s) && s.executed <= s.popped && |s.popped| > |s.executed| + 1
    ensures Enabled(s, Executed(d)) && !(Next(s, Executed(d)).executed <= s.popped)
  {
    hide InFlight, Inv;
    var pending := s.popped[|s.executed|..];
    var job := pending[1];
    PendingInFlight(s);
    assert job in multiset(pending);
    FlightIsOwn(s.drains, |s.drains|, job);
    TwiceCounts(pending);
    d := job.drain;
    FlyingIs(s.drains[d], d, job);
    assert Next(s, Executed(d)).executed[|s.executed|] == job != s.popped[|s.executed|];
  }

  lemma FlyingIs<A>(drain: Drain<A>, d: nat, job: Job<A>)
    requires Flying(drain, d) == multiset{job}
    ensures drain.phase.Executing? && job == Job(drain.phase.action, drain.caller, d)
  {
    assert job in Flying(drain, d);
  }

  /** Whichever action finishes next keeps the order exactly when at most one is in flight. */
  lemma OrderSafeExactly<A>(s: State<A>)
    requires Inv(s) && s.executed <= s.popped
    ensures OrderSafe(s) <==> InOrder(s)
  {
    hide Inv, Next;
    if InOrder(s) {
      forall d: nat | Enabled(s, Executed(d))
        ensures Next(s, Executed(d)).executed <= s.popped
      {
        NextInOrder(s, d);
      }
    } else {
      var d := NextOutOfOrder(s);
    }
  }

  lemma TwiceCounts<T>(s: seq<T>)
    requires |s| >= 2
    ensures s[0] == s[1] ==> multiset(s)[s[0]] >= 2
  {
    assert s == [s[0], s[1]] + s[2..];
  }

  lemma StepKeepsOrder<A>(s: State<A>, step: Step<A>)
    requires Inv(s) && InOrder(s) && Enabled(s, step)
    ensures Next(s, step).executed <= Next(s, step).popped
    ensures InOrder(Next(s, step)) <==> !Overlaps(s, step)
  {
    hide InFlight;
    PendingInFlight(s);
    var pending := s.popped[|s.executed|..];
    if d: nat :| d < |s.drains| && s.drains[d].phase.Executing? {
      OneInFlight(s.drains, |s.drains|, d);
      assert Job(s.drains[d].phase.action, s.drains[d].caller, d) in multiset(pending);
    } else {
      NoneInFlight(s.drains, |s.drains|);
      assert |multiset(pending)| == 0;
    }
    if step.Executed? {
      OrderSafeExactly(s);
    }
  }

  /** Executions stay in order, whichever finishes next, exactly as long as no action is popped while
      another one executes. */
  lemma {:induction false} RunStaysInOrder<A(!new)>(s: State<A>, steps: seq<Step<A>>)
    requires Inv(s) && InOrder(s) && Schedule(s, steps)
    ensures AlwaysOrderSafe(s, steps) <==> NeverOverlaps(s, steps)
    decreases |steps|
  {
    hide Inv, InOrder, OrderSafe, Overlaps, Next;
    OrderSafeNow(s);
    if steps != [] {
      var t := Next(s, steps[0]);
      StepKeepsInv(s, steps[0]);
      StepKeepsOrder(s, steps[0]);
      OrderSafeExactly(t);
      if InOrder(t) {
        RunStaysInOrder(t, steps[1..]);
      } else {
        assert !AlwaysOrderSafe(t, steps[1..]);
      }
    }
  }

  lemma OrderSafeNow<A>(s: State<A>)
    requires Inv(s) && InOrder(s)
    ensures OrderSafe(s)
  {
    OrderSafeExactly(s);
  }

  /** Then accepted pushes are executed, in flight or queued, in order. */
  lemma {:induction false} OrderedRun<A(!new)>(s: State<A>, steps: seq<Step<A>>)
    requires Inv(s) && Schedule(s, steps) && AlwaysOrderSafe(s, steps)
    ensures var t := Run(s, steps);
            && t.executed <= t.popped
            && t.accepted == Actions(t.executed) + Actions(t.popped[|t.executed|..]) + t.queue
    decreases |steps|
  {
    hide OrderSafe, Next;
    if steps == [] {
      Ordered(s);
    } else {
      StepKeepsInv(s, steps[0]);
      OrderedRun(Next(s, steps[0]), steps[1..]);
    }
  }

  lemma Ordered<A>(s: State<A>)
    requires Inv(s) && OrderSafe(s)
    ensures s.executed <= s.popped
    ensures s.accepted == Actions(s.executed) + Actions(s.popped[|s.executed|..]) + s.queue
  {
    assert s.popped == s.executed + s.popped[|s.executed|..];
    ActionsConcat(s.executed, s.popped[|s.executed|..]);
  }

  lemma ActionsConcat<A>(a: seq<Job<A>>, b: seq<Job<A>>)
    ensures Actions(a + b) == Actions(a) + Actions(b)
  {
  }

  /** A drain called from an executor finishes a later action first. */
  lemma NestedDrainReorders<A(!new)>(a: A, b: A)
    ensures var s := Next(Next(Initial(2), Push(a)), Push(b));
            var steps := [Begin(1, 1), Pop(0), Begin(1, 1), Pop(1), Executed(1), Executed(0)];
            && s.accepted == [a, b] && Schedule(s, steps)
            && Run(s, steps).executed == [Job(b, 1, 1), Job(a, 1, 0)]
  {
    hide Run, Schedule;
    var s0 := Next(Next(Initial(2), Push(a)), Push(b));
    assert s0.queue == [a, b] && [a, b][1..] == [b];
    var s1 := Next(s0, Begin(1, 1));
    assert s1.drains == [Drain(1, 1, Between(1))];
    var s2 := Next(s1, Pop(0));
    var s3 := Next(s2, Begin(1, 1));
    assert s3.drains == [Drain(1, 1, Executing(a, 0)), Drain(1, 1, Between(1))];
    var s4 := Next(s3, Pop(1));
    assert s4.drains == [Drain(1, 1, Executing(a, 0)), Drain(1, 1, Executing(b, 0))];
    var s5 := Next(s4, Executed(1));
    assert s5.drains == [Drain(1, 1, Executing(a, 0)), Drain(1, 1, Between(0))];
    var s6 := Next(s5, Executed(0));
    RunAlong([s0, s1, s2, s3, s4, s5, s6],
             [Begin(1, 1), Pop(0), Begin(1, 1), Pop(1), Executed(1), Executed(0)]);
  }

  /** So does a drain on another thread that was bound while the first one executed. */
  lemma ReboundDrainReorders<A(!new)>(a: A, b: A)
    ensures var s := Next(Next(Initial(2), Push(a)), Push(b));
            var steps := [Begin(1, 1), Pop(0), Bind(2), Begin(2, 1), Pop(1), Executed(1), Executed(0)];
            && s.accepted == [a, b] && Schedule(s, steps)
            && Run(s, steps).executed == [Job(b, 2, 1), Job(a, 1, 0)]
  {
    hide Run, Schedule;
    var s0 := Next(Next(Initial(2), Push(a)), Push(b));
    assert s0.queue == [a, b] && [a, b][1..] == [b];
    var s1 := Next(s0, Begin(1, 1));
    assert s1.drains == [Drain(1, 1, Between(1))];
    var s2 := Next(s1, Pop(0));
    var s3 := Next(s2, Bind(2));
    var s4 := Next(s3, Begin(2, 1));
    assert s4.drains == [Drain(1, 1, Executing(a, 0)), Drain(2, 1, Between(1))];
    var s5 := Next(s4, Pop(1));
    assert s5.drains == [Drain(1, 1, Executing(a, 0)), Drain(2, 1, Executing(b, 0))];
    var s6 := Next(s5, Executed(1));
    assert s6.drains == [Drain(1, 1, Executing(a, 0)), Drain(2, 1, Between(0))];
    var s7 := Next(s6, Executed(0));
    RunAlong([s0, s1, s2, s3, s4, s5, s6, s7],
             [Begin(1, 1), Pop(0), Bind(2), Begin(2, 1), Pop(1), Executed(1), Executed(0)]);
  }

  /** The claims for every interleaving from an empty queue, the last two exactly when they hold. */
  lemma EveryInterleaving<A(!new)>(capacity: nat, steps: seq<Step<A>>)
    requires Schedule(Initial<A>(capacity), steps)
    ensures var start: State<A> := Initial(capacity);
            var s := Run(start, steps);
            && s.accepted == Actions(s.popped) + s.queue
            && |s.queue| <= capacity && s.offered == |s.accepted| + s.dropped
            && (AlwaysOnGameThread(start, steps) <==> NeverRebinds(start, steps))
            && (OneBinding(start, steps) ==> AllBy(s.executed, s.gameThread))
            && (AlwaysOrderSafe(start, steps) <==> NeverOverlaps(start, steps))
            && (NeverOverlaps(start, steps) ==>
                  && s.executed <= s.popped
                  && s.accepted == Actions(s.executed) + Actions(s.popped[|s.executed|..]) + s.queue)
  {
    hide OneBinding, NeverRebinds, NeverOverlaps, AlwaysOnGameThread, AlwaysOrderSafe, Run, Schedule, AllBy;
    var start: State<A> := Initial(capacity);
    InitialHolds<A>(capacity);
    RunKeepsInv(start, steps);
    RunStaysOnGameThread(start, steps);
    RunStaysInOrder(start, steps);
    if OneBinding(start, steps) {
      OneBindingOneThread(start, steps);
    }
    if NeverOverlaps(start, steps) {
      OrderedRun(start, steps);
    }
  }

  lemma InitialHolds<A>(capacity: nat)
    ensures var s: State<A> := Initial(capacity);
            Inv(s) && OnGameThread(s) && InOrder(s) && AllBy(s.popped, 0) && AllBy(s.executed, 0)
  {
  }
}
