/**
 The bounded queue that hands plugin actions back to the game thread. Every lock-held section is
 one step; a drain is a sequence of steps of its calling thread, between which anything can happen:
 pushes, rebinding, and other drains, nested in an executor or on another thread.
 */
module ActionQueue {
  import opened Bytes

  type Thread = x: nat | x != 0 witness 1

  datatype Phase<A> = Between(left: nat) | Executing(action: A, left: nat) | Over

  /** A call of `drain` that passed the thread test. */
  datatype Drain<A> = Drain(caller: Thread, maxActions: nat, phase: Phase<A>)

  /** An action that the `drain`-th drain popped on thread `caller`. */
  datatype Job<A> = Job(action: A, caller: Thread, drain: nat)

  /** `gameThread` is 0 while no thread is bound; the last four fields record what happened so far. */
  datatype State<A> = State(
    capacity: nat,
    queue: seq<A>,
    gameThread: nat,
    dropped: nat,
    drains: seq<Drain<A>>,
    offered: nat,
    accepted: seq<A>,
    popped: seq<Job<A>>,
    executed: seq<Job<A>>)

  datatype Step<A> =
    | Bind(thread: Thread)
    | Push(action: A)
    | Begin(caller: Thread, maxActions: nat)
    | Pop(drain: nat)
    | Executed(drain: nat)

  function Initial<A>(capacity: nat): State<A> {
    State(capacity, [], 0, 0, [], 0, [], [], [])
  }

  /** Any thread can bind, push or begin a drain at any time. */
  predicate Enabled<A>(s: State<A>, step: Step<A>) {
    match step
    case Pop(d) => d < |s.drains| && s.drains[d].phase.Between?
    case Executed(d) => d < |s.drains| && s.drains[d].phase.Executing?
    case _ => true
  }

  function InPhase<A>(s: State<A>, d: nat, phase: Phase<A>): seq<Drain<A>>
    requires d < |s.drains|
  {
    s.drains[d := s.drains[d].(phase := phase)]
  }

  function Next<A>(s: State<A>, step: Step<A>): State<A>
    requires Enabled(s, step)
  {
    match step
    case Bind(thread) => s.(gameThread := thread)
    case Push(action) =>
      if |s.queue| >= s.capacity then s.(dropped := s.dropped + 1, offered := s.offered + 1)
      else s.(queue := s.queue + [action], accepted := s.accepted + [action], offered := s.offered + 1)
    case Begin(caller, maxActions) =>
      if s.gameThread != 0 && s.gameThread != caller then s
      else s.(gameThread := caller, drains := s.drains + [Drain(caller, maxActions, Between(maxActions))])
    case Pop(d) =>
      var left := s.drains[d].phase.left;
      if left == 0 || s.queue == [] then s.(drains := InPhase(s, d, Over))
      else
        s.(queue := s.queue[1..],
           popped := s.popped + [Job(s.queue[0], s.drains[d].caller, d)],
           drains := InPhase(s, d, Executing(s.queue[0], left - 1)))
    case Executed(d) =>
      var Drain(caller, _, phase) := s.drains[d];
      s.(executed := s.executed + [Job(phase.action, caller, d)], drains := InPhase(s, d, Between(phase.left)))
  }

  // ---------- Accounting, for every interleaving ----------

  function Actions<A>(jobs: seq<Job<A>>): (r: seq<A>)
    ensures |r| == |jobs|
  {
    seq(|jobs|, i requires 0 <= i < |jobs| => jobs[i].action)
  }

  ghost function Flying<A>(drain: Drain<A>, d: nat): multiset<Job<A>> {
    if drain.phase.Executing? then multiset{Job(drain.phase.action, drain.caller, d)} else multiset{}
  }

  /** The jobs popped and not yet executed, by the first `n` drains. */
  ghost function InFlight<A>(drains: seq<Drain<A>>, n: nat): multiset<Job<A>>
    requires n <= |drains|
  {
    if n == 0 then multiset{} else InFlight(drains, n - 1) + Flying(drains[n - 1], n - 1)
  }

  /** How many jobs drain `d` popped. */
  function Count<A>(jobs: seq<Job<A>>, d: nat): nat {
    if jobs == [] then 0
    else Count(jobs[..|jobs| - 1], d) + if jobs[|jobs| - 1].drain == d then 1 else 0
  }

  function Left<A>(phase: Phase<A>): nat { if phase.Over? then 0 else phase.left }

  ghost predicate Balanced<A>(s: State<A>) {
    multiset(s.popped) == multiset(s.executed) + InFlight(s.drains, |s.drains|)
  }

  /** A drain keeps to its `max_actions`, and has executed all it popped but the one in flight. */
  predicate InBudget<A>(drain: Drain<A>, popped: nat, executed: nat) {
    && popped + Left(drain.phase) <= drain.maxActions
    && popped == executed + if drain.phase.Executing? then 1 else 0
  }

  /** Every job ran on the thread that called its drain. */
  ghost predicate ByCallers<A>(jobs: seq<Job<A>>, drains: seq<Drain<A>>) {
    forall i | 0 <= i < |jobs| ::
      jobs[i].drain < |drains| && jobs[i].caller == drains[jobs[i].drain].caller
  }

  /** Accepted pushes are popped or queued, in order; each popped action is executed or in flight,
      once; the queue is bounded; `dropped` counts exactly the refusals; a drain pops at most its
      `max_actions`, on its caller's thread. */
  ghost predicate Inv<A>(s: State<A>) {
    && s.accepted == Actions(s.popped) + s.queue
    && Balanced(s)
    && |s.queue| <= s.capacity
    && s.offered == |s.accepted| + s.dropped
    && (forall d | 0 <= d < |s.drains| :: InBudget(s.drains[d], Count(s.popped, d), Count(s.executed, d)))
    && ByCallers(s.popped, s.drains) && ByCallers(s.executed, s.drains)
  }

  lemma {:induction false} FlightSame<A>(drains: seq<Drain<A>>, n: nat, d: nat, drain: Drain<A>)
    requires n <= d < |drains|
    ensures InFlight(drains[d := drain], n) == InFlight(drains, n)
  {
    if n != 0 {
      FlightSame(drains, n - 1, d, drain);
    }
  }

  lemma Exchange<T>(a: multiset<T>, b: multiset<T>, x: multiset<T>, y: multiset<T>, z: multiset<T>)
    requires a + x == b + y
    ensures (a + z) + x == (b + z) + y
  {
    assert (a + z) + x == (a + x) + z && (b + z) + y == (b + y) + z;
  }

  lemma {:induction false} FlightChanges<A>(drains: seq<Drain<A>>, n: nat, d: nat, drain: Drain<A>)
    requires d < n <= |drains|
    ensures InFlight(drains[d := drain], n) + Flying(drains[d], d) == InFlight(drains, n) + Flying(drain, d)
  {
    hide Flying, InFlight;
    FlightStep(drains, n - 1);
    FlightStep(drains[d := drain], n - 1);
    if d == n - 1 {
      FlightSame(drains, n - 1, d, drain);
    } else {
      FlightChanges(drains, n - 1, d, drain);
      Exchange(InFlight(drains[d := drain], n - 1), InFlight(drains, n - 1),
               Flying(drains[d], d), Flying(drain, d), Flying(drains[n - 1], n - 1));
    }
  }

  lemma FlightStep<A>(drains: seq<Drain<A>>, n: nat)
    requires n < |drains|
    ensures InFlight(drains, n + 1) == InFlight(drains, n) + Flying(drains[n], n)
  {
  }

  lemma {:induction false} FlightExtends<A>(drains: seq<Drain<A>>, n: nat, drain: Drain<A>)
    requires n <= |drains|
    ensures InFlight(drains + [drain], n) == InFlight(drains, n)
  {
    if n != 0 {
      FlightExtends(drains, n - 1, drain);
    }
  }

  lemma {:induction false} CountNone<A>(jobs: seq<Job<A>>, d: nat)
    requires forall i | 0 <= i < |jobs| :: jobs[i].drain < d
    ensures Count(jobs, d) == 0
  {
    if jobs != [] {
      CountNone(jobs[..|jobs| - 1], d);
    }
  }

  lemma CountNext<A>(jobs: seq<Job<A>>, job: Job<A>, d: nat)
    ensures Count(jobs + [job], d) == Count(jobs, d) + if job.drain == d then 1 else 0
  {
    assert (jobs + [job])[..|jobs|] == jobs;
  }

  lemma ActionsNext<A>(jobs: seq<Job<A>>, job: Job<A>)
    ensures Actions(jobs + [job]) == Actions(jobs) + [job.action]
  {
  }

  lemma BeginKeepsInv<A>(s: State<A>, step: Step<A>)
    requires Inv(s) && Enabled(s, step) && step.Begin?
    ensures Inv(Next(s, step))
  {
    hide Count, InFlight;
    var drain := Drain(step.caller, step.maxActions, Between(step.maxActions));
    CountNone(s.popped, |s.drains|);
    CountNone(s.executed, |s.drains|);
    FlightExtends(s.drains, |s.drains|, drain);
    FlightStep(s.drains + [drain], |s.drains|);
  }

  /** What a drain takes up or puts down is what is popped or executed. */
  lemma BalanceMoves<A>(s: State<A>, t: State<A>, d: nat, drain: Drain<A>,
                        more: multiset<Job<A>>, done: multiset<Job<A>>)
    requires Balanced(s) && d < |s.drains| && t.drains == s.drains[d := drain]
    requires multiset(t.popped) == multiset(s.popped) + more
    requires multiset(t.executed) == multiset(s.executed) + done
    requires more + Flying(s.drains[d], d) == done + Flying(drain, d)
    ensures Balanced(t)
  {
    hide Flying, InFlight;
    var n := |s.drains|;
    FlightChanges(s.drains, n, d, drain);
    Settle(InFlight(s.drains, n), InFlight(t.drains, n), Flying(s.drains[d], d), Flying(drain, d), more, done);
    assert multiset(s.popped) + more == multiset(s.executed) + (InFlight(s.drains, n) + more);
  }

  lemma Settle<T>(before: multiset<T>, after: multiset<T>, f: multiset<T>, g: multiset<T>,
                  more: multiset<T>, done: multiset<T>)
    requires after + f == before + g && more + f == done + g
    ensures before + more == done + after
  {
    forall x
      ensures (before + more)[x] == (done + after)[x]
    {
      assert (after + f)[x] == (before + g)[x] && (more + f)[x] == (done + g)[x];
    }
  }

  lemma PopKeepsInv<A>(s: State<A>, d: nat)
    requires Inv(s) && Enabled(s, Pop(d))
    ensures Inv(Next(s, Pop(d)))
  {
    hide Count, InFlight, Actions;
    var t := Next(s, Pop(d));
    if |t.popped| == |s.popped| {
      BalanceMoves(s, t, d, s.drains[d].(phase := Over), multiset{}, multiset{});
    } else {
      var job := Job(s.queue[0], s.drains[d].caller, d);
      BalanceMoves(s, t, d, t.drains[d], multiset{job}, multiset{});
      ActionsNext(s.popped, job);
      assert s.queue == [s.queue[0]] + t.queue;
      ConcatAssociates(Actions(s.popped), [s.queue[0]], t.queue);
      forall e | 0 <= e < |t.drains|
        ensures InBudget(t.drains[e], Count(t.popped, e), Count(t.executed, e))
      {
        CountNext(s.popped, job, e);
      }
    }
  }

  lemma ExecutedKeepsInv<A>(s: State<A>, d: nat)
    requires Inv(s) && Enabled(s, Executed(d))
    ensures Inv(Next(s, Executed(d)))
  {
    hide Count, InFlight, Actions;
    var t, job := Next(s, Executed(d)), Job(s.drains[d].phase.action, s.drains[d].caller, d);
    BalanceMoves(s, t, d, t.drains[d], multiset{}, multiset{job});
    forall e | 0 <= e < |t.drains|
      ensures InBudget(t.drains[e], Count(t.popped, e), Count(t.executed, e))
    {
      CountNext(s.executed, job, e);
    }
  }

  lemma StepKeepsInv<A>(s: State<A>, step: Step<A>)
    requires Inv(s) && Enabled(s, step)
    ensures Inv(Next(s, step))
  {
    hide Count, InFlight, Actions;
    match step
    case Begin(_, _) => BeginKeepsInv(s, step);
    case Pop(d) => PopKeepsInv(s, d);
    case Executed(d) => ExecutedKeepsInv(s, d);
    case _ =>
  }

  // ---------- Runs ----------

  ghost predicate Schedule<A(!new)>(s: State<A>, steps: seq<Step<A>>)
    decreases |steps|
  {
    steps == [] || (Enabled(s, steps[0]) && Schedule(Next(s, steps[0]), steps[1..]))
  }

  ghost function Run<A(!new)>(s: State<A>, steps: seq<Step<A>>): State<A>
    requires Schedule(s, steps)
    decreases |steps|
  {
    if steps == [] then s else Run(Next(s, steps[0]), steps[1..])
  }

  /** Under every interleaving; what was accepted, popped and executed is never revised. */
  lemma {:induction false} RunKeepsInv<A(!new)>(s: State<A>, steps: seq<Step<A>>)
    requires Inv(s) && Schedule(s, steps)
    ensures Inv(Run(s, steps)) && Run(s, steps).capacity == s.capacity
    ensures var t := Run(s, steps);
            s.accepted <= t.accepted && s.popped <= t.popped && s.executed <= t.executed
    decreases |steps|
  {
    hide Inv;
    if steps != [] {
      StepKeepsInv(s, steps[0]);
      RunKeepsInv(Next(s, steps[0]), steps[1..]);
    }
  }

  /** Whatever else happens meanwhile, the `d`-th drain executes at most its `max_actions`. */
  lemma DrainBounded<A(!new)>(capacity: nat, steps: seq<Step<A>>, d: nat)
    requires Schedule(Initial<A>(capacity), steps) && d < |Run(Initial<A>(capacity), steps).drains|
    ensures var s := Run(Initial<A>(capacity), steps); Count(s.executed, d) <= s.drains[d].maxActions
  {
    RunKeepsInv(Initial<A>(capacity), steps);
  }

  // ---------- What callers were told ----------

  /** The actions of the pushes of a run that were answered true, and the number of the others. */
  ghost function Taken<A(!new)>(s: State<A>, steps: seq<Step<A>>): seq<A>
    requires Schedule(s, steps)
    decreases |steps|
  {
    if steps == [] then []
    else
      (if steps[0].Push? && |s.queue| < s.capacity then [steps[0].action] else [])
      + Taken(Next(s, steps[0]), steps[1..])
  }

  ghost function TurnedAway<A(!new)>(s: State<A>, steps: seq<Step<A>>): nat
    requires Schedule(s, steps)
    decreases |steps|
  {
    if steps == [] then 0
    else
      (if steps[0].Push? && |s.queue| >= s.capacity then 1 else 0)
      + TurnedAway(Next(s, steps[0]), steps[1..])
  }

  lemma StepAnswers<A>(s: State<A>, step: Step<A>)
    requires Enabled(s, step)
    ensures var t := Next(s, step);
            && t.accepted == s.accepted + (if step.Push? && |s.queue| < s.capacity then [step.action] else [])
            && t.dropped == s.dropped + (if step.Push? && |s.queue| >= s.capacity then 1 else 0)
  {
  }

  /** Under every interleaving, the accepted actions are those of the pushes answered true, in order,
      and `dropped` is the number of those answered false. */
  lemma {:induction false} AnswersAreKept<A(!new)>(s: State<A>, steps: seq<Step<A>>)
    requires Schedule(s, steps)
    ensures var t := Run(s, steps);
            t.accepted == s.accepted + Taken(s, steps) && t.dropped == s.dropped + TurnedAway(s, steps)
    decreases |steps|
  {
    hide Next, Enabled;
    if steps != [] {
      StepAnswers(s, steps[0]);
      AnswersAreKept(Next(s, steps[0]), steps[1..]);
      ConcatAssociates(s.accepted,
                       if steps[0].Push? && |s.queue| < s.capacity then [steps[0].action] else [],
                       Taken(Next(s, steps[0]), steps[1..]));
    }
  }

  /** A run written out state by state. */
  lemma {:induction false} RunAlong<A(!new)>(states: seq<State<A>>, steps: seq<Step<A>>)
    requires |states| == |steps| + 1
    requires forall i | 0 <= i < |steps| :: Enabled(states[i], steps[i]) && Next(states[i], steps[i]) == states[i + 1]
    ensures Schedule(states[0], steps) && Run(states[0], steps) == states[|steps|]
    decreases |steps|
  {
    hide Enabled, Next;
    if steps != [] {
      RunAlong(states[1..], steps[1..]);
    }
  }

  // ---------- The queue object ----------

  /** What happens while an action executes, by its executor or by anyone else: pushes, bindings,
      and whole drains, with what happens during each of their executions. */
  datatype Effect<A> =
    | Offered(action: A)
    | Rebound(thread: Thread)
    | Drained(caller: Thread, maxActions: nat, script: seq<Turn<A>>)

  datatype Turn<A> = Turn(effects: seq<Effect<A>>)

  /** Drain `d` apart, later drains came and went and earlier ones stayed as they were. */
  ghost predicate Beside<A>(s: State<A>, t: State<A>, d: int) {
    && s.capacity == t.capacity && |s.drains| <= |t.drains|
    && s.accepted <= t.accepted && s.popped <= t.popped && s.executed <= t.executed
    && (forall e | 0 <= e < |s.drains| && e != d :: t.drains[e] == s.drains[e])
    && (forall e | |s.drains| <= e < |t.drains| && e != d :: t.drains[e].phase.Over?)
    && forall e: nat | e < |s.drains| && e != d ::
         Count(t.popped, e) == Count(s.popped, e) && Count(t.executed, e) == Count(s.executed, e)
  }

  lemma BesideFollows<A>(s: State<A>, t: State<A>, u: State<A>, d: int)
    requires Beside(s, t, d) && (Beside(t, u, d) || Beside(t, u, -1))
    ensures Beside(s, u, d)
  {
    hide Count;
  }

  /** The drain a step moves, if any. */
  function Moved<A>(s: State<A>, step: Step<A>): int {
    match step
    case Begin(_, _) => |s.drains|
    case Pop(d) => d
    case Executed(d) => d
    case _ => -1
  }

  lemma StepBeside<A>(s: State<A>, step: Step<A>)
    requires Enabled(s, step)
    ensures Beside(s, Next(s, step), Moved(s, step))
  {
    hide Count;
    match step
    case Pop(d) =>
      forall e: nat | e != d && s.drains[d].phase.left != 0 && s.queue != []
        ensures Count(Next(s, step).popped, e) == Count(s.popped, e)
      {
        CountNext(s.popped, Job(s.queue[0], s.drains[d].caller, d), e);
      }
    case Executed(d) =>
      forall e: nat | e != d
        ensures Count(Next(s, step).executed, e) == Count(s.executed, e)
      {
        CountNext(s.executed, Job(s.drains[d].phase.action, s.drains[d].caller, d), e);
      }
    case _ =>
  }

  class Queue<A> {
    const capacity: nat
    var queue: seq<A>
    var gameThread: nat
    var dropped: nat
    ghost var drains: seq<Drain<A>>
    ghost var offered: nat
    ghost var accepted: seq<A>
    ghost var popped: seq<Job<A>>
    ghost var executed: seq<Job<A>>

    ghost function View(): State<A>
      reads this
    {
      State(capacity, queue, gameThread, dropped, drains, offered, accepted, popped, executed)
    }

    constructor (capacity: nat)
      ensures View() == Initial(capacity)
    {
      this.capacity := capacity;
      queue, gameThread, dropped := [], 0, 0;
      drains, offered, accepted, popped, executed := [], 0, [], [], [];
    }

    method BindGameThread(thread: Thread)
      modifies this
      ensures View() == Next(old(View()), Bind(thread))
      ensures View() == old(View()).(gameThread := thread)
    {
      gameThread := thread;
    }

    method Offer(action: A) returns (ok: bool)
      modifies this
      ensures View() == Next(old(View()), Push(action))
      ensures ok <==> |old(queue)| < capacity
      ensures ok ==> queue == old(queue) + [action] && accepted == old(accepted) + [action] && dropped == old(dropped)
      ensures !ok ==> queue == old(queue) && accepted == old(accepted) && dropped == old(dropped) + 1
    {
      offered := offered + 1;
      if |queue| >= capacity {
        dropped := dropped + 1;
        return false;
      }
      queue := queue + [action];
      accepted := accepted + [action];
      return true;
    }

    /** The effects of one execution, one after another. */
    method Perform(turn: Turn<A>)
      requires Inv(View())
      modifies this
      ensures Inv(View()) && Beside(old(View()), View(), -1)
      decreases turn, 2
    {
      hide Inv, Beside, Next;
      var effects, i := turn.effects, 0;
      BesideSelf(View());
      while i < |effects|
        invariant i <= |effects| && Inv(View()) && Beside(old(View()), View(), -1)
      {
        ghost var s := View();
        match effects[i] {
          case Offered(action) =>
            var _ := Offer(action);
            StepKeepsInv(s, Push(action));
            StepBeside(s, Push(action));
          case Rebound(thread) =>
            BindGameThread(thread);
            StepKeepsInv(s, Bind(thread));
            StepBeside(s, Bind(thread));
          case Drained(caller, maxActions, script) =>
            var _ := DrainOn(caller, maxActions, script);
        }
        BesideFollows(old(View()), s, View(), -1);
        i := i + 1;
      }
    }

    /** One turn of the drain loop of drain `d`, called on thread `caller`. */
    method ExecuteFront(caller: Thread, script: seq<Turn<A>>, k: nat, ghost d: nat)
      requires Inv(View()) && d < |drains| && queue != []
      requires drains[d].caller == caller && drains[d].phase.Between? && drains[d].phase.left > 0
      modifies this
      ensures Inv(View()) && Beside(old(View()), View(), d) && d < |drains|
      ensures drains[d] == old(drains)[d].(phase := Between(old(drains)[d].phase.left - 1))
      ensures Count(executed, d) == Count(old(executed), d) + 1 && Job(old(queue)[0], caller, d) in executed
      decreases script, 0
    {
      hide Inv, Count;
      ghost var s, left := View(), drains[d].phase.left - 1;
      var action := queue[0];
      queue := queue[1..];
      popped := popped + [Job(action, caller, d)];
      drains := drains[d := drains[d].(phase := Executing(action, left))];
      StepKeepsInv(s, Pop(d));
      StepBeside(s, Pop(d));
      ghost var t := View();
      assert t == Next(s, Pop(d));
      BesideSelf(t);
      if k < |script| {
        Perform(script[k]);
      }
      BesideFollows(s, t, View(), d);
      ghost var u := View();
      CountNext(executed, Job(action, caller, d), d);
      executed := executed + [Job(action, caller, d)];
      drains := drains[d := drains[d].(phase := Between(left))];
      assert View() == Next(u, Executed(d));
      StepKeepsInv(u, Executed(d));
      StepBeside(u, Executed(d));
      BesideFollows(s, u, View(), d);
    }

    /** `script[k]` holds what happens during the k-th execution. A refused call changes nothing; any
        other executes `processed` actions, at most `maxActions`, on the caller's thread, and stops
        short only on an empty queue. */
    method DrainOn(caller: Thread, maxActions: nat, script: seq<Turn<A>>) returns (processed: nat)
      requires Inv(View())
      modifies this
      ensures Inv(View()) && Beside(old(View()), View(), -1)
      ensures old(gameThread) != 0 && old(gameThread) != caller ==> processed == 0 && View() == old(View())
      ensures old(gameThread) == 0 || old(gameThread) == caller ==>
                var d := |old(drains)|;
                && d < |drains| && drains[d] == Drain(caller, maxActions, Over)
                && Count(executed, d) == processed <= maxActions
                && (processed == maxActions || queue == [])
      decreases script, 1
    {
      hide Inv, Count, Beside;
      processed := 0;
      ghost var s, d := View(), |drains|;
      BesideSelf(s);
      if gameThread == 0 {
        gameThread := caller;
      }
      if gameThread != caller {
        return;
      }
      drains := drains + [Drain(caller, maxActions, Between(maxActions))];
      StepKeepsInv(s, Begin(caller, maxActions));
      StepBeside(s, Begin(caller, maxActions));
      NothingCounted(s);
      while processed < maxActions && queue != []
        invariant processed <= maxActions && Inv(View()) && Beside(s, View(), d)
        invariant d < |drains| && drains[d] == Drain(caller, maxActions, Between(maxActions - processed))
        invariant Count(executed, d) == processed
      {
        ghost var t := View();
        ExecuteFront(caller, script, processed, d);
        BesideFollows(s, t, View(), d);
        processed := processed + 1;
      }
      ghost var t := View();
      drains := drains[d := drains[d].(phase := Over)];
      assert View() == Next(t, Pop(d));
      StepKeepsInv(t, Pop(d));
      StepBeside(t, Pop(d));
      BesideFollows(s, t, View(), d);
      BesideNew(s, View(), d);
    }
  }

  lemma NothingCounted<A>(s: State<A>)
    requires Inv(s)
    ensures Count(s.executed, |s.drains|) == 0
  {
    CountNone(s.executed, |s.drains|);
  }

  lemma BesideSelf<A>(s: State<A>)
    ensures Beside(s, s, -1)
  {
  }

  lemma BesideNew<A>(s: State<A>, t: State<A>, d: nat)
    requires Beside(s, t, d) && d == |s.drains| < |t.drains| && t.drains[d].phase.Over?
    ensures Beside(s, t, -1)
  {
  }
}
