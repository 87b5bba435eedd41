/**
 A plugin's worker thread and its two bounded queues. Every lock-held section of the source is
 one atomic step, and a Lua callback is one opaque step between `Take` and `Finish`.
 */
module Worker {
  const MAX_QUEUE: nat := 256

  /** Event kinds are compared without case (ASCII letters). */
  function Canonical(text: string): string {
    seq(|text|, i requires 0 <= i < |text| => if 'A' <= text[i] <= 'Z' then text[i] + 32 as char else text[i])
  }

  predicate Capital(c: char) { 'A' <= c <= 'Z' }

  /** Equal, or a capital ASCII letter and the small one of the same name. */
  predicate SameLetter(c: char, d: char) {
    || c == d
    || (Capital(c) && d as int == c as int + 32)
    || (Capital(d) && c as int == d as int + 32)
  }

  predicate SameKind(a: string, b: string) {
    |a| == |b| && forall i | 0 <= i < |a| :: SameLetter(a[i], b[i])
  }

  /** The canonical kind is the one without capitals among those that differ in letter case alone;
      so two kinds match exactly when they differ in letter case alone. */
  lemma CanonicalExactly(a: string, b: string)
    ensures SameKind(Canonical(a), a) && forall i | 0 <= i < |Canonical(a)| :: !Capital(Canonical(a)[i])
    ensures Canonical(a) == Canonical(b) <==> SameKind(a, b)
  {
    var c, d := Canonical(a), Canonical(b);
    if SameKind(a, b) {
      assert forall i | 0 <= i < |a| :: c[i] == d[i];
    }
  }

  /** Where the worker thread is. */
  datatype Phase<C, E> =
    | Starting
    | Waiting
    | InCommand(command: C)
    | InEvent(event: E)
    | Closing
    | Exited

  /** The instance's fields, its thread's position, and what was accepted and executed so far. */
  datatype State<C, E> = State(
    queue: seq<C>,
    events: seq<E>,
    kinds: set<string>,
    running: bool,
    stopping: bool,
    busy: bool,
    phase: Phase<C, E>,
    acceptedCommands: seq<C>,
    executedCommands: seq<C>,
    acceptedEvents: seq<E>,
    executedEvents: seq<E>)

  datatype Step<C, E> =
    | Enqueue(command: C)
    | EnqueueEvent(kind: string, event: E)
    | Subscribe(newKind: string)
    | Stop
    | Initialize(ok: bool)
    | Take
    | Finish
    | Close

  function Initial<C, E>(): State<C, E> {
    State([], [], {}, false, false, false, Starting, [], [], [], [])
  }

  /** The steps of other threads can happen at any time; the worker's own follow its loop. */
  predicate Enabled<C, E>(s: State<C, E>, step: Step<C, E>) {
    match step
    case Initialize(_) => s.phase.Starting?
    case Subscribe(_) => !s.phase.Closing? && !s.phase.Exited?
    case Take => s.phase.Waiting? && (s.stopping || s.queue != [] || s.events != [])
    case Finish => s.phase.InCommand? || s.phase.InEvent?
    case Close => s.phase.Closing?
    case _ => true
  }

  function Next<C, E>(s: State<C, E>, step: Step<C, E>): State<C, E>
    requires Enabled(s, step)
  {
    match step
    case Enqueue(c) =>
      if !s.running || s.stopping || |s.queue| >= MAX_QUEUE then s
      else s.(queue := s.queue + [c], acceptedCommands := s.acceptedCommands + [c])
    case EnqueueEvent(kind, e) =>
      if !s.running || s.stopping || |s.events| >= MAX_QUEUE || Canonical(kind) !in s.kinds then s
      else s.(events := s.events + [e], acceptedEvents := s.acceptedEvents + [e])
    case Subscribe(kind) => s.(kinds := s.kinds + {Canonical(kind)})
    case Stop => s.(stopping := true)
    case Initialize(ok) => s.(running := ok, phase := if ok then Waiting else Closing)
    case Take =>
      if s.stopping && s.queue == [] && s.events == [] then s.(phase := Closing)
      else if s.queue != [] then s.(queue := s.queue[1..], phase := InCommand(s.queue[0]), busy := true)
      else s.(events := s.events[1..], phase := InEvent(s.events[0]), busy := true)
    case Finish =>
      if s.phase.InCommand?
      then s.(executedCommands := s.executedCommands + [s.phase.command], phase := Waiting, busy := false)
      else s.(executedEvents := s.executedEvents + [s.phase.event], phase := Waiting, busy := false)
    case Close => s.(running := false, busy := false, phase := Exited)
  }

  /** What `wait_idle` waits for. */
  predicate Idle<C, E>(s: State<C, E>) { s.queue == [] && s.events == [] && !s.busy }

  // ---------- The instance object ----------

  class Instance<C, E> {
    var queue: seq<C>
    var events: seq<E>
    var kinds: set<string>
    var running: bool
    var stopping: bool
    var busy: bool
    var phase: Phase<C, E>
    ghost var acceptedCommands: seq<C>
    ghost var executedCommands: seq<C>
    ghost var acceptedEvents: seq<E>
    ghost var executedEvents: seq<E>

    ghost function View(): State<C, E>
      reads this
    {
      State(queue, events, kinds, running, stopping, busy, phase,
            acceptedCommands, executedCommands, acceptedEvents, executedEvents)
    }

    constructor ()
      ensures View() == Initial()
    {
      queue, events, kinds, running, stopping, busy, phase := [], [], {}, false, false, false, Starting;
      acceptedCommands, executedCommands, acceptedEvents, executedEvents := [], [], [], [];
    }

    method Accept(command: C) returns (ok: bool)
      modifies this
      ensures View() == Next(old(View()), Enqueue(command))
      ensures ok <==> old(running && !stopping && |queue| < 256)
      ensures ok ==> queue == old(queue) + [command] && acceptedCommands == old(acceptedCommands) + [command]
      ensures View() == if ok then old(View()).(queue := queue, acceptedCommands := acceptedCommands)
                        else old(View())
    {
      if !running || stopping || |queue| >= MAX_QUEUE {
        return false;
      }
      queue := queue + [command];
      acceptedCommands := acceptedCommands + [command];
      return true;
    }

    method AcceptEvent(kind: string, event: E) returns (ok: bool)
      modifies this
      ensures View() == Next(old(View()), EnqueueEvent(kind, event))
      ensures ok <==> old(running && !stopping && |events| < 256 && Canonical(kind) in kinds)
      ensures ok ==> events == old(events) + [event] && acceptedEvents == old(acceptedEvents) + [event]
      ensures View() == if ok then old(View()).(events := events, acceptedEvents := acceptedEvents)
                        else old(View())
    {
      if !running || stopping || |events| >= MAX_QUEUE || Canonical(kind) !in kinds {
        return false;
      }
      events := events + [event];
      acceptedEvents := acceptedEvents + [event];
      return true;
    }

    /** What registering an event handler adds. */
    method SubscribeTo(kind: string) returns (ok: bool)
      requires !phase.Closing? && !phase.Exited?
      modifies this`kinds
      ensures View() == if ok then Next(old(View()), Subscribe(kind)) else old(View())
      ensures ok <==> 1 <= |kind| <= 64
      ensures kinds == if ok then old(kinds) + {Canonical(kind)} else old(kinds)
    {
      var canonical := Canonical(kind);
      if |canonical| == 0 || |canonical| > 64 {
        return false;
      }
      kinds := kinds + {canonical};
      return true;
    }

    method RequestStop()
      modifies this
      ensures View() == Next(old(View()), Stop)
      ensures View() == old(View()).(stopping := true)
    {
      stopping := true;
    }

    /** The predicate `wait_idle` waits for. */
    method IsIdle() returns (idle: bool)
      ensures idle == Idle(View())
    {
      idle := queue == [] && events == [] && !busy;
    }

    method Started(ok: bool)
      requires phase.Starting?
      modifies this
      ensures View() == Next(old(View()), Initialize(ok))
      ensures View() == old(View()).(running := ok, phase := if ok then Waiting else Closing)
    {
      running := ok;
      phase := if ok then Waiting else Closing;
    }

    /** The locked head of the worker's loop, once its wait is over. */
    method TakeNext()
      requires phase.Waiting? && (stopping || queue != [] || events != [])
      modifies this
      ensures View() == Next(old(View()), Take)
    {
      if stopping && queue == [] && events == [] {
        phase := Closing;
        return;
      }
      if queue != [] {
        phase := InCommand(queue[0]);
        queue := queue[1..];
      } else {
        phase := InEvent(events[0]);
        events := events[1..];
      }
      busy := true;
    }

    method Finished()
      requires phase.InCommand? || phase.InEvent?
      modifies this
      ensures View() == Next(old(View()), Finish)
    {
      if phase.InCommand? {
        executedCommands := executedCommands + [phase.command];
      } else {
        executedEvents := executedEvents + [phase.event];
      }
      phase, busy := Waiting, false;
    }

    method Closed()
      requires phase.Closing?
      modifies this
      ensures View() == Next(old(View()), Close)
      ensures View() == old(View()).(running := false, busy := false, phase := Exited)
    {
      running, busy, phase := false, false, Exited;
    }

    /** One turn of the stopping worker; `ok` is how a pending initialization turns out. */
    method Turn(ok: bool)
      requires Inv(View()) && stopping && !phase.Exited?
      modifies this
      ensures Inv(View()) && stopping && Remaining(View()) < old(Remaining(View()))
      ensures acceptedCommands == old(acceptedCommands) && acceptedEvents == old(acceptedEvents)
    {
      hide Inv, Next, Remaining;
      ghost var s := View();
      ghost var step: Step<C, E>;
      if phase.Starting? {
        step := Initialize(ok);
        Started(ok);
      } else if phase.Waiting? {
        step := Take;
        TakeNext();
      } else if phase.Closing? {
        step := Close;
        Closed();
      } else {
        step := Finish;
        Finished();
      }
      StepKeepsInv(s, step);
      StoppingDrains(s, step);
    }

    /** `stop` and the join behind it: with no further calls the loop drains both queues, and the
        thread exits with everything that was ever accepted executed, in order. */
    method StopAndJoin(ok: bool)
      requires Inv(View())
      modifies this
      ensures phase.Exited? && Inv(View())
      ensures acceptedCommands == old(acceptedCommands) == executedCommands
      ensures acceptedEvents == old(acceptedEvents) == executedEvents
    {
      RequestStop();
      StepKeepsInv(old(View()), Stop);
      while !phase.Exited?
        invariant Inv(View()) && stopping
        invariant acceptedCommands == old(acceptedCommands) && acceptedEvents == old(acceptedEvents)
        decreases Remaining(View())
      {
        Turn(ok);
      }
    }
  }

  // ---------- The invariant ----------

  function CommandInFlight<C, E>(s: State<C, E>): seq<C> {
    if s.phase.InCommand? then [s.phase.command] else []
  }

  function EventInFlight<C, E>(s: State<C, E>): seq<E> {
    if s.phase.InEvent? then [s.phase.event] else []
  }

  /** Accepted work is executed, in flight or queued, in FIFO order; nothing is accepted while the
      worker is not in its loop; both queues are bounded. */
  predicate Inv<C(==), E(==)>(s: State<C, E>) {
    && s.acceptedCommands == s.executedCommands + CommandInFlight(s) + s.queue
    && s.acceptedEvents == s.executedEvents + EventInFlight(s) + s.events
    && |s.queue| <= MAX_QUEUE && |s.events| <= MAX_QUEUE
    && (s.busy <==> s.phase.InCommand? || s.phase.InEvent?)
    && (s.running ==> !s.phase.Starting? && !s.phase.Exited?)
    && (s.running && s.phase.Closing? ==> s.stopping)
    && (s.phase.Waiting? || s.phase.InCommand? || s.phase.InEvent? ==> s.running)
    && (s.phase.Starting? || s.phase.Closing? || s.phase.Exited? ==> s.queue == [] && s.events == [])
  }

  lemma StepKeepsInv<C, E>(s: State<C, E>, step: Step<C, E>)
    requires Inv(s) && Enabled(s, step)
    ensures Inv(Next(s, step))
  {
    hide Canonical, CommandInFlight, EventInFlight;
    CommandsStayInOrder(s, step);
    EventsStayInOrder(s, step);
  }

  lemma CommandsStayInOrder<C, E>(s: State<C, E>, step: Step<C, E>)
    requires Enabled(s, step) && s.acceptedCommands == s.executedCommands + CommandInFlight(s) + s.queue
    ensures var t := Next(s, step); t.acceptedCommands == t.executedCommands + CommandInFlight(t) + t.queue
  {
    hide Canonical;
    var t := Next(s, step);
    assert t.acceptedCommands == t.executedCommands + CommandInFlight(t) + t.queue;
  }

  lemma EventsStayInOrder<C, E>(s: State<C, E>, step: Step<C, E>)
    requires Enabled(s, step) && s.acceptedEvents == s.executedEvents + EventInFlight(s) + s.events
    ensures var t := Next(s, step); t.acceptedEvents == t.executedEvents + EventInFlight(t) + t.events
  {
    hide Canonical;
    var t := Next(s, step);
    assert t.acceptedEvents == t.executedEvents + EventInFlight(t) + t.events;
  }

  ghost predicate Schedule<C(!new), E(!new)>(s: State<C, E>, steps: seq<Step<C, E>>)
    decreases |steps|
  {
    steps == [] || (Enabled(s, steps[0]) && Schedule(Next(s, steps[0]), steps[1..]))
  }

  ghost function Run<C(!new), E(!new)>(s: State<C, E>, steps: seq<Step<C, E>>): State<C, E>
    requires Schedule(s, steps)
    decreases |steps|
  {
    if steps == [] then s else Run(Next(s, steps[0]), steps[1..])
  }

  lemma {:induction false} RunKeepsInv<C(!new), E(!new)>(s: State<C, E>, steps: seq<Step<C, E>>)
    requires Inv(s) && Schedule(s, steps)
    ensures Inv(Run(s, steps))
    ensures var t := Run(s, steps);
            && s.acceptedCommands <= t.acceptedCommands && s.executedCommands <= t.executedCommands
            && s.acceptedEvents <= t.acceptedEvents && s.executedEvents <= t.executedEvents
    decreases |steps|
  {
    if steps != [] {
      StepKeepsInv(s, steps[0]);
      StepExtends(s, steps[0]);
      RunKeepsInv(Next(s, steps[0]), steps[1..]);
    }
  }

  /** What was accepted or executed is never revised. */
  lemma StepExtends<C, E>(s: State<C, E>, step: Step<C, E>)
    requires Enabled(s, step)
    ensures var t := Next(s, step);
            && s.acceptedCommands <= t.acceptedCommands && s.executedCommands <= t.executedCommands
            && s.acceptedEvents <= t.acceptedEvents && s.executedEvents <= t.executedEvents
  {
  }

  /** Under every interleaving: FIFO accounting, and the two moments at which callers may rely on
      completion, when the thread has left its loop and when `wait_idle`'s predicate holds. */
  lemma EveryInterleaving<C(!new), E(!new)>(steps: seq<Step<C, E>>)
    requires Schedule(Initial<C, E>(), steps)
    ensures var s := Run(Initial(), steps);
            && s.acceptedCommands == s.executedCommands + CommandInFlight(s) + s.queue
            && s.acceptedEvents == s.executedEvents + EventInFlight(s) + s.events
            && |s.queue| <= MAX_QUEUE && |s.events| <= MAX_QUEUE
            && (s.phase.Closing? || s.phase.Exited? || Idle(s) ==>
                  s.acceptedCommands == s.executedCommands && s.acceptedEvents == s.executedEvents)
  {
    RunKeepsInv(Initial<C, E>(), steps);
  }

  /** `phase` is right for the worker to enter from `s`: the next one accepted of its kind, an event
      only once every command accepted so far has been executed, and out only stopping and with
      everything executed. */
  predicate RightNext<C(==), E(==)>(s: State<C, E>, phase: Phase<C, E>) {
    var c, e := |s.executedCommands|, |s.executedEvents|;
    match phase
    case InCommand(command) => c < |s.acceptedCommands| && command == s.acceptedCommands[c]
    case InEvent(event) =>
      && s.acceptedCommands == s.executedCommands
      && e < |s.acceptedEvents| && event == s.acceptedEvents[e]
    case Closing =>
      s.stopping && s.acceptedCommands == s.executedCommands && s.acceptedEvents == s.executedEvents
    case _ => false
  }

  /** In every run the worker takes up the right thing next. */
  lemma CommandsGoFirst<C(!new), E(!new)>(steps: seq<Step<C, E>>)
    requires Schedule(Initial<C, E>(), steps) && Enabled(Run(Initial<C, E>(), steps), Take)
    ensures var s := Run(Initial<C, E>(), steps); RightNext(s, Next(s, Take).phase)
  {
    RunKeepsInv(Initial<C, E>(), steps);
  }

  // ---------- Draining ----------

  function PhaseWork<C, E>(phase: Phase<C, E>): nat {
    match phase
    case Starting => 3
    case Waiting => 2
    case InCommand(_) => 3
    case InEvent(_) => 3
    case Closing => 1
    case Exited => 0
  }

  /** The worker steps still needed to exit once stopping. */
  function Remaining<C, E>(s: State<C, E>): nat {
    2 * (|s.queue| + |s.events|) + PhaseWork(s.phase)
  }

  predicate WorkerStep<C, E>(step: Step<C, E>) {
    step.Initialize? || step.Take? || step.Finish? || step.Close?
  }

  /** After stop, no step adds work, every worker step removes some, and until the thread has
      exited some worker step is enabled: nothing accepted is stranded. */
  lemma StoppingDrains<C, E>(s: State<C, E>, step: Step<C, E>)
    requires Inv(s) && s.stopping && Enabled(s, step)
    ensures var t := Next(s, step);
            && t.stopping && t.acceptedCommands == s.acceptedCommands && t.acceptedEvents == s.acceptedEvents
            && Remaining(t) <= Remaining(s)
            && (WorkerStep(step) ==> Remaining(t) < Remaining(s))
    ensures !s.phase.Exited? ==>
              || Enabled(s, Initialize(true)) || Enabled(s, Take) || Enabled(s, Finish) || Enabled(s, Close)
  {
  }

  function WorkerSteps<C, E>(steps: seq<Step<C, E>>): nat {
    if steps == [] then 0 else (if WorkerStep(steps[0]) then 1 else 0) + WorkerSteps(steps[1..])
  }

  /** However other threads interleave, a stopping worker takes at most `Remaining` more steps, and
      once it has taken them all it has exited with everything executed. */
  lemma {:induction false} DrainsWithin<C(!new), E(!new)>(s: State<C, E>, steps: seq<Step<C, E>>)
    requires Inv(s) && s.stopping && Schedule(s, steps)
    ensures var t := Run(s, steps);
            && WorkerSteps(steps) + Remaining(t) <= Remaining(s)
            && t.acceptedCommands == s.acceptedCommands && t.acceptedEvents == s.acceptedEvents
            && (t.phase.Exited? ==> t.executedCommands == s.acceptedCommands
                                    && t.executedEvents == s.acceptedEvents)
    decreases |steps|
  {
    if steps != [] {
      StepKeepsInv(s, steps[0]);
      StoppingDrains(s, steps[0]);
      DrainsWithin(Next(s, steps[0]), steps[1..]);
    }
  }

  // ---------- What callers were promised ----------

  /** The answer a call is given. */
  predicate Answered<C, E>(s: State<C, E>, step: Step<C, E>) {
    match step
    case Enqueue(_) => s.running && !s.stopping && |s.queue| < 256
    case EnqueueEvent(kind, _) => s.running && !s.stopping && |s.events| < 256 && Canonical(kind) in s.kinds
    case _ => false
  }

  /** The commands, and the events, of the calls of a run that were answered true. */
  ghost function Promised<C(!new), E(!new)>(s: State<C, E>, steps: seq<Step<C, E>>): seq<C>
    requires Schedule(s, steps)
    decreases |steps|
  {
    if steps == [] then []
    else
      (if steps[0].Enqueue? && Answered(s, steps[0]) then [steps[0].command] else [])
      + Promised(Next(s, steps[0]), steps[1..])
  }

  ghost function PromisedEvents<C(!new), E(!new)>(s: State<C, E>, steps: seq<Step<C, E>>): seq<E>
    requires Schedule(s, steps)
    decreases |steps|
  {
    if steps == [] then []
    else
      (if steps[0].EnqueueEvent? && Answered(s, steps[0]) then [steps[0].event] else [])
      + PromisedEvents(Next(s, steps[0]), steps[1..])
  }

  lemma {:induction false} PromisedIsAccepted<C(!new), E(!new)>(s: State<C, E>, steps: seq<Step<C, E>>)
    requires Schedule(s, steps)
    ensures var t := Run(s, steps);
            && t.acceptedCommands == s.acceptedCommands + Promised(s, steps)
            && t.acceptedEvents == s.acceptedEvents + PromisedEvents(s, steps)
    decreases |steps|
  {
    hide Next, Answered;
    if steps != [] {
      var t := Next(s, steps[0]);
      PromisedIsAccepted(t, steps[1..]);
      StepAccepts(s, steps[0]);
      var c := if steps[0].Enqueue? && Answered(s, steps[0]) then [steps[0].command] else [];
      var e := if steps[0].EnqueueEvent? && Answered(s, steps[0]) then [steps[0].event] else [];
      Associates(s.acceptedCommands, c, Promised(t, steps[1..]));
      Associates(s.acceptedEvents, e, PromisedEvents(t, steps[1..]));
    }
  }

  lemma StepAccepts<C, E>(s: State<C, E>, step: Step<C, E>)
    requires Enabled(s, step)
    ensures var t := Next(s, step);
            && t.acceptedCommands
               == s.acceptedCommands + (if step.Enqueue? && Answered(s, step) then [step.command] else [])
            && t.acceptedEvents
               == s.acceptedEvents + (if step.EnqueueEvent? && Answered(s, step) then [step.event] else [])
  {
    hide Canonical;
  }

  lemma Associates<T>(a: seq<T>, b: seq<T>, c: seq<T>)
    ensures (a + b) + c == a + (b + c)
  {
  }

  /** Under every interleaving, the calls answered true are exactly the work executed, in the order
      of the calls, once the thread has left its loop and whenever `wait_idle`'s predicate holds. */
  lemma EveryAnswerHonoured<C(!new), E(!new)>(steps: seq<Step<C, E>>)
    requires Schedule(Initial<C, E>(), steps)
    ensures var s := Run(Initial(), steps);
            s.phase.Closing? || s.phase.Exited? || Idle(s) ==>
              && s.executedCommands == Promised(Initial(), steps)
              && s.executedEvents == PromisedEvents(Initial(), steps)
  {
    hide Promised, PromisedEvents, Run, Schedule;
    EveryInterleaving(steps);
    PromisedIsAccepted(Initial<C, E>(), steps);
    assert [] + Promised(Initial<C, E>(), steps) == Promised(Initial<C, E>(), steps);
    assert [] + PromisedEvents(Initial<C, E>(), steps) == PromisedEvents(Initial<C, E>(), steps);
  }

  /** Some step subscribed a kind that differs from this one in letter case alone. */
  ghost predicate Subscribed<C(!new), E(!new)>(steps: seq<Step<C, E>>, kind: string) {
    exists i | 0 <= i < |steps| :: steps[i].Subscribe? && SameKind(steps[i].newKind, kind)
  }

  lemma {:induction false} KindsAreSubscribed<C(!new), E(!new)>(s: State<C, E>, steps: seq<Step<C, E>>, kind: string)
    requires Schedule(s, steps)
    ensures Canonical(kind) in Run(s, steps).kinds <==> Canonical(kind) in s.kinds || Subscribed(steps, kind)
    decreases |steps|
  {
    hide Canonical, SameKind;
    if steps != [] {
      var rest := steps[1..];
      KindsAreSubscribed(Next(s, steps[0]), rest, kind);
      if steps[0].Subscribe? {
        CanonicalExactly(steps[0].newKind, kind);
      }
      assert Subscribed(rest, kind) ==> Subscribed(steps, kind) by {
        if i :| 0 <= i < |rest| && rest[i].Subscribe? && SameKind(rest[i].newKind, kind) {
          assert steps[i + 1] == rest[i];
        }
      }
      if i :| 0 <= i < |steps| && steps[i].Subscribe? && SameKind(steps[i].newKind, kind) {
        assert i > 0 ==> rest[i - 1] == steps[i];
      }
    }
  }

  /** At any point of any run, an event is accepted exactly when the worker runs, is not stopping, has
      room, and a handler was registered earlier for that kind, letter case apart. */
  lemma EventAnsweredExactly<C(!new), E(!new)>(steps: seq<Step<C, E>>, kind: string, event: E)
    requires Schedule(Initial<C, E>(), steps)
    ensures var s := Run(Initial(), steps);
            && (Answered(s, EnqueueEvent(kind, event)) <==>
                s.running && !s.stopping && |s.events| < 256 && Subscribed(steps, kind))
            && Next(s, EnqueueEvent(kind, event)).acceptedEvents
               == s.acceptedEvents + if Answered(s, EnqueueEvent(kind, event)) then [event] else []
  {
    hide Canonical, Run, Schedule, Subscribed;
    KindsAreSubscribed(Initial<C, E>(), steps, kind);
  }
}
