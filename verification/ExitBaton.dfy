/** Shutdown of the epoll server: a token in an eventfd is taken by one thread and put back to wake
    the next, over edge-triggered delivery, next to a shared count of threads. Reading the eventfd,
    writing it, and decrementing the count are separate steps of many threads. */
module ExitBaton {
  import opened Bytes

  // ---------------------------------------------------------------------------------------------
  // The atomic operations.

  /** A non-blocking read takes the whole counter, and fails when there is nothing to take. */
  function EventRead(counter: nat): Option<nat> {
    if counter == 0 then None else Some(counter)
  }

  /** What subtracting one leaves in the 64-bit count. */
  function FetchSub(count: nat): (r: nat)
    ensures count < 0x1_0000_0000_0000_0000 ==> (r + 1) % 0x1_0000_0000_0000_0000 == count
  {
    if count == 0 then 0xffff_ffff_ffff_ffff else count - 1
  }

  // ---------------------------------------------------------------------------------------------
  // The system.

  datatype Stage =
    | NotStarted
    | Waiting            // in the loop: waiting, or handling ordinary events
    | Delivered          // holds the event of the exiter
    | Holding(val: nat)  // has read the eventfd, not yet written it
    | Written            // has written it, not yet decremented the count
    | Exited             // returned from the loop
    | Failed             // left the loop by an exception

  datatype Baton = Baton(
    counter: nat,        // of the eventfd
    edge: bool,          // the eventfd is on the ready list
    count: nat,          // the threads not yet accounted as exited
    stages: seq<Stage>,
    stopping: nat,       // calls of `Stop` that saw a positive count and have not written yet
    effective: nat,      // calls of `Stop` that have written
    failures: nat)       // failed reads of the eventfd

  datatype Step =
    | Start(t: nat)
    | Deliver(t: nat)
    | Drop               // the ready list is re-checked, and the eventfd turns out to be empty
    | Read(t: nat)
    | Write(t: nat)
    | Decrement(t: nat)
    | StopChecked        // the count is positive
    | StopWritten
    | Die(t: nat)        // an ordinary handler throws
    | Abort(t: nat)      // an ordinary handler throws while the exiter's event waits in the same batch

  predicate At(b: Baton, t: nat, stage: Stage) {
    t < |b.stages| && b.stages[t] == stage
  }

  predicate Enabled(b: Baton, step: Step) {
    match step
    case Start(t) => At(b, t, NotStarted)
    case Deliver(t) => At(b, t, Waiting) && b.edge
    case Drop => b.edge && b.counter == 0
    case Read(t) => At(b, t, Delivered)
    case Write(t) => t < |b.stages| && b.stages[t].Holding?
    case Decrement(t) => At(b, t, Written)
    case StopChecked => b.count != 0
    case StopWritten => b.stopping > 0
    case Die(t) => At(b, t, Waiting)
    case Abort(t) => At(b, t, Delivered)
  }

  function Next(b: Baton, step: Step): Baton
    requires Enabled(b, step)
  {
    match step
    case Start(t) => b.(stages := b.stages[t := Waiting])
    case Deliver(t) => b.(stages := b.stages[t := Delivered], edge := false)
    case Drop => b.(edge := false)
    case Read(t) =>
      (match EventRead(b.counter)
       case None => b.(stages := b.stages[t := Failed], failures := b.failures + 1)
       case Some(val) => b.(stages := b.stages[t := Holding(val)], counter := 0))
    case Write(t) => b.(stages := b.stages[t := Written], counter := b.counter + b.stages[t].val, edge := true)
    case Decrement(t) => b.(stages := b.stages[t := Exited], count := FetchSub(b.count))
    case StopChecked => b.(stopping := b.stopping + 1)
    case StopWritten =>
      b.(stopping := b.stopping - 1, effective := b.effective + 1, counter := b.counter + 1, edge := true)
    case Die(t) => b.(stages := b.stages[t := Failed])
    case Abort(t) => b.(stages := b.stages[t := Failed])
  }

  predicate Possible(b: Baton, steps: seq<Step>)
    decreases |steps|
  {
    steps == [] || (Enabled(b, steps[0]) && Possible(Next(b, steps[0]), steps[1..]))
  }

  function Run(b: Baton, steps: seq<Step>): Baton
    requires Possible(b, steps)
    decreases |steps|
  {
    if steps == [] then b else Run(Next(b, steps[0]), steps[1..])
  }

  function Boot(threads: nat): Baton {
    Baton(0, false, threads, seq(threads, i => NotStarted), 0, 0, 0)
  }

  // ---------------------------------------------------------------------------------------------
  // Sums over the threads.

  function Total(weight: Stage -> nat, stages: seq<Stage>): nat {
    if stages == [] then 0 else weight(stages[0]) + Total(weight, stages[1..])
  }

  lemma {:induction false} TotalUpdate(weight: Stage -> nat, stages: seq<Stage>, t: nat, stage: Stage)
    requires t < |stages|
    ensures Total(weight, stages[t := stage]) + weight(stages[t]) == Total(weight, stages) + weight(stage)
  {
    var u := stages[t := stage];
    if t == 0 {
      assert u[1..] == stages[1..];
    } else {
      TotalUpdate(weight, stages[1..], t - 1, stage);
      assert u[1..] == stages[1..][t - 1 := stage];
    }
  }

  lemma {:induction false} TotalBound(weight: Stage -> nat, stages: seq<Stage>, max: nat)
    requires forall t :: 0 <= t < |stages| ==> weight(stages[t]) <= max
    ensures Total(weight, stages) <= max * |stages|
  {
    if stages != [] {
      assert forall t :: 0 <= t < |stages[1..]| ==> stages[1..][t] == stages[t + 1];
      TotalBound(weight, stages[1..], max);
    }
  }

  lemma {:induction false} TotalAtLeast(weight: Stage -> nat, stages: seq<Stage>, t: nat)
    requires t < |stages|
    ensures Total(weight, stages) >= weight(stages[t])
  {
    if t > 0 {
      TotalAtLeast(weight, stages[1..], t - 1);
    }
  }

  /** The value a thread has read and not yet written back. */
  function Held(stage: Stage): nat {
    if stage.Holding? then stage.val else 0
  }

  function HasExited(stage: Stage): nat {
    if stage.Exited? then 1 else 0
  }

  /** How many thread steps are at most ahead. */
  function Rank(stage: Stage): nat {
    match stage
    case NotStarted => 5
    case Waiting => 4
    case Delivered => 3
    case Holding(_) => 2
    case Written => 1
    case Exited => 0
    case Failed => 0
  }

  // ---------------------------------------------------------------------------------------------
  // The baton is never lost.

  predicate SomeDelivered(b: Baton) {
    exists t :: 0 <= t < |b.stages| && b.stages[t].Delivered?
  }

  predicate SomeHolding(b: Baton) {
    exists t :: 0 <= t < |b.stages| && b.stages[t].Holding?
  }

  /** The tokens and the count are accounted for. */
  predicate Books(b: Baton) {
    && b.counter + Total(Held, b.stages) == b.effective
    && b.count + Total(HasExited, b.stages) == |b.stages|
    && (forall t :: 0 <= t < |b.stages| && b.stages[t].Holding? ==> b.stages[t].val > 0)
  }

  /** A token in the eventfd is about to be noticed, or another write of the eventfd is coming. */
  predicate Inv(b: Baton) {
    Books(b) && (b.counter > 0 ==> b.edge || SomeDelivered(b) || SomeHolding(b))
  }

  predicate IsThreadStep(step: Step) {
    !step.Drop? && !step.StopChecked? && !step.StopWritten?
  }

  lemma BootBooks(threads: nat)
    ensures Books(Boot(threads))
  {
    var b := Boot(threads);
    TotalBound(Held, b.stages, 0);
    TotalBound(HasExited, b.stages, 0);
  }

  /** The books balance after every step, and decrementing never wraps the count around. */
  lemma StepKeepsBooks(b: Baton, step: Step)
    requires Books(b) && Enabled(b, step)
    ensures Books(Next(b, step))
    ensures step.Decrement? ==> b.count > 0
  {
    if IsThreadStep(step) {
      var u := Next(b, step).stages;
      TotalUpdate(Held, b.stages, step.t, u[step.t]);
      TotalUpdate(HasExited, b.stages, step.t, u[step.t]);
      TotalBound(HasExited, u, 1);
    }
    StepKeepsHeld(b, step);
  }

  lemma StepKeepsHeld(b: Baton, step: Step)
    requires Enabled(b, step)
    requires forall t :: 0 <= t < |b.stages| && b.stages[t].Holding? ==> b.stages[t].val > 0
    ensures var u := Next(b, step).stages;
            |u| == |b.stages| && forall t :: 0 <= t < |u| && u[t].Holding? ==> u[t].val > 0
  {}

  lemma {:induction false} RunKeepsBooks(b: Baton, steps: seq<Step>)
    requires Books(b) && Possible(b, steps)
    ensures Books(Run(b, steps)) && |Run(b, steps).stages| == |b.stages|
    decreases |steps|
  {
    if steps != [] {
      StepKeepsBooks(b, steps[0]);
      RunKeepsBooks(Next(b, steps[0]), steps[1..]);
    }
  }

  /** The tokens: in every run, what the eventfd and the threads hold is what the calls of `Stop` have
      written, the count misses exactly the threads that decremented it, and it never wraps around. */
  lemma Accounting(threads: nat, steps: seq<Step>)
    requires Possible(Boot(threads), steps)
    ensures var b := Run(Boot(threads), steps);
            && b.counter + Total(Held, b.stages) == b.effective
            && b.count + Total(HasExited, b.stages) == threads
            && forall t :: Enabled(b, Decrement(t)) ==> b.count > 0
  {
    var b := Run(Boot(threads), steps);
    BootBooks(threads);
    RunKeepsBooks(Boot(threads), steps);
    forall t | Enabled(b, Decrement(t)) ensures b.count > 0 {
      StepKeepsBooks(b, Decrement(t));
    }
  }

  /** Some other thread has the event, or holds what it read. */
  predicate OtherCarries(b: Baton, t: nat) {
    exists u :: 0 <= u < |b.stages| && u != t && (b.stages[u].Delivered? || b.stages[u].Holding?)
  }

  /** An exception takes the event away only where the token is elsewhere, or noticed otherwise. */
  predicate Harmless(b: Baton, step: Step) {
    step.Abort? ==> b.counter == 0 || b.edge || OtherCarries(b, step.t)
  }

  lemma StepKeepsInv(b: Baton, step: Step)
    requires Inv(b) && Enabled(b, step)
    ensures Inv(Next(b, step)) <==> Harmless(b, step)
  {
    var c := Next(b, step);
    StepKeepsBooks(b, step);
    if step.Abort? {
      AbortCarries(b, step.t);
    } else if c.counter > 0 && !c.edge {
      CarriedOn(b, step);
    }
  }

  lemma AbortCarries(b: Baton, t: nat)
    requires At(b, t, Delivered)
    ensures SomeDelivered(Next(b, Abort(t))) || SomeHolding(Next(b, Abort(t))) <==> OtherCarries(b, t)
  {
    var c := Next(b, Abort(t));
    assert forall u :: 0 <= u < |b.stages| && u != t ==> c.stages[u] == b.stages[u];
    if u :| 0 <= u < |b.stages| && u != t && (b.stages[u].Delivered? || b.stages[u].Holding?) {
      assert c.stages[u].Delivered? || c.stages[u].Holding?;
    }
  }

  lemma CarriedOn(b: Baton, step: Step)
    requires Inv(b) && Enabled(b, step) && !step.Abort?
    requires Next(b, step).counter > 0 && !Next(b, step).edge
    ensures SomeDelivered(Next(b, step)) || SomeHolding(Next(b, step))
    ensures Woken(b) ==> SomeDelivered(Next(b, step))
  {
    var c := Next(b, step);
    if step.Deliver? {
      assert c.stages[step.t].Delivered?;
    } else {
      if t :| 0 <= t < |b.stages| && b.stages[t].Delivered? {
        assert c.stages[t].Delivered?;
      }
      if t :| 0 <= t < |b.stages| && b.stages[t].Holding? {
        assert c.stages[t].Holding?;
      }
    }
  }

  /** Without exceptions in front of the exiter's event, more holds: the event is pending or delivered. */
  predicate Woken(b: Baton) {
    b.counter > 0 ==> b.edge || SomeDelivered(b)
  }

  predicate NoAbort(steps: seq<Step>) {
    forall k :: 0 <= k < |steps| ==> !steps[k].Abort?
  }

  lemma {:induction false} RunKeepsInv(b: Baton, steps: seq<Step>)
    requires Inv(b) && Woken(b) && Possible(b, steps) && NoAbort(steps)
    ensures Inv(Run(b, steps)) && Woken(Run(b, steps)) && HarmlessRun(b, steps)
    decreases |steps|
  {
    if steps != [] {
      var c := Next(b, steps[0]);
      assert !steps[0].Abort?;
      StepKeepsInv(b, steps[0]);
      if c.counter > 0 && !c.edge {
        CarriedOn(b, steps[0]);
      }
      RunKeepsInv(c, steps[1..]);
    }
  }

  predicate HarmlessRun(b: Baton, steps: seq<Step>)
    requires Possible(b, steps)
    decreases |steps|
  {
    steps == [] || (Harmless(b, steps[0]) && HarmlessRun(Next(b, steps[0]), steps[1..]))
  }

  /** The invariant holds in every state of the run. */
  predicate AlwaysCarried(b: Baton, steps: seq<Step>)
    requires Possible(b, steps)
    decreases |steps|
  {
    Inv(b) && (steps != [] ==> AlwaysCarried(Next(b, steps[0]), steps[1..]))
  }

  lemma {:induction false} CarriedExact(b: Baton, steps: seq<Step>)
    requires Inv(b) && Possible(b, steps)
    ensures AlwaysCarried(b, steps) <==> HarmlessRun(b, steps)
    ensures HarmlessRun(b, steps) ==> Inv(Run(b, steps))
    decreases |steps|
  {
    if steps != [] {
      StepKeepsInv(b, steps[0]);
      if Harmless(b, steps[0]) {
        CarriedExact(Next(b, steps[0]), steps[1..]);
      }
    }
  }

  // ---------------------------------------------------------------------------------------------
  // Calls and edges.

  lemma Uncons<T>(s: seq<T>)
    requires s != []
    ensures s == [s[0]] + s[1..] && multiset(s) == multiset{s[0]} + multiset(s[1..])
  {
    assert s == [s[0]] + s[1..];
  }

  lemma {:induction false} CallsFrom(b: Baton, steps: seq<Step>)
    requires Possible(b, steps)
    ensures var c := Run(b, steps);
            && c.effective == b.effective + multiset(steps)[StopWritten]
            && c.effective + c.stopping == b.effective + b.stopping + multiset(steps)[StopChecked]
    decreases |steps|
  {
    if steps != [] {
      CallsFrom(Next(b, steps[0]), steps[1..]);
      Uncons(steps);
    }
  }

  /** One call of `Stop` that gets past its check writes once. */
  lemma StopWritesOnce(threads: nat, steps: seq<Step>)
    requires Possible(Boot(threads), steps)
    ensures var b := Run(Boot(threads), steps);
            && b.effective == multiset(steps)[StopWritten]
            && b.effective + b.stopping == multiset(steps)[StopChecked]
  {
    CallsFrom(Boot(threads), steps);
  }

  function Number(steps: seq<Step>, counts: Step -> bool): nat {
    if steps == [] then 0 else (if counts(steps[0]) then 1 else 0) + Number(steps[1..], counts)
  }

  predicate RaisesEdge(step: Step) {
    step.Write? || step.StopWritten?
  }

  predicate TakesEdge(step: Step) {
    step.Deliver? || step.Drop?
  }

  /** Each write of the eventfd wakes one thread at most, and the edge pending is one not yet taken. */
  lemma {:induction false} EdgesTakenOnce(b: Baton, steps: seq<Step>)
    requires Possible(b, steps)
    ensures Number(steps, TakesEdge) + (if Run(b, steps).edge then 1 else 0)
         <= Number(steps, RaisesEdge) + (if b.edge then 1 else 0)
    decreases |steps|
  {
    if steps != [] {
      EdgesTakenOnce(Next(b, steps[0]), steps[1..]);
    }
  }

  /** An edge outlives its token when another thread took both: then it vanishes without an event. */
  lemma StaleEdge(b: Baton, t: nat)
    requires At(b, t, Delivered) && b.counter > 0 && b.stopping > 0
    ensures var steps := [StopWritten, Read(t), Drop];
            && Possible(b, steps) && !Run(b, steps).edge && At(Run(b, steps), t, Holding(b.counter + 1))
  {
    RunThree(b, StopWritten, Read(t), Drop);
  }

  predicate StillRunning(stage: Stage) {
    stage.NotStarted? || stage.Waiting? || stage.Failed?
  }

  predicate NoExitInv(b: Baton) {
    b.effective == 0 ==>
      b.counter == 0 && !b.edge && forall t :: 0 <= t < |b.stages| ==> StillRunning(b.stages[t])
  }

  lemma {:induction false} NoExitFrom(b: Baton, steps: seq<Step>)
    requires NoExitInv(b) && Possible(b, steps)
    ensures NoExitInv(Run(b, steps))
    decreases |steps|
  {
    if steps != [] {
      NoExitFrom(Next(b, steps[0]), steps[1..]);
    }
  }

  /** No thread leaves before a `Stop`, other than by an exception. */
  lemma NoExitWithoutStop(threads: nat, steps: seq<Step>)
    requires Possible(Boot(threads), steps) && StopWritten !in steps
    ensures var b := Run(Boot(threads), steps);
            forall t :: 0 <= t < |b.stages| ==> StillRunning(b.stages[t])
  {
    StopWritesOnce(threads, steps);
    NoExitFrom(Boot(threads), steps);
  }

  // ---------------------------------------------------------------------------------------------
  // What losing the baton means.

  predicate NoStopWritten(steps: seq<Step>) {
    forall k :: 0 <= k < |steps| ==> !steps[k].StopWritten?
  }

  /** The eventfd will wake a thread. */
  predicate CanWake(b: Baton) {
    b.edge || SomeHolding(b) || (b.counter > 0 && SomeDelivered(b))
  }

  /** Without another `Stop`, the event can come to thread `t`. */
  ghost predicate Reaches(b: Baton, t: nat) {
    exists steps :: Possible(b, steps) && NoStopWritten(steps) && Deliver(t) in steps
  }

  lemma InvIsCanWake(b: Baton)
    requires Books(b) && b.effective > 0
    ensures Inv(b) <==> CanWake(b)
  {
    if !SomeHolding(b) {
      TotalBound(Held, b.stages, 0);
    }
  }

  lemma AsleepStep(b: Baton, step: Step)
    requires !CanWake(b) && Enabled(b, step) && !step.StopWritten?
    ensures !CanWake(Next(b, step)) && !step.Deliver?
  {
    var c := Next(b, step);
    assert forall u :: 0 <= u < |c.stages| && (c.stages[u].Delivered? || c.stages[u].Holding?) ==>
             b.stages[u] == c.stages[u];
    if u :| 0 <= u < |c.stages| && c.stages[u].Delivered? {
      assert b.stages[u].Delivered?;
    }
  }

  /** Once the baton is lost, nothing but another `Stop` makes a waiting thread leave the loop, other
      than by an exception of its own. */
  lemma {:induction false} AsleepForever(b: Baton, steps: seq<Step>)
    requires !CanWake(b) && Possible(b, steps) && NoStopWritten(steps)
    ensures !CanWake(Run(b, steps)) && forall t :: Deliver(t) !in steps
    ensures |Run(b, steps).stages| == |b.stages|
    ensures forall t :: 0 <= t < |b.stages| && b.stages[t].Waiting? ==>
              Run(b, steps).stages[t].Waiting? || Run(b, steps).stages[t].Failed?
    decreases |steps|
  {
    if steps != [] {
      var step, c := steps[0], Next(b, steps[0]);
      assert !step.StopWritten?;
      AsleepStep(b, step);
      AsleepForever(c, steps[1..]);
      assert forall t :: 0 <= t < |b.stages| && b.stages[t].Waiting? ==> c.stages[t].Waiting? || c.stages[t].Failed?;
      FailedForever(c, steps[1..]);
      assert steps == [step] + steps[1..];
    }
  }

  lemma {:induction false} FailedForever(b: Baton, steps: seq<Step>)
    requires Possible(b, steps)
    ensures |Run(b, steps).stages| == |b.stages|
    ensures forall t :: 0 <= t < |b.stages| && b.stages[t].Failed? ==> Run(b, steps).stages[t].Failed?
    decreases |steps|
  {
    if steps != [] {
      FailedForever(Next(b, steps[0]), steps[1..]);
    }
  }

  lemma RunCons(b: Baton, step: Step, rest: seq<Step>)
    requires Enabled(b, step) && Possible(Next(b, step), rest)
    ensures Possible(b, [step] + rest) && Run(b, [step] + rest) == Run(Next(b, step), rest)
  {
    assert ([step] + rest)[1..] == rest;
  }

  lemma RunOne(b: Baton, step: Step)
    requires Enabled(b, step)
    ensures Possible(b, [step]) && Run(b, [step]) == Next(b, step)
  {
    assert Possible(Next(b, step), []);
    assert [step][1..] == [];
  }

  lemma RunTwo(b: Baton, step: Step, next: Step)
    requires Enabled(b, step) && Enabled(Next(b, step), next)
    ensures Possible(b, [step, next]) && Run(b, [step, next]) == Next(Next(b, step), next)
  {
    RunOne(Next(b, step), next);
    RunCons(b, step, [next]);
    assert [step] + [next] == [step, next];
  }

  lemma RunThree(b: Baton, step: Step, next: Step, last: Step)
    requires Enabled(b, step) && Enabled(Next(b, step), next) && Enabled(Next(Next(b, step), next), last)
    ensures Possible(b, [step, next, last])
    ensures Run(b, [step, next, last]) == Next(Next(Next(b, step), next), last)
  {
    RunTwo(Next(b, step), next, last);
    RunCons(b, step, [next, last]);
    assert [step] + [next, last] == [step, next, last];
  }

  lemma WakeReaches(b: Baton, t: nat)
    requires CanWake(b) && At(b, t, Waiting)
    ensures Reaches(b, t)
  {
    if b.edge {
      RunOne(b, Deliver(t));
      assert NoStopWritten([Deliver(t)]) && Deliver(t) in [Deliver(t)];
    } else if u: nat :| u < |b.stages| && b.stages[u].Holding? {
      var steps := [Write(u), Deliver(t)];
      RunTwo(b, Write(u), Deliver(t));
      assert NoStopWritten(steps) && Deliver(t) in steps;
    } else {
      var u: nat :| u < |b.stages| && b.stages[u].Delivered?;
      var steps := [Read(u), Write(u), Deliver(t)];
      RunThree(b, Read(u), Write(u), Deliver(t));
      assert NoStopWritten(steps) && Deliver(t) in steps;
    }
  }

  /** For a thread that waits: the event can come to it without another `Stop` exactly when an edge is
      pending, a thread holds what it read, or a thread with the event has something to read. */
  lemma WakeExact(b: Baton, t: nat)
    requires At(b, t, Waiting)
    ensures Reaches(b, t) <==> CanWake(b)
  {
    if CanWake(b) {
      WakeReaches(b, t);
    } else if Reaches(b, t) {
      var steps :| Possible(b, steps) && NoStopWritten(steps) && Deliver(t) in steps;
      AsleepForever(b, steps);
      assert false;
    }
  }

  /** A handler that throws while the exiter's event waits behind it in its batch loses the baton,
      for any thread that waits, exactly when the token lies in the eventfd with no edge pending and no
      other thread has the event or holds what it read. */
  lemma AbortLosesBaton(b: Baton, t: nat, w: nat)
    requires Inv(b) && b.effective > 0 && At(b, t, Delivered) && At(b, w, Waiting)
    ensures Reaches(Next(b, Abort(t)), w) <==> b.counter == 0 || b.edge || OtherCarries(b, t)
  {
    var c := Next(b, Abort(t));
    StepKeepsBooks(b, Abort(t));
    StepKeepsInv(b, Abort(t));
    InvIsCanWake(c);
    WakeExact(c, w);
  }

  /** Calling `Stop` again helps: as long as a thread is left that did not exit, it raises an edge. */
  lemma StopRecovers(b: Baton, w: nat)
    requires Books(b) && At(b, w, Waiting)
    ensures Possible(b, [StopChecked, StopWritten, Deliver(w)])
  {
    TotalUpdate(HasExited, b.stages, w, Exited);
    TotalBound(HasExited, b.stages[w := Exited], 1);
    assert b.count > 0;
    RunThree(b, StopChecked, StopWritten, Deliver(w));
  }

  // ---------------------------------------------------------------------------------------------
  // All threads leave.

  predicate IsLive(stage: Stage) {
    stage.Waiting? || stage.Delivered? || stage.Holding? || stage.Written?
  }

  /** A step that brings a running thread closer to its exit. */
  predicate IsExitStep(step: Step) {
    step.Deliver? || step.Read? || step.Write? || step.Decrement?
  }

  ghost predicate CanExit(b: Baton) {
    exists step :: IsExitStep(step) && Enabled(b, step)
  }

  /** No lost wake-up: once a `Stop` has written, some thread can make a step towards its exit, as
      long as a thread runs at all. */
  lemma Progress(b: Baton, t: nat)
    requires Inv(b) && b.effective > 0
    requires t < |b.stages| && IsLive(b.stages[t])
    ensures CanExit(b)
  {
    if busy: nat :|
      && busy < |b.stages|
      && (b.stages[busy].Delivered? || b.stages[busy].Holding? || b.stages[busy].Written?)
    {
      var step := if b.stages[busy].Delivered? then Read(busy)
                  else if b.stages[busy].Holding? then Write(busy) else Decrement(busy);
      assert IsExitStep(step) && Enabled(b, step);
    } else {
      TotalBound(Held, b.stages, 0);
      assert b.counter > 0 && b.edge;
      assert IsExitStep(Deliver(t)) && Enabled(b, Deliver(t));
    }
  }

  function ThreadSteps(steps: seq<Step>): nat {
    if steps == [] then 0 else (if IsThreadStep(steps[0]) then 1 else 0) + ThreadSteps(steps[1..])
  }

  lemma RankFalls(b: Baton, step: Step)
    requires Enabled(b, step)
    ensures Total(Rank, Next(b, step).stages) + (if IsThreadStep(step) then 1 else 0) <= Total(Rank, b.stages)
  {
    if IsThreadStep(step) {
      TotalUpdate(Rank, b.stages, step.t, Next(b, step).stages[step.t]);
    }
  }

  /** Threads run out of steps: each one lowers the sum of the ranks, and nothing raises it. */
  lemma {:induction false} Measure(b: Baton, steps: seq<Step>)
    requires Possible(b, steps)
    ensures ThreadSteps(steps) + Total(Rank, Run(b, steps).stages) <= Total(Rank, b.stages)
    decreases |steps|
  {
    if steps != [] {
      var c := Next(b, steps[0]);
      RankFalls(b, steps[0]);
      Measure(c, steps[1..]);
    }
  }

  /** In every run, with any number of calls of `Stop`: the threads take a bounded number of steps,
      and once a `Stop` has written, a run without harmful exceptions can only get stuck when no thread
      is left. */
  lemma AllThreadsLeave(threads: nat, steps: seq<Step>)
    requires Possible(Boot(threads), steps)
    ensures ThreadSteps(steps) <= 5 * threads
    ensures var b := Run(Boot(threads), steps);
            HarmlessRun(Boot(threads), steps) && b.effective > 0 && !CanExit(b) ==>
              forall t :: 0 <= t < |b.stages| ==> !IsLive(b.stages[t])
  {
    var b := Run(Boot(threads), steps);
    BootBooks(threads);
    CarriedExact(Boot(threads), steps);
    Measure(Boot(threads), steps);
    TotalBound(Rank, Boot(threads).stages, 5);
    forall t | 0 <= t < |b.stages| && HarmlessRun(Boot(threads), steps) && b.effective > 0 && IsLive(b.stages[t])
      ensures CanExit(b)
    {
      Progress(b, t);
    }
  }

  // ---------------------------------------------------------------------------------------------
  // One effective `Stop`.

  function InSignal(stage: Stage): nat {
    if stage.Delivered? || stage.Holding? then 1 else 0
  }

  /** The token is in at most one place: on the ready list, or with one thread. */
  predicate OnePlace(b: Baton) {
    && (if b.edge then 1 else 0) + Total(InSignal, b.stages) <= b.effective
    && (b.edge || SomeDelivered(b) ==> b.counter == 1)
    && b.failures == 0
  }

  predicate SingleInv(b: Baton) {
    Books(b) && (b.effective + b.stopping <= 1 ==> OnePlace(b))
  }

  lemma OnlyInSignal(b: Baton, t: nat, u: nat)
    requires Total(InSignal, b.stages) <= 1
    requires t < |b.stages| && u < |b.stages| && InSignal(b.stages[t]) == 1 && InSignal(b.stages[u]) == 1
    ensures t == u
  {
    if t != u {
      TotalUpdate(InSignal, b.stages, t, Exited);
      TotalAtLeast(InSignal, b.stages[t := Exited], u);
    }
  }

  lemma StepKeepsSingle(b: Baton, step: Step)
    requires SingleInv(b) && Enabled(b, step)
    ensures SingleInv(Next(b, step))
  {
    StepKeepsBooks(b, step);
    var c := Next(b, step);
    if c.effective + c.stopping <= 1 {
      SingleToken(b, step);
      if SomeDelivered(c) {
        var u: nat :| u < |c.stages| && c.stages[u].Delivered?;
        SingleDelivered(b, step, u);
      }
    }
  }

  /** A step moves the token at most from one place to another. */
  lemma SingleToken(b: Baton, step: Step)
    requires Books(b) && OnePlace(b) && Enabled(b, step)
    requires Next(b, step).effective + Next(b, step).stopping <= 1
    ensures var c := Next(b, step);
            && (if c.edge then 1 else 0) + Total(InSignal, c.stages) <= c.effective
            && (c.edge ==> c.counter == 1) && c.failures == 0
  {
    if IsThreadStep(step) {
      TotalUpdate(InSignal, b.stages, step.t, Next(b, step).stages[step.t]);
      TotalAtLeast(InSignal, b.stages, step.t);
      TotalAtLeast(Held, b.stages, step.t);
    }
    if step.Read? {
      assert SomeDelivered(b);
    }
  }

  lemma SingleDelivered(b: Baton, step: Step, u: nat)
    requires SingleInv(b) && Enabled(b, step)
    requires Next(b, step).effective + Next(b, step).stopping <= 1
    requires At(Next(b, step), u, Delivered)
    ensures Next(b, step).counter == 1
  {
    if !step.Deliver? {
      assert b.stages[u].Delivered? && SomeDelivered(b);
      if step.Read? || step.Write? {
        OnlyInSignal(b, step.t, u);
      } else {
        TotalAtLeast(InSignal, b.stages, u);
      }
    }
  }

  lemma {:induction false} RunKeepsSingle(b: Baton, steps: seq<Step>)
    requires SingleInv(b) && Possible(b, steps)
    ensures SingleInv(Run(b, steps))
    decreases |steps|
  {
    if steps != [] {
      StepKeepsSingle(b, steps[0]);
      RunKeepsSingle(Next(b, steps[0]), steps[1..]);
    }
  }

  /** With at most one call of `Stop` getting past its check, no thread fails to read the eventfd and
      at most one at a time is inside `Signal`. */
  lemma SingleStop(threads: nat, steps: seq<Step>)
    requires Possible(Boot(threads), steps)
    requires Run(Boot(threads), steps).effective + Run(Boot(threads), steps).stopping <= 1
    ensures Run(Boot(threads), steps).failures == 0
    ensures Total(InSignal, Run(Boot(threads), steps).stages) <= 1
  {
    BootBooks(threads);
    TotalBound(InSignal, Boot(threads).stages, 0);
    RunKeepsSingle(Boot(threads), steps);
  }

  function HasFailed(stage: Stage): nat {
    if stage.Failed? then 1 else 0
  }

  /** The handlers that threw in a run. */
  function Exceptions(steps: seq<Step>): nat {
    if steps == [] then 0 else (if steps[0].Die? || steps[0].Abort? then 1 else 0) + Exceptions(steps[1..])
  }

  /** Threads fail by exceptions of their handlers, and by failed reads. */
  lemma {:induction false} FailedAreCounted(b: Baton, steps: seq<Step>)
    requires Possible(b, steps)
    ensures Total(HasFailed, b.stages) + Exceptions(steps) - b.failures
         == Total(HasFailed, Run(b, steps).stages) - Run(b, steps).failures
    decreases |steps|
  {
    if steps != [] {
      var step, c := steps[0], Next(b, steps[0]);
      if IsThreadStep(step) {
        TotalUpdate(HasFailed, b.stages, step.t, c.stages[step.t]);
      }
      FailedAreCounted(c, steps[1..]);
    }
  }

  lemma {:induction false} ExitedOrFailed(stages: seq<Stage>)
    requires forall t :: 0 <= t < |stages| ==> stages[t].Exited? || stages[t].Failed?
    ensures Total(HasExited, stages) + Total(HasFailed, stages) == |stages|
  {
    if stages != [] {
      ExitedOrFailed(stages[1..]);
    }
  }

  /** After one effective `Stop`, when nothing is left for the threads to do, the count has come down to
      the number of exceptions. Exactly when there were none, `Stop` returns at its check from then on,
      and leaves the eventfd alone. */
  lemma CountReachesZero(threads: nat, steps: seq<Step>)
    requires Possible(Boot(threads), steps) && HarmlessRun(Boot(threads), steps)
    requires var b := Run(Boot(threads), steps);
             && b.effective == 1 && b.stopping == 0
             && !CanExit(b) && (forall t :: !Enabled(b, Start(t)))
    ensures Run(Boot(threads), steps).count == Exceptions(steps)
    ensures Enabled(Run(Boot(threads), steps), StopChecked) <==> Exceptions(steps) > 0
  {
    var b := Run(Boot(threads), steps);
    BootBooks(threads);
    RunKeepsBooks(Boot(threads), steps);
    SingleStop(threads, steps);
    AllThreadsLeave(threads, steps);
    forall t | 0 <= t < |b.stages| ensures b.stages[t].Exited? || b.stages[t].Failed? {
      assert !IsLive(b.stages[t]);
      assert !Enabled(b, Start(t));
    }
    ExitedOrFailed(b.stages);
    TotalBound(HasFailed, Boot(threads).stages, 0);
    FailedAreCounted(Boot(threads), steps);
  }

  // ---------------------------------------------------------------------------------------------
  // A whole shutdown.

  lemma {:induction false} RunConcat(b: Baton, a: seq<Step>, c: Baton, d: seq<Step>)
    requires Possible(b, a) && Run(b, a) == c && Possible(c, d)
    ensures Possible(b, a + d) && Run(b, a + d) == Run(c, d)
    decreases |a|
  {
    if a == [] {
      assert a + d == d;
    } else {
      RunConcat(Next(b, a[0]), a[1..], c, d);
      RunCons(b, a[0], a[1..] + d);
      assert [a[0]] + (a[1..] + d) == a + d;
    }
  }

  /** All threads from number `t` on start. */
  function Starts(threads: nat, t: nat): seq<Step>
    requires t <= threads
    decreases threads - t
  {
    if t == threads then [] else [Start(t)] + Starts(threads, t + 1)
  }

  lemma {:induction false} StartsResult(b: Baton, t: nat)
    requires t <= |b.stages|
    requires forall u :: 0 <= u < |b.stages| ==> b.stages[u] == if u < t then Waiting else NotStarted
    ensures Possible(b, Starts(|b.stages|, t))
    ensures Run(b, Starts(|b.stages|, t)) == b.(stages := seq(|b.stages|, i => Waiting))
    decreases |b.stages| - t
  {
    if t < |b.stages| {
      var c := Next(b, Start(t));
      StartsResult(c, t + 1);
      RunCons(b, Start(t), Starts(|b.stages|, t + 1));
    } else {
      assert b.stages == seq(|b.stages|, i => Waiting);
    }
  }

  function Leaves(t: nat): seq<Step> {
    [Deliver(t)] + [Read(t), Write(t), Decrement(t)]
  }

  /** All threads from number `t` on leave, one after the other. */
  function AllLeave(threads: nat, t: nat): seq<Step>
    requires t <= threads
    decreases threads - t
  {
    if t == threads then [] else Leaves(t) + AllLeave(threads, t + 1)
  }

  lemma LeavesResult(b: Baton, t: nat)
    requires At(b, t, Waiting) && b.edge && b.counter > 0 && b.count > 0
    ensures Possible(b, Leaves(t))
    ensures Run(b, Leaves(t)) == b.(stages := b.stages[t := Exited], count := b.count - 1)
  {
    var c := Next(b, Deliver(t));
    LeavingIsThreeSteps(c, t);
    RunCons(b, Deliver(t), [Read(t), Write(t), Decrement(t)]);
    assert b.stages[t := Delivered][t := Exited] == b.stages[t := Exited];
  }

  lemma {:induction false} AllLeaveResult(b: Baton, t: nat)
    requires t <= |b.stages| && b.edge && b.counter > 0 && b.count == |b.stages| - t
    requires forall u :: 0 <= u < |b.stages| ==> b.stages[u] == if u < t then Exited else Waiting
    ensures Possible(b, AllLeave(|b.stages|, t))
    ensures Run(b, AllLeave(|b.stages|, t)) == b.(stages := seq(|b.stages|, i => Exited), count := 0)
    decreases |b.stages| - t
  {
    if t < |b.stages| {
      LeavesResult(b, t);
      var c := Run(b, Leaves(t));
      AllLeaveResult(c, t + 1);
      RunConcat(b, Leaves(t), c, AllLeave(|b.stages|, t + 1));
    } else {
      assert b.stages == seq(|b.stages|, i => Exited);
    }
  }

  /** For any number of threads: they start, `Stop` is called once, and they leave one after the other. */
  function Shutdown(threads: nat): seq<Step> {
    Starts(threads, 0) + ([StopChecked, StopWritten] + AllLeave(threads, 0))
  }

  /** That run is possible; it ends with every thread gone, the count at zero, and the one token in the
      eventfd. */
  lemma ShutdownWorks(threads: nat)
    requires threads > 0
    ensures Possible(Boot(threads), Shutdown(threads))
    ensures Run(Boot(threads), Shutdown(threads)) == Baton(1, true, 0, seq(threads, i => Exited), 0, 1, 0)
  {
    var b := Boot(threads);
    StartsResult(b, 0);
    var c := Run(b, Starts(threads, 0));
    RunTwo(c, StopChecked, StopWritten);
    var d := Run(c, [StopChecked, StopWritten]);
    AllLeaveResult(d, 0);
    RunConcat(c, [StopChecked, StopWritten], d, AllLeave(threads, 0));
    RunConcat(b, Starts(threads, 0), c, [StopChecked, StopWritten] + AllLeave(threads, 0));
  }

  // ---------------------------------------------------------------------------------------------
  // Several calls of `Stop`.

  /** The second write delivers the event to a second thread, the first thread reads both tokens, and
      nothing is left for the second to read. */
  lemma TwoStopsFail(b: Baton, t: nat, u: nat)
    requires At(b, t, Delivered) && At(b, u, Waiting) && t != u
    requires b.counter > 0 && b.stopping > 0
    ensures var steps := [StopWritten] + [Deliver(u), Read(t), Read(u)];
            && Possible(b, steps)
            && Run(b, steps).failures == b.failures + 1 && At(Run(b, steps), u, Failed)
            && At(Run(b, steps), t, Holding(b.counter + 1))
  {
    var c := Next(b, StopWritten);
    RunThree(c, Deliver(u), Read(t), Read(u));
    RunCons(b, StopWritten, [Deliver(u), Read(t), Read(u)]);
  }

  /** A whole run in which a thread fails to read the eventfd. */
  function FailingRun(): seq<Step> {
    [Start(0)] + ([Start(1)] + ([StopChecked] + ([StopChecked] + ([StopWritten] + ([Deliver(0)]
    + ([StopWritten] + [Deliver(1), Read(0), Read(1)]))))))
  }

  lemma FailingRunFails(threads: nat)
    requires threads >= 2
    ensures Possible(Boot(threads), FailingRun()) && Run(Boot(threads), FailingRun()).failures == 1
  {
    var last := [StopWritten] + [Deliver(1), Read(0), Read(1)];
    var b0 := Boot(threads);
    var b1 := Next(b0, Start(0));
    var b2 := Next(b1, Start(1));
    var b3 := Next(b2, StopChecked);
    var b4 := Next(b3, StopChecked);
    var b5 := Next(b4, StopWritten);
    var b6 := Next(b5, Deliver(0));
    TwoStopsFail(b6, 0, 1);
    RunCons(b5, Deliver(0), last);
    var r5 := [Deliver(0)] + last;
    RunCons(b4, StopWritten, r5);
    var r4 := [StopWritten] + r5;
    RunCons(b3, StopChecked, r4);
    var r3 := [StopChecked] + r4;
    RunCons(b2, StopChecked, r3);
    var r2 := [StopChecked] + r3;
    RunCons(b1, Start(1), r2);
    RunCons(b0, Start(0), [Start(1)] + r2);
  }

  /** With a single thread, the eventfd is never found empty. */
  predicate LoneInv(b: Baton) {
    && |b.stages| == 1 && b.failures == 0
    && (b.edge || b.stages[0].Delivered? || b.stages[0].Holding? ==> b.effective > 0)
    && (b.stages[0].NotStarted? || b.stages[0].Waiting? || b.stages[0].Delivered? ==> b.counter == b.effective)
  }

  lemma {:induction false} LoneRun(b: Baton, steps: seq<Step>)
    requires LoneInv(b) && Possible(b, steps)
    ensures LoneInv(Run(b, steps))
    decreases |steps|
  {
    if steps != [] {
      LoneRun(Next(b, steps[0]), steps[1..]);
    }
  }

  lemma {:induction false} NoThreads(b: Baton, steps: seq<Step>)
    requires b.stages == [] && Possible(b, steps)
    ensures Run(b, steps).failures == b.failures
    decreases |steps|
  {
    if steps != [] {
      NoThreads(Next(b, steps[0]), steps[1..]);
    }
  }

  ghost predicate CanFail(threads: nat) {
    exists steps :: Possible(Boot(threads), steps) && Run(Boot(threads), steps).failures > 0
  }

  /** Calling `Stop` any number of times can make a thread fail exactly when there are several threads. */
  lemma FailureExact(threads: nat)
    ensures CanFail(threads) <==> threads >= 2
  {
    if threads >= 2 {
      FailingRunFails(threads);
    } else if CanFail(threads) {
      var steps :| Possible(Boot(threads), steps) && Run(Boot(threads), steps).failures > 0;
      if threads == 0 {
        NoThreads(Boot(0), steps);
      } else {
        LoneRun(Boot(1), steps);
      }
      assert false;
    }
  }

  // ---------------------------------------------------------------------------------------------
  // The manager, as one thread sees it.

  datatype Outcome = Stays | Leaves | Throws

  class Exiter {
    var counter: nat
    var edge: bool

    constructor ()
      ensures counter == 0 && !edge
    {
      counter, edge := 0, false;
    }

    /** The first signal puts one token into the eventfd; a later one takes out all there is and puts
        it back, which wakes the next thread and leaves the counter as it was. */
    method Signal(first: bool) returns (ok: bool)
      modifies this
      ensures ok <==> first || old(counter) > 0
      ensures counter == if first then old(counter) + 1 else old(counter)
      ensures edge == (ok || old(edge))
    {
      var val := 1;
      if !first {
        match EventRead(counter) {
          case None => return false;
          case Some(v) => val, counter := v, 0;
        }
      }
      counter := counter + val;
      edge := true;
      ok := true;
    }
  }

  /** What a batch of events may hold, for the loop: the exiter, or an endpoint whose handler
      succeeds or throws. */
  datatype Event = ExitEvent | Handled | Throwing

  /** The event of the batch after which the loop does not go on. */
  predicate Decides(events: seq<Event>, k: nat) {
    k < |events| && !events[k].Handled? && forall j :: 0 <= j < k ==> events[j].Handled?
  }

  lemma OneDecides(events: seq<Event>, i: nat)
    requires Decides(events, i)
    ensures forall k: nat :: Decides(events, k) ==> k == i
  {}

  /** What thread `t` does to the system when that event is `events[k]`. */
  function ThreadRun(t: nat, events: seq<Event>, k: nat, counter: nat): seq<Step>
    requires k < |events|
  {
    if events[k].ExitEvent? then (if counter > 0 then [Read(t), Write(t), Decrement(t)] else [Read(t)])
    else if ExitEvent in events then [Abort(t)]
    else [Die(t)]
  }

  class IoManager {
    const exiter: Exiter
    var threadCount: nat
    ghost var model: Baton

    ghost predicate Valid()
      reads this, exiter
    {
      && exiter.counter == model.counter && exiter.edge == model.edge && threadCount == model.count
      && Books(model)
    }

    constructor (threadCount: nat)
      ensures Valid() && model == Boot(threadCount) && fresh(exiter)
    {
      this.threadCount := threadCount;
      exiter := new Exiter();
      model := Boot(threadCount);
      BootBooks(threadCount);
    }

    /** Nothing happens once all threads are accounted for; otherwise the check and the write of the
        system, in one go. */
    method Stop()
      requires Valid()
      modifies this`model, exiter
      ensures Valid()
      ensures threadCount == 0 ==> model == old(model)
      ensures exiter.counter == (if threadCount == 0 then old(exiter.counter) else old(exiter.counter) + 1)
      ensures exiter.edge == (threadCount != 0 || old(exiter.edge))
      ensures model.stopping == old(model.stopping) && model.stages == old(model.stages)
      ensures threadCount != 0 ==> Possible(old(model), [StopChecked, StopWritten])
                                   && model == Run(old(model), [StopChecked, StopWritten])
    {
      if threadCount == 0 {
        return;
      }
      var ok := exiter.Signal(true);
      StepKeepsBooks(model, StopChecked);
      StepKeepsBooks(Next(model, StopChecked), StopWritten);
      RunTwo(model, StopChecked, StopWritten);
      model := Run(model, [StopChecked, StopWritten]);
    }

    /** The wait returns the exiter's event to thread `t`, which takes the edge away. */
    method Wake(ghost t: nat)
      requires Valid() && At(model, t, Waiting) && exiter.edge
      modifies this`model, exiter
      ensures Valid() && Enabled(old(model), Deliver(t)) && model == Next(old(model), Deliver(t))
      ensures At(model, t, Delivered) && !exiter.edge && exiter.counter == old(exiter.counter)
    {
      StepKeepsBooks(model, Deliver(t));
      exiter.edge := false;
      model := Next(model, Deliver(t));
    }

    /** One turn of the loop in `Run`, for thread `t`. The first event that ends the turn decides: the
        exiter's event makes the thread read the eventfd, write it and decrement the count, or fail at
        the read, and what follows in the batch is never handled; a handler that throws in front of it
        takes the thread away with the event. */
    method HandleBatch(ghost t: nat, events: seq<Event>) returns (outcome: Outcome)
      requires Valid() && At(model, t, if ExitEvent in events then Delivered else Waiting)
      modifies this`threadCount, this`model, exiter
      ensures Valid()
      ensures outcome.Stays? <==> forall k :: 0 <= k < |events| ==> events[k].Handled?
      ensures outcome.Stays? ==> model == old(model)
      ensures outcome.Leaves? ==>
                && threadCount == old(threadCount) - 1 && model.stages == old(model.stages)[t := Exited]
                && exiter.edge && exiter.counter == old(exiter.counter) > 0
      ensures outcome.Throws? ==>
                && threadCount == old(threadCount) && model.stages == old(model.stages)[t := Failed]
                && exiter.edge == old(exiter.edge) && exiter.counter == old(exiter.counter)
      ensures forall k: nat :: Decides(events, k) ==>
                && (outcome.Leaves? <==> events[k].ExitEvent? && old(model.counter) > 0)
                && Possible(old(model), ThreadRun(t, events, k, old(model.counter)))
                && model == Run(old(model), ThreadRun(t, events, k, old(model.counter)))
    {
      for i := 0 to |events|
        invariant Valid() && model == old(model)
        invariant forall j :: 0 <= j < i ==> events[j].Handled?
      {
        match events[i] {
          case ExitEvent =>
            OneDecides(events, i);
            outcome := Leave(t);
            return;
          case Throwing =>
            ghost var step := if ExitEvent in events then Abort(t) else Die(t);
            OneDecides(events, i);
            assert ThreadRun(t, events, i, model.counter) == [step];
            StepKeepsBooks(model, step);
            RunOne(model, step);
            model := Next(model, step);
            return Throws;
          case Handled =>
        }
      }
      outcome := Stays;
    }

    /** `Exiter::Complete`, and what the loop does with its answer. */
    method Leave(ghost t: nat) returns (outcome: Outcome)
      requires Valid() && At(model, t, Delivered)
      modifies this`threadCount, this`model, exiter
      ensures Valid() && (outcome.Leaves? <==> old(model.counter) > 0) && !outcome.Stays?
      ensures outcome.Leaves? ==>
                && threadCount == old(threadCount) - 1 && model.stages == old(model.stages)[t := Exited]
                && exiter.edge && exiter.counter == old(exiter.counter) > 0
      ensures outcome.Throws? ==>
                && threadCount == old(threadCount) && model.stages == old(model.stages)[t := Failed]
                && exiter.edge == old(exiter.edge) && exiter.counter == old(exiter.counter)
      ensures var steps := if old(model.counter) > 0 then [Read(t), Write(t), Decrement(t)] else [Read(t)];
              Possible(old(model), steps) && model == Run(old(model), steps)
    {
      var ok := exiter.Signal(false);
      StepKeepsBooks(model, Read(t));
      NotYetCounted(model, t);
      if !ok {
        RunOne(model, Read(t));
        model := Next(model, Read(t));
        return Throws;
      }
      LeavingIsThreeSteps(model, t);
      RunKeepsBooks(model, [Read(t), Write(t), Decrement(t)]);
      threadCount := FetchSub(threadCount);
      model := Run(model, [Read(t), Write(t), Decrement(t)]);
      return Leaves;
    }
  }

  lemma NotYetCounted(b: Baton, t: nat)
    requires Books(b) && At(b, t, Delivered)
    ensures b.count > 0
  {
    TotalUpdate(HasExited, b.stages, t, Exited);
    TotalBound(HasExited, b.stages[t := Exited], 1);
  }

  /** A thread alone in `Signal` and the decrement goes through the three steps of the system, and
      leaves the token where it was, with an edge for the next thread. */
  lemma LeavingIsThreeSteps(b: Baton, t: nat)
    requires At(b, t, Delivered) && b.counter > 0
    ensures var steps := [Read(t), Write(t), Decrement(t)];
            && Possible(b, steps)
            && Run(b, steps) == b.(stages := b.stages[t := Exited], edge := true, count := FetchSub(b.count))
  {
    RunThree(b, Read(t), Write(t), Decrement(t));
  }
}
