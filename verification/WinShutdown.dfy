/** Shutdown of the completion-port server: `Stop` posts one null completion per thread into the
    port's queue, and every thread leaves on the first one it dequeues. */
module WinShutdown {

  datatype Packet = Sentinel | Io(endpoint: nat, transferred: nat)

  datatype Port = Port(
    threadCount: nat,
    queue: seq<Packet>,
    unstarted: nat,      // threads of the pool that do not run yet
    live: nat,           // threads inside `Run`
    toPost: nat)         // sentinels that the calls of `Stop` under way have still to post

  datatype Step =
    | Arrive(p: Packet)  // a posted operation completes
    | Started
    | StopCalled
    | Posted             // one turn of the loop in some call of `Stop`
    | Dequeued
    | DequeueFailed      // the completion dequeued reports a failure, which ends its thread

  predicate Enabled(s: Port, step: Step) {
    match step
    case Arrive(p) => p.Io?
    case Started => s.unstarted > 0
    case StopCalled => true
    case Posted => s.toPost > 0
    case Dequeued => s.live > 0 && s.queue != []
    case DequeueFailed => s.live > 0 && s.queue != [] && s.queue[0].Io?
  }

  function Next(s: Port, step: Step): Port
    requires Enabled(s, step)
  {
    match step
    case Arrive(p) => s.(queue := s.queue + [p])
    case Started => s.(unstarted := s.unstarted - 1, live := s.live + 1)
    case StopCalled => s.(toPost := s.toPost + s.threadCount)
    case Posted => s.(toPost := s.toPost - 1, queue := s.queue + [Sentinel])
    case Dequeued =>
      s.(queue := s.queue[1..], live := if s.queue[0].Sentinel? then s.live - 1 else s.live)
    case DequeueFailed => s.(queue := s.queue[1..], live := s.live - 1)
  }

  predicate Possible(s: Port, steps: seq<Step>)
    decreases |steps|
  {
    steps == [] || (Enabled(s, steps[0]) && Possible(Next(s, steps[0]), steps[1..]))
  }

  function After(s: Port, steps: seq<Step>): Port
    requires Possible(s, steps)
    decreases |steps|
  {
    if steps == [] then s else After(Next(s, steps[0]), steps[1..])
  }

  function Sentinels(q: seq<Packet>): nat {
    if q == [] then 0 else (if q[0].Sentinel? then 1 else 0) + Sentinels(q[1..])
  }

  lemma {:induction false} SentinelsAppend(q: seq<Packet>, p: Packet)
    ensures Sentinels(q + [p]) == Sentinels(q) + if p.Sentinel? then 1 else 0
  {
    if q != [] {
      SentinelsAppend(q[1..], p);
      assert (q + [p])[1..] == q[1..] + [p];
    }
  }

  /** There is, or will be, a sentinel for every thread that runs or may still start. */
  predicate Covered(s: Port) {
    Sentinels(s.queue) + s.toPost >= s.live + s.unstarted
  }

  lemma StepCovers(s: Port, step: Step)
    requires s.live + s.unstarted <= s.threadCount && Enabled(s, step)
    ensures Next(s, step).live + Next(s, step).unstarted <= Next(s, step).threadCount == s.threadCount
    ensures Covered(s) || step.StopCalled? ==> Covered(Next(s, step))
  {
    if step.Arrive? {
      SentinelsAppend(s.queue, step.p);
    } else if step.Posted? {
      SentinelsAppend(s.queue, Sentinel);
    }
  }

  /** Once `Stop` was called, the threads stay covered, whatever else happens and however often it is
      called again. */
  lemma {:induction false} StopCovers(s: Port, steps: seq<Step>)
    requires s.live + s.unstarted <= s.threadCount && Possible(s, steps)
    requires Covered(s) || StopCalled in steps
    ensures Covered(After(s, steps))
    decreases |steps|
  {
    if steps != [] {
      StepCovers(s, steps[0]);
      StopCovers(Next(s, steps[0]), steps[1..]);
    }
  }

  predicate Takes(step: Step) {
    step.Dequeued? || step.DequeueFailed?
  }

  /** The packets dequeued during a run, in order. */
  function Taken(s: Port, steps: seq<Step>): seq<Packet>
    requires Possible(s, steps)
    decreases |steps|
  {
    if steps == [] then []
    else (if Takes(steps[0]) then [s.queue[0]] else []) + Taken(Next(s, steps[0]), steps[1..])
  }

  /** The packets enqueued during a run, in order. */
  function Added(steps: seq<Step>): seq<Packet> {
    if steps == [] then [] else AddedBy(steps[0]) + Added(steps[1..])
  }

  function AddedBy(step: Step): seq<Packet> {
    match step
    case Arrive(p) => [p]
    case Posted => [Sentinel]
    case _ => []
  }

  /** What a step leaves of the part of the queue that was there before. */
  function HeadAfter(head: seq<Packet>, step: Step): seq<Packet> {
    if Takes(step) && head != [] then head[1..] else head
  }

  lemma DrainStep(s: Port, step: Step, head: seq<Packet>, tail: seq<Packet>)
    requires Enabled(s, step) && s.queue == head + tail && Sentinels(head) >= s.live + s.unstarted
    ensures var t := Next(s, step);
            && t.queue == HeadAfter(head, step) + (tail + AddedBy(step))
            && Sentinels(HeadAfter(head, step)) >= t.live + t.unstarted
            && (Takes(step) ==> head != [] && head[0] == s.queue[0])
  {
    if Takes(step) {
      assert head != [];
      assert s.queue[0] == head[0] && s.queue[1..] == head[1..] + tail;
      assert tail + [] == tail;
    }
  }

  lemma Assoc<T>(a: seq<T>, b: seq<T>, c: seq<T>)
    ensures (a + b) + c == a + (b + c)
  {}

  lemma Shift<T>(s: seq<T>, n: nat)
    requires n < |s|
    ensures [s[0]] + s[1..][..n] == s[..n + 1] && s[1..][n..] == s[n + 1..]
  {}

  lemma TakenStep(s: Port, steps: seq<Step>)
    requires Possible(s, steps) && steps != []
    ensures Taken(s, steps) == (if Takes(steps[0]) then [s.queue[0]] else []) + Taken(Next(s, steps[0]), steps[1..])
    ensures After(s, steps) == After(Next(s, steps[0]), steps[1..])
    ensures Added(steps) == AddedBy(steps[0]) + Added(steps[1..])
  {}

  lemma {:induction false} DrainPart(s: Port, steps: seq<Step>, head: seq<Packet>, tail: seq<Packet>)
    requires Possible(s, steps) && s.queue == head + tail && Sentinels(head) >= s.live + s.unstarted
    ensures var n := |Taken(s, steps)|;
            && n <= |head| && Taken(s, steps) == head[..n]
            && After(s, steps).queue == head[n..] + (tail + Added(steps))
            && Sentinels(head[n..]) >= After(s, steps).live + After(s, steps).unstarted
    decreases |steps|
  {
    if steps == [] {
      assert head[0..] == head && tail + [] == tail;
    } else {
      var step, t, rest := steps[0], Next(s, steps[0]), steps[1..];
      DrainStep(s, step, head, tail);
      DrainPart(t, rest, HeadAfter(head, step), tail + AddedBy(step));
      TakenStep(s, steps);
      Assoc(tail, AddedBy(step), Added(rest));
      if Takes(step) {
        Shift(head, |Taken(t, rest)|);
      } else {
        assert [] + Taken(t, rest) == Taken(t, rest);
      }
    }
  }

  /** Draining: when the queue holds a sentinel for every thread, all that will ever be dequeued is a
      prefix of that queue. However much is enqueued behind it, no thread sees it, and while a thread
      is left, it has a packet of that queue to take. */
  lemma Drain(s: Port, steps: seq<Step>)
    requires Possible(s, steps) && Sentinels(s.queue) >= s.live + s.unstarted
    ensures var n := |Taken(s, steps)|;
            && n <= |s.queue| && Taken(s, steps) == s.queue[..n]
            && After(s, steps).queue == s.queue[n..] + Added(steps)
            && (After(s, steps).live > 0 ==> n < |s.queue| && Enabled(After(s, steps), Dequeued))
  {
    DrainPart(s, steps, s.queue, []);
    assert [] + Added(steps) == Added(steps);
  }

  /** Shutdown, for a pool whose threads are no more than `Stop` counts: after a run in which `Stop` was
      called and every such call has returned, the threads take at most the packets then queued, and they
      can go on until none is left. */
  lemma ShutdownTerminates(start: Port, before: seq<Step>, after: seq<Step>)
    requires start.live + start.unstarted <= start.threadCount
    requires Possible(start, before) && StopCalled in before
    requires After(start, before).toPost == 0
    requires Possible(After(start, before), after)
    ensures var s := After(start, before);
            && |Taken(s, after)| <= |s.queue|
            && (After(s, after).live > 0 ==> Enabled(After(s, after), Dequeued))
            && (|Taken(s, after)| == |s.queue| ==> After(s, after).live == 0)
  {
    StopCovers(start, before);
    Drain(After(start, before), after);
  }

  // ---------------------------------------------------------------------------------------------
  // What every run preserves, before and after `Stop`.

  lemma Uncons<T>(s: seq<T>)
    requires s != []
    ensures s == [s[0]] + s[1..] && multiset(s) == multiset{s[0]} + multiset(s[1..])
  {
    assert s == [s[0]] + s[1..];
  }

  lemma Times<T>(a: seq<T>, b: seq<T>, x: T)
    ensures multiset(a + b)[x] == multiset(a)[x] + multiset(b)[x]
  {
    assert multiset(a + b) == multiset(a) + multiset(b);
  }

  lemma TimesOne<T>(s: seq<T>, x: T)
    requires s != []
    ensures multiset(s)[x] == multiset(s[1..])[x] + if s[0] == x then 1 else 0
  {
    Uncons(s);
  }

  lemma AddedByExact(step: Step, p: Packet)
    ensures multiset(AddedBy(step))[p] == if step == Arrive(p) || (step.Posted? && p.Sentinel?) then 1 else 0
  {}

  /** Each packet enqueued is a completion that arrived, or a sentinel that was posted. */
  lemma {:induction false} AddedExact(steps: seq<Step>, p: Packet)
    ensures multiset(Added(steps))[p]
         == multiset(steps)[Arrive(p)] + if p.Sentinel? then multiset(steps)[Posted] else 0
  {
    if steps != [] {
      AddedExact(steps[1..], p);
      Times(AddedBy(steps[0]), Added(steps[1..]), p);
      AddedByExact(steps[0], p);
      TimesOne(steps, Arrive(p));
      TimesOne(steps, Posted);
    }
  }

  /** What a step dequeues. */
  function TakenBy(s: Port, step: Step): seq<Packet>
    requires Enabled(s, step)
  {
    if Takes(step) then [s.queue[0]] else []
  }

  lemma QueueStep(s: Port, step: Step)
    requires Enabled(s, step)
    ensures s.queue + AddedBy(step) == TakenBy(s, step) + Next(s, step).queue
  {}

  /** The queue loses nothing and keeps its order. */
  lemma {:induction false} QueueConservation(s: Port, steps: seq<Step>)
    requires Possible(s, steps)
    ensures s.queue + Added(steps) == Taken(s, steps) + After(s, steps).queue
    decreases |steps|
  {
    if steps != [] {
      var step, t, rest := steps[0], Next(s, steps[0]), steps[1..];
      QueueConservation(t, rest);
      TakenStep(s, steps);
      QueueStep(s, step);
      Assoc(s.queue, AddedBy(step), Added(rest));
      Assoc(TakenBy(s, step), t.queue, Added(rest));
      Assoc(TakenBy(s, step), Taken(t, rest), After(t, rest).queue);
    }
  }

  lemma {:induction false} TakenCount(s: Port, steps: seq<Step>)
    requires Possible(s, steps)
    ensures |Taken(s, steps)| == multiset(steps)[Dequeued] + multiset(steps)[DequeueFailed]
    decreases |steps|
  {
    if steps != [] {
      TakenCount(Next(s, steps[0]), steps[1..]);
      TakenStep(s, steps);
      Uncons(steps);
    }
  }

  /** A thread leaves by the sentinel it takes, or by a completion that reports a failure, and by
      nothing else. */
  lemma {:induction false} ThreadConservation(s: Port, steps: seq<Step>)
    requires Possible(s, steps)
    ensures var t := After(s, steps);
            && t.live + t.unstarted + multiset(Taken(s, steps))[Sentinel] + multiset(steps)[DequeueFailed]
            == s.live + s.unstarted
            && t.unstarted + multiset(steps)[Started] == s.unstarted
    decreases |steps|
  {
    if steps != [] {
      ThreadConservation(Next(s, steps[0]), steps[1..]);
      TakenStep(s, steps);
      Uncons(steps);
    }
  }

  lemma OneMore(n: nat, k: nat)
    ensures n * (1 + k) == n + n * k
  {}

  /** Every call of `Stop` posts one sentinel a thread. */
  lemma {:induction false} StopConservation(s: Port, steps: seq<Step>)
    requires Possible(s, steps)
    ensures After(s, steps).threadCount == s.threadCount
    ensures After(s, steps).toPost + multiset(steps)[Posted]
         == s.toPost + s.threadCount * multiset(steps)[StopCalled]
    decreases |steps|
  {
    if steps != [] {
      var step, rest := steps[0], steps[1..];
      StopConservation(Next(s, step), rest);
      Uncons(steps);
      OneMore(s.threadCount, multiset(rest)[StopCalled]);
      assert multiset(steps)[StopCalled] == multiset(rest)[StopCalled] + if step.StopCalled? then 1 else 0;
    }
  }

  // ---------------------------------------------------------------------------------------------
  // The manager.

  /** The position of the first sentinel. */
  function FirstSentinel(q: seq<Packet>): (k: nat)
    requires Sentinel in q
    ensures k < |q| && q[k] == Sentinel && Sentinel !in q[..k]
  {
    if q[0].Sentinel? then 0 else
      assert q == [q[0]] + q[1..];
      var k := 1 + FirstSentinel(q[1..]);
      assert q[..k] == [q[0]] + q[1..][..k - 1];
      k
  }

  /** What the first `n` handlers caused to be enqueued. */
  function Arrivals(batches: seq<seq<Packet>>, n: nat): seq<Packet> {
    if n == 0 then [] else Arrivals(batches, n - 1) + if n <= |batches| then batches[n - 1] else []
  }

  /** They stand there whole and in order, one batch behind the other. */
  lemma {:induction false} ArrivalsExact(batches: seq<seq<Packet>>, n: nat, i: nat)
    requires i < n
    ensures var batch := if i < |batches| then batches[i] else [];
            var before := Arrivals(batches, i);
            && Arrivals(batches, 0) == [] && Arrivals(batches, i + 1) == before + batch
            && before + batch <= Arrivals(batches, n)
  {
    if i + 1 < n {
      ArrivalsExact(batches, n - 1, i);
    }
  }

  /** The operations that a handler posted complete, in order. */
  function Arrives(batch: seq<Packet>): seq<Step> {
    if batch == [] then [] else [Arrive(batch[0])] + Arrives(batch[1..])
  }

  lemma {:induction false} ArrivesResult(s: Port, batch: seq<Packet>)
    requires Sentinel !in batch
    ensures Possible(s, Arrives(batch)) && Taken(s, Arrives(batch)) == []
    ensures After(s, Arrives(batch)) == s.(queue := s.queue + batch)
    decreases |batch|
  {
    if batch != [] {
      var t := Next(s, Arrive(batch[0]));
      ArrivesResult(t, batch[1..]);
      Uncons(batch);
      Assoc(s.queue, [batch[0]], batch[1..]);
      assert Arrives(batch)[1..] == Arrives(batch[1..]);
    } else {
      assert s.queue + batch == s.queue;
    }
  }

  lemma {:induction false} RunConcat(s: Port, a: seq<Step>, c: Port, b: seq<Step>)
    requires Possible(s, a) && After(s, a) == c && Possible(c, b)
    ensures Possible(s, a + b) && After(s, a + b) == After(c, b)
    ensures Taken(s, a + b) == Taken(s, a) + Taken(c, b)
    decreases |a|
  {
    if a == [] {
      assert a + b == b;
      assert [] + Taken(s, b) == Taken(s, b);
    } else {
      var t := Next(s, a[0]);
      RunConcat(t, a[1..], c, b);
      assert (a + b)[1..] == a[1..] + b && (a + b)[0] == a[0];
      TakenStep(s, a);
      TakenStep(s, a + b);
      Assoc(TakenBy(s, a[0]), Taken(t, a[1..]), Taken(c, b));
    }
  }

  lemma RunOne(s: Port, step: Step)
    requires Enabled(s, step)
    ensures Possible(s, [step]) && After(s, [step]) == Next(s, step) && Taken(s, [step]) == TakenBy(s, step)
  {
    assert Possible(Next(s, step), []);
    assert [step][1..] == [];
    assert TakenBy(s, step) + [] == TakenBy(s, step);
  }

  /** A thread handles the foremost completion, and what its handler posted completes. */
  lemma TurnResult(s: Port, batch: seq<Packet>)
    requires s.live > 0 && s.queue != [] && s.queue[0].Io? && Sentinel !in batch
    ensures var steps := [Dequeued] + Arrives(batch);
            && Possible(s, steps) && Taken(s, steps) == [s.queue[0]]
            && After(s, steps) == s.(queue := s.queue[1..] + batch)
  {
    var t := Next(s, Dequeued);
    RunOne(s, Dequeued);
    ArrivesResult(t, batch);
    RunConcat(s, [Dequeued], t, Arrives(batch));
    assert [s.queue[0]] + [] == [s.queue[0]];
  }

  /** The steps of a thread that handles `n` completions. */
  function Turns(batches: seq<seq<Packet>>, n: nat): seq<Step> {
    if n == 0 then []
    else Turns(batches, n - 1) + ([Dequeued] + Arrives(if n <= |batches| then batches[n - 1] else []))
  }

  lemma Advance<T>(q: seq<T>, n: nat, a: seq<T>, b: seq<T>)
    requires n < |q|
    ensures (q[n..] + a)[0] == q[n] && (q[n..] + a)[1..] + b == q[n + 1..] + (a + b)
    ensures q[..n] + [q[n]] == q[..n + 1]
  {
    assert (q[n..] + a)[1..] == q[n + 1..] + a;
  }

  lemma OneTurnMore(start: Port, a: seq<Step>, s: Port, batch: seq<Packet>)
    requires Possible(start, a) && After(start, a) == s
    requires s.live > 0 && s.queue != [] && s.queue[0].Io? && Sentinel !in batch
    ensures var steps := a + ([Dequeued] + Arrives(batch));
            && Possible(start, steps) && Taken(start, steps) == Taken(start, a) + [s.queue[0]]
            && After(start, steps) == s.(queue := s.queue[1..] + batch)
  {
    TurnResult(s, batch);
    RunConcat(start, a, s, [Dequeued] + Arrives(batch));
  }

  lemma {:induction false} TurnsResult(start: Port, batches: seq<seq<Packet>>, n: nat)
    requires n <= |start.queue| && start.live > 0 && Sentinel !in start.queue[..n]
    requires forall b :: b in batches ==> Sentinel !in b
    ensures Possible(start, Turns(batches, n)) && Taken(start, Turns(batches, n)) == start.queue[..n]
    ensures After(start, Turns(batches, n)) == start.(queue := start.queue[n..] + Arrivals(batches, n))
  {
    if n == 0 {
      assert start.queue[0..] + Arrivals(batches, 0) == start.queue;
    } else {
      var m := n - 1;
      var added := if m < |batches| then batches[m] else [];
      assert start.queue[..n][..m] == start.queue[..m] && start.queue[..n][m] == start.queue[m];
      TurnsResult(start, batches, m);
      Advance(start.queue, m, Arrivals(batches, m), added);
      OneTurnMore(start, Turns(batches, m), start.(queue := start.queue[m..] + Arrivals(batches, m)), added);
    }
  }

  /** The queue once `n` packets of `q` were handled. */
  predicate Handled(q: seq<Packet>, batches: seq<seq<Packet>>, n: nat, queue: seq<Packet>) {
    n < |q| && queue == q[n..] + Arrivals(batches, n)
  }

  lemma Foremost(q: seq<Packet>, batches: seq<seq<Packet>>, n: nat, queue: seq<Packet>)
    requires Sentinel in q && n <= FirstSentinel(q) && Handled(q, batches, n, queue)
    ensures queue[0] == q[n] && queue[1..] == q[n + 1..] + Arrivals(batches, n)
    ensures q[n] == Sentinel <==> n == FirstSentinel(q)
  {
    assert n < FirstSentinel(q) ==> q[..FirstSentinel(q)][n] == q[n];
  }

  lemma HandledOneMore(q: seq<Packet>, batches: seq<seq<Packet>>, n: nat, queue: seq<Packet>)
    requires Sentinel in q && n < FirstSentinel(q) && Handled(q, batches, n, queue)
    ensures q[..n] + [queue[0]] == q[..n + 1]
    ensures Handled(q, batches, n + 1, queue[1..] + if n < |batches| then batches[n] else [])
  {
    Advance(q, n, Arrivals(batches, n), if n < |batches| then batches[n] else []);
  }

  lemma UpToSentinel(q: seq<Packet>)
    requires Sentinel in q
    ensures var front := q[..FirstSentinel(q)];
            |front| == FirstSentinel(q) && front + [Sentinel] <= q && Sentinel !in front
  {
    var k := FirstSentinel(q);
    assert q[..k + 1] == q[..k] + [q[k]];
  }

  /** From the port `start`, the thread handles the completions, takes the sentinel, and is gone. */
  predicate Served(start: Port, batches: seq<seq<Packet>>, handled: seq<Packet>, end: Port) {
    var steps := Turns(batches, |handled|) + [Dequeued];
    && Possible(start, steps) && Taken(start, steps) == handled + [Sentinel]
    && start.live > 0 && After(start, steps) == end.(live := start.live - 1)
  }

  lemma ServesQueue(start: Port, batches: seq<seq<Packet>>, handled: seq<Packet>, end: Port)
    requires handled + [Sentinel] <= start.queue && Sentinel !in handled && start.live > 0
    requires forall b :: b in batches ==> Sentinel !in b
    requires end == start.(queue := start.queue[|handled| + 1..] + Arrivals(batches, |handled|))
    ensures Served(start, batches, handled, end)
  {
    var n := |handled|;
    assert start.queue[..n + 1] == handled + [Sentinel];
    assert start.queue[..n] == handled && start.queue[n] == Sentinel;
    TurnsResult(start, batches, n);
    var s := After(start, Turns(batches, n));
    Advance(start.queue, n, Arrivals(batches, n), []);
    Assoc(start.queue[n + 1..], Arrivals(batches, n), []);
    assert Arrivals(batches, n) + [] == Arrivals(batches, n);
    assert s.queue[1..] + [] == s.queue[1..];
    RunOne(s, Dequeued);
    RunConcat(start, Turns(batches, n), s, [Dequeued]);
  }

  function Repeat(step: Step, n: nat): seq<Step> {
    seq(n, i => step)
  }

  /** A call of `Stop`, with nobody in between. */
  function Stops(threadCount: nat): seq<Step> {
    [StopCalled] + Repeat(Posted, threadCount)
  }

  lemma {:induction false} PostsResult(s: Port, n: nat)
    requires n <= s.toPost
    ensures Possible(s, Repeat(Posted, n))
    ensures After(s, Repeat(Posted, n)) == s.(toPost := s.toPost - n, queue := s.queue + seq(n, i => Sentinel))
    decreases n
  {
    if n == 0 {
      assert s.queue + seq(n, i => Sentinel) == s.queue;
    } else {
      PostsResult(Next(s, Posted), n - 1);
      assert Repeat(Posted, n)[1..] == Repeat(Posted, n - 1);
      assert s.queue + seq(n, i => Sentinel) == (s.queue + [Sentinel]) + seq(n - 1, i => Sentinel);
    }
  }

  lemma StopsResult(s: Port)
    requires s.toPost == 0
    ensures Possible(s, Stops(s.threadCount))
    ensures After(s, Stops(s.threadCount)) == s.(queue := s.queue + seq(s.threadCount, i => Sentinel))
  {
    var t := Next(s, StopCalled);
    PostsResult(t, s.threadCount);
    RunOne(s, StopCalled);
    RunConcat(s, [StopCalled], t, Repeat(Posted, s.threadCount));
  }

  lemma {:induction false} StartsResult(s: Port, n: nat)
    requires n <= s.unstarted
    ensures Possible(s, Repeat(Started, n))
    ensures After(s, Repeat(Started, n)) == s.(unstarted := s.unstarted - n, live := s.live + n)
    decreases n
  {
    if n > 0 {
      StartsResult(Next(s, Started), n - 1);
      assert Repeat(Started, n)[1..] == Repeat(Started, n - 1);
    }
  }

  lemma {:induction false} LeavesResult(s: Port, n: nat)
    requires n <= s.live && s.queue == seq(n, i => Sentinel)
    ensures Possible(s, Repeat(Dequeued, n))
    ensures After(s, Repeat(Dequeued, n)) == s.(queue := [], live := s.live - n)
    decreases n
  {
    if n > 0 {
      assert s.queue[1..] == seq(n - 1, i => Sentinel);
      LeavesResult(Next(s, Dequeued), n - 1);
      assert Repeat(Dequeued, n)[1..] == Repeat(Dequeued, n - 1);
    }
  }

  lemma StopAndLeave(s: Port)
    requires s.toPost == 0 && s.queue == [] && s.live == s.threadCount
    ensures var steps := Stops(s.threadCount) + Repeat(Dequeued, s.threadCount);
            Possible(s, steps) && After(s, steps) == s.(live := 0)
  {
    var n := s.threadCount;
    StopsResult(s);
    var t := s.(queue := seq(n, i => Sentinel));
    assert s.queue + seq(n, i => Sentinel) == t.queue;
    LeavesResult(t, n);
    RunConcat(s, Stops(n), t, Repeat(Dequeued, n));
  }

  /** For any number of threads: they start, `Stop` is called once, and each takes its sentinel. */
  lemma ShutdownWorks(n: nat)
    ensures var steps := Repeat(Started, n) + (Stops(n) + Repeat(Dequeued, n));
            && Possible(Port(n, [], n, 0, 0), steps)
            && After(Port(n, [], n, 0, 0), steps) == Port(n, [], 0, 0, 0)
  {
    var s, t := Port(n, [], n, 0, 0), Port(n, [], 0, n, 0);
    StartsResult(s, n);
    StopAndLeave(t);
    RunConcat(s, Repeat(Started, n), t, Stops(n) + Repeat(Dequeued, n));
  }

  class CIoManager {
    const threadCount: nat
    var queue: seq<Packet>

    constructor (threadCount: nat)
      ensures this.threadCount == threadCount && queue == []
    {
      this.threadCount := threadCount;
      queue := [];
    }

    /** The port that one thread sees. */
    ghost function View(): Port
      reads this
    {
      Port(threadCount, queue, 0, 1, 0)
    }

    /** One sentinel a thread, as a call of `Stop` at the port posts them. */
    method Stop()
      modifies this
      ensures queue == old(queue) + seq(threadCount, i => Sentinel)
      ensures Possible(old(View()), Stops(threadCount)) && After(old(View()), Stops(threadCount)) == View()
    {
      StopsResult(View());
      for i := 0 to threadCount
        invariant queue == old(queue) + seq(i, k => Sentinel)
      {
        queue := queue + [Sentinel];
      }
    }

    /** One thread alone: it handles everything in front of the first sentinel, consumes that, and
        leaves whatever its handlers caused to be enqueued meanwhile, as the port does. */
    method Run(batches: seq<seq<Packet>>) returns (handled: seq<Packet>)
      requires Sentinel in queue
      requires forall b :: b in batches ==> Sentinel !in b
      modifies this
      ensures handled + [Sentinel] <= old(queue) && Sentinel !in handled
      ensures queue == old(queue)[|handled| + 1..] + Arrivals(batches, |handled|)
      ensures Served(old(View()), batches, handled, View())
    {
      ghost var start := View();
      handled := Loop(batches);
      UpToSentinel(start.queue);
      ServesQueue(start, batches, handled, View());
    }

    method Loop(batches: seq<seq<Packet>>) returns (handled: seq<Packet>)
      requires Sentinel in queue
      modifies this
      ensures var k := FirstSentinel(old(queue));
              handled == old(queue)[..k] && queue == old(queue)[k + 1..] + Arrivals(batches, k)
    {
      ghost var q := queue;
      handled := [];
      assert Handled(q, batches, 0, queue);
      while queue[0] != Sentinel
        invariant |handled| <= FirstSentinel(q) && handled == q[..|handled|]
        invariant Handled(q, batches, |handled|, queue)
        decreases FirstSentinel(q) - |handled|
      {
        var n := |handled|;
        Foremost(q, batches, n, queue);
        HandledOneMore(q, batches, n, queue);
        handled := handled + [queue[0]];
        queue := queue[1..] + if n < |batches| then batches[n] else [];
      }
      Foremost(q, batches, |handled|, queue);
      queue := queue[1..];
    }
  }
}
