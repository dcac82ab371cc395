/** What both native servers do to connections, seen from outside: connections are created idle, opened
    for a peer, which may fail, and closed again. */
module Lifecycle {
  import opened Bytes
  import Pool
  import Win = WinServer
  import Lin = LinuxServer

  datatype Machine = Machine(idle: set<nat>, live: set<nat>)

  datatype Event = Create(c: nat) | Open(c: nat) | FailOpen(c: nat) | Close(c: nat)

  predicate Enabled(m: Machine, e: Event) {
    match e
    case Create(c) => c !in m.idle && c !in m.live
    case Open(c) => c in m.idle && c !in m.live
    case FailOpen(c) => c in m.idle && c !in m.live
    case Close(c) => c in m.live
  }

  function Apply(m: Machine, e: Event): Machine {
    match e
    case Create(c) => m.(idle := m.idle + {c})
    case Open(c) => Machine(m.idle - {c}, m.live + {c})
    case FailOpen(c) => m
    case Close(c) => Machine(m.idle + {c}, m.live - {c})
  }

  predicate Valid(m: Machine, es: seq<Event>)
    decreases |es|
  {
    es == [] || (Enabled(m, es[0]) && Valid(Apply(m, es[0]), es[1..]))
  }

  function Run(m: Machine, es: seq<Event>): Machine
    decreases |es|
  {
    if es == [] then m else Run(Apply(m, es[0]), es[1..])
  }

  lemma {:induction false} RunConcat(m: Machine, a: seq<Event>, b: seq<Event>)
    requires Valid(m, a) && Valid(Run(m, a), b)
    ensures Valid(m, a + b) && Run(m, a + b) == Run(Run(m, a), b)
    decreases |a|
  {
    if a == [] {
      assert a + b == b;
    } else {
      assert (a + b)[1..] == a[1..] + b;
      RunConcat(Apply(m, a[0]), a[1..], b);
    }
  }

  lemma RunOne(m: Machine, e: Event)
    requires Enabled(m, e)
    ensures Valid(m, [e]) && Run(m, [e]) == Apply(m, e)
  {
    assert [e][1..] == [];
    assert Valid(Apply(m, e), []);
  }

  lemma RunTwo(m: Machine, e: Event, f: Event)
    requires Enabled(m, e) && Enabled(Apply(m, e), f)
    ensures Valid(m, [e, f]) && Run(m, [e, f]) == Apply(Apply(m, e), f)
  {
    RunOne(Apply(m, e), f);
    assert [e, f][1..] == [f];
  }

  function Count(es: seq<Event>, e: Event): nat {
    if es == [] then 0 else (if es[0] == e then 1 else 0) + Count(es[1..], e)
  }

  /** The sessions of a connection follow one another: as many were opened as were closed, and one
      more while it is live. */
  lemma {:induction false} SessionsAlternate(m: Machine, es: seq<Event>, c: nat)
    requires Valid(m, es)
    ensures Count(es, Open(c)) + (if c in m.live then 1 else 0)
         == Count(es, Close(c)) + (if c in Run(m, es).live then 1 else 0)
    decreases |es|
  {
    if es != [] {
      SessionsAlternate(Apply(m, es[0]), es[1..], c);
    }
  }

  lemma {:induction false} CountConcat(a: seq<Event>, b: seq<Event>, e: Event)
    ensures Count(a + b, e) == Count(a, e) + Count(b, e)
  {
    if a == [] {
      assert a + b == b;
    } else {
      assert (a + b)[0] == a[0] && (a + b)[1..] == a[1..] + b;
      CountConcat(a[1..], b, e);
    }
  }

  function Number(es: seq<Event>, counts: Event -> bool): nat {
    if es == [] then 0 else (if counts(es[0]) then 1 else 0) + Number(es[1..], counts)
  }

  lemma {:induction false} NumberConcat(a: seq<Event>, b: seq<Event>, counts: Event -> bool)
    ensures Number(a + b, counts) == Number(a, counts) + Number(b, counts)
  {
    if a == [] {
      assert a + b == b;
    } else {
      assert (a + b)[0] == a[0] && (a + b)[1..] == a[1..] + b;
      NumberConcat(a[1..], b, counts);
    }
  }

  predicate IsOpen(e: Event) {
    e.Open?
  }

  predicate IsClose(e: Event) {
    e.Close?
  }

  predicate IsFailOpen(e: Event) {
    e.FailOpen?
  }

  // ---------------------------------------------------------------------------------------------
  // The completion-port server: the connection waiting for a peer counts as idle.

  function WinView(s: Win.Server): Machine {
    Machine(Pool.Elements(s.pool.avail) + {s.pending}, Pool.Elements(s.pool.active) - {s.pending})
  }

  function WinEvents(s: Win.Server, step: Win.Step): seq<Event> {
    match step
    case AcceptDone => (if s.pool.avail == [] then [Create(s.pool.created)] else []) + [Open(s.pending)]
    case DisconnectDone(c) => [Close(c)]
    case _ => []
  }

  lemma WinAcceptRefines(s: Win.Server)
    requires Win.Inv(s)
    ensures Valid(WinView(s), WinEvents(s, Win.AcceptDone))
    ensures Run(WinView(s), WinEvents(s, Win.AcceptDone)) == WinView(Win.Next(s, Win.AcceptDone).value)
  {
    var t := Win.Next(s, Win.AcceptDone).value;
    var m := WinView(s);
    Pool.GetKeepsInv(s.pool);
    assert t.pool.active == s.pool.active + [t.pending];
    assert WinView(t).live == m.live + {s.pending};
    assert s.pending in m.idle && s.pending !in s.pool.avail;
    if s.pool.avail == [] {
      assert WinView(t).idle == m.idle + {s.pool.created} - {s.pending};
      RunTwo(m, Create(s.pool.created), Open(s.pending));
      assert WinEvents(s, Win.AcceptDone) == [Create(s.pool.created), Open(s.pending)];
    } else {
      assert s.pool.avail == [s.pool.avail[0]] + s.pool.avail[1..];
      assert WinView(t).idle == m.idle - {s.pending};
      RunOne(m, Open(s.pending));
      assert WinEvents(s, Win.AcceptDone) == [Open(s.pending)];
    }
  }

  lemma WinCloseRefines(s: Win.Server, t: Win.Server, c: nat)
    requires c in s.pool.active && c != s.pending && t.pool == Pool.GiveBack(s.pool, c) && t.pending == s.pending
    ensures Valid(WinView(s), [Close(c)]) && Run(WinView(s), [Close(c)]) == WinView(t)
  {
    assert WinView(t).idle == WinView(s).idle + {c};
    assert WinView(t).live == WinView(s).live - {c};
    RunOne(WinView(s), Close(c));
  }

  lemma WinStepRefines(s: Win.Server, step: Win.Step)
    requires Win.Inv(s) && Win.Enabled(s, step)
    ensures Win.Next(s, step).Some?
    ensures Valid(WinView(s), WinEvents(s, step))
    ensures Run(WinView(s), WinEvents(s, step)) == WinView(Win.Next(s, step).value)
  {
    match step {
      case AcceptDone => WinAcceptRefines(s);
      case DisconnectDone(c) =>
        Win.CompletionPool(s, step);
        WinCloseRefines(s, Win.Next(s, step).value, c);
      case ResetDone(c) =>
      case _ =>
        Win.CompletionPool(s, step);
    }
  }

  function WinTrace(s: Win.Server, steps: seq<Win.Step>): seq<Event>
    requires Win.Possible(s, steps)
    decreases |steps|
  {
    if steps == [] then []
    else WinEvents(s, steps[0]) + match Win.Next(s, steps[0])
                                  case None => []
                                  case Some(t) => WinTrace(t, steps[1..])
  }

  /** Every timely run of the completion-port server is a run of the machine. */
  lemma {:induction false} WinRefines(s: Win.Server, steps: seq<Win.Step>)
    requires Win.Inv(s) && Win.Possible(s, steps) && Win.TimelyRun(s, steps)
    ensures Win.Run(s, steps).Some?
    ensures Valid(WinView(s), WinTrace(s, steps))
    ensures Run(WinView(s), WinTrace(s, steps)) == WinView(Win.Run(s, steps).value)
    decreases |steps|
  {
    if steps != [] {
      Win.StepKeepsInv(s, steps[0]);
      WinStepRefines(s, steps[0]);
      var t := Win.Next(s, steps[0]).value;
      WinRefines(t, steps[1..]);
      RunConcat(WinView(s), WinEvents(s, steps[0]), WinTrace(t, steps[1..]));
    }
  }

  lemma WinEventsExact(s: Win.Server, step: Win.Step, c: nat)
    ensures Number(WinEvents(s, step), IsOpen) == if step.AcceptDone? then 1 else 0
    ensures Count(WinEvents(s, step), Close(c)) == if step == Win.DisconnectDone(c) then 1 else 0
  {
    var es := WinEvents(s, step);
    if |es| == 2 {
      NumberConcat([es[0]], [es[1]], IsOpen);
      CountConcat([es[0]], [es[1]], Close(c));
      assert es == [es[0]] + [es[1]];
    }
  }

  /** The machine opens a connection for every accept handled, and closes one for every completed
      disconnect. */
  lemma {:induction false} WinTraceExact(s: Win.Server, steps: seq<Win.Step>, c: nat)
    requires Win.Inv(s) && Win.Possible(s, steps) && Win.TimelyRun(s, steps)
    ensures Number(WinTrace(s, steps), IsOpen) == multiset(steps)[Win.AcceptDone]
    ensures Count(WinTrace(s, steps), Close(c)) == multiset(steps)[Win.DisconnectDone(c)]
    decreases |steps|
  {
    if steps != [] {
      Win.StepKeepsInv(s, steps[0]);
      var t := Win.Next(s, steps[0]).value;
      WinTraceExact(t, steps[1..], c);
      WinEventsExact(s, steps[0], c);
      NumberConcat(WinEvents(s, steps[0]), WinTrace(t, steps[1..]), IsOpen);
      CountConcat(WinEvents(s, steps[0]), WinTrace(t, steps[1..]), Close(c));
      Win.Uncons(steps);
    }
  }

  /** On the completion-port server, a connection was handed to a peer as often as it was given back,
      and once more while it has one. */
  lemma WinSessionsAlternate(count: nat, steps: seq<Win.Step>, c: nat)
    requires Win.Possible(Win.Boot(count), steps) && Win.TimelyRun(Win.Boot(count), steps)
    ensures Win.Run(Win.Boot(count), steps).Some?
    ensures var s := Win.Run(Win.Boot(count), steps).value;
            var trace := WinTrace(Win.Boot(count), steps);
            Count(trace, Open(c)) == Count(trace, Close(c)) + if Win.Live(s, c) then 1 else 0
  {
    var s := Win.Boot(count);
    Win.BootInv(count);
    WinRefines(s, steps);
    assert WinView(s).live == {};
    SessionsAlternate(WinView(s), WinTrace(s, steps), c);
  }

  // ---------------------------------------------------------------------------------------------
  // The epoll server.

  function LinView(s: Lin.Server): Machine {
    Machine(Pool.Elements(s.pool.avail), Pool.Elements(s.pool.active))
  }

  /** A declined accept is a failed opening of the connection it took, which it may have created. One
      that throws leaves its connection live for ever. */
  function LinEvents(s: Lin.Server, step: Lin.Step): seq<Event>
    requires Lin.Enabled(s, step)
  {
    match step
    case AcceptReady(outcome, _) =>
      (if s.pool.avail == [] then [Create(s.pool.created)] else [])
      + (if Lin.Succeeds(outcome) || outcome.Fatal? then [Open(Lin.Obtain(s).1)] else [FailOpen(Lin.Obtain(s).1)])
    case DataReady(fd, input) => if input.EndOfStream? then [Close(s.interest[fd])] else []
  }

  /** What handling an accept makes of the pool. */
  lemma LinAcceptView(s: Lin.Server, outcome: Lin.AcceptOutcome)
    requires Lin.Inv(s)
    ensures var e := Lin.Obtain(s).1;
            var m := if s.pool.avail == [] then Apply(LinView(s), Create(e)) else LinView(s);
            && (s.pool.avail == [] ==> Enabled(LinView(s), Create(e)) && e == s.pool.created)
            && e in m.idle && e !in m.live
            && LinView(Lin.DoAccept(s, outcome))
            == if Lin.Succeeds(outcome) || outcome.Fatal? then Apply(m, Open(e)) else m
  {
    var (t, e) := Lin.Obtain(s);
    Lin.ObtainKeepsInv(s);
    if s.pool.avail != [] {
      assert s.pool.avail == [e] + s.pool.avail[1..];
    }
    assert LinView(t).live == LinView(s).live + {e};
    assert LinView(t).idle == LinView(s).idle - {e};
    var u := Lin.DoAccept(s, outcome);
    if !Lin.Succeeds(outcome) && !outcome.Fatal? {
      assert u.pool == Pool.GiveBack(t.pool, e);
      assert LinView(u).live == LinView(s).live;
      assert LinView(u).idle == LinView(s).idle + {e};
    }
  }

  lemma LinAcceptRefines(s: Lin.Server, outcome: Lin.AcceptOutcome, peeked: seq<byte>)
    requires Lin.Inv(s) && Lin.Enabled(s, Lin.AcceptReady(outcome, peeked))
    ensures var events := LinEvents(s, Lin.AcceptReady(outcome, peeked));
            Valid(LinView(s), events) && Run(LinView(s), events) == LinView(Lin.DoAccept(s, outcome))
  {
    var m, e := LinView(s), Lin.Obtain(s).1;
    LinAcceptView(s, outcome);
    var tried := if Lin.Succeeds(outcome) || outcome.Fatal? then Open(e) else FailOpen(e);
    if s.pool.avail == [] {
      RunTwo(m, Create(e), tried);
      assert LinEvents(s, Lin.AcceptReady(outcome, peeked)) == [Create(e), tried];
    } else {
      RunOne(m, tried);
      assert LinEvents(s, Lin.AcceptReady(outcome, peeked)) == [tried];
    }
  }

  lemma LinStepRefines(s: Lin.Server, step: Lin.Step)
    requires Lin.Inv(s) && Lin.Enabled(s, step)
    ensures Lin.Next(s, step).Some?
    ensures Valid(LinView(s), LinEvents(s, step))
    ensures Run(LinView(s), LinEvents(s, step)) == LinView(Lin.Next(s, step).value)
  {
    Lin.StepKeepsInv(s, step);
    var t := Lin.Next(s, step).value;
    match step {
      case AcceptReady(outcome, peeked) =>
        LinAcceptRefines(s, outcome, peeked);
        assert t.pool == Lin.DoAccept(s, outcome).pool;
      case DataReady(fd, input) =>
        if input.EndOfStream? {
          var c := s.interest[fd];
          assert t.pool == Pool.GiveBack(s.pool, c);
          assert LinView(t).idle == LinView(s).idle + {c};
          assert LinView(t).live == LinView(s).live - {c};
          RunOne(LinView(s), Close(c));
        }
    }
  }

  function LinTrace(s: Lin.Server, steps: seq<Lin.Step>): seq<Event>
    requires Lin.Possible(s, steps)
    decreases |steps|
  {
    if steps == [] then []
    else LinEvents(s, steps[0]) + match Lin.Next(s, steps[0])
                                  case None => []
                                  case Some(t) => LinTrace(t, steps[1..])
  }

  /** Every run of the epoll server is a run of the machine. */
  lemma {:induction false} LinRefines(s: Lin.Server, steps: seq<Lin.Step>)
    requires Lin.Inv(s) && Lin.Possible(s, steps)
    ensures Lin.Run(s, steps).Some?
    ensures Valid(LinView(s), LinTrace(s, steps))
    ensures Run(LinView(s), LinTrace(s, steps)) == LinView(Lin.Run(s, steps).value)
    decreases |steps|
  {
    if steps != [] {
      Lin.StepKeepsInv(s, steps[0]);
      LinStepRefines(s, steps[0]);
      var t := Lin.Next(s, steps[0]).value;
      LinRefines(t, steps[1..]);
      RunConcat(LinView(s), LinEvents(s, steps[0]), LinTrace(t, steps[1..]));
    }
  }

  /** The accepts of a run that take their connection, and those that are declined. */
  function Taken(steps: seq<Lin.Step>): nat {
    if steps == [] then 0
    else (if steps[0].AcceptReady? && (Lin.Succeeds(steps[0].outcome) || steps[0].outcome.Fatal?) then 1 else 0)
         + Taken(steps[1..])
  }

  function Declined(steps: seq<Lin.Step>): nat {
    if steps == [] then 0
    else (if steps[0].AcceptReady? && !Lin.Succeeds(steps[0].outcome) && !steps[0].outcome.Fatal? then 1 else 0)
         + Declined(steps[1..])
  }

  function Ended(steps: seq<Lin.Step>): nat {
    if steps == [] then 0
    else (if steps[0].DataReady? && steps[0].input.EndOfStream? then 1 else 0) + Ended(steps[1..])
  }

  lemma LinEventsExact(s: Lin.Server, step: Lin.Step)
    requires Lin.Enabled(s, step)
    ensures Number(LinEvents(s, step), IsOpen) == Taken([step])
    ensures Number(LinEvents(s, step), IsFailOpen) == Declined([step])
    ensures Number(LinEvents(s, step), IsClose) == Ended([step])
  {
    var es := LinEvents(s, step);
    assert [step][1..] == [];
    if |es| == 2 {
      NumberConcat([es[0]], [es[1]], IsOpen);
      NumberConcat([es[0]], [es[1]], IsFailOpen);
      NumberConcat([es[0]], [es[1]], IsClose);
      assert es == [es[0]] + [es[1]];
    }
  }

  /** The machine opens a connection for every accept that takes one, and fails to for every accept
      declined; it closes one for every stream that ends. */
  lemma {:induction false} LinTraceExact(s: Lin.Server, steps: seq<Lin.Step>)
    requires Lin.Inv(s) && Lin.Possible(s, steps)
    ensures Number(LinTrace(s, steps), IsOpen) == Taken(steps)
    ensures Number(LinTrace(s, steps), IsFailOpen) == Declined(steps)
    ensures Number(LinTrace(s, steps), IsClose) == Ended(steps)
    decreases |steps|
  {
    if steps != [] {
      Lin.StepKeepsInv(s, steps[0]);
      var t := Lin.Next(s, steps[0]).value;
      LinTraceExact(t, steps[1..]);
      LinEventsExact(s, steps[0]);
      NumberConcat(LinEvents(s, steps[0]), LinTrace(t, steps[1..]), IsOpen);
      NumberConcat(LinEvents(s, steps[0]), LinTrace(t, steps[1..]), IsFailOpen);
      NumberConcat(LinEvents(s, steps[0]), LinTrace(t, steps[1..]), IsClose);
    }
  }

  /** On the epoll server, likewise. */
  lemma LinSessionsAlternate(count: nat, steps: seq<Lin.Step>, c: nat)
    requires Lin.Possible(Lin.Built(count), steps)
    ensures Lin.Run(Lin.Built(count), steps).Some?
    ensures var s := Lin.Run(Lin.Built(count), steps).value;
            var trace := LinTrace(Lin.Built(count), steps);
            Count(trace, Open(c)) == Count(trace, Close(c)) + if c in s.pool.active then 1 else 0
  {
    var s := Lin.Built(count);
    Lin.BuiltInv(count);
    LinRefines(s, steps);
    assert LinView(s).live == {};
    SessionsAlternate(LinView(s), LinTrace(s, steps), c);
  }
}
