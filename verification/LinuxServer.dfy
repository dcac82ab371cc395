/** The epoll server as a transition system: one step is the handling of one event. Events of one
    endpoint are handled one after the other. */
module LinuxServer {
  import opened Bytes
  import Pool

  datatype Conn = Conn(exchange: bool, fd: nat, readBuf: seq<byte>, writeBuf: seq<byte>)

  const FRESH: Conn := Conn(false, 0, Zeros(MAX_BUF_SIZE), Zeros(MAX_BUF_SIZE))

  /** The system calls that decide about the life of a descriptor. */
  datatype Call = Accepted(fd: nat) | Registered(fd: nat) | Unregistered(fd: nat) | Closed(fd: nat)

  datatype Server = Server(
    pool: Pool.ListPool,
    conns: seq<Conn>,
    last: Option<nat>,        // the connection of the latest successful accept
    interest: map<nat, nat>,  // registered descriptors, with their connections
    log: seq<Call>)

  datatype AcceptOutcome =
    | Descriptor(fd: nat)
    | NotReady                // nobody is waiting, or the peer is gone again
    | Fatal                   // any other error: an exception

  /** What the reads of one data event find. */
  datatype Input =
    | NothingYet
    | EndOfStream
    | Chunk(data: seq<byte>, trailing: seq<byte>) // the second read's bytes are ignored
    | ReadFails               // an exception

  datatype Step =
    | AcceptReady(outcome: AcceptOutcome, peeked: seq<byte>) // the bytes read from the previous connection
    | DataReady(fd: nat, input: Input)

  // ---------------------------------------------------------------------------------------------
  // Connections.

  predicate WellFormed(c: Conn) {
    |c.readBuf| == MAX_BUF_SIZE && |c.writeBuf| == MAX_BUF_SIZE
  }

  function Set(c: Conn, fd: nat): Conn {
    c.(fd := fd, exchange := true)
  }

  function Read(c: Conn, data: seq<byte>): Conn
    requires |data| <= |c.readBuf|
  {
    c.(readBuf := Overlay(c.readBuf, data))
  }

  function Write(c: Conn, data: seq<byte>): Conn
    requires |data| <= |c.writeBuf|
  {
    c.(writeBuf := Overlay(c.writeBuf, data))
  }

  function Reset(c: Conn): Conn {
    if c.exchange then c.(fd := 0, exchange := false) else c
  }

  /** The bytes written back for a chunk. */
  function Reply(c: Conn, data: seq<byte>): (r: seq<byte>)
    requires WellFormed(c) && |data| <= MAX_BUF_SIZE
    ensures |r| <= MAX_BUF_SIZE
    ensures r <= Overlay(c.readBuf, data) && NulFree(r)
    ensures |r| < MAX_BUF_SIZE ==> Overlay(c.readBuf, data)[|r|] == 0
  {
    Scan(Overlay(c.readBuf, data))
  }

  /** A chunk read and echoed, the second read, and the clearing by the length of the chunk. */
  function Exchange(c: Conn, data: seq<byte>, trailing: seq<byte>): Conn
    requires WellFormed(c) && |data| <= MAX_BUF_SIZE && |trailing| <= MAX_BUF_SIZE
  {
    var d := Read(Write(Read(c, data), Reply(c, data)), trailing);
    d.(readBuf := Clear(d.readBuf, |data|), writeBuf := Clear(d.writeBuf, |data|))
  }

  // ---------------------------------------------------------------------------------------------
  // The server.

  function Built(count: nat): Server {
    Server(Pool.Init(count), seq(count, i => FRESH), None, map[], [])
  }

  /** Every number in the pool and in the acceptor names a connection. */
  predicate Sized(s: Server) {
    && |s.conns| == s.pool.created
    && (forall e :: e in s.pool.avail ==> e < s.pool.created)
    && (s.last.Some? ==> s.last.value < s.pool.created)
    && (forall i :: 0 <= i < |s.conns| ==> WellFormed(s.conns[i]))
  }

  /** Takes a connection from the pool, creating it if need be. */
  function Obtain(s: Server): (r: (Server, nat))
    requires Sized(s)
    ensures Sized(r.0) && r.1 < |r.0.conns|
  {
    assert forall k :: 0 <= k < |s.pool.avail| ==> s.pool.avail[k] in s.pool.avail;
    var (p, e) := Pool.Obtain(s.pool);
    (s.(pool := p, conns := if s.pool.avail == [] then s.conns + [FRESH] else s.conns), e)
  }

  /** A declined connection goes back to the pool; a descriptor of value zero is declined, and stays
      open. An exception leaves the connection where it is. */
  function Settle(t: Server, e: nat, outcome: AcceptOutcome): Server
    requires e < |t.conns|
  {
    match outcome
    case Fatal => t
    case NotReady => t.(pool := Pool.GiveBack(t.pool, e))
    case Descriptor(fd) =>
      if fd == 0 then
        t.(pool := Pool.GiveBack(t.pool, e), log := t.log + [Accepted(0)])
      else
        t.(conns := t.conns[e := Set(t.conns[e], fd)], last := Some(e),
           interest := t.interest[fd := e], log := t.log + [Accepted(fd), Registered(fd)])
  }

  function DoAccept(s: Server, outcome: AcceptOutcome): (t: Server)
    requires Sized(s)
    ensures Sized(t)
  {
    var (t, e) := Obtain(s);
    Settle(t, e, outcome)
  }

  predicate Succeeds(outcome: AcceptOutcome) {
    outcome.Descriptor? && outcome.fd != 0
  }

  function Disconnect(s: Server, c: nat): Server
    requires c < |s.conns|
  {
    var conn := s.conns[c];
    if !conn.exchange then s
    else
      s.(conns := s.conns[c := Reset(conn)], interest := s.interest - {conn.fd},
         log := s.log + [Unregistered(conn.fd), Closed(conn.fd)])
  }

  predicate Enabled(s: Server, step: Step) {
    match step
    case AcceptReady(outcome, peeked) =>
      && Sized(s)
      && |peeked| <= MAX_BUF_SIZE
      && (Succeeds(outcome) ==> PhaseOf(s.log, outcome.fd) == Idle)
    case DataReady(fd, input) =>
      && fd in s.interest && s.interest[fd] < |s.conns| && WellFormed(s.conns[s.interest[fd]])
      && (input.Chunk? ==> 0 < |input.data| <= MAX_BUF_SIZE && |input.trailing| <= MAX_BUF_SIZE)
  }

  /** There is no result when the assertion in `Complete` fails. */
  function Next(s: Server, step: Step): Option<Server>
    requires Enabled(s, step)
  {
    match step
    case AcceptReady(outcome, peeked) =>
      var t := DoAccept(s, outcome);
      if Succeeds(outcome) && s.last.Some? then
        Some(t.(conns := t.conns[s.last.value := Read(t.conns[s.last.value], peeked)]))
      else
        Some(t)
    case DataReady(fd, input) =>
      var c := s.interest[fd];
      if !s.conns[c].exchange then None
      else match input
        case NothingYet => Some(s)
        case ReadFails => Some(s)
        case EndOfStream =>
          var t := Disconnect(s, c);
          Some(t.(pool := Pool.GiveBack(t.pool, c)))
        case Chunk(data, trailing) => Some(s.(conns := s.conns[c := Exchange(s.conns[c], data, trailing)]))
  }

  predicate Possible(s: Server, steps: seq<Step>)
    decreases |steps|
  {
    steps == [] || (
      && Enabled(s, steps[0])
      && (Next(s, steps[0]).Some? ==> Possible(Next(s, steps[0]).value, steps[1..])))
  }

  function Run(s: Server, steps: seq<Step>): Option<Server>
    requires Possible(s, steps)
    decreases |steps|
  {
    if steps == [] then Some(s)
    else match Next(s, steps[0])
      case None => None
      case Some(t) => Run(t, steps[1..])
  }

  // ---------------------------------------------------------------------------------------------
  // The life of a descriptor.

  /** `Broken` is reached by a call out of order. */
  datatype Phase = Idle | Open | Watched | Unwatched | Broken

  function After(phase: Phase, call: Call): Phase {
    match call
    case Accepted(_) => if phase.Idle? then Open else Broken
    case Registered(_) => if phase.Open? then Watched else Broken
    case Unregistered(_) => if phase.Watched? then Unwatched else Broken
    case Closed(_) => if phase.Unwatched? then Idle else Broken
  }

  function PhaseOf(log: seq<Call>, fd: nat): Phase {
    if log == [] then Idle
    else
      var before := PhaseOf(log[..|log| - 1], fd);
      if log[|log| - 1].fd == fd then After(before, log[|log| - 1]) else before
  }

  lemma PhaseAppend(log: seq<Call>, call: Call, fd: nat)
    ensures PhaseOf(log + [call], fd) == if call.fd == fd then After(PhaseOf(log, fd), call) else PhaseOf(log, fd)
  {
    assert (log + [call])[..|log|] == log;
  }

  lemma PhaseAppendTwo(log: seq<Call>, first: Call, second: Call, fd: nat)
    requires first.fd == second.fd
    ensures PhaseOf(log + [first, second], fd)
         == if first.fd == fd then After(After(PhaseOf(log, fd), first), second) else PhaseOf(log, fd)
  {
    PhaseAppend(log, first, fd);
    PhaseAppend(log + [first], second, fd);
    assert log + [first] + [second] == log + [first, second];
  }

  // ---------------------------------------------------------------------------------------------
  // The invariant.

  /** Registration, descriptors and the exchange flag agree; the calls so far were all in order. */
  ghost predicate FdInv(s: Server) {
    && (forall i :: 0 <= i < |s.conns| ==>
          && WellFormed(s.conns[i])
          && (if s.conns[i].exchange then
                s.conns[i].fd != 0 && s.conns[i].fd in s.interest && s.interest[s.conns[i].fd] == i
              else s.conns[i].fd == 0))
    && (forall fd :: fd in s.interest ==>
          s.interest[fd] < |s.conns| && s.conns[s.interest[fd]].exchange && s.conns[s.interest[fd]].fd == fd)
    && (forall fd: nat :: fd != 0 ==> PhaseOf(s.log, fd) == if fd in s.interest then Watched else Idle)
  }

  ghost predicate Inv(s: Server) {
    && Pool.Inv(s.pool)
    && Sized(s)
    && (forall i :: 0 <= i < |s.conns| && s.conns[i].exchange ==> i in s.pool.active)
    && FdInv(s)
  }

  lemma BuiltInv(count: nat)
    ensures Inv(Built(count))
  {
    Pool.InitInv(count);
  }

  lemma ObtainKeepsInv(s: Server)
    requires Inv(s)
    ensures Inv(Obtain(s).0)
    ensures var (t, e) := Obtain(s);
            && e in t.pool.active && e !in s.pool.active && !t.conns[e].exchange
            && (forall i :: i in t.pool.active <==> i in s.pool.active || i == e)
            && (forall i :: 0 <= i < |s.conns| ==> t.conns[i] == s.conns[i])
  {
    var (t, e) := Obtain(s);
    Pool.GetKeepsInv(s.pool);
    assert t.pool.active == s.pool.active + [e];
    forall x | x in t.pool.avail ensures x < t.pool.created {}
  }

  /** A connection that takes a descriptor of its own, registered with its number. */
  lemma SetKeepsFdInv(s: Server, e: nat, fd: nat)
    requires FdInv(s) && e < |s.conns| && !s.conns[e].exchange
    requires fd != 0 && PhaseOf(s.log, fd) == Idle
    ensures FdInv(s.(conns := s.conns[e := Set(s.conns[e], fd)], interest := s.interest[fd := e],
                     log := s.log + [Accepted(fd), Registered(fd)]))
  {
    assert fd !in s.interest;
    forall g: nat ensures PhaseOf(s.log + [Accepted(fd), Registered(fd)], g)
                       == if g == fd then Watched else PhaseOf(s.log, g)
    {
      PhaseAppendTwo(s.log, Accepted(fd), Registered(fd), g);
    }
  }

  /** Disconnecting unregisters the descriptor, then closes it. */
  lemma DisconnectKeepsFdInv(s: Server, c: nat)
    requires FdInv(s) && c < |s.conns|
    ensures FdInv(Disconnect(s, c)) && !Disconnect(s, c).conns[c].exchange
    ensures var was := s.conns[c];
            && Disconnect(s, c).conns == s.conns[c := Conn(false, 0, was.readBuf, was.writeBuf)]
            && Disconnect(s, c).pool == s.pool && Disconnect(s, c).last == s.last
    ensures !s.conns[c].exchange ==> Disconnect(s, c) == s
  {
    var fd := s.conns[c].fd;
    if s.conns[c].exchange {
      forall g: nat ensures PhaseOf(s.log + [Unregistered(fd), Closed(fd)], g)
                         == if g == fd then Idle else PhaseOf(s.log, g)
      {
        PhaseAppendTwo(s.log, Unregistered(fd), Closed(fd), g);
      }
    }
  }

  lemma GiveBackKeepsInv(s: Server, c: nat)
    requires Inv(s) && c in s.pool.active && !s.conns[c].exchange
    ensures Inv(s.(pool := Pool.GiveBack(s.pool, c)))
  {
    Pool.ReleaseKeepsInv(s.pool, c);
  }

  lemma DoAcceptKeepsInv(s: Server, outcome: AcceptOutcome)
    requires Inv(s) && (Succeeds(outcome) ==> PhaseOf(s.log, outcome.fd) == Idle)
    ensures Inv(DoAccept(s, outcome))
  {
    var (t, e) := Obtain(s);
    ObtainKeepsInv(s);
    if Succeeds(outcome) {
      SetKeepsFdInv(t, e, outcome.fd);
    } else if !outcome.Fatal? {
      GiveBackKeepsInv(t, e);
      if outcome.Descriptor? {
        forall fd: nat | fd != 0 ensures PhaseOf(t.log + [Accepted(0)], fd) == PhaseOf(t.log, fd) {
          PhaseAppend(t.log, Accepted(0), fd);
        }
      }
    }
  }

  /** Buffers are no part of the agreement. */
  lemma BuffersKeepInv(s: Server, c: nat, conn: Conn)
    requires Inv(s) && c < |s.conns| && WellFormed(conn)
    requires conn.exchange == s.conns[c].exchange && conn.fd == s.conns[c].fd
    ensures Inv(s.(conns := s.conns[c := conn]))
  {}

  lemma AcceptKeepsInv(s: Server, outcome: AcceptOutcome, peeked: seq<byte>)
    requires Inv(s) && Enabled(s, AcceptReady(outcome, peeked))
    ensures Inv(Next(s, AcceptReady(outcome, peeked)).value)
  {
    var t := DoAccept(s, outcome);
    DoAcceptKeepsInv(s, outcome);
    if Succeeds(outcome) && s.last.Some? {
      BuffersKeepInv(t, s.last.value, Read(t.conns[s.last.value], peeked));
    }
  }

  lemma DataKeepsInv(s: Server, fd: nat, input: Input)
    requires Inv(s) && Enabled(s, DataReady(fd, input))
    ensures Next(s, DataReady(fd, input)).Some? && Inv(Next(s, DataReady(fd, input)).value)
  {
    var c := s.interest[fd];
    if input.EndOfStream? {
      DisconnectKeepsFdInv(s, c);
      GiveBackKeepsInv(Disconnect(s, c), c);
    } else if input.Chunk? {
      BuffersKeepInv(s, c, Exchange(s.conns[c], input.data, input.trailing));
    }
  }

  /** No event fires the assertion on the exchange flag, and every step keeps the invariant. */
  lemma StepKeepsInv(s: Server, step: Step)
    requires Inv(s) && Enabled(s, step)
    ensures Next(s, step).Some? && Inv(Next(s, step).value)
  {
    match step {
      case AcceptReady(outcome, peeked) => AcceptKeepsInv(s, outcome, peeked);
      case DataReady(fd, input) => DataKeepsInv(s, fd, input);
    }
  }

  lemma {:induction false} RunKeepsInv(s: Server, steps: seq<Step>)
    requires Inv(s) && Possible(s, steps)
    ensures Run(s, steps).Some? && Inv(Run(s, steps).value)
    decreases |steps|
  {
    if steps != [] {
      StepKeepsInv(s, steps[0]);
      RunKeepsInv(Next(s, steps[0]).value, steps[1..]);
    }
  }

  // ---------------------------------------------------------------------------------------------
  // Agreement with the pool.

  /** Connections in use without an exchange. */
  predicate Orphan(s: Server, i: nat) {
    i in s.pool.active && i < |s.conns| && !s.conns[i].exchange
  }

  function Orphans(s: Server): set<nat> {
    set i | i in s.pool.active && Orphan(s, i)
  }

  function Fatals(steps: seq<Step>): nat {
    if steps == [] then 0
    else (if steps[0].AcceptReady? && steps[0].outcome.Fatal? then 1 else 0) + Fatals(steps[1..])
  }

  /** An accept that throws leaves one connection behind; no other outcome does. */
  lemma AcceptOrphans(s: Server, outcome: AcceptOutcome, i: nat)
    requires Inv(s) && (Succeeds(outcome) ==> PhaseOf(s.log, outcome.fd) == Idle)
    ensures Orphan(DoAccept(s, outcome), i) <==> Orphan(s, i) || (outcome.Fatal? && i == Obtain(s).1)
    ensures !Orphan(s, Obtain(s).1)
  {
    var (t, e) := Obtain(s);
    ObtainKeepsInv(s);
    var u := DoAccept(s, outcome);
    if Succeeds(outcome) {
      assert u.pool == t.pool;
    } else if !outcome.Fatal? {
      assert i in u.pool.active <==> i in t.pool.active && i != e;
    }
  }

  lemma DataOrphans(s: Server, fd: nat, input: Input, i: nat)
    requires Inv(s) && Enabled(s, DataReady(fd, input))
    ensures Next(s, DataReady(fd, input)).Some?
    ensures Orphan(Next(s, DataReady(fd, input)).value, i) <==> Orphan(s, i)
  {
    if input.EndOfStream? {
      var c := s.interest[fd];
      assert i in Pool.GiveBack(s.pool, c).active <==> i in s.pool.active && i != c;
    }
  }

  lemma SameOrphans(s: Server, u: Server)
    requires forall i: nat :: Orphan(u, i) <==> Orphan(s, i)
    ensures |Orphans(u)| == |Orphans(s)|
  {
    assert Orphans(u) == Orphans(s);
  }

  lemma OneMoreOrphan(s: Server, u: Server, e: nat)
    requires !Orphan(s, e)
    requires forall i: nat :: Orphan(u, i) <==> Orphan(s, i) || i == e
    ensures |Orphans(u)| == |Orphans(s)| + 1
  {
    forall i: nat ensures i in Orphans(u) <==> i in Orphans(s) + {e} {
      assert Orphan(u, i) <==> Orphan(s, i) || i == e;
    }
    assert Orphans(u) == Orphans(s) + {e} && e !in Orphans(s);
  }

  /** Reading from the previous connection changes its buffer only. */
  lemma PeekOrphans(s: Server, step: Step, i: nat)
    requires Inv(s) && Enabled(s, step) && step.AcceptReady?
    ensures Orphan(Next(s, step).value, i) <==> Orphan(DoAccept(s, step.outcome), i)
  {}

  lemma StepOrphans(s: Server, step: Step)
    requires Inv(s) && Enabled(s, step)
    ensures Next(s, step).Some?
    ensures |Orphans(Next(s, step).value)| == |Orphans(s)| + if step.AcceptReady? && step.outcome.Fatal? then 1 else 0
  {
    forall i: nat
      ensures Next(s, step).Some?
      ensures Orphan(Next(s, step).value, i)
         <==> Orphan(s, i) || (step.AcceptReady? && step.outcome.Fatal? && i == Obtain(s).1)
      ensures step.AcceptReady? ==> !Orphan(s, Obtain(s).1)
    {
      match step {
        case AcceptReady(outcome, peeked) =>
          AcceptOrphans(s, outcome, i);
          PeekOrphans(s, step, i);
        case DataReady(fd, input) =>
          DataOrphans(s, fd, input, i);
      }
    }
    if step.AcceptReady? && step.outcome.Fatal? {
      OneMoreOrphan(s, Next(s, step).value, Obtain(s).1);
    } else {
      SameOrphans(s, Next(s, step).value);
    }
  }

  /** The orphans are counted by the accepts that failed with an exception: none ever comes back. */
  lemma {:induction false} RunOrphans(s: Server, steps: seq<Step>)
    requires Inv(s) && Possible(s, steps)
    ensures Run(s, steps).Some?
    ensures |Orphans(Run(s, steps).value)| == |Orphans(s)| + Fatals(steps)
    decreases |steps|
  {
    if steps != [] {
      StepKeepsInv(s, steps[0]);
      StepOrphans(s, steps[0]);
      RunOrphans(Next(s, steps[0]).value, steps[1..]);
    }
  }

  /** In use, exchanging, and registered are the same. */
  ghost predicate Agreement(s: Server) {
    && Inv(s)
    && forall i :: 0 <= i < |s.conns| ==>
         && (i in s.pool.active <==> s.conns[i].exchange)
         && (s.conns[i].exchange <==> s.conns[i].fd in s.interest && s.interest[s.conns[i].fd] == i)
  }

  lemma AgreementMeansNoOrphan(s: Server)
    requires Inv(s)
    ensures Agreement(s) <==> Orphans(s) == {}
  {
    if Orphans(s) == {} {
      forall i | 0 <= i < |s.conns| ensures i in s.pool.active <==> s.conns[i].exchange {
        assert i !in Orphans(s);
      }
    } else {
      var i :| i in Orphans(s);
      assert Orphan(s, i);
    }
  }

  /** Lifecycle agreement holds at the end of a run exactly when no accept on the way failed with an
      exception. */
  lemma AgreementExact(count: nat, steps: seq<Step>)
    requires Possible(Built(count), steps)
    ensures Run(Built(count), steps).Some?
    ensures Agreement(Run(Built(count), steps).value) <==> Fatals(steps) == 0
  {
    BuiltInv(count);
    RunKeepsInv(Built(count), steps);
    RunOrphans(Built(count), steps);
    assert Orphans(Built(count)) == {};
    AgreementMeansNoOrphan(Run(Built(count), steps).value);
  }

  /** A successful accept puts one idle connection to use, which owns the descriptor, is registered for
      it, and will be read once more at the next accept. Buffers and all other connections stay. */
  lemma SuccessfulAccept(s: Server, fd: nat)
    requires Inv(s) && fd != 0 && PhaseOf(s.log, fd) == Idle
    ensures var t := DoAccept(s, Descriptor(fd));
            && t.last.Some? && t.last.value !in s.pool.active
            && t.pool.active == s.pool.active + [t.last.value]
            && t.interest == s.interest[fd := t.last.value]
            && PhaseOf(t.log, fd) == Watched
            && (forall i :: 0 <= i < |t.conns| ==>
                  var was := if i < |s.conns| then s.conns[i] else FRESH;
                  t.conns[i] == if i == t.last.value then Conn(true, fd, was.readBuf, was.writeBuf) else was)
  {
    ObtainKeepsInv(s);
    PhaseAppendTwo(s.log, Accepted(fd), Registered(fd), fd);
  }

  /** A declined accept leaves the connections in use alone and rotates those available; when there
      are none, the connection created for it becomes the only one. A descriptor of value zero is
      declined, after it was accepted. */
  lemma DeclinedAccept(s: Server, outcome: AcceptOutcome)
    requires Inv(s) && !Succeeds(outcome) && !outcome.Fatal?
    ensures var t := DoAccept(s, outcome);
            && t.pool.active == s.pool.active
            && t.pool.avail == (if s.pool.avail == [] then [s.pool.created] else s.pool.avail[1..] + [s.pool.avail[0]])
            && t.conns == s.conns + (if s.pool.avail == [] then [FRESH] else [])
            && t.interest == s.interest && t.last == s.last
            && t.log == s.log + if outcome.Descriptor? then [Accepted(0)] else []
  {
    var (t, e) := Obtain(s);
    ObtainKeepsInv(s);
    Pool.GetKeepsInv(s.pool);
    Pool.WithoutNoDup(s.pool.active, e);
    assert (s.pool.active + [e])[..|s.pool.active|] == s.pool.active;
    assert s.conns + [] == s.conns && s.log + [] == s.log;
  }

  /** An accept that throws leaves its connection in use, idle, and changes nothing else. */
  lemma FatalAccept(s: Server)
    requires Inv(s)
    ensures var t := DoAccept(s, Fatal);
            && (exists e :: e !in s.pool.active && t.pool.active == s.pool.active + [e] && Orphan(t, e))
            && t.conns == s.conns + (if s.pool.avail == [] then [FRESH] else [])
            && t.interest == s.interest && t.last == s.last && t.log == s.log
  {
    var (t, e) := Obtain(s);
    ObtainKeepsInv(s);
    assert t.pool.active == s.pool.active + [e] && Orphan(t, e);
    assert s.conns + [] == s.conns;
  }

  /** The accept event reads into the read buffer of the connection accepted before, if this accept
      succeeds, and into no other buffer. */
  lemma PeekedBuffers(s: Server, outcome: AcceptOutcome, peeked: seq<byte>)
    requires Inv(s) && Enabled(s, AcceptReady(outcome, peeked))
    ensures Next(s, AcceptReady(outcome, peeked)).Some?
    ensures var t, u := DoAccept(s, outcome), Next(s, AcceptReady(outcome, peeked)).value;
            && u == t.(conns := u.conns) && |u.conns| == |t.conns|
            && forall i :: 0 <= i < |t.conns| ==>
                 && u.conns[i] == t.conns[i].(readBuf := u.conns[i].readBuf)
                 && u.conns[i].readBuf == if Succeeds(outcome) && s.last == Some(i)
                                          then peeked + t.conns[i].readBuf[|peeked|..] else t.conns[i].readBuf
  {
    DoAcceptKeepsInv(s, outcome);
  }

  /** What a data event changes: nothing, the buffers of its connection, or, at the end of the stream,
      the life of its connection. */
  lemma DataChanges(s: Server, fd: nat, input: Input)
    requires Inv(s) && Enabled(s, DataReady(fd, input))
    ensures Next(s, DataReady(fd, input)).Some?
    ensures var c, t := s.interest[fd], Next(s, DataReady(fd, input)).value;
            && |t.conns| == |s.conns| && t.last == s.last
            && (forall i :: 0 <= i < |s.conns| && i != c ==> t.conns[i] == s.conns[i])
            && (input.NothingYet? || input.ReadFails? ==> t == s)
            && (input.Chunk? ==> t == s.(conns := t.conns) && t.conns[c].exchange && t.conns[c].fd == fd)
            && (input.EndOfStream? ==>
                  && t.conns[c] == s.conns[c].(exchange := false, fd := 0)
                  && t.interest == s.interest - {fd} && c !in t.pool.active && t.pool.avail == s.pool.avail + [c]
                  && t.log == s.log + [Unregistered(fd), Closed(fd)])
  {
    assert s.conns[s.interest[fd]].exchange && s.conns[s.interest[fd]].fd == fd;
  }

  /** What an exchange leaves in arbitrary buffers: zeros as far as the chunk was long, behind that the
      second read and the reply, as far as they reach, and behind that what was there. */
  lemma ExchangeBuffers(c: Conn, data: seq<byte>, trailing: seq<byte>, i: nat)
    requires WellFormed(c) && |data| <= MAX_BUF_SIZE && |trailing| <= MAX_BUF_SIZE && i < MAX_BUF_SIZE
    ensures var d, reply := Exchange(c, data, trailing), Reply(c, data);
            && WellFormed(d) && d.exchange == c.exchange && d.fd == c.fd
            && d.readBuf[i] == (if i < |data| then 0 else if i < |trailing| then trailing[i] else c.readBuf[i])
            && d.writeBuf[i] == (if i < |data| then 0 else if i < |reply| then reply[i] else c.writeBuf[i])
  {
    var landed := Overlay(c.readBuf, data);
    assert |landed| == MAX_BUF_SIZE && (i >= |data| ==> landed[i] == c.readBuf[i]);
    var over := Overlay(landed, trailing);
    assert |over| == MAX_BUF_SIZE && over[i] == if i < |trailing| then trailing[i] else landed[i];
    var out := Overlay(c.writeBuf, Reply(c, data));
    assert out[i] == if i < |Reply(c, data)| then Reply(c, data)[i] else c.writeBuf[i];
  }

  /** The events that may come: any outcome of an accept, with a descriptor that is not open; and for
      a registered descriptor whatever its reads may find. */
  lemma EnabledExact(s: Server, step: Step)
    requires Inv(s)
    ensures Enabled(s, step) <==>
            match step
            case AcceptReady(outcome, peeked) =>
              |peeked| <= MAX_BUF_SIZE && (outcome.Descriptor? ==> outcome.fd !in s.interest || outcome.fd == 0)
            case DataReady(fd, input) =>
              fd in s.interest
              && (input.Chunk? ==> 0 < |input.data| <= MAX_BUF_SIZE && |input.trailing| <= MAX_BUF_SIZE)
  {}

  // ---------------------------------------------------------------------------------------------
  // The calls of a run.

  /** The accepts of a run that yield the descriptor. */
  function Yields(steps: seq<Step>, fd: nat): nat {
    if steps == [] then 0
    else (if steps[0].AcceptReady? && steps[0].outcome == Descriptor(fd) then 1 else 0) + Yields(steps[1..], fd)
  }

  lemma AcceptCalls(s: Server, outcome: AcceptOutcome)
    requires Inv(s)
    ensures DoAccept(s, outcome).log
         == s.log + if !outcome.Descriptor? then []
                    else if outcome.fd == 0 then [Accepted(0)]
                    else [Accepted(outcome.fd), Registered(outcome.fd)]
  {
    assert s.log + [] == s.log;
  }

  /** The calls a step adds. */
  function CallsOf(step: Step): seq<Call> {
    match step
    case AcceptReady(outcome, _) =>
      if !outcome.Descriptor? then []
      else if outcome.fd == 0 then [Accepted(0)]
      else [Accepted(outcome.fd), Registered(outcome.fd)]
    case DataReady(fd, input) => if input.EndOfStream? then [Unregistered(fd), Closed(fd)] else []
  }

  lemma StepCalls(s: Server, step: Step)
    requires Inv(s) && Enabled(s, step)
    ensures Next(s, step).Some? && Next(s, step).value.log == s.log + CallsOf(step)
  {
    assert s.log + [] == s.log;
    match step {
      case AcceptReady(outcome, peeked) => AcceptCalls(s, outcome);
      case DataReady(fd, input) => DataChanges(s, fd, input);
    }
  }

  function Calls(steps: seq<Step>): seq<Call> {
    if steps == [] then [] else CallsOf(steps[0]) + Calls(steps[1..])
  }

  lemma Assoc<T>(a: seq<T>, b: seq<T>, c: seq<T>)
    ensures (a + b) + c == a + (b + c)
  {}

  /** The calls of a run are those its events ask for, in order. */
  lemma {:induction false} RunLog(s: Server, steps: seq<Step>)
    requires Inv(s) && Possible(s, steps)
    ensures Run(s, steps).Some? && Run(s, steps).value.log == s.log + Calls(steps)
    decreases |steps|
  {
    if steps == [] {
      assert s.log + [] == s.log;
    } else {
      StepKeepsInv(s, steps[0]);
      StepCalls(s, steps[0]);
      RunLog(Next(s, steps[0]).value, steps[1..]);
      Assoc(s.log, CallsOf(steps[0]), Calls(steps[1..]));
    }
  }

  function Times(log: seq<Call>, call: Call): nat {
    if log == [] then 0 else (if log[0] == call then 1 else 0) + Times(log[1..], call)
  }

  lemma {:induction false} TimesConcat(a: seq<Call>, b: seq<Call>, call: Call)
    ensures Times(a + b, call) == Times(a, call) + Times(b, call)
  {
    if a == [] {
      assert a + b == b;
    } else {
      assert (a + b)[0] == a[0] && (a + b)[1..] == a[1..] + b;
      TimesConcat(a[1..], b, call);
    }
  }

  /** The ends of stream of a run on the descriptor. */
  function Ends(steps: seq<Step>, fd: nat): nat {
    if steps == [] then 0 else (if steps[0] == DataReady(fd, EndOfStream) then 1 else 0) + Ends(steps[1..], fd)
  }

  lemma TimesOfTwo(a: Call, b: Call, call: Call)
    ensures Times([a], call) == if a == call then 1 else 0
    ensures Times([a, b], call) == (if a == call then 1 else 0) + if b == call then 1 else 0
  {
    assert [a][1..] == [] && [b][1..] == [] && [a, b][1..] == [b];
  }

  lemma TimesOfStep(step: Step, fd: nat)
    ensures Times(CallsOf(step), Accepted(fd)) == Yields([step], fd)
    ensures Times(CallsOf(step), Registered(fd)) == if fd == 0 then 0 else Yields([step], fd)
    ensures Times(CallsOf(step), Unregistered(fd)) == Ends([step], fd)
    ensures Times(CallsOf(step), Closed(fd)) == Ends([step], fd)
  {
    assert [step][1..] == [];
    match step
    case AcceptReady(Descriptor(n), _) =>
      TimesOfTwo(Accepted(n), Registered(n), Accepted(fd));
      TimesOfTwo(Accepted(n), Registered(n), Registered(fd));
      TimesOfTwo(Accepted(n), Registered(n), Unregistered(fd));
      TimesOfTwo(Accepted(n), Registered(n), Closed(fd));
    case DataReady(n, EndOfStream) =>
      TimesOfTwo(Unregistered(n), Closed(n), Accepted(fd));
      TimesOfTwo(Unregistered(n), Closed(n), Registered(fd));
      TimesOfTwo(Unregistered(n), Closed(n), Unregistered(fd));
      TimesOfTwo(Unregistered(n), Closed(n), Closed(fd));
    case _ =>
  }

  lemma {:induction false} TimesOfCalls(steps: seq<Step>, fd: nat)
    ensures Times(Calls(steps), Accepted(fd)) == Yields(steps, fd)
    ensures Times(Calls(steps), Registered(fd)) == if fd == 0 then 0 else Yields(steps, fd)
    ensures Times(Calls(steps), Unregistered(fd)) == Times(Calls(steps), Closed(fd)) == Ends(steps, fd)
  {
    if steps != [] {
      var step, rest := steps[0], steps[1..];
      TimesOfCalls(rest, fd);
      TimesOfStep(step, fd);
      TimesConcat(CallsOf(step), Calls(rest), Accepted(fd));
      TimesConcat(CallsOf(step), Calls(rest), Registered(fd));
      TimesConcat(CallsOf(step), Calls(rest), Unregistered(fd));
      TimesConcat(CallsOf(step), Calls(rest), Closed(fd));
    }
  }

  /** Every descriptor the system yields is accepted, and registered unless it is zero; and it is
      unregistered and closed as often as its stream ends, and for no other reason. */
  lemma RunCalls(count: nat, steps: seq<Step>, fd: nat)
    requires Possible(Built(count), steps)
    ensures Run(Built(count), steps).Some?
    ensures var log := Run(Built(count), steps).value.log;
            && Times(log, Accepted(fd)) == Yields(steps, fd)
            && Times(log, Registered(fd)) == (if fd == 0 then 0 else Yields(steps, fd))
            && Times(log, Unregistered(fd)) == Ends(steps, fd)
            && Times(log, Closed(fd)) == Ends(steps, fd)
  {
    BuiltInv(count);
    RunLog(Built(count), steps);
    assert [] + Calls(steps) == Calls(steps);
    TimesOfCalls(steps, fd);
  }

  // ---------------------------------------------------------------------------------------------
  // Destruction.

  /** The destructor of one connection: it disconnects, and the base class then closes whatever
      descriptor the object still names. */
  function Destroy(s: Server, c: nat): Server
    requires c < |s.conns|
  {
    var t := Disconnect(s, c);
    t.(log := t.log + [Closed(t.conns[c].fd)])
  }

  predicate Known(s: Server, ids: seq<nat>) {
    forall k :: 0 <= k < |ids| ==> ids[k] < |s.conns|
  }

  function DestroyAll(s: Server, ids: seq<nat>): (t: Server)
    requires Known(s, ids)
    ensures |t.conns| == |s.conns|
    decreases |ids|
  {
    if ids == [] then s else Destroy(DestroyAll(s, ids[..|ids| - 1]), ids[|ids| - 1])
  }

  /** Connections are destroyed in the order given. */
  lemma {:induction false} DestroyedInOrder(s: Server, a: seq<nat>, b: seq<nat>)
    requires Known(s, a + b)
    ensures Known(s, a) && Known(DestroyAll(s, a), b)
    ensures DestroyAll(s, a + b) == DestroyAll(DestroyAll(s, a), b)
    decreases |b|
  {
    assert forall k :: 0 <= k < |a| ==> (a + b)[k] == a[k];
    assert forall k :: 0 <= k < |b| ==> (a + b)[|a| + k] == b[k];
    if b == [] {
      assert a + b == a;
    } else {
      var rest := b[..|b| - 1];
      assert (a + b)[..|a + b| - 1] == a + rest && (a + b)[|a + b| - 1] == b[|b| - 1];
      DestroyedInOrder(s, a, rest);
    }
  }

  lemma DestroyKeepsFdInv(s: Server, c: nat)
    requires FdInv(s) && c < |s.conns|
    ensures FdInv(Destroy(s, c)) && Destroy(s, c).conns == s.conns[c := Reset(s.conns[c])]
  {
    DisconnectKeepsFdInv(s, c);
    var u := Disconnect(s, c);
    assert u.conns[c].fd == 0;
    forall fd: nat | fd != 0 ensures PhaseOf(u.log + [Closed(0)], fd) == PhaseOf(u.log, fd) {
      PhaseAppend(u.log, Closed(0), fd);
    }
  }

  lemma {:induction false} DestroyAllKeepsFdInv(s: Server, ids: seq<nat>)
    requires FdInv(s) && Known(s, ids)
    ensures var t := DestroyAll(s, ids);
            && FdInv(t)
            && (forall i :: 0 <= i < |s.conns| && t.conns[i].exchange ==> s.conns[i].exchange && i !in ids)
    decreases |ids|
  {
    if ids != [] {
      var rest, c := ids[..|ids| - 1], ids[|ids| - 1];
      var t := DestroyAll(s, rest);
      DestroyAllKeepsFdInv(s, rest);
      DestroyKeepsFdInv(t, c);
      assert ids == rest + [c];
      forall i | 0 <= i < |s.conns| && Destroy(t, c).conns[i].exchange
        ensures s.conns[i].exchange && i !in ids
      {
        assert i != c && t.conns[i].exchange;
      }
    }
  }

  /** A connection that exchanges data has its descriptor registered. */
  predicate Releasable(s: Server, c: nat) {
    c < |s.conns| && (s.conns[c].exchange ==> s.conns[c].fd in s.interest)
  }

  /** What destruction deletes are connections, each fit to be destroyed when its turn comes. */
  lemma DeletedKnown(s: Server)
    requires Inv(s)
    ensures var ids := Pool.Deleted(s.pool);
            && Known(s, ids)
            && (forall k :: 0 <= k < |ids| ==> Releasable(DestroyAll(s, ids[..k]), ids[k]))
  {
    var ids := Pool.Deleted(s.pool);
    assert forall k :: 0 <= k < |ids| ==> ids[k] in s.pool.avail || ids[k] in s.pool.active;
    forall k | 0 <= k < |ids| ensures Releasable(DestroyAll(s, ids[..k]), ids[k]) {
      assert Known(s, ids[..k]);
      DestroyAllKeepsFdInv(s, ids[..k]);
    }
  }

  /** Descriptor ownership over a whole life: at every moment each descriptor is either unused or
      watched, by exactly one connection, and was unregistered before each time it was closed; after
      destruction none is left open. Only the value zero is outside this discipline. */
  lemma DescriptorOwnership(count: nat, steps: seq<Step>, fd: nat)
    requires Possible(Built(count), steps) && fd != 0
    ensures Run(Built(count), steps).Some?
    ensures var s := Run(Built(count), steps).value;
            && PhaseOf(s.log, fd) == (if fd in s.interest then Watched else Idle)
            && Known(s, Pool.Deleted(s.pool))
            && PhaseOf(DestroyAll(s, Pool.Deleted(s.pool)).log, fd) == Idle
  {
    BuiltInv(count);
    RunKeepsInv(Built(count), steps);
    var s := Run(Built(count), steps).value;
    var ids := Pool.Deleted(s.pool);
    DeletedKnown(s);
    DestroyAllKeepsFdInv(s, ids);
    var t := DestroyAll(s, ids);
    assert forall i :: i in s.pool.active ==> i in ids;
    assert forall i :: 0 <= i < |t.conns| ==> !t.conns[i].exchange;
    assert fd !in t.interest;
  }

  function Closings(log: seq<Call>, fd: nat): nat {
    if log == [] then 0 else Closings(log[..|log| - 1], fd) + if log[|log| - 1] == Closed(fd) then 1 else 0
  }

  lemma ClosingsAppend(log: seq<Call>, call: Call, fd: nat)
    ensures Closings(log + [call], fd) == Closings(log, fd) + if call == Closed(fd) then 1 else 0
  {
    assert (log + [call])[..|log|] == log;
  }

  lemma DestroyClosesZero(s: Server, c: nat)
    requires FdInv(s) && c < |s.conns|
    ensures Closings(Destroy(s, c).log, 0) == Closings(s.log, 0) + 1
  {
    var u := Disconnect(s, c);
    ClosingsAppend(u.log, Closed(0), 0);
    if s.conns[c].exchange {
      var fd := s.conns[c].fd;
      ClosingsAppend(s.log, Unregistered(fd), 0);
      ClosingsAppend(s.log + [Unregistered(fd)], Closed(fd), 0);
      assert s.log + [Unregistered(fd)] + [Closed(fd)] == u.log;
    }
  }

  /** Destruction closes the descriptor zero, which no connection owns, once for every connection. */
  lemma {:induction false} DestructionClosesZero(s: Server, ids: seq<nat>)
    requires FdInv(s) && Known(s, ids)
    ensures Closings(DestroyAll(s, ids).log, 0) == Closings(s.log, 0) + |ids|
    decreases |ids|
  {
    if ids != [] {
      var rest := ids[..|ids| - 1];
      DestructionClosesZero(s, rest);
      DestroyAllKeepsFdInv(s, rest);
      DestroyClosesZero(DestroyAll(s, rest), ids[|ids| - 1]);
    }
  }
}
