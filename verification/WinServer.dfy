/** The completion-port server as a transition system over unboundedly many connections.

    Each step is the handling of one completion. An operation posted inside a handler completes
    only after that handler returned, so a handler is one step, with one exception: the handler of a
    disconnect gives its connection back to the pool before it resets it, and in between another
    thread may take the connection from the pool. */
module WinServer {
  import opened Bytes
  import opened WinConnection
  import Pool

  /** What one session received, and what its completed sends delivered. No handler looks at it. */
  datatype Session = Session(received: seq<byte>, delivered: seq<byte>)

  datatype Server = Server(
    pool: Pool.ListPool,
    pending: nat,            // the connection that the outstanding accept will fill
    conns: seq<Conn>,
    sessions: seq<Session>,
    resetting: multiset<nat>, // given back to the pool, each time still to be followed by a reset
    bound: seq<nat>)         // the connections bound to the port, one entry a call

  datatype Step =
    | AcceptDone
    | ReadDone(c: nat, chunk: seq<byte>)
    | WriteDone(c: nat, data: seq<byte>)
    | DisconnectDone(c: nat)
    | ResetDone(c: nat)

  const NEW_SESSION: Session := Session([], [])

  /** Takes a connection from the pool, creating and binding it if need be, and posts the accept. */
  function DoAccept(s: Server): Server {
    var (p, e) := Pool.Obtain(s.pool);
    if s.pool.avail == [] then
      s.(pool := p, pending := e, conns := s.conns + [FRESH],
         sessions := s.sessions + [NEW_SESSION], bound := s.bound + [e])
    else
      s.(pool := p, pending := e)
  }

  /** The constructed server, with `count` connections allocated and bound beforehand. */
  function Built(count: nat): Server {
    Server(Pool.Init(count), 0, seq(count, i => FRESH), seq(count, i => NEW_SESSION), multiset{}, seq(count, i => i))
  }

  /** The server after its first accept was posted. */
  function Boot(count: nat): Server {
    DoAccept(Built(count))
  }

  predicate InFlight(s: Server, c: nat, op: Op) {
    c < |s.conns| == |s.sessions| && WellFormed(s.conns[c]) && op in s.conns[c].inFlight
  }

  /** The completions that may be dequeued. */
  predicate Enabled(s: Server, step: Step) {
    match step
    case AcceptDone => s.pending < |s.conns| == |s.sessions|
    case ReadDone(c, chunk) => InFlight(s, c, Recv) && |chunk| <= MAX_BUF_SIZE
    case WriteDone(c, data) => InFlight(s, c, Send(data))
    case DisconnectDone(c) => InFlight(s, c, Disc)
    case ResetDone(c) => c < |s.conns| && c in s.resetting
  }

  /** A connection is reset only while no peer uses it. */
  predicate Timely(s: Server, step: Step) {
    step.ResetDone? ==> !Live(s, step.c)
  }

  /** An accept is handled only after the connection it fills was reset. */
  predicate Orderly(s: Server, step: Step) {
    step.AcceptDone? ==> s.pending !in s.resetting
  }

  /** A completion of `transferred` bytes for connection `c`, whose operation is over. There is no
      result when an assertion fails or the state has no callback. */
  function Dispatch(s: Server, c: nat, conn: Conn, transferred: nat): Option<Server>
    requires c < |s.conns| && WellFormed(conn)
  {
    if !Dispatchable(conn, transferred) then None
    else
      var t := s.(conns := s.conns[c := Complete(conn, transferred)]);
      if transferred == 0 && conn.state.DisconnectPending? then
        Some(t.(pool := Pool.GiveBack(s.pool, c), resetting := s.resetting + multiset{c}))
      else
        Some(t)
  }

  function Next(s: Server, step: Step): Option<Server>
    requires Enabled(s, step)
  {
    match step
    case AcceptDone =>
      var c := s.pending;
      var t := DoAccept(s);
      Some(t.(conns := t.conns[c := Read(t.conns[c])], sessions := t.sessions[c := NEW_SESSION]))
    case ReadDone(c, chunk) =>
      var was := s.sessions[c];
      Dispatch(s.(sessions := s.sessions[c := was.(received := was.received + chunk)]),
               c, Landed(s.conns[c], chunk), |chunk|)
    case WriteDone(c, data) =>
      var was := s.sessions[c];
      Dispatch(s.(sessions := s.sessions[c := was.(delivered := was.delivered + data)]),
               c, Finished(s.conns[c], Send(data)), |data|)
    case DisconnectDone(c) =>
      Dispatch(s, c, Finished(s.conns[c], Disc), 0)
    case ResetDone(c) =>
      Some(s.(conns := s.conns[c := Reset(s.conns[c])], resetting := s.resetting - multiset{c}))
  }

  /** Every step of the run is enabled where it is taken. */
  predicate Possible(s: Server, steps: seq<Step>)
    decreases |steps|
  {
    steps == [] || (
      && Enabled(s, steps[0])
      && (Next(s, steps[0]).Some? ==> Possible(Next(s, steps[0]).value, steps[1..])))
  }

  function Run(s: Server, steps: seq<Step>): Option<Server>
    requires Possible(s, steps)
    decreases |steps|
  {
    if steps == [] then Some(s)
    else match Next(s, steps[0])
      case None => None
      case Some(t) => Run(t, steps[1..])
  }

  predicate TimelyRun(s: Server, steps: seq<Step>)
    requires Possible(s, steps)
    decreases |steps|
  {
    steps == [] || (
      && Timely(s, steps[0])
      && (Next(s, steps[0]).Some? ==> TimelyRun(Next(s, steps[0]).value, steps[1..])))
  }

  predicate OrderlyRun(s: Server, steps: seq<Step>)
    requires Possible(s, steps)
    decreases |steps|
  {
    steps == [] || (
      && Orderly(s, steps[0])
      && (Next(s, steps[0]).Some? ==> OrderlyRun(Next(s, steps[0]).value, steps[1..])))
  }

  // ---------------------------------------------------------------------------------------------
  // The invariant.

  predicate Matches(state: State, op: Op) {
    match state
    case Initial => false
    case ReadPending => op.Recv?
    case WritePending => op.Send? && |op.data| <= MAX_BUF_SIZE
    case DisconnectPending => op.Disc?
  }

  /** Exactly one operation is outstanding, the one the state names. */
  predicate OneOutstanding(c: Conn) {
    |c.inFlight| == 1 && forall op :: op in c.inFlight ==> Matches(c.state, op)
  }

  /** In use by a peer, as opposed to waiting for one. */
  predicate Live(s: Server, i: nat) {
    i in s.pool.active && i != s.pending
  }

  predicate Serving(s: Server, i: nat)
    requires i < |s.conns|
  {
    WellFormed(s.conns[i]) && OneOutstanding(s.conns[i])
  }

  /** Nothing is outstanding, and the state is the initial one, at the latest once it was reset. */
  predicate Resting(s: Server, i: nat)
    requires i < |s.conns|
  {
    && WellFormed(s.conns[i])
    && s.conns[i].inFlight == multiset{}
    && (s.conns[i].state.Initial? || (s.conns[i].state.DisconnectPending? && i in s.resetting))
  }

  predicate ConnInv(s: Server, i: nat)
    requires i < |s.conns|
  {
    if Live(s, i) then Serving(s, i) else Resting(s, i)
  }

  predicate Inv(s: Server) {
    && Pool.Inv(s.pool)
    && s.pending in s.pool.active
    && |s.conns| == |s.sessions| == s.pool.created
    && s.bound == seq(s.pool.created, i => i)
    && (forall i :: i in s.resetting ==> i < s.pool.created)
    && (forall i :: 0 <= i < |s.conns| ==> ConnInv(s, i))
  }

  lemma OnlyOne(ops: multiset<Op>, op: Op)
    requires |ops| == 1 && op in ops
    ensures ops == multiset{op}
  {
    assert |ops - multiset{op}| == 0;
    assert ops == (ops - multiset{op}) + multiset{op};
  }

  lemma DoAcceptKeepsInv(s: Server)
    requires Pool.Inv(s.pool)
    requires |s.conns| == |s.sessions| == s.pool.created
    requires s.bound == seq(s.pool.created, i => i)
    requires forall i :: i in s.resetting ==> i < s.pool.created
    requires forall i :: 0 <= i < |s.conns| ==>
               if i in s.pool.active then Serving(s, i) else Resting(s, i)
    ensures Inv(DoAccept(s))
  {
    var t := DoAccept(s);
    Pool.GetKeepsInv(s.pool);
    assert t.pool.active == s.pool.active + [t.pending];
    assert seq(t.pool.created, i => i) == if s.pool.avail == [] then s.bound + [t.pending] else s.bound;
    forall i | 0 <= i < |t.conns| ensures ConnInv(t, i) {
      assert i in t.pool.active <==> i in s.pool.active || i == t.pending;
    }
  }

  lemma BootInv(count: nat)
    ensures Inv(Boot(count))
  {
    Pool.InitInv(count);
    DoAcceptKeepsInv(Built(count));
  }

  /** Handling an accept keeps the invariant, whether or not the connection it fills was reset. */
  lemma AcceptKeepsInv(s: Server)
    requires Inv(s)
    ensures Inv(Next(s, AcceptDone).value)
  {
    var c := s.pending;
    assert ConnInv(s, c);
    var before := s.(conns := s.conns[c := Read(s.conns[c])], sessions := s.sessions[c := NEW_SESSION]);
    assert DoAccept(before) == Next(s, AcceptDone).value;
    forall i | 0 <= i < |s.conns|
      ensures if i in s.pool.active then Serving(before, i) else Resting(before, i)
    {
      assert ConnInv(s, i);
    }
    DoAcceptKeepsInv(before);
  }

  /** The peer accepted gets a new session on the connection that waited for it, whose buffers are as
      they were; every other connection and session stays. */
  lemma AcceptedReads(s: Server)
    requires Inv(s)
    ensures var t, c := Next(s, AcceptDone).value, s.pending;
            && c < |s.conns| && t.resetting == s.resetting
            && t.conns[c] == Conn(ReadPending, s.conns[c].readBuf, s.conns[c].writeBuf, multiset{Recv})
            && t.sessions[c] == Session([], [])
            && (forall i :: 0 <= i < |t.conns| && i != c ==>
                  && t.conns[i] == (if i < |s.conns| then s.conns[i] else FRESH)
                  && t.sessions[i] == if i < |s.conns| then s.sessions[i] else Session([], []))
  {
    AcceptKeepsInv(s);
    assert ConnInv(s, s.pending);
    assert multiset{} + multiset{Recv} == multiset{Recv};
  }

  /** The connection that waited for a peer has one, and another one waits. */
  lemma AcceptedIsLive(s: Server)
    requires Inv(s)
    ensures var t := Next(s, AcceptDone).value;
            && t.pending != s.pending
            && forall c :: Live(t, c) <==> Live(s, c) || c == s.pending
  {
    var t := Next(s, AcceptDone).value;
    Pool.GetKeepsInv(s.pool);
    assert t.pool.active == s.pool.active + [t.pending];
  }

  /** A completion finds its callback. Unless it ends a disconnect, another operation is outstanding
      afterwards, the one the new state names. */
  lemma CompletionShape(c: Conn, op: Op, chunk: seq<byte>)
    requires WellFormed(c) && c.inFlight == multiset{op} && Matches(c.state, op)
    requires op.Recv? ==> |chunk| <= MAX_BUF_SIZE
    ensures var landed := After(c, op, chunk);
            var n := Transferred(op, chunk);
            && WellFormed(landed) && Dispatchable(landed, n)
            && WellFormed(Complete(landed, n))
            && (if op.Disc? then Complete(landed, n) == landed && landed.inFlight == multiset{}
                else OneOutstanding(Complete(landed, n)))
  {
    var d := Complete(After(c, op, chunk), Transferred(op, chunk));
    assert !op.Disc? ==> |d.inFlight| == 1;
  }

  /** The connection once the operation is over, before its completion is handled. */
  function After(c: Conn, op: Op, chunk: seq<byte>): Conn
    requires op.Recv? ==> |chunk| <= |c.readBuf|
  {
    if op.Recv? then Landed(c, chunk) else Finished(c, op)
  }

  function Transferred(op: Op, chunk: seq<byte>): nat {
    match op
    case Recv => |chunk|
    case Send(data) => |data|
    case Disc => 0
  }

  predicate IsCompletion(step: Step) {
    step.ReadDone? || step.WriteDone? || step.DisconnectDone?
  }

  function OpOf(step: Step): Op
    requires IsCompletion(step)
  {
    match step
    case ReadDone(_, _) => Recv
    case WriteDone(_, data) => Send(data)
    case DisconnectDone(_) => Disc
  }

  function ChunkOf(step: Step): seq<byte> {
    if step.ReadDone? then step.chunk else []
  }

  /** A completion handled belongs to a connection in use, whose one operation it ends. */
  lemma CompletionIsServing(s: Server, step: Step)
    requires Inv(s) && Enabled(s, step) && IsCompletion(step)
    ensures step.c < |s.conns| == |s.sessions| && Live(s, step.c) && Serving(s, step.c)
    ensures s.conns[step.c].inFlight == multiset{OpOf(step)} && Matches(s.conns[step.c].state, OpOf(step))
    ensures step.ReadDone? ==> |step.chunk| <= MAX_BUF_SIZE
  {
    assert InFlight(s, step.c, OpOf(step));
    assert ConnInv(s, step.c);
    OnlyOne(s.conns[step.c].inFlight, OpOf(step));
  }

  /** A completion changes its own connection and session only. */
  lemma CompletionResult(s: Server, step: Step)
    requires Inv(s) && Enabled(s, step) && IsCompletion(step)
    ensures step.c < |s.conns| == |s.sessions| && Live(s, step.c) && Serving(s, step.c)
    ensures s.conns[step.c].inFlight == multiset{OpOf(step)} && Matches(s.conns[step.c].state, OpOf(step))
    ensures step.ReadDone? ==> |step.chunk| <= MAX_BUF_SIZE
    ensures var landed := After(s.conns[step.c], OpOf(step), ChunkOf(step));
            var n := Transferred(OpOf(step), ChunkOf(step));
            && WellFormed(landed) && Dispatchable(landed, n) && Next(s, step).Some?
            && Next(s, step).value.conns == s.conns[step.c := Complete(landed, n)]
            && Next(s, step).value.sessions
               == s.sessions[step.c := Logged(s.sessions[step.c], OpOf(step), ChunkOf(step))]
  {
    CompletionIsServing(s, step);
    CompletionShape(s.conns[step.c], OpOf(step), ChunkOf(step));
  }

  /** Only the end of a disconnect touches the pool. */
  lemma CompletionPool(s: Server, step: Step)
    requires Inv(s) && Enabled(s, step) && IsCompletion(step)
    ensures Next(s, step).Some? && Live(s, step.c)
    ensures var t := Next(s, step).value;
            && t.pending == s.pending
            && t.pool == (if step.DisconnectDone? then Pool.GiveBack(s.pool, step.c) else s.pool)
            && t.resetting == if step.DisconnectDone? then s.resetting + multiset{step.c} else s.resetting
  {
    CompletionIsServing(s, step);
    CompletionShape(s.conns[step.c], OpOf(step), ChunkOf(step));
  }

  lemma CompletionKeepsInv(s: Server, step: Step)
    requires Inv(s) && Enabled(s, step) && IsCompletion(step)
    ensures Next(s, step).Some? && Inv(Next(s, step).value)
  {
    var c := step.c;
    CompletionResult(s, step);
    CompletionShape(s.conns[c], OpOf(step), ChunkOf(step));
    Pool.ReleaseKeepsInv(s.pool, c);
    var t := Next(s, step).value;
    forall i | 0 <= i < |t.conns| ensures ConnInv(t, i) {
      assert ConnInv(s, i);
      if step.DisconnectDone? {
        assert i in t.pool.active <==> i in s.pool.active && i != c;
      }
    }
  }

  /** A reset keeps the invariant exactly when it is not late: a peer that uses the connection by then
      has an operation outstanding, which the initial state does not name. */
  lemma ResetKeepsInv(s: Server, c: nat)
    requires Inv(s) && Enabled(s, ResetDone(c))
    ensures Inv(Next(s, ResetDone(c)).value) <==> !Live(s, c)
  {
    var t := Next(s, ResetDone(c)).value;
    assert ConnInv(s, c);
    if Live(s, c) {
      var op :| op in s.conns[c].inFlight;
      assert Live(t, c) && op in t.conns[c].inFlight && !Matches(t.conns[c].state, op);
      assert !ConnInv(t, c);
    } else {
      forall i | 0 <= i < |t.conns| ensures ConnInv(t, i) {
        assert ConnInv(s, i);
      }
    }
  }

  /** No completion fires an assertion or misses its callback, and a step keeps the invariant exactly
      when it is no late reset. */
  lemma StepKeepsInv(s: Server, step: Step)
    requires Inv(s) && Enabled(s, step)
    ensures Next(s, step).Some?
    ensures Inv(Next(s, step).value) <==> Timely(s, step)
  {
    match step {
      case AcceptDone => AcceptKeepsInv(s);
      case ResetDone(c) => ResetKeepsInv(s, c);
      case _ => CompletionKeepsInv(s, step);
    }
  }

  lemma {:induction false} RunKeepsInv(s: Server, steps: seq<Step>)
    requires Inv(s) && Possible(s, steps) && TimelyRun(s, steps)
    ensures Run(s, steps).Some? && Inv(Run(s, steps).value)
    decreases |steps|
  {
    if steps != [] {
      StepKeepsInv(s, steps[0]);
      RunKeepsInv(Next(s, steps[0]).value, steps[1..]);
    }
  }

  /** No assertion fires on the way, and the invariant holds in every state of the run. */
  predicate AlwaysSound(s: Server, steps: seq<Step>)
    requires Possible(s, steps)
    decreases |steps|
  {
    && Inv(s)
    && (steps != [] ==> Next(s, steps[0]).Some? && AlwaysSound(Next(s, steps[0]).value, steps[1..]))
  }

  lemma {:induction false} SoundExact(s: Server, steps: seq<Step>)
    requires Inv(s) && Possible(s, steps)
    ensures AlwaysSound(s, steps) <==> TimelyRun(s, steps)
    decreases |steps|
  {
    if steps != [] {
      StepKeepsInv(s, steps[0]);
      var t := Next(s, steps[0]).value;
      if Inv(t) {
        SoundExact(t, steps[1..]);
      }
    }
  }

  /** From the start, for every interleaving: the run is sound throughout exactly when no connection
      is reset while a peer uses it. */
  lemma Reachable(count: nat, steps: seq<Step>)
    requires Possible(Boot(count), steps)
    ensures AlwaysSound(Boot(count), steps) <==> TimelyRun(Boot(count), steps)
  {
    BootInv(count);
    SoundExact(Boot(count), steps);
  }

  /** The steps that may come: an accept at any time, the one completion that the state of a connection
      in use names, with any data a receive may bring, and the resets still due. */
  lemma EnabledExact(s: Server, step: Step)
    requires Inv(s)
    ensures Enabled(s, step) <==>
            match step
            case AcceptDone => true
            case ReadDone(c, chunk) =>
              c < |s.conns| && Live(s, c) && s.conns[c].state.ReadPending? && |chunk| <= MAX_BUF_SIZE
            case WriteDone(c, data) =>
              && c < |s.conns| && Live(s, c) && s.conns[c].state.WritePending?
              && s.conns[c].inFlight == multiset{Send(data)}
            case DisconnectDone(c) =>
              c < |s.conns| && Live(s, c) && s.conns[c].state.DisconnectPending?
            case ResetDone(c) => s.resetting[c] > 0
  {
    if IsCompletion(step) && step.c < |s.conns| {
      assert ConnInv(s, step.c);
      if Live(s, step.c) {
        var op :| op in s.conns[step.c].inFlight;
        OnlyOne(s.conns[step.c].inFlight, op);
      }
    }
  }

  lemma Uncons<T>(s: seq<T>)
    requires s != []
    ensures s == [s[0]] + s[1..] && multiset(s) == multiset{s[0]} + multiset(s[1..])
  {
    assert s == [s[0]] + s[1..];
  }

  lemma StepResets(s: Server, step: Step, c: nat)
    requires Inv(s) && Enabled(s, step)
    ensures Next(s, step).Some?
    ensures Next(s, step).value.resetting[c] + (if step == ResetDone(c) then 1 else 0)
         == s.resetting[c] + if step == DisconnectDone(c) then 1 else 0
  {
    if IsCompletion(step) {
      CompletionPool(s, step);
    }
  }

  lemma {:induction false} ResetsFrom(s: Server, steps: seq<Step>, c: nat)
    requires Inv(s) && Possible(s, steps) && TimelyRun(s, steps)
    ensures Run(s, steps).Some?
    ensures Run(s, steps).value.resetting[c] + multiset(steps)[ResetDone(c)]
         == s.resetting[c] + multiset(steps)[DisconnectDone(c)]
    decreases |steps|
  {
    if steps != [] {
      StepKeepsInv(s, steps[0]);
      StepResets(s, steps[0], c);
      ResetsFrom(Next(s, steps[0]).value, steps[1..], c);
      Uncons(steps);
    }
  }

  /** Every completed disconnect is followed by one reset: those done and those still due are
      as many as the disconnects completed. */
  lemma ResetsDue(count: nat, steps: seq<Step>, c: nat)
    requires Possible(Boot(count), steps) && TimelyRun(Boot(count), steps)
    ensures Run(Boot(count), steps).Some?
    ensures Run(Boot(count), steps).value.resetting[c] + multiset(steps)[ResetDone(c)]
         == multiset(steps)[DisconnectDone(c)]
  {
    BootInv(count);
    ResetsFrom(Boot(count), steps, c);
  }

  /** No peer uses a connection that is still to be reset. */
  predicate LiveAreReset(s: Server) {
    forall c :: Live(s, c) ==> c !in s.resetting
  }

  /** It is enough that no accept is handled in front of the reset of its connection. */
  lemma {:induction false} OrderlyIsTimely(s: Server, steps: seq<Step>)
    requires Inv(s) && LiveAreReset(s) && Possible(s, steps) && OrderlyRun(s, steps)
    ensures TimelyRun(s, steps)
    decreases |steps|
  {
    if steps != [] {
      var step := steps[0];
      assert step.ResetDone? ==> !Live(s, step.c);
      StepKeepsInv(s, step);
      StepKeepsReset(s, step);
      OrderlyIsTimely(Next(s, step).value, steps[1..]);
    }
  }

  lemma CompletionKeepsReset(s: Server, step: Step)
    requires Inv(s) && LiveAreReset(s) && Enabled(s, step) && IsCompletion(step)
    ensures Next(s, step).Some? && LiveAreReset(Next(s, step).value)
  {
    CompletionPool(s, step);
    var t := Next(s, step).value;
    forall c | Live(t, c) ensures c !in t.resetting {
      assert Live(s, c);
    }
  }

  lemma StepKeepsReset(s: Server, step: Step)
    requires Inv(s) && LiveAreReset(s) && Enabled(s, step) && Orderly(s, step)
    ensures Next(s, step).Some? && LiveAreReset(Next(s, step).value)
  {
    match step {
      case AcceptDone =>
        var t := Next(s, AcceptDone).value;
        AcceptedIsLive(s);
        assert t.resetting == s.resetting;
      case ResetDone(c) =>
      case _ =>
        CompletionKeepsReset(s, step);
    }
  }

  // ---------------------------------------------------------------------------------------------
  // Runs that are not timely.

  /** A late reset makes the completion outstanding at that time fail, exactly when it carries bytes;
      otherwise the connection disconnects, be it once more. */
  lemma LateResetFails(s: Server, step: Step)
    requires Inv(s) && IsCompletion(step) && Enabled(s, step) && step.c in s.resetting
    ensures var steps := [ResetDone(step.c), step];
            && Possible(s, steps) && !TimelyRun(s, steps)
            && (Run(s, steps).None? <==> Transferred(OpOf(step), ChunkOf(step)) > 0)
            && (Run(s, steps).Some? ==>
                  var d := Run(s, steps).value.conns;
                  |d| == |s.conns| && d[step.c].state.DisconnectPending? && d[step.c].inFlight == multiset{Disc})
  {
    CompletionIsServing(s, step);
    CompletedWhenInitial(Next(s, ResetDone(step.c)).value, step);
    RunTwo(s, ResetDone(step.c), step);
  }

  lemma CompletedWhenInitial(t: Server, step: Step)
    requires IsCompletion(step) && Enabled(t, step)
    requires t.conns[step.c].state.Initial? && t.conns[step.c].inFlight == multiset{OpOf(step)}
    ensures Next(t, step).None? <==> Transferred(OpOf(step), ChunkOf(step)) > 0
    ensures Next(t, step).Some? ==>
              var d := Next(t, step).value.conns;
              |d| == |t.conns| && d[step.c].state.DisconnectPending? && d[step.c].inFlight == multiset{Disc}
  {
    assert multiset{OpOf(step)} - multiset{OpOf(step)} + multiset{Disc} == multiset{Disc};
  }

  /** The completed disconnect and its reset, with nobody in between. */
  lemma DisconnectAndReset(s: Server, c: nat)
    requires Inv(s) && Enabled(s, DisconnectDone(c))
    ensures Possible(s, [DisconnectDone(c), ResetDone(c)]) && Run(s, [DisconnectDone(c), ResetDone(c)]).Some?
    ensures var t := Run(s, [DisconnectDone(c), ResetDone(c)]).value;
            && c < |s.conns| && Inv(t) && s.conns[c].inFlight == multiset{Disc} && s.conns[c].state.DisconnectPending?
            && t.conns == s.conns[c := FRESH.(readBuf := s.conns[c].readBuf, writeBuf := s.conns[c].writeBuf)]
            && t.pool == Pool.GiveBack(s.pool, c) && t.resetting == s.resetting && t.bound == s.bound
            && t.pending == s.pending
  {
    CompletionResult(s, DisconnectDone(c));
    CompletionPool(s, DisconnectDone(c));
    ConnectionReleased(s, c);
    var t := Next(s, DisconnectDone(c)).value;
    ResetKeepsInv(t, c);
    RunTwo(s, DisconnectDone(c), ResetDone(c));
    assert multiset{Disc} - multiset{Disc} == multiset{};
    assert s.resetting + multiset{c} - multiset{c} == s.resetting;
  }

  /** `n` peers are accepted in a row. */
  function Accepts(n: nat): seq<Step> {
    seq(n, i => AcceptDone)
  }

  lemma {:induction false} AcceptsResult(s: Server, n: nat)
    requires Inv(s) && n <= |s.pool.avail|
    ensures Possible(s, Accepts(n)) && Run(s, Accepts(n)).Some?
    ensures var t := Run(s, Accepts(n)).value;
            && Inv(t) && t.pool.avail == s.pool.avail[n..] && t.resetting == s.resetting
            && t.pending == if n == 0 then s.pending else s.pool.avail[n - 1]
    decreases n
  {
    if n > 0 {
      var t := Next(s, AcceptDone).value;
      AcceptKeepsInv(s);
      AcceptsResult(t, n - 1);
      assert Accepts(n)[1..] == Accepts(n - 1);
    }
  }

  lemma RunStep(s: Server, step: Step, rest: seq<Step>)
    requires Enabled(s, step) && Next(s, step).Some? && Possible(Next(s, step).value, rest)
    ensures Possible(s, [step] + rest) && Run(s, [step] + rest) == Run(Next(s, step).value, rest)
  {
    assert ([step] + rest)[1..] == rest;
  }

  lemma ConsConcat<T>(a: seq<T>, b: seq<T>)
    requires a != []
    ensures a + b == [a[0]] + (a[1..] + b)
  {}

  lemma {:induction false} RunConcat(s: Server, a: seq<Step>, t: Server, b: seq<Step>)
    requires Possible(s, a) && Run(s, a) == Some(t) && Possible(t, b)
    ensures Possible(s, a + b) && Run(s, a + b) == Run(t, b)
    decreases |a|
  {
    if a == [] {
      assert a + b == b;
    } else {
      ConsConcat(a, b);
      RunConcat(Next(s, a[0]).value, a[1..], t, b);
      RunStep(s, a[0], a[1..] + b);
    }
  }

  lemma RunOne(s: Server, step: Step)
    requires Enabled(s, step)
    ensures Possible(s, [step]) && Run(s, [step]) == Next(s, step)
  {
    assert [step][1..] == [];
    assert Next(s, step).Some? ==> Possible(Next(s, step).value, []);
  }

  /** The peer leaves, and its connection is given back. */
  function Leaving(c: nat): seq<Step> {
    [ReadDone(c, []), DisconnectDone(c)]
  }

  lemma PeerGone(s: Server, c: nat)
    requires Inv(s) && c < |s.conns| && Live(s, c) && s.conns[c].state.ReadPending?
    ensures Enabled(s, ReadDone(c, [])) && Next(s, ReadDone(c, [])).Some?
    ensures var t := Next(s, ReadDone(c, [])).value;
            && Inv(t) && Enabled(t, DisconnectDone(c)) && |t.conns| == |s.conns|
            && t.pool == s.pool && t.pending == s.pending && t.resetting == s.resetting
  {
    var first := ReadDone(c, []);
    EnabledExact(s, first);
    CompletionKeepsInv(s, first);
    CompletionResult(s, first);
    CompletionPool(s, first);
    EnabledExact(Next(s, first).value, DisconnectDone(c));
  }

  lemma ConnectionReleased(t: Server, c: nat)
    requires Inv(t) && Enabled(t, DisconnectDone(c))
    ensures Next(t, DisconnectDone(c)).Some?
    ensures var u := Next(t, DisconnectDone(c)).value;
            && Inv(u) && |u.conns| == |t.conns| && u.pool.avail == t.pool.avail + [c] && !Live(u, c)
            && u.pending == t.pending && u.resetting == t.resetting + multiset{c}
  {
    CompletionKeepsInv(t, DisconnectDone(c));
    CompletionResult(t, DisconnectDone(c));
    CompletionPool(t, DisconnectDone(c));
  }

  lemma RunTwo(s: Server, first: Step, second: Step)
    requires Enabled(s, first) && Next(s, first).Some? && Enabled(Next(s, first).value, second)
    ensures Possible(s, [first, second]) && Run(s, [first, second]) == Next(Next(s, first).value, second)
  {
    var t := Next(s, first).value;
    RunOne(t, second);
    RunStep(s, first, [second]);
    assert [first] + [second] == [first, second];
  }

  lemma LeavingResult(s: Server, c: nat)
    requires Inv(s) && c < |s.conns| && Live(s, c) && s.conns[c].state.ReadPending?
    ensures Possible(s, Leaving(c)) && Run(s, Leaving(c)).Some?
    ensures var t := Run(s, Leaving(c)).value;
            && Inv(t) && |t.conns| == |s.conns| && t.pool.avail == s.pool.avail + [c] && !Live(t, c)
            && t.pending == s.pending && t.resetting == s.resetting + multiset{c}
  {
    PeerGone(s, c);
    ConnectionReleased(Next(s, ReadDone(c, [])).value, c);
    RunTwo(s, ReadDone(c, []), DisconnectDone(c));
  }

  /** A peer leaves, as many others arrive as connections are available then, and the acceptor holds
      the connection of the first one, not yet reset. */
  lemma ReusedBeforeReset(s: Server, c: nat)
    requires Inv(s) && c < |s.conns| && Live(s, c) && s.conns[c].state.ReadPending?
    ensures var steps := Leaving(c) + Accepts(|s.pool.avail| + 1);
            && Possible(s, steps) && Run(s, steps).Some?
            && Inv(Run(s, steps).value) && Run(s, steps).value.pending == c && c in Run(s, steps).value.resetting
  {
    LeavingResult(s, c);
    var t := Run(s, Leaving(c)).value;
    var n := |s.pool.avail| + 1;
    AcceptsResult(t, n);
    RunConcat(s, Leaving(c), t, Accepts(n));
  }

  /** The next peer gets that connection, the reset comes late, and the peer's first data fails. */
  lemma LateResetOfPending(s: Server, chunk: seq<byte>)
    requires Inv(s) && s.pending in s.resetting && 0 < |chunk| <= MAX_BUF_SIZE
    ensures var steps := [AcceptDone] + [ResetDone(s.pending), ReadDone(s.pending, chunk)];
            Possible(s, steps) && Run(s, steps).None?
  {
    var c, t := s.pending, Next(s, AcceptDone).value;
    assert ConnInv(s, c);
    AcceptKeepsInv(s);
    assert t.conns[c] == Read(s.conns[c]);
    LateResetFails(t, ReadDone(c, chunk));
    RunOne(s, AcceptDone);
    RunConcat(s, [AcceptDone], t, [ResetDone(c), ReadDone(c, chunk)]);
  }

  /** A whole run that ends in a failed assertion, for every number of connections created at the start. */
  function FailingRun(count: nat, chunk: seq<byte>): seq<Step> {
    [AcceptDone] + ((Leaving(0) + Accepts(if count < 2 then 1 else count - 1))
                    + ([AcceptDone] + [ResetDone(0), ReadDone(0, chunk)]))
  }

  lemma FailingRunFails(count: nat, chunk: seq<byte>)
    requires 0 < |chunk| <= MAX_BUF_SIZE
    ensures Possible(Boot(count), FailingRun(count, chunk)) && Run(Boot(count), FailingRun(count, chunk)).None?
  {
    FirstPeer(count);
    FailsOnceReused(Boot(count), Next(Boot(count), AcceptDone).value, chunk);
  }

  lemma FailsOnceReused(s: Server, t: Server, chunk: seq<byte>)
    requires Enabled(s, AcceptDone) && Next(s, AcceptDone) == Some(t)
    requires Inv(t) && 0 < |t.conns| && Live(t, 0) && t.conns[0].state.ReadPending? && 0 < |chunk| <= MAX_BUF_SIZE
    ensures var steps := [AcceptDone] + ((Leaving(0) + Accepts(|t.pool.avail| + 1))
                                         + ([AcceptDone] + [ResetDone(0), ReadDone(0, chunk)]));
            Possible(s, steps) && Run(s, steps).None?
  {
    var reuse, late := Leaving(0) + Accepts(|t.pool.avail| + 1), [AcceptDone] + [ResetDone(0), ReadDone(0, chunk)];
    ReusedBeforeReset(t, 0);
    var u := Run(t, reuse).value;
    LateResetOfPending(u, chunk);
    RunConcat(t, reuse, u, late);
    RunStep(s, AcceptDone, reuse + late);
  }

  /** The first connection gets the first peer. */
  lemma FirstPeer(count: nat)
    ensures Enabled(Boot(count), AcceptDone)
    ensures var t := Next(Boot(count), AcceptDone).value;
            && Inv(t) && 0 < |t.conns| && Live(t, 0) && t.conns[0].state.ReadPending?
            && |t.pool.avail| == if count < 2 then 0 else count - 2
  {
    BootInv(count);
    AcceptKeepsInv(Boot(count));
    AcceptedReads(Boot(count));
    AcceptedIsLive(Boot(count));
  }

  // ---------------------------------------------------------------------------------------------
  // Buffers and echo.

  /** The bytes of the outstanding send, if any. */
  predicate Owed(c: Conn, owed: seq<byte>) {
    if c.state.WritePending? then c.inFlight == multiset{Send(owed)} else owed == []
  }

  /** The write buffer is clean; the read buffer is clean, except that while a send is outstanding it
      holds exactly the text being sent. */
  ghost predicate CleanConn(c: Conn) {
    && AllZero(c.writeBuf)
    && (!c.state.WritePending? ==> AllZero(c.readBuf))
    && (forall data :: c.state.WritePending? && Send(data) in c.inFlight ==>
          |data| <= MAX_BUF_SIZE && NulFree(data) && c.readBuf == Overlay(Zeros(MAX_BUF_SIZE), data))
  }

  /** All that was received has been delivered or is being sent, in order. */
  ghost predicate Echoed(c: Conn, session: Session) {
    && (!c.state.WritePending? ==> session.received == session.delivered)
    && (forall data :: c.state.WritePending? && Send(data) in c.inFlight ==>
          session.received == session.delivered + data)
  }

  ghost predicate CleanInv(s: Server) {
    && Inv(s)
    && (forall i :: 0 <= i < |s.conns| ==> CleanConn(s.conns[i]))
  }

  ghost predicate EchoInv(s: Server) {
    && CleanInv(s)
    && (forall i :: 0 <= i < |s.conns| ==> Echoed(s.conns[i], s.sessions[i]))
  }

  predicate ZeroTailedStep(step: Step) {
    step.ReadDone? ==> ZeroTailed(step.chunk)
  }

  predicate ZeroTailedRun(steps: seq<Step>) {
    forall k :: 0 <= k < |steps| ==> ZeroTailedStep(steps[k])
  }

  predicate NulFreeStep(step: Step) {
    step.ReadDone? ==> NulFree(step.chunk)
  }

  predicate NulFreeRun(steps: seq<Step>) {
    forall k :: 0 <= k < |steps| ==> NulFreeStep(steps[k])
  }

  lemma BootClean(count: nat)
    ensures EchoInv(Boot(count))
  {
    BootInv(count);
  }

  function Logged(session: Session, op: Op, chunk: seq<byte>): Session {
    match op
    case Recv => session.(received := session.received + chunk)
    case Send(data) => session.(delivered := session.delivered + data)
    case Disc => session
  }

  lemma ReadBuffers(c: Conn, chunk: seq<byte>)
    requires Reading(c) && CleanConn(c) && 0 < |chunk| <= MAX_BUF_SIZE
    ensures var d := WinConnection.ReadDone(c, chunk);
            && d.state.WritePending? && d.inFlight == multiset{Send(Scan(chunk))}
            && d.readBuf == Overlay(c.readBuf, chunk) && AllZero(d.writeBuf)
  {
    ExchangeShape(c, chunk);
    ReplyIsChunk(c, chunk);
    WriteBufClean(c, chunk);
  }

  /** What a chunk leaves behind in its connection: clean buffers exactly when the chunk holds nothing
      behind its first zero. */
  lemma ReadKeepsClean(c: Conn, chunk: seq<byte>)
    requires Reading(c) && CleanConn(c) && |chunk| <= MAX_BUF_SIZE
    ensures CleanConn(WinConnection.ReadDone(c, chunk)) <==> ZeroTailed(chunk)
  {
    if chunk == [] {
      PeerLeaves(c);
    } else {
      var d := WinConnection.ReadDone(c, chunk);
      ReadBuffers(c, chunk);
      AllZeroIsZeros(c.readBuf);
      ScanPadded(MAX_BUF_SIZE, chunk);
      ScanThenPad(d.readBuf);
      ZeroTailedPadded(MAX_BUF_SIZE, chunk);
      assert Send(Scan(chunk)) in d.inFlight;
      assert CleanConn(d) <==> d.readBuf == Overlay(Zeros(MAX_BUF_SIZE), Scan(chunk));
    }
  }

  /** The completion of a receive clears the write buffer, that of a send clears the read buffer:
      between them, both end up clean. */
  lemma CompletionKeepsClean(c: Conn, op: Op, chunk: seq<byte>)
    requires WellFormed(c) && c.inFlight == multiset{op} && Matches(c.state, op)
    requires CleanConn(c) && (op.Recv? ==> |chunk| <= MAX_BUF_SIZE)
    ensures var landed := After(c, op, chunk);
            var n := Transferred(op, chunk);
            && Dispatchable(landed, n)
            && (CleanConn(Complete(landed, n)) <==> (op.Recv? ==> ZeroTailed(chunk)))
  {
    if op.Recv? {
      ReadKeepsClean(c, chunk);
    } else if op.Send? {
      assert c.readBuf == Overlay(Zeros(MAX_BUF_SIZE), op.data);
    }
  }

  lemma CompletionEchoes(c: Conn, session: Session, op: Op, chunk: seq<byte>)
    requires WellFormed(c) && c.inFlight == multiset{op} && Matches(c.state, op)
    requires CleanConn(c) && Echoed(c, session)
    requires op.Recv? ==> |chunk| <= MAX_BUF_SIZE && NulFree(chunk)
    ensures var landed := After(c, op, chunk);
            var n := Transferred(op, chunk);
            && Dispatchable(landed, n)
            && Echoed(Complete(landed, n), Logged(session, op, chunk))
  {
    if op.Recv? && chunk != [] {
      ExchangeShape(c, chunk);
      ReplyIsChunk(c, chunk);
    }
  }

  lemma AcceptKeepsClean(s: Server)
    requires CleanInv(s)
    ensures CleanInv(Next(s, AcceptDone).value)
    ensures EchoInv(s) ==> EchoInv(Next(s, AcceptDone).value)
  {
    AcceptKeepsInv(s);
    var t := Next(s, AcceptDone).value;
    assert ConnInv(s, s.pending);
    forall i | 0 <= i < |t.conns|
      ensures CleanConn(t.conns[i]) && (EchoInv(s) ==> Echoed(t.conns[i], t.sessions[i]))
    {
      if i == s.pending {
        assert t.conns[i] == Read(s.conns[i]) && CleanConn(s.conns[i]);
      } else if i < |s.conns| {
        assert CleanConn(s.conns[i]) && (EchoInv(s) ==> Echoed(s.conns[i], s.sessions[i]));
      }
    }
  }

  lemma UpdateKeepsClean(s: Server, t: Server, c: nat)
    requires CleanInv(s) && Inv(t) && c < |s.conns| == |t.conns|
    requires t.conns == s.conns[c := t.conns[c]] && t.sessions == s.sessions[c := t.sessions[c]]
    ensures CleanInv(t) <==> CleanConn(t.conns[c])
    ensures EchoInv(s) && CleanInv(t) && Echoed(t.conns[c], t.sessions[c]) ==> EchoInv(t)
  {
    forall i | 0 <= i < |t.conns| && i != c
      ensures CleanConn(t.conns[i]) && (EchoInv(s) ==> Echoed(t.conns[i], t.sessions[i]))
    {
      assert CleanConn(s.conns[i]) && (EchoInv(s) ==> Echoed(s.conns[i], s.sessions[i]));
    }
  }

  lemma CompletionStepKeepsClean(s: Server, step: Step)
    requires CleanInv(s) && Enabled(s, step) && IsCompletion(step)
    ensures Next(s, step).Some? && (CleanInv(Next(s, step).value) <==> ZeroTailedStep(step))
    ensures EchoInv(s) && NulFreeStep(step) ==> EchoInv(Next(s, step).value)
  {
    var c := step.c;
    CompletionKeepsInv(s, step);
    CompletionResult(s, step);
    var t := Next(s, step).value;
    var op, chunk := OpOf(step), ChunkOf(step);
    assert CleanConn(s.conns[c]);
    CompletionKeepsClean(s.conns[c], op, chunk);
    assert t.conns[c] == Complete(After(s.conns[c], op, chunk), Transferred(op, chunk));
    UpdateKeepsClean(s, t, c);
    if EchoInv(s) && NulFreeStep(step) {
      assert Echoed(s.conns[c], s.sessions[c]);
      CompletionEchoes(s.conns[c], s.sessions[c], op, chunk);
    }
  }

  lemma ResetKeepsClean(s: Server, c: nat)
    requires CleanInv(s) && Enabled(s, ResetDone(c)) && !Live(s, c)
    ensures CleanInv(Next(s, ResetDone(c)).value)
    ensures EchoInv(s) ==> EchoInv(Next(s, ResetDone(c)).value)
  {
    var t := Next(s, ResetDone(c)).value;
    ResetKeepsInv(s, c);
    assert ConnInv(s, c);
    assert CleanConn(s.conns[c]) && (EchoInv(s) ==> Echoed(s.conns[c], s.sessions[c]));
    assert t.conns[c] == Reset(s.conns[c]);
    UpdateKeepsClean(s, t, c);
  }

  lemma StepKeepsClean(s: Server, step: Step)
    requires CleanInv(s) && Enabled(s, step) && Timely(s, step)
    ensures Next(s, step).Some? && (CleanInv(Next(s, step).value) <==> ZeroTailedStep(step))
    ensures EchoInv(s) && NulFreeStep(step) ==> EchoInv(Next(s, step).value)
  {
    match step {
      case AcceptDone => AcceptKeepsClean(s);
      case ResetDone(c) => ResetKeepsClean(s, c);
      case _ => CompletionStepKeepsClean(s, step);
    }
  }

  /** The buffer invariant holds in every state of the run. */
  ghost predicate AlwaysClean(s: Server, steps: seq<Step>)
    requires Possible(s, steps)
    decreases |steps|
  {
    && CleanInv(s)
    && (steps != [] ==> Next(s, steps[0]).Some? && AlwaysClean(Next(s, steps[0]).value, steps[1..]))
  }

  lemma ZeroTailedRunTail(steps: seq<Step>)
    requires steps != []
    ensures ZeroTailedRun(steps) <==> ZeroTailedStep(steps[0]) && ZeroTailedRun(steps[1..])
  {
    var rest := steps[1..];
    assert forall k :: 0 <= k < |rest| ==> rest[k] == steps[k + 1];
    assert forall k :: 0 < k < |steps| ==> steps[k] == rest[k - 1];
  }

  /** Cross-clearing, over any timely run of all connections: the buffers are clean at every moment
      exactly when no chunk of the run holds a character behind its first zero. */
  lemma {:induction false} CleanRunExact(s: Server, steps: seq<Step>)
    requires CleanInv(s) && Possible(s, steps) && TimelyRun(s, steps)
    ensures AlwaysClean(s, steps) <==> ZeroTailedRun(steps)
    ensures ZeroTailedRun(steps) ==> Run(s, steps).Some? && CleanInv(Run(s, steps).value)
    decreases |steps|
  {
    if steps != [] {
      StepKeepsClean(s, steps[0]);
      ZeroTailedRunTail(steps);
      if ZeroTailedStep(steps[0]) {
        CleanRunExact(Next(s, steps[0]).value, steps[1..]);
      }
    }
  }

  ghost predicate EchoedExactly(c: Conn, session: Session) {
    exists owed :: Owed(c, owed) && session.received == session.delivered + owed
  }

  /** What every session received is what it delivered followed by what it is sending. */
  ghost predicate Echoes(s: Server) {
    |s.conns| == |s.sessions| && forall i :: 0 <= i < |s.conns| ==> EchoedExactly(s.conns[i], s.sessions[i])
  }

  ghost predicate AlwaysEchoes(s: Server, steps: seq<Step>)
    requires Possible(s, steps)
    decreases |steps|
  {
    && Echoes(s)
    && (steps != [] ==> Next(s, steps[0]).Some? && AlwaysEchoes(Next(s, steps[0]).value, steps[1..]))
  }

  lemma CleanEchoes(s: Server)
    requires EchoInv(s)
    ensures Echoes(s)
  {
    forall i | 0 <= i < |s.conns| ensures EchoedExactly(s.conns[i], s.sessions[i]) {
      var c := s.conns[i];
      assert ConnInv(s, i) && Echoed(c, s.sessions[i]);
      if c.state.WritePending? {
        var op :| op in c.inFlight;
        OnlyOne(c.inFlight, op);
        assert op == Send(op.data) && Owed(c, op.data);
      } else {
        assert Owed(c, []);
        assert s.sessions[i].delivered + [] == s.sessions[i].delivered;
      }
    }
  }

  /** A chunk with a zero is answered by less than it held. */
  lemma ZeroIsNotEchoed(s: Server, step: Step)
    requires EchoInv(s) && Enabled(s, step) && !NulFreeStep(step)
    ensures Next(s, step).Some? ==> !Echoes(Next(s, step).value)
  {
    var c, chunk := step.c, step.chunk;
    CompletionResult(s, step);
    var conn, session := s.conns[c], s.sessions[c];
    assert CleanConn(conn) && Echoed(conn, session);
    ReplyIsChunk(conn, chunk);
    var t := Next(s, step).value;
    assert t.conns[c] == WinConnection.ReadDone(conn, chunk);
    ExchangeShape(conn, chunk);
    assert |t.sessions[c].received| == |session.delivered| + |chunk|;
    forall owed | Owed(t.conns[c], owed) ensures t.sessions[c].received != t.sessions[c].delivered + owed {
      assert Send(owed) in t.conns[c].inFlight;
      assert owed == Scan(chunk);
    }
    assert !EchoedExactly(t.conns[c], t.sessions[c]);
  }

  lemma {:induction false} EchoExactFrom(s: Server, steps: seq<Step>)
    requires EchoInv(s) && Possible(s, steps) && TimelyRun(s, steps)
    ensures AlwaysEchoes(s, steps) <==> NulFreeRun(steps)
    decreases |steps|
  {
    CleanEchoes(s);
    if steps != [] {
      var rest := steps[1..];
      assert NulFreeRun(steps) <==> NulFreeStep(steps[0]) && NulFreeRun(rest) by {
        assert forall k :: 0 <= k < |rest| ==> rest[k] == steps[k + 1];
        assert forall k :: 0 < k < |steps| ==> steps[k] == rest[k - 1];
      }
      if NulFreeStep(steps[0]) {
        StepKeepsClean(s, steps[0]);
        EchoExactFrom(Next(s, steps[0]).value, rest);
      } else {
        ZeroIsNotEchoed(s, steps[0]);
      }
    }
  }

  /** Echo fidelity: over any timely run of all connections, every session is echoed at every moment
      exactly when no chunk of the run holds a zero. */
  lemma EchoFidelity(count: nat, steps: seq<Step>)
    requires Possible(Boot(count), steps) && TimelyRun(Boot(count), steps)
    ensures AlwaysEchoes(Boot(count), steps) <==> NulFreeRun(steps)
  {
    BootClean(count);
    EchoExactFrom(Boot(count), steps);
  }

  /** The bytes that arrived for a connection since it was last accepted, read off the run. */
  function Arrived(s: Server, steps: seq<Step>, c: nat, before: seq<byte>): seq<byte>
    requires Possible(s, steps)
    decreases |steps|
  {
    if steps == [] then before
    else
      var now := match steps[0]
                 case AcceptDone => if s.pending == c then [] else before
                 case ReadDone(d, chunk) => if d == c then before + chunk else before
                 case _ => before;
      match Next(s, steps[0])
      case None => now
      case Some(t) => Arrived(t, steps[1..], c, now)
  }

  /** The bytes whose send completed for a connection since it was last accepted. */
  function Left(s: Server, steps: seq<Step>, c: nat, before: seq<byte>): seq<byte>
    requires Possible(s, steps)
    decreases |steps|
  {
    if steps == [] then before
    else
      var now := match steps[0]
                 case AcceptDone => if s.pending == c then [] else before
                 case WriteDone(d, data) => if d == c then before + data else before
                 case _ => before;
      match Next(s, steps[0])
      case None => now
      case Some(t) => Left(t, steps[1..], c, now)
  }

  function SessionOf(s: Server, c: nat): Session {
    if c < |s.sessions| then s.sessions[c] else NEW_SESSION
  }

  lemma SessionStep(s: Server, step: Step, c: nat)
    requires Inv(s) && Enabled(s, step)
    ensures Next(s, step).Some?
    ensures SessionOf(Next(s, step).value, c)
         == match step
            case AcceptDone => if s.pending == c then NEW_SESSION else SessionOf(s, c)
            case ReadDone(d, chunk) => if d == c then Logged(SessionOf(s, c), Recv, chunk) else SessionOf(s, c)
            case WriteDone(d, data) => if d == c then Logged(SessionOf(s, c), Send(data), []) else SessionOf(s, c)
            case _ => SessionOf(s, c)
  {
    match step {
      case AcceptDone => AcceptedReads(s);
      case ResetDone(_) =>
      case _ => CompletionSession(s, step, c);
    }
  }

  lemma CompletionSession(s: Server, step: Step, c: nat)
    requires Inv(s) && Enabled(s, step) && IsCompletion(step)
    ensures Next(s, step).Some?
    ensures SessionOf(Next(s, step).value, c)
         == if step.c == c then Logged(SessionOf(s, c), OpOf(step), ChunkOf(step)) else SessionOf(s, c)
  {
    CompletionResult(s, step);
  }

  /** The sessions hold what the run says: nothing of other connections, and nothing of earlier uses of
      the same connection. */
  lemma {:induction false} SessionsMatchRun(s: Server, steps: seq<Step>, c: nat)
    requires Inv(s) && Possible(s, steps) && TimelyRun(s, steps)
    ensures Run(s, steps).Some?
    ensures SessionOf(Run(s, steps).value, c)
         == Session(Arrived(s, steps, c, SessionOf(s, c).received), Left(s, steps, c, SessionOf(s, c).delivered))
    decreases |steps|
  {
    if steps != [] {
      StepKeepsInv(s, steps[0]);
      SessionStep(s, steps[0], c);
      SessionsMatchRun(Next(s, steps[0]).value, steps[1..], c);
    }
  }

  // ---------------------------------------------------------------------------------------------
  // What stays in the buffers, for arbitrary data.

  datatype Buffers = Buffers(read: seq<byte>, write: seq<byte>)

  const CLEAN: Buffers := Buffers(Zeros(MAX_BUF_SIZE), Zeros(MAX_BUF_SIZE))

  predicate Sized(b: Buffers) {
    |b.read| == |b.write| == MAX_BUF_SIZE
  }

  /** What a chunk leaves behind, given what it found: its reply is scanned from the read buffer, the
      write buffer is cleared by the length of the chunk, and the read buffer by that of the reply. */
  function Leave(b: Buffers, chunk: seq<byte>): (r: Buffers)
    requires Sized(b) && |chunk| <= MAX_BUF_SIZE
    ensures Sized(r)
  {
    var landed := Overlay(b.read, chunk);
    var reply := Scan(landed);
    Buffers(Clear(landed, |reply|), Clear(Overlay(b.write, reply), |chunk|))
  }

  function Residue(b: Buffers, chunks: seq<seq<byte>>): (r: Buffers)
    requires Sized(b) && Chunks(chunks)
    ensures Sized(r)
    decreases |chunks|
  {
    if chunks == [] then b else Residue(Leave(b, chunks[0]), chunks[1..])
  }

  /** The chunks that arrived for a connection, over all its sessions. */
  function ChunksFor(steps: seq<Step>, c: nat): (chunks: seq<seq<byte>>)
    requires forall k :: 0 <= k < |steps| && steps[k].ReadDone? ==> |steps[k].chunk| <= MAX_BUF_SIZE
    ensures Chunks(chunks)
  {
    if steps == [] then []
    else
      (if steps[0].ReadDone? && steps[0].c == c && steps[0].chunk != [] then [steps[0].chunk] else [])
      + ChunksFor(steps[1..], c)
  }

  /** Position by position: the read buffer is zero as far as the reply was long, the write buffer as far
      as the chunk was; what is behind that stays. */
  lemma LeaveExact(b: Buffers, chunk: seq<byte>, i: nat)
    requires Sized(b) && |chunk| <= MAX_BUF_SIZE && i < MAX_BUF_SIZE
    ensures var landed := chunk + b.read[|chunk|..];
            var reply := Scan(landed);
            && Leave(b, chunk).read[i] == (if i < |reply| then 0 else landed[i])
            && Leave(b, chunk).write[i] == (if i < |chunk| then 0 else if i < |reply| then reply[i] else b.write[i])
  {
    var reply := Scan(chunk + b.read[|chunk|..]);
    ClearExact(chunk + b.read[|chunk|..], |reply|, Leave(b, chunk).read);
    ClearExact(Overlay(b.write, reply), |chunk|, Leave(b, chunk).write);
    OverlayExact(b.write, reply, Overlay(b.write, reply));
  }

  /** The buffers of the connection, as they are once the send outstanding, if any, is over. */
  predicate Holds(c: Conn, b: Buffers) {
    && c.writeBuf == b.write
    && (!c.state.WritePending? ==> c.readBuf == b.read)
    && (c.state.WritePending? ==> forall op :: op in c.inFlight ==>
          op.Send? && |op.data| <= |c.readBuf| && Clear(c.readBuf, |op.data|) == b.read)
  }

  /** A connection that does not exist yet will start with clean buffers. */
  predicate HoldsAt(s: Server, c: nat, b: Buffers) {
    if c < |s.conns| then Holds(s.conns[c], b) else b == CLEAN
  }

  lemma ReadLeaves(c: Conn, b: Buffers, chunk: seq<byte>)
    requires Reading(c) && Holds(c, b) && Sized(b) && |chunk| <= MAX_BUF_SIZE
    ensures Holds(WinConnection.ReadDone(c, chunk), if chunk == [] then b else Leave(b, chunk))
  {
    if chunk == [] {
      PeerLeaves(c);
    } else {
      ExchangeShape(c, chunk);
    }
  }

  lemma CompletionLeaves(c: Conn, op: Op, chunk: seq<byte>, b: Buffers)
    requires WellFormed(c) && c.inFlight == multiset{op} && Matches(c.state, op)
    requires Holds(c, b) && Sized(b) && (if op.Recv? then |chunk| <= MAX_BUF_SIZE else chunk == [])
    ensures var landed := After(c, op, chunk);
            var n := Transferred(op, chunk);
            && Dispatchable(landed, n)
            && Holds(Complete(landed, n), if chunk == [] then b else Leave(b, chunk))
  {
    match op
    case Recv => ReadLeaves(c, b, chunk);
    case Send(data) => assert Clear(c.readBuf, 0) == c.readBuf;
    case Disc =>
  }

  /** What a step makes of the buffers of a connection. */
  function LeftBy(b: Buffers, step: Step, c: nat): (r: Buffers)
    requires Sized(b) && (step.ReadDone? ==> |step.chunk| <= MAX_BUF_SIZE)
    ensures Sized(r)
  {
    if step.ReadDone? && step.c == c && step.chunk != [] then Leave(b, step.chunk) else b
  }

  lemma CompletionStepLeaves(s: Server, step: Step, c: nat, b: Buffers)
    requires Inv(s) && Enabled(s, step) && IsCompletion(step) && HoldsAt(s, c, b) && Sized(b)
    ensures step.ReadDone? ==> |step.chunk| <= MAX_BUF_SIZE
    ensures Next(s, step).Some? && HoldsAt(Next(s, step).value, c, LeftBy(b, step, c))
  {
    CompletionResult(s, step);
    if step.c == c {
      CompletionLeaves(s.conns[c], OpOf(step), ChunkOf(step), b);
    }
  }

  lemma OtherStepLeaves(s: Server, step: Step, c: nat, b: Buffers)
    requires Inv(s) && Enabled(s, step) && Timely(s, step) && !IsCompletion(step) && HoldsAt(s, c, b)
    ensures Next(s, step).Some? && HoldsAt(Next(s, step).value, c, b)
  {
    if c < |s.conns| {
      assert ConnInv(s, c);
    }
  }

  lemma StepLeaves(s: Server, step: Step, c: nat, b: Buffers)
    requires Inv(s) && Enabled(s, step) && Timely(s, step) && HoldsAt(s, c, b) && Sized(b)
    ensures step.ReadDone? ==> |step.chunk| <= MAX_BUF_SIZE
    ensures Next(s, step).Some? && HoldsAt(Next(s, step).value, c, LeftBy(b, step, c))
  {
    if IsCompletion(step) {
      CompletionStepLeaves(s, step, c, b);
    } else {
      OtherStepLeaves(s, step, c, b);
    }
  }

  lemma ResidueStep(b: Buffers, steps: seq<Step>, c: nat)
    requires Sized(b) && steps != []
    requires forall k :: 0 <= k < |steps| && steps[k].ReadDone? ==> |steps[k].chunk| <= MAX_BUF_SIZE
    ensures Residue(b, ChunksFor(steps, c)) == Residue(LeftBy(b, steps[0], c), ChunksFor(steps[1..], c))
  {
    var chunks := ChunksFor(steps[1..], c);
    if LeftBy(b, steps[0], c) != b {
      assert ([steps[0].chunk] + chunks)[1..] == chunks;
    }
    assert [] + chunks == chunks;
  }

  lemma {:induction false} BoundedChunks(s: Server, steps: seq<Step>)
    requires Inv(s) && Possible(s, steps) && TimelyRun(s, steps)
    ensures forall k :: 0 <= k < |steps| && steps[k].ReadDone? ==> |steps[k].chunk| <= MAX_BUF_SIZE
    decreases |steps|
  {
    if steps != [] {
      StepKeepsInv(s, steps[0]);
      BoundedChunks(Next(s, steps[0]).value, steps[1..]);
      assert forall k :: 0 < k < |steps| ==> steps[k] == steps[1..][k - 1];
    }
  }

  /** Whatever the data, sessions and interleaving: what the buffers of a connection hold depends on
      nothing but the chunks that arrived for that connection. */
  lemma {:induction false} RunLeaves(s: Server, steps: seq<Step>, c: nat, b: Buffers)
    requires Inv(s) && Possible(s, steps) && TimelyRun(s, steps) && HoldsAt(s, c, b) && Sized(b)
    ensures Run(s, steps).Some?
    ensures forall k :: 0 <= k < |steps| && steps[k].ReadDone? ==> |steps[k].chunk| <= MAX_BUF_SIZE
    ensures HoldsAt(Run(s, steps).value, c, Residue(b, ChunksFor(steps, c)))
    decreases |steps|
  {
    BoundedChunks(s, steps);
    if steps != [] {
      var step, rest := steps[0], steps[1..];
      StepKeepsInv(s, step);
      StepLeaves(s, step, c, b);
      RunLeaves(Next(s, step).value, rest, c, LeftBy(b, step, c));
      ResidueStep(b, steps, c);
    }
  }

  /** A connection waiting in the pool is indistinguishable from a new one exactly when the chunks it
      ever received leave nothing behind. */
  lemma AvailableIsFresh(count: nat, steps: seq<Step>, i: nat)
    requires Possible(Boot(count), steps) && TimelyRun(Boot(count), steps)
    ensures Run(Boot(count), steps).Some?
    ensures forall k :: 0 <= k < |steps| && steps[k].ReadDone? ==> |steps[k].chunk| <= MAX_BUF_SIZE
    ensures var s := Run(Boot(count), steps).value;
            i in s.pool.avail && i !in s.resetting ==>
              && i < |s.conns|
              && (s.conns[i] == FRESH <==> Residue(CLEAN, ChunksFor(steps, i)) == CLEAN)
  {
    BootInv(count);
    RunKeepsInv(Boot(count), steps);
    assert HoldsAt(Boot(count), i, CLEAN);
    RunLeaves(Boot(count), steps, i, CLEAN);
    FreshWhenClean(Run(Boot(count), steps).value, i, Residue(CLEAN, ChunksFor(steps, i)));
  }

  lemma FreshWhenClean(s: Server, i: nat, b: Buffers)
    requires Inv(s) && HoldsAt(s, i, b)
    ensures i in s.pool.avail && i !in s.resetting ==> i < |s.conns| && (s.conns[i] == FRESH <==> b == CLEAN)
  {
    if i in s.pool.avail && i !in s.resetting {
      assert ConnInv(s, i);
    }
  }

  /** So it is when no chunk holds a character behind its first zero. */
  lemma ZeroTailedAvailableIsFresh(count: nat, steps: seq<Step>, i: nat)
    requires Possible(Boot(count), steps) && TimelyRun(Boot(count), steps) && ZeroTailedRun(steps)
    ensures Run(Boot(count), steps).Some?
    ensures var s := Run(Boot(count), steps).value;
            i in s.pool.avail && i !in s.resetting ==> i < |s.conns| && s.conns[i] == FRESH
  {
    BootClean(count);
    CleanRunExact(Boot(count), steps);
    var s := Run(Boot(count), steps).value;
    if i in s.pool.avail && i !in s.resetting {
      assert ConnInv(s, i) && CleanConn(s.conns[i]);
      AllZeroIsZeros(s.conns[i].readBuf);
      AllZeroIsZeros(s.conns[i].writeBuf);
    }
  }

  // ---------------------------------------------------------------------------------------------
  // One peer, from its arrival to the reuse of its connection.

  /** A peer arrives, sends a chunk, gets it back, and leaves; its connection is given back and reset. */
  function Visit(c: nat, chunk: seq<byte>): seq<Step> {
    ([AcceptDone] + ([ReadDone(c, chunk)] + [WriteDone(c, chunk)])) + (Leaving(c) + [ResetDone(c)])
  }

  lemma Exchanged(s: Server, c: nat, chunk: seq<byte>)
    requires CleanInv(s) && c < |s.conns| && Live(s, c) && s.conns[c].state.ReadPending?
    requires NulFree(chunk) && 0 < |chunk| <= MAX_BUF_SIZE
    ensures var steps := [ReadDone(c, chunk)] + [WriteDone(c, chunk)];
            && Possible(s, steps) && Run(s, steps).Some?
            && var t := Run(s, steps).value;
               && CleanInv(t) && |t.conns| == |s.conns| && Live(t, c) && t.conns[c].state.ReadPending?
               && t.pool == s.pool && t.pending == s.pending && t.resetting == s.resetting
  {
    var first, second := ReadDone(c, chunk), WriteDone(c, chunk);
    EnabledExact(s, first);
    CompletionStepKeepsClean(s, first);
    CompletionPool(s, first);
    CompletionResult(s, first);
    var t := Next(s, first).value;
    ExchangeShape(s.conns[c], chunk);
    ReplyIsChunk(s.conns[c], chunk);
    assert t.conns[c].inFlight == multiset{Send(chunk)};
    EnabledExact(t, second);
    CompletionStepKeepsClean(t, second);
    CompletionPool(t, second);
    CompletionResult(t, second);
    RunOne(s, first);
    RunOne(t, second);
    RunConcat(s, [first], t, [second]);
  }

  lemma LeavingClean(s: Server, c: nat)
    requires CleanInv(s) && c < |s.conns| && Live(s, c) && s.conns[c].state.ReadPending?
    ensures Possible(s, Leaving(c)) && Run(s, Leaving(c)).Some? && CleanInv(Run(s, Leaving(c)).value)
  {
    PeerGone(s, c);
    CompletionStepKeepsClean(s, ReadDone(c, []));
    CompletionStepKeepsClean(Next(s, ReadDone(c, [])).value, DisconnectDone(c));
    RunTwo(s, ReadDone(c, []), DisconnectDone(c));
  }

  lemma Departed(s: Server, c: nat)
    requires CleanInv(s) && c < |s.conns| && Live(s, c) && s.conns[c].state.ReadPending? && c !in s.resetting
    ensures var steps := Leaving(c) + [ResetDone(c)];
            && Possible(s, steps) && Run(s, steps).Some?
            && var t := Run(s, steps).value;
               && c < |t.conns| && t.conns[c] == FRESH && t.pool.avail == s.pool.avail + [c]
               && t.resetting == s.resetting
  {
    LeavingResult(s, c);
    LeavingClean(s, c);
    var t := Run(s, Leaving(c)).value;
    assert t.resetting - multiset{c} == s.resetting;
    ResetKeepsClean(t, c);
    RunOne(t, ResetDone(c));
    RunConcat(s, Leaving(c), t, [ResetDone(c)]);
    var u := Next(t, ResetDone(c)).value;
    assert ConnInv(u, c) && CleanConn(u.conns[c]);
    AllZeroIsZeros(u.conns[c].readBuf);
    AllZeroIsZeros(u.conns[c].writeBuf);
  }

  /** From every clean state, a visit is possible; it ends with the connection as new, last in the pool,
      and with no reset due that was not due before. */
  lemma VisitWorks(s: Server, chunk: seq<byte>)
    requires CleanInv(s) && s.pending !in s.resetting && NulFree(chunk) && 0 < |chunk| <= MAX_BUF_SIZE
    ensures var c, steps := s.pending, Visit(s.pending, chunk);
            && Possible(s, steps) && Run(s, steps).Some?
            && var t := Run(s, steps).value;
               && c < |t.conns| && t.conns[c] == FRESH && t.resetting == s.resetting
               && t.pool.avail == (if s.pool.avail == [] then [] else s.pool.avail[1..]) + [c]
  {
    var c := s.pending;
    var t := Next(s, AcceptDone).value;
    AcceptKeepsClean(s);
    AcceptedReads(s);
    AcceptedIsLive(s);
    var echo := [ReadDone(c, chunk)] + [WriteDone(c, chunk)];
    Exchanged(t, c, chunk);
    var u := Run(t, echo).value;
    RunOne(s, AcceptDone);
    RunConcat(s, [AcceptDone], t, echo);
    Departed(u, c);
    RunConcat(s, [AcceptDone] + echo, u, Leaving(c) + [ResetDone(c)]);
  }
}
