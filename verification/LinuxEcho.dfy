/** What the epoll server answers, and what it leaves in its buffers, for arbitrary bytes. */
module LinuxEcho {
  import opened Bytes
  import opened LinuxServer

  predicate CleanConn(c: Conn) {
    WellFormed(c) && AllZero(c.readBuf) && AllZero(c.writeBuf)
  }

  /** The ignored second read leaves nothing behind what the clearing reaches. */
  predicate Reached(data: seq<byte>, trailing: seq<byte>) {
    AllZero(trailing[Min(|data|, |trailing|)..])
  }

  /** Clearing at least as much as was copied in. */
  lemma ClearCovers(buf: seq<byte>, text: seq<byte>, n: nat)
    requires AllZero(buf) && |text| <= n <= |buf|
    ensures AllZero(Clear(Overlay(buf, text), n))
  {
    var o := Overlay(buf, text);
    assert forall i :: n <= i < |buf| ==> o[i] == buf[i];
  }

  /** Two texts copied in, one over the other, and as much cleared as the first was long. */
  lemma ClearReaches(buf: seq<byte>, data: seq<byte>, trailing: seq<byte>)
    requires AllZero(buf) && |data| <= |buf| && |trailing| <= |buf|
    ensures AllZero(Clear(Overlay(Overlay(buf, data), trailing), |data|)) <==> Reached(data, trailing)
  {
    var n := Min(|data|, |trailing|);
    var rest := trailing[n..];
    var r := Clear(Overlay(Overlay(buf, data), trailing), |data|);
    assert forall i :: 0 <= i < |data| ==> r[i] == 0;
    assert forall i :: |data| <= i < |buf| ==> r[i] == if i < |trailing| then trailing[i] else 0;
    assert forall k :: 0 <= k < |rest| ==> rest[k] == trailing[n + k] == r[n + k];
    assert forall i :: |data| <= i < |trailing| ==> r[i] == rest[i - n];
  }

  /** From clean buffers, a chunk is answered by its part in front of its first zero. Afterwards the
      buffers are clean again exactly when the ignored read brought nothing beyond the chunk's length. */
  lemma ExchangeExact(c: Conn, data: seq<byte>, trailing: seq<byte>)
    requires CleanConn(c) && 0 < |data| <= MAX_BUF_SIZE && |trailing| <= MAX_BUF_SIZE
    ensures Reply(c, data) == Scan(data)
    ensures CleanConn(Exchange(c, data, trailing)) <==> Reached(data, trailing)
  {
    AllZeroIsZeros(c.readBuf);
    ScanPadded(MAX_BUF_SIZE, data);
    ClearCovers(c.writeBuf, Reply(c, data), |data|);
    ClearReaches(c.readBuf, data, trailing);
  }

  /** All bytes consumed from the socket are answered exactly when the chunk has no zero and the second
      read finds nothing. */
  lemma FidelityExact(c: Conn, data: seq<byte>, trailing: seq<byte>)
    requires CleanConn(c) && 0 < |data| <= MAX_BUF_SIZE && |trailing| <= MAX_BUF_SIZE
    ensures Reply(c, data) == data + trailing <==> NulFree(data) && trailing == []
  {
    ExchangeExact(c, data, trailing);
    PadThenScan(MAX_BUF_SIZE, data);
    ScanPadded(MAX_BUF_SIZE, data);
    assert data + [] == data;
  }

  // ---------------------------------------------------------------------------------------------
  // Whole runs.

  ghost predicate Clean(s: Server) {
    Inv(s) && forall i :: 0 <= i < |s.conns| ==> CleanConn(s.conns[i])
  }

  /** The reads whose results are ignored bring nothing the clearing does not reach. */
  predicate Harmless(s: Server, step: Step) {
    match step
    case AcceptReady(outcome, peeked) => Succeeds(outcome) && s.last.Some? ==> AllZero(peeked)
    case DataReady(_, input) => input.Chunk? ==> Reached(input.data, input.trailing)
  }

  /** The buffers of all connections stay clean over a step exactly when its ignored read is harmless. */
  lemma StepCleanExact(s: Server, step: Step)
    requires Clean(s) && Enabled(s, step)
    ensures Next(s, step).Some?
    ensures Clean(Next(s, step).value) <==> Harmless(s, step)
  {
    StepKeepsInv(s, step);
    match step {
      case AcceptReady(outcome, peeked) => AcceptCleanExact(s, outcome, peeked);
      case DataReady(fd, input) => DataCleanExact(s, fd, input);
    }
  }

  lemma AcceptedClean(s: Server, outcome: AcceptOutcome)
    requires Clean(s) && (Succeeds(outcome) ==> PhaseOf(s.log, outcome.fd) == Idle)
    ensures Clean(DoAccept(s, outcome))
  {
    var t := DoAccept(s, outcome);
    DoAcceptKeepsInv(s, outcome);
    ObtainKeepsInv(s);
    forall i | 0 <= i < |t.conns| ensures CleanConn(t.conns[i]) {
      assert i < |s.conns| ==> CleanConn(s.conns[i]);
    }
  }

  lemma AcceptCleanExact(s: Server, outcome: AcceptOutcome, peeked: seq<byte>)
    requires Clean(s) && Enabled(s, AcceptReady(outcome, peeked))
    ensures Clean(Next(s, AcceptReady(outcome, peeked)).value) <==> Harmless(s, AcceptReady(outcome, peeked))
  {
    var t := DoAccept(s, outcome);
    var u := Next(s, AcceptReady(outcome, peeked)).value;
    AcceptedClean(s, outcome);
    AcceptKeepsInv(s, outcome, peeked);
    if Succeeds(outcome) && s.last.Some? {
      var p := s.last.value;
      assert CleanConn(t.conns[p]) && u.conns == t.conns[p := Read(t.conns[p], peeked)];
      var r := u.conns[p].readBuf;
      assert forall i :: 0 <= i < |peeked| ==> r[i] == peeked[i];
      assert CleanConn(u.conns[p]) <==> AllZero(peeked);
      assert forall i :: 0 <= i < |t.conns| && i != p ==> u.conns[i] == t.conns[i];
    }
  }

  lemma DataCleanExact(s: Server, fd: nat, input: Input)
    requires Clean(s) && Enabled(s, DataReady(fd, input))
    ensures Next(s, DataReady(fd, input)).Some?
    ensures Clean(Next(s, DataReady(fd, input)).value) <==> Harmless(s, DataReady(fd, input))
  {
    var c := s.interest[fd];
    DataKeepsInv(s, fd, input);
    var u := Next(s, DataReady(fd, input)).value;
    assert CleanConn(s.conns[c]);
    if input.Chunk? {
      ExchangeExact(s.conns[c], input.data, input.trailing);
    }
    assert forall i :: 0 <= i < |s.conns| && i != c ==> u.conns[i] == s.conns[i];
  }

  /** Whatever the state, these steps are harmless. */
  predicate Quiet(steps: seq<Step>) {
    forall k :: 0 <= k < |steps| ==> QuietStep(steps[k])
  }

  predicate QuietStep(step: Step) {
    match step
    case AcceptReady(_, peeked) => AllZero(peeked)
    case DataReady(_, input) => input.Chunk? ==> Reached(input.data, input.trailing)
  }

  /** The replies sent during a run, in order. */
  function Replies(s: Server, steps: seq<Step>): seq<seq<byte>>
    requires Possible(s, steps)
    decreases |steps|
  {
    if steps == [] then []
    else (if steps[0].DataReady? && steps[0].input.Chunk?
          then [Reply(s.conns[s.interest[steps[0].fd]], steps[0].input.data)] else [])
         + match Next(s, steps[0])
           case None => []
           case Some(t) => Replies(t, steps[1..])
  }

  /** What the chunks of a run call for, whatever came before each of them. */
  function Expected(steps: seq<Step>): seq<seq<byte>> {
    if steps == [] then []
    else (if steps[0].DataReady? && steps[0].input.Chunk? then [Scan(steps[0].input.data)] else [])
         + Expected(steps[1..])
  }

  lemma {:induction false} QuietRun(s: Server, steps: seq<Step>)
    requires Clean(s) && Possible(s, steps) && Quiet(steps)
    ensures Run(s, steps).Some? && Clean(Run(s, steps).value)
    ensures Replies(s, steps) == Expected(steps)
    decreases |steps|
  {
    if steps != [] {
      assert QuietStep(steps[0]);
      StepCleanExact(s, steps[0]);
      if steps[0].DataReady? && steps[0].input.Chunk? {
        var c := s.conns[s.interest[steps[0].fd]];
        assert CleanConn(c);
        ExchangeExact(c, steps[0].input.data, steps[0].input.trailing);
      }
      QuietRun(Next(s, steps[0]).value, steps[1..]);
    }
  }

  /** Per-chunk echo over whole runs: every reply is its chunk up to the first zero, independent of the
      connection, of earlier chunks and of earlier sessions; and all buffers end up clean. */
  lemma PerChunkEcho(count: nat, steps: seq<Step>)
    requires Possible(Built(count), steps) && Quiet(steps)
    ensures Replies(Built(count), steps) == Expected(steps)
    ensures Run(Built(count), steps).Some?
    ensures var s := Run(Built(count), steps).value;
            forall i :: 0 <= i < |s.conns| ==> CleanConn(s.conns[i])
  {
    BuiltInv(count);
    QuietRun(Built(count), steps);
  }
}
