/** One connection of the completion-port server, as a value: its state, its two buffers and the
    operations the system still owes it, with what one exchange and one session do to them. */
module WinConnection {
  import opened Bytes

  datatype State = Initial | ReadPending | WritePending | DisconnectPending

  /** An operation posted on the socket. A send carries the bytes it captured when posted. */
  datatype Op = Recv | Send(data: seq<byte>) | Disc

  datatype Conn = Conn(state: State, readBuf: seq<byte>, writeBuf: seq<byte>, inFlight: multiset<Op>)

  predicate WellFormed(c: Conn) {
    |c.readBuf| == MAX_BUF_SIZE && |c.writeBuf| == MAX_BUF_SIZE
  }

  const FRESH: Conn := Conn(Initial, Zeros(MAX_BUF_SIZE), Zeros(MAX_BUF_SIZE), multiset{})

  // ---------------------------------------------------------------------------------------------
  // The member functions.

  function Read(c: Conn): Conn {
    c.(state := ReadPending, inFlight := c.inFlight + multiset{Recv})
  }

  function Write(c: Conn, data: seq<byte>): Conn
    requires |data| <= |c.writeBuf|
  {
    var buf := Overlay(c.writeBuf, data);
    c.(state := WritePending, writeBuf := buf, inFlight := c.inFlight + multiset{Send(buf[..|data|])})
  }

  function Disconnect(c: Conn): Conn {
    c.(state := DisconnectPending, inFlight := c.inFlight + multiset{Disc})
  }

  /** Neither buffer is cleared here. */
  function Reset(c: Conn): Conn {
    c.(state := Initial)
  }

  /** What the assertion in `Complete` demands. */
  predicate Dispatchable(c: Conn, transferred: nat) {
    transferred != 0 ==> c.state.ReadPending? || c.state.WritePending?
  }

  /** A completion of `transferred` bytes, up to the end of the callback it selects. The buffer
      cleared is selected by the state the callback left behind. */
  function Complete(c: Conn, transferred: nat): (r: Conn)
    requires WellFormed(c) && Dispatchable(c, transferred)
  {
    if transferred != 0 then
      var d := if c.state.ReadPending? then Write(c, Scan(c.readBuf)) else Read(c);
      var n := Min(transferred, MAX_BUF_SIZE);
      if d.state.ReadPending? then d.(readBuf := Clear(d.readBuf, n)) else d.(writeBuf := Clear(d.writeBuf, n))
    else if c.state.DisconnectPending? then
      c
    else
      Disconnect(c)
  }

  // ---------------------------------------------------------------------------------------------
  // Completions as the port delivers them.

  /** A receive is over: its bytes are in the read buffer. */
  function Landed(c: Conn, chunk: seq<byte>): Conn
    requires |chunk| <= |c.readBuf|
  {
    c.(readBuf := Overlay(c.readBuf, chunk), inFlight := c.inFlight - multiset{Recv})
  }

  /** A send or a disconnect is over. */
  function Finished(c: Conn, op: Op): Conn {
    c.(inFlight := c.inFlight - multiset{op})
  }

  /** No bytes received means the peer left. */
  function ReadDone(c: Conn, chunk: seq<byte>): Conn
    requires WellFormed(c) && |chunk| <= MAX_BUF_SIZE && Dispatchable(c, |chunk|)
  {
    Complete(Landed(c, chunk), |chunk|)
  }

  function WriteDone(c: Conn, data: seq<byte>): Conn
    requires WellFormed(c) && Dispatchable(c, |data|)
  {
    Complete(Finished(c, Send(data)), |data|)
  }

  function DisconnectDone(c: Conn): Conn
    requires WellFormed(c)
  {
    Complete(Finished(c, Disc), 0)
  }

  // ---------------------------------------------------------------------------------------------
  // One exchange.

  /** Waiting for the peer, with exactly the receive outstanding. */
  predicate Reading(c: Conn) {
    WellFormed(c) && c.state.ReadPending? && c.inFlight == multiset{Recv}
  }

  /** The bytes sent back for a chunk: what the scan of the overlaid read buffer yields. */
  function Reply(c: Conn, chunk: seq<byte>): (r: seq<byte>)
    requires WellFormed(c) && |chunk| <= MAX_BUF_SIZE
    ensures |r| <= MAX_BUF_SIZE
  {
    Scan(Overlay(c.readBuf, chunk))
  }

  /** The connection after a chunk was read, echoed, and the send completed. */
  function AfterEcho(c: Conn, chunk: seq<byte>): Conn
    requires Reading(c) && 0 < |chunk| <= MAX_BUF_SIZE
  {
    WriteDone(ReadDone(c, chunk), Reply(c, chunk))
  }

  /** A non-empty chunk is answered by exactly one send. When the reply is empty, the completion of
      that send is taken for the peer's leaving; otherwise the connection reads again, with the
      read buffer cleared by the length of the reply, not of the chunk. */
  lemma ExchangeShape(c: Conn, chunk: seq<byte>)
    requires Reading(c) && 0 < |chunk| <= MAX_BUF_SIZE
    ensures ReadDone(c, chunk).state.WritePending?
    ensures ReadDone(c, chunk).inFlight == multiset{Send(Reply(c, chunk))}
    ensures var d := AfterEcho(c, chunk);
            && (Reply(c, chunk) != [] ==> Reading(d))
            && (Reply(c, chunk) == [] ==> d.state.DisconnectPending? && d.inFlight == multiset{Disc})
            && d.readBuf == Clear(Overlay(c.readBuf, chunk), |Reply(c, chunk)|)
  {
    var r := Reply(c, chunk);
    assert (r + c.writeBuf[|r|..])[..|r|] == r;
  }

  lemma ReplyIsChunk(c: Conn, chunk: seq<byte>)
    requires Reading(c) && AllZero(c.readBuf) && |chunk| <= MAX_BUF_SIZE
    ensures Reply(c, chunk) == Scan(chunk)
    ensures Reply(c, chunk) == chunk <==> NulFree(chunk)
  {
    AllZeroIsZeros(c.readBuf);
    ScanPadded(MAX_BUF_SIZE, chunk);
    ScanOverlay(c.readBuf, chunk);
  }

  /** The read buffer is clean again after a chunk exactly when that chunk held nothing behind its
      first zero. */
  lemma CleanAfterEcho(c: Conn, chunk: seq<byte>)
    requires Reading(c) && AllZero(c.readBuf) && 0 < |chunk| <= MAX_BUF_SIZE
    ensures AllZero(AfterEcho(c, chunk).readBuf) <==> ZeroTailed(chunk)
  {
    ExchangeShape(c, chunk);
    AllZeroIsZeros(c.readBuf);
    ClearScanned(Overlay(c.readBuf, chunk));
    ZeroTailedPadded(MAX_BUF_SIZE, chunk);
  }

  // ---------------------------------------------------------------------------------------------
  // Whole sessions.

  predicate Chunks(chunks: seq<seq<byte>>) {
    forall k :: 0 <= k < |chunks| ==> 0 < |chunks[k]| <= MAX_BUF_SIZE
  }

  /** The replies of a session fed with the chunks, until an empty reply ends it. */
  function Serve(c: Conn, chunks: seq<seq<byte>>): (replies: seq<seq<byte>>)
    requires Reading(c) && Chunks(chunks)
    ensures |replies| <= |chunks|
    decreases |chunks|
  {
    if chunks == [] then []
    else
      ExchangeShape(c, chunks[0]);
      var r := Reply(c, chunks[0]);
      [r] + if r == [] then [] else Serve(AfterEcho(c, chunks[0]), chunks[1..])
  }

  /** A zero-free chunk is echoed, and the session goes on from a clean buffer. */
  lemma ServeNulFree(c: Conn, chunks: seq<seq<byte>>)
    requires Reading(c) && AllZero(c.readBuf) && Chunks(chunks)
    requires chunks != [] && NulFree(chunks[0])
    ensures var d := AfterEcho(c, chunks[0]);
            Reading(d) && AllZero(d.readBuf) && Serve(c, chunks) == [chunks[0]] + Serve(d, chunks[1..])
  {
    ExchangeShape(c, chunks[0]);
    ReplyIsChunk(c, chunks[0]);
    CleanAfterEcho(c, chunks[0]);
  }

  lemma ServeOther(c: Conn, chunks: seq<seq<byte>>)
    requires Reading(c) && AllZero(c.readBuf) && Chunks(chunks)
    requires chunks != [] && !NulFree(chunks[0])
    ensures Serve(c, chunks) != chunks
  {
    ExchangeShape(c, chunks[0]);
    ReplyIsChunk(c, chunks[0]);
    assert Serve(c, chunks)[0] == Reply(c, chunks[0]);
  }

  predicate AllNulFree(chunks: seq<seq<byte>>) {
    forall k :: 0 <= k < |chunks| ==> NulFree(chunks[k])
  }

  lemma AllNulFreeTail(chunks: seq<seq<byte>>)
    requires chunks != []
    ensures AllNulFree(chunks) <==> NulFree(chunks[0]) && AllNulFree(chunks[1..])
  {
    var tail := chunks[1..];
    assert forall k :: 0 <= k < |tail| ==> tail[k] == chunks[k + 1];
    if NulFree(chunks[0]) && AllNulFree(tail) {
      forall k | 0 <= k < |chunks| ensures NulFree(chunks[k]) {
        assert k > 0 ==> chunks[k] == tail[k - 1];
      }
    }
  }

  lemma SameTail<T>(s: seq<T>, tail: seq<T>)
    requires s != []
    ensures [s[0]] + tail == s <==> tail == s[1..]
  {
    assert s == [s[0]] + s[1..];
    assert ([s[0]] + tail)[1..] == tail;
  }

  /** A session that starts clean echoes every chunk exactly when no chunk holds a zero. */
  lemma {:induction false} EchoExact(c: Conn, chunks: seq<seq<byte>>)
    requires Reading(c) && AllZero(c.readBuf) && Chunks(chunks)
    ensures Serve(c, chunks) == chunks <==> AllNulFree(chunks)
    decreases |chunks|
  {
    if chunks == [] {
    } else if NulFree(chunks[0]) {
      ServeNulFree(c, chunks);
      var d, tail := AfterEcho(c, chunks[0]), chunks[1..];
      EchoExact(d, tail);
      SameTail(chunks, Serve(d, tail));
      AllNulFreeTail(chunks);
    } else {
      ServeOther(c, chunks);
    }
  }

  /** The session's read buffer is clean whenever an exchange is over. */
  predicate StaysClean(c: Conn, chunks: seq<seq<byte>>)
    requires Reading(c) && Chunks(chunks)
    decreases |chunks|
  {
    chunks == [] || (
      ExchangeShape(c, chunks[0]);
      var d := AfterEcho(c, chunks[0]);
      AllZero(d.readBuf) && (Reply(c, chunks[0]) != [] ==> StaysClean(d, chunks[1..])))
  }

  /** The chunks up to and including the first that starts with a zero are zero-tailed. */
  predicate ServedZeroTailed(chunks: seq<seq<byte>>)
    decreases |chunks|
  {
    chunks == [] || (ZeroTailed(chunks[0]) && (Scan(chunks[0]) != [] ==> ServedZeroTailed(chunks[1..])))
  }

  /** Cross-clearing keeps the read buffer clean through a session exactly when every chunk served
      was zero-tailed. */
  lemma {:induction false} CleanExact(c: Conn, chunks: seq<seq<byte>>)
    requires Reading(c) && AllZero(c.readBuf) && Chunks(chunks)
    ensures StaysClean(c, chunks) <==> ServedZeroTailed(chunks)
    decreases |chunks|
  {
    if chunks != [] {
      ExchangeShape(c, chunks[0]);
      ReplyIsChunk(c, chunks[0]);
      CleanAfterEcho(c, chunks[0]);
      if ZeroTailed(chunks[0]) && Scan(chunks[0]) != [] {
        CleanExact(AfterEcho(c, chunks[0]), chunks[1..]);
      }
    }
  }

  /** The connection when a session fed with the chunks is over and the connection was recycled. */
  function Recycled(c: Conn, chunks: seq<seq<byte>>): Conn
    requires Reading(c) && Chunks(chunks)
    decreases |chunks|
  {
    if chunks == [] then
      Reset(DisconnectDone(ReadDone(c, [])))
    else
      ExchangeShape(c, chunks[0]);
      var d := AfterEcho(c, chunks[0]);
      if Reply(c, chunks[0]) == [] then Reset(DisconnectDone(d)) else Recycled(d, chunks[1..])
  }

  /** One exchange leaves the write buffer clean if it was and the reply is no longer than the chunk. */
  lemma WriteBufClean(c: Conn, chunk: seq<byte>)
    requires Reading(c) && 0 < |chunk| <= MAX_BUF_SIZE
    requires AllZero(c.readBuf) && AllZero(c.writeBuf)
    ensures AllZero(ReadDone(c, chunk).writeBuf) && AllZero(AfterEcho(c, chunk).writeBuf)
  {
    ExchangeShape(c, chunk);
    ReplyIsChunk(c, chunk);
  }

  predicate Clean(c: Conn) {
    AllZero(c.readBuf) && AllZero(c.writeBuf)
  }

  /** A zero-tailed chunk leaves both buffers clean. */
  lemma ZeroTailedLeavesClean(c: Conn, chunk: seq<byte>)
    requires Reading(c) && Clean(c) && 0 < |chunk| <= MAX_BUF_SIZE && ZeroTailed(chunk)
    ensures var d := AfterEcho(c, chunk);
            && WellFormed(d) && Clean(d) && Reply(c, chunk) == Scan(chunk)
            && (if Scan(chunk) != [] then Reading(d)
                else d.state.DisconnectPending? && d.inFlight == multiset{Disc})
  {
    ExchangeShape(c, chunk);
    ReplyIsChunk(c, chunk);
    CleanAfterEcho(c, chunk);
    WriteBufClean(c, chunk);
  }

  lemma ClosedIsFresh(d: Conn)
    requires WellFormed(d) && Clean(d) && d.state.DisconnectPending? && d.inFlight == multiset{Disc}
    ensures Reset(DisconnectDone(d)) == FRESH
  {
    AllZeroIsZeros(d.readBuf);
    AllZeroIsZeros(d.writeBuf);
  }

  lemma PeerLeaves(c: Conn)
    requires Reading(c)
    ensures ReadDone(c, []) == Conn(DisconnectPending, c.readBuf, c.writeBuf, multiset{Disc})
  {
    assert Overlay(c.readBuf, []) == c.readBuf;
  }

  /** A connection recycled after a clean session is indistinguishable from a new one, although
      neither buffer is cleared on the way. */
  lemma {:induction false} RecycledIsFresh(c: Conn, chunks: seq<seq<byte>>)
    requires Reading(c) && Clean(c) && Chunks(chunks)
    requires ServedZeroTailed(chunks)
    ensures Recycled(c, chunks) == FRESH
    decreases |chunks|
  {
    if chunks == [] {
      PeerLeaves(c);
      ClosedIsFresh(ReadDone(c, []));
    } else {
      var d := AfterEcho(c, chunks[0]);
      ZeroTailedLeavesClean(c, chunks[0]);
      if Scan(chunks[0]) == [] {
        ClosedIsFresh(d);
      } else {
        RecycledIsFresh(d, chunks[1..]);
      }
    }
  }

  /** For one chunk the condition is exact. */
  lemma RecycledIsFreshExact(c: Conn, chunk: seq<byte>)
    requires Reading(c) && Clean(c) && 0 < |chunk| <= MAX_BUF_SIZE
    ensures Recycled(c, [chunk]) == FRESH <==> ZeroTailed(chunk)
  {
    var d := AfterEcho(c, chunk);
    ExchangeShape(c, chunk);
    CleanAfterEcho(c, chunk);
    assert [chunk][1..] == [];
    assert Overlay(d.readBuf, []) == d.readBuf;
    if Reply(c, chunk) == [] {
      assert Recycled(c, [chunk]).readBuf == d.readBuf;
    } else {
      assert Recycled(c, [chunk]) == Recycled(d, []);
      assert Recycled(d, []).readBuf == d.readBuf;
    }
    if ZeroTailed(chunk) {
      assert ServedZeroTailed([chunk]);
      RecycledIsFresh(c, [chunk]);
    }
  }

  /** The residue is seen: a chunk made of a zero and a character leaves that character behind, and
      the next session of the recycled connection gets it appended to its own single character. */
  lemma ResidueReachesNextSession(c: Conn, x: byte, y: byte)
    requires Reading(c) && Clean(c) && x != 0 && y != 0
    ensures var next := Read(Recycled(c, [[0, y]]));
            Reading(next) && Reply(next, [x]) == [x, y]
  {
    var chunk: seq<byte> := [0, y];
    RecycledAfterNul(c, chunk);
    ScanOverResidue(Recycled(c, [chunk]).readBuf, x, y);
  }

  lemma ScanOverResidue(buf: seq<byte>, x: byte, y: byte)
    requires |buf| == MAX_BUF_SIZE && x != 0 && y != 0 && buf[1] == y && buf[2] == 0
    ensures Scan(Overlay(buf, [x])) == [x, y]
  {
    var o := Overlay(buf, [x]);
    assert o[0] == x && o[1] == y && o[2] == 0;
    ScanUnique(o, [x, y]);
  }

  /** A chunk that starts with a zero ends its session and stays in the read buffer. */
  lemma RecycledAfterNul(c: Conn, chunk: seq<byte>)
    requires Reading(c) && 0 < |chunk| <= MAX_BUF_SIZE && chunk[0] == 0
    ensures var d := Recycled(c, [chunk]);
            WellFormed(d) && d.readBuf == Overlay(c.readBuf, chunk) && d.inFlight == multiset{}
  {
    ExchangeShape(c, chunk);
  }
}
