/** What a user sees: every line typed at a client comes back, through the asynchronous pair, whose
    server answers with its whole buffer, and through the native pairs, whose servers answer with the
    text they scan out of theirs. Requests and replies take turns and arrive whole. */
module Transcript {
  import opened Bytes
  import opened WinConnection
  import Lin = LinuxServer
  import LinuxEcho

  /** Not empty, and short enough for one read. */
  predicate Lines(lines: seq<seq<byte>>) {
    Chunks(lines)
  }

  // ---------------------------------------------------------------------------------------------
  // The asynchronous pair.

  class AsioConnection {
    const data: array<byte>

    ghost predicate Valid() {
      data.Length == MAX_BUF_SIZE
    }

    constructor ()
      ensures Valid() && fresh(data) && AllZero(data[..])
    {
      data := new byte[MAX_BUF_SIZE](i => 0);
    }

    /** The chunk lands over what the buffer held; all of the buffer is written back. */
    method OnReadComplete(chunk: seq<byte>) returns (frame: seq<byte>)
      requires Valid() && |chunk| <= MAX_BUF_SIZE
      modifies data
      ensures frame == data[..] == Overlay(old(data[..]), chunk)
    {
      CopyIn(data, chunk);
      frame := data[..];
    }
  }

  class AsioClient {
    const data: array<byte>

    ghost predicate Valid() {
      data.Length == MAX_BUF_SIZE
    }

    constructor ()
      ensures Valid() && fresh(data)
    {
      data := new byte[MAX_BUF_SIZE](i => 0);
    }

    /** Reads until the buffer is full, then cuts to the length of the input. */
    method Receive(frame: seq<byte>, input: seq<byte>) returns (text: seq<byte>)
      requires Valid() && |frame| == MAX_BUF_SIZE
      modifies data
      ensures text == frame[..Min(MAX_BUF_SIZE, |input|)]
    {
      Fill(data, MAX_BUF_SIZE);
      CopyIn(data, frame);
      text := data[..Min(|frame|, |input|)];
      assert data[..] == frame;
    }

    /** The residue of earlier, longer lines fills up the frames, and is cut off again: whatever the
        lines hold, each comes back exactly. */
    method OnRun(lines: seq<seq<byte>>, server: AsioConnection) returns (shown: seq<seq<byte>>)
      requires Valid() && server.Valid() && data != server.data && Lines(lines)
      modifies data, server.data
      ensures shown == lines
    {
      shown := [];
      for i := 0 to |lines|
        invariant shown == lines[..i]
      {
        var frame := server.OnReadComplete(lines[i]);
        var text := Receive(frame, lines[i]);
        assert frame[..|lines[i]|] == lines[i];
        shown := shown + [text];
      }
    }
  }

  // ---------------------------------------------------------------------------------------------
  // The native pairs.

  /** What the client shows of a reply. */
  function Cut(reply: seq<byte>, input: seq<byte>): (r: seq<byte>)
    ensures r <= reply && |r| <= |input| && (|r| == |reply| || |r| == |input|)
  {
    reply[..Min(|reply|, |input|)]
  }

  function CutAll(replies: seq<seq<byte>>, lines: seq<seq<byte>>): seq<seq<byte>>
    requires |replies| <= |lines|
  {
    seq(|replies|, k requires 0 <= k < |replies| => Cut(replies[k], lines[k]))
  }

  class SystemClient {
    const data: array<byte>

    ghost predicate Valid() {
      data.Length == MAX_BUF_SIZE
    }

    constructor ()
      ensures Valid() && fresh(data)
    {
      data := new byte[MAX_BUF_SIZE](i => 0);
    }

    method Receive(reply: seq<byte>, input: seq<byte>) returns (text: seq<byte>)
      requires Valid() && |reply| <= MAX_BUF_SIZE
      modifies data
      ensures text == Cut(reply, input)
    {
      Fill(data, MAX_BUF_SIZE);
      CopyIn(data, reply);
      var n := Min(|reply|, |input|);
      text := data[..n];
      assert data[..][..n] == reply[..n];
    }

    method OnRun(lines: seq<seq<byte>>, replies: seq<seq<byte>>) returns (shown: seq<seq<byte>>)
      requires Valid() && |replies| <= |lines|
      requires forall k :: 0 <= k < |replies| ==> |replies[k]| <= MAX_BUF_SIZE
      modifies data
      ensures shown == CutAll(replies, lines)
      ensures |shown| == |replies| && forall k :: 0 <= k < |shown| ==>
                shown[k] <= replies[k] && |shown[k]| == Min(|replies[k]|, |lines[k]|)
    {
      shown := [];
      for i := 0 to |replies|
        invariant |shown| == i
        invariant forall k :: 0 <= k < i ==> shown[k] == Cut(replies[k], lines[k])
      {
        var text := Receive(replies[i], lines[i]);
        shown := shown + [text];
      }
    }
  }

  /** What the client of the completion-port server shows. */
  function WinShown(c: Conn, lines: seq<seq<byte>>): seq<seq<byte>>
    requires Reading(c) && Lines(lines)
  {
    CutAll(Serve(c, lines), lines)
  }

  lemma CutPrepend(head: seq<byte>, replies: seq<seq<byte>>, lines: seq<seq<byte>>)
    requires lines != [] && |replies| < |lines|
    ensures CutAll([head] + replies, lines) == [Cut(head, lines[0])] + CutAll(replies, lines[1..])
  {
    var all := [head] + replies;
    assert forall k :: 0 <= k < |replies| ==> all[k + 1] == replies[k] && lines[1..][k] == lines[k + 1];
  }

  /** A line with a zero comes back shorter than it was. */
  lemma FirstShort(c: Conn, lines: seq<seq<byte>>)
    requires Reading(c) && AllZero(c.readBuf) && Lines(lines)
    requires lines != [] && !NulFree(lines[0])
    ensures Serve(c, lines) != [] && |Serve(c, lines)[0]| < |lines[0]|
  {
    ExchangeShape(c, lines[0]);
    ReplyIsChunk(c, lines[0]);
    assert Serve(c, lines)[0] == Scan(lines[0]);
  }

  /** A line without a zero is shown, and the session goes on from a clean buffer. */
  lemma WinShownNulFree(c: Conn, lines: seq<seq<byte>>) returns (d: Conn)
    requires Reading(c) && AllZero(c.readBuf) && Lines(lines)
    requires lines != [] && NulFree(lines[0])
    ensures Reading(d) && AllZero(d.readBuf)
    ensures WinShown(c, lines) == [lines[0]] + WinShown(d, lines[1..])
  {
    d := AfterEcho(c, lines[0]);
    ServeNulFree(c, lines);
    CutPrepend(lines[0], Serve(d, lines[1..]), lines);
    assert Cut(lines[0], lines[0]) == lines[0];
  }

  lemma WinShownNone(c: Conn, lines: seq<seq<byte>>)
    requires Reading(c) && lines == []
    ensures WinShown(c, lines) == lines && AllNulFree(lines)
  {
    assert |WinShown(c, lines)| == 0;
  }

  lemma WinShownOther(c: Conn, lines: seq<seq<byte>>)
    requires Reading(c) && AllZero(c.readBuf) && Lines(lines)
    requires lines != [] && !NulFree(lines[0])
    ensures WinShown(c, lines) != lines && !AllNulFree(lines)
  {
    FirstShort(c, lines);
    assert WinShown(c, lines)[0] == Cut(Serve(c, lines)[0], lines[0]);
  }

  lemma SameTranscript(lines: seq<seq<byte>>, tail: seq<seq<byte>>, shown: seq<seq<byte>>)
    requires lines != [] && NulFree(lines[0]) && shown == [lines[0]] + tail
    requires tail == lines[1..] <==> AllNulFree(lines[1..])
    ensures shown == lines <==> AllNulFree(lines)
  {
    SameTail(lines, tail);
    AllNulFreeTail(lines);
  }

  /** The completion-port pair shows every line exactly when no line holds a zero. */
  lemma {:induction false} WinTranscriptExact(c: Conn, lines: seq<seq<byte>>)
    requires Reading(c) && AllZero(c.readBuf) && Lines(lines)
    ensures WinShown(c, lines) == lines <==> AllNulFree(lines)
    decreases |lines|
  {
    if lines == [] {
      WinShownNone(c, lines);
    } else if NulFree(lines[0]) {
      var d := WinShownNulFree(c, lines);
      WinTranscriptExact(d, lines[1..]);
      SameTranscript(lines, WinShown(d, lines[1..]), WinShown(c, lines));
    } else {
      WinShownOther(c, lines);
    }
  }

  /** What the asynchronous client shows, from whatever the server's buffer held before. */
  function AsioShown(buf: seq<byte>, lines: seq<seq<byte>>): seq<seq<byte>>
    requires |buf| == MAX_BUF_SIZE && Lines(lines)
    decreases |lines|
  {
    if lines == [] then []
    else
      var frame := Overlay(buf, lines[0]);
      [frame[..Min(MAX_BUF_SIZE, |lines[0]|)]] + AsioShown(frame, lines[1..])
  }

  lemma {:induction false} AsioTranscript(buf: seq<byte>, lines: seq<seq<byte>>)
    requires |buf| == MAX_BUF_SIZE && Lines(lines)
    ensures AsioShown(buf, lines) == lines
    decreases |lines|
  {
    if lines != [] {
      var frame := Overlay(buf, lines[0]);
      AsioTranscript(frame, lines[1..]);
      assert frame[..|lines[0]|] == lines[0];
      assert lines == [lines[0]] + lines[1..];
    }
  }

  /** Both pairs show the same transcript exactly for lines without a zero, and then it is the lines. */
  lemma TranscriptsAgree(c: Conn, buf: seq<byte>, lines: seq<seq<byte>>)
    requires Reading(c) && AllZero(c.readBuf) && |buf| == MAX_BUF_SIZE && Lines(lines)
    ensures AsioShown(buf, lines) == WinShown(c, lines) <==> AllNulFree(lines)
    ensures AllNulFree(lines) ==> WinShown(c, lines) == AsioShown(buf, lines) == lines
  {
    AsioTranscript(buf, lines);
    WinTranscriptExact(c, lines);
  }

  /** The lines as events of one registered descriptor of the epoll server. */
  function LineEvents(fd: nat, lines: seq<seq<byte>>): (steps: seq<Lin.Step>)
    ensures |steps| == |lines|
    ensures forall k :: 0 <= k < |steps| ==> steps[k] == Lin.DataReady(fd, Lin.Chunk(lines[k], []))
  {
    if lines == [] then [] else [Lin.DataReady(fd, Lin.Chunk(lines[0], []))] + LineEvents(fd, lines[1..])
  }

  lemma {:induction false} LineReplies(fd: nat, lines: seq<seq<byte>>)
    ensures LinuxEcho.Expected(LineEvents(fd, lines)) == seq(|lines|, k requires 0 <= k < |lines| => Scan(lines[k]))
    decreases |lines|
  {
    if lines != [] {
      LineReplies(fd, lines[1..]);
    }
  }

  /** A registered descriptor can deliver any lines. */
  lemma {:induction false} LinesPossible(s: Lin.Server, fd: nat, lines: seq<seq<byte>>)
    requires Lin.Inv(s) && fd in s.interest && Lines(lines)
    ensures Lin.Possible(s, LineEvents(fd, lines))
    decreases |lines|
  {
    if lines != [] {
      var step := Lin.DataReady(fd, Lin.Chunk(lines[0], []));
      Lin.EnabledExact(s, step);
      Lin.StepKeepsInv(s, step);
      Lin.DataChanges(s, fd, step.input);
      LinesPossible(Lin.Next(s, step).value, fd, lines[1..]);
      assert LineEvents(fd, lines)[1..] == LineEvents(fd, lines[1..]);
    }
  }

  /** The epoll pair, from clean buffers, shows every line exactly when no line holds a zero. */
  lemma LinTranscriptExact(s: Lin.Server, fd: nat, lines: seq<seq<byte>>)
    requires LinuxEcho.Clean(s) && fd in s.interest && Lines(lines)
    ensures Lin.Possible(s, LineEvents(fd, lines))
    ensures |LinuxEcho.Replies(s, LineEvents(fd, lines))| == |lines|
    ensures CutAll(LinuxEcho.Replies(s, LineEvents(fd, lines)), lines) == lines <==> AllNulFree(lines)
  {
    LinesPossible(s, fd, lines);
    LinuxEcho.QuietRun(s, LineEvents(fd, lines));
    LineReplies(fd, lines);
    var replies := LinuxEcho.Replies(s, LineEvents(fd, lines));
    CutScans(replies, lines);
  }

  lemma CutScans(replies: seq<seq<byte>>, lines: seq<seq<byte>>)
    requires |replies| == |lines| && forall k :: 0 <= k < |lines| ==> replies[k] == Scan(lines[k])
    ensures CutAll(replies, lines) == lines <==> AllNulFree(lines)
  {
    forall k | 0 <= k < |lines| ensures CutAll(replies, lines)[k] == lines[k] <==> NulFree(lines[k]) {
      PadThenScan(|lines[k]|, lines[k]);
      ScanPadded(|lines[k]|, lines[k]);
      assert Cut(Scan(lines[k]), lines[k]) == Scan(lines[k]);
    }
  }
}
