/** The completion-port server as objects updated in place, proved against the transition system. */
module WinServerImpl {
  import opened Bytes
  import opened WinConnection
  import opened Pool
  import Spec = WinServer

  class CConnectionImpl {
    const id: nat                    // stands for the object's address
    var curState: State
    const readBuf: array<byte>
    const writeBuf: array<byte>
    ghost var inFlight: multiset<Op> // what the system owes this socket

    ghost predicate Valid() {
      readBuf != writeBuf && readBuf.Length == MAX_BUF_SIZE && writeBuf.Length == MAX_BUF_SIZE
    }

    ghost function View(): Conn
      reads this, readBuf, writeBuf
    {
      Conn(curState, readBuf[..], writeBuf[..], inFlight)
    }

    constructor (id: nat)
      ensures Valid() && this.id == id && View() == FRESH
      ensures fresh(readBuf) && fresh(writeBuf)
    {
      this.id := id;
      curState := Initial;
      readBuf := new byte[MAX_BUF_SIZE];
      writeBuf := new byte[MAX_BUF_SIZE];
      inFlight := multiset{};
      new;
      Fill(readBuf, MAX_BUF_SIZE);
      Fill(writeBuf, MAX_BUF_SIZE);
    }

    method Read()
      modifies this
      ensures View() == WinConnection.Read(old(View()))
    {
      inFlight := inFlight + multiset{Recv};
      curState := ReadPending;
    }

    method Write(data: seq<byte>)
      requires Valid() && |data| <= MAX_BUF_SIZE
      modifies this, writeBuf
      ensures View() == WinConnection.Write(old(View()), data)
    {
      CopyIn(writeBuf, data);
      inFlight := inFlight + multiset{Send(writeBuf[..|data|])};
      curState := WritePending;
      assert writeBuf[..][..|data|] == writeBuf[..|data|];
    }

    method GetInputData() returns (data: seq<byte>)
      requires Valid() && curState == ReadPending
      ensures data == Scan(View().readBuf) && |data| <= MAX_BUF_SIZE
    {
      data := CopyToNul(readBuf);
    }

    /** The system reports an operation over; a receive has filled the buffer with its chunk. */
    method Finish(ghost op: Op, chunk: seq<byte>)
      requires Valid() && |chunk| <= MAX_BUF_SIZE && (!op.Recv? ==> chunk == [])
      modifies this`inFlight, readBuf
      ensures View() == Spec.After(old(View()), op, chunk)
    {
      CopyIn(readBuf, chunk);
      inFlight := inFlight - multiset{op};
    }

    method Disconnect()
      modifies this
      ensures View() == WinConnection.Disconnect(old(View()))
    {
      inFlight := inFlight + multiset{Disc};
      curState := DisconnectPending;
    }

    method Reset()
      modifies this
      ensures View() == WinConnection.Reset(old(View()))
    {
      curState := Initial;
    }

    /** The buffer to clear is chosen after the callback changed the state. */
    method Complete(server: CWinSockServer, transferred: nat)
      requires Valid() && server.pool.Separate()
      requires Dispatchable(View(), transferred)
      modifies this, readBuf, writeBuf, server.pool, server.pool.active, server.pool.avail
      ensures transferred == 0 && old(curState) == DisconnectPending ==>
                && View() == WinConnection.Reset(old(View()))
                && server.pool.View() == GiveBack(old(server.pool.View()), id)
      ensures transferred != 0 || old(curState) != DisconnectPending ==>
                && View() == WinConnection.Complete(old(View()), transferred)
                && server.pool.View() == old(server.pool.View())
    {
      if transferred != 0 {
        if curState == ReadPending {
          server.OnReadComplete(this);
        } else {
          server.OnWriteComplete(this);
        }
        var n := Min(transferred, MAX_BUF_SIZE);
        if curState == ReadPending {
          Fill(readBuf, n);
        } else {
          Fill(writeBuf, n);
        }
      } else if curState == DisconnectPending {
        server.OnDisconnectComplete(this);
        Reset();
      } else {
        Disconnect();
      }
    }
  }

  class CAcceptorImpl {
    var newConnection: Option<nat>

    constructor ()
      ensures newConnection == None
    {
      newConnection := None;
    }

    /** The only way to fail is an exception, so the answer is always yes. */
    method AcceptAsync(connection: nat) returns (accepted: bool)
      modifies this
      ensures accepted && newConnection == Some(connection)
    {
      newConnection := None;
      newConnection := Some(connection);
      accepted := true;
    }
  }

  /** The completion ends a disconnect. */
  ghost predicate Ends(c: Conn, transferred: nat) {
    transferred == 0 && c.state.DisconnectPending?
  }

  /** The connection once `Complete` has returned. */
  ghost function Completed(c: Conn, transferred: nat): Conn
    requires WellFormed(c) && Dispatchable(c, transferred)
  {
    if Ends(c, transferred) then WinConnection.Reset(c) else WinConnection.Complete(c, transferred)
  }

  /** No two connections share a buffer. */
  ghost predicate Distinct(conns: seq<CConnectionImpl>) {
    forall i, j :: 0 <= i < |conns| && 0 <= j < |conns| ==>
      && conns[i].readBuf != conns[j].writeBuf
      && (i != j ==>
            conns[i] != conns[j] && conns[i].readBuf != conns[j].readBuf && conns[i].writeBuf != conns[j].writeBuf)
  }

  class CWinSockServer {
    const pool: ConnectionManager
    const acceptor: CAcceptorImpl
    var conns: seq<CConnectionImpl>
    var bound: seq<nat>
    ghost var model: Spec.Server
    ghost var repr: set<object>      // the connections and their buffers

    /** The connection objects are sound, separate from each other, and hold the values given. */
    ghost predicate Table(values: seq<Conn>)
      reads `conns, `repr, repr
    {
      && |conns| == |values|
      && (forall i :: 0 <= i < |conns| ==> conns[i] in repr && conns[i].readBuf in repr && conns[i].writeBuf in repr)
      && (forall i :: 0 <= i < |conns| ==> conns[i].Valid() && conns[i].id == i && conns[i].View() == values[i])
      && Distinct(conns)
    }

    /** The objects hold what the model says. */
    ghost predicate Represents()
      reads this, repr, pool, pool.active, pool.avail
    {
      && {this, pool, pool.active, pool.avail, acceptor} !! repr
      && pool.Separate() && pool.View() == model.pool
      && bound == model.bound
      && Table(model.conns)
    }

    ghost predicate Valid()
      reads this, repr, pool, pool.active, pool.avail, acceptor
    {
      && Represents()
      && acceptor.newConnection == Some(model.pending)
      && Spec.Inv(model)
    }

    constructor (count: nat)
      ensures Represents() && model == Spec.Built(count)
      ensures fresh(pool) && fresh(pool.active) && fresh(pool.avail) && fresh(acceptor)
      ensures fresh(repr)
    {
      pool := new ConnectionManager(count);
      acceptor := new CAcceptorImpl();
      conns := [];
      bound := [];
      repr := {};
      model := Spec.Built(count);
      new;
      for i := 0 to count
        invariant bound == seq(i, k => k) && Table(seq(i, k => FRESH))
        invariant pool.Separate() && pool.View() == Init(count) && model == Spec.Built(count)
        invariant fresh(pool) && fresh(pool.active) && fresh(pool.avail) && fresh(acceptor)
        invariant fresh(repr) && {this, pool, pool.active, pool.avail, acceptor} !! repr
      {
        CreateConnection(i, seq(i, k => FRESH));
        assert seq(i, k => FRESH) + [FRESH] == seq(i + 1, k => FRESH);
      }
    }

    /** Posts the first accept. */
    method OnRun()
      requires Represents() && exists count :: model == Spec.Built(count)
      modifies this, pool, pool.active, pool.avail, acceptor
      ensures Valid() && model == Spec.DoAccept(old(model))
    {
      ghost var count :| model == Spec.Built(count);
      InitInv(count);
      var accepted := DoAccept();
      Spec.BootInv(count);
    }

    method OnReadComplete(connection: CConnectionImpl)
      requires connection.Valid() && connection.curState == ReadPending
      modifies connection, connection.writeBuf
      ensures connection.View() ==
              WinConnection.Write(old(connection.View()), Scan(old(connection.View()).readBuf))
    {
      var data := connection.GetInputData();
      connection.Write(data);
    }

    method OnWriteComplete(connection: CConnectionImpl)
      modifies connection
      ensures connection.View() == WinConnection.Read(old(connection.View()))
    {
      connection.Read();
    }

    method OnDisconnectComplete(connection: CConnectionImpl)
      requires pool.Separate()
      modifies pool, pool.active, pool.avail
      ensures pool.View() == GiveBack(old(pool.View()), connection.id)
    {
      pool.Release(connection.id);
    }

    /** The number the pool handed out is that of a known connection, or the next one. */
    method CreateConnection(e: nat, ghost values: seq<Conn>)
      requires e == |conns| && Table(values)
      modifies this`conns, this`bound, this`repr
      ensures Table(values + [FRESH]) && bound == old(bound) + [e]
      ensures old(conns) <= conns && old(repr) <= repr && fresh(repr - old(repr))
    {
      var connection := new CConnectionImpl(e);
      bound := bound + [e];
      conns := conns + [connection];
      repr := repr + {connection, connection.readBuf, connection.writeBuf};
    }

    /** Takes a connection from the pool, and creates and binds its object when there is none yet. */
    method Obtain() returns (e: nat)
      requires Represents() && |conns| == model.pool.created
      requires forall i :: i in model.pool.avail ==> i < |conns|
      modifies this`conns, this`bound, this`repr, pool, pool.active, pool.avail
      ensures pool.Separate() && pool.View() == Spec.DoAccept(model).pool && e == Spec.DoAccept(model).pending
      ensures Table(Spec.DoAccept(model).conns) && bound == Spec.DoAccept(model).bound
      ensures old(conns) <= conns && old(repr) <= repr && fresh(repr - old(repr))
    {
      e := pool.Get();
      assert model.pool.avail != [] ==> e in model.pool.avail;
      if e == |conns| {
        CreateConnection(e, model.conns);
      }
    }

    method DoAccept() returns (accepted: bool)
      requires Represents() && |conns| == model.pool.created
      requires forall e :: e in model.pool.avail ==> e < |conns|
      modifies this, pool, pool.active, pool.avail, acceptor
      ensures accepted && Represents()
      ensures model == Spec.DoAccept(old(model)) && acceptor.newConnection == Some(model.pending)
      ensures old(conns) <= conns && old(repr) <= repr && fresh(repr - old(repr))
    {
      var e := Obtain();
      // The acceptor never declines here, so no connection goes back to the pool.
      accepted := acceptor.AcceptAsync(e);
      model := Spec.DoAccept(model);
    }

    /** The accepted connection begins to read. */
    method Start(c: nat)
      requires Represents() && c < |conns|
      modifies conns[c]
      ensures pool.Separate() && pool.View() == model.pool && bound == model.bound
      ensures {this, pool, pool.active, pool.avail, acceptor} !! repr
      ensures Table(model.conns[c := WinConnection.Read(model.conns[c])])
    {
      ReadAt(c, model.conns);
    }

    method OnAcceptComplete(newConnection: nat)
      requires Represents() && Spec.Inv(model) && newConnection == model.pending
      modifies this, pool, pool.active, pool.avail, acceptor, repr
      ensures Represents() && acceptor.newConnection == Some(model.pending)
      ensures Spec.Next(old(model), Spec.AcceptDone) == Some(model)
    {
      var accepted := DoAccept();
      ghost var after := model.(conns := model.conns[newConnection := WinConnection.Read(model.conns[newConnection])],
                                sessions := model.sessions[newConnection := Spec.NEW_SESSION]);
      Start(newConnection);
      model := after;
    }

    // -------------------------------------------------------------------------------------------
    // What the port does with a dequeued completion.

    method HandleAccept()
      requires Valid()
      modifies this, pool, pool.active, pool.avail, acceptor, repr
      ensures Valid() && Spec.Next(old(model), Spec.AcceptDone) == Some(model)
    {
      Spec.AcceptKeepsInv(model);
      OnAcceptComplete(acceptor.newConnection.value);
    }

    // One connection of the table changes, the others do not.

    method ReadAt(c: nat, ghost values: seq<Conn>)
      requires Table(values) && this !in repr && c < |conns|
      modifies conns[c]
      ensures Table(values[c := WinConnection.Read(values[c])])
    {
      conns[c].Read();
    }

    method FinishAt(c: nat, ghost op: Op, chunk: seq<byte>, ghost values: seq<Conn>, ghost landed: Conn)
      requires Table(values) && this !in repr && c < |conns|
      requires |chunk| <= MAX_BUF_SIZE && (!op.Recv? ==> chunk == [])
      requires landed == Spec.After(values[c], op, chunk)
      modifies conns[c], conns[c].readBuf
      ensures Table(values[c := landed])
    {
      conns[c].Finish(op, chunk);
      assert conns[c].View() == landed;
    }

    method CompleteAt(c: nat, transferred: nat, ghost values: seq<Conn>, ghost end: Conn)
      requires Table(values) && c < |conns| && pool.Separate()
      requires {this, pool, pool.active, pool.avail} !! repr
      requires Dispatchable(values[c], transferred) && end == Completed(values[c], transferred)
      modifies pool, pool.active, pool.avail, conns[c], conns[c].readBuf, conns[c].writeBuf
      ensures Table(values[c := end])
      ensures pool.View() == if Ends(values[c], transferred) then GiveBack(old(pool.View()), c) else old(pool.View())
    {
      conns[c].Complete(this, transferred);
      assert conns[c].View() == end;
    }

    /** The operation `op` of a connection is over, with `transferred` bytes; a receive lands its chunk. */
    method Deliver(c: nat, ghost op: Op, chunk: seq<byte>, transferred: nat, ghost landed: Conn)
      requires Represents() && c < |conns| && |chunk| <= MAX_BUF_SIZE && (!op.Recv? ==> chunk == [])
      requires landed == Spec.After(model.conns[c], op, chunk) && WellFormed(landed)
      requires Dispatchable(landed, transferred)
      modifies pool, pool.active, pool.avail, conns[c], conns[c].readBuf, conns[c].writeBuf
      ensures Table(model.conns[c := Completed(landed, transferred)])
      ensures pool.View() == if Ends(landed, transferred) then GiveBack(model.pool, c) else model.pool
    {
      ghost var values, end := model.conns[c := landed], Completed(landed, transferred);
      assert values[c] == landed && values[c := end] == model.conns[c := end];
      FinishAt(c, op, chunk, model.conns, landed);
      CompleteAt(c, transferred, values, end);
    }

    method HandleRead(c: nat, chunk: seq<byte>)
      requires Valid() && Spec.Enabled(model, Spec.ReadDone(c, chunk))
      modifies this`model, pool, pool.active, pool.avail, conns[c], conns[c].readBuf, conns[c].writeBuf
      ensures Valid() && Spec.Next(old(model), Spec.ReadDone(c, chunk)) == Some(model)
    {
      ghost var step := Spec.ReadDone(c, chunk);
      Spec.CompletionResult(model, step);
      Spec.CompletionKeepsInv(model, step);
      Deliver(c, Recv, chunk, |chunk|, Spec.After(model.conns[c], Recv, chunk));
      model := Spec.Next(model, step).value;
    }

    method HandleWrite(c: nat, data: seq<byte>)
      requires Valid() && Spec.Enabled(model, Spec.WriteDone(c, data))
      modifies this`model, pool, pool.active, pool.avail, conns[c], conns[c].readBuf, conns[c].writeBuf
      ensures Valid() && Spec.Next(old(model), Spec.WriteDone(c, data)) == Some(model)
    {
      ghost var step := Spec.WriteDone(c, data);
      Spec.CompletionResult(model, step);
      Spec.CompletionKeepsInv(model, step);
      Deliver(c, Send(data), [], |data|, Spec.After(model.conns[c], Send(data), []));
      model := Spec.Next(model, step).value;
    }

    /** One call of `Complete` covers two steps: giving the connection back, and resetting it. */
    method HandleDisconnect(c: nat)
      requires Valid() && Spec.Enabled(model, Spec.DisconnectDone(c))
      modifies this`model, pool, pool.active, pool.avail, conns[c], conns[c].readBuf, conns[c].writeBuf
      ensures Valid() && Spec.Possible(old(model), [Spec.DisconnectDone(c), Spec.ResetDone(c)])
      ensures Spec.Run(old(model), [Spec.DisconnectDone(c), Spec.ResetDone(c)]) == Some(model)
      ensures model.resetting == old(model.resetting) && model.pool == GiveBack(old(model.pool), c)
      ensures c < |conns| && conns[c].View() == FRESH.(readBuf := old(model.conns[c].readBuf),
                                                      writeBuf := old(model.conns[c].writeBuf))
    {
      Spec.DisconnectAndReset(model, c);
      ghost var after := Spec.Run(model, [Spec.DisconnectDone(c), Spec.ResetDone(c)]).value;
      Deliver(c, Disc, [], 0, Spec.After(model.conns[c], Disc, []));
      model := after;
    }
  }
}
