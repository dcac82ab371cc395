/** The epoll server as objects updated in place, proved against the transition system. */
module LinuxServerImpl {
  import opened Bytes
  import opened Pool
  import Spec = LinuxServer

  /** What the system keeps about descriptors. Each call demands what makes it succeed. */
  class Kernel {
    var interest: map<nat, nat>
    var log: seq<Spec.Call>

    constructor ()
      ensures interest == map[] && log == []
    {
      interest := map[];
      log := [];
    }

    method Accept(fd: nat)
      modifies this
      ensures interest == old(interest) && log == old(log) + [Spec.Accepted(fd)]
    {
      log := log + [Spec.Accepted(fd)];
    }

    method EpollAdd(fd: nat, endpoint: nat)
      requires fd !in interest
      modifies this
      ensures interest == old(interest)[fd := endpoint] && log == old(log) + [Spec.Registered(fd)]
    {
      interest := interest[fd := endpoint];
      log := log + [Spec.Registered(fd)];
    }

    method EpollDelete(fd: nat)
      requires fd in interest
      modifies this
      ensures interest == old(interest) - {fd} && log == old(log) + [Spec.Unregistered(fd)]
    {
      interest := interest - {fd};
      log := log + [Spec.Unregistered(fd)];
    }

    method Close(fd: nat)
      modifies this
      ensures interest == old(interest) && log == old(log) + [Spec.Closed(fd)]
    {
      log := log + [Spec.Closed(fd)];
    }
  }

  class ConnectionImpl {
    const id: nat               // stands for the object's address
    var exchange: bool
    var endpoint: nat
    const readBuf: array<byte>
    const writeBuf: array<byte>

    ghost predicate Valid() {
      readBuf != writeBuf && readBuf.Length == MAX_BUF_SIZE && writeBuf.Length == MAX_BUF_SIZE
    }

    ghost function View(): Spec.Conn
      reads this, readBuf, writeBuf
    {
      Spec.Conn(exchange, endpoint, readBuf[..], writeBuf[..])
    }

    constructor (id: nat)
      ensures Valid() && this.id == id && View() == Spec.FRESH
      ensures fresh(readBuf) && fresh(writeBuf)
    {
      this.id := id;
      exchange := false;
      endpoint := 0;
      readBuf := new byte[MAX_BUF_SIZE];
      writeBuf := new byte[MAX_BUF_SIZE];
      new;
      Fill(readBuf, MAX_BUF_SIZE);
      Fill(writeBuf, MAX_BUF_SIZE);
    }

    method Set(fd: nat)
      requires fd != 0
      modifies this
      ensures View() == Spec.Set(old(View()), fd)
    {
      endpoint := fd;
      exchange := true;
    }

    /** The system puts `data` into the buffer. */
    method Read(data: seq<byte>)
      requires Valid() && |data| <= MAX_BUF_SIZE
      modifies readBuf
      ensures View() == Spec.Read(old(View()), data)
    {
      CopyIn(readBuf, data);
    }

    /** The system takes all of the bytes. */
    method Write(data: seq<byte>) returns (sent: seq<byte>)
      requires Valid() && |data| <= MAX_BUF_SIZE
      modifies writeBuf
      ensures View() == Spec.Write(old(View()), data) && sent == data
    {
      CopyIn(writeBuf, data);
      sent := writeBuf[..|data|];
    }

    method GetInputData() returns (data: seq<byte>)
      requires Valid() && exchange
      ensures data == Scan(View().readBuf) && |data| <= MAX_BUF_SIZE
    {
      data := CopyToNul(readBuf);
    }

    method StopAsyncIo(server: LinuxServer)
      requires exchange ==> endpoint in server.kernel.interest
      modifies server.kernel
      ensures server.kernel.interest == if exchange then old(server.kernel.interest) - {endpoint}
                                        else old(server.kernel.interest)
      ensures server.kernel.log == old(server.kernel.log) + if exchange then [Spec.Unregistered(endpoint)] else []
    {
      if !exchange {
        return;
      }
      server.StopAsyncIo(endpoint);
    }

    method Reset(server: LinuxServer)
      modifies this, server.kernel
      ensures View() == Spec.Reset(old(View())) && server.kernel.interest == old(server.kernel.interest)
      ensures server.kernel.log == old(server.kernel.log) + if old(exchange) then [Spec.Closed(old(endpoint))] else []
    {
      if !exchange {
        return;
      }
      server.kernel.Close(endpoint);
      endpoint := 0;
      exchange := false;
    }

    method Disconnect(server: LinuxServer)
      requires exchange ==> endpoint in server.kernel.interest
      modifies this, server.kernel
      ensures View() == Spec.Reset(old(View()))
      ensures server.kernel.interest
           == if old(exchange) then old(server.kernel.interest) - {old(endpoint)} else old(server.kernel.interest)
      ensures server.kernel.log
           == old(server.kernel.log)
               + if old(exchange) then [Spec.Unregistered(old(endpoint)), Spec.Closed(old(endpoint))] else []
    {
      StopAsyncIo(server);
      Reset(server);
    }

    /** The reads of the event are described by `input`. After an exchange both buffers are cleared by
        the length of the chunk; when there was none, or after an exception, they are left alone. */
    method Complete(server: LinuxServer, input: Spec.Input) returns (sent: seq<byte>)
      requires Valid() && exchange && endpoint in server.kernel.interest && server.pool.Separate()
      requires input.Chunk? ==> 0 < |input.data| <= MAX_BUF_SIZE && |input.trailing| <= MAX_BUF_SIZE
      modifies this, readBuf, writeBuf, server.kernel, server.pool, server.pool.active, server.pool.avail
      ensures View() == Outcome(old(View()), input)
      ensures sent == if input.Chunk? then Spec.Reply(old(View()), input.data) else []
      ensures if input.EndOfStream? then
                && server.kernel.interest == old(server.kernel.interest) - {old(endpoint)}
                && server.kernel.log
                   == old(server.kernel.log) + [Spec.Unregistered(old(endpoint)), Spec.Closed(old(endpoint))]
                && server.pool.View() == GiveBack(old(server.pool.View()), id)
              else
                && server.kernel.interest == old(server.kernel.interest)
                && server.kernel.log == old(server.kernel.log)
                && server.pool.View() == old(server.pool.View())
    {
      var result;
      result, sent := server.OnDataExchangeComplete(this, input);
      match result {
        case None =>
        case Some(n) =>
          if n != 0 {
            Fill(readBuf, n);
            Fill(writeBuf, n);
          }
      }
    }
  }

  /** The connection after a data event. */
  ghost function Outcome(c: Spec.Conn, input: Spec.Input): Spec.Conn
    requires Spec.WellFormed(c)
    requires input.Chunk? ==> |input.data| <= MAX_BUF_SIZE && |input.trailing| <= MAX_BUF_SIZE
  {
    match input
    case NothingYet => c
    case ReadFails => c
    case EndOfStream => Spec.Reset(c)
    case Chunk(data, trailing) => Spec.Exchange(c, data, trailing)
  }

  /** No two connections share a buffer. */
  ghost predicate Separate(conns: seq<ConnectionImpl>) {
    forall i, j :: 0 <= i < |conns| && 0 <= j < |conns| ==>
      && conns[i].readBuf != conns[j].writeBuf
      && (i != j ==>
            conns[i] != conns[j] && conns[i].readBuf != conns[j].readBuf && conns[i].writeBuf != conns[j].writeBuf)
  }

  class LinuxServer {
    const pool: ConnectionManager
    const kernel: Kernel
    var conns: seq<ConnectionImpl>
    var newConnection: Option<nat>   // of the acceptor
    ghost var model: Spec.Server
    ghost var repr: set<object>      // the connections and their buffers

    ghost predicate Table(values: seq<Spec.Conn>)
      reads `conns, `repr, repr
    {
      && |conns| == |values|
      && (forall i :: 0 <= i < |conns| ==> conns[i] in repr && conns[i].readBuf in repr && conns[i].writeBuf in repr)
      && (forall i :: 0 <= i < |conns| ==> conns[i].Valid() && conns[i].id == i && conns[i].View() == values[i])
      && Separate(conns)
    }

    /** The objects hold what the model says. */
    ghost predicate Represents()
      reads this, repr, pool, pool.active, pool.avail, kernel
    {
      && {this, pool, pool.active, pool.avail, kernel} !! repr
      && pool.Separate() && pool.View() == model.pool
      && kernel.interest == model.interest && kernel.log == model.log
      && newConnection == model.last
      && Table(model.conns)
    }

    ghost predicate Valid()
      reads this, repr, pool, pool.active, pool.avail, kernel
    {
      Represents() && Spec.Inv(model)
    }

    constructor (count: nat)
      ensures Valid() && model == Spec.Built(count)
      ensures fresh(pool) && fresh(pool.active) && fresh(pool.avail) && fresh(kernel)
      ensures fresh(repr)
    {
      pool := new ConnectionManager(count);
      kernel := new Kernel();
      conns := [];
      repr := {};
      newConnection := None;
      model := Spec.Built(count);
      new;
      for i := 0 to count
        invariant Table(seq(i, k => Spec.FRESH))
        invariant pool.Separate() && pool.View() == Init(count) && model == Spec.Built(count)
        invariant kernel.interest == map[] && kernel.log == [] && newConnection == None
        invariant fresh(pool) && fresh(pool.active) && fresh(pool.avail) && fresh(kernel)
        invariant fresh(repr) && {this, pool, pool.active, pool.avail, kernel} !! repr
      {
        CreateConnection(i, seq(i, k => Spec.FRESH));
        assert seq(i, k => Spec.FRESH) + [Spec.FRESH] == seq(i + 1, k => Spec.FRESH);
      }
      Spec.BuiltInv(count);
    }

    method CreateConnection(e: nat, ghost values: seq<Spec.Conn>)
      requires e == |conns| && Table(values)
      modifies this`conns, this`repr
      ensures Table(values + [Spec.FRESH])
      ensures old(repr) <= repr && fresh(repr - old(repr))
    {
      var connection := new ConnectionImpl(e);
      conns := conns + [connection];
      repr := repr + {connection, connection.readBuf, connection.writeBuf};
    }

    method StartAsyncIo(fd: nat, endpoint: nat)
      requires fd !in kernel.interest
      modifies kernel
      ensures kernel.interest == old(kernel.interest)[fd := endpoint]
      ensures kernel.log == old(kernel.log) + [Spec.Registered(fd)]
    {
      kernel.EpollAdd(fd, endpoint);
    }

    method StopAsyncIo(fd: nat)
      requires fd in kernel.interest
      modifies kernel
      ensures kernel.interest == old(kernel.interest) - {fd}
      ensures kernel.log == old(kernel.log) + [Spec.Unregistered(fd)]
    {
      kernel.EpollDelete(fd);
    }

    /** The number of bytes to clear afterwards; nothing when a read throws. */
    method OnDataExchangeComplete(connection: ConnectionImpl, input: Spec.Input)
      returns (result: Option<nat>, sent: seq<byte>)
      requires connection.Valid() && connection.exchange && connection.endpoint in kernel.interest && pool.Separate()
      requires input.Chunk? ==> 0 < |input.data| <= MAX_BUF_SIZE && |input.trailing| <= MAX_BUF_SIZE
      modifies connection, connection.readBuf, connection.writeBuf, kernel, pool, pool.active, pool.avail
      ensures result == if input.ReadFails? then None else if input.Chunk? then Some(|input.data|) else Some(0)
      ensures connection.View() ==
              match input
              case NothingYet => old(connection.View())
              case ReadFails => old(connection.View())
              case EndOfStream => Spec.Reset(old(connection.View()))
              case Chunk(data, trailing) =>
                var was := old(connection.View());
                Spec.Read(Spec.Write(Spec.Read(was, data), Spec.Reply(was, data)), trailing)
      ensures sent == if input.Chunk? then Spec.Reply(old(connection.View()), input.data) else []
      ensures if input.EndOfStream? then
                && kernel.interest == old(kernel.interest) - {old(connection.endpoint)}
                && kernel.log == old(kernel.log) + [Spec.Unregistered(old(connection.endpoint)),
                                                    Spec.Closed(old(connection.endpoint))]
                && pool.View() == GiveBack(old(pool.View()), connection.id)
              else
                && kernel.interest == old(kernel.interest) && kernel.log == old(kernel.log)
                && pool.View() == old(pool.View())
    {
      sent := [];
      match input {
        case ReadFails =>
          result := None;
        case NothingYet =>
          result := Some(0);
        case EndOfStream =>
          connection.Disconnect(this);
          pool.Release(connection.id);
          result := Some(0);
        case Chunk(data, trailing) =>
          connection.Read(data);
          var text := connection.GetInputData();
          sent := connection.Write(text);
          connection.Read(trailing);
          result := Some(|data|);
      }
    }

    // -------------------------------------------------------------------------------------------
    // One connection of the table changes, the others do not.

    method SetAt(c: nat, fd: nat, ghost values: seq<Spec.Conn>)
      requires Table(values) && this !in repr && c < |conns| && fd != 0
      modifies conns[c]
      ensures Table(values[c := Spec.Set(values[c], fd)])
    {
      conns[c].Set(fd);
    }

    method ReadAt(c: nat, data: seq<byte>, ghost values: seq<Spec.Conn>)
      requires Table(values) && this !in repr && c < |conns| && |data| <= MAX_BUF_SIZE
      modifies conns[c].readBuf
      ensures Table(values[c := Spec.Read(values[c], data)])
    {
      conns[c].Read(data);
    }

    method DestroyAt(c: nat, ghost values: seq<Spec.Conn>)
      requires Table(values) && this !in repr && c < |conns|
      requires values[c].exchange ==> values[c].fd in kernel.interest
      modifies conns[c], kernel
      ensures Table(values[c := Spec.Reset(values[c])])
      ensures kernel.interest == if values[c].exchange then old(kernel.interest) - {values[c].fd}
                                 else old(kernel.interest)
      ensures kernel.log == old(kernel.log)
                          + (if values[c].exchange then [Spec.Unregistered(values[c].fd), Spec.Closed(values[c].fd)]
                             else [])
                          + [Spec.Closed(Spec.Reset(values[c]).fd)]
    {
      conns[c].Disconnect(this);
      assert conns[c].View().fd == Spec.Reset(values[c]).fd;
      kernel.Close(conns[c].endpoint);
    }

    method CompleteAt(c: nat, input: Spec.Input, ghost values: seq<Spec.Conn>) returns (sent: seq<byte>)
      requires Table(values) && c < |conns| && pool.Separate()
      requires {this, pool, pool.active, pool.avail, kernel} !! repr
      requires values[c].exchange && values[c].fd in kernel.interest && Spec.WellFormed(values[c])
      requires input.Chunk? ==> 0 < |input.data| <= MAX_BUF_SIZE && |input.trailing| <= MAX_BUF_SIZE
      modifies conns[c], conns[c].readBuf, conns[c].writeBuf, kernel, pool, pool.active, pool.avail
      ensures Table(values[c := Outcome(values[c], input)])
      ensures sent == if input.Chunk? then Spec.Reply(values[c], input.data) else []
      ensures if input.EndOfStream? then
                && kernel.interest == old(kernel.interest) - {values[c].fd}
                && kernel.log == old(kernel.log) + [Spec.Unregistered(values[c].fd), Spec.Closed(values[c].fd)]
                && pool.View() == GiveBack(old(pool.View()), c)
              else
                && kernel.interest == old(kernel.interest) && kernel.log == old(kernel.log)
                && pool.View() == old(pool.View())
    {
      var connection := conns[c];
      assert connection.View() == values[c];
      sent := connection.Complete(this, input);
      assert connection.View() == Outcome(values[c], input);
    }

    // -------------------------------------------------------------------------------------------
    // What the loop does with an event.

    /** Whether the connection took a descriptor. */
    method AcceptAsync(e: nat, outcome: Spec.AcceptOutcome, ghost values: seq<Spec.Conn>)
      returns (accepted: Option<bool>)
      requires Table(values) && {this, kernel} !! repr && e < |conns|
      requires Spec.Succeeds(outcome) ==> outcome.fd !in kernel.interest
      modifies this`newConnection, kernel, conns[e]
      ensures accepted == if outcome.Fatal? then None else Some(Spec.Succeeds(outcome))
      ensures newConnection == if Spec.Succeeds(outcome) then Some(e) else old(newConnection)
      ensures Table(if Spec.Succeeds(outcome) then values[e := Spec.Set(values[e], outcome.fd)] else values)
      ensures kernel.interest == if Spec.Succeeds(outcome) then old(kernel.interest)[outcome.fd := e]
                                 else old(kernel.interest)
      ensures kernel.log == old(kernel.log) + (if !outcome.Descriptor? then []
                                               else if outcome.fd == 0 then [Spec.Accepted(0)]
                                               else [Spec.Accepted(outcome.fd), Spec.Registered(outcome.fd)])
    {
      match outcome {
        case Fatal => return None;
        case NotReady => return Some(false);
        case Descriptor(fd) =>
          kernel.Accept(fd);
          if fd == 0 {
            return Some(false);
          }
          newConnection := Some(e);
          SetAt(e, fd, values);
          StartAsyncIo(fd, e);
          return Some(true);
      }
    }

    method Obtain() returns (e: nat)
      requires Represents() && Spec.Sized(model)
      modifies this`conns, this`repr, this`model, pool, pool.active, pool.avail
      ensures Represents() && (model, e) == Spec.Obtain(old(model)) && e < |conns|
      ensures old(repr) <= repr && fresh(repr - old(repr))
    {
      ghost var before := pool.View();
      e := pool.Get();
      assert before.avail != [] ==> e in before.avail;
      assert e == |conns| <==> before.avail == [];
      if e == |conns| {
        CreateConnection(e, model.conns);
      }
      model := Spec.Obtain(model).0;
    }

    /** A connection that took no descriptor goes back to the pool. */
    method Decline(e: nat)
      requires Represents()
      modifies this`model, pool, pool.active, pool.avail
      ensures Represents() && model == old(model).(pool := GiveBack(old(model.pool), e))
    {
      pool.Release(e);
      model := model.(pool := GiveBack(model.pool, e));
    }

    /** An exception leaves at once, with the connection still in use. */
    method Settle(e: nat, outcome: Spec.AcceptOutcome) returns (accepted: Option<bool>)
      requires Represents() && e < |conns|
      requires Spec.Succeeds(outcome) ==> outcome.fd !in kernel.interest
      modifies this`newConnection, this`model, pool, pool.active, pool.avail, kernel, conns[e]
      ensures accepted == if outcome.Fatal? then None else Some(Spec.Succeeds(outcome))
      ensures Represents() && model == Spec.Settle(old(model), e, outcome)
    {
      ghost var after := Spec.Settle(model, e, outcome);
      accepted := AcceptAsync(e, outcome, model.conns);
      assert Table(after.conns) && kernel.log == after.log;
      model := after.(pool := model.pool);
      if accepted == Some(false) {
        Decline(e);
      }
    }

    method DoAccept(outcome: Spec.AcceptOutcome) returns (accepted: Option<bool>)
      requires Represents() && Spec.Sized(model)
      requires Spec.Succeeds(outcome) ==> outcome.fd !in kernel.interest
      modifies this, pool, pool.active, pool.avail, kernel, repr
      ensures accepted == if outcome.Fatal? then None else Some(Spec.Succeeds(outcome))
      ensures Represents() && model == Spec.DoAccept(old(model), outcome)
      ensures old(repr) <= repr && fresh(repr - old(repr))
    {
      var e := Obtain();
      accepted := Settle(e, outcome);
    }

    /** Reads from the connection accepted before, and drops what was read. */
    method Peek(previous: nat, peeked: seq<byte>)
      requires Represents() && previous < |conns| && |peeked| <= MAX_BUF_SIZE
      modifies this`model, conns[previous].readBuf
      ensures Represents()
      ensures model == old(model).(conns := old(model.conns)[previous := Spec.Read(old(model.conns[previous]), peeked)])
    {
      ghost var after := model.(conns := model.conns[previous := Spec.Read(model.conns[previous], peeked)]);
      ReadAt(previous, peeked, model.conns);
      model := after;
    }

    method AcceptEvent(outcome: Spec.AcceptOutcome, peeked: seq<byte>)
      requires Represents() && Spec.Sized(model) && |peeked| <= MAX_BUF_SIZE
      requires Spec.Succeeds(outcome) ==> outcome.fd !in kernel.interest
      modifies this, pool, pool.active, pool.avail, kernel, repr
      ensures Represents()
      ensures var t, p := Spec.DoAccept(old(model), outcome), old(model).last;
              model == if Spec.Succeeds(outcome) && p.Some?
                       then t.(conns := t.conns[p.value := Spec.Read(t.conns[p.value], peeked)]) else t
    {
      var previous := newConnection;
      var accepted := DoAccept(outcome);
      if accepted == Some(true) && previous.Some? {
        assert previous.value < |conns|;
        Peek(previous.value, peeked);
      }
    }

    /** An event of the listening socket. The connection accepted before is read once more. */
    method HandleAccept(outcome: Spec.AcceptOutcome, peeked: seq<byte>)
      requires Valid() && Spec.Enabled(model, Spec.AcceptReady(outcome, peeked))
      modifies this, pool, pool.active, pool.avail, kernel, repr
      ensures Valid() && Spec.Next(old(model), Spec.AcceptReady(outcome, peeked)) == Some(model)
    {
      Spec.AcceptKeepsInv(model, outcome, peeked);
      AcceptEvent(outcome, peeked);
    }

    method DataEvent(fd: nat, input: Spec.Input) returns (sent: seq<byte>)
      requires Represents() && fd in model.interest && model.interest[fd] < |model.conns|
      requires var c := model.conns[model.interest[fd]]; c.exchange && c.fd == fd && Spec.WellFormed(c)
      requires input.Chunk? ==> 0 < |input.data| <= MAX_BUF_SIZE && |input.trailing| <= MAX_BUF_SIZE
      modifies this`model, pool, pool.active, pool.avail, kernel
      modifies conns[model.interest[fd]], conns[model.interest[fd]].readBuf, conns[model.interest[fd]].writeBuf
      ensures Represents()
      ensures var s, c := old(model), old(model).interest[fd];
              && sent == (if input.Chunk? then Spec.Reply(s.conns[c], input.data) else [])
              && model == if input.EndOfStream?
                          then Spec.Disconnect(s, c).(pool := GiveBack(s.pool, c))
                          else s.(conns := s.conns[c := Outcome(s.conns[c], input)])
    {
      var c := kernel.interest[fd];
      ghost var after := if input.EndOfStream?
                         then Spec.Disconnect(model, c).(pool := GiveBack(model.pool, c))
                         else model.(conns := model.conns[c := Outcome(model.conns[c], input)]);
      sent := CompleteAt(c, input, model.conns);
      model := after;
    }

    /** An event of a registered descriptor. */
    method HandleData(fd: nat, input: Spec.Input) returns (sent: seq<byte>)
      requires Valid() && Spec.Enabled(model, Spec.DataReady(fd, input))
      modifies this`model, pool, pool.active, pool.avail, kernel
      modifies conns[model.interest[fd]], conns[model.interest[fd]].readBuf, conns[model.interest[fd]].writeBuf
      ensures Valid() && Spec.Next(old(model), Spec.DataReady(fd, input)) == Some(model)
      ensures sent == if input.Chunk? then Spec.Reply(old(model).conns[old(model).interest[fd]], input.data) else []
    {
      Spec.DataKeepsInv(model, fd, input);
      assert model.conns[model.interest[fd] := model.conns[model.interest[fd]]] == model.conns;
      sent := DataEvent(fd, input);
    }

    /** The destructor: every connection disconnects and then closes the descriptor it still names. */
    method Destroy()
      requires Valid()
      modifies this`model, kernel, repr
      ensures Spec.Known(old(model), Deleted(old(model.pool)))
      ensures kernel.log == Spec.DestroyAll(old(model), Deleted(old(model.pool))).log
    {
      Spec.DeletedKnown(model);
      var ids := pool.Purge();
      DestroyEach(ids);
    }

    method DestroyOne(c: nat)
      requires Table(model.conns) && {this, kernel} !! repr && Spec.Releasable(model, c)
      requires kernel.interest == model.interest && kernel.log == model.log
      modifies this`model, kernel, conns[c]
      ensures model == Spec.Destroy(old(model), c)
      ensures Table(model.conns)
      ensures kernel.interest == model.interest && kernel.log == model.log
    {
      DestroyAt(c, model.conns);
      model := Spec.Destroy(model, c);
    }

    method DestroyEach(ids: seq<nat>)
      requires Represents() && Spec.Known(model, ids)
      requires forall k :: 0 <= k < |ids| ==> Spec.Releasable(Spec.DestroyAll(model, ids[..k]), ids[k])
      modifies this`model, kernel, repr
      ensures kernel.log == Spec.DestroyAll(old(model), ids).log
    {
      ghost var start := model;
      for i := 0 to |ids|
        invariant model == Spec.DestroyAll(start, ids[..i])
        invariant Table(model.conns)
        invariant kernel.interest == model.interest && kernel.log == model.log
      {
        assert ids[..i + 1][..i] == ids[..i];
        DestroyOne(ids[i]);
      }
      assert ids[..|ids|] == ids;
    }
  }
}
