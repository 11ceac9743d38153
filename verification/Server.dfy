/** The server's connections: buffers that fill and drain in arbitrary pieces around one dispatcher. */
module Serving {
  import opened Wrappers
  import opened Text
  import opened Encoding
  import opened Framing
  import opened Databases
  import opened Dispatching

  const MAX_REQUEST_SIZE: nat := 1024 * 1024
  const RECV_BUFFER: nat := 4096

  datatype Client = Client(inputBuffer: string, outputBuffer: string)

  /** What has gone over one connection: the bytes taken in for processing, and the bytes sent. */
  datatype Wire = Wire(received: string, sent: string)

  /** One request that was executed for a connection, and its reply. */
  datatype Served = Served(id: int, request: string, reply: string)

  /**
   * The state of the server, with a record of the past: what went over each connection and what was executed, in
   * order. A connection is known by a number of its own; its descriptor may be used again once it is closed.
   */
  datatype ServerState = ServerState(
    store: Store,
    clients: map<int, Client>,
    wires: map<int, Wire>,
    log: seq<Served>)

  // ---------------------------------------------------------- serial execution

  datatype Ran = Ran(store: Store, replies: seq<string>)

  /** Requests executed one by one; `env(n)` is the moment at which request number n runs. */
  function RunRequests(store: Store, requests: seq<string>, first: nat, env: nat -> Moment): (r: Ran)
    ensures |r.replies| == |requests|
    decreases |requests|
  {
    if requests == [] then Ran(store, [])
    else
      var effect := ServeRequest(store, requests[0], env(first));
      var rest := RunRequests(effect.store, requests[1..], first + 1, env);
      Ran(rest.store, [ReplyText(effect.reply)] + rest.replies)
  }

  function Entries(id: int, requests: seq<string>, replies: seq<string>): (r: seq<Served>)
    requires |replies| == |requests|
    ensures |r| == |requests|
    ensures forall i :: 0 <= i < |r| ==> r[i] == Served(id, requests[i], replies[i])
  {
    seq(|requests|, i requires 0 <= i < |requests| => Served(id, requests[i], replies[i]))
  }

  // -------------------------------------------------------------------- events

  datatype Event =
    | Accept(id: int)
    | Receive(id: int, bytes: string)
    | Send(id: int, count: nat)
    | Close(id: int)

  predicate Enabled(s: ServerState, event: Event) {
    match event
    case Accept(id) => id !in s.wires && id !in s.clients
    case Receive(id, bytes) => id in s.clients && id in s.wires && 1 <= |bytes| <= RECV_BUFFER
    case Send(id, count) => id in s.clients && id in s.wires && 1 <= count <= |s.clients[id].outputBuffer|
    case Close(id) => id in s.clients
  }

  /** The requests in the input buffer are cut off and executed, their replies appended to the output buffer. */
  function Process(s: ServerState, id: int, env: nat -> Moment): ServerState
    requires id in s.clients
  {
    var client := s.clients[id];
    var frames := Extract(client.inputBuffer);
    var requests := Texts(frames.cuts);
    var ran := RunRequests(s.store, requests, |s.log|, env);
    ServerState(
      ran.store,
      s.clients[id := Client(frames.rest, client.outputBuffer + Concat(ran.replies))],
      s.wires,
      s.log + Entries(id, requests, ran.replies))
  }

  /** The state when bytes have been appended to an input buffer but nothing cut from it. */
  function Appended(s: ServerState, id: int, bytes: string): ServerState
    requires id in s.clients && id in s.wires
  {
    var client, wire := s.clients[id], s.wires[id];
    s.(clients := s.clients[id := client.(inputBuffer := client.inputBuffer + bytes)],
       wires := s.wires[id := wire.(received := wire.received + bytes)])
  }

  /** The outcome of one `recv` that delivers bytes; an input buffer above the limit closes the connection. */
  function Received(s: ServerState, id: int, bytes: string, env: nat -> Moment): ServerState
    requires id in s.clients && id in s.wires
  {
    if |s.clients[id].inputBuffer + bytes| > MAX_REQUEST_SIZE then s.(clients := s.clients - {id})
    else Process(Appended(s, id, bytes), id, env)
  }

  function Sent(s: ServerState, id: int, count: nat): ServerState
    requires id in s.clients && id in s.wires && count <= |s.clients[id].outputBuffer|
  {
    var client, wire := s.clients[id], s.wires[id];
    s.(clients := s.clients[id := client.(outputBuffer := client.outputBuffer[count..])],
       wires := s.wires[id := wire.(sent := wire.sent + client.outputBuffer[..count])])
  }

  function Next(s: ServerState, event: Event, env: nat -> Moment): ServerState
    requires Enabled(s, event)
  {
    match event
    case Accept(id) => s.(clients := s.clients[id := Client("", "")], wires := s.wires[id := Wire("", "")])
    case Receive(id, bytes) => Received(s, id, bytes, env)
    case Send(id, count) => Sent(s, id, count)
    case Close(id) => s.(clients := s.clients - {id})
  }

  predicate CanRun(s: ServerState, events: seq<Event>, env: nat -> Moment)
    decreases |events|
  {
    events == [] || (Enabled(s, events[0]) && CanRun(Next(s, events[0], env), events[1..], env))
  }

  function Run(s: ServerState, events: seq<Event>, env: nat -> Moment): ServerState
    requires CanRun(s, events, env)
    decreases |events|
  {
    if events == [] then s else Run(Next(s, events[0], env), events[1..], env)
  }

  // ------------------------------------------------------- the event handlers

  /** What one call of `recv` on a non-blocking socket can answer. */
  datatype Recv = Data(bytes: string) | EndOfFile | RecvInterrupted | RecvWouldBlock | RecvError

  predicate Possible(recv: Recv) { recv.Data? ==> 1 <= |recv.bytes| <= RECV_BUFFER }

  /** What one call of `send` can answer; a count larger than what was offered stands for all of it. */
  datatype SendAnswer = Accepted(count: nat) | SendInterrupted | SendWouldBlock | SendError

  /** What the read handler makes of the answers of its `recv` calls. */
  function ReadLoop(s: ServerState, id: int, recvs: seq<Recv>, env: nat -> Moment): ServerState
    requires id in s.clients ==> id in s.wires
    decreases |recvs|
  {
    if id !in s.clients || recvs == [] then s
    else match recvs[0]
      case Data(bytes) => ReadLoop(Received(s, id, bytes, env), id, recvs[1..], env)
      case RecvInterrupted => ReadLoop(s, id, recvs[1..], env)
      case RecvWouldBlock => s
      case EndOfFile => s.(clients := s.clients - {id})
      case RecvError => s.(clients := s.clients - {id})
  }

  /** What the write handler makes of the answers of its `send` calls. */
  function WriteLoop(s: ServerState, id: int, sends: seq<SendAnswer>): ServerState
    requires id in s.clients ==> id in s.wires
    decreases |sends|
  {
    if id !in s.clients || sends == [] || s.clients[id].outputBuffer == "" then s
    else match sends[0]
      case Accepted(count) =>
        var size := |s.clients[id].outputBuffer|;
        if count == 0 then s.(clients := s.clients - {id})
        else WriteLoop(Sent(s, id, if count > size then size else count), id, sends[1..])
      case SendInterrupted => WriteLoop(s, id, sends[1..])
      case SendWouldBlock => s
      case SendError => s.(clients := s.clients - {id})
  }

  // ------------------------------------------------------------- descriptors

  /** Open descriptors and open connections correspond one to one. */
  ghost predicate Linked(clients: map<int, Client>, connection: map<int, int>, descriptor: map<int, int>) {
    && (forall fd :: fd in clients ==> fd in connection)
    && (forall fd :: fd in connection ==> connection[fd] in descriptor && descriptor[connection[fd]] == fd)
    && (forall id :: id in descriptor ==>
          descriptor[id] in clients && descriptor[id] in connection && connection[descriptor[id]] == id)
  }

  /** The open connections by their numbers. */
  ghost function View(clients: map<int, Client>, descriptor: map<int, int>): map<int, Client>
  {
    map id | id in descriptor && descriptor[id] in clients :: clients[descriptor[id]]
  }

  lemma ViewUpdate(clients: map<int, Client>, connection: map<int, int>, descriptor: map<int, int>, fd: int, c: Client)
    requires Linked(clients, connection, descriptor) && fd in clients
    ensures Linked(clients[fd := c], connection, descriptor)
    ensures View(clients[fd := c], descriptor) == View(clients, descriptor)[connection[fd] := c]
  {
    var id := connection[fd];
    var before, after := View(clients, descriptor)[id := c], View(clients[fd := c], descriptor);
    forall other ensures other in after <==> other in before {
    }
    forall other | other in after ensures after[other] == before[other] {
    }
  }

  lemma LinkAccept(clients: map<int, Client>, connection: map<int, int>, descriptor: map<int, int>, fd: int, id: int,
                   c: Client)
    requires Linked(clients, connection, descriptor) && fd !in clients && id !in descriptor
    ensures Linked(clients[fd := c], connection[fd := id], descriptor[id := fd])
  {
  }

  lemma ViewAccept(clients: map<int, Client>, connection: map<int, int>, descriptor: map<int, int>, fd: int, id: int,
                   c: Client)
    requires Linked(clients, connection, descriptor) && fd !in clients && id !in descriptor
    ensures Linked(clients[fd := c], connection[fd := id], descriptor[id := fd])
    ensures View(clients[fd := c], descriptor[id := fd]) == View(clients, descriptor)[id := c]
  {
    LinkAccept(clients, connection, descriptor, fd, id, c);
    assert forall other :: other in descriptor ==> descriptor[other] in clients;
    hide Linked;
    var before, after := View(clients, descriptor)[id := c], View(clients[fd := c], descriptor[id := fd]);
    forall other ensures other in after <==> other in before {
    }
    forall other | other in after ensures after[other] == before[other] {
    }
  }

  lemma ViewClose(clients: map<int, Client>, connection: map<int, int>, descriptor: map<int, int>, fd: int)
    requires Linked(clients, connection, descriptor) && fd in clients
    ensures Linked(clients - {fd}, connection - {fd}, descriptor - {connection[fd]})
    ensures View(clients - {fd}, descriptor - {connection[fd]}) == View(clients, descriptor) - {connection[fd]}
  {
    var id := connection[fd];
    var before, after := View(clients, descriptor) - {id}, View(clients - {fd}, descriptor - {id});
    forall other ensures other in after <==> other in before {
    }
    forall other | other in after ensures after[other] == before[other] {
    }
  }

  class Server {
    const database: Database
    const dispatcher: CommandDispatcher
    const env: nat -> Moment
    var executed: nat
    var clients: map<int, Client>
    ghost var connection: map<int, int>
    ghost var descriptor: map<int, int>
    ghost var accepted: nat
    ghost var wires: map<int, Wire>
    ghost var log: seq<Served>

    /** `env` gives the clock readings, and the fate of a SAVE, for each request in the order of execution. */
    constructor (env: nat -> Moment)
      ensures Valid() && fresh(database) && fresh(dispatcher) && accepted == 0
      ensures this.env == env && State() == ServerState(map[], map[], map[], [])
    {
      var db := new Database();
      database := db;
      dispatcher := new CommandDispatcher(db);
      this.env := env;
      executed, accepted, clients, connection, descriptor, wires, log := 0, 0, map[], map[], map[], map[], [];
    }

    ghost predicate Valid()
      reads this
    {
      && dispatcher.database == database && executed == |log| && Linked(clients, connection, descriptor)
      && (forall id :: id in descriptor ==> id in wires)
      && (forall id :: id in wires ==> 0 <= id < accepted)
    }

    ghost function State(): ServerState
      requires Valid()
      reads this, database
    {
      ServerState(database.store, View(clients, descriptor), wires, log)
    }

    /** The system hands out any descriptor that is not open; the connection gets the next number. */
    method AcceptClient(fd: int)
      requires Valid() && fd !in clients
      modifies this
      ensures Valid() && accepted == old(accepted) + 1 && Enabled(old(State()), Accept(old(accepted)))
      ensures connection == old(connection)[fd := old(accepted)]
      ensures State() == Next(old(State()), Accept(old(accepted)), env)
    {
      ViewAccept(clients, connection, descriptor, fd, accepted, Client("", ""));
      clients := clients[fd := Client("", "")];
      connection, descriptor := connection[fd := accepted], descriptor[accepted := fd];
      wires := wires[accepted := Wire("", "")];
      accepted := accepted + 1;
    }

    /** A descriptor that is not open is left alone. */
    method CloseClient(fd: int)
      requires Valid()
      modifies this`clients, this`connection, this`descriptor
      ensures Valid() && clients == old(clients) - {fd} && connection == old(connection) - {fd}
      ensures fd !in old(clients) ==> State() == old(State())
      ensures fd in old(clients) ==>
                old(connection)[fd] in old(State()).clients
                && State() == Next(old(State()), Close(old(connection)[fd]), env)
    {
      if fd !in clients {
        assert clients - {fd} == clients && connection - {fd} == connection;
        return;
      }
      ViewClose(clients, connection, descriptor, fd);
      clients := clients - {fd};
      descriptor, connection := descriptor - {connection[fd]}, connection - {fd};
    }

    /** The requests of one buffer, executed in order; their replies joined. */
    method ExecuteRequests(requests: seq<string>) returns (output: string)
      requires Valid()
      modifies database, this`executed
      ensures executed == old(executed) + |requests|
      ensures var ran := RunRequests(old(database.store), requests, old(executed), env);
              database.store == ran.store && output == Concat(ran.replies)
    {
      hide ServeRequest, ReplyText, RunRequests, Concat, Linked;
      ghost var ran := RunRequests(database.store, requests, executed, env);
      ghost var replies: seq<string> := [];
      output := "";
      var i: nat := 0;
      RunNone(ran, database.store, requests, executed, env);
      while i < |requests|
        invariant i <= |requests| && executed == old(executed) + i && dispatcher.database == database
        invariant output == Concat(replies)
        invariant ran == After(replies, RunRequests(database.store, requests[i..], executed, env))
      {
        RunOne(replies, database.store, requests, i, executed, env);
        var response := dispatcher.Execute(requests[i], env(executed));
        executed := executed + 1;
        ConcatLast(replies, response);
        output := output + response;
        replies := replies + [response];
        i := i + 1;
      }
      RunEnd(replies, database.store, requests, executed, env);
    }

    method ProcessClientBuffer(fd: int)
      requires Valid() && fd in clients && |clients[fd].inputBuffer| <= STRING_MAX
      modifies this`executed, this`clients, this`log, database
      ensures Valid() && fd in clients && State() == Process(old(State()), connection[fd], env)
    {
      hide Extract, Texts, RunRequests, Linked;
      var client := clients[fd];
      assert client == State().clients[connection[fd]] by { OpenClient(clients, connection, descriptor, fd); }
      var requests, rest := ExtractRequests(client.inputBuffer);
      ghost var ran := RunRequests(database.store, requests, executed, env);
      var output := ExecuteRequests(requests);
      ViewUpdate(clients, connection, descriptor, fd, Client(rest, client.outputBuffer + output));
      clients := clients[fd := Client(rest, client.outputBuffer + output)];
      log := log + Entries(connection[fd], requests, ran.replies);
    }

    /** The bytes of one `recv` join the input buffer. */
    method AppendInput(fd: int, bytes: string)
      requires Valid() && fd in clients
      modifies this`clients, this`wires
      ensures Valid() && fd in clients && clients[fd].inputBuffer == old(clients)[fd].inputBuffer + bytes
      ensures connection[fd] in old(State()).clients && connection[fd] in old(State()).wires
      ensures State() == Appended(old(State()), connection[fd], bytes)
    {
      var client := clients[fd];
      OpenClient(clients, connection, descriptor, fd);
      ViewUpdate(clients, connection, descriptor, fd, client.(inputBuffer := client.inputBuffer + bytes));
      ghost var id := connection[fd];
      assert id in descriptor;
      ghost var wire := wires[id];
      clients := clients[fd := client.(inputBuffer := client.inputBuffer + bytes)];
      wires := wires[id := wire.(received := wire.received + bytes)];
    }

    /** The read handler, `recvs` being the answers of its `recv` calls. */
    method HandleRead(fd: int, recvs: seq<Recv>)
      requires Valid() && forall i :: 0 <= i < |recvs| ==> Possible(recvs[i])
      modifies this, database
      ensures Valid()
      ensures State() == if fd in old(clients) then ReadLoop(old(State()), old(connection)[fd], recvs, env)
                         else old(State())
    {
      if fd !in clients {
        return;
      }
      hide Extract, RunRequests, Linked, View, Process, Appended;
      ghost var id := connection[fd];
      OpenClient(clients, connection, descriptor, fd);
      var i: nat := 0;
      assert recvs[0..] == recvs;
      while i < |recvs|
        invariant i <= |recvs| && Valid() && fd in clients && fd in connection && connection[fd] == id
        invariant id in State().clients && id in wires
        invariant ReadLoop(State(), id, recvs[i..], env) == ReadLoop(old(State()), id, recvs, env)
        decreases |recvs| - i
      {
        var answer := recvs[i];
        assert recvs[i..][0] == answer && recvs[i..][1..] == recvs[i + 1..];
        i := i + 1;
        match answer {
          case Data(bytes) =>
            ghost var before := State();
            OpenClient(clients, connection, descriptor, fd);
            if |clients[fd].inputBuffer + bytes| > MAX_REQUEST_SIZE {
              CloseClient(fd);
              return;
            }
            AppendInput(fd, bytes);
            ProcessClientBuffer(fd);
            assert State() == Received(before, id, bytes, env);
            OpenClient(clients, connection, descriptor, fd);
          case RecvInterrupted =>
          case RecvWouldBlock =>
            return;
          case EndOfFile =>
            CloseClient(fd);
            return;
          case RecvError =>
            CloseClient(fd);
            return;
        }
      }
    }

    /** The bytes a `send` took leave the output buffer. */
    method EraseOutput(fd: int, count: nat)
      requires Valid() && fd in clients && count <= |clients[fd].outputBuffer|
      modifies this`clients, this`wires
      ensures Valid() && fd in clients && connection[fd] in old(State()).clients && connection[fd] in old(State()).wires
      ensures old(State()).clients[connection[fd]] == old(clients)[fd]
      ensures State() == Sent(old(State()), connection[fd], count)
    {
      var client := clients[fd];
      OpenClient(clients, connection, descriptor, fd);
      ViewUpdate(clients, connection, descriptor, fd, client.(outputBuffer := client.outputBuffer[count..]));
      ghost var id := connection[fd];
      assert id in descriptor;
      ghost var wire := wires[id];
      clients := clients[fd := client.(outputBuffer := client.outputBuffer[count..])];
      wires := wires[id := wire.(sent := wire.sent + client.outputBuffer[..count])];
    }

    method HandleWrite(fd: int, sends: seq<SendAnswer>)
      requires Valid()
      modifies this
      ensures Valid()
      ensures State() == if fd in old(clients) then WriteLoop(old(State()), old(connection)[fd], sends)
                         else old(State())
    {
      if fd !in clients {
        return;
      }
      hide Linked, View, Sent;
      ghost var id := connection[fd];
      var i: nat := 0;
      assert sends[0..] == sends;
      OpenClient(clients, connection, descriptor, fd);
      while i < |sends| && clients[fd].outputBuffer != ""
        invariant i <= |sends| && Valid() && fd in clients && fd in connection && connection[fd] == id
        invariant id in State().clients && State().clients[id] == clients[fd] && id in wires
        invariant WriteLoop(State(), id, sends[i..]) == WriteLoop(old(State()), id, sends)
        decreases |sends| - i
      {
        var answer := sends[i];
        assert sends[i..][0] == answer && sends[i..][1..] == sends[i + 1..];
        i := i + 1;
        match answer {
          case Accepted(offered) =>
            if offered == 0 {
              CloseClient(fd);
              return;
            }
            var size := |clients[fd].outputBuffer|;
            EraseOutput(fd, if offered > size then size else offered);
            OpenClient(clients, connection, descriptor, fd);
          case SendInterrupted =>
          case SendWouldBlock =>
            return;
          case SendError =>
            CloseClient(fd);
            return;
        }
      }
    }
  }

  lemma OpenClient(clients: map<int, Client>, connection: map<int, int>, descriptor: map<int, int>, fd: int)
    requires Linked(clients, connection, descriptor) && fd in clients
    ensures fd in connection && connection[fd] in descriptor
    ensures connection[fd] in View(clients, descriptor) && View(clients, descriptor)[connection[fd]] == clients[fd]
  {
  }

  lemma ConcatLast(parts: seq<string>, last: string)
    ensures Concat(parts + [last]) == Concat(parts) + last
  {
    ConcatAppend(parts, [last]);
    assert Concat([last]) == last + Concat([]) == last;
  }

  /** The rest of a run, after some replies. */
  function After(replies: seq<string>, rest: Ran): Ran { Ran(rest.store, replies + rest.replies) }

  lemma RunNone(ran: Ran, store: Store, requests: seq<string>, first: nat, env: nat -> Moment)
    requires ran == RunRequests(store, requests, first, env)
    ensures ran == After([], RunRequests(store, requests[0..], first, env))
    ensures Concat([]) == ""
  {
    assert requests[0..] == requests;
  }

  lemma RunEnd(replies: seq<string>, store: Store, requests: seq<string>, number: nat, env: nat -> Moment)
    ensures After(replies, RunRequests(store, requests[|requests|..], number, env)) == Ran(store, replies)
  {
  }

  /** One more request, executed. */
  lemma RunOne(replies: seq<string>, store: Store, requests: seq<string>, i: nat, number: nat, env: nat -> Moment)
    requires i < |requests|
    ensures var effect := ServeRequest(store, requests[i], env(number));
            After(replies, RunRequests(store, requests[i..], number, env)) ==
            After(replies + [ReplyText(effect.reply)], RunRequests(effect.store, requests[i + 1..], number + 1, env))
  {
    hide ServeRequest, ReplyText;
    assert requests[i..][0] == requests[i] && requests[i..][1..] == requests[i + 1..];
  }
}
