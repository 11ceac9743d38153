/** Whole runs of the server, with any number of connections, against executing commands one by one. */
module ServerRefinement {
  import opened Wrappers
  import opened Text
  import opened Encoding
  import opened Framing
  import opened FramerChunks
  import opened Databases
  import opened Dispatching
  import opened Serving

  // ------------------------------------------------ the log, seen from one connection

  function Requests(log: seq<Served>): (r: seq<string>)
    ensures |r| == |log|
  {
    if log == [] then [] else Requests(log[..|log| - 1]) + [log[|log| - 1].request]
  }

  function Replies(log: seq<Served>): (r: seq<string>)
    ensures |r| == |log|
  {
    if log == [] then [] else Replies(log[..|log| - 1]) + [log[|log| - 1].reply]
  }

  /** The part of the log that belongs to one connection. */
  function For(log: seq<Served>, id: int): (r: seq<Served>)
    ensures |r| <= |log|
  {
    if log == [] then []
    else
      var last := log[|log| - 1];
      For(log[..|log| - 1], id) + if last.id == id then [last] else []
  }

  lemma {:induction false} RequestsAppend(a: seq<Served>, b: seq<Served>)
    ensures Requests(a + b) == Requests(a) + Requests(b)
  {
    if b == [] {
      NothingAdded(a);
      NothingAdded(Requests(a));
    } else {
      var n := |b| - 1;
      SplitLast(a, b);
      RequestsAppend(a, b[..n]);
      Associate(Requests(a), Requests(b[..n]), [b[n].request]);
    }
  }

  lemma {:induction false} RepliesAppend(a: seq<Served>, b: seq<Served>)
    ensures Replies(a + b) == Replies(a) + Replies(b)
  {
    if b == [] {
      NothingAdded(a);
      NothingAdded(Replies(a));
    } else {
      var n := |b| - 1;
      SplitLast(a, b);
      RepliesAppend(a, b[..n]);
      Associate(Replies(a), Replies(b[..n]), [b[n].reply]);
    }
  }

  lemma {:induction false} ForAppend(a: seq<Served>, b: seq<Served>, id: int)
    ensures For(a + b, id) == For(a, id) + For(b, id)
  {
    if b == [] {
      NothingAdded(a);
      NothingAdded(For(a, id));
    } else {
      var n := |b| - 1;
      SplitLast(a, b);
      ForAppend(a, b[..n], id);
      Associate(For(a, id), For(b[..n], id), if b[n].id == id then [b[n]] else []);
    }
  }

  lemma LogAppend(a: seq<Served>, b: seq<Served>, id: int)
    ensures Requests(a + b) == Requests(a) + Requests(b)
    ensures Replies(a + b) == Replies(a) + Replies(b)
    ensures For(a + b, id) == For(a, id) + For(b, id)
  {
    RequestsAppend(a, b);
    RepliesAppend(a, b);
    ForAppend(a, b, id);
  }

  /** The entries of all requests but the last, then the last. */
  lemma EntriesLast(id: int, requests: seq<string>, replies: seq<string>)
    requires |replies| == |requests| && requests != []
    ensures var n := |requests| - 1;
            var log := Entries(id, requests, replies);
            log[..n] == Entries(id, requests[..n], replies[..n]) && log[n] == Served(id, requests[n], replies[n])
  {
  }

  lemma {:induction false} EntriesRequests(id: int, requests: seq<string>, replies: seq<string>)
    requires |replies| == |requests|
    ensures Requests(Entries(id, requests, replies)) == requests
    decreases |requests|
  {
    if requests != [] {
      var n := |requests| - 1;
      EntriesLast(id, requests, replies);
      hide Entries;
      EntriesRequests(id, requests[..n], replies[..n]);
      assert requests == requests[..n] + [requests[n]];
    }
  }

  lemma {:induction false} EntriesReplies(id: int, requests: seq<string>, replies: seq<string>)
    requires |replies| == |requests|
    ensures Replies(Entries(id, requests, replies)) == replies
    decreases |requests|
  {
    if requests != [] {
      var n := |requests| - 1;
      EntriesLast(id, requests, replies);
      hide Entries;
      EntriesReplies(id, requests[..n], replies[..n]);
      assert replies == replies[..n] + [replies[n]];
    }
  }

  lemma {:induction false} EntriesFor(id: int, requests: seq<string>, replies: seq<string>, other: int)
    requires |replies| == |requests|
    ensures For(Entries(id, requests, replies), other) == if other == id then Entries(id, requests, replies) else []
    decreases |requests|
  {
    if requests != [] {
      var n := |requests| - 1;
      EntriesLast(id, requests, replies);
      hide Entries;
      EntriesFor(id, requests[..n], replies[..n], other);
      var log := Entries(id, requests, replies);
      assert log == log[..n] + [log[n]];
    }
  }

  lemma EntriesParts(id: int, requests: seq<string>, replies: seq<string>, other: int)
    requires |replies| == |requests|
    ensures Requests(Entries(id, requests, replies)) == requests
    ensures Replies(Entries(id, requests, replies)) == replies
    ensures For(Entries(id, requests, replies), other) == if other == id then Entries(id, requests, replies) else []
  {
    hide Requests, Replies, For, Entries;
    EntriesRequests(id, requests, replies);
    EntriesReplies(id, requests, replies);
    EntriesFor(id, requests, replies, other);
  }

  lemma {:induction false} RunAppend(store: Store, a: seq<string>, b: seq<string>, first: nat, env: nat -> Moment)
    ensures var x := RunRequests(store, a, first, env);
            var y := RunRequests(x.store, b, first + |a|, env);
            RunRequests(store, a + b, first, env) == Ran(y.store, x.replies + y.replies)
    decreases |a|
  {
    hide ServeRequest, ReplyText;
    if a == [] {
      NothingAdded(b);
    } else {
      var effect := ServeRequest(store, a[0], env(first));
      var tail := a[1..];
      RunAppend(effect.store, tail, b, first + 1, env);
      SplitFirst(a, b);
      var x := RunRequests(effect.store, tail, first + 1, env);
      assert first + 1 + |tail| == first + |a|;
      var y := RunRequests(x.store, b, first + |a|, env);
      assert RunRequests(store, a + b, first, env) == Ran(y.store, [ReplyText(effect.reply)] + (x.replies + y.replies));
      assert [ReplyText(effect.reply)] + (x.replies + y.replies) == [ReplyText(effect.reply)] + x.replies + y.replies;
    }
  }

  // ------------------------------------------------------------- invariant

  /** The log is a serial execution that leads from the first store to the present one. */
  predicate Serial(start: Store, s: ServerState, env: nat -> Moment) {
    RunRequests(start, Requests(s.log), 0, env) == Ran(s.store, Replies(s.log))
  }

  /**
   * What an open connection was answered is sent or waits in its output buffer; a closed one was sent some beginning
   * of it.
   */
  predicate Answered(s: ServerState, id: int) {
    && (id in s.clients ==>
          id in s.wires && s.wires[id].sent + s.clients[id].outputBuffer == Concat(Replies(For(s.log, id))))
    && (id in s.wires ==> s.wires[id].sent <= Concat(Replies(For(s.log, id))))
  }

  /**
   * Unless the bytes of a connection make the framer leave its loop on an error, its requests are those of one call
   * of the framer on all of them, and the rest is in its input buffer.
   */
  predicate Framed(s: ServerState, id: int) {
    id in s.wires ==>
      var frames := Extract(s.wires[id].received);
      !frames.stopped ==>
        Requests(For(s.log, id)) == Texts(frames.cuts) && (id in s.clients ==> s.clients[id].inputBuffer == frames.rest)
  }

  predicate Unused(s: ServerState, id: int) {
    id !in s.wires ==> id !in s.clients && For(s.log, id) == []
  }

  ghost predicate Inv(start: Store, s: ServerState, env: nat -> Moment) {
    && Serial(start, s, env)
    && forall id :: Answered(s, id) && Framed(s, id) && Unused(s, id)
  }

  function Initial(start: Store): ServerState { ServerState(start, map[], map[], []) }

  lemma InvInitial(start: Store, env: nat -> Moment)
    ensures Inv(start, Initial(start), env)
  {
  }

  lemma LongerLogIsSerial(start: Store, s: ServerState, t: ServerState, added: seq<Served>, env: nat -> Moment)
    requires Serial(start, s, env) && t.log == s.log + added
    requires RunRequests(s.store, Requests(added), |s.log|, env) == Ran(t.store, Replies(added))
    ensures Serial(start, t, env)
  {
    hide RunRequests, Requests, Replies;
    RunAppend(start, Requests(s.log), Requests(added), 0, env);
    RequestsAppend(s.log, added);
    RepliesAppend(s.log, added);
  }

  lemma ProcessIsSerial(start: Store, s: ServerState, id: int, env: nat -> Moment)
    requires Serial(start, s, env) && id in s.clients
    ensures Serial(start, Process(s, id, env), env)
  {
    hide Extract, RunRequests, Requests, Replies, Texts, Serial;
    var requests := Texts(Extract(s.clients[id].inputBuffer).cuts);
    var ran := RunRequests(s.store, requests, |s.log|, env);
    EntriesParts(id, requests, ran.replies, id);
    LongerLogIsSerial(start, s, Process(s, id, env), Entries(id, requests, ran.replies), env);
  }

  /** What processing adds to the log, seen from any connection. */
  lemma ProcessedLog(s: ServerState, id: int, env: nat -> Moment, other: int)
    requires id in s.clients
    ensures var requests := Texts(Extract(s.clients[id].inputBuffer).cuts);
            var ran := RunRequests(s.store, requests, |s.log|, env);
            var after := For(Process(s, id, env).log, other);
            && Requests(after) == Requests(For(s.log, other)) + (if other == id then requests else [])
            && Replies(after) == Replies(For(s.log, other)) + (if other == id then ran.replies else [])
            && (other != id ==> after == For(s.log, other))
  {
    hide Extract, RunRequests, Requests, Replies, Texts, For;
    var requests := Texts(Extract(s.clients[id].inputBuffer).cuts);
    var ran := RunRequests(s.store, requests, |s.log|, env);
    var added := Entries(id, requests, ran.replies);
    LogAppend(s.log, added, other);
    EntriesParts(id, requests, ran.replies, other);
    if other == id {
      LogAppend(For(s.log, other), added, other);
    } else {
      assert For(s.log, other) + [] == For(s.log, other);
      assert Requests(For(s.log, other)) + [] == Requests(For(s.log, other));
      assert Replies(For(s.log, other)) + [] == Replies(For(s.log, other));
    }
  }

  lemma ReceivedKeepsAnswers(s: ServerState, id: int, bytes: string, env: nat -> Moment, other: int)
    requires id in s.clients && id in s.wires && Answered(s, other)
    ensures Answered(Received(s, id, bytes, env), other)
  {
    hide Extract, RunRequests, Requests, Replies, Texts, For, Concat;
    var t := Appended(s, id, bytes);
    ProcessedLog(t, id, env, other);
    if other == id {
      var requests := Texts(Extract(t.clients[id].inputBuffer).cuts);
      var ran := RunRequests(t.store, requests, |t.log|, env);
      ConcatAppend(Replies(For(s.log, id)), ran.replies);
      StillABeginning(s.wires[id].sent, s.clients[id].outputBuffer, Concat(ran.replies));
    }
  }

  lemma StillABeginning(sent: string, waiting: string, more: string)
    ensures sent + (waiting + more) == sent + waiting + more && sent <= sent + waiting + more
  {
  }

  lemma ReceivedKeepsFrames(s: ServerState, id: int, bytes: string, env: nat -> Moment, other: int)
    requires id in s.clients && id in s.wires && Framed(s, other)
    ensures Framed(Received(s, id, bytes, env), other)
  {
    hide Extract, RunRequests, Requests, Replies, Texts, For, Concat;
    var t := Appended(s, id, bytes);
    ProcessedLog(t, id, env, other);
    if other == id && |t.clients[id].inputBuffer| <= MAX_REQUEST_SIZE {
      var before, now := s.wires[id].received, t.wires[id].received;
      if !Extract(now).stopped {
        if Extract(before).stopped {
          StoppedStays(before, bytes);
        }
        ChunkIndependence(before, bytes);
        TextsAppend(Extract(before).cuts, Extract(Extract(before).rest + bytes).cuts);
      }
    }
  }

  lemma ReceivedKeepsUnused(s: ServerState, id: int, bytes: string, env: nat -> Moment, other: int)
    requires id in s.clients && id in s.wires && Unused(s, other)
    ensures Unused(Received(s, id, bytes, env), other)
  {
    hide Extract, RunRequests, Requests, Replies, Texts, For, Concat;
    ProcessedLog(Appended(s, id, bytes), id, env, other);
  }

  lemma InvReceive(start: Store, s: ServerState, id: int, bytes: string, env: nat -> Moment)
    requires Inv(start, s, env) && Enabled(s, Receive(id, bytes))
    ensures Inv(start, Received(s, id, bytes, env), env)
  {
    var t := Received(s, id, bytes, env);
    assert Serial(start, t, env) by {
      var a := Appended(s, id, bytes);
      assert Serial(start, a, env);
      ProcessIsSerial(start, a, id, env);
    }
    hide Serial, Answered, Framed, Unused, Received;
    forall other ensures Answered(t, other) && Framed(t, other) && Unused(t, other) {
      ReceivedKeepsAnswers(s, id, bytes, env, other);
      ReceivedKeepsFrames(s, id, bytes, env, other);
      ReceivedKeepsUnused(s, id, bytes, env, other);
    }
  }

  lemma InvStep(start: Store, s: ServerState, event: Event, env: nat -> Moment)
    requires Inv(start, s, env) && Enabled(s, event)
    ensures Inv(start, Next(s, event, env), env)
  {
    hide Extract, RunRequests, Requests, Replies, Texts, For, Concat;
    match event
    case Accept(id) =>
      NothingYet();
      assert Unused(s, id);
      var t := Next(s, event, env);
      forall other ensures Answered(t, other) && Framed(t, other) && Unused(t, other) {
        assert Answered(s, other) && Framed(s, other) && Unused(s, other);
      }
    case Receive(id, bytes) => InvReceive(start, s, id, bytes, env);
    case Send(id, count) =>
      var t := Next(s, event, env);
      forall other ensures Answered(t, other) && Framed(t, other) && Unused(t, other) {
        assert Answered(s, other) && Framed(s, other) && Unused(s, other);
        var output := s.clients[id].outputBuffer;
        Associate(s.wires[id].sent, output[..count], output[count..]);
        assert output[..count] + output[count..] == output;
        StillABeginning(s.wires[id].sent + output[..count], output[count..], "");
      }
    case Close(id) =>
      var t := Next(s, event, env);
      forall other ensures Answered(t, other) && Framed(t, other) && Unused(t, other) {
        assert Answered(s, other) && Framed(s, other) && Unused(s, other);
      }
  }

  lemma NothingYet()
    ensures Extract("") == Frames([], "", false) && Texts([]) == [] && Requests([]) == [] && Replies([]) == []
    ensures Concat([]) == "" && "" + "" == ""
  {
  }

  lemma {:induction false} InvRun(start: Store, s: ServerState, events: seq<Event>, env: nat -> Moment)
    requires Inv(start, s, env) && CanRun(s, events, env)
    ensures Inv(start, Run(s, events, env), env)
    decreases |events|
  {
    if events != [] {
      hide Inv, Next, Enabled;
      InvStep(start, s, events[0], env);
      InvRun(start, Next(s, events[0], env), events[1..], env);
    }
  }

  // ------------------------------------------------ handlers are runs of events

  /** Whatever the read handler does is a run of the server. */
  lemma {:induction false} ReadLoopIsARun(s: ServerState, id: int, recvs: seq<Recv>, env: nat -> Moment)
    returns (events: seq<Event>)
    requires id in s.clients ==> id in s.wires
    requires forall i :: 0 <= i < |recvs| ==> Possible(recvs[i])
    ensures CanRun(s, events, env) && Run(s, events, env) == ReadLoop(s, id, recvs, env)
    decreases |recvs|
  {
    hide Extract, RunRequests;
    if id !in s.clients || recvs == [] || recvs[0].RecvWouldBlock? {
      return [];
    }
    assert Possible(recvs[0]);
    if recvs[0].Data? {
      var rest := ReadLoopIsARun(Received(s, id, recvs[0].bytes, env), id, recvs[1..], env);
      events := [Receive(id, recvs[0].bytes)] + rest;
      assert events[1..] == rest;
    } else if recvs[0].RecvInterrupted? {
      events := ReadLoopIsARun(s, id, recvs[1..], env);
    } else {
      events := [Close(id)];
      assert events[1..] == [];
    }
  }

  lemma {:induction false} WriteLoopIsARun(s: ServerState, id: int, sends: seq<SendAnswer>, env: nat -> Moment)
    returns (events: seq<Event>)
    requires id in s.clients ==> id in s.wires
    ensures CanRun(s, events, env) && Run(s, events, env) == WriteLoop(s, id, sends)
    decreases |sends|
  {
    if id !in s.clients || sends == [] || s.clients[id].outputBuffer == "" || sends[0].SendWouldBlock? {
      return [];
    }
    if sends[0].Accepted? && sends[0].count > 0 {
      var size := |s.clients[id].outputBuffer|;
      var count := if sends[0].count > size then size else sends[0].count;
      var rest := WriteLoopIsARun(Sent(s, id, count), id, sends[1..], env);
      events := [Send(id, count)] + rest;
      assert events[1..] == rest;
    } else if sends[0].SendInterrupted? {
      events := WriteLoopIsARun(s, id, sends[1..], env);
    } else {
      events := [Close(id)];
      assert events[1..] == [];
    }
  }

  // --------------------------------------------------------------- theorems

  /**
   * Any run of the server, whatever its clients send and however the bytes are split and drained, has executed its
   * requests one by one in the order of the log; each open connection has been sent, or has waiting, exactly the
   * replies to its own requests, and a closed one was sent a beginning of them; and these requests are those of one
   * call of the framer on all the connection's bytes, unless they make the framer leave its loop on an error.
   */
  lemma ServerIsSerial(start: Store, events: seq<Event>, env: nat -> Moment, id: int)
    requires CanRun(Initial(start), events, env)
    ensures var s := Run(Initial(start), events, env);
            Serial(start, s, env) && Answered(s, id) && Framed(s, id)
  {
    InvInitial(start, env);
    InvRun(start, Initial(start), events, env);
  }

  /** What each client means to send: a list of commands, encoded. */
  type Streams = map<int, seq<seq<string>>>

  /** The client could build the encoding as one string. */
  predicate Sendable(command: seq<string>) {
    |Encode(command)| <= STRING_MAX
  }

  ghost predicate FollowsStreams(s: ServerState, streams: Streams) {
    forall id :: id in s.wires ==>
      id in streams && s.wires[id].received <= Concat(Encodings(streams[id]))
      && forall i :: 0 <= i < |streams[id]| ==> Sendable(streams[id][i])
  }

  lemma SendableFits(command: seq<string>)
    requires Sendable(command)
    ensures Representable(command)
    ensures |command| < LLONG && forall i :: 0 <= i < |command| ==> |command[i]| < LLONG
  {
    BulksCoverTheirArguments(command);
  }

  lemma {:induction false} RequestTexts(commands: seq<seq<string>>)
    ensures Texts(FramerChunks.Requests(commands)) == Encodings(commands)
  {
    hide Encode;
    var cuts := FramerChunks.Requests(commands);
    if commands == [] {
      assert cuts == [] && Encodings(commands) == [];
    } else {
      RequestTexts(commands[1..]);
      assert cuts[1..] == FramerChunks.Requests(commands[1..]);
      EncodingsCons(commands);
      assert CutText(cuts[0]) == Encode(commands[0]);
    }
  }

  /**
   * A client that sends encoded commands has had exactly the commands it has fully sent executed, in order, and its
   * input buffer holds a proper part of the next one, however its bytes were split.
   */
  lemma ConnectionRefinement(start: Store, events: seq<Event>, env: nat -> Moment, commands: seq<seq<string>>, id: int)
    returns (count: nat, part: string)
    requires CanRun(Initial(start), events, env) && id in Run(Initial(start), events, env).wires
    requires Run(Initial(start), events, env).wires[id].received <= Concat(Encodings(commands))
    requires forall i :: 0 <= i < |commands| ==> Sendable(commands[i])
    ensures var s := Run(Initial(start), events, env);
            && PartOfNext(commands, count, part)
            && s.wires[id].received == Concat(Encodings(commands[..count])) + part
            && Requests(For(s.log, id)) == Encodings(commands[..count])
            && s.wires[id].sent <= Concat(Replies(For(s.log, id)))
            && (id in s.clients ==>
                  && s.clients[id].inputBuffer == part
                  && s.wires[id].sent + s.clients[id].outputBuffer == Concat(Replies(For(s.log, id))))
  {
    ServerIsSerial(start, events, env, id);
    hide Run, CanRun, Requests, Replies, For, Extract, Encode, Concat, Texts;
    var s := Run(Initial(start), events, env);
    forall i | 0 <= i < |commands| ensures Representable(commands[i]) {
      SendableFits(commands[i]);
    }
    count, part := PrefixOfStream(commands, s.wires[id].received);
    StreamIsCutAtCommands(commands, count, part);
    RequestTexts(commands[..count]);
  }

  /**
   * When no encoded command is longer than 1 MiB less 4095 bytes, the size check never closes the connection: after
   * any chunk the input buffer is within the limit.
   */
  lemma SizeCheckNeverFires(start: Store, events: seq<Event>, env: nat -> Moment, commands: seq<seq<string>>, id: int,
                            bytes: string)
    requires CanRun(Initial(start), events, env) && Enabled(Run(Initial(start), events, env), Receive(id, bytes))
    requires Run(Initial(start), events, env).wires[id].received <= Concat(Encodings(commands))
    requires forall i :: 0 <= i < |commands| ==> |Encode(commands[i])| <= MAX_REQUEST_SIZE - 4095
    ensures id in Next(Run(Initial(start), events, env), Receive(id, bytes), env).clients
  {
    var count, part := ConnectionRefinement(start, events, env, commands, id);
    hide Run, CanRun, Encode;
    assert part == "" || |part| < |Encode(commands[count])|;
  }

  // -------------------------------------------------- one serial list of commands

  /** Commands executed one by one, none of them on the wire. */
  function RunCommands(store: Store, commands: seq<seq<string>>, first: nat, env: nat -> Moment): Ran
    decreases |commands|
  {
    if commands == [] then Ran(store, [])
    else
      var effect := ServeCommand(store, commands[0], env(first));
      var rest := RunCommands(effect.store, commands[1..], first + 1, env);
      Ran(rest.store, [ReplyText(effect.reply)] + rest.replies)
  }

  lemma {:induction false} EncodedCommandsRun(store: Store, commands: seq<seq<string>>, first: nat, env: nat -> Moment)
    requires forall i :: 0 <= i < |commands| ==> Sendable(commands[i])
    ensures RunRequests(store, Encodings(commands), first, env) == RunCommands(store, commands, first, env)
    decreases |commands|
  {
    hide ServeRequest, ServeCommand, ReplyText, Encode;
    if commands == [] {
      assert Encodings(commands) == [];
    } else {
      SendableFits(commands[0]);
      EncodedCommandIsServed(store, commands[0], env(first));
      EncodingsCons(commands);
      assert Encodings(commands)[1..] == Encodings(commands[1..]);
      EncodedCommandsRun(ServeCommand(store, commands[0], env(first)).store, commands[1..], first + 1, env);
    }
  }

  /** Every entry of the log stands at its place among the entries of its own connection. */
  lemma {:induction false} PlaceInLog(log: seq<Served>, i: nat)
    requires i < |log|
    ensures |For(log[..i], log[i].id)| < |For(log, log[i].id)|
    ensures Requests(For(log, log[i].id))[|For(log[..i], log[i].id)|] == log[i].request
  {
    var id := log[i].id;
    assert log == log[..i] + log[i..] && log[i..] == [log[i]] + log[i + 1..];
    LogAppend(log[..i], log[i..], id);
    LogAppend([log[i]], log[i + 1..], id);
    LogAppend(For(log[..i], id), For(log[i..], id), id);
    LogAppend([log[i]], For(log[i + 1..], id), id);
    assert For([log[i]], id) == [log[i]];
    assert Requests([log[i]]) == [log[i].request];
  }

  /** The commands behind the log, when every client follows its stream. */
  function CommandsOf(log: seq<Served>, streams: Streams): seq<seq<string>>
    requires forall i :: 0 <= i < |log| ==>
               log[i].id in streams && |For(log[..i], log[i].id)| < |streams[log[i].id]|
  {
    seq(|log|, i requires 0 <= i < |log| => streams[log[i].id][|For(log[..i], log[i].id)|])
  }

  lemma {:induction false} RequestAt(log: seq<Served>, i: nat)
    requires i < |log|
    ensures Requests(log)[i] == log[i].request
  {
    if i < |log| - 1 {
      RequestAt(log[..|log| - 1], i);
    }
  }

  lemma {:induction false} ReplyAt(log: seq<Served>, i: nat)
    requires i < |log|
    ensures Replies(log)[i] == log[i].reply
  {
    if i < |log| - 1 {
      ReplyAt(log[..|log| - 1], i);
    }
  }

  /** An entry of the log is the next command of its client's stream. */
  lemma LogEntryIsACommand(start: Store, events: seq<Event>, env: nat -> Moment, streams: Streams, i: nat)
    requires CanRun(Initial(start), events, env) && FollowsStreams(Run(Initial(start), events, env), streams)
    requires i < |Run(Initial(start), events, env).log|
    ensures var log := Run(Initial(start), events, env).log;
            var id, place := log[i].id, |For(log[..i], log[i].id)|;
            id in streams && place < |streams[id]| && Sendable(streams[id][place])
            && log[i].request == Encode(streams[id][place])
  {
    InvInitial(start, env);
    InvRun(start, Initial(start), events, env);
    hide Run, CanRun, Requests, For, Encode;
    var s := Run(Initial(start), events, env);
    var id := s.log[i].id;
    PlaceInLog(s.log, i);
    assert Unused(s, id);
    assert id in s.wires;
    var count, part := ConnectionRefinement(start, events, env, streams[id], id);
    var place := |For(s.log[..i], id)|;
    assert Encodings(streams[id][..count])[place] == Encode(streams[id][..count][place]);
  }

  /**
   * With every client following its stream, the server's store and all its replies are those of executing one list
   * of commands one by one, each client's commands appearing in it in that client's order.
   */
  lemma ServerRefinesCommands(start: Store, events: seq<Event>, env: nat -> Moment, streams: Streams)
    requires CanRun(Initial(start), events, env) && FollowsStreams(Run(Initial(start), events, env), streams)
    ensures var s := Run(Initial(start), events, env);
            && (forall i :: 0 <= i < |s.log| ==>
                  s.log[i].id in streams && |For(s.log[..i], s.log[i].id)| < |streams[s.log[i].id]|)
            && RunCommands(start, CommandsOf(s.log, streams), 0, env) == Ran(s.store, Replies(s.log))
  {
    var s := Run(Initial(start), events, env);
    forall i | 0 <= i < |s.log|
      ensures s.log[i].id in streams && |For(s.log[..i], s.log[i].id)| < |streams[s.log[i].id]|
    {
      LogEntryIsACommand(start, events, env, streams, i);
    }
    var commands := CommandsOf(s.log, streams);
    forall i | 0 <= i < |s.log| ensures Sendable(commands[i]) && Requests(s.log)[i] == Encode(commands[i]) {
      LogEntryIsACommand(start, events, env, streams, i);
      RequestAt(s.log, i);
    }
    ServerIsSerial(start, events, env, 0);
    assert Requests(s.log) == Encodings(commands);
    hide Run, CanRun, Requests, For, Encode, RunRequests, RunCommands;
    EncodedCommandsRun(start, commands, 0, env);
  }
}
