/** What one call of the read or the write handler does, told by the answers of the system alone. */
module ServerHandlers {
  import opened Wrappers
  import opened Text
  import opened Encoding
  import opened Framing
  import opened FramerChunks
  import opened Databases
  import opened Dispatching
  import opened Serving
  import Refinement = ServerRefinement

  // ----------------------------------------------------------------- reading

  /** The answer ends the read loop. */
  predicate Halts(recv: Recv) { recv.RecvWouldBlock? || recv.EndOfFile? || recv.RecvError? }

  /** The number of answers before the first that ends the loop. */
  function UntilHalt(recvs: seq<Recv>): (n: nat)
    ensures n <= |recvs|
  {
    if recvs == [] || Halts(recvs[0]) then 0 else 1 + UntilHalt(recvs[1..])
  }

  /** The chunks that a list of answers delivers. */
  function Chunks(recvs: seq<Recv>): seq<string> {
    if recvs == [] then []
    else (if recvs[0].Data? then [recvs[0].bytes] else []) + Chunks(recvs[1..])
  }

  /** The requests cut off in order, what is left in the buffer, the bytes taken in, and whether the limit was met. */
  datatype Fed = Fed(texts: seq<string>, rest: string, taken: string, overflow: bool)

  /** The framer called after each chunk, on what it left the time before with the chunk added. */
  function Feed(buffer: string, chunks: seq<string>): Fed
    decreases |chunks|
  {
    if chunks == [] then Fed([], buffer, "", false)
    else if |buffer + chunks[0]| > MAX_REQUEST_SIZE then Fed([], buffer, "", true)
    else
      var frames := Extract(buffer + chunks[0]);
      var more := Feed(frames.rest, chunks[1..]);
      Fed(Texts(frames.cuts) + more.texts, more.rest, chunks[0] + more.taken, more.overflow)
  }

  /** Whether the answers close the connection: the limit, the end of the stream, or an error. */
  predicate ReadCloses(fed: Fed, recvs: seq<Recv>) {
    fed.overflow || (UntilHalt(recvs) < |recvs| && !recvs[UntilHalt(recvs)].RecvWouldBlock?)
  }

  /** The state once these requests have run and these bytes have been taken in, the connection open or closed. */
  function Fulfilled(s: ServerState, id: int, fed: Fed, closed: bool, env: nat -> Moment): ServerState
    requires id in s.clients && id in s.wires
  {
    var ran := RunRequests(s.store, fed.texts, |s.log|, env);
    var wire := s.wires[id];
    ServerState(
      ran.store,
      if closed then s.clients - {id}
      else s.clients[id := Client(fed.rest, s.clients[id].outputBuffer + Concat(ran.replies))],
      s.wires[id := wire.(received := wire.received + fed.taken)],
      s.log + Entries(id, fed.texts, ran.replies))
  }

  lemma EntriesAppend(id: int, a: seq<string>, b: seq<string>, x: seq<string>, y: seq<string>)
    requires |a| == |x| && |b| == |y|
    ensures Entries(id, a + b, x + y) == Entries(id, a, x) + Entries(id, b, y)
  {
  }

  /** One chunk, then the rest. */
  lemma FulfilledTwice(s: ServerState, id: int, first: Fed, more: Fed, closed: bool, env: nat -> Moment)
    requires id in s.clients && id in s.wires
    ensures var t := Fulfilled(s, id, first, false, env);
            var both := Fed(first.texts + more.texts, more.rest, first.taken + more.taken, more.overflow);
            Fulfilled(t, id, more, closed, env) == Fulfilled(s, id, both, closed, env)
  {
    hide RunRequests, Concat, Entries;
    var ran := RunRequests(s.store, first.texts, |s.log|, env);
    Refinement.RunAppend(s.store, first.texts, more.texts, |s.log|, env);
    var later := RunRequests(ran.store, more.texts, |s.log| + |first.texts|, env);
    EntriesAppend(id, first.texts, more.texts, ran.replies, later.replies);
    ConcatAppend(ran.replies, later.replies);
    Associate(s.log, Entries(id, first.texts, ran.replies), Entries(id, more.texts, later.replies));
    Associate(s.clients[id].outputBuffer, Concat(ran.replies), Concat(later.replies));
    Associate(s.wires[id].received, first.taken, more.taken);
  }

  lemma NothingFulfilled(s: ServerState, id: int, env: nat -> Moment)
    requires id in s.clients && id in s.wires
    ensures var nothing := Fed([], s.clients[id].inputBuffer, "", false);
            Fulfilled(s, id, nothing, false, env) == s
            && Fulfilled(s, id, nothing, true, env) == s.(clients := s.clients - {id})
            && Fulfilled(s, id, nothing.(overflow := true), true, env) == s.(clients := s.clients - {id})
  {
    assert Concat([]) == "" && s.clients[id].outputBuffer + "" == s.clients[id].outputBuffer;
    assert s.wires[id].received + "" == s.wires[id].received;
    assert s.wires[id := s.wires[id]] == s.wires && s.clients[id := s.clients[id]] == s.clients;
    assert s.log + [] == s.log && Entries(id, [], []) == [];
  }

  /** A chunk within the limit. */
  lemma ReceivedIsFulfilled(s: ServerState, id: int, bytes: string, env: nat -> Moment)
    requires id in s.clients && id in s.wires && |s.clients[id].inputBuffer + bytes| <= MAX_REQUEST_SIZE
    ensures var frames := Extract(s.clients[id].inputBuffer + bytes);
            var fed := Fed(Texts(frames.cuts), frames.rest, bytes, false);
            Received(s, id, bytes, env) == Fulfilled(s, id, fed, false, env)
  {
    hide Extract, Texts, RunRequests, Concat, Entries;
    var a := Appended(s, id, bytes);
    assert Process(a, id, env).clients == s.clients[id := Process(a, id, env).clients[id]];
  }

  /**
   * The read handler, told by the answers: the bytes of the chunks before the first answer that ends the loop, and
   * exactly these, are taken in, unless one takes the buffer above the limit; the requests they complete are executed
   * in order and their replies queued; the connection is closed exactly on the limit, the end of the stream or an
   * error.
   */
  lemma {:induction false} ReadLoopExactly(s: ServerState, id: int, recvs: seq<Recv>, env: nat -> Moment)
    requires id in s.clients && id in s.wires
    ensures var fed := Feed(s.clients[id].inputBuffer, Chunks(recvs[..UntilHalt(recvs)]));
            ReadLoop(s, id, recvs, env) == Fulfilled(s, id, fed, ReadCloses(fed, recvs), env)
    decreases |recvs|, 0
  {
    hide Extract, Texts, RunRequests, Fulfilled, Received;
    NothingFulfilled(s, id, env);
    if recvs == [] || Halts(recvs[0]) {
      assert recvs[..0] == [];
      return;
    }
    var rest := recvs[1..];
    var ahead, after := recvs[..UntilHalt(recvs)], rest[..UntilHalt(rest)];
    assert ahead[0] == recvs[0] && ahead[1..] == after;
    if recvs[0].RecvInterrupted? {
      assert [] + Chunks(after) == Chunks(after);
      ReadLoopExactly(s, id, rest, env);
    } else {
      var bytes := recvs[0].bytes;
      assert Chunks(ahead)[0] == bytes && Chunks(ahead)[1..] == Chunks(after);
      if |s.clients[id].inputBuffer + bytes| <= MAX_REQUEST_SIZE {
        OneChunkThenRest(s, id, bytes, rest, env);
      } else {
        OverTheLimit(s, id, bytes, rest, env);
      }
    }
  }

  lemma OverTheLimit(s: ServerState, id: int, bytes: string, rest: seq<Recv>, env: nat -> Moment)
    requires id in s.clients && id in s.wires && |s.clients[id].inputBuffer + bytes| > MAX_REQUEST_SIZE
    ensures ReadLoop(Received(s, id, bytes, env), id, rest, env) == s.(clients := s.clients - {id})
  {
  }

  lemma {:induction false} OneChunkThenRest(s: ServerState, id: int, bytes: string, rest: seq<Recv>, env: nat -> Moment)
    requires id in s.clients && id in s.wires && |s.clients[id].inputBuffer + bytes| <= MAX_REQUEST_SIZE
    ensures id in Received(s, id, bytes, env).clients && id in Received(s, id, bytes, env).wires
    ensures var frames := Extract(s.clients[id].inputBuffer + bytes);
            var more := Feed(frames.rest, Chunks(rest[..UntilHalt(rest)]));
            var fed := Fed(Texts(frames.cuts) + more.texts, more.rest, bytes + more.taken, more.overflow);
            ReadLoop(Received(s, id, bytes, env), id, rest, env) == Fulfilled(s, id, fed, ReadCloses(more, rest), env)
    decreases |rest|, 1
  {
    ReceivedIsFulfilled(s, id, bytes, env);
    hide Extract, Texts, RunRequests, Concat, Entries, ReadLoop, Feed, Chunks, UntilHalt;
    var frames := Extract(s.clients[id].inputBuffer + bytes);
    var first := Fed(Texts(frames.cuts), frames.rest, bytes, false);
    ReadLoopExactly(Received(s, id, bytes, env), id, rest, env);
    var more := Feed(frames.rest, Chunks(rest[..UntilHalt(rest)]));
    FulfilledTwice(s, id, first, more, ReadCloses(more, rest), env);
  }

  // ----------------------------------------------- what is fed, on the whole

  /** The chunks within the limit give what one call of the framer on all their bytes gives, unless these stop it. */
  lemma {:induction false} FeedIsOneCall(buffer: string, chunks: seq<string>)
    requires Extract(buffer) == Frames([], buffer, false) && !Feed(buffer, chunks).overflow
    requires !Extract(buffer + Concat(chunks)).stopped
    ensures var frames := Extract(buffer + Concat(chunks));
            Feed(buffer, chunks) == Fed(Texts(frames.cuts), frames.rest, Concat(chunks), false)
    decreases |chunks|
  {
    if chunks == [] {
      TextsOfNone();
      assert buffer + Concat(chunks) == buffer;
      return;
    }
    var now, more := buffer + chunks[0], Concat(chunks[1..]);
    Associate(buffer, chunks[0], more);
    assert buffer + Concat(chunks) == now + more;
    hide Extract, Texts, Concat;
    if Extract(now).stopped {
      StoppedStays(now, more);
    }
    ChunkIndependence(now, more);
    LeftoverIsLeft(now);
    CutsOfBefore(Extract(now).cuts, Extract(Extract(now).rest + more));
    FeedIsOneCall(Extract(now).rest, chunks[1..]);
    TextsAppend(Extract(now).cuts, Extract(Extract(now).rest + more).cuts);
  }

  /** What a call leaves gives nothing by itself. */
  lemma {:induction false} LeftoverIsLeft(buffer: string)
    requires !Extract(buffer).stopped
    ensures Extract(Extract(buffer).rest) == Frames([], Extract(buffer).rest, false)
    decreases |buffer|
  {
    hide FrameStep;
    if buffer != "" && !FrameStep(buffer).Wait? {
      LeftoverIsLeft(buffer[FrameStep(buffer).size..]);
    }
  }

  lemma StreamSplit(commands: seq<seq<string>>, k: nat)
    requires k <= |commands|
    ensures Concat(Encodings(commands)) == Concat(Encodings(commands[..k])) + Concat(Encodings(commands[k..]))
  {
    hide Encode;
    assert Encodings(commands) == Encodings(commands[..k]) + Encodings(commands[k..]);
    ConcatAppend(Encodings(commands[..k]), Encodings(commands[k..]));
  }

  /** Commands short enough for the limit. */
  predicate Short(commands: seq<seq<string>>) {
    forall i :: 0 <= i < |commands| ==> |Encode(commands[i])| <= MAX_REQUEST_SIZE - 4095
  }

  /** What is here of a stream: the framer takes the whole commands and leaves the part of the next. */
  lemma PartlyHere(commands: seq<seq<string>>, received: string) returns (count: nat, part: string)
    requires Short(commands) && received <= Concat(Encodings(commands))
    ensures PartOfNext(commands, count, part) && received == Concat(Encodings(commands[..count])) + part
    ensures Extract(received) == Frames(Requests(commands[..count]), part, false)
  {
    hide Encode, Extract, Concat;
    count, part := PrefixOfStream(commands, received);
    StreamIsCutAtCommands(commands, count, part);
  }

  lemma RestOfStream(commands: seq<seq<string>>, count: nat, part: string, more: string)
    requires PartOfNext(commands, count, part)
    requires Concat(Encodings(commands[..count])) + part + more <= Concat(Encodings(commands))
    ensures PartOfNext(commands[count..], 0, part) && part + more <= Concat(Encodings(commands[count..]))
  {
    hide Encode, Concat, Encodings;
    StreamSplit(commands, count);
    var head, rest := Concat(Encodings(commands[..count])), Concat(Encodings(commands[count..]));
    Associate(head, part, more);
    assert (head + (part + more))[|head|..] == part + more && (head + rest)[|head|..] == rest;
  }

  /** The limit is never met by a client that sends short commands. */
  lemma {:induction false} NeverOverflows(commands: seq<seq<string>>, buffer: string, chunks: seq<string>)
    requires Short(commands) && PartOfNext(commands, 0, buffer)
    requires buffer + Concat(chunks) <= Concat(Encodings(commands))
    requires forall i :: 0 <= i < |chunks| ==> |chunks[i]| <= RECV_BUFFER
    ensures !Feed(buffer, chunks).overflow
    decreases |chunks|
  {
    if chunks != [] {
      var now, more := buffer + chunks[0], Concat(chunks[1..]);
      Associate(buffer, chunks[0], more);
      assert buffer + Concat(chunks) == now + more;
      hide Encode, Extract, Concat, Encodings, Texts;
      assert |buffer| < MAX_REQUEST_SIZE - 4095;
      var count, part := PartlyHere(commands, now);
      RestOfStream(commands, count, part, more);
      NeverOverflows(commands[count..], part, chunks[1..]);
    }
  }

  /** A client's commands, the first of them partly here: what its chunks complete, and what they leave. */
  lemma FeedOfStream(commands: seq<seq<string>>, buffer: string, chunks: seq<string>)
    returns (count: nat, part: string)
    requires Short(commands) && PartOfNext(commands, 0, buffer)
    requires buffer + Concat(chunks) <= Concat(Encodings(commands))
    requires forall i :: 0 <= i < |chunks| ==> |chunks[i]| <= RECV_BUFFER
    ensures PartOfNext(commands, count, part)
    ensures buffer + Concat(chunks) == Concat(Encodings(commands[..count])) + part
    ensures Feed(buffer, chunks) == Fed(Encodings(commands[..count]), part, Concat(chunks), false)
  {
    NeverOverflows(commands, buffer, chunks);
    BufferWaits(commands, buffer);
    hide Short, Encode, Extract, Concat, Feed, Texts, PartOfNext;
    count, part := PartlyHere(commands, buffer + Concat(chunks));
    CountIsWithin(commands, count, part);
    FeedIsOneCall(buffer, chunks);
    Refinement.RequestTexts(commands[..count]);
  }

  lemma CountIsWithin(commands: seq<seq<string>>, count: nat, part: string)
    requires PartOfNext(commands, count, part)
    ensures count <= |commands|
  {
  }

  lemma BufferWaits(commands: seq<seq<string>>, buffer: string)
    requires Short(commands) && PartOfNext(commands, 0, buffer)
    ensures Extract(buffer) == Frames([], buffer, false)
  {
    hide Encode;
    if commands != [] {
      PartOfCommandWaits(commands[0], buffer);
    }
  }

  /**
   * A client that sends commands, in whatever chunks one call of the read handler gets: if the system ends the call by
   * having no more bytes, the commands that have become whole are executed one by one, their replies join the output
   * buffer, and the rest of the bytes waits in the input buffer; nothing else changes.
   */
  lemma ReadAnswersCommands(s: ServerState, id: int, recvs: seq<Recv>, env: nat -> Moment, commands: seq<seq<string>>)
    returns (count: nat, part: string)
    requires id in s.clients && id in s.wires && forall i :: 0 <= i < |recvs| ==> Possible(recvs[i])
    requires UntilHalt(recvs) < |recvs| ==> recvs[UntilHalt(recvs)].RecvWouldBlock?
    requires Short(commands) && PartOfNext(commands, 0, s.clients[id].inputBuffer)
    requires s.clients[id].inputBuffer + Concat(Chunks(recvs[..UntilHalt(recvs)])) <= Concat(Encodings(commands))
    ensures PartOfNext(commands, count, part)
    ensures var arrived := Concat(Chunks(recvs[..UntilHalt(recvs)]));
            var ran := Refinement.RunCommands(s.store, commands[..count], |s.log|, env);
            var client, wire := s.clients[id], s.wires[id];
            var t := ReadLoop(s, id, recvs, env);
            && client.inputBuffer + arrived == Concat(Encodings(commands[..count])) + part
            && t.store == ran.store
            && t.clients == s.clients[id := Client(part, client.outputBuffer + Concat(ran.replies))]
            && t.wires == s.wires[id := wire.(received := wire.received + arrived)]
  {
    var ahead := recvs[..UntilHalt(recvs)];
    ChunksAreSmall(ahead);
    ReadLoopExactly(s, id, recvs, env);
    count, part := FeedOfStream(commands, s.clients[id].inputBuffer, Chunks(ahead));
    CountIsWithin(commands, count, part);
    forall i | 0 <= i < count ensures Refinement.Sendable(commands[..count][i]) {
      ShortIsSendable(commands, i);
    }
    Refinement.EncodedCommandsRun(s.store, commands[..count], |s.log|, env);
    hide Feed, ReadLoop, Encode, Extract, Concat, RunRequests, Refinement.RunCommands, Encodings, Chunks;
  }

  lemma ShortIsSendable(commands: seq<seq<string>>, i: nat)
    requires Short(commands) && i < |commands|
    ensures Refinement.Sendable(commands[i])
  {
    hide Encode;
  }

  lemma {:induction false} ChunksAreSmall(recvs: seq<Recv>)
    requires forall i :: 0 <= i < |recvs| ==> Possible(recvs[i])
    ensures forall i :: 0 <= i < |Chunks(recvs)| ==> 1 <= |Chunks(recvs)[i]| <= RECV_BUFFER
  {
    if recvs != [] {
      ChunksAreSmall(recvs[1..]);
      assert Possible(recvs[0]);
    }
  }

  // ----------------------------------------------------------------- writing

  /** The answer ends the write loop. */
  predicate Stops(answer: SendAnswer) { answer.SendWouldBlock? || answer.SendError? || answer == Accepted(0) }

  /** The number of answers before the first that would end the loop. */
  function UntilStop(sends: seq<SendAnswer>): (n: nat)
    ensures n <= |sends|
  {
    if sends == [] || Stops(sends[0]) then 0 else 1 + UntilStop(sends[1..])
  }

  /** The bytes that these answers accept. */
  function Total(sends: seq<SendAnswer>): nat {
    if sends == [] then 0 else (if sends[0].Accepted? then sends[0].count else 0) + Total(sends[1..])
  }

  /** With bytes still waiting, an error, or a call that takes nothing, is met. */
  predicate WriteCloses(waiting: nat, sends: seq<SendAnswer>) {
    Total(sends[..UntilStop(sends)]) < waiting && UntilStop(sends) < |sends|
    && !sends[UntilStop(sends)].SendWouldBlock?
  }

  /** The first `k` bytes of the output buffer have been sent. */
  function Drained(s: ServerState, id: int, k: nat, closed: bool): ServerState
    requires id in s.clients && id in s.wires && k <= |s.clients[id].outputBuffer|
  {
    var client, wire := s.clients[id], s.wires[id];
    s.(clients := if closed then s.clients - {id}
                  else s.clients[id := client.(outputBuffer := client.outputBuffer[k..])],
       wires := s.wires[id := wire.(sent := wire.sent + client.outputBuffer[..k])])
  }

  function Least(a: nat, b: nat): nat { if a < b then a else b }

  lemma DrainedNothing(s: ServerState, id: int, closed: bool)
    requires id in s.clients && id in s.wires
    ensures Drained(s, id, 0, closed) == if closed then s.(clients := s.clients - {id}) else s
  {
    var output := s.clients[id].outputBuffer;
    assert output[0..] == output && s.wires[id].sent + output[..0] == s.wires[id].sent;
    assert s.wires[id := s.wires[id]] == s.wires && s.clients[id := s.clients[id]] == s.clients;
  }

  lemma DrainedTwice(s: ServerState, id: int, j: nat, k: nat, closed: bool)
    requires id in s.clients && id in s.wires && j + k <= |s.clients[id].outputBuffer|
    ensures Drained(Drained(s, id, j, false), id, k, closed) == Drained(s, id, j + k, closed)
  {
    var output, sent := s.clients[id].outputBuffer, s.wires[id].sent;
    assert output[j..][k..] == output[j + k..] && output[..j] + output[j..][..k] == output[..j + k];
    Associate(sent, output[..j], output[j..][..k]);
  }

  /**
   * The write handler, told by the answers: as many bytes leave the front of the output buffer as the answers before
   * the first that ends the loop accept, and exactly these have been sent; the connection is closed exactly when, with
   * bytes still waiting, a call fails or takes nothing; all else stays.
   */
  lemma {:induction false} WriteLoopExactly(s: ServerState, id: int, sends: seq<SendAnswer>)
    requires id in s.clients && id in s.wires
    ensures var waiting := |s.clients[id].outputBuffer|;
            WriteLoop(s, id, sends) ==
            Drained(s, id, Least(waiting, Total(sends[..UntilStop(sends)])), WriteCloses(waiting, sends))
    decreases |sends|
  {
    hide Drained, Sent;
    var waiting := |s.clients[id].outputBuffer|;
    DrainedNothing(s, id, false);
    DrainedNothing(s, id, true);
    if sends == [] || waiting == 0 || Stops(sends[0]) {
      assert sends[..0] == [];
      return;
    }
    var rest := sends[1..];
    var ahead, after := sends[..UntilStop(sends)], rest[..UntilStop(rest)];
    assert ahead[0] == sends[0] && ahead[1..] == after;
    if sends[0].SendInterrupted? {
      WriteLoopExactly(s, id, rest);
    } else {
      var k := Least(waiting, sends[0].count);
      SentIsDrained(s, id, k);
      WriteLoopExactly(Sent(s, id, k), id, rest);
      DrainedTwice(s, id, k, Least(waiting - k, Total(after)), WriteCloses(waiting - k, rest));
    }
  }

  lemma SentIsDrained(s: ServerState, id: int, k: nat)
    requires id in s.clients && id in s.wires && k <= |s.clients[id].outputBuffer|
    ensures Sent(s, id, k) == Drained(s, id, k, false)
    ensures id in Sent(s, id, k).clients && id in Sent(s, id, k).wires
    ensures |Sent(s, id, k).clients[id].outputBuffer| == |s.clients[id].outputBuffer| - k
  {
  }
}
