/** The client's side: collecting one reply from the chunks a socket delivers, and showing it. */
module ReplyFraming {
  import opened Wrappers
  import opened Text
  import opened Encoding

  const MAX_RESPONSE_SIZE := 1024 * 1024
  const RECV_BUFFER := 4096

  predicate EndsWithCrlf(s: string) { |s| >= 2 && HasCrlf(s, |s| - 2) }

  function FramedBulk(response: string): Option<string>
    requires response != ""
  {
    match FindCrlf(response, 0)
    case None => None
    case Some(lineEnd) =>
      match FromChars(Between(response, 1, lineEnd))
      case None => None
      case Some(length) =>
        if length == -1 then Some(response)
        else if length >= 0 && |response| >= lineEnd + 2 + length + 2 then Some(response[..lineEnd + 2 + length + 2])
        else None
  }

  /** One item of an array reply: the position after it, when all its bytes are there. */
  function ItemEnd(response: string, position: nat): (r: Option<nat>)
    ensures r.Some? ==> position < r.value <= |response|
  {
    match FindCrlf(response, position)
    case None => None
    case Some(itemEnd) =>
      if response[position] != '$' then None
      else match FromChars(Between(response, position + 1, itemEnd))
        case None => None
        case Some(length) =>
          if length < 0 || itemEnd + 2 + length + 2 > |response| then None else Some(itemEnd + 2 + length + 2)
  }

  function ItemsEnd(response: string, position: nat, count: nat): (r: Option<nat>)
    requires position <= |response|
    ensures r.Some? ==> position <= r.value <= |response|
    decreases count
  {
    if count == 0 then Some(position)
    else match ItemEnd(response, position)
      case None => None
      case Some(next) => ItemsEnd(response, next, count - 1)
  }

  function FramedArray(response: string): Option<string>
    requires response != ""
  {
    match FindCrlf(response, 0)
    case None => None
    case Some(lineEnd) =>
      match FromChars(Between(response, 1, lineEnd))
      case None => None
      case Some(count) =>
        if count < 0 then None
        else match ItemsEnd(response, lineEnd + 2, count)
          case None => None
          case Some(position) => Some(response[..position])
  }

  /** The reply at the front of the bytes received so far, if the client considers it complete. */
  function Framed(response: string): Option<string> {
    if response == "" then None
    else if response[0] == '+' || response[0] == '-' || response[0] == ':' then
      if EndsWithCrlf(response) then Some(response) else None
    else if response[0] == '$' then FramedBulk(response)
    else if response[0] == '*' then FramedArray(response)
    else None
  }

  // -------------------------------------------------------- the receive loop

  /** What one `recv` call can give. */
  datatype Recv = Data(bytes: string) | Interrupted | Failed | Closed

  predicate Possible(recv: Recv) { recv.Data? ==> 1 <= |recv.bytes| <= RECV_BUFFER }

  /** Waiting: the calls listed so far have been answered and the client is in the next one. */
  datatype Received = Reply(text: string) | Waiting | SocketError | ClosedByServer | TooLarge

  /** What the loop makes of a list of `recv` answers, having collected `response`. */
  function Receive(response: string, recvs: seq<Recv>): Received
    requires forall i :: 0 <= i < |recvs| ==> Possible(recvs[i])
    decreases |recvs|
  {
    if recvs == [] then Waiting
    else match recvs[0]
      case Interrupted => Receive(response, recvs[1..])
      case Failed => SocketError
      case Closed => ClosedByServer
      case Data(bytes) =>
        var now := response + bytes;
        if |now| > MAX_RESPONSE_SIZE then TooLarge
        else if Framed(now).Some? then Reply(Framed(now).value)
        else Receive(now, recvs[1..])
  }

  /** The body of the array loop: the position after one item, when it is there. */
  method FrameItem(response: string, position: nat) returns (after: Option<nat>)
    ensures after == ItemEnd(response, position)
  {
    hide FindCrlf, FromChars;
    var itemEnd := FindCrlf(response, position);
    if itemEnd.None? || position >= |response| || response[position] != '$' {
      return None;
    }
    var length := FromChars(Between(response, position + 1, itemEnd.value));
    if length.None? || length.value < 0 {
      return None;
    }
    var next: nat := itemEnd.value + 2 + length.value + 2;
    if next > |response| {
      return None;
    }
    return Some(next);
  }

  method FrameArray(response: string) returns (reply: Option<string>)
    requires response != ""
    ensures reply == FramedArray(response)
  {
    hide FindCrlf, FromChars, ItemEnd;
    var lineEnd := FindCrlf(response, 0);
    if lineEnd.None? {
      return None;
    }
    var count := FromChars(Between(response, 1, lineEnd.value));
    if count.None? || count.value < 0 {
      return None;
    }
    var position: nat := lineEnd.value + 2;
    var index: nat := 0;
    while index < count.value
      invariant index <= count.value && position <= |response|
      invariant ItemsEnd(response, position, count.value - index) == ItemsEnd(response, lineEnd.value + 2, count.value)
    {
      var after := FrameItem(response, position);
      if after.None? {
        return None;
      }
      position := after.value;
      index := index + 1;
    }
    return Some(response[..position]);
  }

  /** The client's receive loop over the answers of successive `recv` calls. */
  method ReceiveResp(recvs: seq<Recv>) returns (received: Received)
    requires forall i :: 0 <= i < |recvs| ==> Possible(recvs[i])
    ensures received == Receive("", recvs)
  {
    hide FindCrlf, FromChars, ItemsEnd;
    var response := "";
    var i: nat := 0;
    while i < |recvs|
      invariant i <= |recvs|
      invariant Receive(response, recvs[i..]) == Receive("", recvs)
    {
      ReceiveStep(response, recvs, i);
      var answer := recvs[i];
      i := i + 1;
      if answer.Interrupted? {
        continue;
      }
      if answer.Failed? {
        return SocketError;
      }
      if answer.Closed? {
        return ClosedByServer;
      }
      response := response + answer.bytes;
      if |response| > MAX_RESPONSE_SIZE {
        return TooLarge;
      }
      if response[0] == '+' || response[0] == '-' || response[0] == ':' {
        if EndsWithCrlf(response) {
          return Reply(response);
        }
      } else if response[0] == '$' {
        var lineEnd := FindCrlf(response, 0);
        if lineEnd.Some? {
          var length := FromChars(Between(response, 1, lineEnd.value));
          if length.Some? {
            if length.value == -1 {
              return Reply(response);
            }
            if length.value >= 0 {
              var expected := lineEnd.value + 2 + length.value + 2;
              if |response| >= expected {
                return Reply(response[..expected]);
              }
            }
          }
        }
      } else if response[0] == '*' {
        var reply := FrameArray(response);
        if reply.Some? {
          return Reply(reply.value);
        }
      }
    }
    return Waiting;
  }

  /** One turn of the receive loop. */
  lemma ReceiveStep(response: string, recvs: seq<Recv>, i: nat)
    requires i < |recvs| && forall j :: 0 <= j < |recvs| ==> Possible(recvs[j])
    ensures var answer := recvs[i];
            Receive(response, recvs[i..]) ==
            if answer.Interrupted? then Receive(response, recvs[i + 1..])
            else if answer.Failed? then SocketError
            else if answer.Closed? then ClosedByServer
            else if |response + answer.bytes| > MAX_RESPONSE_SIZE then TooLarge
            else if Framed(response + answer.bytes).Some? then Reply(Framed(response + answer.bytes).value)
            else Receive(response + answer.bytes, recvs[i + 1..])
  {
    hide Framed;
    assert recvs[i..][1..] == recvs[i + 1..];
  }

  /** Once the loop has returned, no later answer matters. */
  lemma {:induction false} FirstOutcomeStands(response: string, recvs: seq<Recv>, more: seq<Recv>)
    requires forall i :: 0 <= i < |recvs + more| ==> Possible((recvs + more)[i])
    requires (forall i :: 0 <= i < |recvs| ==> Possible(recvs[i])) && Receive(response, recvs) != Waiting
    ensures Receive(response, recvs + more) == Receive(response, recvs)
    decreases |recvs|
  {
    hide Framed;
    SplitFirst(recvs, more);
    if recvs[0].Interrupted? {
      FirstOutcomeStands(response, recvs[1..], more);
    } else if recvs[0].Data? && |response + recvs[0].bytes| <= MAX_RESPONSE_SIZE
      && Framed(response + recvs[0].bytes).None? {
      FirstOutcomeStands(response + recvs[0].bytes, recvs[1..], more);
    }
  }

  /** The bytes that a list of `recv` answers delivers. */
  function Delivered(recvs: seq<Recv>): string {
    if recvs == [] then ""
    else (if recvs[0].Data? then recvs[0].bytes else "") + Delivered(recvs[1..])
  }

  /** What one more answer makes of a loop that is still waiting, having collected all bytes so far. */
  lemma {:induction false} NextAnswer(response: string, recvs: seq<Recv>, answer: Recv)
    requires (forall i :: 0 <= i < |recvs| ==> Possible(recvs[i])) && Possible(answer)
    requires Receive(response, recvs) == Waiting
    ensures forall i :: 0 <= i < |recvs + [answer]| ==> Possible((recvs + [answer])[i])
    ensures var collected := response + Delivered(recvs);
            Receive(response, recvs + [answer]) ==
            match answer
            case Interrupted => Waiting
            case Failed => SocketError
            case Closed => ClosedByServer
            case Data(bytes) =>
              if |collected + bytes| > MAX_RESPONSE_SIZE then TooLarge
              else if Framed(collected + bytes).Some? then Reply(Framed(collected + bytes).value)
              else Waiting
    decreases |recvs|
  {
    hide Framed;
    if recvs == [] {
      assert recvs + [answer] == [answer] && [answer][1..] == [] && response + "" == response;
    } else {
      SplitFirst(recvs, [answer]);
      var now := if recvs[0].Data? then response + recvs[0].bytes else response;
      NextAnswer(now, recvs[1..], answer);
      if recvs[0].Data? {
        Associate(response, recvs[0].bytes, Delivered(recvs[1..]));
      } else {
        assert "" + Delivered(recvs[1..]) == Delivered(recvs[1..]);
      }
    }
  }

  // ------------------------------------------------------ exact framing

  /** No chunk boundary can make the client stop early or late on this reply. */
  ghost predicate SelfDelimiting(reply: string) {
    reply != "" && Framed(reply) == Some(reply)
    && forall part :: part != "" && part < reply ==> Framed(part).None?
  }

  lemma FoundEarlier(part: string, whole: string, from: nat)
    requires part <= whole && FindCrlf(part, from).Some?
    ensures FindCrlf(whole, from) == FindCrlf(part, from)
  {
    assert whole == part + whole[|part|..];
    FindCrlfStable(part, whole[|part|..], from);
  }

  lemma SameText(part: string, whole: string, start: nat, end: nat)
    requires part <= whole && end <= |part|
    ensures Between(part, start, end) == Between(whole, start, end)
  {
  }

  lemma BulkReplyDelimits(value: string)
    requires |value| < LLONG
    ensures SelfDelimiting(BulkString(value))
  {
    var reply := BulkString(value);
    BulkAt(reply, 0, value);
    PrintedNumbersParse(|value|);
    var end := HeaderEnd(0, |value|);
    assert |reply| == end + 2 + |value| + 2 && reply[..|reply|] == reply;
    assert Between(reply, 1, end) == Print(|value|);
    forall part | part != "" && part < reply ensures Framed(part).None? {
      BulkPartWaits(part, reply, end, |value|);
    }
  }

  lemma BulkPartWaits(part: string, reply: string, end: nat, length: nat)
    requires part != "" && part < reply && reply[0] == '$'
    requires end + 2 + length + 2 == |reply| && FindCrlf(reply, 0) == Some(end)
    requires FromChars(Between(reply, 1, end)) == Some(length)
    ensures Framed(part).None?
  {
    hide FromChars, FindCrlf;
    if FindCrlf(part, 0).Some? {
      FoundEarlier(part, reply, 0);
      SameText(part, reply, 1, end);
    }
  }

  lemma ItemEndStable(part: string, whole: string, position: nat)
    requires part <= whole && ItemEnd(part, position).Some?
    ensures ItemEnd(whole, position) == ItemEnd(part, position)
  {
    hide FromChars, FindCrlf;
    FoundEarlier(part, whole, position);
    SameText(part, whole, position + 1, FindCrlf(part, position).value);
  }

  lemma {:induction false} ItemsEndStable(part: string, whole: string, position: nat, count: nat)
    requires part <= whole && position <= |part| && ItemsEnd(part, position, count).Some?
    ensures ItemsEnd(whole, position, count) == ItemsEnd(part, position, count)
    decreases count
  {
    hide ItemEnd;
    if count > 0 {
      ItemEndStable(part, whole, position);
      ItemsEndStable(part, whole, ItemEnd(part, position).value, count - 1);
    }
  }

  lemma ItemLaid(data: string, position: nat, value: string)
    requires BulkLaid(data, position, value) && |value| < LLONG
    ensures ItemEnd(data, position) == Some(BulkEnd(position, value))
  {
    PrintedNumbersParse(|value|);
    assert Between(data, position + 1, HeaderEnd(position, |value|)) == Print(|value|);
    hide FromChars, FindCrlf, Print;
  }

  lemma {:induction false} ItemsLaid(data: string, position: nat, values: seq<string>)
    requires BulksLaid(data, position, values)
    requires forall i :: 0 <= i < |values| ==> |values[i]| < LLONG
    ensures ItemsEnd(data, position, |values|) == Some(BulksEnd(position, values))
    decreases |values|
  {
    hide ItemEnd, BulkLaid, Print;
    if values != [] {
      ItemLaid(data, position, values[0]);
      ItemsLaid(data, BulkEnd(position, values[0]), values[1..]);
    }
  }

  lemma ArrayReplyDelimits(values: seq<string>)
    requires |values| < LLONG && forall i :: 0 <= i < |values| ==> |values[i]| < LLONG
    ensures SelfDelimiting(Encode(values))
  {
    var reply := Encode(values);
    CommandAt(reply, values);
    PrintedNumbersParse(|values|);
    var end := HeaderEnd(0, |values|);
    assert Between(reply, 1, end) == Print(|values|);
    ItemsLaid(reply, end + 2, values);
    hide FromChars, FindCrlf, Print, Encode, ItemsEnd, BulksLaid, BulksEnd;
    assert reply[..|reply|] == reply;
    forall part | part != "" && part < reply ensures Framed(part).None? {
      ArrayPartWaits(part, reply, end, |values|);
    }
  }

  lemma ArrayPartWaits(part: string, reply: string, end: nat, count: nat)
    requires part != "" && part < reply && reply[0] == '*'
    requires FindCrlf(reply, 0) == Some(end) && end + 2 <= |reply|
    requires FromChars(Between(reply, 1, end)) == Some(count)
    requires ItemsEnd(reply, end + 2, count) == Some(|reply|)
    ensures Framed(part).None?
  {
    hide FromChars, FindCrlf, ItemsEnd;
    if FindCrlf(part, 0).Some? {
      FoundEarlier(part, reply, 0);
      SameText(part, reply, 1, end);
      if ItemsEnd(part, end + 2, count).Some? {
        ItemsEndStable(part, reply, end + 2, count);
      }
    }
  }

  /** A one-line reply can be cut anywhere exactly when its text holds no line end of its own. */
  lemma LineReplyDelimits(mark: char, value: string)
    requires mark in {'+', '-', ':'}
    ensures SelfDelimiting([mark] + value + CRLF) <==> FindCrlf(value, 0).None?
  {
    var reply := [mark] + value + CRLF;
    FindCrlfIsFirst(value, 0);
    assert reply[|reply| - 2] == '\r' && reply[|reply| - 1] == '\n';
    if FindCrlf(value, 0).Some? {
      var k := FindCrlf(value, 0).value;
      var part := reply[..k + 3];
      assert part[k + 1] == value[k] && part[k + 2] == value[k + 1];
      assert part < reply && Framed(part).Some?;
    } else {
      forall part | part != "" && part < reply ensures Framed(part).None? {
        if EndsWithCrlf(part) {
          assert part[|part| - 1] == reply[|part| - 1] && part[|part| - 2] == reply[|part| - 2];
          assert HasCrlf(value, |part| - 3);
        }
      }
    }
  }

  lemma NullReplyDelimits()
    ensures SelfDelimiting(NULL_REPLY)
  {
    var reply := NULL_REPLY;
    assert HasCrlf(reply, 3);
    FindCrlfAt(reply, 0, 3);
    var text := Between(reply, 1, 3);
    assert text == "-1" && text[1..] == "1";
    assert "1"[..0] == "" && Decimal("1") == Some(1);
    forall part | part != "" && part < reply ensures Framed(part).None? {
      FindCrlfIsFirst(part, 0);
      if FindCrlf(part, 0).Some? {
        FoundEarlier(part, reply, 0);
      }
    }
  }

  predicate Delivers(recvs: seq<Recv>) {
    forall i :: 0 <= i < |recvs| ==> Possible(recvs[i]) && (recvs[i].Data? || recvs[i].Interrupted?)
  }

  /**
   * However a self-delimiting reply is split, the client is still waiting on every proper prefix of it and returns
   * exactly the reply once it is complete.
   */
  lemma {:induction false} ReplyArrivesWhole(reply: string, response: string, recvs: seq<Recv>)
    requires SelfDelimiting(reply) && |reply| <= MAX_RESPONSE_SIZE
    requires response < reply && Delivers(recvs) && response + Delivered(recvs) <= reply
    ensures Receive(response, recvs) == if response + Delivered(recvs) == reply then Reply(reply) else Waiting
    decreases |recvs|
  {
    hide Framed;
    if recvs != [] {
      if recvs[0].Interrupted? {
        assert "" + Delivered(recvs[1..]) == Delivered(recvs[1..]);
        ReplyArrivesWhole(reply, response, recvs[1..]);
      } else {
        var now := response + recvs[0].bytes;
        Associate(response, recvs[0].bytes, Delivered(recvs[1..]));
        assert response + Delivered(recvs) == now + Delivered(recvs[1..]);
        assert now <= reply;
        if now == reply {
          assert now + Delivered(recvs[1..]) <= now;
          assert Delivered(recvs[1..]) == "";
        } else {
          ReplyArrivesWhole(reply, now, recvs[1..]);
        }
      }
    } else {
      assert response + "" == response;
    }
  }

  /** A connection that is closed or fails in the middle of a reply is reported as that, and gives no reply. */
  lemma BrokenOffReply(reply: string, recvs: seq<Recv>)
    requires SelfDelimiting(reply) && |reply| <= MAX_RESPONSE_SIZE && Delivers(recvs) && Delivered(recvs) < reply
    ensures forall last :: last == Closed || last == Failed ==>
              forall i :: 0 <= i < |recvs + [last]| ==> Possible((recvs + [last])[i])
    ensures Receive("", recvs + [Closed]) == ClosedByServer && Receive("", recvs + [Failed]) == SocketError
  {
    hide SelfDelimiting, Receive, Delivered;
    assert "" + Delivered(recvs) == Delivered(recvs);
    ReplyArrivesWhole(reply, "", recvs);
    NextAnswer("", recvs, Closed);
    NextAnswer("", recvs, Failed);
  }

  // ------------------------------------------------------- exactly when

  /** From any chunks of it, the client waits for the rest of this reply and then returns it. */
  ghost predicate Collected(reply: string) {
    forall recvs :: Delivers(recvs) && Delivered(recvs) <= reply ==>
      Receive("", recvs) == if Delivered(recvs) == reply then Reply(reply) else Waiting
  }

  /** The chunks that deliver a text byte by byte. */
  function ByteByByte(text: string): (r: seq<Recv>)
    ensures |r| == |text| && forall i :: 0 <= i < |r| ==> r[i] == Data([text[i]])
  {
    seq(|text|, i requires 0 <= i < |text| => Data([text[i]]))
  }

  lemma {:induction false} ByteByByteDelivers(text: string)
    ensures Delivers(ByteByByte(text)) && Delivered(ByteByByte(text)) == text
  {
    if text != "" {
      ByteByByteDelivers(text[1..]);
      assert ByteByByte(text)[1..] == ByteByByte(text[1..]);
      assert text == [text[0]] + text[1..];
    }
  }

  lemma FramedIsAPrefix(response: string)
    requires Framed(response).Some?
    ensures Framed(response).value <= response
  {
    hide FindCrlf, FromChars, ItemsEnd;
  }

  /** No reply that the loop returns is above the limit. */
  lemma {:induction false} RepliesAreLimited(response: string, recvs: seq<Recv>)
    requires forall i :: 0 <= i < |recvs| ==> Possible(recvs[i])
    ensures Receive(response, recvs).Reply? ==> |Receive(response, recvs).text| <= MAX_RESPONSE_SIZE
    decreases |recvs|
  {
    hide Framed;
    if recvs != [] {
      if recvs[0].Data? {
        var now := response + recvs[0].bytes;
        if Framed(now).Some? {
          FramedIsAPrefix(now);
        }
        RepliesAreLimited(now, recvs[1..]);
      } else if recvs[0].Interrupted? {
        RepliesAreLimited(response, recvs[1..]);
      }
    }
  }

  /** A client that waits through a text, byte by byte, has taken no prefix of it for a reply. */
  lemma {:induction false} WaitedThrough(response: string, text: string, k: nat)
    requires Receive(response, ByteByByte(text)) == Waiting && k < |text|
    ensures Framed(response + text[..k + 1]).None?
    decreases |text|
  {
    hide Framed;
    var first, rest := text[0], text[1..];
    assert ByteByByte(text)[1..] == ByteByByte(rest);
    var now := response + [first];
    assert response + text[..1] == now;
    if k > 0 {
      WaitedThrough(now, rest, k - 1);
      assert response + text[..k + 1] == now + rest[..k];
    }
  }

  /** The last byte decides when all before it were waited through. */
  lemma {:induction false} LastByteDecides(response: string, text: string, last: char)
    requires Receive(response, ByteByByte(text)) == Waiting && |response + text| < MAX_RESPONSE_SIZE
    ensures var whole := response + text + [last];
            Receive(response, ByteByByte(text + [last])) ==
            if Framed(whole).Some? then Reply(Framed(whole).value) else Waiting
    decreases |text|
  {
    hide Framed;
    var bytes := ByteByByte(text + [last]);
    if text == "" {
      assert bytes[1..] == [] && response + text + [last] == response + [last];
    } else {
      var now, rest := response + [text[0]], text[1..];
      assert bytes[0] == Data([text[0]]) && bytes[1..] == ByteByByte(rest + [last]);
      assert ByteByByte(text)[1..] == ByteByByte(rest);
      LastByteDecides(now, rest, last);
      assert now + rest == response + text;
    }
  }

  /** A reply is collected whatever its chunks exactly when it delimits itself and keeps within the limit. */
  lemma CollectedExactly(reply: string)
    requires reply != ""
    ensures Collected(reply) <==> SelfDelimiting(reply) && |reply| <= MAX_RESPONSE_SIZE
  {
    hide Framed;
    if SelfDelimiting(reply) && |reply| <= MAX_RESPONSE_SIZE {
      forall recvs | Delivers(recvs) && Delivered(recvs) <= reply
        ensures Receive("", recvs) == if Delivered(recvs) == reply then Reply(reply) else Waiting
      {
        assert "" + Delivered(recvs) == Delivered(recvs);
        ReplyArrivesWhole(reply, "", recvs);
      }
    }
    if Collected(reply) {
      CollectedDelimits(reply);
    }
  }

  lemma CollectedBytes(reply: string, text: string)
    requires Collected(reply) && text <= reply
    ensures Receive("", ByteByByte(text)) == if text == reply then Reply(reply) else Waiting
  {
    hide Receive, Delivers, Delivered, ByteByByte;
    ByteByByteDelivers(text);
  }

  lemma CollectedPart(reply: string, part: string)
    requires Collected(reply) && part != "" && part < reply
    ensures Framed(part).None?
  {
    CollectedBytes(reply, part);
    hide Framed, Collected, Receive, ByteByByte;
    WaitedThrough("", part, |part| - 1);
    assert "" + part[..|part|] == part;
  }

  lemma CollectedWhole(reply: string)
    requires Collected(reply) && reply != ""
    ensures Framed(reply) == Some(reply) && |reply| <= MAX_RESPONSE_SIZE
  {
    var init, last := reply[..|reply| - 1], reply[|reply| - 1];
    assert init + [last] == reply && "" + init == init;
    CollectedBytes(reply, reply);
    CollectedBytes(reply, init);
    hide Framed, Collected, Receive, ByteByByte;
    RepliesAreLimited("", ByteByByte(reply));
    LastByteDecides("", init, last);
  }

  lemma CollectedDelimits(reply: string)
    requires reply != "" && Collected(reply)
    ensures SelfDelimiting(reply) && |reply| <= MAX_RESPONSE_SIZE
  {
    hide Framed, Collected;
    CollectedWhole(reply);
    forall part | part != "" && part < reply ensures Framed(part).None? {
      CollectedPart(reply, part);
    }
  }

  // -------------------------------------------------------------- display

  /** `substr(1, size - 3)`; the length wraps to "the rest" when there are fewer than three bytes. */
  function Inner(response: string): string
    requires response != ""
  {
    if |response| >= 3 then response[1..|response| - 2] else response[1..]
  }

  function DecodeResp(response: string): string {
    if response == "" then "(empty response)"
    else if response[0] == '+' then Inner(response)
    else if response[0] == '-' then "(error) " + Inner(response)
    else if response[0] == ':' then "(integer) " + Inner(response)
    else if response[0] == '$' then
      match FindCrlf(response, 0)
      case None => "(protocol error)"
      case Some(lineEnd) =>
        if Between(response, 1, lineEnd) == "-1" then "(nil)"
        else
          var valueStart := lineEnd + 2;
          var valueEnd := if EndsWithCrlf(response) then |response| - 2 else |response|;
          "\"" + (if valueStart <= valueEnd then response[valueStart..valueEnd] else response[valueStart..]) + "\""
    else response
  }

  /** A bulk reply is shown as its payload in quotes, line ends and all. */
  lemma ShownBulk(value: string)
    ensures DecodeResp(BulkString(value)) == "\"" + value + "\""
  {
    var reply := BulkString(value);
    BulkAt(reply, 0, value);
    var end := HeaderEnd(0, |value|);
    PrintedNumbersAreDigits(|value|);
    var text := Between(reply, 1, end);
    assert text == Print(|value|) && IsDigit(text[0]);
    hide FindCrlf, Print;
    assert text != "-1";
    assert reply[end + 2..|reply| - 2] == value;
  }

  lemma ShownLine(value: string)
    ensures DecodeResp(SimpleString(value)) == value
    ensures DecodeResp(ErrorReply(value)) == "(error) " + value
  {
    assert Inner(SimpleString(value)) == value;
    assert Inner(ErrorReply(value)) == value;
  }

  /** The text that a client is shown of an integer reply is read as that integer. */
  lemma ShownInteger(value: int)
    requires -LLONG <= value < LLONG
    ensures var shown, mark := DecodeResp(IntegerReply(value)), "(integer) ";
            mark <= shown && FromChars(shown[|mark|..]) == Some(value)
  {
    PrintedIntegersParse(value);
    hide FromChars, PrintInt;
    assert Inner(IntegerReply(value)) == PrintInt(value);
    assert ("(integer) " + PrintInt(value))[10..] == PrintInt(value);
  }

  /** What an integer reply says: between its mark and its line end stands the number, so no two numbers share one. */
  lemma IntegerReplyReads(value: int)
    requires -LLONG <= value < LLONG
    ensures var reply := IntegerReply(value);
            && |reply| > 3 && reply[0] == ':' && HasCrlf(reply, |reply| - 2)
            && FromChars(reply[1..|reply| - 2]) == Some(value)
  {
    PrintedIntegersParse(value);
    hide FromChars;
    var reply := IntegerReply(value);
    assert reply[1..|reply| - 2] == PrintInt(value);
  }

  lemma IntegerRepliesDiffer(a: int, b: int)
    requires -LLONG <= a < LLONG && -LLONG <= b < LLONG && IntegerReply(a) == IntegerReply(b)
    ensures a == b
  {
    IntegerReplyReads(a);
    IntegerReplyReads(b);
  }

  /** What is no reply of the server's is shown as it is, or as the error that it is. */
  lemma ShownOtherwise(response: string)
    ensures DecodeResp("") == "(empty response)"
    ensures response != "" && response[0] == '$' && FindCrlf(response, 0).None? ==>
              DecodeResp(response) == "(protocol error)"
    ensures response != "" && response[0] !in "+-:$" ==> DecodeResp(response) == response
  {
    hide FindCrlf, Inner;
  }

  lemma ShownNull()
    ensures DecodeResp(NULL_REPLY) == "(nil)"
  {
    FindCrlfAt(NULL_REPLY, 0, 3);
    assert Between(NULL_REPLY, 1, 3) == "-1";
  }
}
