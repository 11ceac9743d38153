/** How the framer behaves when its input arrives in pieces. */
module FramerChunks {
  import opened Wrappers
  import opened Text
  import opened Encoding
  import opened Framing

  // ------------------------------------------------------- more bytes

  lemma NumberStable(a: string, b: string, start: nat, end: nat)
    requires end <= |a|
    ensures SizeBetween(a + b, start, end) == SizeBetween(a, start, end)
  {
    if start < end {
      assert (a + b)[start..end] == a[start..end];
    }
  }

  /** Later bytes change no verdict on a bulk string; only a malformed one may lose more of them. */
  lemma ScanBulkStable(a: string, b: string, position: nat)
    ensures ScanBulk(a, position).Complete? ==> ScanBulk(a + b, position) == ScanBulk(a, position)
    ensures ScanBulk(a, position).Malformed? ==>
              ScanBulk(a + b, position).Malformed? && ScanBulk(a + b, position).fault == ScanBulk(a, position).fault
  {
    hide SizeBetween, FindCrlf;
    if FindCrlf(a, position).Some? {
      FindCrlfStable(a, b, position);
      NumberStable(a, b, position + 1, FindCrlf(a, position).value);
    }
  }

  lemma {:induction false} ScanBulksStable(a: string, b: string, position: nat, count: nat)
    requires position <= |a|
    ensures var s, t := ScanBulks(a, position, count), ScanBulks(a + b, position, count);
            && (s.Complete? ==> t == s)
            && (s.Malformed? ==> t.Malformed? && t.fault == s.fault)
    decreases count
  {
    hide ScanBulk;
    if count > 0 {
      ScanBulkStable(a, b, position);
      var first := ScanBulk(a, position);
      if first.Complete? {
        ScanBulksStable(a, b, first.position, count - 1);
      }
    }
  }

  lemma FrameStepStable(a: string, b: string)
    requires a != ""
    ensures var s, t := FrameStep(a), FrameStep(a + b);
            && (s.Take? || s.Replace? ==> t == s)
            && (s.Stop? ==> t.Stop? && t.fault == s.fault)
  {
    hide ScanBulks, SizeBetween, FindCrlf;
    if FindCrlf(a, 0).Some? {
      FindCrlfStable(a, b, 0);
      var end := FindCrlf(a, 0).value;
      NumberStable(a, b, 1, end);
      var count := SizeBetween(a, 1, end);
      if count.Some? {
        ScanBulksStable(a, b, end + 2, count.value);
      }
    }
  }

  lemma {:induction false} PrintIsShort(n: nat)
    ensures |Print(n)| <= n / 10 + 1
  {
    if n >= 10 {
      PrintIsShort(n / 10);
    }
  }

  lemma WrappedBulk(buffer: string, position: nat, end: nat)
    requires HeaderLaid(buffer, position, '$', SIZE_T - 2, end) && end + 2 == |buffer| < SIZE_T
    ensures ScanBulk(buffer, position) == Complete(end + 2)
  {
    hide Print, FindCrlf, Decimal, ParseSize, Wrap;
    PrintedNumbersParse(SIZE_T - 2);
    FindCrlfIsFirst(buffer, position);
    WrapsRound(end + 2);
  }

  lemma WrappedHeader() returns (buffer: string, end: nat)
    ensures buffer == "*1" + CRLF + ("$" + Print(SIZE_T - 2) + CRLF)
    ensures HeaderLaid(buffer, 4, '$', SIZE_T - 2, end) && end + 2 == |buffer| < SIZE_T
  {
    var line := "$" + Print(SIZE_T - 2) + CRLF;
    buffer, end := "*1" + CRLF + line, HeaderEnd(4, SIZE_T - 2);
    PrintIsShort(SIZE_T - 2);
    hide Print;
    assert buffer[4..4 + |line|] == line;
    HeaderAt(buffer, 4, '$', SIZE_T - 2);
  }

  /**
   * A length of 2^64 - 2 makes the end of the bulk string wrap around to the end of its own length line: the framer
   * hands on a request without the payload it announces.
   */
  lemma LengthWrapsToNothing()
    ensures var buffer := "*1" + CRLF + ("$" + Print(SIZE_T - 2) + CRLF);
            FrameStep(buffer) == Take(|buffer|)
  {
    hide Print, FindCrlf, ScanBulk, ParseSize;
    var buffer, end := WrappedHeader();
    WrappedBulk(buffer, 4, end);
    assert HasCrlf(buffer, 2);
    FindCrlfAt(buffer, 0, 2);
    assert buffer[1..2] == "1";
    OneIsOne();
    assert ScanBulks(buffer, 4, 1) == Complete(|buffer|);
  }

  lemma WrapsRound(n: nat)
    requires n < SIZE_T
    ensures Wrap(n + (SIZE_T - 2) + 2) == n
  {
  }

  lemma OneIsOne()
    ensures ParseSize("1") == Some(1)
  {
    assert "1"[..0] == "" && Decimal("1") == Some(1);
  }

  // ----------------------------------------------- chunk-independence

  /** The outcome of two calls: the first on `a`, the second on what it left with `b` added. */
  function InTwoCalls(a: string, b: string): Frames {
    Before(Extract(a).cuts, Extract(Extract(a).rest + b))
  }

  lemma AfterNothing(b: string)
    ensures Before([], Extract(b)) == Extract(b)
  {
  }

  lemma CutsOfBefore(cuts: seq<Cut>, f: Frames)
    ensures Before(cuts, f).cuts == cuts + f.cuts && Before(cuts, f).rest == f.rest
    ensures Before(cuts, f).stopped == f.stopped
  {
  }

  lemma SameFirstCut(a: string, b: string, step: Step)
    requires !step.Wait? && step.size <= |a|
    ensures FirstCut(a + b, step) == FirstCut(a, step)
    ensures (a + b)[step.size..] == a[step.size..] + b
  {
    assert (a + b)[..step.size] == a[..step.size];
  }

  /** Cutting the input anywhere the first call does not leave on an error changes nothing. */
  lemma {:induction false} ChunkIndependence(a: string, b: string)
    requires !Extract(a).stopped
    ensures Extract(a + b) == InTwoCalls(a, b)
    decreases |a|
  {
    if a == "" {
      assert a + b == b && Extract(a) == Frames([], "", false);
      AfterNothing(b);
      return;
    }
    var step := FrameStep(a);
    ExtractStep(a);
    ExtractStep(a + b);
    FrameStepStable(a, b);
    hide FrameStep, Extract, Before, FirstCut;
    if step.Wait? {
      AfterNothing(a + b);
    } else {
      var tail, cut := a[step.size..], FirstCut(a, step);
      SameFirstCut(a, b, step);
      ChunkIndependence(tail, b) by { CutsOfBefore([cut], Extract(tail)); }
      BeforeBefore([cut], Extract(tail).cuts, Extract(Extract(tail).rest + b));
      CutsOfBefore([cut], Extract(tail));
    }
  }

  /** An error that makes the framer leave its loop is met again, and ends the output, however much follows. */
  lemma {:induction false} StoppedStays(a: string, b: string)
    requires Extract(a).stopped
    ensures Extract(a + b).stopped && Extract(a + b).cuts == Extract(a).cuts
    decreases |a|
  {
    hide FrameStep;
    FrameStepStable(a, b);
    var step := FrameStep(a);
    if !step.Stop? {
      StoppedStays(a[step.size..], b);
      assert (a + b)[step.size..] == a[step.size..] + b;
      assert (a + b)[..step.size] == a[..step.size];
    }
  }

  /** A bulk string that is waited for can always be completed or spoiled. */
  lemma ProvokeBulk(a: string, position: nat) returns (b: string)
    requires ScanBulk(a, position).Incomplete?
    ensures !ScanBulk(a + b, position).Incomplete?
  {
    if position >= |a| {
      b := seq(position - |a| + 1, _ => 'X');
      assert (a + b)[position] == 'X';
    } else if FindCrlf(a, position).None? {
      b := CRLF;
      assert HasCrlf(a + b, |a|);
      FindCrlfIsFirst(a + b, position);
      if ScanBulk(a + b, position).Incomplete? {
        var more := ProvokeDeclared(a + b, position);
        assert a + (b + more) == a + b + more;
        b := b + more;
      }
    } else {
      b := ProvokeDeclared(a, position);
    }
  }

  /** The same once the length line is there. */
  lemma ProvokeDeclared(a: string, position: nat) returns (b: string)
    requires ScanBulk(a, position).Incomplete? && position < |a| && FindCrlf(a, position).Some?
    ensures !ScanBulk(a + b, position).Incomplete?
  {
    var end := FindCrlf(a, position).value;
    var length := SizeBetween(a, position + 1, end).value;
    b := seq(end + 2 + length + 2 - |a|, _ => 'X');
    FindCrlfStable(a, b, position);
    NumberStable(a, b, position + 1, end);
    assert (a + b)[end + 2 + length + 1] == 'X';
  }

  lemma {:induction false} ProvokeBulks(a: string, position: nat, count: nat) returns (b: string)
    requires position <= |a| && ScanBulks(a, position, count).Incomplete?
    ensures !ScanBulks(a + b, position, count).Incomplete?
    decreases count
  {
    hide ScanBulk;
    var first := ScanBulk(a, position);
    if first.Complete? {
      b := ProvokeBulks(a, first.position, count - 1);
      ScanBulkStable(a, b, position);
    } else {
      b := ProvokeBulk(a, position);
      var now := ScanBulk(a + b, position);
      if now.Complete? && ScanBulks(a + b, now.position, count - 1).Incomplete? {
        var more := ProvokeBulks(a + b, now.position, count - 1);
        ScanBulkStable(a + b, more, position);
        assert a + (b + more) == a + b + more;
        b := b + more;
      }
    }
  }

  /** Every buffer, waiting or not, can be made to give a request. */
  lemma Provoke(a: string) returns (b: string)
    ensures a + b != "" && !FrameStep(a + b).Wait?
  {
    if a == "" {
      b := "X" + CRLF;
      assert a + b == b && HasCrlf(b, 1);
      FindCrlfIsFirst(b, 0);
    } else if FindCrlf(a, 0).None? {
      b := CRLF;
      assert HasCrlf(a + b, |a|);
      FindCrlfIsFirst(a + b, 0);
      if FrameStep(a + b).Wait? {
        var more := ProvokeHeaded(a + b);
        assert a + (b + more) == a + b + more;
        b := b + more;
      }
    } else if FrameStep(a).Wait? {
      b := ProvokeHeaded(a);
    } else {
      b := "";
      assert a + b == a;
    }
  }

  lemma ProvokeHeaded(a: string) returns (b: string)
    requires a != "" && FrameStep(a).Wait? && FindCrlf(a, 0).Some?
    ensures !FrameStep(a + b).Wait?
  {
    hide ScanBulks, SizeBetween, FindCrlf;
    var end := FindCrlf(a, 0).value;
    var count := SizeBetween(a, 1, end).value;
    b := ProvokeBulks(a, end + 2, count);
    FindCrlfStable(a, b, 0);
    NumberStable(a, b, 1, end);
  }

  /** Once the first call has left on an error, some continuation tells the two ways apart. */
  lemma ChunkDependence(a: string) returns (b: string)
    requires Extract(a).stopped
    ensures Extract(a + b).cuts != InTwoCalls(a, b).cuts
  {
    hide FrameStep;
    b := Provoke(Extract(a).rest);
    StoppedStays(a, b);
    assert |Extract(Extract(a).rest + b).cuts| > 0;
  }

  /** Where the input may be cut without a trace: exactly where the call so far has not left on an error. */
  lemma ChunkIndependentExactly(a: string)
    ensures (forall b :: Extract(a + b) == InTwoCalls(a, b)) <==> !Extract(a).stopped
  {
    if Extract(a).stopped {
      var b := ChunkDependence(a);
      assert Extract(a + b) != InTwoCalls(a, b);
    } else {
      forall b ensures Extract(a + b) == InTwoCalls(a, b) {
        ChunkIndependence(a, b);
      }
    }
  }

  lemma BadBulkStops(buffer: string)
    requires "*1\r\nX" <= buffer
    ensures FrameStep(buffer) ==
            Stop(InvalidBulk, match FindCrlf(buffer, 4) case None => |buffer| case Some(end) => end + 2)
  {
    hide FindCrlf;
    FindCrlfAt(buffer, 0, 2);
    assert buffer[1..2] == "1" && "1"[..0] == "" && Decimal("1") == Some(1);
    assert ScanBulk(buffer, 4).Malformed?;
  }

  /** A bad bulk string whose line end comes late: one call drops the line, two serve its line end as a request. */
  lemma LateLineEnd()
    ensures Extract("*1\r\nX" + CRLF) == Frames([Faulty(InvalidBulk)], "", true)
    ensures InTwoCalls("*1\r\nX", CRLF) == Frames([Faulty(InvalidBulk), Request(CRLF)], "", false)
  {
    hide FindCrlf, ScanBulks, SizeBetween, FaultReply;
    var a := "*1\r\nX";
    var whole := a + CRLF;
    BadBulkStops(a);
    BadBulkStops(whole);
    FindCrlfIsFirst(a, 4);
    FindCrlfAt(whole, 4, 5);
    assert Extract(a) == Frames([Faulty(InvalidBulk)], "", true);
    FindCrlfAt(CRLF, 0, 0);
    assert "" + CRLF == CRLF && CRLF[..2] == CRLF && CRLF[2..] == "";
    assert Extract("") == Frames([], "", false);
    assert Extract(CRLF) == Frames([Request(CRLF)], "", false);
  }

  // ------------------------------------------------------ conservation

  predicate IsSuffix(rest: string, buffer: string) { |rest| <= |buffer| && rest == buffer[|buffer| - |rest|..] }

  lemma SuffixOfTail(rest: string, buffer: string, size: nat)
    requires size <= |buffer| && IsSuffix(rest, buffer[size..])
    ensures IsSuffix(rest, buffer)
  {
    var tail := buffer[size..];
    assert tail[|tail| - |rest|..] == buffer[|buffer| - |rest|..];
  }

  lemma {:induction false} LeftoverIsSuffix(buffer: string)
    ensures IsSuffix(Extract(buffer).rest, buffer)
    decreases |buffer|
  {
    hide FrameStep, IsSuffix;
    if buffer == "" || FrameStep(buffer).Wait? {
      assert IsSuffix(buffer, buffer) by { WholeIsSuffix(buffer, 0); }
    } else {
      var step := FrameStep(buffer);
      if step.Stop? {
        WholeIsSuffix(buffer, step.size);
      } else {
        LeftoverIsSuffix(buffer[step.size..]);
        SuffixOfTail(Extract(buffer[step.size..]).rest, buffer, step.size);
      }
    }
  }

  lemma WholeIsSuffix(buffer: string, size: nat)
    requires size <= |buffer|
    ensures IsSuffix(buffer[size..], buffer)
    ensures size == 0 ==> buffer[size..] == buffer
  {
  }

  /** No error text was put in the place of a request. */
  predicate Faultless(buffer: string)
    decreases |buffer|
  {
    buffer == "" || FrameStep(buffer).Wait?
    || (FrameStep(buffer).Take? && Faultless(buffer[FrameStep(buffer).size..]))
  }

  lemma FaultsAreVisible(fault: Fault)
    ensures FaultReply(fault) != "" && FaultReply(fault)[0] == '-'
  {
  }

  lemma TextsOfBefore(cut: Cut, f: Frames)
    ensures Texts(Before([cut], f).cuts) == [CutText(cut)] + Texts(f.cuts)
    ensures Concat(Texts(Before([cut], f).cuts)) == CutText(cut) + Concat(Texts(f.cuts))
  {
    hide CutText;
    var cuts := [cut] + f.cuts;
    assert cuts[0] == cut && cuts[1..] == f.cuts;
    var texts := [CutText(cut)] + Texts(f.cuts);
    assert texts[1..] == Texts(f.cuts);
  }

  /** A cut that is an error text gives the output away: it does not begin like the input. */
  lemma FaultChangesInput(buffer: string, f: Frames)
    requires buffer != "" && buffer[0] == '*' && f.cuts != [] && f.cuts[0].Faulty?
    ensures Concat(Texts(f.cuts)) + f.rest != buffer
  {
    FaultsAreVisible(f.cuts[0].fault);
    hide FaultReply;
    assert (Concat(Texts(f.cuts)) + f.rest)[0] == '-';
  }

  /** The framer gives back its input, cut into requests and a leftover, exactly when it met no malformed request. */
  lemma {:induction false} Conservation(buffer: string)
    ensures Concat(Texts(Extract(buffer).cuts)) + Extract(buffer).rest == buffer <==> Faultless(buffer)
    decreases |buffer|
  {
    if buffer == "" || FrameStep(buffer).Wait? {
      TextsOfNone();
      NothingAdded(buffer);
      return;
    }
    var step := FrameStep(buffer);
    ExtractStep(buffer);
    if step.Take? {
      hide FrameStep, Extract, Texts, Concat, Before;
      var head, tail := buffer[..step.size], buffer[step.size..];
      var f := Extract(tail);
      Conservation(tail);
      TextsOfBefore(Request(head), f);
      CutsOfBefore([Request(head)], f);
      Associate(head, Concat(Texts(f.cuts)), f.rest);
      assert buffer == head + tail;
      CancelPrefix(head, Concat(Texts(f.cuts)) + f.rest, tail);
    } else {
      OnlyArraysFail(buffer);
      hide FrameStep, Extract, Texts, Concat;
      FaultChangesInput(buffer, Extract(buffer));
    }
  }

  lemma OnlyArraysFail(buffer: string)
    requires buffer != "" && (FrameStep(buffer).Replace? || FrameStep(buffer).Stop?)
    ensures buffer[0] == '*'
  {
    hide FindCrlf, ScanBulks, SizeBetween;
  }

  lemma CancelPrefix(a: string, b: string, c: string)
    ensures a + b == a + c <==> b == c
  {
    assert b == (a + b)[|a|..];
    assert c == (a + c)[|a|..];
  }

  // ---------------------------------------------------- command streams

  /** The encoding has a size that `size_t` can hold. */
  predicate Representable(command: seq<string>) {
    |Encode(command)| < SIZE_T
  }

  lemma ScanLaidBulk(buffer: string, position: nat, value: string)
    requires BulkLaid(buffer, position, value) && BulkEnd(position, value) < SIZE_T
    ensures ScanBulk(buffer, position) == Complete(BulkEnd(position, value))
  {
    hide ParseSize, Print, FindCrlf, Wrap;
    PrintedNumbersParse(|value|);
    assert Wrap(BulkEnd(position, value)) == BulkEnd(position, value);
  }

  lemma {:induction false} BulksEndGrows(position: nat, values: seq<string>)
    ensures position <= BulksEnd(position, values)
    decreases |values|
  {
    if values != [] {
      BulksEndGrows(BulkEnd(position, values[0]), values[1..]);
    }
  }

  lemma {:induction false} ScanLaidBulks(buffer: string, position: nat, values: seq<string>)
    requires BulksLaid(buffer, position, values) && BulksEnd(position, values) < SIZE_T
    ensures ScanBulks(buffer, position, |values|) == Complete(BulksEnd(position, values))
    decreases |values|
  {
    hide ScanBulk, BulkLaid, Print;
    if values != [] {
      BulksEndGrows(BulkEnd(position, values[0]), values[1..]);
      ScanLaidBulk(buffer, position, values[0]);
      ScanLaidBulks(buffer, BulkEnd(position, values[0]), values[1..]);
    }
  }

  lemma FewerThanBytes(command: seq<string>)
    ensures |command| <= |Encode(command)|
  {
    BulksCoverTheirArguments(command);
  }

  /** A buffer that begins with an encoded command loses exactly that command. */
  lemma CommandIsTaken(command: seq<string>, buffer: string)
    requires Representable(command) && Encode(command) <= buffer
    ensures FrameStep(buffer) == Take(|Encode(command)|)
  {
    FewerThanBytes(command);
    hide ScanBulks, BulksLaid, BulksEnd, ParseSize, Print, FindCrlf, Encode;
    CommandAt(buffer, command);
    PrintedNumbersParse(|command|);
    ScanLaidBulks(buffer, HeaderEnd(0, |command|) + 2, command);
  }

  /** A proper prefix of an encoded command is never mistaken for anything. */
  lemma PartOfCommandWaits(command: seq<string>, part: string)
    requires Representable(command) && part < Encode(command)
    ensures Extract(part) == Frames([], part, false)
  {
    hide FrameStep, Encode;
    if part != "" {
      var whole := Encode(command);
      FrameStepStable(part, whole[|part|..]);
      assert part + whole[|part|..] == whole;
      CommandIsTaken(command, whole);
    }
  }

  /** `part` is what has arrived of the command that follows the first `count` ones. */
  ghost predicate PartOfNext(commands: seq<seq<string>>, count: nat, part: string) {
    count <= |commands|
    && if count == |commands| then part == "" else part < Encode(commands[count])
  }

  /** A stream of encoded commands, cut anywhere: the whole commands come out, the cut one stays. */
  lemma {:induction false} StreamIsCutAtCommands(commands: seq<seq<string>>, count: nat, part: string)
    requires PartOfNext(commands, count, part)
    requires forall i :: 0 <= i < |commands| ==> Representable(commands[i])
    ensures Extract(Concat(Encodings(commands[..count])) + part) == Frames(Requests(commands[..count]), part, false)
    decreases count
  {
    hide FrameStep, Encode;
    if count == 0 {
      if commands == [] {
        assert Concat([]) + part == "";
      } else {
        PartOfCommandWaits(commands[0], part);
        assert Concat([]) + part == part;
      }
    } else {
      var first, rest := Encode(commands[0]), commands[1..];
      var tail := Concat(Encodings(rest[..count - 1])) + part;
      var buffer := Concat(Encodings(commands[..count])) + part;
      StreamCons(commands, count, part);
      CommandIsTaken(commands[0], buffer);
      StreamIsCutAtCommands(rest, count - 1, part);
      assert buffer[..|first|] == first && buffer[|first|..] == tail;
      assert Requests(commands[..count]) == [Request(first)] + Requests(rest[..count - 1]);
    }
  }

  /** The requests a list of commands is framed into. */
  function Requests(commands: seq<seq<string>>): (r: seq<Cut>)
    ensures |r| == |commands|
    ensures forall i :: 0 <= i < |commands| ==> r[i] == Request(Encode(commands[i]))
  {
    seq(|commands|, i requires 0 <= i < |commands| => Request(Encode(commands[i])))
  }

  lemma EncodingsCons(commands: seq<seq<string>>)
    requires commands != []
    ensures Encodings(commands) == [Encode(commands[0])] + Encodings(commands[1..])
    ensures Concat(Encodings(commands)) == Encode(commands[0]) + Concat(Encodings(commands[1..]))
  {
    hide Encode;
    assert Encodings(commands)[1..] == Encodings(commands[1..]);
  }

  lemma StreamCons(commands: seq<seq<string>>, count: nat, part: string)
    requires 0 < count <= |commands|
    ensures Concat(Encodings(commands[..count])) + part
         == Encode(commands[0]) + (Concat(Encodings(commands[1..][..count - 1])) + part)
  {
    hide Encode, Encodings, Concat;
    assert commands[..count][1..] == commands[1..][..count - 1] && commands[..count][0] == commands[0];
    EncodingsCons(commands[..count]);
    Associate(Encode(commands[0]), Concat(Encodings(commands[1..][..count - 1])), part);
  }

  /** The first command has arrived whole; what follows it is a beginning of the other commands. */
  lemma DropFirst(commands: seq<seq<string>>, received: string)
    requires commands != [] && received <= Concat(Encodings(commands)) && |Encode(commands[0])| <= |received|
    ensures var tail := received[|Encode(commands[0])|..];
            received == Encode(commands[0]) + tail && tail <= Concat(Encodings(commands[1..]))
  {
    EncodingsCons(commands);
    hide Encode, Encodings, Concat;
  }

  /** Whatever has arrived of a stream of commands is some whole commands and a part of the next. */
  lemma {:induction false} PrefixOfStream(commands: seq<seq<string>>, received: string)
    returns (count: nat, part: string)
    requires received <= Concat(Encodings(commands))
    ensures PartOfNext(commands, count, part)
    ensures received == Concat(Encodings(commands[..count])) + part
  {
    hide Encode, Encodings, Concat;
    assert Concat(Encodings([])) == "" by { NoCommands(); }
    if commands == [] {
      return 0, "";
    }
    var first, rest := Encode(commands[0]), commands[1..];
    if |received| < |first| {
      EncodingsCons(commands);
      assert received < first && commands[..0] == [] && "" + received == received;
      return 0, received;
    }
    DropFirst(commands, received);
    var before;
    before, part := PrefixOfStream(rest, received[|first|..]);
    count := before + 1;
    StreamCons(commands, count, part);
  }

  lemma NoCommands()
    ensures Concat(Encodings([])) == ""
  {
  }
}
