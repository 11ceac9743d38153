/** Every way in which input can be malformed: the error handed on, and how many bytes it costs. */
module FramerFaults {
  import opened Wrappers
  import opened Text
  import opened Encoding
  import opened Framing
  import opened FramerChunks

  /** A line that does not begin an array is a request of its own. */
  lemma LineIsTaken(line: string, rest: string)
    requires |line| >= 2 && FindCrlf(line, 0) == Some(|line| - 2) && line[0] != '*'
    ensures Extract(line + rest) == Before([Request(line)], Extract(rest))
  {
    FindCrlfStable(line, rest, 0);
    ExtractStep(line + rest);
    assert (line + rest)[..|line|] == line && (line + rest)[|line|..] == rest;
    hide FindCrlf, Extract;
  }

  /** An array header without a number is replaced by an error, and framing goes on behind its line. */
  lemma BadHeaderIsReplaced(text: string, rest: string)
    requires FindCrlf("*" + text + CRLF, 0) == Some(|text| + 1) && (text == "" || Decimal(text).None?)
    ensures Extract("*" + text + CRLF + rest) == Before([Faulty(InvalidArray)], Extract(rest))
  {
    var line := "*" + text + CRLF;
    FindCrlfStable(line, rest, 0);
    ExtractStep(line + rest);
    assert (line + rest)[1..|text| + 1] == text && (line + rest)[|line|..] == rest;
    hide FindCrlf, Extract, Decimal;
  }

  /** The beginning of a command: a header that announces `count` bulk strings, and the first of them. */
  function Beginning(count: nat, values: seq<string>): string { "*" + Print(count) + CRLF + Bulks(values) }

  lemma {:induction false} BulksAreScanned(buffer: string, position: nat, values: seq<string>, count: nat)
    requires BulksLaid(buffer, position, values) && BulksEnd(position, values) < SIZE_T && |values| <= count
    requires BulksEnd(position, values) <= |buffer|
    ensures ScanBulks(buffer, position, count) == ScanBulks(buffer, BulksEnd(position, values), count - |values|)
    decreases |values|
  {
    hide ScanBulk, BulkLaid, Print;
    if values != [] {
      BulksEndGrows(BulkEnd(position, values[0]), values[1..]);
      ScanLaidBulk(buffer, position, values[0]);
      BulksAreScanned(buffer, BulkEnd(position, values[0]), values[1..], count - 1);
    }
  }

  /** Where the beginning of a command lies in a buffer. */
  lemma BeginningLaid(count: nat, values: seq<string>, tail: string)
    ensures var head, start := Beginning(count, values), HeaderEnd(0, count) + 2;
            && HeaderLaid(head + tail, 0, '*', count, start - 2)
            && BulksLaid(head + tail, start, values) && BulksEnd(start, values) == |head|
  {
    var header := "*" + Print(count) + CRLF;
    var buffer := header + Bulks(values) + tail;
    assert buffer[0..0 + |header + Bulks(values)|] == header + Bulks(values);
    AtSplit(buffer, 0, header, Bulks(values));
    HeaderAt(buffer, 0, '*', count);
    BulksAt(buffer, |header|, values);
  }

  lemma BeginningStops(count: nat, values: seq<string>, tail: string, fault: Fault, erase: nat)
    requires |values| < count < SIZE_T && |Beginning(count, values)| < SIZE_T
    requires var head := Beginning(count, values);
             ScanBulk(head + tail, |head|) == Malformed(fault, erase)
    ensures var buffer := Beginning(count, values) + tail;
            buffer != "" && FrameStep(buffer) == Stop(fault, erase)
  {
    hide Beginning, ScanBulks, ScanBulk, BulksLaid, HeaderLaid, BulksEnd, FrameStep, Print;
    var head, start := Beginning(count, values), HeaderEnd(0, count) + 2;
    BeginningLaid(count, values, tail);
    BulksAreScanned(head + tail, start, values, count);
    FirstIsMalformed(head + tail, |head|, count - |values|);
    StepStops(head + tail, count, start - 2);
  }

  lemma StopErases(head: string, tail: string, fault: Fault, lost: nat)
    requires lost <= |tail| && head + tail != "" && FrameStep(head + tail) == Stop(fault, |head| + lost)
    ensures Extract(head + tail) == Frames([Faulty(fault)], tail[lost..], true)
  {
    ExtractStep(head + tail);
    hide FrameStep, Extract;
    assert (head + tail)[|head| + lost..] == tail[lost..];
  }

  /** A bulk string found malformed ends the call with that error, whatever good ones stood before it. */
  lemma FaultEndsTheCall(count: nat, values: seq<string>, tail: string, fault: Fault, lost: nat)
    requires |values| < count < SIZE_T && |Beginning(count, values)| < SIZE_T && lost <= |tail|
    requires var head := Beginning(count, values);
             ScanBulk(head + tail, |head|) == Malformed(fault, |head| + lost)
    ensures Extract(Beginning(count, values) + tail) == Frames([Faulty(fault)], tail[lost..], true)
  {
    hide Beginning, Extract, ScanBulk, FrameStep;
    BeginningStops(count, values, tail, fault, |Beginning(count, values)| + lost);
    StopErases(Beginning(count, values), tail, fault, lost);
  }

  lemma StepStops(buffer: string, count: nat, end: nat)
    requires HeaderLaid(buffer, 0, '*', count, end) && count < SIZE_T && ScanBulks(buffer, end + 2, count).Malformed?
    ensures var scan := ScanBulks(buffer, end + 2, count);
            buffer != "" && FrameStep(buffer) == Stop(scan.fault, scan.erase)
  {
    hide ScanBulks, ParseSize, Print, FindCrlf;
    PrintedNumbersParse(count);
  }

  lemma FirstIsMalformed(buffer: string, position: nat, count: nat)
    requires count > 0 && position <= |buffer| && ScanBulk(buffer, position).Malformed?
    ensures ScanBulks(buffer, position, count) == ScanBulk(buffer, position)
  {
    hide ScanBulk;
  }

  lemma ShiftedAt(head: string, tail: string, k: nat)
    ensures HasCrlf(tail, k) <==> HasCrlf(head + tail, |head| + k)
  {
  }

  lemma ShiftedCrlf(head: string, tail: string)
    ensures match FindCrlf(tail, 0)
            case None => FindCrlf(head + tail, |head|).None?
            case Some(end) => FindCrlf(head + tail, |head|) == Some(|head| + end)
  {
    FindCrlfIsFirst(tail, 0);
    var shifted := FindCrlf(head + tail, |head|);
    FindCrlfIsFirst(head + tail, |head|);
    if shifted.Some? {
      ShiftedAt(head, tail, shifted.value - |head|);
    }
    if FindCrlf(tail, 0).Some? {
      var end := FindCrlf(tail, 0).value;
      ShiftedAt(head, tail, end);
      forall j | |head| <= j < |head| + end ensures !HasCrlf(head + tail, j) {
        ShiftedAt(head, tail, j - |head|);
      }
      FindCrlfAt(head + tail, |head|, |head| + end);
    }
  }

  /** Something other than a bulk string costs its line, or everything when it has no line end yet. */
  lemma BadMarkEndsTheCall(count: nat, values: seq<string>, tail: string)
    requires |values| < count < SIZE_T && |Beginning(count, values)| < SIZE_T && tail != "" && tail[0] != '$'
    ensures Extract(Beginning(count, values) + tail) ==
            match FindCrlf(tail, 0)
            case None => Frames([Faulty(InvalidBulk)], "", true)
            case Some(end) => Frames([Faulty(InvalidBulk)], tail[end + 2..], true)
  {
    hide Beginning, Extract, FindCrlf;
    var head := Beginning(count, values);
    ShiftedCrlf(head, tail);
    FaultEndsTheCall(count, values, tail, InvalidBulk,
                     match FindCrlf(tail, 0) case None => |tail| case Some(end) => end + 2);
  }

  /** A length that is no number costs its line. */
  lemma BadLengthEndsTheCall(count: nat, values: seq<string>, text: string, rest: string)
    requires |values| < count < SIZE_T && |Beginning(count, values)| < SIZE_T
    requires FindCrlf("$" + text + CRLF, 0) == Some(|text| + 1) && (text == "" || Decimal(text).None?)
    ensures Extract(Beginning(count, values) + ("$" + text + CRLF + rest))
         == Frames([Faulty(InvalidLength)], rest, true)
  {
    var line := "$" + text + CRLF;
    var tail := line + rest;
    FindCrlfStable(line, rest, 0);
    hide Beginning, Extract, FindCrlf, Decimal;
    var head := Beginning(count, values);
    ShiftedCrlf(head, tail);
    assert (head + tail)[|head| + 1..|head| + 1 + |text|] == text;
    assert tail[|line|..] == rest;
    FaultEndsTheCall(count, values, tail, InvalidLength, |line|);
  }

  /** A payload without its line end costs length line and payload; the rest begins right behind the payload. */
  lemma BadTerminatorEndsTheCall(count: nat, values: seq<string>, value: string, rest: string)
    requires |values| < count < SIZE_T && |Beginning(count, values)| + |BulkString(value)| < SIZE_T
    requires |rest| >= 2 && !HasCrlf(rest, 0)
    ensures Extract(Beginning(count, values) + ("$" + Print(|value|) + CRLF + value + rest))
         == Frames([Faulty(InvalidTerminator)], rest, true)
  {
    var line := "$" + Print(|value|) + CRLF;
    var tail := line + value + rest;
    hide Beginning, Extract;
    var head := Beginning(count, values);
    PayloadUnterminated(head, value, rest);
    assert tail[|line| + |value|..] == rest;
    FaultEndsTheCall(count, values, tail, InvalidTerminator, |line| + |value|);
  }

  lemma PayloadUnterminated(head: string, value: string, rest: string)
    requires |rest| >= 2 && !HasCrlf(rest, 0) && |head| + |BulkString(value)| < SIZE_T
    ensures var line := "$" + Print(|value|) + CRLF;
            ScanBulk(head + (line + value + rest), |head|) ==
            Malformed(InvalidTerminator, |head| + |line| + |value|)
  {
    var line := "$" + Print(|value|) + CRLF;
    var buffer := head + (line + value + rest);
    assert buffer[|head|..|head| + |line|] == line;
    HeaderAt(buffer, |head|, '$', |value|);
    PrintedNumbersParse(|value|);
    hide FindCrlf, ParseSize, Print, Wrap;
    var end := |head| + |line| + |value| + 2;
    assert Wrap(end) == end && end <= |buffer|;
    assert buffer[end - 2] == rest[0] && buffer[end - 1] == rest[1];
  }
}
