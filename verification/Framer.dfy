/** The incremental request framer: cuts whole requests off the front of a growing input buffer. */
module Framing {
  import opened Wrappers
  import opened Text

  datatype Fault = InvalidArray | InvalidBulk | InvalidLength | InvalidTerminator

  /** The text that takes the place of a malformed request. */
  function FaultReply(fault: Fault): string {
    match fault
    case InvalidArray => "-ERR invalid RESP array\r\n"
    case InvalidBulk => "-ERR invalid RESP bulk string\r\n"
    case InvalidLength => "-ERR invalid bulk length\r\n"
    case InvalidTerminator => "-ERR invalid bulk terminator\r\n"
  }

  /**
   * Complete: the bytes up to `position` are there, and the next thing begins there. Malformed: the first `erase`
   * bytes go.
   */
  datatype Scan = Complete(position: nat) | Incomplete | Malformed(fault: Fault, erase: nat)

  /**
   * One bulk string at `position`. Its end is computed in `size_t`, so a length near 2^64 can put it anywhere in the
   * buffer, even before `position`; an end below 2 means a terminator outside the buffer.
   */
  function ScanBulk(buffer: string, position: nat): (r: Scan)
    ensures r.Complete? ==> 2 <= r.position <= |buffer|
    ensures r.Malformed? ==> position < |buffer| && r.erase <= |buffer|
    ensures r.Malformed? ==> r.fault != InvalidArray
  {
    if position >= |buffer| then Incomplete
    else
      var lineEnd := FindCrlf(buffer, position);
      if buffer[position] != '$' then
        Malformed(InvalidBulk, if lineEnd.None? then |buffer| else lineEnd.value + 2)
      else if lineEnd.None? then Incomplete
      else
        var start := lineEnd.value + 2;
        match SizeBetween(buffer, position + 1, lineEnd.value)
          case None => Malformed(InvalidLength, start)
          case Some(length) =>
            var end := Wrap(start + length + 2);
            if end > |buffer| then Incomplete
            else if end < 2 then Malformed(InvalidTerminator, |buffer|)
            else if !HasCrlf(buffer, end - 2) then Malformed(InvalidTerminator, end - 2)
            else Complete(end)
  }

  function ScanBulks(buffer: string, position: nat, count: nat): (r: Scan)
    requires position <= |buffer|
    ensures r.Complete? ==> r.position <= |buffer| && (r.position > 0 || position == 0)
    ensures r.Malformed? ==> r.erase <= |buffer| && r.fault != InvalidArray
    decreases count
  {
    if count == 0 then Complete(position)
    else
      var first := ScanBulk(buffer, position);
      if first.Complete? then ScanBulks(buffer, first.position, count - 1) else first
  }

  /**
   * What the framer does with the front of a buffer that is not empty: wait for more bytes; take a request of
   * `size` bytes; put an error in the place of a bad array header; or put an error and leave the loop.
   */
  datatype Step = Wait | Take(size: nat) | Replace(size: nat) | Stop(fault: Fault, size: nat)

  function FrameStep(buffer: string): (r: Step)
    requires buffer != ""
    ensures !r.Wait? ==> r.size <= |buffer|
    ensures r.Take? || r.Replace? ==> r.size > 0
  {
    match FindCrlf(buffer, 0)
    case None => Wait
    case Some(end) =>
      if buffer[0] != '*' then Take(end + 2)
      else match SizeBetween(buffer, 1, end)
        case None => Replace(end + 2)
        case Some(count) =>
          match ScanBulks(buffer, end + 2, count)
          case Incomplete => Wait
          case Malformed(fault, erase) => Stop(fault, erase)
          case Complete(position) => Take(position)
  }

  /** What the framer hands on: a whole request, or an error in the place of a malformed one. */
  datatype Cut = Request(text: string) | Faulty(fault: Fault)

  function CutText(cut: Cut): string {
    match cut
    case Request(text) => text
    case Faulty(fault) => FaultReply(fault)
  }

  function Texts(cuts: seq<Cut>): (r: seq<string>)
    ensures |r| == |cuts|
  {
    if cuts == [] then [] else [CutText(cuts[0])] + Texts(cuts[1..])
  }

  lemma TextsOfNone()
    ensures Texts([]) == []
  {
  }

  lemma {:induction false} TextsAppend(a: seq<Cut>, b: seq<Cut>)
    ensures Texts(a + b) == Texts(a) + Texts(b)
  {
    hide CutText;
    if a == [] {
      NothingAdded(b);
      NothingAdded(Texts(b));
    } else {
      TextsAppend(a[1..], b);
      SplitFirst(a, b);
      Associate([CutText(a[0])], Texts(a[1..]), Texts(b));
    }
  }

  /** What was cut off, the bytes left in the buffer, and whether the loop was left on an error. */
  datatype Frames = Frames(cuts: seq<Cut>, rest: string, stopped: bool)

  function Before(cuts: seq<Cut>, f: Frames): Frames {
    Frames(cuts + f.cuts, f.rest, f.stopped)
  }

  function FirstCut(buffer: string, step: Step): Cut
    requires !step.Wait? && step.size <= |buffer|
  {
    match step
    case Take(size) => Request(buffer[..size])
    case Replace(_) => Faulty(InvalidArray)
    case Stop(fault, _) => Faulty(fault)
  }

  function Extract(buffer: string): Frames
    decreases |buffer|
  {
    if buffer == "" || FrameStep(buffer).Wait? then Frames([], buffer, false)
    else
      var step := FrameStep(buffer);
      var cut := FirstCut(buffer, step);
      if step.Stop? then Frames([cut], buffer[step.size..], true)
      else Before([cut], Extract(buffer[step.size..]))
  }

  lemma BeforeBefore(a: seq<Cut>, b: seq<Cut>, f: Frames)
    ensures Before(a, Before(b, f)) == Before(a + b, f)
  {
  }

  /** One turn of the framer's loop. */
  lemma ExtractStep(buffer: string)
    requires buffer != ""
    ensures var step := FrameStep(buffer);
            Extract(buffer) ==
            if step.Wait? then Frames([], buffer, false)
            else if step.Stop? then Frames([FirstCut(buffer, step)], buffer[step.size..], true)
            else Before([FirstCut(buffer, step)], Extract(buffer[step.size..]))
  {
    hide FrameStep, FirstCut;
  }

  /** One turn of the framer's loop, seen from a list of requests already cut off. */
  lemma BeforeStep(cuts: seq<Cut>, buffer: string)
    requires buffer != ""
    ensures var step := FrameStep(buffer);
            Before(cuts, Extract(buffer)) ==
            if step.Wait? then Frames(cuts, buffer, false)
            else if step.Stop? then Frames(cuts + [FirstCut(buffer, step)], buffer[step.size..], true)
            else Before(cuts + [FirstCut(buffer, step)], Extract(buffer[step.size..]))
  {
    var step := FrameStep(buffer);
    if step.Take? || step.Replace? {
      BeforeBefore(cuts, [FirstCut(buffer, step)], Extract(buffer[step.size..]));
    }
  }

  lemma BeforeAll(buffer: string)
    ensures Extract(buffer) == Before([], Extract(buffer))
  {
  }

  lemma BeforeEnd(cuts: seq<Cut>)
    ensures Before(cuts, Extract("")) == Frames(cuts, "", false)
  {
  }

  /** One more cut, and its text at the end of the texts. */
  function Append(cuts: seq<Cut>, cut: Cut): (r: seq<Cut>)
    ensures r == cuts + [cut] && Texts(r) == Texts(cuts) + [CutText(cut)]
  {
    TextsAppend(cuts, [cut]);
    assert Texts([cut]) == [CutText(cut)];
    cuts + [cut]
  }

  /** The framer's loop; `buffer` is the input buffer after the call. */
  method ExtractRequests(input: string) returns (requests: seq<string>, buffer: string)
    requires |input| <= STRING_MAX
    ensures requests == Texts(Extract(input).cuts) && buffer == Extract(input).rest
  {
    hide Texts, FaultReply, Extract, FindCrlf, SizeBetween, ScanBulks;
    requests, buffer := [], input;
    assert Texts([]) == [] by { TextsOfNone(); }
    BeforeAll(input);
    ghost var cuts: seq<Cut> := [];
    while buffer != ""
      invariant requests == Texts(cuts) && |buffer| <= |input|
      invariant Extract(input) == Before(cuts, Extract(buffer))
      decreases |buffer|
    {
      BeforeStep(cuts, buffer);
      var lineEnd := FindCrlf(buffer, 0);
      if buffer[0] != '*' {
        if lineEnd.None? {
          return;
        }
        cuts := Append(cuts, Request(buffer[..lineEnd.value + 2]));
        requests := requests + [buffer[..lineEnd.value + 2]];
        buffer := buffer[lineEnd.value + 2..];
        continue;
      }
      if lineEnd.None? {
        return;
      }
      var ok, argumentCount := ParseDecimal(buffer, 1, lineEnd.value);
      if !ok {
        cuts := Append(cuts, Faulty(InvalidArray));
        requests := requests + [FaultReply(InvalidArray)];
        buffer := buffer[lineEnd.value + 2..];
        continue;
      }
      var scan := ScanArguments(buffer, lineEnd.value + 2, argumentCount);
      match scan {
        case Incomplete =>
          return;
        case Malformed(fault, erase) =>
          cuts := Append(cuts, Faulty(fault));
          requests := requests + [FaultReply(fault)];
          buffer := buffer[erase..];
          return;
        case Complete(position) =>
          cuts := Append(cuts, Request(buffer[..position]));
          requests := requests + [buffer[..position]];
          buffer := buffer[position..];
      }
    }
    BeforeEnd(cuts);
  }

  lemma TerminatorAt(n: nat)
    ensures if Wrap(n + 2) < 2 then Wrap(n) >= SIZE_T - 2 else Wrap(n) == Wrap(n + 2) - 2
  {
  }

  /** The body of the framer's argument loop. */
  method ScanArgument(buffer: string, position: nat) returns (scan: Scan)
    requires position <= |buffer| <= STRING_MAX
    ensures scan == ScanBulk(buffer, position)
  {
    hide FindCrlf, ParseSize, Wrap;
    if position >= |buffer| {
      return Incomplete;
    }
    var lineEnd := FindCrlf(buffer, position);
    if buffer[position] != '$' {
      return Malformed(InvalidBulk, if lineEnd.None? then |buffer| else lineEnd.value + 2);
    }
    if lineEnd.None? {
      return Incomplete;
    }
    var ok, bulkLength := ParseDecimal(buffer, position + 1, lineEnd.value);
    if !ok {
      return Malformed(InvalidLength, lineEnd.value + 2);
    }
    var start := lineEnd.value + 2;
    TerminatorAt(start + bulkLength);
    if Wrap(start + bulkLength + 2) > |buffer| {
      return Incomplete;
    }
    var terminator := Wrap(start + bulkLength);
    if !HasCrlf(buffer, terminator) {
      return Malformed(InvalidTerminator, if terminator > |buffer| then |buffer| else terminator);
    }
    return Complete(Wrap(start + bulkLength + 2));
  }

  /** The framer's argument loop: steps over `count` bulk strings, or says why it cannot. */
  method ScanArguments(buffer: string, start: nat, count: nat) returns (scan: Scan)
    requires start <= |buffer| <= STRING_MAX
    ensures scan == ScanBulks(buffer, start, count)
  {
    hide ScanBulk;
    var position: nat := start;
    var argument: nat := 0;
    while argument < count
      invariant argument <= count && position <= |buffer|
      invariant ScanBulks(buffer, start, count) == ScanBulks(buffer, position, count - argument)
    {
      scan := ScanArgument(buffer, position);
      if !scan.Complete? {
        return;
      }
      position := scan.position;
      argument := argument + 1;
    }
    return Complete(position);
  }
}
