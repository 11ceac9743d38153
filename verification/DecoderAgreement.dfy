/** How the three decoders of requests relate: the framer, the strict parser and the log decoder. */
module DecoderAgreement {
  import opened Wrappers
  import opened Text
  import opened Encoding
  import opened RespParsing
  import opened Framing
  import Log = LogRecords

  // ---------------------------------------------------- framer and parser

  /** The text of the number in the header line at `position`. */
  function HeaderText(data: string, position: nat): string {
    match FindCrlf(data, position)
    case None => ""
    case Some(end) => Between(data, position + 1, end)
  }

  /** The header at `position` denotes, without wrap-around, a number that a `long long` holds. */
  predicate FitsAt(data: string, position: nat) {
    Decimal(HeaderText(data, position)).Some? && Decimal(HeaderText(data, position)).value < LLONG
  }

  /** So do all headers of the bulk strings the framer steps over. */
  predicate LengthsFit(data: string, position: nat, count: nat)
    requires position <= |data| && ScanBulks(data, position, count).Complete?
    decreases count
  {
    count == 0 || (FitsAt(data, position) && LengthsFit(data, ScanBulk(data, position).position, count - 1))
  }

  /** The bytes between the length line and the CRLF that the framer steps over. */
  function SteppedOver(data: string, position: nat): string
    requires ScanBulk(data, position).Complete?
  {
    Between(data, FindCrlf(data, position).value + 2, ScanBulk(data, position).position - 2)
  }

  function Payloads(data: string, position: nat, count: nat): seq<string>
    requires position <= |data| && ScanBulks(data, position, count).Complete?
    decreases count
  {
    if count == 0 then []
    else [SteppedOver(data, position)] + Payloads(data, ScanBulk(data, position).position, count - 1)
  }

  /** The parser's header slice and the framer's are the same text. */
  lemma HeaderSlices(data: string, position: nat, end: nat)
    requires position < end <= |data|
    ensures data[position..end] != "" && data[position..end][0] == data[position]
    ensures data[position..end][1..] == data[position + 1..end] == Between(data, position + 1, end)
  {
  }

  lemma SizeIsDecimal(s: string)
    requires ParseSize(s).Some?
    ensures Decimal(s).Some? && (Decimal(s).value < LLONG ==> ParseSize(s) == Decimal(s))
  {
  }

  /** A line of `text` is a line of every longer buffer; a line of the buffer that ends within `text` is one of it. */
  lemma SameLine(text: string, buffer: string, position: nat)
    requires text <= buffer
    ensures FindCrlf(text, position).Some? ==> FindCrlf(buffer, position) == FindCrlf(text, position)
    ensures FindCrlf(buffer, position).Some? && FindCrlf(buffer, position).value + 2 <= |text| ==>
              FindCrlf(text, position) == FindCrlf(buffer, position)
  {
    FindCrlfIsFirst(text, position);
    FindCrlfIsFirst(buffer, position);
    if FindCrlf(text, position).Some? {
      assert buffer == text + buffer[|text|..];
      FindCrlfStable(text, buffer[|text|..], position);
    } else if FindCrlf(buffer, position).Some? && FindCrlf(buffer, position).value + 2 <= |text| {
      assert HasCrlf(text, FindCrlf(buffer, position).value);
    }
  }

  /** A length that a `long long` holds does not wrap around. */
  lemma FittingLength(buffer: string, position: nat)
    requires |buffer| <= STRING_MAX && ScanBulk(buffer, position).Complete? && FitsAt(buffer, position)
    ensures var start := FindCrlf(buffer, position).value + 2;
            var length := Decimal(HeaderText(buffer, position)).value;
            && SizeBetween(buffer, position + 1, start - 2) == Some(length)
            && ScanBulk(buffer, position).position == start + length + 2
  {
    hide FindCrlf, Decimal, ParseSize;
    SizeIsDecimal(HeaderText(buffer, position));
  }

  /** The parser on the front of a buffer reads the bulk strings the framer read whole there, if their length fits. */
  lemma BulkFramedThenParsed(text: string, buffer: string, position: nat)
    requires text <= buffer && |buffer| <= STRING_MAX && position <= |text| && ScanBulk(buffer, position).Complete?
    ensures var next := ScanBulk(buffer, position).position;
            && (ParseBulk(text, position).Ok? <==> FitsAt(buffer, position) && next <= |text|)
            && (ParseBulk(text, position).Ok? ==>
                  ParseBulk(text, position) == Ok((SteppedOver(buffer, position), next)))
  {
    SameLine(text, buffer, position);
    var end := FindCrlf(buffer, position).value;
    HeaderSlices(buffer, position, end);
    FramerNumbersAgree(buffer[position + 1..end]);
    SizeIsDecimal(buffer[position + 1..end]);
    hide ParseSize, FromChars, FindCrlf, Decimal, Wrap;
    if end + 2 <= |text| {
      assert text[position..end] == buffer[position..end];
    }
    if FitsAt(buffer, position) {
      FittingLength(buffer, position);
      var start, next := end + 2, ScanBulk(buffer, position).position;
      if next <= |text| {
        assert text[start..next - 2] == buffer[start..next - 2];
      }
    }
  }

  lemma {:induction false} FittingGrows(buffer: string, position: nat, count: nat)
    requires position <= |buffer| <= STRING_MAX && ScanBulks(buffer, position, count).Complete?
    requires LengthsFit(buffer, position, count)
    ensures position <= ScanBulks(buffer, position, count).position
    decreases count
  {
    if count > 0 {
      FittingLength(buffer, position);
      hide ScanBulk, FitsAt, FindCrlf;
      FittingGrows(buffer, ScanBulk(buffer, position).position, count - 1);
    }
  }

  lemma {:induction false} BulksFramedThenParsed(text: string, buffer: string, position: nat, count: nat,
                                                 parts: seq<string>)
    requires text <= buffer && |buffer| <= STRING_MAX && position <= |text|
    requires ScanBulks(buffer, position, count).Complete?
    ensures var parsed := ParseBulks(text, position, count, parts);
            var end := ScanBulks(buffer, position, count).position;
            && (parsed.Ok? <==> LengthsFit(buffer, position, count) && end <= |text|)
            && (parsed.Ok? ==> parsed == Ok((parts + Payloads(buffer, position, count), end)))
    decreases count
  {
    hide ParseBulk, ScanBulk, FitsAt, SteppedOver;
    if count > 0 {
      BulkFramedThenParsed(text, buffer, position);
      ParseBulksStep(text, position, count, parts);
      var payload, next := SteppedOver(buffer, position), ScanBulk(buffer, position).position;
      if LengthsFit(buffer, position, count) {
        FittingGrows(buffer, next, count - 1);
      }
      if FitsAt(buffer, position) && next <= |text| {
        BulksFramedThenParsed(text, buffer, next, count - 1, parts + [payload]);
        Associate(parts, [payload], Payloads(buffer, next, count - 1));
      }
    } else {
      assert parts + [] == parts;
    }
  }

  /** The number of arguments announced by the array at the front of a buffer, as `size_t`. */
  function Announced(buffer: string): nat
    requires buffer != "" && buffer[0] == '*' && FrameStep(buffer).Take?
  {
    SizeBetween(buffer, 1, FindCrlf(buffer, 0).value).value
  }

  /** The array at the front has one to 1024 arguments, and no number in it exceeds a `long long`. */
  predicate InBounds(buffer: string)
    requires buffer != "" && buffer[0] == '*' && FrameStep(buffer).Take?
  {
    FitsAt(buffer, 0) && 1 <= Announced(buffer) <= MAX_ARGUMENTS
    && LengthsFit(buffer, FindCrlf(buffer, 0).value + 2, Announced(buffer))
  }

  lemma HeaderFramedThenParsed(text: string, buffer: string)
    requires text != "" && text <= buffer && |buffer| <= STRING_MAX && buffer[0] == '*' && FrameStep(buffer).Take?
    ensures var start, count := FindCrlf(buffer, 0).value + 2, Announced(buffer);
            && (ParseHeader(text).Ok? <==> FitsAt(buffer, 0) && 1 <= count <= MAX_ARGUMENTS && start <= |text|)
            && (ParseHeader(text).Ok? ==> ParseHeader(text) == Ok((count, start)))
  {
    SameLine(text, buffer, 0);
    var end := FindCrlf(buffer, 0).value;
    HeaderSlices(buffer, 0, end);
    FramerNumbersAgree(buffer[1..end]);
    SizeIsDecimal(buffer[1..end]);
    hide ParseSize, FromChars, FindCrlf, Decimal, ScanBulks;
    if end + 2 <= |text| {
      assert text[..end] == buffer[..end] == buffer[0..end];
    }
  }

  /**
   * The array that the framer takes off the front of a buffer, whatever follows it, is accepted by the parser exactly
   * when it is in bounds; the arguments are then the payloads the framer stepped over.
   */
  lemma FramedRequestIsParsed(buffer: string)
    requires buffer != "" && |buffer| <= STRING_MAX && buffer[0] == '*' && FrameStep(buffer).Take?
    ensures var parsed := ParseRequest(buffer[..FrameStep(buffer).size]);
            && (parsed.Ok? <==> InBounds(buffer))
            && (parsed.Ok? ==>
                  parsed == Ok(Payloads(buffer, FindCrlf(buffer, 0).value + 2, Announced(buffer))))
  {
    var text := buffer[..FrameStep(buffer).size];
    HeaderFramedThenParsed(text, buffer);
    var start, count := FindCrlf(buffer, 0).value + 2, Announced(buffer);
    ArrayIsScanned(buffer);
    hide Announced, FrameStep, FitsAt, FindCrlf, ScanBulks, ParseHeader, ParseBulks, LengthsFit, Payloads;
    if InBounds(buffer) {
      FittingGrows(buffer, start, count);
    }
    if start <= |text| {
      BulksFramedThenParsed(text, buffer, start, count, []);
      assert [] + Payloads(buffer, start, count) == Payloads(buffer, start, count);
    }
  }

  lemma ArrayIsScanned(buffer: string)
    requires buffer != "" && buffer[0] == '*' && FrameStep(buffer).Take?
    ensures var start := FindCrlf(buffer, 0).value + 2;
            start <= |buffer| && ScanBulks(buffer, start, Announced(buffer)) == Complete(FrameStep(buffer).size)
  {
    hide FindCrlf, ScanBulks, ParseSize;
  }

  /** What the framer still has in its buffer when it makes cut number `k`. */
  function TailAt(buffer: string, k: nat): string
    requires k < |Extract(buffer).cuts|
    decreases k
  {
    if k == 0 then buffer else TailAt(buffer[FrameStep(buffer).size..], k - 1)
  }

  lemma {:induction false} CutIsTaken(buffer: string, k: nat)
    requires k < |Extract(buffer).cuts| && Extract(buffer).cuts[k].Request?
    ensures var tail, text := TailAt(buffer, k), Extract(buffer).cuts[k].text;
            tail != "" && |tail| <= |buffer| && FrameStep(tail) == Take(|text|) && text == tail[..|text|]
    decreases k
  {
    hide FrameStep;
    if k > 0 {
      CutIsTaken(buffer[FrameStep(buffer).size..], k - 1);
    }
  }

  /**
   * Every request cut from any buffer, at whatever place: one that begins with an asterisk is accepted by the parser,
   * with the payloads the framer stepped over, exactly when it is in bounds; no other is accepted.
   */
  lemma EveryCutIsParsed(buffer: string, k: nat)
    requires |buffer| <= STRING_MAX && k < |Extract(buffer).cuts| && Extract(buffer).cuts[k].Request?
    ensures var tail, text := TailAt(buffer, k), Extract(buffer).cuts[k].text;
            && tail != "" && FrameStep(tail) == Take(|text|) && text == tail[..|text|]
            && (text[0] != '*' ==> ParseRequest(text) == Err(NotAnArray))
            && (text[0] == '*' ==>
                  && (ParseRequest(text).Ok? <==> InBounds(tail))
                  && (ParseRequest(text).Ok? ==>
                        ParseRequest(text) == Ok(Payloads(tail, FindCrlf(tail, 0).value + 2, Announced(tail)))))
  {
    CutIsTaken(buffer, k);
    var tail := TailAt(buffer, k);
    hide Extract, FrameStep, InBounds, Payloads, ParseArray, FindCrlf, TailAt;
    if tail[0] == '*' {
      FramedRequestIsParsed(tail);
    }
  }

  /** The length headers of `count` parsed bulk strings hold no minus sign (the parser reads "-0" as zero). */
  predicate MinusFree(data: string, position: nat, count: nat)
    requires position <= |data|
    decreases count
  {
    count == 0
    || match ParseBulk(data, position)
       case Err(_) => true
       case Ok((_, next)) => !Signed(HeaderText(data, position)) && MinusFree(data, next, count - 1)
  }

  predicate Signed(text: string) { text != "" && text[0] == '-' }

  lemma BulkParsedThenFramed(data: string, position: nat)
    requires position <= |data| <= STRING_MAX && ParseBulk(data, position).Ok?
    ensures ScanBulk(data, position) ==
            if Signed(HeaderText(data, position)) then
              Malformed(InvalidLength, FindCrlf(data, position).value + 2)
            else Complete(ParseBulk(data, position).value.1)
  {
    hide ParseSize, FromChars, FindCrlf;
    var end := FindCrlf(data, position).value;
    HeaderSlices(data, position, end);
    FramerNumbersAgree(data[position + 1..end]);
  }

  lemma {:induction false} BulksParsedThenFramed(data: string, position: nat, count: nat, parts: seq<string>)
    requires position <= |data| <= STRING_MAX && ParseBulks(data, position, count, parts).Ok?
    ensures var scan := ScanBulks(data, position, count);
            if MinusFree(data, position, count) then scan == Complete(ParseBulks(data, position, count, parts).value.1)
            else scan.Malformed? && scan.fault == InvalidLength
    decreases count
  {
    hide ParseBulk, ScanBulk, Signed, HeaderText;
    if count > 0 {
      BulkParsedThenFramed(data, position);
      ParseBulksStep(data, position, count, parts);
      var (part, next) := ParseBulk(data, position).value;
      BulksParsedThenFramed(data, next, count - 1, parts + [part]);
    }
  }

  /** A request the parser accepts is framed as that one request, nothing left, exactly when no length is signed. */
  lemma ParsedRequestIsFramed(data: string)
    requires |data| <= STRING_MAX && ParseRequest(data).Ok?
    ensures Extract(data) == Frames([Request(data)], "", false)
       <==> MinusFree(data, ParseHeader(data).value.1, ParseHeader(data).value.0)
  {
    hide ParseSize, FromChars, FindCrlf, ScanBulks, ParseBulks, MinusFree;
    var end := FindCrlf(data, 0).value;
    var (count, start) := ParseHeader(data).value;
    HeaderSlices(data, 0, end);
    FramerNumbersAgree(data[1..end]);
    BulksParsedThenFramed(data, start, count, []);
    assert data[..|data|] == data && data[|data|..] == "";
    assert Extract("") == Frames([], "", false);
    assert [Request(data)] + [] == [Request(data)];
  }

  // ------------------------------------------------ parser and log decoder

  lemma BulkParsedThenLogged(data: string, position: nat)
    requires position <= |data| && ParseBulk(data, position).Ok?
    ensures Log.ParseArgument(data, position) ==
            if |ParseBulk(data, position).value.0| <= Log.MAX_RECOVERY_RECORD_SIZE then
              Ok(ParseBulk(data, position).value)
            else Err(Log.InvalidBulkLength)
  {
    hide FromChars, FindCrlf, Stoll;
    var end := FindCrlf(data, position).value;
    HeaderSlices(data, position, end);
    StollExtendsFromChars(data[position + 1..end]);
  }

  predicate AllWithin(values: seq<string>, limit: nat) {
    forall i :: 0 <= i < |values| ==> |values[i]| <= limit
  }

  lemma {:induction false} BulksParsedThenLogged(data: string, position: nat, count: nat, parts: seq<string>)
    requires position <= |data| && ParseBulks(data, position, count, parts).Ok?
    requires AllWithin(parts, Log.MAX_RECOVERY_RECORD_SIZE)
    ensures var logged := Log.ParseArguments(data, position, count, parts);
            var (values, next) := ParseBulks(data, position, count, parts).value;
            if AllWithin(values, Log.MAX_RECOVERY_RECORD_SIZE) then logged == Ok((values, next))
            else logged == Err(Log.InvalidBulkLength)
    decreases count
  {
    hide ParseBulk, Log.ParseArgument;
    if count > 0 {
      BulkParsedThenLogged(data, position);
      ParseBulksStep(data, position, count, parts);
      Log.ParseArgumentsStep(data, position, count, parts);
      var (part, next) := ParseBulk(data, position).value;
      if |part| <= Log.MAX_RECOVERY_RECORD_SIZE {
        BulksParsedThenLogged(data, next, count - 1, parts + [part]);
      } else {
        PartsAreKept(data, next, count - 1, parts + [part]);
        var values := ParseBulks(data, position, count, parts).value.0;
        assert values[|parts|] == part;
      }
    }
  }

  lemma {:induction false} PartsAreKept(data: string, position: nat, count: nat, parts: seq<string>)
    requires position <= |data| && ParseBulks(data, position, count, parts).Ok?
    ensures parts <= ParseBulks(data, position, count, parts).value.0
    decreases count
  {
    hide ParseBulk;
    if count > 0 {
      ParseBulksStep(data, position, count, parts);
      var (part, next) := ParseBulk(data, position).value;
      PartsAreKept(data, next, count - 1, parts + [part]);
    }
  }

  /**
   * The log decoder reads a request that the server accepted as the same arguments, exactly when none of them is
   * longer than a log record may be.
   */
  lemma ParsedRequestIsLogged(data: string)
    requires ParseRequest(data).Ok?
    ensures Log.ParseLogRecord(data) ==
            if AllWithin(ParseRequest(data).value, Log.MAX_RECOVERY_RECORD_SIZE) then Ok(ParseRequest(data).value)
            else Err(Log.InvalidBulkLength)
  {
    hide FromChars, FindCrlf, Stoll, ParseBulks, Log.ParseArguments, AllWithin;
    var end := FindCrlf(data, 0).value;
    var (count, start) := ParseHeader(data).value;
    HeaderSlices(data, 0, end);
    StollExtendsFromChars(data[1..end]);
    assert AllWithin([], Log.MAX_RECOVERY_RECORD_SIZE) by { NothingIsWithin(Log.MAX_RECOVERY_RECORD_SIZE); }
    BulksParsedThenLogged(data, start, count, []);
  }

  lemma NothingIsWithin(limit: nat)
    ensures AllWithin([], limit)
  {
  }
}
