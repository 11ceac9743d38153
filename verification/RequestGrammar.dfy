/** Which texts the two decoders of requests accept: the grammar of an array of bulk strings, written out. */
module RequestGrammar {
  import opened Wrappers
  import opened Text
  import opened Encoding
  import opened RespParsing
  import Log = LogRecords

  /** The strict decoder reads its numbers with `from_chars`, the loose one with `stoll`. */
  datatype Reader = Strict | Loose

  function Reads(reader: Reader, text: string): Option<int> {
    if reader.Strict? then FromChars(text) else Stoll(text)
  }

  /** The text of a header that announces `n`. */
  predicate Announces(reader: Reader, header: string, n: nat) {
    FindCrlf(header, 0).None? && Reads(reader, header) == Some(n)
  }

  function Line(mark: char, header: string): string { [mark] + header + CRLF }

  function BulkText(header: string, value: string): string { Line('$', header) + (value + CRLF) }

  function BulkTexts(headers: seq<string>, values: seq<string>): string
    requires |headers| == |values|
  {
    if values == [] then "" else BulkText(headers[0], values[0]) + BulkTexts(headers[1..], values[1..])
  }

  /** The text is an array of these values, each header announcing what follows it. */
  predicate IsArrayOf(reader: Reader, data: string, values: seq<string>, header: string, headers: seq<string>) {
    && |headers| == |values| && Announces(reader, header, |values|)
    && (forall i :: 0 <= i < |values| ==> Announces(reader, headers[i], |values[i]|))
    && data == Line('*', header) + BulkTexts(headers, values)
  }

  // ------------------------------------------------------------------- lines

  lemma NoEndAt(text: string, k: nat)
    requires FindCrlf(text, 0).None?
    ensures !HasCrlf(text, k)
  {
    FindCrlfIsFirst(text, 0);
  }

  lemma NoEndInside(data: string, position: nat, header: string, j: nat)
    requires At(data, position + 1, header) && FindCrlf(header, 0).None? && position <= j < position + 1 + |header|
    requires data[position] != '\r' && HasCrlf(data, position + 1 + |header|)
    ensures !HasCrlf(data, j)
  {
    hide FindCrlf, At;
    if position < j {
      var k := j - position - 1;
      NoEndAt(header, k);
      AtIndex(data, position + 1, header, k);
      if k + 1 < |header| {
        AtIndex(data, position + 1, header, k + 1);
      }
    }
  }

  lemma LineIsFound(data: string, position: nat, mark: char, header: string)
    requires At(data, position, Line(mark, header)) && mark != '\r' && FindCrlf(header, 0).None?
    ensures var end := position + 1 + |header|;
            FindCrlf(data, position) == Some(end) && data[position] == mark
            && data[position + 1..end] == Between(data, position + 1, end) == header
  {
    hide FindCrlf, HasCrlf;
    HeaderParts(data, position, mark, header);
    EndIsFound(data, position, header);
  }

  lemma EndIsFound(data: string, position: nat, header: string)
    requires At(data, position + 1, header) && FindCrlf(header, 0).None?
    requires HasCrlf(data, position + 1 + |header|)
    requires data[position] != '\r'
    ensures FindCrlf(data, position) == Some(position + 1 + |header|)
  {
    hide FindCrlf, At;
    var end := position + 1 + |header|;
    forall j | position <= j < end ensures !HasCrlf(data, j) {
      NoEndInside(data, position, header, j);
    }
    FindCrlfAt(data, position, end);
  }

  lemma NoneInHeader(data: string, position: nat, end: nat)
    requires FindCrlf(data, position) == Some(end) && position < end
    ensures FindCrlf(data[position + 1..end], 0).None? && HasCrlf(data, end)
  {
    FindCrlfIsFirst(data, position);
    var header := data[position + 1..end];
    FindCrlfIsFirst(header, 0);
    if FindCrlf(header, 0).Some? {
      var k := FindCrlf(header, 0).value;
      assert HasCrlf(data, position + 1 + k) by {
        assert header[k] == data[position + 1 + k] && header[k + 1] == data[position + 1 + k + 1];
      }
    }
  }

  lemma LineLaid(data: string, position: nat, end: nat)
    requires position < end && HasCrlf(data, end)
    ensures At(data, position, Line(data[position], data[position + 1..end]))
  {
    var line := data[position..end + 2];
    assert line == [data[position]] + data[position + 1..end] + [data[end], data[end + 1]];
  }

  lemma FoundIsALine(data: string, position: nat, mark: char)
    requires FindCrlf(data, position).Some? && data[position] == mark && mark != '\r'
    ensures var end := FindCrlf(data, position).value;
            position < end && At(data, position, Line(mark, data[position + 1..end]))
            && FindCrlf(data[position + 1..end], 0).None?
            && Between(data, position + 1, end) == data[position + 1..end]
  {
    FindCrlfIsFirst(data, position);
    var end := FindCrlf(data, position).value;
    NoneInHeader(data, position, end);
    LineLaid(data, position, end);
  }

  lemma AtBoth(data: string, position: nat, a: string, b: string)
    ensures At(data, position, a + b) <==> At(data, position, a) && At(data, position + |a|, b)
  {
    if At(data, position, a + b) {
      AtSplit(data, position, a, b);
    }
    if At(data, position, a) && At(data, position + |a|, b) {
      assert data[position..position + |a| + |b|] == a + b;
    }
  }

  lemma PayloadIsThere(data: string, position: nat, value: string)
    ensures At(data, position, value + CRLF) <==>
              position + |value| + 2 <= |data| && data[position..position + |value|] == value
              && HasCrlf(data, position + |value|)
  {
    AtBoth(data, position, value, CRLF);
    var end := position + |value|;
    assert end + 2 <= |data| ==> (HasCrlf(data, end) <==> data[end..end + 2] == CRLF);
  }

  // ------------------------------------------------------------- bulk strings

  /** Where the parts of a bulk string lie. */
  lemma BulkParts(data: string, position: nat, header: string, value: string)
    requires At(data, position, BulkText(header, value)) && FindCrlf(header, 0).None?
    ensures var end := position + 1 + |header|;
            var next := position + |BulkText(header, value)|;
            && next == end + 2 + |value| + 2 <= |data| && data[position] == '$'
            && FindCrlf(data, position) == Some(end)
            && Between(data, position + 1, end) == data[position..end][1..] == header
            && data[end + 2..end + 2 + |value|] == value && HasCrlf(data, end + 2 + |value|)
  {
    hide FindCrlf, At, HasCrlf, Between;
    assert |Line('$', header)| == |header| + 3 && |BulkText(header, value)| == |header| + 3 + |value| + 2;
    AtBoth(data, position, Line('$', header), value + CRLF);
    hide Line;
    LineIsFound(data, position, '$', header);
    PayloadIsThere(data, position + 1 + |header| + 2, value);
    TailOfSlice(data, position, position + 1 + |header|);
  }

  lemma TailOfSlice(data: string, start: nat, end: nat)
    requires start < end <= |data|
    ensures data[start..end][1..] == data[start + 1..end]
  {
  }

  lemma BulkIsParsed(data: string, position: nat, header: string, value: string)
    requires At(data, position, BulkText(header, value)) && Announces(Strict, header, |value|)
    ensures position <= |data| && ParseBulk(data, position) == Ok((value, position + |BulkText(header, value)|))
  {
    BulkParts(data, position, header, value);
    hide FindCrlf, FromChars, At, BulkText, HasCrlf, Between;
  }

  lemma ParsedIsABulk(data: string, position: nat) returns (header: string)
    requires position <= |data| && ParseBulk(data, position).Ok?
    ensures var (value, next) := ParseBulk(data, position).value;
            At(data, position, BulkText(header, value)) && Announces(Strict, header, |value|)
            && next == position + |BulkText(header, value)|
  {
    var end := FindCrlf(data, position).value;
    assert data[position..end][0] == data[position];
    FoundIsALine(data, position, '$');
    header := data[position + 1..end];
    assert data[position..end][1..] == header;
    var (value, next) := ParseBulk(data, position).value;
    PayloadIsThere(data, end + 2, value);
    AtBoth(data, position, Line('$', header), value + CRLF);
    hide FindCrlf, FromChars;
  }

  lemma BulkIsRead(data: string, position: nat, header: string, value: string)
    requires At(data, position, BulkText(header, value)) && Announces(Loose, header, |value|)
    ensures Log.ParseArgument(data, position) ==
            if |value| > Log.MAX_RECOVERY_RECORD_SIZE then Err(Log.InvalidBulkLength)
            else Ok((value, position + |BulkText(header, value)|))
  {
    BulkParts(data, position, header, value);
    hide FindCrlf, Stoll, At, BulkText, HasCrlf, Between;
  }

  lemma ReadIsABulk(data: string, position: nat) returns (header: string)
    requires Log.ParseArgument(data, position).Ok?
    ensures var (value, next) := Log.ParseArgument(data, position).value;
            At(data, position, BulkText(header, value)) && Announces(Loose, header, |value|)
            && next == position + |BulkText(header, value)| && |value| <= Log.MAX_RECOVERY_RECORD_SIZE
  {
    var end := FindCrlf(data, position).value;
    FoundIsALine(data, position, '$');
    header := data[position + 1..end];
    var (value, next) := Log.ParseArgument(data, position).value;
    PayloadIsThere(data, end + 2, value);
    AtBoth(data, position, Line('$', header), value + CRLF);
    hide FindCrlf, Stoll;
  }

  lemma {:induction false} BulksAreParsed(data: string, position: nat, headers: seq<string>, values: seq<string>,
                                          parts: seq<string>)
    requires |headers| == |values| && At(data, position, BulkTexts(headers, values))
    requires forall i :: 0 <= i < |values| ==> Announces(Strict, headers[i], |values[i]|)
    ensures ParseBulks(data, position, |values|, parts)
         == Ok((parts + values, position + |BulkTexts(headers, values)|))
    decreases |values|
  {
    hide ParseBulk, BulkText, Announces, ParseBulks;
    if values == [] {
      NothingAdded(parts);
      ParseBulksEnd(data, position, parts);
    } else {
      AtBoth(data, position, BulkText(headers[0], values[0]), BulkTexts(headers[1..], values[1..]));
      BulkIsParsed(data, position, headers[0], values[0]);
      ParseBulksStep(data, position, |values|, parts);
      var next := position + |BulkText(headers[0], values[0])|;
      BulksAreParsed(data, next, headers[1..], values[1..], parts + [values[0]]);
      Associate(parts, [values[0]], values[1..]);
      assert [values[0]] + values[1..] == values;
    }
  }

  lemma {:induction false} ParsedAreBulks(data: string, position: nat, count: nat, parts: seq<string>)
    returns (headers: seq<string>, values: seq<string>)
    requires position <= |data| && ParseBulks(data, position, count, parts).Ok?
    ensures |headers| == |values| == count && At(data, position, BulkTexts(headers, values))
    ensures forall i :: 0 <= i < |values| ==> Announces(Strict, headers[i], |values[i]|)
    ensures ParseBulks(data, position, count, parts) == Ok((parts + values, position + |BulkTexts(headers, values)|))
    decreases count
  {
    hide ParseBulk, BulkText, Announces;
    if count == 0 {
      NothingAdded(parts);
      return [], [];
    }
    ParseBulksStep(data, position, count, parts);
    var (value, next) := ParseBulk(data, position).value;
    var header := ParsedIsABulk(data, position);
    var moreHeaders, more := ParsedAreBulks(data, next, count - 1, parts + [value]);
    headers, values := [header] + moreHeaders, [value] + more;
    assert headers[1..] == moreHeaders && values[1..] == more;
    AtBoth(data, position, BulkText(header, value), BulkTexts(moreHeaders, more));
    Associate(parts, [value], more);
  }

  lemma {:induction false} BulksAreRead(data: string, position: nat, headers: seq<string>, values: seq<string>,
                                        arguments: seq<string>)
    requires |headers| == |values| && At(data, position, BulkTexts(headers, values))
    requires forall i :: 0 <= i < |values| ==> Announces(Loose, headers[i], |values[i]|)
    requires forall i :: 0 <= i < |values| ==> |values[i]| <= Log.MAX_RECOVERY_RECORD_SIZE
    ensures Log.ParseArguments(data, position, |values|, arguments)
         == Ok((arguments + values, position + |BulkTexts(headers, values)|))
    decreases |values|
  {
    hide Log.ParseArgument, BulkText, Announces;
    if values == [] {
      NothingAdded(arguments);
    } else {
      AtBoth(data, position, BulkText(headers[0], values[0]), BulkTexts(headers[1..], values[1..]));
      BulkIsRead(data, position, headers[0], values[0]);
      Log.ParseArgumentsStep(data, position, |values|, arguments);
      hide Log.ParseArguments;
      var next := position + |BulkText(headers[0], values[0])|;
      BulksAreRead(data, next, headers[1..], values[1..], arguments + [values[0]]);
      Associate(arguments, [values[0]], values[1..]);
      assert [values[0]] + values[1..] == values;
    }
  }

  lemma {:induction false} ReadAreBulks(data: string, position: nat, count: nat, arguments: seq<string>)
    returns (headers: seq<string>, values: seq<string>)
    requires position <= |data| && Log.ParseArguments(data, position, count, arguments).Ok?
    ensures |headers| == |values| == count && At(data, position, BulkTexts(headers, values))
    ensures forall i :: 0 <= i < |values| ==> Announces(Loose, headers[i], |values[i]|)
    ensures forall i :: 0 <= i < |values| ==> |values[i]| <= Log.MAX_RECOVERY_RECORD_SIZE
    ensures Log.ParseArguments(data, position, count, arguments)
         == Ok((arguments + values, position + |BulkTexts(headers, values)|))
    decreases count
  {
    hide Log.ParseArgument, BulkText, Announces;
    if count == 0 {
      NothingAdded(arguments);
      return [], [];
    }
    Log.ParseArgumentsStep(data, position, count, arguments);
    var (value, next) := Log.ParseArgument(data, position).value;
    var header := ReadIsABulk(data, position);
    var moreHeaders, more := ReadAreBulks(data, next, count - 1, arguments + [value]);
    headers, values := [header] + moreHeaders, [value] + more;
    assert headers[1..] == moreHeaders && values[1..] == more;
    AtBoth(data, position, BulkText(header, value), BulkTexts(moreHeaders, more));
    Associate(arguments, [value], more);
  }

  // ---------------------------------------------------------------- theorems

  lemma HeaderIsParsed(data: string, header: string, count: nat)
    requires At(data, 0, Line('*', header)) && Announces(Strict, header, count)
    requires 1 <= count <= RespParsing.MAX_ARGUMENTS
    ensures ParseHeader(data) == Ok((count, |header| + 3)) && data[0] == '*'
  {
    LineIsFound(data, 0, '*', header);
    hide FindCrlf, FromChars;
    assert data[..1 + |header|][1..] == header;
  }

  lemma HeaderIsRead(data: string, header: string, count: nat)
    requires At(data, 0, Line('*', header)) && Announces(Loose, header, count) && count <= Log.MAX_ARGUMENTS
    ensures Log.ParseCount(data) == Ok((count, |header| + 3))
  {
    LineIsFound(data, 0, '*', header);
    hide FindCrlf, Stoll;
  }

  lemma ArrayIsParsed(data: string, values: seq<string>, header: string, headers: seq<string>)
    requires IsArrayOf(Strict, data, values, header, headers) && 1 <= |values| <= RespParsing.MAX_ARGUMENTS
    ensures ParseRequest(data) == Ok(values)
  {
    hide ParseHeader, Announces, ParseBulks, BulkTexts;
    assert At(data, 0, data);
    AtBoth(data, 0, Line('*', header), BulkTexts(headers, values));
    HeaderIsParsed(data, header, |values|);
    BulksAreParsed(data, |header| + 3, headers, values, []);
    NothingAdded(values);
  }

  lemma ParsedIsAnArray(data: string) returns (header: string, headers: seq<string>)
    requires ParseRequest(data).Ok?
    ensures IsArrayOf(Strict, data, ParseRequest(data).value, header, headers)
  {
    hide FromChars, ParseBulks, BulkTexts, FindCrlf;
    var end := FindCrlf(data, 0).value;
    FoundIsALine(data, 0, '*');
    header := data[1..end];
    assert data[..end][1..] == header;
    var (count, start) := ParseHeader(data).value;
    var values;
    headers, values := ParsedAreBulks(data, start, count, []);
    NothingAdded(values);
    AtBoth(data, 0, Line('*', header), BulkTexts(headers, values));
    assert data[0..|data|] == data;
  }

  /** The strict parser accepts exactly the arrays of 1 to 1024 bulk strings, and gives back their payloads. */
  lemma StrictlyAccepted(data: string, values: seq<string>)
    ensures ParseRequest(data) == Ok(values) <==>
              1 <= |values| <= RespParsing.MAX_ARGUMENTS
              && exists header, headers :: IsArrayOf(Strict, data, values, header, headers)
  {
    if ParseRequest(data) == Ok(values) {
      var header, headers := ParsedIsAnArray(data);
      CountIsInRange(data);
    }
    hide IsArrayOf, ParseRequest;
    if 1 <= |values| <= RespParsing.MAX_ARGUMENTS
      && exists header, headers :: IsArrayOf(Strict, data, values, header, headers)
    {
      var header, headers :| IsArrayOf(Strict, data, values, header, headers);
      ArrayIsParsed(data, values, header, headers);
    }
  }

  lemma CountIsInRange(data: string)
    requires ParseRequest(data).Ok?
    ensures 1 <= |ParseRequest(data).value| <= RespParsing.MAX_ARGUMENTS
  {
    hide FindCrlf, FromChars, ParseBulks;
  }

  lemma ArrayIsRead(data: string, values: seq<string>, header: string, headers: seq<string>)
    requires IsArrayOf(Loose, data, values, header, headers) && |values| <= Log.MAX_ARGUMENTS
    requires forall i :: 0 <= i < |values| ==> |values[i]| <= Log.MAX_RECOVERY_RECORD_SIZE
    ensures Log.ParseLogRecord(data) == Ok(values)
  {
    hide Log.ParseCount, Announces, Log.ParseArguments, BulkTexts;
    assert At(data, 0, data);
    AtBoth(data, 0, Line('*', header), BulkTexts(headers, values));
    HeaderIsRead(data, header, |values|);
    BulksAreRead(data, |header| + 3, headers, values, []);
    NothingAdded(values);
  }

  lemma ReadIsAnArray(data: string) returns (header: string, headers: seq<string>)
    requires Log.ParseLogRecord(data).Ok?
    ensures var values := Log.ParseLogRecord(data).value;
            IsArrayOf(Loose, data, values, header, headers) && |values| <= Log.MAX_ARGUMENTS
            && forall i :: 0 <= i < |values| ==> |values[i]| <= Log.MAX_RECOVERY_RECORD_SIZE
  {
    hide Stoll, Log.ParseArguments, BulkTexts, FindCrlf;
    var end := FindCrlf(data, 0).value;
    FoundIsALine(data, 0, '*');
    header := data[1..end];
    var (count, start) := Log.ParseCount(data).value;
    var values;
    headers, values := ReadAreBulks(data, start, count, []);
    NothingAdded(values);
    AtBoth(data, 0, Line('*', header), BulkTexts(headers, values));
    assert data[0..|data|] == data;
  }

  /** The log decoder accepts exactly the arrays, in its loose numbers, of up to 1024 strings of up to 512 KiB. */
  lemma LooselyAccepted(data: string, values: seq<string>)
    ensures Log.ParseLogRecord(data) == Ok(values) <==>
              |values| <= Log.MAX_ARGUMENTS
              && (forall i :: 0 <= i < |values| ==> |values[i]| <= Log.MAX_RECOVERY_RECORD_SIZE)
              && exists header, headers :: IsArrayOf(Loose, data, values, header, headers)
  {
    if Log.ParseLogRecord(data) == Ok(values) {
      var header, headers := ReadIsAnArray(data);
    }
    hide IsArrayOf, Log.ParseLogRecord;
    if |values| <= Log.MAX_ARGUMENTS
      && (forall i :: 0 <= i < |values| ==> |values[i]| <= Log.MAX_RECOVERY_RECORD_SIZE)
      && exists header, headers :: IsArrayOf(Loose, data, values, header, headers)
    {
      var header, headers :| IsArrayOf(Loose, data, values, header, headers);
      ArrayIsRead(data, values, header, headers);
    }
  }

  /** An array with anything behind it is refused by both decoders for that reason. */
  lemma BytesBehindAreRefused(reader: Reader, data: string, values: seq<string>, header: string, headers: seq<string>,
                              extra: string)
    requires IsArrayOf(reader, data, values, header, headers) && 1 <= |values| <= RespParsing.MAX_ARGUMENTS
    requires (forall i :: 0 <= i < |values| ==> |values[i]| <= Log.MAX_RECOVERY_RECORD_SIZE) && extra != ""
    ensures reader.Strict? ==> ParseRequest(data + extra) == Err(ExtraData)
    ensures reader.Loose? ==> Log.ParseLogRecord(data + extra) == Err(Log.TrailingBytes)
  {
    hide ParseHeader, Log.ParseCount, Announces, ParseBulks, Log.ParseArguments, BulkTexts;
    var whole := data + extra;
    assert whole[0..0 + |data|] == data;
    AtBoth(whole, 0, Line('*', header), BulkTexts(headers, values));
    NothingAdded(values);
    if reader.Strict? {
      HeaderIsParsed(whole, header, |values|);
      BulksAreParsed(whole, |header| + 3, headers, values, []);
    } else {
      HeaderIsRead(whole, header, |values|);
      BulksAreRead(whole, |header| + 3, headers, values, []);
    }
  }
}
