/** The server's strict request parser: exactly one array of bulk strings. */
module RespParsing {
  import opened Wrappers
  import opened Text
  import opened Encoding

  const MAX_ARGUMENTS := 1024

  datatype ParseError =
    | IncompleteLine
    | ExpectedBulk
    | InvalidBulkLength
    | NullBulk
    | IncompleteBulk
    | MissingCrlf
    | ExpectedArray
    | InvalidArrayLength
    | EmptyCommand
    | CommandTooLarge
    | EmptyRequest
    | NotAnArray
    | ExtraData

  /** The message the parser reports for each kind of error. */
  function Describe(error: ParseError): string {
    match error
    case IncompleteLine => "Incomplete RESP line"
    case ExpectedBulk => "Expected bulk string"
    case InvalidBulkLength => "Invalid bulk string length"
    case NullBulk => "Null bulk strings are not supported"
    case IncompleteBulk => "Incomplete bulk string"
    case MissingCrlf => "Bulk string missing CRLF"
    case ExpectedArray => "Expected array"
    case InvalidArrayLength => "Invalid array length"
    case EmptyCommand => "Empty command"
    case CommandTooLarge => "Command too large"
    case EmptyRequest => "Empty request"
    case NotAnArray => "Only RESP arrays are supported"
    case ExtraData => "Extra data after RESP command"
  }

  lemma SomeMessage(error: ParseError)
    ensures Describe(error) != ""
  {
  }

  /** The number in a header line that must begin with `mark`. */
  function ReadNumber(line: string, mark: char, expected: ParseError, invalid: ParseError): (r: Result<int, ParseError>)
    ensures r.Ok? ==> line != "" && line[0] == mark && FromChars(line[1..]) == Some(r.value)
  {
    if line == "" || line[0] != mark then Err(expected)
    else match FromChars(line[1..])
      case None => Err(invalid)
      case Some(n) => Ok(n)
  }

  /** One bulk string at `position`: its payload and the position after it. */
  function ParseBulk(data: string, position: nat): (r: Result<(string, nat), ParseError>)
    requires position <= |data|
    ensures r.Ok? ==> position < r.value.1 <= |data|
  {
    match FindCrlf(data, position)
    case None => Err(IncompleteLine)
    case Some(end) =>
      match ReadNumber(data[position..end], '$', ExpectedBulk, InvalidBulkLength)
      case Err(error) => Err(error)
      case Ok(length) =>
        if length < 0 then Err(NullBulk)
        else if end + 2 + length + 2 > |data| then Err(IncompleteBulk)
        else if !HasCrlf(data, end + 2 + length) then Err(MissingCrlf)
        else Ok((data[end + 2..end + 2 + length], end + 2 + length + 2))
  }

  /** Where the cursor stands after a bulk string that was refused: behind what was read before the rule was broken. */
  function StoppedAt(data: string, position: nat, failure: ParseError): nat {
    match FindCrlf(data, position)
    case None => position
    case Some(end) =>
      var length := FromChars(Between(data, position + 1, end));
      end + 2 + if failure.MissingCrlf? && length.Some? && length.value >= 0 then length.value else 0
  }

  /** `count` bulk strings from `position`, added to the `parts` already read. */
  function ParseBulks(data: string, position: nat, count: nat, parts: seq<string>)
    : (r: Result<(seq<string>, nat), ParseError>)
    requires position <= |data|
    ensures r.Ok? ==> position <= r.value.1 <= |data| && |r.value.0| == |parts| + count
    decreases count
  {
    if count == 0 then Ok((parts, position))
    else match ParseBulk(data, position)
      case Err(error) => Err(error)
      case Ok((part, next)) => ParseBulks(data, next, count - 1, parts + [part])
  }

  /** The header line at the start of `data`: the number of arguments and where they begin. */
  function ParseHeader(data: string): (r: Result<(nat, nat), ParseError>)
    ensures r.Ok? ==> 1 <= r.value.0 <= MAX_ARGUMENTS && r.value.1 <= |data|
  {
    match FindCrlf(data, 0)
    case None => Err(IncompleteLine)
    case Some(end) =>
      match ReadNumber(data[..end], '*', ExpectedArray, InvalidArrayLength)
      case Err(error) => Err(error)
      case Ok(count) =>
        if count <= 0 then Err(EmptyCommand)
        else if count > MAX_ARGUMENTS then Err(CommandTooLarge)
        else Ok((count, end + 2))
  }

  function ParseArray(data: string): Result<(seq<string>, nat), ParseError> {
    match ParseHeader(data)
    case Err(error) => Err(error)
    case Ok((count, start)) => ParseBulks(data, start, count, [])
  }

  /** The arguments of a request, or the message the parser reports. */
  function ParseRequest(data: string): Result<seq<string>, ParseError> {
    if data == "" then Err(EmptyRequest)
    else if data[0] != '*' then Err(NotAnArray)
    else match ParseArray(data)
      case Err(error) => Err(error)
      case Ok((parts, position)) =>
        if position != |data| then Err(ExtraData) else Ok(parts)
  }

  /** One turn of the argument loop. */
  lemma ParseBulksStep(data: string, position: nat, count: nat, parts: seq<string>)
    requires position <= |data| && count > 0
    ensures match ParseBulk(data, position)
            case Err(error) => ParseBulks(data, position, count, parts) == Err(error)
            case Ok((part, next)) =>
              ParseBulks(data, position, count, parts) == ParseBulks(data, next, count - 1, parts + [part])
  {
  }

  lemma ParseBulksEnd(data: string, position: nat, parts: seq<string>)
    requires position <= |data|
    ensures ParseBulks(data, position, 0, parts) == Ok((parts, position))
  {
  }

  /** The parser object; `data` is fixed and the cursor moves over it. */
  class RespParser {
    const data: string
    var parts: seq<string>
    var error: bool
    var failure: ParseError
    var position: nat

    constructor (data: string)
      ensures this.data == data && parts == [] && !error && position == 0
    {
      this.data := data;
      parts, error, position := [], false, 0;
      failure := EmptyRequest; // no meaning until error is set
    }

    method SetError(kind: ParseError)
      modifies this`error, this`failure
      ensures error && failure == kind
    {
      error := true;
      failure := kind;
    }

    /** The text of the last error, empty when there was none. */
    method GetError() returns (message: string)
      ensures error ==> message == Describe(failure)
      ensures message == "" <==> !error
    {
      if error {
        SomeMessage(failure);
        return Describe(failure);
      }
      return "";
    }

    method ReadLine() returns (ok: bool, line: string)
      requires position <= |data|
      modifies this`position, this`error, this`failure
      ensures ok <==> FindCrlf(data, old(position)).Some?
      ensures ok ==> var end := FindCrlf(data, old(position)).value;
                     && line == data[old(position)..end] && position == end + 2 <= |data|
                     && error == old(error) && failure == old(failure)
      ensures !ok ==> error && failure == IncompleteLine && position == old(position)
    {
      var found := FindCrlf(data, position);
      if found.None? {
        SetError(IncompleteLine);
        return false, "";
      }
      var end := found.value;
      line := data[position..end];
      position := end + 2;
      ok := true;
    }

    method ParseBulkString() returns (ok: bool, output: string)
      requires position <= |data|
      modifies this`position, this`error, this`failure
      ensures position <= |data|
      ensures ok <==> ParseBulk(data, old(position)).Ok?
      ensures ok ==> ParseBulk(data, old(position)) == Ok((output, position))
      ensures ok ==> error == old(error) && failure == old(failure)
      ensures !ok ==> error && ParseBulk(data, old(position)) == Err(failure)
      ensures !ok ==> position == StoppedAt(data, old(position), failure)
    {
      hide FromChars, FindCrlf;
      output := "";
      var line;
      ok, line := ReadLine();
      if !ok {
        return;
      }
      if line == "" || line[0] != '$' {
        SetError(ExpectedBulk);
        return false, output;
      }
      var parsed := FromChars(line[1..]);
      if parsed.None? {
        SetError(InvalidBulkLength);
        return false, output;
      }
      var length := parsed.value;
      if length < 0 {
        SetError(NullBulk);
        return false, output;
      }
      if position + length + 2 > |data| {
        SetError(IncompleteBulk);
        return false, output;
      }
      output := data[position..position + length];
      position := position + length;
      if !HasCrlf(data, position) {
        SetError(MissingCrlf);
        return false, output;
      }
      position := position + 2;
    }

    /** The header line at the start of the data: the number of bulk strings that must follow. */
    method ParseCount() returns (ok: bool, count: nat)
      requires position == 0
      modifies this`position, this`error, this`failure
      ensures ok <==> ParseHeader(data).Ok?
      ensures ok ==> ParseHeader(data) == Ok((count, position)) && error == old(error) && failure == old(failure)
      ensures !ok ==> error && ParseHeader(data) == Err(failure)
    {
      hide FromChars, FindCrlf;
      count := 0;
      var line;
      ok, line := ReadLine();
      if !ok {
        return;
      }
      assert data[0..position - 2] == data[..position - 2];
      if line == "" || line[0] != '*' {
        SetError(ExpectedArray);
        return false, 0;
      }
      var parsed := FromChars(line[1..]);
      if parsed.None? {
        SetError(InvalidArrayLength);
        return false, 0;
      }
      if parsed.value <= 0 {
        SetError(EmptyCommand);
        return false, 0;
      }
      if parsed.value > MAX_ARGUMENTS {
        SetError(CommandTooLarge);
        return false, 0;
      }
      return true, parsed.value;
    }

    /** Runs at the start of the data, with no parts read. */
    method ParseArrayAtStart() returns (ok: bool)
      requires position == 0 && parts == []
      modifies this
      ensures ok <==> ParseArray(data).Ok?
      ensures ok ==> ParseArray(data) == Ok((parts, position))
      ensures ok ==> error == old(error) && failure == old(failure)
      ensures !ok ==> error && ParseArray(data) == Err(failure)
    {
      hide ParseHeader, ParseBulk, ParseBulks, StoppedAt;
      var count;
      ok, count := ParseCount();
      if !ok {
        return;
      }
      ghost var goal := ParseBulks(data, position, count, []);
      var i: nat := 0;
      while i < count
        invariant i <= count && position <= |data|
        invariant error == old(error) && failure == old(failure)
        invariant ParseBulks(data, position, count - i, parts) == goal
      {
        var part;
        ParseBulksStep(data, position, count - i, parts);
        ok, part := ParseBulkString();
        if !ok {
          return;
        }
        parts := parts + [part];
        i := i + 1;
      }
      ParseBulksEnd(data, position, parts);
    }

    /** Parses afresh however the object was used before. */
    method Parse() returns (ok: bool)
      modifies this
      ensures ok <==> ParseRequest(data).Ok?
      ensures ok ==> ParseRequest(data) == Ok(parts) && !error
      ensures !ok ==> error && ParseRequest(data) == Err(failure)
    {
      parts, position, error := [], 0, false;
      if data == "" {
        SetError(EmptyRequest);
        return false;
      }
      if data[0] != '*' {
        SetError(NotAnArray);
        return false;
      }
      ok := ParseArrayAtStart();
      if !ok {
        return;
      }
      if position != |data| {
        SetError(ExtraData);
        return false;
      }
    }
  }

  // ---------------------------------------------------------- round trip

  lemma ParseLaidBulk(data: string, position: nat, value: string)
    requires BulkLaid(data, position, value) && |value| < LLONG
    ensures ParseBulk(data, position) == Ok((value, BulkEnd(position, value)))
  {
    var end := HeaderEnd(position, |value|);
    assert data[position..end][1..] == data[position + 1..end];
    PrintedNumbersParse(|value|);
  }

  lemma {:induction false} ParseLaidBulks(data: string, position: nat, arguments: seq<string>, parts: seq<string>)
    requires BulksLaid(data, position, arguments)
    requires forall i :: 0 <= i < |arguments| ==> |arguments[i]| < LLONG
    ensures ParseBulks(data, position, |arguments|, parts) == Ok((parts + arguments, BulksEnd(position, arguments)))
    decreases |arguments|
  {
    if arguments == [] {
      assert parts + arguments == parts;
    } else {
      ParseLaidBulk(data, position, arguments[0]);
      ParseLaidBulks(data, BulkEnd(position, arguments[0]), arguments[1..], parts + [arguments[0]]);
      Uncons(parts, arguments);
    }
  }

  lemma Uncons<T>(parts: seq<T>, arguments: seq<T>)
    requires arguments != []
    ensures parts + [arguments[0]] + arguments[1..] == parts + arguments
  {
  }

  /** Every command of 1 to 1024 arguments comes back from its encoding, CRLF, '*' and '$' inside payloads included. */
  lemma EncodeParseRoundTrip(arguments: seq<string>)
    requires forall i :: 0 <= i < |arguments| ==> |arguments[i]| < LLONG
    requires |arguments| < LLONG
    ensures ParseRequest(Encode(arguments)) ==
            if arguments == [] then Err(EmptyCommand)
            else if |arguments| > MAX_ARGUMENTS then Err(CommandTooLarge)
            else Ok(arguments)
  {
    var data := Encode(arguments);
    CommandAt(data, arguments);
    PrintedNumbersParse(|arguments|);
    var end := HeaderEnd(0, |arguments|);
    assert data[..end][1..] == data[1..end];
    if 1 <= |arguments| <= MAX_ARGUMENTS {
      ParseLaidBulks(data, HeaderEnd(0, |arguments|) + 2, arguments, []);
      assert [] + arguments == arguments;
    }
  }
}
