/** The looser decoder that recovery uses on the records of the append-only log. */
module LogRecords {
  import opened Wrappers
  import opened Text

  const MAX_RECOVERY_RECORD_SIZE := 512 * 1024
  const MAX_ARGUMENTS := 1024

  /** Why a record cannot be decoded; each stands for an exception. */
  datatype LogError =
    | NotAnArray
    | IncompleteArrayHeader
    | NotANumber
    | InvalidArgumentCount
    | ExpectedBulk
    | IncompleteBulkLength
    | InvalidBulkLength
    | IncompleteBulk
    | MissingCrlf
    | TrailingBytes

  /** One argument at `cursor`: its bytes and the position after it. */
  function ParseArgument(request: string, cursor: nat): (r: Result<(string, nat), LogError>)
    ensures r.Ok? ==> cursor < r.value.1 <= |request|
  {
    if cursor >= |request| || request[cursor] != '$' then Err(ExpectedBulk)
    else match FindCrlf(request, cursor)
      case None => Err(IncompleteBulkLength)
      case Some(end) =>
        match Stoll(Between(request, cursor + 1, end))
        case None => Err(NotANumber)
        case Some(length) =>
          if length < 0 || length > MAX_RECOVERY_RECORD_SIZE then Err(InvalidBulkLength)
          else if end + 2 + length + 2 > |request| then Err(IncompleteBulk)
          else if !HasCrlf(request, end + 2 + length) then Err(MissingCrlf)
          else Ok((request[end + 2..end + 2 + length], end + 2 + length + 2))
  }

  function ParseArguments(request: string, cursor: nat, count: nat, arguments: seq<string>)
    : Result<(seq<string>, nat), LogError>
    decreases count
  {
    if count == 0 then Ok((arguments, cursor))
    else match ParseArgument(request, cursor)
      case Err(error) => Err(error)
      case Ok((argument, next)) => ParseArguments(request, next, count - 1, arguments + [argument])
  }

  function ParseCount(request: string): (r: Result<(nat, nat), LogError>)
    ensures r.Ok? ==> r.value.0 <= MAX_ARGUMENTS
  {
    if request == "" || request[0] != '*' then Err(NotAnArray)
    else match FindCrlf(request, 0)
      case None => Err(IncompleteArrayHeader)
      case Some(end) =>
        match Stoll(Between(request, 1, end))
        case None => Err(NotANumber)
        case Some(count) =>
          if count < 0 || count > MAX_ARGUMENTS then Err(InvalidArgumentCount) else Ok((count, end + 2))
  }

  function ParseLogRecord(request: string): Result<seq<string>, LogError> {
    match ParseCount(request)
    case Err(error) => Err(error)
    case Ok((count, start)) =>
      match ParseArguments(request, start, count, [])
      case Err(error) => Err(error)
      case Ok((arguments, cursor)) => if cursor != |request| then Err(TrailingBytes) else Ok(arguments)
  }

  /** One turn of the argument loop. */
  lemma ParseArgumentsStep(request: string, cursor: nat, count: nat, arguments: seq<string>)
    requires count > 0
    ensures var first := ParseArgument(request, cursor);
            ParseArguments(request, cursor, count, arguments) ==
            if first.Err? then Err(first.error)
            else ParseArguments(request, first.value.1, count - 1, arguments + [first.value.0])
  {
  }

  /** The body of the argument loop. */
  method ReadArgument(request: string, cursor: nat) returns (r: Result<(string, nat), LogError>)
    ensures r == ParseArgument(request, cursor)
  {
    hide FindCrlf, Stoll;
    if cursor >= |request| || request[cursor] != '$' {
      return Err(ExpectedBulk);
    }
    var lengthEnd := FindCrlf(request, cursor);
    if lengthEnd.None? {
      return Err(IncompleteBulkLength);
    }
    var number := Stoll(Between(request, cursor + 1, lengthEnd.value));
    if number.None? {
      return Err(NotANumber);
    }
    var length := number.value;
    if length < 0 || length > MAX_RECOVERY_RECORD_SIZE {
      return Err(InvalidBulkLength);
    }
    var start: nat := lengthEnd.value + 2;
    if start + length + 2 > |request| {
      return Err(IncompleteBulk);
    }
    if !HasCrlf(request, start + length) {
      return Err(MissingCrlf);
    }
    return Ok((request[start..start + length], start + length + 2));
  }

  /** The decoder as it runs: a cursor moved over the record by a loop. */
  method ParseRespRequest(request: string) returns (r: Result<seq<string>, LogError>)
    ensures r == ParseLogRecord(request)
  {
    hide FindCrlf, Stoll, ParseArgument;
    if request == "" || request[0] != '*' {
      return Err(NotAnArray);
    }
    var arrayEnd := FindCrlf(request, 0);
    if arrayEnd.None? {
      return Err(IncompleteArrayHeader);
    }
    var argumentCount := Stoll(Between(request, 1, arrayEnd.value));
    if argumentCount.None? {
      return Err(NotANumber);
    }
    if argumentCount.value < 0 || argumentCount.value > MAX_ARGUMENTS {
      return Err(InvalidArgumentCount);
    }
    var count: nat := argumentCount.value;
    var cursor: nat := arrayEnd.value + 2;
    var arguments: seq<string> := [];
    ghost var goal := ParseArguments(request, cursor, count, []);
    var index: nat := 0;
    while index < count
      invariant index <= count
      invariant ParseArguments(request, cursor, count - index, arguments) == goal
    {
      ParseArgumentsStep(request, cursor, count - index, arguments);
      var argument := ReadArgument(request, cursor);
      if argument.Err? {
        return Err(argument.error);
      }
      arguments := arguments + [argument.value.0];
      cursor := argument.value.1;
      index := index + 1;
    }
    if cursor != |request| {
      return Err(TrailingBytes);
    }
    return Ok(arguments);
  }

  /**
   * A record that holds no line end but its last two bytes is decoded from its first line alone: it yields no
   * arguments when the line reads as zero, and is refused otherwise.
   */
  lemma OneLineRecord(record: string)
    requires |record| >= 2 && FindCrlf(record, 0) == Some(|record| - 2)
    ensures ParseLogRecord(record).Ok? ==> ParseLogRecord(record) == Ok([])
    ensures ParseLogRecord(record).Ok? <==>
              record[0] == '*' && Stoll(Between(record, 1, |record| - 2)) == Some(0)
  {
    hide Stoll, FindCrlf;
    var count := ParseCount(record);
    if count.Ok? && count.value.0 > 0 {
      ParseArgumentsStep(record, |record|, count.value.0, []);
      assert ParseArgument(record, |record|) == Err(ExpectedBulk);
    }
  }
}
