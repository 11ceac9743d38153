/** The command dispatcher: the transition function of the server, from request bytes to reply bytes. */
module Dispatching {
  import opened Wrappers
  import opened Text
  import opened Encoding
  import opened RespParsing
  import opened Databases

  // ---------------------------------------------------------------- commands

  function UpperChar(c: char): char {
    if 'a' <= c <= 'z' then (c as int - 32) as char else c
  }

  function ToUpper(s: string): (r: string)
    ensures |r| == |s|
    ensures forall i :: 0 <= i < |s| ==> r[i] == UpperChar(s[i])
  {
    seq(|s|, i requires 0 <= i < |s| => UpperChar(s[i]))
  }

  datatype Verb = PingVerb | SetVerb | GetVerb | DelVerb | ExistsVerb | ExpireVerb | TtlVerb | SaveVerb | OtherVerb

  function VerbOf(command: string): Verb {
    if command == "PING" then PingVerb
    else if command == "SET" then SetVerb
    else if command == "GET" then GetVerb
    else if command == "DEL" then DelVerb
    else if command == "EXISTS" then ExistsVerb
    else if command == "EXPIRE" then ExpireVerb
    else if command == "TTL" then TtlVerb
    else if command == "SAVE" then SaveVerb
    else OtherVerb
  }

  // ------------------------------------------------------------------ replies

  datatype Reply =
    | Pong
    | Okay
    | Bulk(value: string)
    | Null
    | Integer(number: int)
    | WrongArity(verb: Verb)
    | InvalidExpireTime
    | PersistenceFailure(message: string)
    | UnknownCommand(command: string)
    | Malformed(error: ParseError)

  function LowerName(verb: Verb): string {
    match verb
    case PingVerb => "ping"
    case SetVerb => "set"
    case GetVerb => "get"
    case DelVerb => "del"
    case ExistsVerb => "exists"
    case ExpireVerb => "expire"
    case TtlVerb => "ttl"
    case SaveVerb => "save"
    case OtherVerb => ""
  }

  /** The text of an error reply, without its mark and line end. */
  function ErrorText(reply: Reply): string
    requires reply.WrongArity? || reply.InvalidExpireTime? || reply.PersistenceFailure? || reply.UnknownCommand?
      || reply.Malformed?
  {
    match reply
    case WrongArity(verb) => "ERR wrong number of arguments for '" + LowerName(verb) + "'"
    case InvalidExpireTime => "ERR invalid expire time"
    case PersistenceFailure(message) => "ERR persistence failure: " + message
    case UnknownCommand(command) => "ERR unknown command '" + command + "'"
    case Malformed(error) => "ERR " + Describe(error)
  }

  function ReplyText(reply: Reply): string {
    match reply
    case Pong => SimpleString("PONG")
    case Okay => SimpleString("OK")
    case Bulk(value) => BulkString(value)
    case Null => NULL_REPLY
    case Integer(number) => IntegerReply(number)
    case _ => ErrorReply(ErrorText(reply))
  }

  // ---------------------------------------------------------------- execution

  /** The outside of one command: the clock, and the message of the exception when a SAVE fails. */
  datatype Moment = Moment(tick: Tick, saveFailure: Option<string>)

  datatype Effect = Effect(store: Store, reply: Reply)

  /** The database operation a well-formed data command stands for. */
  function OperationOf(verb: Verb, args: seq<string>): Option<Operation> {
    if verb.SetVerb? && |args| == 2 then Some(Operation.Set(args[0], args[1]))
    else if verb.GetVerb? && |args| == 1 then Some(Operation.Get(args[0]))
    else if verb.DelVerb? && |args| == 1 then Some(Operation.Del(args[0]))
    else if verb.ExistsVerb? && |args| == 1 then Some(Operation.Exists(args[0]))
    else if verb.ExpireVerb? && |args| == 2 && FromChars(args[1]).Some? then
      Some(Operation.Expire(args[0], FromChars(args[1]).value))
    else if verb.TtlVerb? && |args| == 1 then Some(Operation.Ttl(args[0]))
    else None
  }

  /** The reply to an operation; SET and EXPIRE report the same whatever they found. */
  function ReplyTo(op: Operation, answer: Answer): Reply {
    match answer
    case Done => if op.Set? then Okay else Integer(1)
    case Value(found) => if found.None? then Null else Bulk(found.value)
    case Flag(truth) => Integer(if truth then 1 else 0)
    case Seconds(left) => Integer(left)
  }

  /** A command that is no database operation: PING, SAVE, or an error. */
  function OtherReply(command: string, args: seq<string>, moment: Moment): Reply {
    var verb := VerbOf(command);
    match verb
    case PingVerb => if args == [] then Pong else if |args| == 1 then Bulk(args[0]) else WrongArity(verb)
    case SaveVerb =>
      if args != [] then WrongArity(verb)
      else if moment.saveFailure.None? then Okay
      else PersistenceFailure(moment.saveFailure.value)
    case ExpireVerb => if |args| != 2 then WrongArity(verb) else InvalidExpireTime
    case OtherVerb => UnknownCommand(command)
    case _ => WrongArity(verb)
  }

  function ExecuteCommand(store: Store, command: string, args: seq<string>, moment: Moment): Effect {
    var op := OperationOf(VerbOf(command), args);
    if op.Some? then
      Effect(LazyStore(store, op.value, moment.tick), ReplyTo(op.value, LazyAnswer(store, op.value, moment.tick)))
    else Effect(store, OtherReply(command, args, moment))
  }

  /** A command given as its arguments, none of them on the wire. */
  function ServeCommand(store: Store, arguments: seq<string>, moment: Moment): Effect {
    if arguments == [] then Effect(store, Malformed(EmptyCommand))
    else if |arguments| > MAX_ARGUMENTS then Effect(store, Malformed(CommandTooLarge))
    else ExecuteCommand(store, ToUpper(arguments[0]), arguments[1..], moment)
  }

  /** A request as it comes from the framer. */
  function ServeRequest(store: Store, request: string, moment: Moment): Effect {
    match ParseRequest(request)
    case Err(error) => Effect(store, Malformed(error))
    case Ok(parts) => ServeCommand(store, parts, moment)
  }

  /** An encoded command is served as its arguments are. */
  lemma EncodedCommandIsServed(store: Store, arguments: seq<string>, moment: Moment)
    requires |arguments| < LLONG && forall i :: 0 <= i < |arguments| ==> |arguments[i]| < LLONG
    ensures ServeRequest(store, Encode(arguments), moment) == ServeCommand(store, arguments, moment)
  {
    EncodeParseRoundTrip(arguments);
    hide ParseRequest, Encode, ExecuteCommand, ToUpper;
  }

  /** Parsed requests have one to 1024 arguments, so the dispatcher's own test for none never fires. */
  lemma ParsedPartsAreNumbered(request: string)
    requires ParseRequest(request).Ok?
    ensures 1 <= |ParseRequest(request).value| <= MAX_ARGUMENTS
  {
    hide FindCrlf, FromChars, ParseBulks;
  }

  class CommandDispatcher {
    const database: Database

    constructor (database: Database)
      ensures this.database == database
    {
      this.database := database;
    }

    method Execute(request: string, moment: Moment) returns (response: string)
      modifies database
      ensures var effect := ServeRequest(old(database.store), request, moment);
              database.store == effect.store && response == ReplyText(effect.reply)
    {
      hide ParseRequest, ReplyText, Describe, ErrorReply, VerbOf, ToUpper;
      hide OperationOf, LazyStore, LazyAnswer, OtherReply;
      var parser := new RespParser(request);
      var ok := parser.Parse();
      if !ok {
        var message := parser.GetError();
        MalformedText(parser.failure);
        return ErrorReply("ERR " + message);
      }
      ParsedPartsAreNumbered(request);
      var command := ToUpper(parser.parts[0]);
      var args := parser.parts[1..];
      var reply := Run(command, args, moment);
      return ReplyText(reply);
    }

    method Run(command: string, args: seq<string>, moment: Moment) returns (reply: Reply)
      modifies database
      ensures Effect(database.store, reply) == ExecuteCommand(old(database.store), command, args, moment)
    {
      hide VerbOf, LazyStore, LazyAnswer, FromChars;
      var verb := VerbOf(command);
      var now := moment.tick.now;
      match verb {
        case PingVerb =>
          if args == [] {
            return Pong;
          }
          if |args| == 1 {
            return Bulk(args[0]);
          }
          return WrongArity(verb);
        case SetVerb =>
          if |args| != 2 {
            return WrongArity(verb);
          }
          SetIgnoresTheClock(database.store, args[0], args[1], moment.tick);
          database.Set(args[0], args[1]);
          return Okay;
        case GetVerb =>
          if |args| != 1 {
            return WrongArity(verb);
          }
          OneReading(database.store, Operation.Get(args[0]), moment.tick);
          var value := database.Get(args[0], now);
          if value.None? {
            return Null;
          }
          return Bulk(value.value);
        case DelVerb =>
          if |args| != 1 {
            return WrongArity(verb);
          }
          OneReading(database.store, Operation.Del(args[0]), moment.tick);
          var removed := database.Del(args[0], now);
          return Integer(if removed then 1 else 0);
        case ExistsVerb =>
          if |args| != 1 {
            return WrongArity(verb);
          }
          OneReading(database.store, Operation.Exists(args[0]), moment.tick);
          var present := database.Exists(args[0], now);
          return Integer(if present then 1 else 0);
        case ExpireVerb =>
          if |args| != 2 {
            return WrongArity(verb);
          }
          var seconds := FromChars(args[1]);
          if seconds.None? {
            return InvalidExpireTime;
          }
          OneReading(database.store, Operation.Expire(args[0], seconds.value), moment.tick);
          database.Expire(args[0], seconds.value, now);
          return Integer(1);
        case TtlVerb =>
          if |args| != 1 {
            return WrongArity(verb);
          }
          var left := database.Ttl(args[0], moment.tick);
          return Integer(left);
        case SaveVerb =>
          if args != [] {
            return WrongArity(verb);
          }
          if moment.saveFailure.Some? {
            return PersistenceFailure(moment.saveFailure.value);
          }
          return Okay;
        case OtherVerb =>
          return UnknownCommand(command);
      }
    }
  }

  lemma MalformedText(error: ParseError)
    ensures ReplyText(Malformed(error)) == ErrorReply("ERR " + Describe(error))
  {
    hide Describe;
  }

  lemma SetIgnoresTheClock(store: Store, key: string, value: string, tick: Tick)
    ensures LazyStore(store, Operation.Set(key, value), tick) == LazyStore(store, Operation.Set(key, value), Tick(0, 0))
    ensures LazyAnswer(store, Operation.Set(key, value), tick) == Done
  {
  }

  /** Only TTL looks at the second reading of the clock. */
  lemma OneReading(store: Store, op: Operation, tick: Tick)
    requires !op.Ttl?
    ensures LazyStore(store, op, tick) == LazyStore(store, op, Tick(tick.now, tick.now))
    ensures LazyAnswer(store, op, tick) == LazyAnswer(store, op, Tick(tick.now, tick.now))
    ensures op.Expire? ==> LazyAnswer(store, op, tick) == Done
  {
  }
}
