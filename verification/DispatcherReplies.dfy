/** The dispatcher's replies as the client receives them. */
module DispatcherReplies {
  import opened Wrappers
  import opened Text
  import opened Encoding
  import opened RespParsing
  import opened Databases
  import opened Dispatching
  import opened ReplyFraming
  import Framing
  import FramerChunks

  /** Nothing that could begin a line end. */
  predicate Clean(s: string) { '\r' !in s }

  lemma CleanHasNoCrlf(s: string)
    requires Clean(s)
    ensures FindCrlf(s, 0).None?
  {
    FindCrlfIsFirst(s, 0);
  }

  /** Clean text on both sides, not beginning with the end of one, adds no line end and hides none. */
  lemma CleanAround(before: string, middle: string, after: string)
    requires Clean(before) && Clean(after) && '\n' !in after
    ensures FindCrlf(before + middle + after, 0).None? <==> FindCrlf(middle, 0).None?
  {
    var whole := before + middle + after;
    FindCrlfIsFirst(whole, 0);
    FindCrlfIsFirst(middle, 0);
    if FindCrlf(middle, 0).Some? {
      assert HasCrlf(whole, |before| + FindCrlf(middle, 0).value);
    }
    if FindCrlf(whole, 0).Some? {
      var k := FindCrlf(whole, 0).value;
      forall j | 0 <= j < |before| ensures whole[j] != '\r' {
        assert whole[j] in before;
      }
      forall j | |before| + |middle| <= j < |whole| ensures whole[j] != '\n' {
        assert whole[j] in after;
      }
      assert HasCrlf(middle, k - |before|);
    }
  }

  lemma CleanConcat(a: string, b: string)
    requires Clean(a) && Clean(b)
    ensures Clean(a + b)
  {
  }

  predicate AboutArrays(error: ParseError) {
    error.ExpectedArray? || error.InvalidArrayLength? || error.NotAnArray? || error.ExtraData?
  }

  predicate AboutBulks(error: ParseError) {
    error.InvalidBulkLength? || error.NullBulk? || error.MissingCrlf?
  }

  lemma CleanArrayMessages(error: ParseError)
    requires AboutArrays(error)
    ensures Clean(Describe(error))
  {
  }

  lemma CleanBulkMessages(error: ParseError)
    requires AboutBulks(error)
    ensures Clean(Describe(error))
  {
  }

  lemma CleanOtherMessages(error: ParseError)
    requires !AboutArrays(error) && !AboutBulks(error)
    ensures Clean(Describe(error))
  {
  }

  lemma CleanMessages(error: ParseError)
    ensures Clean(Describe(error))
  {
    hide Describe;
    if AboutArrays(error) {
      CleanArrayMessages(error);
    } else if AboutBulks(error) {
      CleanBulkMessages(error);
    } else {
      CleanOtherMessages(error);
    }
  }

  lemma CleanNames(verb: Verb)
    ensures Clean(LowerName(verb))
  {
  }

  /** The fixed text of an error reply before what it quotes. */
  function Lead(reply: Reply): string {
    match reply
    case WrongArity(verb) => "ERR wrong number of arguments for '" + (LowerName(verb) + "'")
    case InvalidExpireTime => "ERR invalid expire time"
    case PersistenceFailure(_) => "ERR persistence failure: "
    case UnknownCommand(_) => "ERR unknown command '"
    case Malformed(error) => "ERR " + Describe(error)
    case _ => ""
  }

  function Trail(reply: Reply): string { if reply.UnknownCommand? then "'" else "" }

  /** The text in a reply that comes from outside the server and could hold a line end. */
  function Quoted(reply: Reply): string {
    match reply
    case UnknownCommand(command) => command
    case PersistenceFailure(message) => message
    case _ => ""
  }

  lemma CleanPhrases(reply: Reply)
    ensures Clean("ERR wrong number of arguments for '") && Clean("'") && Clean("ERR ")
    ensures reply.InvalidExpireTime? || reply.PersistenceFailure? || reply.UnknownCommand? ==> Clean(Lead(reply))
    ensures '\n' !in Trail(reply)
  {
    hide Describe, LowerName;
  }

  lemma CleanLead(reply: Reply)
    ensures Clean(Lead(reply)) && Clean(Trail(reply)) && '\n' !in Trail(reply)
  {
    CleanPhrases(reply);
    hide Clean, Describe, LowerName;
    assert Clean("") by { NothingIsClean(); }
    if reply.WrongArity? {
      CleanNames(reply.verb);
      CleanConcat(LowerName(reply.verb), "'");
      CleanConcat("ERR wrong number of arguments for '", LowerName(reply.verb) + "'");
    } else if reply.Malformed? {
      CleanMessages(reply.error);
      CleanConcat("ERR ", Describe(reply.error));
    }
  }

  lemma NothingIsClean()
    ensures Clean("")
  {
  }

  lemma CleanNumber(n: int)
    ensures Clean(PrintInt(n))
  {
    PrintedNumbersAreDigits(if n < 0 then -n else n);
    var digits := Print(if n < 0 then -n else n);
    assert forall c :: c in digits ==> IsDigit(c);
  }

  predicate IsError(reply: Reply) {
    reply.WrongArity? || reply.InvalidExpireTime? || reply.PersistenceFailure? || reply.UnknownCommand?
    || reply.Malformed?
  }

  lemma ErrorTextInParts(reply: Reply)
    requires IsError(reply)
    ensures ErrorText(reply) == Lead(reply) + Quoted(reply) + Trail(reply)
  {
    hide Describe, LowerName;
  }

  lemma ErrorTextIsQuoted(reply: Reply)
    requires IsError(reply)
    ensures FindCrlf(ErrorText(reply), 0).None? <==> FindCrlf(Quoted(reply), 0).None?
  {
    hide Clean, ErrorText, Lead, Trail, Quoted;
    ErrorTextInParts(reply);
    CleanLead(reply);
    CleanAround(Lead(reply), Quoted(reply), Trail(reply));
  }

  lemma CleanWords()
    ensures Clean("PONG") && Clean("OK") && Clean("")
  {
  }

  /**
   * The client collects a reply correctly however it is split, exactly when no outside text quoted in it (the name
   * of an unknown command, the message of a failed save) holds a line end.
   */
  lemma RepliesDelimitThemselves(reply: Reply)
    requires reply.Bulk? ==> |reply.value| < LLONG
    ensures SelfDelimiting(ReplyText(reply)) <==> FindCrlf(Quoted(reply), 0).None?
  {
    CleanWords();
    hide SelfDelimiting, Clean;
    CleanHasNoCrlf("");
    match reply
    case Pong => CleanHasNoCrlf("PONG"); LineReplyDelimits('+', "PONG");
    case Okay => CleanHasNoCrlf("OK"); LineReplyDelimits('+', "OK");
    case Bulk(value) => BulkReplyDelimits(value);
    case Null => NullReplyDelimits();
    case Integer(number) =>
      CleanNumber(number);
      CleanHasNoCrlf(PrintInt(number));
      LineReplyDelimits(':', PrintInt(number));
    case _ =>
      ErrorTextIsQuoted(reply);
      LineReplyDelimits('-', ErrorText(reply));
  }

  /** A command named "A CRLF B" is answered with a reply that the client may take for complete too early. */
  lemma NameWithLineEnd(store: Store, moment: Moment)
    ensures ServeCommand(store, ["A\r\nB"], moment) == Effect(store, UnknownCommand("A\r\nB"))
    ensures !SelfDelimiting(ReplyText(UnknownCommand("A\r\nB")))
  {
    hide SelfDelimiting, ReplyText, FindCrlf;
    var name := "A\r\nB";
    assert ToUpper(name) == name;
    assert HasCrlf(name, 1);
    FindCrlfIsFirst(name, 0);
    RepliesDelimitThemselves(UnknownCommand(name));
  }

  /**
   * The command makes the server quote a line end: its name is unknown and holds one, or it is a SAVE that fails with
   * a message that holds one.
   */
  predicate QuotesLineEnd(arguments: seq<string>, moment: Moment) {
    1 <= |arguments| <= MAX_ARGUMENTS
    && match VerbOf(ToUpper(arguments[0]))
       case OtherVerb => FindCrlf(arguments[0], 0).Some?
       case SaveVerb => |arguments| == 1 && moment.saveFailure.Some? && FindCrlf(moment.saveFailure.value, 0).Some?
       case _ => false
  }

  lemma UpperKeepsLineEnds(s: string)
    ensures FindCrlf(ToUpper(s), 0).Some? <==> FindCrlf(s, 0).Some?
  {
    FindCrlfIsFirst(s, 0);
    FindCrlfIsFirst(ToUpper(s), 0);
    forall k: nat ensures HasCrlf(s, k) <==> HasCrlf(ToUpper(s), k) {
    }
  }

  lemma QuotedByCommand(store: Store, arguments: seq<string>, moment: Moment)
    ensures FindCrlf(Quoted(ServeCommand(store, arguments, moment).reply), 0).Some?
       <==> QuotesLineEnd(arguments, moment)
  {
    hide VerbOf, ToUpper, LazyStore, LazyAnswer, FindCrlf, FromChars;
    FindCrlfIsFirst("", 0);
    if arguments != [] {
      UpperKeepsLineEnds(arguments[0]);
    }
  }

  /**
   * The way of a command through client and server: its encoding is framed as one request, parsed back to its
   * arguments and executed; and the client collects the reply, from whatever chunks it arrives in, exactly when the
   * command does not make the server quote a line end and the reply keeps within the client's limit.
   */
  lemma CommandIsAnswered(store: Store, arguments: seq<string>, moment: Moment)
    requires |Encode(arguments)| <= STRING_MAX
    ensures var request := Encode(arguments);
            var reply := ServeRequest(store, request, moment).reply;
            && Framing.Extract(request) == Framing.Frames([Framing.Request(request)], "", false)
            && reply == ServeCommand(store, arguments, moment).reply
            && (Collected(ReplyText(reply)) <==>
                  !QuotesLineEnd(arguments, moment) && |ReplyText(reply)| <= MAX_RESPONSE_SIZE)
  {
    BulksCoverTheirArguments(arguments);
    EncodedCommandIsServed(store, arguments, moment);
    FramedAlone(arguments);
    QuotedByCommand(store, arguments, moment);
    hide Encode, ServeRequest, ServeCommand, ReplyText, SelfDelimiting, FindCrlf, Framing.Extract, QuotesLineEnd;
    hide Collected;
    var reply := ServeRequest(store, Encode(arguments), moment).reply;
    ReplyNotEmpty(reply);
    CollectedExactly(ReplyText(reply));
    if |ReplyText(reply)| <= MAX_RESPONSE_SIZE {
      PayloadFits(reply);
      RepliesDelimitThemselves(reply);
    }
  }

  lemma ReplyNotEmpty(reply: Dispatching.Reply)
    ensures ReplyText(reply) != ""
  {
    hide ErrorText;
  }

  lemma PayloadFits(reply: Dispatching.Reply)
    requires |ReplyText(reply)| <= MAX_RESPONSE_SIZE
    ensures reply.Bulk? ==> |reply.value| < LLONG
  {
    hide ErrorText;
  }

  lemma FramedAlone(arguments: seq<string>)
    requires |Encode(arguments)| <= STRING_MAX
    ensures var request := Encode(arguments);
            Framing.Extract(request) == Framing.Frames([Framing.Request(request)], "", false)
  {
    var request := Encode(arguments);
    hide Encode, Framing.FrameStep;
    FramerChunks.CommandIsTaken(arguments, request);
    EncodingIsNotEmpty(arguments);
    assert request[..|request|] == request && request[|request|..] == "";
    assert Framing.Extract("") == Framing.Frames([], "", false);
  }

  lemma EncodingIsNotEmpty(arguments: seq<string>)
    ensures Encode(arguments) != ""
  {
  }
}
