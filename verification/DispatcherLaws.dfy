/** What each command answers, in the bytes a client sees, for names spelled in any mix of cases. */
module DispatcherLaws {
  import opened Wrappers
  import opened Text
  import opened Encoding
  import opened RespParsing
  import opened Databases
  import opened Dispatching
  import Framing
  import FramerChunks
  import LazyExpiry
  import ReplyFraming

  /** The name is this word of capitals, some of its letters perhaps small. */
  predicate Spells(name: string, word: string) {
    |name| == |word| && forall i :: 0 <= i < |name| ==> name[i] == word[i] || name[i] as int == word[i] as int + 32
  }

  predicate Capitals(word: string) { forall i :: 0 <= i < |word| ==> 'A' <= word[i] <= 'Z' }

  lemma SpelledInCapitals(name: string, word: string)
    requires Capitals(word)
    ensures Spells(name, word) <==> ToUpper(name) == word
  {
    if ToUpper(name) == word {
      forall i | 0 <= i < |name| ensures name[i] == word[i] || name[i] as int == word[i] as int + 32 {
        assert word[i] == UpperChar(name[i]);
      }
    }
    if Spells(name, word) {
      forall i | 0 <= i < |name| ensures ToUpper(name)[i] == word[i] {
        assert 'A' <= word[i] <= 'Z';
      }
      assert ToUpper(name) == word;
    }
  }

  /** The word that stands for each verb. */
  function Word(verb: Verb): string
    requires !verb.OtherVerb?
  {
    match verb
    case PingVerb => "PING"
    case SetVerb => "SET"
    case GetVerb => "GET"
    case DelVerb => "DEL"
    case ExistsVerb => "EXISTS"
    case ExpireVerb => "EXPIRE"
    case TtlVerb => "TTL"
    case SaveVerb => "SAVE"
  }

  lemma WordsAreCapitals(verb: Verb)
    requires !verb.OtherVerb?
    ensures Capitals(Word(verb)) && VerbOf(Word(verb)) == verb
  {
  }

  lemma VerbHasItsWord(command: string)
    requires !VerbOf(command).OtherVerb?
    ensures command == Word(VerbOf(command))
  {
  }

  /** A name stands for a verb exactly when it spells the verb's word. */
  lemma VerbSpelled(name: string, verb: Verb)
    requires !verb.OtherVerb?
    ensures VerbOf(ToUpper(name)) == verb <==> Spells(name, Word(verb))
  {
    WordsAreCapitals(verb);
    SpelledInCapitals(name, Word(verb));
    hide VerbOf, ToUpper, Spells, Word, Capitals;
    if VerbOf(ToUpper(name)) == verb {
      VerbHasItsWord(ToUpper(name));
    }
  }

  // ------------------------------------------------------------ what is said

  function AnswerTo(store: Store, arguments: seq<string>, moment: Moment): string {
    ReplyText(ServeCommand(store, arguments, moment).reply)
  }

  function StoreAfter(store: Store, arguments: seq<string>, moment: Moment): Store {
    ServeCommand(store, arguments, moment).store
  }

  /** The key is there and its deadline, if it has one, has not come. */
  predicate IsLive(store: Store, key: string, now: int) {
    key in store && (store[key].expiresAt.None? || now < store[key].expiresAt.value)
  }

  lemma SmallIntegers()
    ensures IntegerReply(1) == ":1\r\n" && IntegerReply(0) == ":0\r\n"
    ensures IntegerReply(-1) == ":-1\r\n" && IntegerReply(-2) == ":-2\r\n"
  {
    assert Print(0) == "0" && Print(1) == "1" && Print(2) == "2";
  }

  /** A bulk reply is never the null reply. */
  lemma BulkIsNotNull(value: string)
    ensures BulkString(value) != "$-1\r\n"
  {
    PrintedNumbersAreDigits(|value|);
    hide Print;
    assert BulkString(value)[1] == Print(|value|)[0];
  }

  // ------------------------------------------------------------------- reads

  lemma GetAnswers(store: Store, get: string, key: string, moment: Moment)
    requires Spells(get, "GET")
    ensures AnswerTo(store, [get, key], moment) ==
            if IsLive(store, key, moment.tick.now) then BulkString(store[key].value) else "$-1\r\n"
    ensures AnswerTo(store, [get, key], moment) == "$-1\r\n" <==> !IsLive(store, key, moment.tick.now)
    ensures forall other, now :: now >= moment.tick.now ==>
              (IsLive(StoreAfter(store, [get, key], moment), other, now) <==> IsLive(store, other, now))
  {
    VerbSpelled(get, GetVerb);
    if IsLive(store, key, moment.tick.now) {
      BulkIsNotNull(store[key].value);
    }
    hide VerbOf, ToUpper, Spells, BulkString;
  }

  lemma ExistsAnswers(store: Store, exists_: string, key: string, moment: Moment)
    requires Spells(exists_, "EXISTS")
    ensures AnswerTo(store, [exists_, key], moment) ==
            if IsLive(store, key, moment.tick.now) then ":1\r\n" else ":0\r\n"
    ensures forall other, now :: now >= moment.tick.now ==>
              (IsLive(StoreAfter(store, [exists_, key], moment), other, now) <==> IsLive(store, other, now))
  {
    VerbSpelled(exists_, ExistsVerb);
    SmallIntegers();
    hide VerbOf, ToUpper, Spells, IntegerReply;
  }

  /** TTL of a live key with a deadline answers the whole seconds that are left when the clock is read again. */
  lemma TtlAnswers(store: Store, ttl: string, key: string, moment: Moment) returns (left: nat)
    requires Spells(ttl, "TTL") && moment.tick.now <= moment.tick.later
    ensures var reply := AnswerTo(store, [ttl, key], moment);
            && (!IsLive(store, key, moment.tick.now) ==> reply == ":-2\r\n")
            && (IsLive(store, key, moment.tick.now) && store[key].expiresAt.None? ==> reply == ":-1\r\n")
            && (IsLive(store, key, moment.tick.now) && store[key].expiresAt.Some? ==> reply == IntegerReply(left))
    ensures IsLive(store, key, moment.tick.now) && store[key].expiresAt.Some? ==>
              var span := store[key].expiresAt.value - moment.tick.later;
              if span > 0 then left * SECOND <= span < (left + 1) * SECOND else left == 0
  {
    VerbSpelled(ttl, TtlVerb);
    SmallIntegers();
    hide VerbOf, ToUpper, Spells, IntegerReply;
    left := 0;
    if IsLive(store, key, moment.tick.now) && store[key].expiresAt.Some? {
      LazyExpiry.RemainingFalls(store[key].expiresAt.value, moment.tick.later, moment.tick.later);
      left := Remaining(store[key].expiresAt.value, moment.tick.later);
      hide Remaining;
    }
  }

  lemma OtherThanMarks(left: nat)
    requires left < LLONG
    ensures IntegerReply(left) != ":-1\r\n" && IntegerReply(left) != ":-2\r\n"
  {
    SmallIntegers();
    hide IntegerReply;
    if IntegerReply(left) == IntegerReply(-1) {
      ReplyFraming.IntegerRepliesDiffer(left, -1);
    }
    if IntegerReply(left) == IntegerReply(-2) {
      ReplyFraming.IntegerRepliesDiffer(left, -2);
    }
  }

  /** The answers -2 and -1 mean exactly what they should: a number of seconds left is never negative. */
  lemma TtlMeansWhatItSays(store: Store, ttl: string, key: string, moment: Moment)
    requires Spells(ttl, "TTL") && moment.tick.now <= moment.tick.later
    requires IsLive(store, key, moment.tick.now) && store[key].expiresAt.Some? ==>
               store[key].expiresAt.value - moment.tick.later < LLONG
    ensures var reply := AnswerTo(store, [ttl, key], moment);
            && (reply == ":-2\r\n" <==> !IsLive(store, key, moment.tick.now))
            && (reply == ":-1\r\n" <==> IsLive(store, key, moment.tick.now) && store[key].expiresAt.None?)
  {
    var left := TtlAnswers(store, ttl, key, moment);
    hide AnswerTo, IntegerReply, Spells;
    if IsLive(store, key, moment.tick.now) && store[key].expiresAt.Some? {
      OtherThanMarks(left);
    }
    assert ":-1\r\n"[2] == '1' && ":-2\r\n"[2] == '2';
  }

  lemma PingAnswers(store: Store, ping: string, message: string, moment: Moment)
    requires Spells(ping, "PING")
    ensures AnswerTo(store, [ping], moment) == "+PONG\r\n" && StoreAfter(store, [ping], moment) == store
    ensures AnswerTo(store, [ping, message], moment) == BulkString(message)
    ensures StoreAfter(store, [ping, message], moment) == store
  {
    VerbSpelled(ping, PingVerb);
    hide VerbOf, ToUpper, Spells, BulkString;
  }

  lemma SaveAnswers(store: Store, save: string, moment: Moment)
    requires Spells(save, "SAVE")
    ensures StoreAfter(store, [save], moment) == store
    ensures AnswerTo(store, [save], moment) ==
            if moment.saveFailure.None? then "+OK\r\n"
            else "-" + ("ERR persistence failure: " + moment.saveFailure.value) + "\r\n"
  {
    VerbSpelled(save, SaveVerb);
    hide VerbOf, ToUpper, Spells;
  }

  // ------------------------------------------------------------------ writes

  lemma SetAnswers(store: Store, set_: string, key: string, value: string, moment: Moment)
    requires Spells(set_, "SET")
    ensures AnswerTo(store, [set_, key, value], moment) == "+OK\r\n"
    ensures StoreAfter(store, [set_, key, value], moment) == store[key := Entry(value, None)]
  {
    VerbSpelled(set_, SetVerb);
    hide VerbOf, ToUpper, Spells;
  }

  lemma DelAnswers(store: Store, del: string, key: string, moment: Moment)
    requires Spells(del, "DEL")
    ensures AnswerTo(store, [del, key], moment) ==
            if IsLive(store, key, moment.tick.now) then ":1\r\n" else ":0\r\n"
    ensures StoreAfter(store, [del, key], moment) == store - {key}
  {
    VerbSpelled(del, DelVerb);
    SmallIntegers();
    hide VerbOf, ToUpper, Spells, IntegerReply;
  }

  /** After DEL, GET finds nothing, at whatever moment. */
  lemma DelThenGet(store: Store, del: string, get: string, key: string, moment: Moment, later: Moment)
    requires Spells(del, "DEL") && Spells(get, "GET")
    ensures AnswerTo(StoreAfter(store, [del, key], moment), [get, key], later) == "$-1\r\n"
  {
    DelAnswers(store, del, key, moment);
    GetAnswers(store - {key}, get, key, later);
    hide AnswerTo, StoreAfter, Spells;
  }

  /** EXPIRE answers 1 whatever it finds, and gives a key that is there its deadline. */
  lemma ExpireAnswers(store: Store, expire: string, key: string, span: string, n: int, moment: Moment)
    requires Spells(expire, "EXPIRE") && FromChars(span) == Some(n)
    ensures AnswerTo(store, [expire, key, span], moment) == ":1\r\n"
    ensures StoreAfter(store, [expire, key, span], moment) ==
            if key in store then store[key := Entry(store[key].value, Some(moment.tick.now + n * SECOND))] else store
  {
    VerbSpelled(expire, ExpireVerb);
    SmallIntegers();
    hide VerbOf, ToUpper, Spells, IntegerReply, FromChars;
  }

  /** At the same instant TTL then answers the number given, and GET still finds the value. */
  lemma ExpireThenTtl(store: Store, expire: string, ttl: string, get: string, key: string, span: string, n: int,
                      moment: Moment)
    requires Spells(expire, "EXPIRE") && Spells(ttl, "TTL") && Spells(get, "GET") && FromChars(span) == Some(n)
    requires n > 0 && IsLive(store, key, moment.tick.now) && moment.tick.later == moment.tick.now
    ensures var t := StoreAfter(store, [expire, key, span], moment);
            && AnswerTo(t, [ttl, key], moment) == IntegerReply(n)
            && AnswerTo(t, [get, key], moment) == BulkString(store[key].value)
  {
    ExpireAnswers(store, expire, key, span, n, moment);
    var t := StoreAfter(store, [expire, key, span], moment);
    hide AnswerTo, StoreAfter, Spells, IntegerReply, BulkString, FromChars;
    SecondsAhead(moment.tick.now, n);
    var left := TtlAnswers(t, ttl, key, moment);
    GetAnswers(t, get, key, moment);
    SameSeconds(left, n);
  }

  lemma SecondsAhead(now: int, n: int)
    ensures n > 0 <==> now < now + n * SECOND
  {
  }

  lemma SameSeconds(left: int, n: int)
    requires left * SECOND <= n * SECOND < (left + 1) * SECOND
    ensures left == n
  {
  }

  /** A span that is not positive ends the key at once. */
  lemma ExpireAtOnce(store: Store, expire: string, ttl: string, get: string, key: string, span: string, n: int,
                     moment: Moment)
    requires Spells(expire, "EXPIRE") && Spells(ttl, "TTL") && Spells(get, "GET") && FromChars(span) == Some(n)
    requires n <= 0 && IsLive(store, key, moment.tick.now) && moment.tick.now <= moment.tick.later
    ensures var t := StoreAfter(store, [expire, key, span], moment);
            AnswerTo(t, [ttl, key], moment) == ":-2\r\n" && AnswerTo(t, [get, key], moment) == "$-1\r\n"
  {
    ExpireAnswers(store, expire, key, span, n, moment);
    var t := StoreAfter(store, [expire, key, span], moment);
    hide AnswerTo, StoreAfter, Spells, IntegerReply, BulkString, FromChars;
    SecondsAhead(moment.tick.now, n);
    var left := TtlAnswers(t, ttl, key, moment);
    GetAnswers(t, get, key, moment);
  }

  datatype Command = Command(arguments: seq<string>, moment: Moment)

  function StoreAfterAll(store: Store, run: seq<Command>): Store
    decreases |run|
  {
    if run == [] then store else StoreAfterAll(StoreAfter(store, run[0].arguments, run[0].moment), run[1..])
  }

  /** The command is no SET, DEL or EXPIRE of this key. */
  predicate Spares(arguments: seq<string>, key: string) {
    |arguments| >= 2 && arguments[1] == key ==>
      !Spells(arguments[0], "SET") && !Spells(arguments[0], "DEL") && !Spells(arguments[0], "EXPIRE")
  }

  predicate Holds(store: Store, key: string, value: string) { key in store && store[key] == Entry(value, None) }

  lemma SparedKeyStays(store: Store, command: Command, key: string, value: string)
    requires Holds(store, key, value) && Spares(command.arguments, key)
    ensures Holds(StoreAfter(store, command.arguments, command.moment), key, value)
  {
    if command.arguments != [] {
      VerbSpelled(command.arguments[0], SetVerb);
      VerbSpelled(command.arguments[0], DelVerb);
      VerbSpelled(command.arguments[0], ExpireVerb);
    }
    hide VerbOf, ToUpper, Spells, FromChars, LazyAnswer, OtherReply, AnswerTo;
  }

  lemma {:induction false} SparedKeyStaysThroughout(store: Store, run: seq<Command>, key: string, value: string)
    requires Holds(store, key, value) && forall i :: 0 <= i < |run| ==> Spares(run[i].arguments, key)
    ensures Holds(StoreAfterAll(store, run), key, value)
    decreases |run|
  {
    if run != [] {
      SparedKeyStays(store, run[0], key, value);
      hide Holds, StoreAfter, Spares;
      SparedKeyStaysThroughout(StoreAfter(store, run[0].arguments, run[0].moment), run[1..], key, value);
    }
  }

  /** After SET, and whatever commands follow that do not write the key, GET answers the value. */
  lemma SetThenGet(store: Store, set_: string, get: string, key: string, value: string, moment: Moment,
                   run: seq<Command>, later: Moment)
    requires Spells(set_, "SET") && Spells(get, "GET")
    requires forall i :: 0 <= i < |run| ==> Spares(run[i].arguments, key)
    ensures var after := StoreAfterAll(StoreAfter(store, [set_, key, value], moment), run);
            AnswerTo(after, [get, key], later) == BulkString(value)
  {
    SetAnswers(store, set_, key, value, moment);
    var t := StoreAfter(store, [set_, key, value], moment);
    SparedKeyStaysThroughout(t, run, key, value);
    GetAnswers(StoreAfterAll(t, run), get, key, later);
    hide AnswerTo, StoreAfter, StoreAfterAll, Spares, Spells, BulkString;
  }

  // ------------------------------------------------------------------ errors

  /** A command that the server can carry out. */
  predicate WellFormed(arguments: seq<string>, moment: Moment) {
    1 <= |arguments| <= MAX_ARGUMENTS
    && (var name, count := arguments[0], |arguments|;
        || (Spells(name, "PING") && count <= 2)
        || (Spells(name, "SET") && count == 3)
        || (Spells(name, "GET") && count == 2)
        || (Spells(name, "DEL") && count == 2)
        || (Spells(name, "EXISTS") && count == 2)
        || (Spells(name, "EXPIRE") && count == 3 && FromChars(arguments[2]).Some?)
        || (Spells(name, "TTL") && count == 2)
        || (Spells(name, "SAVE") && count == 1 && moment.saveFailure.None?))
  }

  lemma NamesTellVerbs(name: string)
    ensures Spells(name, "PING") <==> VerbOf(ToUpper(name)).PingVerb?
    ensures Spells(name, "SET") <==> VerbOf(ToUpper(name)).SetVerb?
    ensures Spells(name, "GET") <==> VerbOf(ToUpper(name)).GetVerb?
    ensures Spells(name, "DEL") <==> VerbOf(ToUpper(name)).DelVerb?
    ensures Spells(name, "EXISTS") <==> VerbOf(ToUpper(name)).ExistsVerb?
    ensures Spells(name, "EXPIRE") <==> VerbOf(ToUpper(name)).ExpireVerb?
    ensures Spells(name, "TTL") <==> VerbOf(ToUpper(name)).TtlVerb?
    ensures Spells(name, "SAVE") <==> VerbOf(ToUpper(name)).SaveVerb?
  {
    hide VerbOf, ToUpper, Spells;
    VerbSpelled(name, PingVerb);
    VerbSpelled(name, SetVerb);
    VerbSpelled(name, GetVerb);
    VerbSpelled(name, DelVerb);
    VerbSpelled(name, ExistsVerb);
    VerbSpelled(name, ExpireVerb);
    VerbSpelled(name, TtlVerb);
    VerbSpelled(name, SaveVerb);
  }

  /** The same, told by the verb. */
  predicate Fits(verb: Verb, arguments: seq<string>, moment: Moment)
    requires arguments != []
  {
    match verb
    case PingVerb => |arguments| <= 2
    case SetVerb => |arguments| == 3
    case ExpireVerb => |arguments| == 3 && FromChars(arguments[2]).Some?
    case SaveVerb => |arguments| == 1 && moment.saveFailure.None?
    case OtherVerb => false
    case _ => |arguments| == 2
  }

  lemma WellFormedByVerb(arguments: seq<string>, moment: Moment)
    requires arguments != []
    ensures WellFormed(arguments, moment) <==>
              |arguments| <= MAX_ARGUMENTS && Fits(VerbOf(ToUpper(arguments[0])), arguments, moment)
  {
    NamesTellVerbs(arguments[0]);
    hide VerbOf, ToUpper, Spells, FromChars;
  }

  predicate IsErrorReply(reply: Dispatching.Reply) {
    reply.WrongArity? || reply.InvalidExpireTime? || reply.PersistenceFailure? || reply.UnknownCommand?
    || reply.Malformed?
  }

  lemma ErrorsAreMarked(reply: Dispatching.Reply)
    ensures ReplyText(reply) != "" && (ReplyText(reply)[0] == '-' <==> IsErrorReply(reply))
  {
    hide ErrorText, PrintInt;
  }

  /** An error is answered exactly when the command cannot be carried out, and then the store stays as it was. */
  lemma ErrorsExactly(store: Store, arguments: seq<string>, moment: Moment)
    ensures AnswerTo(store, arguments, moment) != ""
    ensures AnswerTo(store, arguments, moment)[0] == '-' <==> !WellFormed(arguments, moment)
    ensures !WellFormed(arguments, moment) ==> StoreAfter(store, arguments, moment) == store
  {
    ErrorsAreMarked(ServeCommand(store, arguments, moment).reply);
    hide VerbOf, ToUpper, FromChars, ReplyText, ExecuteCommand, Fits;
    if arguments != [] {
      WellFormedByVerb(arguments, moment);
      hide WellFormed;
      ErrorsByVerb(store, arguments, moment);
    }
  }

  lemma ErrorsByVerb(store: Store, arguments: seq<string>, moment: Moment)
    requires arguments != []
    ensures var command := ToUpper(arguments[0]);
            var effect := ExecuteCommand(store, command, arguments[1..], moment);
            && (IsErrorReply(effect.reply) <==> !Fits(VerbOf(command), arguments, moment))
            && (IsErrorReply(effect.reply) ==> effect.store == store)
  {
    hide VerbOf, ToUpper, FromChars, LazyStore, LazyAnswer;
  }

  function SmallChar(c: char): char { if 'A' <= c <= 'Z' then (c as int + 32) as char else c }

  /** The name in small letters. */
  function Small(name: string): string {
    seq(|name|, i requires 0 <= i < |name| => SmallChar(name[i]))
  }

  lemma SmallName(verb: Verb)
    requires !verb.OtherVerb?
    ensures LowerName(verb) == Small(Word(verb))
  {
  }

  lemma SmallOfCapitals(name: string)
    ensures Small(ToUpper(name)) == Small(name)
  {
  }

  /** The name spells none of the server's words. */
  predicate Unknown(name: string) {
    !Spells(name, "PING") && !Spells(name, "SET") && !Spells(name, "GET") && !Spells(name, "DEL")
    && !Spells(name, "EXISTS") && !Spells(name, "EXPIRE") && !Spells(name, "TTL") && !Spells(name, "SAVE")
  }

  lemma UnknownByVerb(name: string)
    ensures Unknown(name) <==> VerbOf(ToUpper(name)).OtherVerb?
    ensures !Unknown(name) ==> LowerName(VerbOf(ToUpper(name))) == Small(name)
  {
    NamesTellVerbs(name);
    hide VerbOf, ToUpper, Spells, Small, LowerName, Word;
    if !VerbOf(ToUpper(name)).OtherVerb? {
      VerbHasItsWord(ToUpper(name));
      SmallName(VerbOf(ToUpper(name)));
      SmallOfCapitals(name);
    }
  }

  /** An unknown command is quoted in capitals. */
  lemma UnknownAnswers(store: Store, arguments: seq<string>, moment: Moment)
    requires 1 <= |arguments| <= MAX_ARGUMENTS && Unknown(arguments[0])
    ensures AnswerTo(store, arguments, moment) == "-" + ("ERR unknown command '" + ToUpper(arguments[0]) + "'") + CRLF
  {
    UnknownByVerb(arguments[0]);
    hide VerbOf, ToUpper, Unknown, FromChars;
  }

  /** A wrong number of arguments names the command in small letters. */
  lemma ArityAnswers(store: Store, arguments: seq<string>, moment: Moment)
    requires 1 <= |arguments| <= MAX_ARGUMENTS && !Unknown(arguments[0]) && !WellFormed(arguments, moment)
    requires !(Spells(arguments[0], "SAVE") && |arguments| == 1)
    requires !(Spells(arguments[0], "EXPIRE") && |arguments| == 3)
    ensures AnswerTo(store, arguments, moment) ==
            "-" + ("ERR wrong number of arguments for '" + Small(arguments[0]) + "'") + CRLF
  {
    var name := arguments[0];
    UnknownByVerb(name);
    WellFormedByVerb(arguments, moment);
    VerbSpelled(name, SaveVerb);
    VerbSpelled(name, ExpireVerb);
    hide VerbOf, ToUpper, Unknown, WellFormed, Spells, Small, LowerName, FromChars;
    assert ServeCommand(store, arguments, moment).reply == WrongArity(VerbOf(ToUpper(name)));
  }

  lemma SpanAnswers(store: Store, arguments: seq<string>, moment: Moment)
    requires |arguments| == 3 && Spells(arguments[0], "EXPIRE") && FromChars(arguments[2]).None?
    ensures AnswerTo(store, arguments, moment) == "-" + "ERR invalid expire time" + CRLF
  {
    VerbSpelled(arguments[0], ExpireVerb);
    hide VerbOf, ToUpper, Spells, FromChars;
    assert ServeCommand(store, arguments, moment).reply == InvalidExpireTime;
  }

  /** No arguments, or too many, are refused before any name is looked at. */
  lemma CountErrors(store: Store, arguments: seq<string>, moment: Moment)
    requires arguments == [] || |arguments| > MAX_ARGUMENTS
    ensures AnswerTo(store, arguments, moment) ==
            "-" + ("ERR " + if arguments == [] then "Empty command" else "Command too large") + CRLF
    ensures StoreAfter(store, arguments, moment) == store
  {
  }

  /** Whatever does not begin like an array is refused; so is every error text that the framer hands on. */
  lemma OthersThanArraysAnswer(store: Store, request: string, fault: Framing.Fault, moment: Moment)
    ensures request == Framing.FaultReply(fault) ==> request != "" && request[0] != '*'
    ensures request != "" && request[0] != '*' ==>
              var effect := ServeRequest(store, request, moment);
              effect.store == store
              && ReplyText(effect.reply) == "-" + ("ERR " + "Only RESP arrays are supported") + CRLF
  {
    FramerChunks.FaultsAreVisible(fault);
    hide Framing.FaultReply, ParseArray;
  }
}
