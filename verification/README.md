# KoshDB, modelled and proved in Dafny

KoshDB is a small Redis-like server. This project models the four parts of it that are hard to get right and proves
what they promise, and where they do not keep a promise exactly when they do.

* **The RESP pipeline.** One encoder, an incremental framer over a growing input buffer, a strict parser, a looser
  decoder for log records and the client's reply framer (`Text`, `Encoding`, `RespParser`, `Framer`, `FramerChunks`,
  `FramerFaults`, `LogRecord`, `RequestGrammar`, `DecoderAgreement`, `ReplyFramer`). Main results: how the framer
  behaves when its input is cut anywhere or malformed, which texts each decoder accepts, and round trips.
* **The server.** The dispatcher as a transition function and as the object that drives the parser and the database
  (`Dispatcher`), what each command answers in the bytes a client sees (`DispatcherLaws`, `DispatcherReplies`), the read
  and write handlers over arbitrary `recv` and `send` answers (`Server`, `ServerHandlers`), and whole runs with any number of connections refined down to one list of commands executed one by
  one (`ServerRefinement`), and joined with the disk (`DurableServer`).
* **The store.** Lazily expiring keys against a store that drops a key the instant it expires (`Database`,
  `LazyExpiry`).
* **Persistence.** The binary snapshot, the loops that write it, saving as a protocol over a disk that forgets, and
  recovery from snapshot and log (`Snapshot`, `SnapshotWriter`, `SnapshotCrash`, `SnapshotSave`, `Replay`,
  `DispatcherLog`).
* **The thread pool.** Mutex, condition variable, notification outside the lock and draining shutdown, as a machine
  with a program counter for every worker and every calling thread, spurious wakeups included (`ThreadPool`), what all
  its interleavings keep and come to (`ThreadPoolSafety`, `ThreadPoolProgress`), and the code of `worker_loop`,
  `enqueue` and `shutdown`, each with the other threads running between its steps (`ThreadPoolObject`).

Bytes are characters of a `string`. Where `size_t` sums matter a lemma takes its texts to be no longer than the
`max_size` of a `std::string`, 2^63 - 2 bytes (`Text.STRING_MAX`). What comes from outside is a parameter: the answers of `recv`, `send`, `write`,
`fsync` and `rename`, the readings of the clock, the order in which a hash table is walked, the fate of a SAVE.
Code that changes state step by step is a method, in a class where the source has one; each such method is proved
against a function, and the properties are lemmas about that function.

Five of the code's promises turn out not to hold everywhere; for each there is a concrete counterexample and a
condition that is both sufficient and necessary.

* Cutting the framer's input is harmless exactly when the bytes so far do not make it leave its loop on an error
  (`FramerChunks.ChunkIndependentExactly`, `FramerChunks.LateLineEnd`).
* A request that the framer cuts off is one the parser accepts exactly when it has 1 to 1024 arguments and no number
  in it exceeds a `long long` (`DecoderAgreement.EveryCutIsParsed`); a length near 2^64 wraps around, and the framer
  hands on a request without its payload (`FramerChunks.LengthWrapsToNothing`).
* The lazy store is the eager one exactly when no EXPIRE meets a dead key still in memory
  (`LazyExpiry.RunAgreesExactly`, `LazyExpiry.ProbesAgreeExactly`, `LazyExpiry.ExpireRevivesTheDead`).
* Replaying accepted writes follows the dispatcher exactly when no write that changes the store is spelled in mixed
  case (`DispatcherLog.MirroredExactly`, `DispatcherLog.MixedCaseIsLost`).
* The client collects the reply to a command from any chunks exactly when the reply keeps within 1 MiB and the command
  is neither an unknown one whose name holds a line end nor a SAVE that fails with a message that holds one
  (`DispatcherReplies.CommandIsAnswered`, `DispatcherReplies.NameWithLineEnd`).

Recovery from the log is stated as the code has it, against its evident intent: a record is cut at every CRLF, so no
log changes the database (`Replaying.LogBytesChangeNothing`), exactly those logs are accepted whose every line
announces an array of no arguments (`Replaying.LogIsAcceptedExactly`), and a log of real commands is accepted only when
it is empty (`Replaying.CommandLogIsAcceptedExactly`).

## Model

| member | source | states |
|---|---|---|
| Text.FindCrlfIsFirst | src/server.cpp:413-414 | the line-end search finds a CRLF exactly when one is there, and the first one |
| Text.FindCrlfStable | src/server.cpp:428-433 | a line end once found stays the first one whatever bytes are appended |
| Text.ParseDecimal | src/server.cpp:40-66 | the framer's digit loop accepts exactly non-empty digit texts and computes their value modulo 2^64 |
| Text.PrintThenDecimal | src/main_cli.cpp:84-90 | decimal printing followed by reading is the identity on every natural number |
| Text.PrintedNumbersParse | src/main_cli.cpp:84-90 | a printed number is read back by the framer's and by the parser's conversion, each up to the width of its type |
| Text.PrintedIntegersParse | src/resp.cpp:184-186 | a printed integer from -2^63 to 2^63 - 1, its sign included, is read back as itself |
| Text.LooseNumbersParse | src/persistence.cpp:209-251 | `stoll` reads a number behind any blanks and an optional sign, whatever follows it but a digit, and reads nothing where no digit follows them |
| Text.FramerNumbersAgree | src/server.cpp:40-66 | on any text the framer's conversion and `from_chars` give the same number, except that only the second takes a minus sign and refuses what does not fit |
| Text.StollExtendsFromChars | src/persistence.cpp:209-251 | whatever `from_chars` accepts whole, `stoll` reads as the same number |
| Encoding.EncodeResp | src/main_cli.cpp:83-96 | the loop that grows one string computes header plus bulk strings in order |
| Encoding.CommandAt | src/main_cli.cpp:83-96 | where the header, every bulk string and the end of an encoded command lie, although payloads may hold CRLF, `*` or `$` |
| RespParsing.RespParser.constructor | src/resp.cpp:8-9 | a new parser has no parts, no error and its cursor at the start |
| RespParsing.RespParser.ReadLine | src/resp.cpp:16-29 | hands out the text up to the first CRLF at or after the cursor and moves past it; without one sets the error and stays |
| RespParsing.RespParser.ParseBulkString | src/resp.cpp:31-83 | succeeds exactly on a well-formed bulk string at the cursor, with its payload and the position after it; otherwise reports which of six rules was broken and leaves the cursor behind what it had read |
| RespParsing.RespParser.ParseCount | src/resp.cpp:86-120 | accepts exactly a header line with a count of 1 to 1024, or reports the first rule broken |
| RespParsing.RespParser.ParseArrayAtStart | src/resp.cpp:85-133 | reads the count and then that many bulk strings, or reports the first error met |
| RespParsing.RespParser.Parse | src/resp.cpp:135-162 | accepts exactly one whole array of 1 to 1024 bulk strings and nothing after it, from any earlier state of the object |
| RespParsing.EncodeParseRoundTrip | src/resp.cpp:31-162 | parsing an encoded command gives back its arguments for every list of 1 to 1024 byte strings; the empty list and longer lists give their two errors |
| RequestGrammar.StrictlyAccepted | src/resp.cpp:31-162 | the strict parser returns these values if and only if the text is an asterisk line announcing their number, 1 to 1024, followed by their bulk strings and nothing else, each with a header that `from_chars` reads as its length |
| RequestGrammar.LooselyAccepted | src/persistence.cpp:183-301 | the log decoder returns these values if and only if the text is such an array with headers that `stoll` reads so, of up to 1024 strings of up to 512 KiB |
| RequestGrammar.BytesBehindAreRefused | src/resp.cpp:155-159 | an array with anything behind it is refused by both decoders, for that reason |
| Framing.ExtractRequests | src/server.cpp:395-545 | the erasing loop hands on the cuts of its specification in order and leaves its rest in the buffer, on all three error exits too |
| Framing.ScanArgument | src/server.cpp:457-530 | one turn of the argument loop in `size_t` arithmetic: complete, incomplete, or which malformed case and how many bytes it costs, a length that wraps around included |
| Framing.ScanArguments | src/server.cpp:451-531 | the argument loop steps over the announced number of bulk strings or ends with the first that is incomplete or malformed |
| FramerChunks.FrameStepStable | src/server.cpp:400-541 | bytes that arrive later never change a request already taken or replaced, nor the kind of error that stops the loop |
| FramerChunks.LengthWrapsToNothing | src/server.cpp:505-530 | a length of 2^64 - 2 wraps around to the end of its own line, so the framer takes a request that lacks its payload |
| FramerChunks.ChunkIndependence | src/server.cpp:395-545 | if the first call does not leave on an error, two calls on a cut input give what one call on the whole gives, for arbitrary bytes |
| FramerChunks.StoppedStays | src/server.cpp:462-535 | an error exit is met again with the same requests before it, however much follows |
| FramerChunks.ChunkDependence | src/server.cpp:462-535 | after an error exit some continuation makes two calls give other requests than one |
| FramerChunks.LateLineEnd | src/server.cpp:462-478 | a bad bulk string cut before its line end: one call drops the line end, two calls hand it on as a request |
| FramerChunks.ChunkIndependentExactly | src/server.cpp:395-545 | cutting after `a` is invisible for every continuation if and only if the call on `a` did not leave on an error |
| FramerChunks.LeftoverIsSuffix | src/server.cpp:424-541 | what stays in the buffer is always a suffix of the input |
| FramerChunks.Conservation | src/server.cpp:420-541 | requests handed on plus leftover equal the input if and only if no malformed request was met |
| FramerChunks.CommandIsTaken | src/server.cpp:428-541 | a buffer that begins with an encoded command loses exactly that command |
| FramerChunks.PartOfCommandWaits | src/server.cpp:457-511 | a proper prefix of an encoded command is kept whole and gives no request |
| FramerChunks.StreamIsCutAtCommands | src/server.cpp:395-545 | a stream of encoded commands, cut anywhere, gives its whole commands one by one and keeps the cut one |
| FramerFaults.LineIsTaken | src/server.cpp:412-426 | a line that does not begin an array is a request of its own |
| FramerFaults.BadHeaderIsReplaced | src/server.cpp:437-449 | an array header without a number is replaced by its error and framing goes on behind its line |
| FramerFaults.BadMarkEndsTheCall | src/server.cpp:462-478 | after any number of good bulk strings, something else ends the call with its error and costs everything up to its line end, or all there is |
| FramerFaults.BadLengthEndsTheCall | src/server.cpp:490-503 | a length that is no number ends the call with its error; the rest begins behind its line |
| FramerFaults.BadTerminatorEndsTheCall | src/server.cpp:513-528 | a payload without its line end ends the call with its error; the rest begins right behind the payload |
| DecoderAgreement.FramedRequestIsParsed | src/resp.cpp:85-162 | the array the framer takes off the front of any buffer is accepted by the strict parser if and only if its count is 1 to 1024 and no number in it exceeds a `long long`; the arguments are the payloads the framer stepped over |
| DecoderAgreement.EveryCutIsParsed | src/server.cpp:395-545 | the same for every request cut from any buffer, at whatever place; a request that does not begin with an asterisk is never accepted |
| DecoderAgreement.ParsedRequestIsFramed | src/server.cpp:428-541 | a request the strict parser accepts is framed as that one request with nothing left if and only if no length header has a minus sign (the parser takes `-0`) |
| DecoderAgreement.ParsedRequestIsLogged | src/persistence.cpp:183-301 | the log decoder gives the strict parser's arguments if none is above 512 KiB, and otherwise refuses the length |
| LogRecords.ReadArgument | src/persistence.cpp:229-291 | the body of the argument loop: payload and next cursor, or which rule was broken |
| LogRecords.ParseRespRequest | src/persistence.cpp:183-301 | the cursor loop computes the decoding of a record, including the error thrown |
| LogRecords.OneLineRecord | src/persistence.cpp:183-301 | a record whose only CRLF is at its end decodes to no arguments if its number reads as zero, and is refused otherwise |
| ReplyFraming.FrameItem | src/main_cli.cpp:233-264 | one turn of the item loop: the position after the item exactly when all its bytes are there |
| ReplyFraming.FrameArray | src/main_cli.cpp:213-271 | the array loop finds the end of the reply exactly when all items are there |
| ReplyFraming.ReceiveResp | src/main_cli.cpp:124-274 | over any answers of `recv` the loop ends with the first complete reply, an error, or waiting |
| ReplyFraming.NextAnswer | src/main_cli.cpp:130-273 | what one more answer makes of a waiting client: still waiting, the reply, the limit, a closed or a failed connection |
| ReplyFraming.FirstOutcomeStands | src/main_cli.cpp:130-273 | once the client has returned no later answer matters |
| ReplyFraming.BulkReplyDelimits | src/main_cli.cpp:178-207 | a bulk reply is taken for complete at its last byte and at no earlier one, whatever its payload |
| ReplyFraming.ArrayReplyDelimits | src/main_cli.cpp:208-272 | the same for an encoded array of bulk strings |
| ReplyFraming.LineReplyDelimits | src/main_cli.cpp:167-177 | a one-line reply is delimited by its last byte if and only if its text holds no CRLF |
| ReplyFraming.NullReplyDelimits | src/resp.cpp:193-195 | the null reply is taken for complete at its last byte only |
| ReplyFraming.ReplyArrivesWhole | src/main_cli.cpp:124-274 | in any chunks the client waits on every proper prefix of such a reply of at most 1 MiB and returns exactly the reply when it is there |
| ReplyFraming.CollectedExactly | src/main_cli.cpp:124-274 | a text is collected from any chunks if and only if it delimits itself and has at most 1 MiB |
| ReplyFraming.BrokenOffReply | src/main_cli.cpp:138-149 | a connection closed, or failing, in the middle of a reply is reported as that and gives no reply |
| ReplyFraming.ShownBulk | src/main_cli.cpp:295-316 | a bulk reply is shown as its payload in quotes, line ends included |
| ReplyFraming.ShownLine | src/main_cli.cpp:276-293 | a simple string is shown bare, an error with its marker |
| ReplyFraming.IntegerReplyReads | src/resp.cpp:184-186 | between the mark and the line end of an integer reply stands a text that reads as the integer |
| ReplyFraming.IntegerRepliesDiffer | src/resp.cpp:184-186 | no two integers have the same reply |
| ReplyFraming.ShownInteger | src/main_cli.cpp:291-293 | an integer is shown with its marker and a text that reads as it |
| ReplyFraming.ShownNull | src/main_cli.cpp:302-304 | the null reply is shown as nil |
| ReplyFraming.ShownOtherwise | src/main_cli.cpp:276-316 | an empty response and a bulk header without line end are shown as errors, anything else as it is |
| Databases.Database.RemoveIfExpired | src/database.cpp:14-20 | drops the key exactly when it is present and past its deadline, and nothing else |
| Databases.Database.Set | src/database.cpp:22-30 | stores the value without a deadline, forgetting an earlier one |
| Databases.Database.Get | src/database.cpp:32-44 | the value of a live key, purging a dead one |
| Databases.Database.Del | src/database.cpp:46-50 | removes the key and reports whether it was live |
| Databases.Database.Exists | src/database.cpp:52-56 | whether the key is live, purging a dead one |
| Databases.Database.Expire | src/database.cpp:58-71 | gives a present key, dead or alive, the deadline now plus the seconds |
| Databases.Database.Ttl | src/database.cpp:73-93 | -2 for no live key, -1 for no deadline, else the whole seconds left at the second clock reading, never below 0 |
| Databases.Database.Entries | src/database.cpp:95-114 | the entries not expired at their own clock reading, in the order of the walk |
| Databases.Database.RestoreSet | src/database.cpp:116-124 | stores the value without a deadline |
| Databases.Database.RestoreDelete | src/database.cpp:126-130 | removes the key whether live or dead |
| LazyExpiry.SameAnswer | src/database.cpp:5-93 | stores that agree on live keys answer every operation alike |
| LazyExpiry.StepAgreesExactly | src/database.cpp:5-93 | one operation keeps the lazy store in agreement with the eager one if and only if it is no EXPIRE of positive seconds on a dead key in memory |
| LazyExpiry.LazyRefinesEager | src/database.cpp:5-93 | under a clock that never goes back, every answer of a run without such an EXPIRE is the eager store's |
| LazyExpiry.RunAgreesExactly | src/database.cpp:5-93 | the two stores agree after every operation of a run if and only if it holds no such EXPIRE |
| LazyExpiry.ProbesAgreeExactly | src/database.cpp:5-93 | a GET of each key as it is touched would be answered alike by both stores if and only if the run holds no such EXPIRE |
| LazyExpiry.ExpireRevivesTheDead | src/database.cpp:58-71 | a run of four operations in which GET answers a value that had expired |
| LazyExpiry.ReadsAreInvisible | src/database.cpp:32-93 | an extra GET, EXISTS or TTL, although it may delete a key, changes no later answer |
| LazyExpiry.TtlTimeline | src/database.cpp:73-93 | in any run that does not write the key, each TTL answer depends on the deadline and the clock alone |
| LazyExpiry.RemainingFalls | src/database.cpp:86-92 | the seconds left are the truncated span, never grow with the clock and are 0 from the deadline on |
| LazyExpiry.TtlNeverGrows | src/database.cpp:58-93 | after EXPIRE of n seconds and no later write, TTL answers are at most n, never grow, and once -2 stay -2 |
| Dispatching.EncodedCommandIsServed | src/command.cpp:58-81 | executing the encoding of a command is executing its arguments, error cases included |
| Dispatching.ParsedPartsAreNumbered | src/command.cpp:67-69 | the dispatcher's own test for an empty request never fires |
| Dispatching.CommandDispatcher.Execute | src/command.cpp:58-81 | the object that runs the parser and the database computes the transition function: new store and reply bytes, the parser's own message among them |
| Dispatching.CommandDispatcher.Run | src/command.cpp:83-218 | each branch has the effect and the reply of one database operation or of one error |
| DispatcherLaws.GetAnswers | src/command.cpp:115-130 | GET, in any mix of cases, answers the bulk of the value of a live key, and the null reply exactly for a key that is not live |
| DispatcherLaws.ExistsAnswers | src/command.cpp:145-156 | EXISTS answers `:1` exactly for live keys, otherwise `:0` |
| DispatcherLaws.TtlAnswers | src/command.cpp:179-188 | TTL answers `:-2` for a key that is not live, `:-1` for one without deadline, else the whole seconds left |
| DispatcherLaws.TtlMeansWhatItSays | src/command.cpp:179-188 | `:-2` is answered if and only if the key is not live, `:-1` if and only if it is live without a deadline |
| DispatcherLaws.PingAnswers | src/command.cpp:87-100 | PING answers `+PONG` or the bulk of its argument and leaves the store alone |
| DispatcherLaws.SaveAnswers | src/command.cpp:190-213 | SAVE answers `+OK` or the failure and leaves the store alone |
| DispatcherLaws.SetAnswers | src/command.cpp:102-113 | SET answers `+OK` and stores the value without a deadline |
| DispatcherLaws.SetThenGet | src/command.cpp:102-130 | after SET, and any commands that do not write the key, GET answers the value, at any moment |
| DispatcherLaws.DelAnswers | src/command.cpp:132-143 | DEL answers `:1` exactly for live keys and removes the key |
| DispatcherLaws.DelThenGet | src/command.cpp:115-143 | after DEL, GET answers null at any moment |
| DispatcherLaws.ExpireAnswers | src/command.cpp:158-177 | EXPIRE answers `:1` whatever it finds and gives a key that is there its deadline |
| DispatcherLaws.ExpireThenTtl | src/command.cpp:158-188 | after EXPIRE of n > 0 seconds on a live key, TTL at the same instant answers n and GET the value |
| DispatcherLaws.ExpireAtOnce | src/command.cpp:158-188 | a span that is not positive ends the key at once |
| DispatcherLaws.ErrorsExactly | src/command.cpp:83-218 | an error is answered if and only if the name, in any mix of cases, the number of arguments, the span or the save is not in order, and then the store is unchanged |
| DispatcherLaws.UnknownAnswers | src/command.cpp:215-217 | a name that spells none of the eight words is quoted in capitals |
| DispatcherLaws.ArityAnswers | src/command.cpp:97-194 | a wrong number of arguments is answered with the command's name in small letters |
| DispatcherLaws.SpanAnswers | src/command.cpp:166-172 | EXPIRE with a span that is no `long long` answers that it is invalid |
| DispatcherLaws.CountErrors | src/command.cpp:61-65 | no arguments, or more than 1024, are refused before any name is looked at |
| DispatcherLaws.OthersThanArraysAnswer | src/command.cpp:61-65 | whatever does not begin like an array, the framer's error texts among it, is answered with that error and changes nothing |
| DispatcherReplies.RepliesDelimitThemselves | src/command.cpp:83-218 | a reply delimits itself if and only if the outside text it quotes holds no CRLF |
| DispatcherReplies.QuotedByCommand | src/command.cpp:58-218 | that text holds a CRLF if and only if the command is an unknown one whose name holds one, or a SAVE whose failure message does |
| DispatcherReplies.NameWithLineEnd | src/command.cpp:215-217 | a command name holding CRLF gets a reply the client can take for complete too early |
| DispatcherReplies.CommandIsAnswered | src/main_cli.cpp:83-274 | a command encoded, framed alone, parsed and executed is answered as its arguments are, and the client collects the reply from any chunks if and only if the command is not one of those and the reply has at most 1 MiB |
| Serving.Server.constructor | src/server.cpp:70-81 | a server starts with an empty store and no connections |
| Serving.Server.AcceptClient | src/server.cpp:183-239 | a connection on any descriptor that is not open, used before or not, gets empty buffers; the others stay as they are |
| Serving.Server.CloseClient | src/server.cpp:241-254 | the connection and its buffers are gone, all else stays; a descriptor that is not open is left alone |
| Serving.Server.AppendInput | src/server.cpp:275-279 | the bytes received join the input buffer of this connection only |
| Serving.Server.EraseOutput | src/server.cpp:338-345 | the bytes sent leave the front of the output buffer of this connection only |
| Serving.Server.ExecuteRequests | src/server.cpp:551-556 | the loop executes the requests in order on one store and joins their replies |
| Serving.Server.ProcessClientBuffer | src/server.cpp:547-557 | whole requests leave the input buffer, their replies are appended to the output buffer |
| Serving.Server.HandleRead | src/server.cpp:256-319 | over any answers of `recv`, interruptions, end of file, errors and the 1 MiB limit included, the server ends in the state of its specification |
| Serving.Server.HandleWrite | src/server.cpp:321-365 | over any answers of `send` the output buffer loses from its front exactly what was sent, or the connection is closed |
| ServerHandlers.ReadLoopExactly | src/server.cpp:256-319 | the whole state after one call of the read handler, told by the answers: exactly the chunks before the first ending answer are taken in, up to the 1 MiB limit, the requests they complete are run and answered in order, and the connection is closed exactly on the limit, the end of the stream or an error |
| ServerHandlers.FeedIsOneCall | src/server.cpp:275-295 | the chunks give what one call of the framer on all their bytes gives, unless these stop it |
| ServerHandlers.ReadAnswersCommands | src/server.cpp:256-319 | for a client sending encoded commands in any chunks, the output buffer grows by the replies to the commands now whole, the rest waits, and nothing else changes |
| ServerRefinement.ReadLoopIsARun | src/server.cpp:256-319 | whatever the read handler does is a run of receive and close events, so the theorems about runs apply to it |
| ServerHandlers.WriteLoopExactly | src/server.cpp:321-365 | the whole state after one call of the write handler, told by the answers: exactly as many bytes leave the front of the output buffer, and have been sent, as the answers before the first ending one accept; the connection is closed exactly when, with bytes waiting, a call fails or takes nothing |
| ServerRefinement.WriteLoopIsARun | src/server.cpp:321-365 | whatever the write handler does is a run of send and close events, so the theorems about runs apply to it |
| ServerRefinement.InvStep | src/server.cpp:183-365 | every accept, receive, send and close keeps the log serial, each connection answered and its input framed |
| ServerRefinement.ServerIsSerial | src/server.cpp:256-557 | in every run the log is one serial execution leading to the present store; what an open connection was sent plus its output buffer are the replies to its own requests, and a closed one was sent a beginning of them; those requests are the framer's cuts of all its bytes in one call, unless these bytes stop the framer |
| ServerRefinement.ConnectionRefinement | src/server.cpp:256-557 | a client that sends encoded commands, split anyhow, has had exactly its fully received commands executed in order; the input buffer is a proper prefix of the next one |
| ServerRefinement.SizeCheckNeverFires | src/server.cpp:281-291 | with no encoded command above 1 MiB less 4095 bytes, no chunk closes the connection |
| ServerRefinement.LogEntryIsACommand | src/server.cpp:547-570 | each executed request is the next command of its own client |
| ServerRefinement.ServerRefinesCommands | src/server.cpp:256-570 | with all clients sending encoded commands, store and replies are those of one list of commands run one by one, an interleaving of the clients' lists |
| DurableServing.AnsweredSaveIsDurable | src/command.cpp:190-213 | a SAVE answered OK has made the entries of the store at that moment durable |
| DurableServing.AnsweredSaveSurvivesACrash | src/command.cpp:190-213 | in any run with any number of connections, after a SAVE was answered OK and until a later save renames, a crash at any moment followed by recovery gives exactly the entries live at that SAVE |
| Snapshots.NumberOfWord | src/persistence.cpp:146-155 | a 64-bit number is read back from its eight bytes |
| Snapshots.RecoverSnapshot | src/persistence.cpp:432-506 | restores the entries up to the end or the first error, which it reports; a missing file changes nothing, one that cannot be opened is an error |
| Snapshots.SnapshotRoundTrip | src/persistence.cpp:432-506 | a written snapshot, whatever follows it, is read back as its entries in order; with more than ten million entries it is refused before any is restored |
| Snapshots.SnapshotIsAcceptedExactly | src/persistence.cpp:432-506 | a file is accepted if and only if it begins with the snapshot of some at most ten million entries with no string above 512 KiB, and those are the entries read |
| Snapshots.HeaderIsJudgedExactly | src/persistence.cpp:451-490 | a file too short for the magic is truncated, one with another magic, another version or too high a count is refused as such, and nothing of it is restored |
| Snapshots.LongStringIsRefused | src/persistence.cpp:743-753 | a string above the limit is refused on its length alone, after the entries before it have been restored |
| Snapshots.TruncationIsDetected | src/persistence.cpp:432-506 | an accepted file cut anywhere before the last byte used is refused as truncated |
| Snapshots.SnapshotsArePrefixFree | src/persistence.cpp:601-658 | no snapshot is the beginning of another |
| Snapshots.SaveThenRecover | src/persistence.cpp:601-658 | saving at one instant and recovering into an empty store gives the entries live at that instant without deadlines, in whatever order the table was walked |
| Snapshots.SlowWalkIsBracketed | src/database.cpp:95-114 | when the clock moves during the walk, every key live at the end is saved, and only keys live at the start are |
| SnapshotWriting.WriteExact | src/persistence.cpp:36-69 | over any answers of `write`, the file gains a prefix of the data, and all of it exactly when the call returns |
| SnapshotWriting.WriteStringToFd | src/persistence.cpp:157-181 | the file gains a prefix of length and bytes, all of it exactly when the call returns; without a failing call it throws only above 512 KiB |
| SnapshotWriting.WriteSnapshotFile | src/persistence.cpp:601-658 | the temporary file always holds a prefix of the snapshot, and the whole of it, synced, when the call returns |
| SnapshotCrash.InvStep | src/persistence.cpp:586-673 | every step, exception and crash keeps each directory state a crash may bring back showing a complete synced snapshot, apart from the temporary file |
| SnapshotCrash.SnapshotIsAlwaysWhole | src/persistence.cpp:586-673 | at every point of every run `dump.rdb` is exactly the complete snapshot of the save that last renamed its file, or, if none has since the last return or crash, of the save that returned or was found then |
| SnapshotCrash.AbsentUntilARename | src/persistence.cpp:660-673 | while nothing has crashed, exceptions included, `dump.rdb` is absent if and only if no save has renamed its file |
| SnapshotCrash.PresentOnceReturned | src/persistence.cpp:660-673 | once a save has returned `dump.rdb` is there for good, whatever fails or crashes later |
| SnapshotCrash.CrashLeavesAWholeSnapshot | src/persistence.cpp:586-673 | a crash leaves the complete snapshot of the last save that returned or of one that has renamed since, whose rename may or may not survive |
| SnapshotCrash.ReturnedSaveIsDurable | src/persistence.cpp:660-673 | after a save has returned and until another renames, every crash leaves exactly its snapshot |
| SnapshotCrash.TruncatedFileIsNeverTheSnapshot | src/persistence.cpp:601-612 | the file opened with O_TRUNC is not one that any crash could make `dump.rdb` |
| SnapshotCrash.RecoveryAfterCrash | src/persistence.cpp:432-506 | recovery after a crash restores the entries of one of those saves |
| SnapshotSaving.AtomicallyReplaceSnapshot | src/persistence.cpp:660-673 | returns exactly when rename and directory sync succeed, and then the new snapshot is durable; a failed rename leaves the old file |
| SnapshotSaving.SaveSnapshot | src/persistence.cpp:586-599 | one call, however its system calls fail, is a run of the protocol; `dump.rdb` is as before or the whole new snapshot, durable if the call returns; it returns only if every call that is made once has succeeded and no string is oversized, and throws only if one of these fails |
| SnapshotSaving.SavedStoreSurvivesACrash | src/persistence.cpp:421-599 | after a returned save any crash, followed by recovery into an empty store, gives exactly the entries live when it was saved, without deadlines |
| Replaying.SnapshotPointDoesNotMatter | src/persistence.cpp:545-574 | replaying records over a snapshot gives what replaying them over nothing gives if and only if every snapshot key is written in the records |
| Replaying.RecordsReplay | src/persistence.cpp:545-574 | what a record named SET, set, DEL or del does, and that only these, with a wrong number of arguments, are refused |
| Replaying.RecoverAppendOnlyLog | src/persistence.cpp:508-584 | the byte loop throws exactly on the logs that are not acceptable, and the database is unchanged either way |
| Replaying.LogBytesChangeNothing | src/persistence.cpp:525-578 | on every byte log the loop leaves the store as it was |
| Replaying.FirstLineDecides | src/persistence.cpp:534-538 | a log whose first line is refused is refused with that error |
| Replaying.LogIsAcceptedExactly | src/persistence.cpp:525-578 | replay of a byte log succeeds if and only if no line, nor the rest, is above 512 KiB and every line is an asterisk and a number that reads as 0 |
| Replaying.CommandLogIsAcceptedExactly | src/persistence.cpp:534-538 | a log of commands is accepted if and only if none has an argument; one of 1 to 1024 arguments each, only if it is empty |
| Replaying.RealLogIsRefused | src/persistence.cpp:534-538 | a log that begins with a command in the format `append_command` writes is refused, and with which error |
| Replaying.Recover | src/persistence.cpp:421-430 | the store ends with the entries the snapshot held; the error is the snapshot's, or the log's when the snapshot had none |
| DispatcherLog.WriteIsMirroredExactly | src/command.cpp:102-143 | an accepted SET or DEL is never refused by replay, and has the same effect if and only if it is not a store-changing write in mixed case |
| DispatcherLog.MirroredExactly | src/persistence.cpp:545-574 | replay keeps up with a run without EXPIRE at every command if and only if no store-changing write is in mixed case |
| DispatcherLog.ReplayRebuildsTheStore | src/persistence.cpp:545-574 | replaying the accepted writes of such a run, named as replay knows them, gives the dispatcher's store |
| DispatcherLog.OneCaseRunIsRebuilt | src/command.cpp:73-80 | all-upper or all-lower names are names replay knows, so such a log rebuilds the store from nothing |
| DispatcherLog.MixedCaseIsLost | src/persistence.cpp:548-564 | `Set` changes the dispatcher's store and is skipped by replay |
| ThreadPools.WorkerCount | src/thread_pool.cpp:9-25 | as many workers as asked for between 1 and 16, two when none are asked for, 16 beyond |
| ThreadPoolSafety.ConservationStep | src/thread_pool.cpp:43-116 | every step keeps accepted jobs equal to taken followed by queued ones, and taken ones finished or in hand |
| ThreadPoolSafety.NoLostWakeupStep | src/thread_pool.cpp:43-95 | every step keeps the count of queued jobs covered while a worker sleeps |
| ThreadPoolSafety.ClosingStep | src/thread_pool.cpp:118-142 | every step keeps one thread past setting `stopping`, joined workers exited, and nobody asleep once it has notified all |
| ThreadPoolSafety.InvStep | src/thread_pool.cpp:43-143 | every step of any thread keeps the whole invariant, mutual exclusion included |
| ThreadPoolProgress.EveryJobOnceInOrder | src/thread_pool.cpp:43-95 | in every reachable state the accepted jobs are the taken ones in that order followed by the queue, each taken one is finished or in one worker's hands, and no worker has exited before `stopping` |
| ThreadPoolProgress.HistoryOnlyGrows | src/thread_pool.cpp:43-60 | jobs are taken and accepted only at the end of the history, and none is accepted after `stopping` |
| ThreadPoolProgress.ReturnedShutdownHasDrained | src/thread_pool.cpp:118-143 | when the shutdown that set `stopping` returns, every accepted job has finished and every worker has exited |
| ThreadPoolProgress.NoWakeupIsLost | src/thread_pool.cpp:43-95 | in every reachable state, nobody sleeps or the queue is no longer than the awake workers not running a job plus the callers about to notify |
| ThreadPoolProgress.QueueIsWatched | src/thread_pool.cpp:43-95 | no worker sleeps beside a queued job that no awake worker and no pending notification will reach |
| ThreadPoolProgress.NoSleepAfterStopping | src/thread_pool.cpp:79-84 | once `stopping` is set no worker goes back to sleep |
| ThreadPoolProgress.AtRestExactly | src/thread_pool.cpp:43-143 | no thread can move on its own if and only if all calls have returned, the queue is empty, every accepted job has finished and all workers sleep (or, after `stopping`, have exited): there is no deadlock |
| ThreadPoolProgress.StepDecreases | src/thread_pool.cpp:67-143 | every step other than a call lowers one measure; so does a spurious wakeup after `stopping` |
| ThreadPoolProgress.RunsAreBounded | src/thread_pool.cpp:67-143 | the length of any run is bounded by its start, its calls and its spurious wakeups before `stopping` |
| ThreadPoolProgress.ShutdownTerminates | src/thread_pool.cpp:118-143 | after `stopping`, without further calls, every run is finite and can end only where shutdown has returned, all workers have exited and every accepted job has finished |
| ThreadPoolObjects.ThreadPool.constructor | src/thread_pool.cpp:9-37 | starts the workers of the machine's start state |
| ThreadPoolObjects.ThreadPool.WaitForWork | src/thread_pool.cpp:79-84 | the wait loop, woken for a reason or for none, ends with the mutex held and a job or `stopping` seen |
| ThreadPoolObjects.ThreadPool.TakeJob | src/thread_pool.cpp:89-95 | takes the oldest job, or leaves the loop exactly when the queue is empty after `stopping` |
| ThreadPoolObjects.ThreadPool.WorkerLoop | src/thread_pool.cpp:67-116 | whatever the other threads do between its steps and whichever of its jobs throw, the loop is part of a run of the machine and is left only with `stopping` set and the queue empty |
| ThreadPoolObjects.ThreadPool.Enqueue | src/thread_pool.cpp:43-65 | the call is part of a run of the machine; when it returns, the job has been accepted or shutdown has begun, and an empty function is dropped |
| ThreadPoolObjects.ThreadPool.Shutdown | src/thread_pool.cpp:118-143 | the call is part of a run of the machine; a second caller returns at once, and when the first returns every accepted job has finished and all workers have exited |

## Left out

- ScanArgument: the read just before the buffer at src/server.cpp:36, when a length wraps `position + bulk_length` around to 2^64 - 1, is taken to give some byte; the outcome does not depend on it.
- ReadWord: numbers are eight bytes, least significant first, as on a little-endian machine; the source writes the machine's own order.
- Expire: does not model the overflow of `std::chrono` for deadlines beyond the clock's range.
- CloseClient: the text `-ERR request too large` that the source puts into a buffer it then destroys is not kept; the chunk that broke the limit does not count as received.
- ScanArguments: the argument loop of `extract_requests` and its body are methods of their own, so the erasing happens in the caller.
- ServerIsSerial: for a connection whose bytes stop the framer on an error it says that its requests ran serially and were answered, not which cuts they are, since these depend on the chunks.
- ServerRefinesCommands: the outcome of each SAVE is an outside parameter there; `DurableServing` ties it to the disk.
- SnapshotCrash: a synced file survives as it is, an unsynced one as arbitrary bytes, and after a crash the directory may be in any of the states since it was last synced; weaker file systems are not modelled.
- SnapshotCrash: the disk is a value that the steps replace; the file written through `write` is an object in `SnapshotWriter`, and `SaveSnapshot` joins the two.
- WorkerLoop: another thread's turn is a list of machine steps it tries, and the loop stops where the list is used up, inside a blocking call; `ShutdownTerminates` says how runs end.
- The thread pool's jobs return or throw and never call `shutdown`; a second caller of `shutdown` returns at once in the model as in the source. A job that calls `enqueue` is covered as one more calling thread.
- `worker_count`, `workers.clear()` and the destructor of the pool: easy members.
- Snapshots of more than ten million entries are written but refused on recovery; this is stated in the round trip, not repaired.
- `append_command` and `flush`: the dispatcher never appends, so no run connects the log file with the server.
- `send_all` and `read_exact`: loops like the one of `write_exact`, the second unused.
- `initialize`, `close`, log-file locking and the paths of the files: I/O without branching.
- TLS, authentication, replication, `poll`, socket options and console output: not wired into request processing, or foreign calls.
- The command-line client's `tokenize`, prompt and argument handling: there is no printer to pair the tokenizer with.
- Unused stream members `write_uint64` and `write_string`, benchmarks and integration tests: nothing further to state.
