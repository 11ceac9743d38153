/** Recovery at start-up: the snapshot first, then the append-only log. */
module Replaying {
  import opened Wrappers
  import opened Text
  import opened Encoding
  import opened Databases
  import opened Snapshots
  import opened LogRecords
  import opened FramerChunks

  datatype ReplayError = RecordTooLarge | Undecodable(cause: LogError) | InvalidSet | InvalidDel

  // ------------------------------------------------------- decoded records

  predicate IsSet(command: string) { command == "SET" || command == "set" }

  predicate IsDel(command: string) { command == "DEL" || command == "del" }

  /** Replaying one decoded record; unknown commands, GET among them, are skipped. */
  function ReplayRecord(store: Store, arguments: seq<string>): Result<Store, ReplayError> {
    if arguments == [] then Ok(store)
    else if IsSet(arguments[0]) then
      if |arguments| != 3 then Err(InvalidSet) else Ok(store[arguments[1] := Entry(arguments[2], None)])
    else if IsDel(arguments[0]) then
      if |arguments| != 2 then Err(InvalidDel) else Ok(store - {arguments[1]})
    else Ok(store)
  }

  function ReplayAll(store: Store, records: seq<seq<string>>): Result<Store, ReplayError>
    decreases |records|
  {
    if records == [] then Ok(store)
    else match ReplayRecord(store, records[0])
      case Err(error) => Err(error)
      case Ok(next) => ReplayAll(next, records[1..])
  }

  /** What each decoded record does, name by name; only a SET or DEL with a wrong number of arguments is refused. */
  lemma RecordsReplay(store: Store, name: string, key: string, value: string, record: seq<string>)
    ensures name == "SET" || name == "set" ==>
              ReplayRecord(store, [name, key, value]) == Ok(store[key := Entry(value, None)])
    ensures name == "DEL" || name == "del" ==> ReplayRecord(store, [name, key]) == Ok(store - {key})
    ensures record == [] || (record[0] != "SET" && record[0] != "set" && record[0] != "DEL" && record[0] != "del") ==>
              ReplayRecord(store, record) == Ok(store)
    ensures ReplayRecord(store, record).Err? <==>
              record != []
              && (((record[0] == "SET" || record[0] == "set") && |record| != 3)
                  || ((record[0] == "DEL" || record[0] == "del") && |record| != 2))
  {
  }

  /** The key a record writes. */
  function Written(arguments: seq<string>): set<string> {
    if |arguments| >= 2 && (IsSet(arguments[0]) || IsDel(arguments[0])) then {arguments[1]} else {}
  }

  function WrittenIn(records: seq<seq<string>>): set<string> {
    if records == [] then {} else Written(records[0]) + WrittenIn(records[1..])
  }

  /** The two stores may differ only on keys outside `touched`, where the second has none. */
  ghost predicate SameOn(a: Store, b: Store, base: Store, touched: set<string>) {
    forall key :: if key in touched || key !in base then (key in a <==> key in b) && (key in a ==> a[key] == b[key])
                  else key in a && a[key] == base[key] && key !in b
  }

  lemma ReplayRecordOver(a: Store, b: Store, base: Store, touched: set<string>, arguments: seq<string>)
    requires SameOn(a, b, base, touched)
    ensures ReplayRecord(a, arguments).Ok? == ReplayRecord(b, arguments).Ok?
    ensures ReplayRecord(a, arguments).Ok? ==>
              SameOn(ReplayRecord(a, arguments).value, ReplayRecord(b, arguments).value, base,
                     touched + Written(arguments))
  {
    hide IsSet, IsDel;
  }

  lemma {:induction false} ReplayAllOver(a: Store, b: Store, base: Store, touched: set<string>,
                                        records: seq<seq<string>>)
    requires SameOn(a, b, base, touched)
    ensures ReplayAll(a, records).Ok? == ReplayAll(b, records).Ok?
    ensures ReplayAll(a, records).Ok? ==>
              SameOn(ReplayAll(a, records).value, ReplayAll(b, records).value, base, touched + WrittenIn(records))
    decreases |records|
  {
    if records == [] {
      assert touched + {} == touched;
    } else {
      hide ReplayRecord, Written, SameOn;
      ReplayRecordOver(a, b, base, touched, records[0]);
      if ReplayRecord(a, records[0]).Ok? {
        ReplayAllOver(ReplayRecord(a, records[0]).value, ReplayRecord(b, records[0]).value, base,
                      touched + Written(records[0]), records[1..]);
        assert touched + Written(records[0]) + WrittenIn(records[1..]) == touched + WrittenIn(records);
      }
    }
  }

  /**
   * Where the snapshot was taken does not matter: replaying a log over it gives what replaying the log over nothing
   * gives, exactly when every key of the snapshot is written somewhere in the log.
   */
  lemma SnapshotPointDoesNotMatter(snapshot: Store, records: seq<seq<string>>)
    requires ReplayAll(map[], records).Ok?
    ensures ReplayAll(snapshot, records).Ok?
    ensures ReplayAll(snapshot, records) == ReplayAll(map[], records) <==> snapshot.Keys <= WrittenIn(records)
  {
    hide ReplayAll, WrittenIn;
    ReplayAllOver(snapshot, map[], snapshot, {}, records);
    var a, b, touched := ReplayAll(snapshot, records).value, ReplayAll(map[], records).value, {} + WrittenIn(records);
    assert touched == WrittenIn(records);
    if snapshot.Keys <= touched {
      assert forall key :: key in a <==> key in b;
      assert a == b;
    } else {
      var key :| key in snapshot && key !in touched;
      assert key in a && key !in b;
    }
  }

  // ------------------------------------------------------------- log bytes

  predicate EndsRecord(record: string) { |record| >= 2 && HasCrlf(record, |record| - 2) }

  datatype Replay = Replay(store: Store, error: Option<ReplayError>)

  /** A record is complete as soon as its last two bytes are CRLF. */
  function ReplayLine(store: Store, record: string): Replay {
    match ParseLogRecord(record)
    case Err(cause) => Replay(store, Some(Undecodable(cause)))
    case Ok(arguments) =>
      match ReplayRecord(store, arguments)
      case Err(error) => Replay(store, Some(error))
      case Ok(next) => Replay(next, None)
  }

  /** The loop over the bytes of the log, `record` holding those since the last record; a rest is ignored. */
  function ReplayBytes(store: Store, record: string, log: string): Replay
    decreases |log|
  {
    if log == "" then Replay(store, None)
    else
      var now := record + [log[0]];
      if |now| > MAX_RECOVERY_RECORD_SIZE then Replay(store, Some(RecordTooLarge))
      else if !EndsRecord(now) then ReplayBytes(store, now, log[1..])
      else
        var after := ReplayLine(store, now);
        if after.error.Some? then after else ReplayBytes(after.store, "", log[1..])
  }

  method RecoverAppendOnlyLog(log: Option<string>, database: Database) returns (error: Option<ReplayError>)
    modifies database
    ensures Replay(database.store, error) ==
            if log.None? then Replay(old(database.store), None) else ReplayBytes(old(database.store), "", log.value)
    // Whether it throws or not, the database is as it was.
    ensures database.store == old(database.store)
    ensures error.None? <==> log.None? || Acceptable(log.value)
  {
    if log.None? {
      return None;
    }
    hide ReplayBytes, ReplayLine, ParseLogRecord, ReplayRecord, IsSet, IsDel, Acceptable, Unfinished, EndsRecord;
    NothingIsUnfinished();
    LogBytesChangeNothing(database.store, "", log.value);
    LogIsAcceptedExactly(database.store, "", log.value);
    assert "" + log.value == log.value;
    var record := "";
    var i: nat := 0;
    assert log.value[0..] == log.value;
    while i < |log.value|
      invariant i <= |log.value|
      invariant ReplayBytes(database.store, record, log.value[i..]) == ReplayBytes(old(database.store), "", log.value)
    {
      ReplayBytesStep(database.store, record, log.value[i..]);
      assert log.value[i..][1..] == log.value[i + 1..];
      record := record + [log.value[i]];
      i := i + 1;
      if |record| > MAX_RECOVERY_RECORD_SIZE {
        return Some(RecordTooLarge);
      }
      if EndsRecord(record) {
        ReplayLineIs(database.store, record);
        var parsed := ParseRespRequest(record);
        if parsed.Err? {
          return Some(Undecodable(parsed.error));
        }
        var arguments := parsed.value;
        ReplayRecordIs(database.store, arguments);
        if arguments == [] {
          record := "";
          continue;
        }
        if IsSet(arguments[0]) {
          if |arguments| != 3 {
            return Some(InvalidSet);
          }
          database.RestoreSet(arguments[1], arguments[2]);
        } else if IsDel(arguments[0]) {
          if |arguments| != 2 {
            return Some(InvalidDel);
          }
          database.RestoreDelete(arguments[1]);
        }
        record := "";
      }
    }
    ReplayBytesEnd(database.store, record);
    return None;
  }

  lemma ReplayBytesEnd(store: Store, record: string)
    ensures ReplayBytes(store, record, "") == Replay(store, None)
  {
  }

  lemma ReplayBytesStep(store: Store, record: string, log: string)
    requires log != ""
    ensures var now := record + [log[0]];
            var after := ReplayLine(store, now);
            ReplayBytes(store, record, log) ==
            if |now| > MAX_RECOVERY_RECORD_SIZE then Replay(store, Some(RecordTooLarge))
            else if !EndsRecord(now) then ReplayBytes(store, now, log[1..])
            else if after.error.Some? then after
            else ReplayBytes(after.store, "", log[1..])
  {
    hide ReplayLine, EndsRecord;
  }

  lemma ReplayLineIs(store: Store, record: string)
    ensures var parsed := ParseLogRecord(record);
            ReplayLine(store, record) ==
            if parsed.Err? then Replay(store, Some(Undecodable(parsed.error)))
            else if ReplayRecord(store, parsed.value).Err? then
              Replay(store, Some(ReplayRecord(store, parsed.value).error))
            else Replay(ReplayRecord(store, parsed.value).value, None)
  {
    hide ParseLogRecord, ReplayRecord;
  }

  lemma ReplayRecordIs(store: Store, arguments: seq<string>)
    ensures arguments == [] ==> ReplayRecord(store, arguments) == Ok(store)
    ensures arguments != [] ==>
              ReplayRecord(store, arguments) ==
              if IsSet(arguments[0]) then
                if |arguments| != 3 then Err(InvalidSet) else Ok(store[arguments[1] := Entry(arguments[2], None)])
              else if IsDel(arguments[0]) then
                if |arguments| != 2 then Err(InvalidDel) else Ok(store - {arguments[1]})
              else Ok(store)
  {
    hide IsSet, IsDel;
  }

  /** No CRLF inside: what the loop has collected since the last record. */
  ghost predicate Unfinished(record: string) {
    forall k :: 0 <= k ==> !HasCrlf(record, k)
  }

  lemma OneMoreByte(record: string, byte: char)
    requires Unfinished(record)
    ensures var now := record + [byte];
            if EndsRecord(now) then FindCrlf(now, 0) == Some(|now| - 2) else Unfinished(now)
  {
    var now := record + [byte];
    forall k | 0 <= k && k + 1 < |record| ensures !HasCrlf(now, k) {
      assert !HasCrlf(record, k);
    }
    if EndsRecord(now) {
      FindCrlfAt(now, 0, |now| - 2);
    }
  }

  /**
   * As written, replay never restores anything: a record is cut at the first CRLF, and a record with no other CRLF
   * can only be decoded as having no arguments.
   */
  lemma {:induction false} LogBytesChangeNothing(store: Store, record: string, log: string)
    requires Unfinished(record)
    ensures ReplayBytes(store, record, log).store == store
    decreases |log|
  {
    if log == "" {
      ReplayBytesEnd(store, record);
    } else {
      hide ReplayBytes, ParseLogRecord, EndsRecord, Unfinished;
      var now := record + [log[0]];
      ReplayBytesStep(store, record, log);
      OneMoreByte(record, log[0]);
      if |now| <= MAX_RECOVERY_RECORD_SIZE {
        if EndsRecord(now) {
          assert |now| >= 2;
          OneLineRecord(now);
          assert Unfinished("") by { NothingIsUnfinished(); }
          LogBytesChangeNothing(store, "", log[1..]);
        } else {
          LogBytesChangeNothing(store, now, log[1..]);
        }
      }
    }
  }

  lemma NothingIsUnfinished()
    ensures Unfinished("")
  {
  }

  lemma NotYetARecord(log: string, i: nat, end: nat)
    requires FindCrlf(log, 0) == Some(end) && i <= end + 1
    ensures !EndsRecord(log[..i])
  {
    FindCrlfIsFirst(log, 0);
    if i >= 2 {
      assert !HasCrlf(log, i - 2);
    }
  }

  /** Up to its first CRLF a log is only collected. */
  lemma {:induction false} Collected(store: Store, log: string, i: nat, end: nat)
    requires FindCrlf(log, 0) == Some(end) && i <= end + 1 && end + 2 <= MAX_RECOVERY_RECORD_SIZE
    ensures ReplayBytes(store, "", log) == ReplayBytes(store, log[..i], log[i..])
    decreases i
  {
    hide ReplayBytes, ReplayLine, EndsRecord, FindCrlf;
    if i == 0 {
      assert log[..0] == "" && log[0..] == log;
    } else {
      Collected(store, log, i - 1, end);
      ReplayBytesStep(store, log[..i - 1], log[i - 1..]);
      assert log[..i - 1] + [log[i - 1..][0]] == log[..i] && log[i - 1..][1..] == log[i..];
      NotYetARecord(log, i, end);
    }
  }

  /** The first record of a log is its first line; if it is refused, so is the log. */
  lemma FirstLineDecides(store: Store, log: string, end: nat)
    requires FindCrlf(log, 0) == Some(end) && end + 2 <= MAX_RECOVERY_RECORD_SIZE
    requires ReplayLine(store, log[..end + 2]).error.Some?
    ensures ReplayBytes(store, "", log) == ReplayLine(store, log[..end + 2])
  {
    Collected(store, log, end + 1, end);
    hide ReplayBytes, ReplayLine;
    ReplayBytesStep(store, log[..end + 1], log[end + 1..]);
    assert log[..end + 1] + [log[end + 1..][0]] == log[..end + 2];
    FindCrlfIsFirst(log, 0);
    assert EndsRecord(log[..end + 2]);
  }

  lemma FirstLineIsALine(log: string, end: nat)
    requires FindCrlf(log, 0) == Some(end)
    ensures FindCrlf(log[..end + 2], 0) == Some(end)
  {
    FindCrlfIsFirst(log, 0);
    var record := log[..end + 2];
    forall k | 0 <= k < end ensures !HasCrlf(record, k) {
      assert !HasCrlf(log, k);
    }
    FindCrlfAt(record, 0, end);
  }

  /** A log in the format `append_command` writes is refused at the first command in it. */
  lemma RealLogIsRefused(store: Store, arguments: seq<string>, rest: string)
    requires 1 <= |arguments| <= LogRecords.MAX_ARGUMENTS
    ensures ReplayBytes(store, "", Encode(arguments) + rest) == Replay(store, Some(Undecodable(ExpectedBulk)))
  {
    var log := Encode(arguments) + rest;
    BeginsWith(Encode(arguments), rest);
    CommandAt(log, arguments);
    var end := HeaderEnd(0, |arguments|);
    ShortHeader(|arguments|);
    hide ReplayBytes, Encode, BulksLaid, BulksEnd, ParseLogRecord, FindCrlf, Print;
    FirstLineIsALine(log, end);
    var record := log[..end + 2];
    assert Between(record, 1, end) == Between(log, 1, end);
    HeaderAlone(record, end, |arguments|);
    ReplayLineIs(store, record);
    FirstLineDecides(store, log, end);
  }

  lemma ShortHeader(n: nat)
    requires n <= 1024
    ensures |Print(n)| <= 4
  {
    if n >= 1000 {
      assert |Print(n / 1000)| == 1 && |Print(n / 100)| == 2 && |Print(n / 10)| == 3;
    } else if n >= 100 {
      assert |Print(n / 100)| == 1 && |Print(n / 10)| == 2;
    }
  }

  lemma HeaderAlone(record: string, end: nat, count: nat)
    requires |record| == end + 2 && FindCrlf(record, 0) == Some(end) && record[0] == '*'
    requires 1 <= count <= LogRecords.MAX_ARGUMENTS && Between(record, 1, end) == Print(count)
    ensures ParseLogRecord(record) == Err(ExpectedBulk)
  {
    PrintedNumbersParse(count);
    StollExtendsFromChars(Print(count));
    hide Stoll, FindCrlf, Print;
    ParseArgumentsStep(record, |record|, count, []);
  }

  // ---------------------------------------------- which logs are accepted

  /** A line that reads as an array of no arguments. */
  predicate AnnouncesNothing(line: string) {
    |line| >= 2 && line[0] == '*' && Stoll(Between(line, 1, |line| - 2)) == Some(0)
  }

  /** Every line, and what follows the last, is within the size of a record, and every line announces nothing. */
  predicate Acceptable(log: string)
    decreases |log|
  {
    match FindCrlf(log, 0)
    case None => |log| <= MAX_RECOVERY_RECORD_SIZE
    case Some(end) =>
      end + 2 <= MAX_RECOVERY_RECORD_SIZE && AnnouncesNothing(log[..end + 2]) && Acceptable(log[end + 2..])
  }

  lemma HoldsNoCrlf(record: string, k: nat)
    requires Unfinished(record)
    ensures !HasCrlf(record, k)
  {
  }

  /** A line cannot end before the bytes that are known to hold no line end. */
  lemma LineReaches(record: string, rest: string)
    requires Unfinished(record) && FindCrlf(record + rest, 0).Some?
    ensures FindCrlf(record + rest, 0).value + 2 > |record|
  {
    FindCrlfIsFirst(record + rest, 0);
    var end := FindCrlf(record + rest, 0).value;
    HoldsNoCrlf(record, end);
  }

  lemma TooLongIsNotAcceptable(record: string, byte: char, rest: string)
    requires Unfinished(record) && |record| == MAX_RECOVERY_RECORD_SIZE
    ensures !Acceptable(record + ([byte] + rest))
  {
    hide FindCrlf, AnnouncesNothing;
    if FindCrlf(record + ([byte] + rest), 0).Some? {
      LineReaches(record, [byte] + rest);
    }
  }

  lemma LineByLine(line: string, rest: string)
    requires |line| >= 2 && FindCrlf(line, 0) == Some(|line| - 2)
    ensures Acceptable(line + rest) <==>
              |line| <= MAX_RECOVERY_RECORD_SIZE && AnnouncesNothing(line) && Acceptable(rest)
  {
    FindCrlfStable(line, rest, 0);
    assert (line + rest)[..|line|] == line && (line + rest)[|line|..] == rest;
    hide FindCrlf, AnnouncesNothing;
  }

  lemma UnfinishedIsAcceptable(record: string)
    requires Unfinished(record) && |record| <= MAX_RECOVERY_RECORD_SIZE
    ensures Acceptable(record)
  {
    FindCrlfIsFirst(record, 0);
  }

  /** The verdict on one record that the loop has cut. */
  lemma CutRecord(store: Store, now: string)
    requires |now| >= 2 && FindCrlf(now, 0) == Some(|now| - 2)
    ensures ReplayLine(store, now).error.None? <==> AnnouncesNothing(now)
  {
    OneLineRecord(now);
    ReplayLineIs(store, now);
    ReplayRecordIs(store, []);
    hide ParseLogRecord, ReplayLine, ReplayRecord, Stoll, FindCrlf;
  }

  /** Replay of a log of bytes succeeds exactly when the log is acceptable. */
  lemma {:induction false} LogIsAcceptedExactly(store: Store, record: string, log: string)
    requires Unfinished(record) && |record| <= MAX_RECOVERY_RECORD_SIZE
    ensures ReplayBytes(store, record, log).error.None? <==> Acceptable(record + log)
    decreases |log|
  {
    hide ReplayBytes, ReplayLine, EndsRecord, Unfinished, Acceptable, AnnouncesNothing, FindCrlf;
    if log == "" {
      assert record + log == record;
      ReplayBytesEnd(store, record);
      UnfinishedIsAcceptable(record);
      return;
    }
    var now, rest := record + [log[0]], log[1..];
    Associate(record, [log[0]], rest);
    assert [log[0]] + rest == log;
    ReplayBytesStep(store, record, log);
    OneMoreByte(record, log[0]);
    if |now| > MAX_RECOVERY_RECORD_SIZE {
      TooLongIsNotAcceptable(record, log[0], rest);
    } else if EndsRecord(now) {
      assert |now| >= 2 by { RecordsAreEnded(now); }
      CutRecord(store, now);
      LineByLine(now, rest);
      NothingIsUnfinished();
      assert "" + rest == rest;
      LogIsAcceptedExactly(ReplayLine(store, now).store, "", rest);
    } else {
      LogIsAcceptedExactly(store, now, rest);
    }
  }

  lemma RecordsAreEnded(record: string)
    requires EndsRecord(record)
    ensures |record| >= 2
  {
  }

  /** The only command that replay lets pass is the one without arguments, which the server itself refuses. */
  lemma CommandIsAcceptable(arguments: seq<string>, rest: string)
    requires |arguments| < LLONG
    ensures Acceptable(Encode(arguments) + rest) <==> arguments == [] && Acceptable(rest)
  {
    var log, end := Encode(arguments) + rest, HeaderEnd(0, |arguments|);
    BeginsWith(Encode(arguments), rest);
    CommandAt(log, arguments);
    assert arguments == [] ==> Encode(arguments) == "*" + Print(0) + CRLF && |Print(0)| == 1;
    PrintedNumbersParse(|arguments|);
    StollExtendsFromChars(Print(|arguments|));
    hide FindCrlf, Stoll, FromChars, Print, Encode, BulksLaid, BulksEnd;
    var line := log[..end + 2];
    assert Between(line, 1, end) == log[1..end] == Print(|arguments|);
    if arguments == [] {
      assert log[end + 2..] == rest;
    }
  }

  lemma {:induction false} CommandsAreAcceptable(commands: seq<seq<string>>)
    requires forall i :: 0 <= i < |commands| ==> |commands[i]| < LLONG
    ensures Acceptable(Concat(Encodings(commands))) <==> forall i :: 0 <= i < |commands| ==> commands[i] == []
    decreases |commands|
  {
    hide Acceptable, Encode;
    if commands == [] {
      assert Acceptable(Concat(Encodings(commands))) by { NothingIsAcceptable(); }
    } else {
      CommandIsAcceptable(commands[0], Concat(Encodings(commands[1..])));
      CommandsAreAcceptable(commands[1..]);
      EncodingsCons(commands);
    }
  }

  lemma NothingIsAcceptable()
    ensures Acceptable("") && Concat(Encodings([])) == ""
  {
  }

  /**
   * A log of commands in the format `append_command` writes is recovered from exactly when none of them has an
   * argument; so a log of commands that the server has accepted is recovered from exactly when it is empty.
   */
  lemma CommandLogIsAcceptedExactly(store: Store, commands: seq<seq<string>>)
    requires forall i :: 0 <= i < |commands| ==> |commands[i]| < LLONG
    ensures ReplayBytes(store, "", Concat(Encodings(commands))).error.None?
       <==> forall i :: 0 <= i < |commands| ==> commands[i] == []
    ensures (forall i :: 0 <= i < |commands| ==> 1 <= |commands[i]| <= LogRecords.MAX_ARGUMENTS) ==>
              (ReplayBytes(store, "", Concat(Encodings(commands))).error.None? <==> commands == [])
  {
    var log := Concat(Encodings(commands));
    hide ReplayBytes, Acceptable, Encode, Concat, Unfinished;
    NothingIsUnfinished();
    LogIsAcceptedExactly(store, "", log);
    assert "" + log == log;
    CommandsAreAcceptable(commands);
    if commands != [] && forall i :: 0 <= i < |commands| ==> 1 <= |commands[i]| {
      assert commands[0] != [];
    }
  }

  // --------------------------------------------------------------- recovery

  datatype RecoveryError = BadSnapshot(snapshotError: SnapshotError) | BadLog(replayError: ReplayError)

  /** The first error of the two recoveries, the second of which runs only after the first succeeded. */
  function RecoveryVerdict(snapshot: SnapshotFile, log: Option<string>, store: Store): Option<RecoveryError> {
    if SnapshotVerdict(snapshot).Some? then Some(BadSnapshot(SnapshotVerdict(snapshot).value))
    else if log.Some? && ReplayBytes(store, "", log.value).error.Some? then
      Some(BadLog(ReplayBytes(store, "", log.value).error.value))
    else None
  }

  /** Snapshot, then log: what ends up in the database is what the snapshot held. */
  method Recover(snapshot: SnapshotFile, log: Option<string>, database: Database)
    returns (error: Option<RecoveryError>)
    modifies database
    ensures database.store == RestoreAll(old(database.store), EntriesIn(snapshot))
    ensures error == RecoveryVerdict(snapshot, log, database.store)
    ensures error.None? <==> SnapshotVerdict(snapshot).None? && (log.None? || Acceptable(log.value))
  {
    hide ReadSnapshot, RestoreAll, ReplayBytes, EntriesIn, SnapshotVerdict;
    var snapshotError := RecoverSnapshot(snapshot, database);
    if snapshotError.Some? {
      return Some(BadSnapshot(snapshotError.value));
    }
    var logError := RecoverAppendOnlyLog(log, database);
    if logError.Some? {
      return Some(BadLog(logError.value));
    }
    return None;
  }
}
