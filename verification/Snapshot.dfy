/** The binary snapshot: its format, the loops that write it, and recovery from it. */
module Snapshots {
  import opened Wrappers
  import opened Text
  import opened Databases
  import opened Encoding

  const MAGIC: string := "KOSHDBSNAP"
  const VERSION: nat := 1
  const MAX_SNAPSHOT_ENTRIES: nat := 10_000_000
  const MAX_STRING_SIZE: nat := 512 * 1024

  // ---------------------------------------------------------------- format

  /** The low `width` bytes of a number, least significant first. */
  function Bytes(n: nat, width: nat): (s: string)
    ensures |s| == width
  {
    if width == 0 then "" else [(n % 256) as char] + Bytes(n / 256, width - 1)
  }

  function Number(s: string): nat {
    if s == "" then 0 else s[0] as int + 256 * Number(s[1..])
  }

  function Power(width: nat): nat {
    if width == 0 then 1 else 256 * Power(width - 1)
  }

  lemma {:induction false} NumberOfBytes(n: nat, width: nat)
    requires n < Power(width)
    ensures Number(Bytes(n, width)) == n
  {
    if width > 0 {
      NumberOfBytes(n / 256, width - 1);
      assert Bytes(n, width)[1..] == Bytes(n / 256, width - 1);
    }
  }

  /** A `uint64_t` as it lies in memory on a little-endian machine. */
  function Word(n: nat): (s: string)
    ensures |s| == 8
  {
    Bytes(n, 8)
  }

  lemma NumberOfWord(n: nat)
    requires n < 0x1_0000_0000_0000_0000
    ensures Number(Word(n)) == n
  {
    assert Power(8) == 0x1_0000_0000_0000_0000 by {
      assert Power(2) == 0x1_0000;
      assert Power(4) == 0x1_0000_0000;
      assert Power(6) == 0x1_0000_0000_0000;
    }
    NumberOfBytes(n, 8);
  }

  function StringBytes(value: string): string { Word(|value|) + value }

  function EntryBytes(entry: KeyValueEntry): string { StringBytes(entry.key) + StringBytes(entry.value) }

  function EntriesBytes(entries: seq<KeyValueEntry>): string {
    if entries == [] then "" else EntryBytes(entries[0]) + EntriesBytes(entries[1..])
  }

  function SnapshotBytes(entries: seq<KeyValueEntry>): string {
    MAGIC + Word(VERSION) + Word(|entries|) + EntriesBytes(entries)
  }

  /** No string is too long for a snapshot. */
  predicate Writable(entries: seq<KeyValueEntry>) {
    forall i :: 0 <= i < |entries| ==> EntryFits(entries[i])
  }

  predicate EntryFits(entry: KeyValueEntry) {
    |entry.key| <= MAX_STRING_SIZE && |entry.value| <= MAX_STRING_SIZE
  }

  // --------------------------------------------------------------- reading

  datatype SnapshotError = CannotOpen | Truncated | InvalidMagic | UnsupportedVersion | TooManyEntries | StringTooLong

  function Take(input: string, position: nat, size: nat): (r: Result<(string, nat), SnapshotError>)
    ensures r.Ok? ==> r.value.1 == position + size <= |input|
  {
    if position + size <= |input| then Ok((input[position..position + size], position + size)) else Err(Truncated)
  }

  function ReadWord(input: string, position: nat): (r: Result<(nat, nat), SnapshotError>)
    ensures r.Ok? ==> r.value.1 == position + 8 <= |input|
  {
    match Take(input, position, 8)
    case Err(error) => Err(error)
    case Ok((bytes, next)) => Ok((Number(bytes), next))
  }

  function ReadString(input: string, position: nat): (r: Result<(string, nat), SnapshotError>)
    ensures r.Ok? ==> position < r.value.1 <= |input|
  {
    match ReadWord(input, position)
    case Err(error) => Err(error)
    case Ok((length, start)) => if length > MAX_STRING_SIZE then Err(StringTooLong) else Take(input, start, length)
  }

  function ReadEntry(input: string, position: nat): (r: Result<(KeyValueEntry, nat), SnapshotError>)
    ensures r.Ok? ==> position < r.value.1 <= |input|
  {
    match ReadString(input, position)
    case Err(error) => Err(error)
    case Ok((key, middle)) =>
      match ReadString(input, middle)
      case Err(error) => Err(error)
      case Ok((value, next)) => Ok((KeyValueEntry(key, value), next))
  }

  /** The entries read before the end or the first error, and where reading ended. */
  datatype Reading = Reading(entries: seq<KeyValueEntry>, outcome: Result<nat, SnapshotError>)

  function ReadEntries(input: string, position: nat, count: nat, before: seq<KeyValueEntry>): Reading
    decreases count
  {
    if count == 0 then Reading(before, Ok(position))
    else match ReadEntry(input, position)
      case Err(error) => Reading(before, Err(error))
      case Ok((entry, next)) => ReadEntries(input, next, count - 1, before + [entry])
  }

  /** The number of entries a snapshot announces; they begin after 26 bytes. */
  function ReadHeader(input: string): (r: Result<nat, SnapshotError>)
    ensures r.Ok? ==> 26 <= |input|
  {
    if |input| < 10 then Err(Truncated)
    else if input[..10] != MAGIC then Err(InvalidMagic)
    else match ReadWord(input, 10)
      case Err(error) => Err(error)
      case Ok((version, _)) =>
        if version != VERSION then Err(UnsupportedVersion)
        else match ReadWord(input, 18)
          case Err(error) => Err(error)
          case Ok((count, _)) => if count > MAX_SNAPSHOT_ENTRIES then Err(TooManyEntries) else Ok(count)
  }

  function ReadSnapshot(input: string): Reading {
    match ReadHeader(input)
    case Err(error) => Reading([], Err(error))
    case Ok(count) => ReadEntries(input, 26, count, [])
  }

  function RestoreAll(store: Store, entries: seq<KeyValueEntry>): Store {
    if entries == [] then store
    else
      var n := |entries| - 1;
      RestoreAll(store, entries[..n])[entries[n].key := Entry(entries[n].value, None)]
  }

  lemma ReadEntriesStep(input: string, position: nat, count: nat, before: seq<KeyValueEntry>)
    requires count > 0
    ensures var first := ReadEntry(input, position);
            ReadEntries(input, position, count, before) ==
            if first.Err? then Reading(before, Err(first.error))
            else ReadEntries(input, first.value.1, count - 1, before + [first.value.0])
  {
  }

  /** The snapshot file as recovery finds it. */
  datatype SnapshotFile = Missing | Unreadable | Present(content: string)

  /** The entries that can be read from it, up to the first error. */
  function EntriesIn(file: SnapshotFile): seq<KeyValueEntry> {
    if file.Present? then ReadSnapshot(file.content).entries else []
  }

  function SnapshotVerdict(file: SnapshotFile): Option<SnapshotError> {
    match file
    case Missing => None
    case Unreadable => Some(CannotOpen)
    case Present(content) =>
      var outcome := ReadSnapshot(content).outcome;
      if outcome.Ok? then None else Some(outcome.error)
  }

  lemma ReadEntriesEnd(input: string, position: nat, entries: seq<KeyValueEntry>)
    ensures ReadEntries(input, position, 0, entries) == Reading(entries, Ok(position))
  {
  }

  /** Recovery restores entries as it reads them, so an error leaves those read before it in the database. */
  method RecoverSnapshot(file: SnapshotFile, database: Database) returns (error: Option<SnapshotError>)
    modifies database
    ensures database.store == RestoreAll(old(database.store), EntriesIn(file))
    ensures error == SnapshotVerdict(file)
  {
    hide ReadHeader, ReadEntry;
    if file.Missing? {
      return None;
    }
    if file.Unreadable? {
      return Some(CannotOpen);
    }
    var input := file.content;
    var header := ReadHeader(input);
    if header.Err? {
      return Some(header.error);
    }
    var position: nat := 26;
    var count: nat := header.value;
    var index: nat := 0;
    ghost var read: seq<KeyValueEntry> := [];
    while index < count
      invariant index <= count
      invariant database.store == RestoreAll(old(database.store), read)
      invariant ReadEntries(input, position, count - index, read) == ReadSnapshot(input)
    {
      ReadEntriesStep(input, position, count - index, read);
      var entry := ReadEntry(input, position);
      if entry.Err? {
        return Some(entry.error);
      }
      var (item, next) := entry.value;
      database.RestoreSet(item.key, item.value);
      assert (read + [item])[..|read|] == read;
      read := read + [item];
      position := next;
      index := index + 1;
    }
    return None;
  }

  // ------------------------------------------------------------ round trip

  lemma WordIsRead(input: string, position: nat, n: nat)
    requires n < 0x1_0000_0000_0000_0000 && At(input, position, Word(n))
    ensures ReadWord(input, position) == Ok((n, position + 8))
  {
    NumberOfWord(n);
  }

  lemma StringIsRead(input: string, position: nat, value: string)
    requires At(input, position, StringBytes(value)) && |value| <= MAX_STRING_SIZE
    ensures ReadString(input, position) == Ok((value, position + |StringBytes(value)|))
  {
    AtSplit(input, position, Word(|value|), value);
    WordIsRead(input, position, |value|);
    hide ReadWord, Word;
  }

  lemma EntryIsRead(input: string, position: nat, entry: KeyValueEntry)
    requires At(input, position, EntryBytes(entry))
    requires EntryFits(entry)
    ensures ReadEntry(input, position) == Ok((entry, position + |EntryBytes(entry)|))
  {
    AtSplit(input, position, StringBytes(entry.key), StringBytes(entry.value));
    StringIsRead(input, position, entry.key);
    StringIsRead(input, position + |StringBytes(entry.key)|, entry.value);
    hide ReadString, StringBytes;
  }

  /** Entries that lie there are read, and reading goes on behind them. */
  lemma {:induction false} EntriesAreRead(input: string, position: nat, count: nat, entries: seq<KeyValueEntry>,
                                          before: seq<KeyValueEntry>)
    requires At(input, position, EntriesBytes(entries)) && Writable(entries) && |entries| <= count
    ensures ReadEntries(input, position, count, before)
         == ReadEntries(input, position + |EntriesBytes(entries)|, count - |entries|, before + entries)
    decreases |entries|
  {
    hide ReadEntry, EntryBytes, ReadEntries;
    if entries == [] {
      assert before + entries == before;
    } else {
      var first, rest := entries[0], entries[1..];
      AtSplit(input, position, EntryBytes(first), EntriesBytes(rest));
      EntryIsRead(input, position, first);
      ReadEntriesStep(input, position, count, before);
      EntriesAreRead(input, position + |EntryBytes(first)|, count - 1, rest, before + [first]);
      Associate(before, [first], rest);
      assert [first] + rest == entries;
    }
  }

  lemma MagicLength()
    ensures |MAGIC| == 10
  {
  }

  /** Where the parts of a snapshot lie in a file that begins with it. */
  lemma SnapshotLayout(input: string, entries: seq<KeyValueEntry>)
    requires SnapshotBytes(entries) <= input
    ensures At(input, 0, MAGIC) && At(input, 10, Word(VERSION)) && At(input, 18, Word(|entries|))
    ensures At(input, 26, EntriesBytes(entries)) && |SnapshotBytes(entries)| == 26 + |EntriesBytes(entries)|
  {
    MagicLength();
    hide MAGIC, Word;
    var magic, version, count := MAGIC, Word(VERSION), Word(|entries|);
    AtSplit(input, 0, magic + version + count, EntriesBytes(entries));
    AtSplit(input, 0, magic + version, count);
    AtSplit(input, 0, magic, version);
  }

  lemma HeaderIsRead(input: string, count: nat)
    requires At(input, 0, MAGIC) && At(input, 10, Word(VERSION)) && At(input, 18, Word(count))
    requires count < 0x1_0000_0000_0000_0000
    ensures ReadHeader(input) == if count > MAX_SNAPSHOT_ENTRIES then Err(TooManyEntries) else Ok(count)
  {
    MagicLength();
    hide MAGIC, Word;
    WordIsRead(input, 10, VERSION);
    WordIsRead(input, 18, count);
    hide ReadWord;
    assert input[..10] == input[0..10];
  }

  lemma BeginsWith(a: string, b: string)
    ensures a <= a + b
  {
  }

  /**
   * A written snapshot, whatever follows it in the file, is read back as the entries written, in their order; unless
   * there are more than ten million of them, when it is refused before anything is restored.
   */
  lemma SnapshotRoundTrip(entries: seq<KeyValueEntry>, rest: string)
    requires Writable(entries) && |entries| < 0x1_0000_0000_0000_0000
    ensures ReadSnapshot(SnapshotBytes(entries) + rest) ==
            if |entries| > MAX_SNAPSHOT_ENTRIES then Reading([], Err(TooManyEntries))
            else Reading(entries, Ok(|SnapshotBytes(entries)|))
  {
    hide ReadHeader, SnapshotBytes, EntriesBytes, Word, ReadEntries, Writable;
    var input := SnapshotBytes(entries) + rest;
    BeginsWith(SnapshotBytes(entries), rest);
    SnapshotLayout(input, entries);
    HeaderIsRead(input, |entries|);
    if |entries| <= MAX_SNAPSHOT_ENTRIES {
      EntriesAreRead(input, 26, |entries|, entries, []);
      assert [] + entries == entries;
      ReadEntriesEnd(input, 26 + |EntriesBytes(entries)|, entries);
    }
  }

  // ------------------------------------------------------------ truncation

  lemma TakeTruncated(input: string, keep: nat, position: nat, size: nat)
    requires keep <= |input| && Take(input, position, size).Ok?
    ensures Take(input[..keep], position, size) ==
            if position + size <= keep then Take(input, position, size) else Err(Truncated)
  {
    if position + size <= keep {
      assert input[..keep][position..position + size] == input[position..position + size];
    }
  }

  lemma StringTruncated(input: string, keep: nat, position: nat)
    requires keep <= |input| && ReadString(input, position).Ok?
    ensures var next := ReadString(input, position).value.1;
            ReadString(input[..keep], position) == if next <= keep then ReadString(input, position) else Err(Truncated)
  {
    hide Take, Number;
    TakeTruncated(input, keep, position, 8);
    var (length, start) := ReadWord(input, position).value;
    TakeTruncated(input, keep, start, length);
  }

  lemma EntryTruncated(input: string, keep: nat, position: nat)
    requires keep <= |input| && ReadEntry(input, position).Ok?
    ensures var next := ReadEntry(input, position).value.1;
            ReadEntry(input[..keep], position) == if next <= keep then ReadEntry(input, position) else Err(Truncated)
  {
    StringTruncated(input, keep, position);
    StringTruncated(input, keep, ReadString(input, position).value.1);
    hide ReadString;
  }

  lemma {:induction false} EntriesTruncated(input: string, keep: nat, position: nat, count: nat,
                                            before: seq<KeyValueEntry>)
    requires position <= keep <= |input| && ReadEntries(input, position, count, before).outcome.Ok?
    ensures var end := ReadEntries(input, position, count, before).outcome.value;
            && position <= end
            && (keep < end ==> ReadEntries(input[..keep], position, count, before).outcome == Err(Truncated))
    decreases count
  {
    hide ReadEntry;
    if count > 0 {
      ReadEntriesStep(input, position, count, before);
      ReadEntriesStep(input[..keep], position, count, before);
      EntryTruncated(input, keep, position);
      var (entry, next) := ReadEntry(input, position).value;
      if next <= keep {
        EntriesTruncated(input, keep, next, count - 1, before + [entry]);
      } else {
        EntriesTruncated(input, |input|, next, count - 1, before + [entry]);
      }
    }
  }

  lemma HeaderTruncated(input: string, keep: nat)
    requires keep <= |input| && ReadHeader(input).Ok?
    ensures ReadHeader(input[..keep]) == if keep < 26 then Err(Truncated) else ReadHeader(input)
  {
    hide Take, Number;
    if keep >= 10 {
      assert input[..keep][..10] == input[..10];
      TakeTruncated(input, keep, 10, 8);
      TakeTruncated(input, keep, 18, 8);
    }
  }

  /** A file that recovery accepts is refused as truncated when cut anywhere before the last byte recovery used. */
  lemma TruncationIsDetected(input: string, keep: nat)
    requires ReadSnapshot(input).outcome.Ok? && keep < ReadSnapshot(input).outcome.value <= |input|
    ensures ReadSnapshot(input[..keep]).outcome == Err(Truncated)
  {
    hide ReadHeader, ReadEntries;
    HeaderTruncated(input, keep);
    if keep >= 26 {
      EntriesTruncated(input, keep, 26, ReadHeader(input).value, []);
    }
  }

  /** No snapshot is the beginning of another. */
  lemma SnapshotsArePrefixFree(a: seq<KeyValueEntry>, b: seq<KeyValueEntry>)
    requires Writable(a) && Writable(b) && |a| <= MAX_SNAPSHOT_ENTRIES && |b| <= MAX_SNAPSHOT_ENTRIES
    requires SnapshotBytes(a) <= SnapshotBytes(b)
    ensures a == b
  {
    var x, y := SnapshotBytes(a), SnapshotBytes(b);
    SnapshotRoundTrip(a, "");
    SnapshotRoundTrip(b, "");
    assert x + "" == x && y + "" == y;
    hide SnapshotBytes, ReadSnapshot;
    if |x| < |y| {
      assert y[..|x|] == x;
      TruncationIsDetected(y, |x|);
    } else {
      assert x == y;
    }
  }

  // -------------------------------------------- which files are accepted

  /** A file holds bytes. */
  predicate AreBytes(s: string) { forall i :: 0 <= i < |s| ==> s[i] as int < 256 }

  lemma {:induction false} BytesOfNumber(s: string)
    requires AreBytes(s)
    ensures Bytes(Number(s), |s|) == s && Number(s) < Power(|s|)
  {
    if s != "" {
      BytesOfNumber(s[1..]);
      assert Number(s) % 256 == s[0] as int && Number(s) / 256 == Number(s[1..]);
    }
  }

  lemma WordOfNumber(s: string)
    requires AreBytes(s) && |s| == 8
    ensures Word(Number(s)) == s
  {
    BytesOfNumber(s);
  }

  lemma ReadWordIsAt(input: string, position: nat)
    requires AreBytes(input) && ReadWord(input, position).Ok?
    ensures At(input, position, Word(ReadWord(input, position).value.0))
  {
    WordOfNumber(input[position..position + 8]);
    hide Word, Number;
  }

  lemma AtJoin(input: string, position: nat, a: string, b: string)
    requires At(input, position, a) && At(input, position + |a|, b)
    ensures At(input, position, a + b)
  {
    assert input[position..position + |a| + |b|] == a + b;
  }

  lemma ReadStringIsAt(input: string, position: nat)
    requires AreBytes(input) && ReadString(input, position).Ok?
    ensures var (value, next) := ReadString(input, position).value;
            At(input, position, StringBytes(value)) && |value| <= MAX_STRING_SIZE
            && next == position + |StringBytes(value)|
  {
    ReadWordIsAt(input, position);
    var (value, next) := ReadString(input, position).value;
    hide ReadWord, Word;
    AtJoin(input, position, Word(|value|), value);
  }

  lemma ReadEntryIsAt(input: string, position: nat)
    requires AreBytes(input) && ReadEntry(input, position).Ok?
    ensures var (entry, next) := ReadEntry(input, position).value;
            At(input, position, EntryBytes(entry)) && EntryFits(entry) && next == position + |EntryBytes(entry)|
  {
    ReadStringIsAt(input, position);
    var (key, middle) := ReadString(input, position).value;
    ReadStringIsAt(input, middle);
    var (value, _) := ReadString(input, middle).value;
    hide ReadString, StringBytes;
    AtJoin(input, position, StringBytes(key), StringBytes(value));
  }

  /** The entries read from `position` on are those whose bytes lie there. */
  lemma {:induction false} ReadEntriesAreAt(input: string, position: nat, count: nat, before: seq<KeyValueEntry>)
    returns (entries: seq<KeyValueEntry>)
    requires AreBytes(input) && position <= |input| && ReadEntries(input, position, count, before).outcome.Ok?
    ensures At(input, position, EntriesBytes(entries)) && Writable(entries) && |entries| == count
    ensures ReadEntries(input, position, count, before)
         == Reading(before + entries, Ok(position + |EntriesBytes(entries)|))
    decreases count
  {
    hide ReadEntry, EntryBytes, EntryFits;
    if count == 0 {
      assert before + [] == before;
      return [];
    }
    ReadEntriesStep(input, position, count, before);
    ReadEntryIsAt(input, position);
    var (first, next) := ReadEntry(input, position).value;
    var rest := ReadEntriesAreAt(input, next, count - 1, before + [first]);
    entries := [first] + rest;
    assert entries[1..] == rest;
    AtJoin(input, position, EntryBytes(first), EntriesBytes(rest));
    Associate(before, [first], rest);
  }

  lemma ReadHeaderIsAt(input: string)
    requires AreBytes(input) && ReadHeader(input).Ok?
    ensures At(input, 0, MAGIC) && At(input, 10, Word(VERSION)) && At(input, 18, Word(ReadHeader(input).value))
    ensures ReadHeader(input).value <= MAX_SNAPSHOT_ENTRIES
  {
    MagicLength();
    ReadWordIsAt(input, 10);
    ReadWordIsAt(input, 18);
    hide MAGIC, Word, ReadWord;
    assert input[..10] == input[0..10];
  }

  lemma SnapshotIsAt(input: string, entries: seq<KeyValueEntry>)
    requires At(input, 0, MAGIC) && At(input, 10, Word(VERSION)) && At(input, 18, Word(|entries|))
    requires At(input, 26, EntriesBytes(entries))
    ensures SnapshotBytes(entries) <= input
  {
    MagicLength();
    hide MAGIC, Word, EntriesBytes;
    AtJoin(input, 0, MAGIC, Word(VERSION));
    AtJoin(input, 0, MAGIC + Word(VERSION), Word(|entries|));
    AtJoin(input, 0, MAGIC + Word(VERSION) + Word(|entries|), EntriesBytes(entries));
  }

  /** The file begins with the snapshot of these entries, and recovery has no objection to them. */
  predicate IsSnapshotOf(content: string, entries: seq<KeyValueEntry>) {
    Writable(entries) && |entries| <= MAX_SNAPSHOT_ENTRIES && SnapshotBytes(entries) <= content
  }

  lemma SnapshotIsRead(content: string, entries: seq<KeyValueEntry>)
    requires IsSnapshotOf(content, entries)
    ensures ReadSnapshot(content) == Reading(entries, Ok(|SnapshotBytes(entries)|))
  {
    hide SnapshotBytes, ReadSnapshot, Writable;
    var rest := content[|SnapshotBytes(entries)|..];
    assert content == SnapshotBytes(entries) + rest;
    SnapshotRoundTrip(entries, rest);
  }

  lemma AcceptedIsASnapshot(content: string) returns (entries: seq<KeyValueEntry>)
    requires AreBytes(content) && ReadSnapshot(content).outcome.Ok?
    ensures IsSnapshotOf(content, entries)
  {
    hide ReadHeader, ReadEntries, SnapshotBytes, EntriesBytes, Word, MAGIC, Writable;
    ReadHeaderIsAt(content);
    entries := ReadEntriesAreAt(content, 26, ReadHeader(content).value, []);
    SnapshotIsAt(content, entries);
  }

  /**
   * Recovery accepts exactly the files that begin with the snapshot of at most ten million entries with no string
   * above the limit, and reads exactly those entries.
   */
  lemma SnapshotIsAcceptedExactly(content: string)
    requires AreBytes(content)
    ensures ReadSnapshot(content).outcome.Ok? <==> exists entries :: IsSnapshotOf(content, entries)
    ensures forall entries :: IsSnapshotOf(content, entries) ==>
              ReadSnapshot(content) == Reading(entries, Ok(|SnapshotBytes(entries)|))
  {
    hide ReadSnapshot, IsSnapshotOf, SnapshotBytes;
    forall entries | IsSnapshotOf(content, entries)
      ensures ReadSnapshot(content) == Reading(entries, Ok(|SnapshotBytes(entries)|))
    {
      SnapshotIsRead(content, entries);
    }
    if ReadSnapshot(content).outcome.Ok? {
      var entries := AcceptedIsASnapshot(content);
    }
  }

  /** Which complaint a file earns before any entry of it is read; nothing is restored then. */
  lemma HeaderIsJudgedExactly(content: string, version: nat, count: nat, rest: string)
    requires version < 0x1_0000_0000_0000_0000 && count < 0x1_0000_0000_0000_0000
    ensures |content| < |MAGIC| ==> ReadSnapshot(content) == Reading([], Err(Truncated))
    ensures |content| >= |MAGIC| && !(MAGIC <= content) ==> ReadSnapshot(content) == Reading([], Err(InvalidMagic))
    ensures version != VERSION ==>
              ReadSnapshot(MAGIC + (Word(version) + rest)) == Reading([], Err(UnsupportedVersion))
    ensures count > MAX_SNAPSHOT_ENTRIES ==>
              ReadSnapshot(MAGIC + (Word(VERSION) + (Word(count) + rest))) == Reading([], Err(TooManyEntries))
  {
    MagicLength();
    hide MAGIC, Word;
    WordIsRead(MAGIC + (Word(version) + rest), 10, version);
    WordIsRead(MAGIC + (Word(VERSION) + (Word(count) + rest)), 10, VERSION);
    WordIsRead(MAGIC + (Word(VERSION) + (Word(count) + rest)), 18, count);
    hide ReadWord;
  }

  lemma LongStringIsNotRead(input: string, position: nat, length: nat)
    requires At(input, position, Word(length)) && MAX_STRING_SIZE < length < 0x1_0000_0000_0000_0000
    ensures ReadEntry(input, position) == Err(StringTooLong)
  {
    WordIsRead(input, position, length);
    hide ReadWord;
  }

  /** A string above the limit is refused on its length alone; what was read before it has been restored by then. */
  lemma LongStringIsRefused(input: string, entries: seq<KeyValueEntry>, count: nat, length: nat)
    requires At(input, 0, MAGIC) && At(input, 10, Word(VERSION)) && At(input, 18, Word(count))
    requires At(input, 26, EntriesBytes(entries)) && At(input, 26 + |EntriesBytes(entries)|, Word(length))
    requires Writable(entries) && |entries| < count <= MAX_SNAPSHOT_ENTRIES
    requires MAX_STRING_SIZE < length < 0x1_0000_0000_0000_0000
    ensures ReadSnapshot(input) == Reading(entries, Err(StringTooLong))
  {
    hide MAGIC, Word, EntriesBytes, Writable, ReadHeader, ReadEntry, ReadEntries;
    HeaderIsRead(input, count);
    EntriesAreRead(input, 26, count, entries, []);
    assert [] + entries == entries;
    var position := 26 + |EntriesBytes(entries)|;
    LongStringIsNotRead(input, position, length);
    ReadEntriesStep(input, position, count - |entries|, entries);
  }

  // ----------------------------------------------------- save, then recover

  /** The live part of a store with its deadlines forgotten: what a snapshot keeps. */
  function Kept(store: Store, now: int): Store {
    map key | key in store && !IsExpired(store[key], now) :: Entry(store[key].value, None)
  }

  /** The last entry of a walk, restored over the others. */
  lemma RestoredLast(store: Store, order: seq<string>, readings: seq<int>)
    requires (forall key :: key in order ==> key in store) && |readings| == |order| && order != []
    ensures var n := |order| - 1;
            var before := RestoreAll(map[], EntriesOf(store, order[..n], readings[..n]));
            RestoreAll(map[], EntriesOf(store, order, readings)) ==
            if IsExpired(store[order[n]], readings[n]) then before
            else before[order[n] := Entry(store[order[n]].value, None)]
  {
    var n := |order| - 1;
    var before := EntriesOf(store, order[..n], readings[..n]);
    var last := KeyValueEntry(order[n], store[order[n]].value);
    assert (before + [last])[..|before|] == before;
  }

  lemma KeysInOrder(order: seq<string>)
    requires order != []
    ensures forall key :: key in order <==> key in order[..|order| - 1] || key == order[|order| - 1]
  {
  }

  /** Walked in any order, the entries live at `now` restore exactly the live part of the store. */
  lemma {:induction false} EntriesRestore(store: Store, order: seq<string>, readings: seq<int>, now: int)
    requires (forall key :: key in order ==> key in store)
    requires |readings| == |order| && forall i :: 0 <= i < |readings| ==> readings[i] == now
    ensures RestoreAll(map[], EntriesOf(store, order, readings))
         == map key | key in store && key in order && !IsExpired(store[key], now) :: Entry(store[key].value, None)
    decreases |order|
  {
    if order != [] {
      var n := |order| - 1;
      EntriesRestore(store, order[..n], readings[..n], now);
      RestoredLast(store, order, readings);
      KeysInOrder(order);
      hide EntriesOf, RestoreAll;
    }
  }

  /**
   * Saving a store at one instant and recovering into an empty one gives the entries that were live, without
   * deadlines, whatever order the hash table was walked in.
   */
  lemma SaveThenRecover(store: Store, order: seq<string>, readings: seq<int>, now: int)
    requires IsIteration(order, store)
    requires |readings| == |order| && forall i :: 0 <= i < |readings| ==> readings[i] == now
    requires Writable(EntriesOf(store, order, readings)) && |EntriesOf(store, order, readings)| <= MAX_SNAPSHOT_ENTRIES
    ensures var reading := ReadSnapshot(SnapshotBytes(EntriesOf(store, order, readings)));
            reading.outcome.Ok? && RestoreAll(map[], reading.entries) == Kept(store, now)
  {
    var entries := EntriesOf(store, order, readings);
    SnapshotRoundTrip(entries, "");
    assert SnapshotBytes(entries) + "" == SnapshotBytes(entries);
    EntriesRestore(store, order, readings, now);
    hide SnapshotBytes, ReadSnapshot, EntriesOf, RestoreAll;
  }

  /** When the clock moves during the walk, an entry is saved only if live at the start, and surely if at the end. */
  lemma {:induction false} SlowWalkIsBracketed(store: Store, order: seq<string>, readings: seq<int>,
                                               first: int, last: int)
    requires (forall key :: key in order ==> key in store)
    requires |readings| == |order| && forall i :: 0 <= i < |readings| ==> first <= readings[i] <= last
    ensures var restored := RestoreAll(map[], EntriesOf(store, order, readings));
            && (forall key :: key in order && key in Kept(store, last) ==> key in restored)
            && (forall key :: key in restored ==> key in Kept(store, first) && restored[key] == Kept(store, first)[key])
    decreases |order|
  {
    if order != [] {
      var n := |order| - 1;
      SlowWalkIsBracketed(store, order[..n], readings[..n], first, last);
      RestoredLast(store, order, readings);
      KeysInOrder(order);
      hide EntriesOf, RestoreAll;
      assert first <= readings[n] <= last;
    }
  }
}
