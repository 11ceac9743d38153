/** The loops that write a snapshot through `write` calls that may be partial, interrupted or fail. */
module SnapshotWriting {
  import opened Wrappers
  import opened Text
  import opened Databases
  import opened Encoding
  import opened Snapshots

  /** What one `write` call can answer; a count larger than what was offered stands for all of it. */
  datatype WriteResult = Wrote(count: nat) | Interrupted | WriteError

  /** Blocked: the answers listed are used up and the process is inside the next call. */
  datatype Outcome = Completed | Threw | Blocked

  /** No call fails or takes nothing. */
  predicate Healthy(kernel: seq<WriteResult>) {
    forall i :: 0 <= i < |kernel| ==> kernel[i] != WriteError && kernel[i] != Wrote(0)
  }

  class File {
    var content: string

    constructor ()
      ensures content == ""
    {
      content := "";
    }
  }

  /** Appends some beginning of `data`, and all of it exactly when it returns normally. */
  method WriteExact(file: File, data: string, kernel: seq<WriteResult>)
    returns (outcome: Outcome, rest: seq<WriteResult>)
    modifies file
    ensures old(file.content) <= file.content <= old(file.content) + data
    ensures outcome.Completed? <==> file.content == old(file.content) + data
    ensures Healthy(kernel) ==> !outcome.Threw? && Healthy(rest)
    ensures outcome.Blocked? ==> rest == []
  {
    var written: nat := 0;
    rest := kernel;
    assert old(file.content) + data[..0] == file.content;
    while written < |data|
      invariant written <= |data|
      invariant file.content == old(file.content) + data[..written]
      invariant Healthy(kernel) ==> Healthy(rest)
      decreases |rest|
    {
      if rest == [] {
        return Blocked, [];
      }
      var result := rest[0];
      rest := rest[1..];
      match result {
        case Interrupted => continue;
        case WriteError => return Threw, rest;
        case Wrote(count) =>
          if count == 0 {
            return Threw, rest;
          }
          var accepted := if count > |data| - written then |data| - written else count;
          file.content := file.content + data[written..written + accepted];
          assert data[..written] + data[written..written + accepted] == data[..written + accepted];
          written := written + accepted;
      }
    }
    assert data[..|data|] == data;
    return Completed, rest;
  }

  predicate FitsSnapshot(value: string) { |value| <= MAX_STRING_SIZE }

  method WriteStringToFd(file: File, value: string, kernel: seq<WriteResult>)
    returns (outcome: Outcome, rest: seq<WriteResult>)
    modifies file
    ensures old(file.content) <= file.content <= old(file.content) + StringBytes(value)
    ensures outcome.Completed? <==> FitsSnapshot(value) && file.content == old(file.content) + StringBytes(value)
    ensures Healthy(kernel) ==> Healthy(rest) && (outcome.Threw? ==> !FitsSnapshot(value))
  {
    hide Healthy, Word;
    if |value| > MAX_STRING_SIZE {
      return Threw, kernel;
    }
    ghost var before := file.content;
    Associate(before, Word(|value|), value);
    outcome, rest := WriteExact(file, Word(|value|), kernel);
    if outcome.Completed? {
      if value != "" {
        outcome, rest := WriteExact(file, value, rest);
      } else {
        assert StringBytes(value) == Word(|value|);
      }
    }
  }

  /** Writing the snapshot into the truncated temporary file; `synced` is the answer of `fsync`. */
  method WriteSnapshotFile(file: File, entries: seq<KeyValueEntry>, kernel: seq<WriteResult>, synced: bool)
    returns (outcome: Outcome)
    modifies file
    ensures file.content <= SnapshotBytes(entries)
    ensures outcome.Completed? ==> synced && Writable(entries) && file.content == SnapshotBytes(entries)
    ensures Healthy(kernel) && synced && outcome.Threw? ==> !Writable(entries)
  {
    hide Healthy, Word, MAGIC, StringBytes, EntriesBytes, FitsSnapshot;
    file.content := "";
    var rest;
    ghost var header := MAGIC + Word(VERSION) + Word(|entries|);
    ghost var whole := header + EntriesBytes(entries);
    Prefixes(MAGIC, Word(VERSION), Word(|entries|), EntriesBytes(entries));
    outcome, rest := WriteExact(file, MAGIC, kernel);
    if !outcome.Completed? {
      return;
    }
    outcome, rest := WriteExact(file, Word(VERSION), rest);
    if !outcome.Completed? {
      return;
    }
    outcome, rest := WriteExact(file, Word(|entries|), rest);
    if !outcome.Completed? {
      return;
    }
    var i: nat := 0;
    Undivided(header, entries);
    while i < |entries|
      invariant i <= |entries|
      invariant file.content + EntriesBytes(entries[i..]) == whole
      invariant Writable(entries[..i])
      invariant outcome.Completed? && (Healthy(kernel) ==> Healthy(rest))
    {
      ghost var before := file.content;
      var key, value := entries[i].key, entries[i].value;
      NextEntry(before, entries, i);
      outcome, rest := WriteStringToFd(file, key, rest);
      if !outcome.Completed? {
        OversizedEntry(entries, i);
        return;
      }
      outcome, rest := WriteStringToFd(file, value, rest);
      if !outcome.Completed? {
        OversizedEntry(entries, i);
        return;
      }
      WritableUpTo(entries, i);
      i := i + 1;
    }
    assert entries[..i] == entries;
    EmptyTail(file.content, entries);
    if !synced {
      outcome := Threw;
    }
  }

  lemma Prefixes(a: string, b: string, c: string, d: string)
    ensures a <= a + b + c + d && a + b <= a + b + c + d && a + b + c <= a + b + c + d && "" + a == a
  {
  }

  lemma Undivided(header: string, entries: seq<KeyValueEntry>)
    ensures header + EntriesBytes(entries[0..]) == header + EntriesBytes(entries)
  {
    assert entries[0..] == entries;
  }

  lemma EmptyTail(content: string, entries: seq<KeyValueEntry>)
    ensures content + EntriesBytes(entries[|entries|..]) == content
  {
    assert EntriesBytes(entries[|entries|..]) == "";
  }

  lemma NextEntry(before: string, entries: seq<KeyValueEntry>, i: nat)
    requires i < |entries|
    ensures var key, value := StringBytes(entries[i].key), StringBytes(entries[i].value);
            var rest := EntriesBytes(entries[i + 1..]);
            before + EntriesBytes(entries[i..]) == before + key + value + rest
  {
    assert entries[i..][1..] == entries[i + 1..];
    var key, value, rest := StringBytes(entries[i].key), StringBytes(entries[i].value), EntriesBytes(entries[i + 1..]);
    Associate(before, key, value);
    Associate(before, key + value, rest);
  }

  lemma OversizedEntry(entries: seq<KeyValueEntry>, i: nat)
    requires i < |entries|
    ensures Writable(entries) ==> FitsSnapshot(entries[i].key) && FitsSnapshot(entries[i].value)
  {
  }

  lemma WritableUpTo(entries: seq<KeyValueEntry>, i: nat)
    requires i < |entries| && Writable(entries[..i])
    requires FitsSnapshot(entries[i].key) && FitsSnapshot(entries[i].value)
    ensures Writable(entries[..i + 1])
  {
    var upTo := entries[..i + 1];
    forall j | 0 <= j < |upTo| ensures EntryFits(upTo[j]) {
      if j < i {
        assert upTo[j] == entries[..i][j];
      }
    }
  }
}
