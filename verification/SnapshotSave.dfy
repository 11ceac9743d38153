/** One call of `save_snapshot`, from the store to the renamed file, as a run of the protocol over the disk. */
module SnapshotSaving {
  import opened Wrappers
  import opened Databases
  import opened Snapshots
  import opened SnapshotWriting
  import opened SnapshotCrash

  /** What the operating system answers to the calls of one save; `initialized`: the directory and the log are there. */
  datatype Answers = Answers(
    initialized: bool,
    created: bool,
    writes: seq<WriteResult>,
    synced: bool,
    renamed: bool,
    directorySynced: bool)

  predicate NothingFails(answers: Answers) {
    answers.initialized && answers.created && Healthy(answers.writes) && answers.synced && answers.renamed
    && answers.directorySynced
  }

  /** Every call that is made once has succeeded; `write` may have been interrupted or partial. */
  predicate EverythingSucceeded(answers: Answers) {
    answers.initialized && answers.created && answers.synced && answers.renamed && answers.directorySynced
  }

  /** `actions`, none of them a crash, lead from one state to the other. */
  ghost predicate Leads(before: State, actions: seq<Action>, after: State) {
    CanRun(before, actions) && Run(before, actions) == after && forall i :: 0 <= i < |actions| ==> !actions[i].Crash?
  }

  /** The run of one save: when it returns, its entries are durable; otherwise what was durable still is. */
  ghost predicate Saves(before: State, actions: seq<Action>, after: State, entries: Entries, returned: bool) {
    && Leads(before, actions, after)
    && after.durable == (if returned then Some(entries) else before.durable)
    && (returned ==> after.renamed == [])
  }

  lemma {:induction false} LeadsOn(a: State, first: seq<Action>, b: State, second: seq<Action>, c: State)
    requires Leads(a, first, b) && Leads(b, second, c)
    ensures Leads(a, first + second, c)
    decreases |first|
  {
    hide Enabled, Next;
    if first == [] {
      assert first + second == second;
    } else {
      LeadsOn(Next(a, first[0]), first[1..], b, second, c);
      assert (first + second)[0] == first[0] && (first + second)[1..] == first[1..] + second;
    }
  }

  lemma OneStepMore(before: State, actions: seq<Action>, s: State, a: Action)
    requires Leads(before, actions, s) && Enabled(s, a) && !a.Crash?
    ensures Leads(before, actions + [a], Next(s, a))
  {
    hide Enabled, Next;
    assert [a][1..] == [] && CanRun(Next(s, a), []) && Run(Next(s, a), []) == Next(s, a);
    assert Run(s, [a]) == Next(s, a);
    LeadsOn(before, actions, s, [a], Next(s, a));
  }

  /** Renames the synced temporary file over the snapshot and syncs the directory; each of the two may fail. */
  method AtomicallyReplaceSnapshot(s: State, answers: Answers)
    returns (after: State, outcome: Outcome, ghost actions: seq<Action>)
    requires s.history != [] && s.phase.Synced? && s.phase.file < |s.inodes|
    requires s.inodes[s.phase.file].content == SnapshotBytes(s.phase.saving)
    ensures Leads(s, actions, after) && after.phase.Idle?
    ensures outcome == if answers.renamed && answers.directorySynced then Completed else Threw
    ensures after.durable == if outcome.Completed? then Some(s.phase.saving) else s.durable
    ensures outcome.Completed? ==> after.renamed == []
    ensures DumpFile(after) == if answers.renamed then Some(SnapshotBytes(s.phase.saving)) else DumpFile(s)
  {
    hide SnapshotBytes, Leads;
    NoSteps(s);
    if !answers.renamed {
      OneStepMore(s, [], s, Throw);
      return Next(s, Throw), Threw, [] + [Throw];
    }
    OneStepMore(s, [], s, Rename);
    var renamed := Next(s, Rename);
    if !answers.directorySynced {
      OneStepMore(s, [] + [Rename], renamed, Throw);
      return Next(renamed, Throw), Threw, [] + [Rename] + [Throw];
    }
    OneStepMore(s, [] + [Rename], renamed, SyncDirectory);
    return Next(renamed, SyncDirectory), Completed, [] + [Rename] + [SyncDirectory];
  }

  /**
   * Saves the entries of the database, walked in some order. Whatever fails, the call is a run of the protocol, and
   * `dump.rdb` is as it was or holds the whole new snapshot. When the call returns, the new one is durable; it throws
   * only if a system call fails or a string is too long.
   */
  method SaveSnapshot(before: State, database: Database, order: seq<string>, readings: seq<int>, answers: Answers)
    returns (after: State, outcome: Outcome, ghost actions: seq<Action>)
    requires Inv(before) && before.phase.Idle?
    requires IsIteration(order, database.store) && |readings| == |order|
    ensures Saves(before, actions, after, EntriesOf(database.store, order, readings), outcome.Completed?)
    ensures var entries := EntriesOf(database.store, order, readings);
            && (DumpFile(after) == DumpFile(before) || DumpFile(after) == Some(SnapshotBytes(entries)))
            && (outcome.Completed? ==> DumpFile(after) == Some(SnapshotBytes(entries)))
            && (outcome.Threw? && NothingFails(answers) ==> !Writable(entries))
            && (outcome.Completed? ==> EverythingSucceeded(answers) && Writable(entries))
    ensures if outcome.Blocked? then after.phase.Writing? else after.phase.Idle?
  {
    hide SnapshotBytes, Writable, Healthy, EntriesOf, Inv, Leads;
    NoSteps(before);
    if !answers.initialized || !answers.created {
      return before, Threw, [];
    }
    var entries := database.Entries(order, readings);
    CanOpen(before, entries);
    OpenKeepsDump(before, entries);
    OneStepMore(before, [], before, Open(entries));
    after, actions := Next(before, Open(entries)), [] + [Open(entries)];
    var file := new File();
    outcome := WriteSnapshotFile(file, entries, answers.writes, answers.synced);
    assert "" + file.content == file.content;
    OneStepMore(before, actions, after, Write(file.content));
    after, actions := Next(after, Write(file.content)), actions + [Write(file.content)];
    if outcome.Blocked? {
      return;
    }
    if outcome.Threw? {
      OneStepMore(before, actions, after, Throw);
      after, actions := Next(after, Throw), actions + [Throw];
      return;
    }
    OneStepMore(before, actions, after, Sync);
    var written := Next(after, Sync);
    ghost var replacing;
    after, outcome, replacing := AtomicallyReplaceSnapshot(written, answers);
    LeadsOn(before, actions + [Sync], written, replacing, after);
    actions := actions + [Sync] + replacing;
  }

  lemma NoSteps(s: State)
    ensures Leads(s, [], s)
  {
  }

  lemma CanOpen(s: State, entries: Entries)
    requires Inv(s) && s.phase.Idle?
    ensures Enabled(s, Open(entries))
  {
    hide Shows;
    assert TemporaryApart(s.inodes, Current(s));
  }

  /** Truncating the temporary file, or creating it, does not touch the snapshot. */
  lemma OpenKeepsDump(s: State, entries: Entries)
    requires Inv(s) && s.phase.Idle? && Enabled(s, Open(entries))
    ensures var t := Next(s, Open(entries));
            && DumpFile(t) == DumpFile(s) && t.history != []
            && t.phase == Writing(entries, t.phase.file) && t.phase.file < |t.inodes|
            && t.inodes[t.phase.file] == Inode("", false) && Current(t).dump != Some(t.phase.file)
  {
    hide SnapshotBytes, Writable;
    assert Shows(s.inodes, Current(s)) && TemporaryApart(s.inodes, Current(s));
  }

  /**
   * The store that a returned save was called on survives a crash: recovering from what the crash leaves gives the
   * entries that were live when it was saved, without their deadlines.
   */
  lemma SavedStoreSurvivesACrash(s: State, store: Store, order: seq<string>, readings: seq<int>, now: int,
                                 survivor: nat, garbage: seq<string>)
    requires Inv(s) && s.renamed == [] && Enabled(s, Crash(survivor, garbage))
    requires IsIteration(order, store) && |readings| == |order|
    requires forall i :: 0 <= i < |readings| ==> readings[i] == now
    requires s.durable == Some(EntriesOf(store, order, readings)) && |s.durable.value| <= MAX_SNAPSHOT_ENTRIES
    ensures var dump := DumpFile(Next(s, Crash(survivor, garbage)));
            dump.Some? && ReadSnapshot(dump.value).outcome.Ok?
            && RestoreAll(map[], ReadSnapshot(dump.value).entries) == Kept(store, now)
  {
    hide SnapshotBytes, ReadSnapshot, RestoreAll, EntriesOf, Kept, Writable, IsIteration;
    var t := Next(s, Crash(survivor, garbage));
    InvStep(s, Crash(survivor, garbage));
    assert Candidate(s, s.history[survivor].saved) && Current(t) == s.history[survivor];
    assert Shows(t.inodes, Current(t));
    SaveThenRecover(store, order, readings, now);
  }
}
