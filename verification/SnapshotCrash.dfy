/**
 * Saving as a protocol over a disk that forgets: write a temporary file, sync it, rename it over the snapshot, sync
 * the directory. Any step may fail with an exception, and the machine may crash between any two steps.
 */
module SnapshotCrash {
  import opened Wrappers
  import opened Databases
  import opened Snapshots

  type Entries = seq<KeyValueEntry>

  /** A clean file survives a crash as it is; of any other, nothing is known afterwards. */
  datatype Inode = Inode(content: string, clean: bool)

  /**
   * The data directory: the files named `dump.rdb` and `dump.rdb.tmp`, and which save put the first there, for the
   * record.
   */
  datatype Directory = Directory(dump: Option<nat>, temporary: Option<nat>, saved: Option<Entries>)

  /** Where a call of `save_snapshot` stands, with the entries it saves and the file it writes. */
  datatype Phase =
    | Idle
    | Writing(saving: Entries, file: nat)
    | Synced(saving: Entries, file: nat)
    | Renamed(saving: Entries)

  /**
   * `history` holds the states of the directory since it was last synced, the current one last; after a crash any of
   * them may be found. `durable` records the save whose call last returned (or the one found after a crash), and
   * `renamed` the saves that have renamed their file since.
   */
  datatype State = State(
    inodes: seq<Inode>,
    history: seq<Directory>,
    phase: Phase,
    durable: Option<Entries>,
    renamed: seq<Entries>)

  datatype Action =
    | Open(entries: Entries)
    | Write(bytes: string)
    | Sync
    | Rename
    | SyncDirectory
    | Throw
    | Crash(survivor: nat, garbage: seq<string>)

  const FRESH: State := State([], [Directory(None, None, None)], Idle, None, [])

  function Current(s: State): Directory
    requires s.history != []
  {
    s.history[|s.history| - 1]
  }

  predicate Enabled(s: State, a: Action) {
    && s.history != []
    && match a
       case Open(_) =>
         s.phase.Idle? && (Current(s).temporary.Some? ==> Current(s).temporary.value < |s.inodes|)
       case Write(bytes) =>
         s.phase.Writing? && s.phase.file < |s.inodes|
         && s.inodes[s.phase.file].content + bytes <= SnapshotBytes(s.phase.saving)
       case Sync =>
         s.phase.Writing? && s.phase.file < |s.inodes|
         && s.inodes[s.phase.file].content == SnapshotBytes(s.phase.saving) && Writable(s.phase.saving)
       case Rename => s.phase.Synced?
       case SyncDirectory => s.phase.Renamed?
       case Throw => !s.phase.Idle?
       case Crash(survivor, garbage) => survivor < |s.history| && |garbage| == |s.inodes|
  }

  /** What a crash leaves of the files: clean ones as they were, garbage for the rest. */
  function AfterCrash(inodes: seq<Inode>, garbage: seq<string>): (r: seq<Inode>)
    requires |garbage| == |inodes|
    ensures |r| == |inodes|
    ensures forall i :: 0 <= i < |r| ==> r[i] == if inodes[i].clean then inodes[i] else Inode(garbage[i], true)
  {
    seq(|inodes|, i requires 0 <= i < |inodes| => if inodes[i].clean then inodes[i] else Inode(garbage[i], true))
  }

  function Next(s: State, a: Action): State
    requires Enabled(s, a)
  {
    match a
    case Open(entries) =>
      // O_CREAT | O_TRUNC: an existing temporary file loses its content, otherwise a new file gets the name.
      var existing := Current(s).temporary;
      if existing.Some? then
        s.(inodes := s.inodes[existing.value := Inode("", false)], phase := Writing(entries, existing.value))
      else
        s.(inodes := s.inodes + [Inode("", false)],
           history := s.history + [Current(s).(temporary := Some(|s.inodes|))],
           phase := Writing(entries, |s.inodes|))
    case Write(bytes) =>
      var file := s.phase.file;
      s.(inodes := s.inodes[file := Inode(s.inodes[file].content + bytes, false)])
    case Sync =>
      var file := s.phase.file;
      s.(inodes := s.inodes[file := s.inodes[file].(clean := true)], phase := Synced(s.phase.saving, file))
    case Rename =>
      s.(history := s.history + [Directory(Some(s.phase.file), None, Some(s.phase.saving))],
         phase := Renamed(s.phase.saving),
         renamed := s.renamed + [s.phase.saving])
    case SyncDirectory =>
      s.(history := [Current(s)], phase := Idle, durable := Some(s.phase.saving), renamed := [])
    case Throw => s.(phase := Idle)
    case Crash(survivor, garbage) =>
      State(AfterCrash(s.inodes, garbage), [s.history[survivor]], Idle, s.history[survivor].saved, [])
  }

  predicate CanRun(s: State, actions: seq<Action>)
    decreases |actions|
  {
    actions == [] || (Enabled(s, actions[0]) && CanRun(Next(s, actions[0]), actions[1..]))
  }

  function Run(s: State, actions: seq<Action>): State
    requires CanRun(s, actions)
    decreases |actions|
  {
    if actions == [] then s else Run(Next(s, actions[0]), actions[1..])
  }

  // ---------------------------------------------------------------- invariant

  /** `dump.rdb` is exactly the snapshot its record names, on a file that a crash cannot change. */
  predicate Shows(inodes: seq<Inode>, d: Directory) {
    match d.dump
    case None => d.saved.None?
    case Some(i) =>
      i < |inodes| && inodes[i].clean && d.saved.Some?
      && inodes[i].content == SnapshotBytes(d.saved.value) && Writable(d.saved.value)
  }

  predicate TemporaryApart(inodes: seq<Inode>, d: Directory) {
    d.temporary.Some? ==> d.temporary.value < |inodes| && d.dump != d.temporary
  }

  /** The current temporary file is not the snapshot in any state of the directory that a crash may bring back. */
  predicate CurrentApart(s: State)
    requires s.history != []
  {
    Current(s).temporary.Some? ==> forall k :: 0 <= k < |s.history| ==> s.history[k].dump != Current(s).temporary
  }

  /** The saves that `dump.rdb` may be found to hold. */
  predicate Candidate(s: State, saved: Option<Entries>) {
    saved == s.durable || (saved.Some? && saved.value in s.renamed)
  }

  predicate PhaseOk(s: State)
    requires s.history != []
  {
    match s.phase
    case Idle => true
    case Writing(saving, file) =>
      Current(s).temporary == Some(file) && file < |s.inodes| && s.inodes[file].content <= SnapshotBytes(saving)
    case Synced(saving, file) =>
      Current(s).temporary == Some(file) && Shows(s.inodes, Directory(Some(file), None, Some(saving)))
    case Renamed(saving) => Current(s).saved == Some(saving)
  }

  predicate Inv(s: State) {
    && s.history != []
    && (forall k :: 0 <= k < |s.history| ==> Shows(s.inodes, s.history[k]))
    && (forall k :: 0 <= k < |s.history| ==> TemporaryApart(s.inodes, s.history[k]))
    && (forall k :: 0 <= k < |s.history| ==> Candidate(s, s.history[k].saved))
    && CurrentApart(s)
    && PhaseOk(s)
  }

  lemma InvFresh()
    ensures Inv(FRESH)
  {
  }

  /** Changing one file that no directory state shows as the snapshot disturbs none of them. */
  lemma ShowsElsewhere(inodes: seq<Inode>, file: nat, inode: Inode, d: Directory)
    requires Shows(inodes, d) && file < |inodes| && d.dump != Some(file)
    ensures Shows(inodes[file := inode], d)
  {
    hide SnapshotBytes, Writable;
  }

  lemma ShowsMore(inodes: seq<Inode>, inode: Inode, d: Directory)
    requires Shows(inodes, d)
    ensures Shows(inodes + [inode], d)
  {
    hide SnapshotBytes, Writable;
  }

  lemma ShowsAfterCrash(inodes: seq<Inode>, garbage: seq<string>, d: Directory)
    requires Shows(inodes, d) && |garbage| == |inodes|
    ensures Shows(AfterCrash(inodes, garbage), d)
  {
    hide SnapshotBytes, Writable;
  }

  lemma FileChange(s: State, t: State, file: nat, inode: Inode)
    requires Inv(s) && Current(s).temporary == Some(file) && file < |s.inodes|
    requires t.history == s.history && t.durable == s.durable && t.renamed == s.renamed
    requires t.inodes == s.inodes[file := inode]
    requires PhaseOk(t)
    ensures Inv(t)
  {
    hide Shows, PhaseOk;
    forall k | 0 <= k < |t.history| ensures Shows(t.inodes, t.history[k]) {
      ShowsElsewhere(s.inodes, file, inode, s.history[k]);
    }
  }

  lemma InvOpen(s: State, entries: Entries)
    requires Inv(s) && Enabled(s, Open(entries))
    ensures Inv(Next(s, Open(entries)))
  {
    hide SnapshotBytes, Writable;
    var t := Next(s, Open(entries));
    var existing := Current(s).temporary;
    assert "" <= SnapshotBytes(entries);
    if existing.Some? {
      FileChange(s, t, existing.value, Inode("", false));
    } else {
      hide Shows;
      forall k | 0 <= k < |t.history| ensures Shows(t.inodes, t.history[k]) {
        var d := if k < |s.history| then s.history[k] else Current(s);
        ShowsMore(s.inodes, Inode("", false), d);
        SameDump(t.inodes, d, t.history[k]);
      }
      forall k | 0 <= k < |t.history|
        ensures t.history[k].dump != Some(|s.inodes|) && TemporaryApart(t.inodes, t.history[k])
          && Candidate(t, t.history[k].saved)
      {
        var d := if k < |s.history| then s.history[k] else Current(s);
        DumpIsAFile(s.inodes, d);
      }
    }
  }

  lemma SameDump(inodes: seq<Inode>, d: Directory, e: Directory)
    requires Shows(inodes, d) && e.dump == d.dump && e.saved == d.saved
    ensures Shows(inodes, e)
  {
  }

  lemma DumpIsAFile(inodes: seq<Inode>, d: Directory)
    requires Shows(inodes, d)
    ensures d.dump.Some? ==> d.dump.value < |inodes|
  {
  }

  lemma InvRename(s: State)
    requires Inv(s) && Enabled(s, Rename)
    ensures Inv(Next(s, Rename))
  {
    hide SnapshotBytes, Writable, Shows;
    var t := Next(s, Rename);
    SameDump(s.inodes, Directory(Some(s.phase.file), None, Some(s.phase.saving)), Current(t));
    forall k | 0 <= k < |t.history|
      ensures Shows(t.inodes, t.history[k]) && TemporaryApart(t.inodes, t.history[k])
        && Candidate(t, t.history[k].saved)
    {
      if k < |s.history| {
        assert t.history[k] == s.history[k];
      }
    }
  }

  lemma InvStep(s: State, a: Action)
    requires Inv(s) && Enabled(s, a)
    ensures Inv(Next(s, a))
  {
    hide SnapshotBytes, Writable;
    match a
    case Open(entries) => InvOpen(s, entries);
    case Write(bytes) =>
      FileChange(s, Next(s, a), s.phase.file, Next(s, a).inodes[s.phase.file]);
    case Sync =>
      FileChange(s, Next(s, a), s.phase.file, Next(s, a).inodes[s.phase.file]);
    case Rename => InvRename(s);
    case SyncDirectory =>
    case Throw =>
    case Crash(survivor, garbage) => ShowsAfterCrash(s.inodes, garbage, s.history[survivor]);
  }

  lemma {:induction false} InvRun(s: State, actions: seq<Action>)
    requires Inv(s) && CanRun(s, actions)
    ensures Inv(Run(s, actions))
    decreases |actions|
  {
    if actions != [] {
      InvStep(s, actions[0]);
      hide Inv, Enabled, Next;
      InvRun(Next(s, actions[0]), actions[1..]);
    }
  }

  // ----------------------------------------------------------------- theorems

  /** What is read from `dump.rdb`. */
  function DumpFile(s: State): Option<string> {
    if s.history == [] || Current(s).dump.None? || Current(s).dump.value >= |s.inodes| then None
    else Some(s.inodes[Current(s).dump.value].content)
  }

  /** The bytes a save puts on disk. */
  function BytesOf(saved: Option<Entries>): Option<string> {
    if saved.None? then None else Some(SnapshotBytes(saved.value))
  }

  /** The save whose file was last given the name: since the last return or crash, or else the one found then. */
  function Latest(s: State): Option<Entries> {
    if s.renamed == [] then s.durable else Some(s.renamed[|s.renamed| - 1])
  }

  predicate ShowsLatest(s: State) { s.history != [] && Current(s).saved == Latest(s) }

  lemma ShowsLatestStep(s: State, a: Action)
    requires Inv(s) && Enabled(s, a) && ShowsLatest(s)
    ensures ShowsLatest(Next(s, a))
  {
    hide Shows, TemporaryApart, CurrentApart, Candidate, SnapshotBytes, Writable, AfterCrash;
  }

  lemma {:induction false} ShowsLatestRun(s: State, actions: seq<Action>)
    requires Inv(s) && CanRun(s, actions) && ShowsLatest(s)
    ensures ShowsLatest(Run(s, actions))
    decreases |actions|
  {
    if actions != [] {
      InvStep(s, actions[0]);
      ShowsLatestStep(s, actions[0]);
      hide Inv, Enabled, Next, ShowsLatest;
      ShowsLatestRun(Next(s, actions[0]), actions[1..]);
    }
  }

  /**
   * At any point of any run of saves, failures and crashes, `dump.rdb` is one complete snapshot: of the save that has
   * last renamed its file, and if none has since the last return or crash, of the save that returned or was found.
   */
  lemma SnapshotIsAlwaysWhole(actions: seq<Action>)
    requires CanRun(FRESH, actions)
    ensures var s := Run(FRESH, actions);
            DumpFile(s) == BytesOf(Latest(s)) && (Latest(s).Some? ==> Writable(Latest(s).value))
  {
    InvFresh();
    InvRun(FRESH, actions);
    ShowsLatestRun(FRESH, actions);
    var s := Run(FRESH, actions);
    hide SnapshotBytes, Writable, Run, CanRun;
    assert Shows(s.inodes, Current(s));
  }

  lemma StaysPresent(s: State, a: Action)
    requires Inv(s) && Enabled(s, a)
    ensures s.durable.Some? ==> Next(s, a).durable.Some?
    ensures !a.Crash? && (Latest(s).Some? || a.Rename?) ==> Latest(Next(s, a)).Some?
    ensures !a.Rename? && Latest(s).None? ==> Latest(Next(s, a)).None?
  {
    hide Shows, TemporaryApart, CurrentApart, SnapshotBytes, Writable, AfterCrash;
    if a.Crash? {
      assert Candidate(s, s.history[a.survivor].saved);
    }
  }

  lemma {:induction false} PresenceRun(s: State, actions: seq<Action>)
    requires Inv(s) && CanRun(s, actions)
    ensures s.durable.Some? ==> Run(s, actions).durable.Some?
    ensures (forall i :: 0 <= i < |actions| ==> !actions[i].Crash?) ==>
              (Latest(Run(s, actions)).Some? <==>
                 Latest(s).Some? || exists i :: 0 <= i < |actions| && actions[i].Rename?)
    decreases |actions|
  {
    if actions != [] {
      var a, rest := actions[0], actions[1..];
      InvStep(s, a);
      StaysPresent(s, a);
      hide Inv, Enabled, Next, Latest;
      PresenceRun(Next(s, a), rest);
      if exists i :: 0 <= i < |actions| && actions[i].Rename? {
        var i :| 0 <= i < |actions| && actions[i].Rename?;
        assert i > 0 ==> rest[i - 1].Rename?;
      }
      if exists j :: 0 <= j < |rest| && rest[j].Rename? {
        var j :| 0 <= j < |rest| && rest[j].Rename?;
        assert actions[j + 1].Rename?;
      }
    }
  }

  /** While nothing has crashed, `dump.rdb` is absent exactly as long as no save has renamed its file. */
  lemma AbsentUntilARename(actions: seq<Action>)
    requires CanRun(FRESH, actions) && forall i :: 0 <= i < |actions| ==> !actions[i].Crash?
    ensures DumpFile(Run(FRESH, actions)).None? <==> forall i :: 0 <= i < |actions| ==> !actions[i].Rename?
  {
    InvFresh();
    SnapshotIsAlwaysWhole(actions);
    PresenceRun(FRESH, actions);
    hide SnapshotBytes, Writable, Run, CanRun, DumpFile;
  }

  /** Once a save has returned, `dump.rdb` is there for good, whatever fails or crashes later. */
  lemma PresentOnceReturned(actions: seq<Action>, later: seq<Action>)
    requires CanRun(FRESH, actions) && Enabled(Run(FRESH, actions), SyncDirectory)
    requires CanRun(Next(Run(FRESH, actions), SyncDirectory), later)
    ensures DumpFile(Run(Next(Run(FRESH, actions), SyncDirectory), later)).Some?
  {
    InvFresh();
    InvRun(FRESH, actions);
    ShowsLatestRun(FRESH, actions);
    var s := Run(FRESH, actions);
    var t := Next(s, SyncDirectory);
    InvStep(s, SyncDirectory);
    ShowsLatestStep(s, SyncDirectory);
    InvRun(t, later);
    ShowsLatestRun(t, later);
    PresenceRun(t, later);
    hide SnapshotBytes, Writable, Run, CanRun;
    assert Shows(Run(t, later).inodes, Current(Run(t, later)));
  }

  /**
   * A crash at any point leaves `dump.rdb` a complete snapshot of the save that last returned, or of one that had
   * renamed its file since; when no save had, it leaves it as the last crash did.
   */
  lemma CrashLeavesAWholeSnapshot(actions: seq<Action>, survivor: nat, garbage: seq<string>)
    requires CanRun(FRESH, actions) && Enabled(Run(FRESH, actions), Crash(survivor, garbage))
    ensures var s := Run(FRESH, actions);
            var t := Next(s, Crash(survivor, garbage));
            && Candidate(s, t.durable) && DumpFile(t) == BytesOf(t.durable)
            && (t.durable.Some? ==> Writable(t.durable.value))
  {
    InvFresh();
    InvRun(FRESH, actions);
    var s := Run(FRESH, actions);
    hide SnapshotBytes, Writable, Run, CanRun;
    InvStep(s, Crash(survivor, garbage));
    assert Shows(Next(s, Crash(survivor, garbage)).inodes, s.history[survivor]);
    assert Candidate(s, s.history[survivor].saved);
  }

  predicate NothingPending(s: State) {
    !s.phase.Renamed? && forall k :: 0 <= k < |s.history| ==> s.history[k].saved == s.durable
  }

  predicate RenamesNothing(actions: seq<Action>) {
    forall i :: 0 <= i < |actions| ==> !actions[i].Rename?
  }

  /** Once a save has returned, and until another renames its file, any crash leaves exactly that snapshot. */
  lemma ReturnedSaveIsDurable(actions: seq<Action>, later: seq<Action>, survivor: nat, garbage: seq<string>)
    requires CanRun(FRESH, actions) && Enabled(Run(FRESH, actions), SyncDirectory)
    requires var r := Next(Run(FRESH, actions), SyncDirectory);
             CanRun(r, later) && RenamesNothing(later) && Enabled(Run(r, later), Crash(survivor, garbage))
    ensures var s := Run(FRESH, actions);
            var t := Next(Run(Next(s, SyncDirectory), later), Crash(survivor, garbage));
            DumpFile(t) == Some(SnapshotBytes(s.phase.saving))
  {
    InvFresh();
    InvRun(FRESH, actions);
    var s := Run(FRESH, actions);
    InvStep(s, SyncDirectory);
    SyncedLast(s);
    hide SnapshotBytes, Run, CanRun, Inv, Enabled, Next, DumpFile, RenamesNothing, NothingPending;
    CrashBeforeRename(Next(s, SyncDirectory), later, survivor, garbage);
  }

  lemma SyncedLast(s: State)
    requires Inv(s) && Enabled(s, SyncDirectory)
    ensures NothingPending(Next(s, SyncDirectory)) && Next(s, SyncDirectory).durable == Some(s.phase.saving)
  {
    hide Shows, TemporaryApart, CurrentApart, Candidate;
  }

  lemma CrashBeforeRename(s: State, later: seq<Action>, survivor: nat, garbage: seq<string>)
    requires Inv(s) && NothingPending(s) && CanRun(s, later) && RenamesNothing(later)
    requires Enabled(Run(s, later), Crash(survivor, garbage))
    ensures DumpFile(Next(Run(s, later), Crash(survivor, garbage))) == BytesOf(s.durable)
  {
    InvRun(s, later);
    NothingRenamed(s, later);
    hide Run, CanRun, Inv, RenamesNothing;
    CrashWithNothingPending(Run(s, later), survivor, garbage);
  }

  lemma CrashWithNothingPending(s: State, survivor: nat, garbage: seq<string>)
    requires Inv(s) && NothingPending(s) && Enabled(s, Crash(survivor, garbage))
    ensures DumpFile(Next(s, Crash(survivor, garbage))) == BytesOf(s.durable)
  {
    hide SnapshotBytes, Writable, TemporaryApart, CurrentApart, Candidate;
    ShowsAfterCrash(s.inodes, garbage, s.history[survivor]);
  }

  lemma NothingRenamedStep(s: State, a: Action)
    requires Enabled(s, a) && !a.Rename? && NothingPending(s)
    ensures NothingPending(Next(s, a)) && Next(s, a).durable == s.durable
  {
    hide SnapshotBytes, Writable, AfterCrash;
  }

  lemma {:induction false} NothingRenamed(s: State, actions: seq<Action>)
    requires CanRun(s, actions) && RenamesNothing(actions) && NothingPending(s)
    ensures NothingPending(Run(s, actions)) && Run(s, actions).durable == s.durable
    decreases |actions|
  {
    if actions != [] {
      assert !actions[0].Rename?;
      hide Enabled, Next, NothingPending;
      NothingRenamedStep(s, actions[0]);
      NothingRenamed(Next(s, actions[0]), actions[1..]);
    }
  }

  /** The file that a save opens and truncates is not one that any crash could make `dump.rdb`. */
  lemma TruncatedFileIsNeverTheSnapshot(actions: seq<Action>, entries: Entries, k: nat)
    requires CanRun(FRESH, actions) && Enabled(Run(FRESH, actions), Open(entries))
    requires k < |Run(FRESH, actions).history|
    ensures var s := Run(FRESH, actions);
            s.history[k].dump != Some(Next(s, Open(entries)).phase.file)
  {
    InvFresh();
    InvRun(FRESH, actions);
    var s := Run(FRESH, actions);
    hide SnapshotBytes, Writable, Run, CanRun;
    assert Shows(s.inodes, s.history[k]);
  }

  /** So recovery after a crash restores exactly what one of those saves had written. */
  lemma RecoveryAfterCrash(actions: seq<Action>, survivor: nat, garbage: seq<string>)
    requires CanRun(FRESH, actions) && Enabled(Run(FRESH, actions), Crash(survivor, garbage))
    ensures var s := Run(FRESH, actions);
            var t := Next(s, Crash(survivor, garbage));
            && Candidate(s, t.durable)
            && (t.durable.None? <==> DumpFile(t).None?)
            && (t.durable.Some? && |t.durable.value| <= MAX_SNAPSHOT_ENTRIES ==>
                  ReadSnapshot(DumpFile(t).value).entries == t.durable.value
                  && ReadSnapshot(DumpFile(t).value).outcome.Ok?)
  {
    CrashLeavesAWholeSnapshot(actions, survivor, garbage);
    var t := Next(Run(FRESH, actions), Crash(survivor, garbage));
    if t.durable.Some? && |t.durable.value| <= MAX_SNAPSHOT_ENTRIES {
      SnapshotRoundTrip(t.durable.value, "");
      assert SnapshotBytes(t.durable.value) + "" == SnapshotBytes(t.durable.value);
    }
  }
}
