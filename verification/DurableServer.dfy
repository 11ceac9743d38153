/** The server and its disk together: what a client may count on once a SAVE has been answered. */
module DurableServing {
  import opened Wrappers
  import opened Text
  import opened RespParsing
  import opened Databases
  import opened Snapshots
  import opened Dispatching
  import opened Serving
  import Refinement = ServerRefinement
  import Disk = SnapshotCrash
  import opened SnapshotSaving

  /** How a save walks the hash table: the keys in order, with the clock reading at each. */
  datatype Walk = Walk(order: seq<string>, readings: seq<int>)

  /** A SAVE that reaches the persistence layer. */
  predicate IsSave(request: string) {
    match ParseRequest(request)
    case Err(_) => false
    case Ok(parts) => |parts| == 1 && VerbOf(ToUpper(parts[0])).SaveVerb?
  }

  /**
   * The disk during one request: a SAVE is one run of the saving protocol over the entries of the store, and its
   * outcome is the one that the dispatcher reports; any other request leaves the disk alone.
   */
  ghost predicate OnDisk(store: Store, request: string, moment: Moment, walk: Walk, before: Disk.State,
                         actions: seq<Disk.Action>, after: Disk.State)
  {
    if IsSave(request) then
      && IsIteration(walk.order, store) && |walk.readings| == |walk.order| && after.phase.Idle?
      && Saves(before, actions, after, EntriesOf(store, walk.order, walk.readings), moment.saveFailure.None?)
    else actions == [] && after == before
  }

  /** The store before request number `i`. */
  function StoreAt(start: Store, requests: seq<string>, i: nat, env: nat -> Moment): Store
    requires i <= |requests|
  {
    RunRequests(start, requests[..i], 0, env).store
  }

  /** The disk before each request and after the last: `disks` has one state more than there are requests. */
  ghost predicate Follows(start: Store, requests: seq<string>, env: nat -> Moment, walks: seq<Walk>,
                          traces: seq<seq<Disk.Action>>, disks: seq<Disk.State>)
  {
    && |walks| == |traces| == |requests| && |disks| == |requests| + 1
    && Disk.Inv(disks[0]) && disks[0].phase.Idle?
    && forall i :: 0 <= i < |requests| ==>
         OnDisk(StoreAt(start, requests, i, env), requests[i], env(i), walks[i], disks[i], traces[i], disks[i + 1])
  }

  lemma FirstReply(store: Store, requests: seq<string>, first: nat, env: nat -> Moment)
    requires requests != []
    ensures RunRequests(store, requests, first, env).replies[0]
         == ReplyText(ServeRequest(store, requests[0], env(first)).reply)
  {
    hide ServeRequest, ReplyText;
  }

  lemma ReplyAt(start: Store, requests: seq<string>, i: nat, env: nat -> Moment)
    requires i < |requests|
    ensures RunRequests(start, requests, 0, env).replies[i]
         == ReplyText(ServeRequest(StoreAt(start, requests, i, env), requests[i], env(i)).reply)
  {
    hide ServeRequest, ReplyText, RunRequests;
    assert requests == requests[..i] + requests[i..];
    Refinement.RunAppend(start, requests[..i], requests[i..], 0, env);
    FirstReply(StoreAt(start, requests, i, env), requests[i..], i, env);
    assert requests[i..][0] == requests[i];
  }

  /** A SAVE answers OK exactly when the save returned. */
  lemma SaveReply(store: Store, request: string, moment: Moment)
    requires IsSave(request)
    ensures ReplyText(ServeRequest(store, request, moment).reply) == ReplyText(Okay) <==> moment.saveFailure.None?
  {
    hide ParseRequest, ToUpper, VerbOf;
    if moment.saveFailure.Some? {
      assert ReplyText(Okay)[0] == '+' && ReplyText(PersistenceFailure(moment.saveFailure.value))[0] == '-';
    }
  }

  lemma NothingRenamedStep(s: Disk.State, a: Disk.Action)
    requires Disk.Enabled(s, a) && !a.Rename? && !a.Crash? && s.renamed == [] && !s.phase.Renamed?
    ensures var t := Disk.Next(s, a);
            t.durable == s.durable && t.renamed == [] && !t.phase.Renamed?
  {
    hide SnapshotBytes, Writable;
  }

  lemma {:induction false} NothingRenamed(s: Disk.State, actions: seq<Disk.Action>, t: Disk.State)
    requires Leads(s, actions, t) && Disk.RenamesNothing(actions) && s.renamed == [] && !s.phase.Renamed?
    ensures t.durable == s.durable && t.renamed == []
    decreases |actions|
  {
    if actions != [] {
      assert !actions[0].Rename? && !actions[0].Crash?;
      hide Disk.Enabled, Disk.Next;
      NothingRenamedStep(s, actions[0]);
      NothingRenamed(Disk.Next(s, actions[0]), actions[1..], t);
    }
  }

  lemma StaysSound(s: Disk.State, actions: seq<Disk.Action>, t: Disk.State)
    requires Disk.Inv(s) && Leads(s, actions, t)
    ensures Disk.Inv(t)
  {
    Disk.InvRun(s, actions);
  }

  lemma {:induction false} FewerEntries(store: Store, order: seq<string>, readings: seq<int>)
    requires (forall key :: key in order ==> key in store) && |readings| == |order|
    ensures |EntriesOf(store, order, readings)| <= |order|
    decreases |order|
  {
    if order != [] {
      FewerEntries(store, order[..|order| - 1], readings[..|order| - 1]);
    }
  }

  lemma {:induction false} DiskIsSound(start: Store, requests: seq<string>, env: nat -> Moment, walks: seq<Walk>,
                                       traces: seq<seq<Disk.Action>>, disks: seq<Disk.State>, i: nat)
    requires Follows(start, requests, env, walks, traces, disks) && i <= |requests|
    ensures Disk.Inv(disks[i]) && disks[i].phase.Idle?
  {
    if i > 0 {
      DiskIsSound(start, requests, env, walks, traces, disks, i - 1);
      hide Disk.Inv, StoreAt, IsSave, IsIteration;
      assert OnDisk(StoreAt(start, requests, i - 1, env), requests[i - 1], env(i - 1), walks[i - 1], disks[i - 1],
                    traces[i - 1], disks[i]);
      if IsSave(requests[i - 1]) {
        StaysSound(disks[i - 1], traces[i - 1], disks[i]);
      }
    }
  }

  /** One request that renames nothing. */
  lemma RequestKeepsDurable(store: Store, request: string, moment: Moment, walk: Walk, before: Disk.State,
                            actions: seq<Disk.Action>, after: Disk.State)
    requires OnDisk(store, request, moment, walk, before, actions, after) && Disk.RenamesNothing(actions)
    requires before.renamed == [] && before.phase.Idle?
    ensures after.durable == before.durable && after.renamed == []
  {
    hide IsSave, IsIteration, Leads, EntriesOf;
    if IsSave(request) {
      NothingRenamed(before, actions, after);
    }
  }

  /** While nothing is renamed, what the answered SAVE made durable stays so. */
  lemma {:induction false} StaysDurable(start: Store, requests: seq<string>, env: nat -> Moment, walks: seq<Walk>,
                                        traces: seq<seq<Disk.Action>>, disks: seq<Disk.State>, n: nat, i: nat)
    requires Follows(start, requests, env, walks, traces, disks) && n < i <= |requests|
    requires disks[n + 1].renamed == [] && forall k :: n < k < |requests| ==> Disk.RenamesNothing(traces[k])
    ensures disks[i].durable == disks[n + 1].durable && disks[i].renamed == []
    decreases i
  {
    if i > n + 1 {
      var k := i - 1;
      StaysDurable(start, requests, env, walks, traces, disks, n, k);
      DiskIsSound(start, requests, env, walks, traces, disks, k);
      hide Disk.Inv, StoreAt, OnDisk, Disk.RenamesNothing;
      RequestKeepsDurable(StoreAt(start, requests, k, env), requests[k], env(k), walks[k], disks[k], traces[k],
                          disks[k + 1]);
    }
  }

  lemma AnsweredSaveIsDurable(start: Store, requests: seq<string>, env: nat -> Moment, walks: seq<Walk>,
                              traces: seq<seq<Disk.Action>>, disks: seq<Disk.State>, n: nat)
    requires Follows(start, requests, env, walks, traces, disks) && n < |requests| && IsSave(requests[n])
    requires RunRequests(start, requests, 0, env).replies[n] == ReplyText(Okay)
    ensures var store := StoreAt(start, requests, n, env);
            && IsIteration(walks[n].order, store) && |walks[n].readings| == |walks[n].order|
            && disks[n + 1].durable == Some(EntriesOf(store, walks[n].order, walks[n].readings))
            && disks[n + 1].renamed == []
  {
    var store := StoreAt(start, requests, n, env);
    ReplyAt(start, requests, n, env);
    SaveReply(store, requests[n], env(n));
    hide Disk.Inv, StoreAt, IsSave, IsIteration, ServeRequest, ReplyText, RunRequests, EntriesOf;
    assert OnDisk(store, requests[n], env(n), walks[n], disks[n], traces[n], disks[n + 1]);
  }

  /**
   * In any run of the server, with any number of connections: once a SAVE has been answered OK, and until another save
   * renames its file, a crash at any moment, even in the middle of a later save, followed by recovery into an empty
   * store gives exactly the entries that were live when that SAVE was executed, without their deadlines.
   */
  lemma AnsweredSaveSurvivesACrash(start: Store, events: seq<Event>, env: nat -> Moment, walks: seq<Walk>,
                                   traces: seq<seq<Disk.Action>>, disks: seq<Disk.State>, n: nat, now: int,
                                   pending: seq<Disk.Action>, middle: Disk.State,
                                   survivor: nat, garbage: seq<string>)
    requires CanRun(Refinement.Initial(start), events, env)
    requires var log := Run(Refinement.Initial(start), events, env).log;
             var requests := Refinement.Requests(log);
             && Follows(start, requests, env, walks, traces, disks)
             && n < |log| && IsSave(log[n].request) && log[n].reply == ReplyText(Okay)
             && (forall i :: 0 <= i < |walks[n].readings| ==> walks[n].readings[i] == now)
             && |walks[n].order| <= MAX_SNAPSHOT_ENTRIES
             && (forall k :: n < k < |requests| ==> Disk.RenamesNothing(traces[k]))
             && Leads(disks[|requests|], pending, middle) && Disk.RenamesNothing(pending)
             && Disk.Enabled(middle, Disk.Crash(survivor, garbage))
    ensures var requests := Refinement.Requests(Run(Refinement.Initial(start), events, env).log);
            var dump := Disk.DumpFile(Disk.Next(middle, Disk.Crash(survivor, garbage)));
            && dump.Some? && ReadSnapshot(dump.value).outcome.Ok?
            && RestoreAll(map[], ReadSnapshot(dump.value).entries) == Kept(StoreAt(start, requests, n, env), now)
  {
    var log := Run(Refinement.Initial(start), events, env).log;
    var requests := Refinement.Requests(log);
    Refinement.ServerIsSerial(start, events, env, 0);
    Refinement.RequestAt(log, n);
    Refinement.ReplyAt(log, n);
    hide Run, CanRun, Refinement.Requests, Refinement.Replies, RunRequests, ReplyText, IsSave, StoreAt, Follows;
    hide Disk.Inv, Disk.Next, Disk.Enabled, Disk.DumpFile, Leads, Disk.RenamesNothing, IsIteration, EntriesOf;
    AnsweredSaveIsDurable(start, requests, env, walks, traces, disks, n);
    DiskIsSound(start, requests, env, walks, traces, disks, |requests|);
    StaysDurable(start, requests, env, walks, traces, disks, n, |requests|);
    NothingRenamed(disks[|requests|], pending, middle);
    StaysSound(disks[|requests|], pending, middle);
    var store := StoreAt(start, requests, n, env);
    FewerEntries(store, walks[n].order, walks[n].readings);
    SavedStoreSurvivesACrash(middle, store, walks[n].order, walks[n].readings, now, survivor, garbage);
  }
}
