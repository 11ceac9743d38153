/** The log that the dispatcher's accepted writes would make, against the dispatcher's own store. */
module DispatcherLog {
  import opened Wrappers
  import opened Text
  import opened Databases
  import opened Dispatching
  import opened Replaying

  /** A SET or DEL that the dispatcher carries out; its name may be spelled in any case. */
  predicate IsAcceptedWrite(parts: seq<string>) {
    parts != []
    && var verb := VerbOf(ToUpper(parts[0]));
       (verb.SetVerb? && |parts| == 3) || (verb.DelVerb? && |parts| == 2)
  }

  /** Replay knows each name in two spellings only. */
  predicate KnownToReplay(parts: seq<string>) {
    parts != []
    && var verb := VerbOf(ToUpper(parts[0]));
       (verb.SetVerb? ==> IsSet(parts[0])) && (verb.DelVerb? ==> IsDel(parts[0]))
  }

  predicate IsExpire(parts: seq<string>) { parts != [] && VerbOf(ToUpper(parts[0])).ExpireVerb? }

  ghost predicate NoDeadlines(store: Store) {
    forall key :: key in store ==> store[key].expiresAt.None?
  }

  /** A command list and the moments at which its commands run. */
  datatype Executed = Executed(parts: seq<string>, moment: Moment)

  function DispatchStore(store: Store, e: Executed): Store
    requires e.parts != []
  {
    ExecuteCommand(store, ToUpper(e.parts[0]), e.parts[1..], e.moment).store
  }

  predicate Nonempty(run: seq<Executed>) {
    forall i :: 0 <= i < |run| ==> run[i].parts != []
  }

  function DispatchRun(store: Store, run: seq<Executed>): Store
    requires Nonempty(run)
    decreases |run|
  {
    if run == [] then store else DispatchRun(DispatchStore(store, run[0]), run[1..])
  }

  /** The accepted writes of a run, as they were sent. */
  function AcceptedWrites(run: seq<Executed>): seq<seq<string>> {
    if run == [] then []
    else (if IsAcceptedWrite(run[0].parts) then [run[0].parts] else []) + AcceptedWrites(run[1..])
  }

  /** What replay makes of one executed command. */
  function Mirror(store: Store, parts: seq<string>): Store {
    if !IsAcceptedWrite(parts) || ReplayRecord(store, parts).Err? then store else ReplayRecord(store, parts).value
  }

  /** The command changes the store in a spelling that replay skips. */
  predicate LostByReplay(store: Store, parts: seq<string>) {
    IsAcceptedWrite(parts) && !KnownToReplay(parts)
    && if VerbOf(ToUpper(parts[0])).SetVerb? then
         parts[1] !in store || store[parts[1]].value != parts[2]
       else parts[1] in store
  }

  lemma UpperIsUpper(s: string, i: nat)
    requires i < |s|
    ensures ToUpper(s)[i] == UpperChar(s[i])
  {
  }

  /** The names replay knows are names the dispatcher takes for the same commands. */
  lemma KnownNames(name: string)
    ensures IsSet(name) ==> VerbOf(ToUpper(name)).SetVerb?
    ensures IsDel(name) ==> VerbOf(ToUpper(name)).DelVerb?
  {
    if IsSet(name) {
      assert ToUpper(name) == "SET";
    }
    if IsDel(name) {
      assert ToUpper(name) == "DEL";
    }
  }

  lemma AcceptedOperation(e: Executed)
    requires e.parts != [] && IsAcceptedWrite(e.parts)
    ensures OperationOf(VerbOf(ToUpper(e.parts[0])), e.parts[1..]) ==
            Some(if VerbOf(ToUpper(e.parts[0])).SetVerb? then Operation.Set(e.parts[1], e.parts[2])
                 else Operation.Del(e.parts[1]))
  {
    hide VerbOf, ToUpper;
  }

  /** An accepted write is a record replay does not refuse; it has the same effect exactly when it is not lost. */
  lemma WriteIsMirroredExactly(store: Store, e: Executed)
    requires e.parts != [] && IsAcceptedWrite(e.parts) && NoDeadlines(store)
    ensures ReplayRecord(store, e.parts).Ok?
    ensures Mirror(store, e.parts) == DispatchStore(store, e) <==> !LostByReplay(store, e.parts)
    ensures NoDeadlines(DispatchStore(store, e))
  {
    AcceptedOperation(e);
    KnownNames(e.parts[0]);
    hide VerbOf, ToUpper, IsSet, IsDel, OperationOf, LazyAnswer;
    var verb := VerbOf(ToUpper(e.parts[0]));
    var after := DispatchStore(store, e);
    if verb.SetVerb? {
      assert after == store[e.parts[1] := Entry(e.parts[2], None)];
      assert after == store <==> e.parts[1] in store && store[e.parts[1]] == Entry(e.parts[2], None);
    } else {
      assert after == store - {e.parts[1]};
      assert after == store <==> e.parts[1] !in store;
    }
  }

  /** In a store without deadlines every other command but EXPIRE changes nothing. */
  lemma OthersChangeNothing(store: Store, e: Executed)
    requires e.parts != [] && !IsAcceptedWrite(e.parts) && !IsExpire(e.parts) && NoDeadlines(store)
    ensures DispatchStore(store, e) == store
  {
    hide VerbOf, ToUpper, LazyAnswer;
    var op := OperationOf(VerbOf(ToUpper(e.parts[0])), e.parts[1..]);
    if op.Some? {
      assert !op.value.Set? && !op.value.Del? && !op.value.Expire?;
      assert op.value.key in store ==> store[op.value.key].expiresAt.None?;
    }
  }

  lemma StepIsMirroredExactly(store: Store, e: Executed)
    requires e.parts != [] && !IsExpire(e.parts) && NoDeadlines(store)
    ensures Mirror(store, e.parts) == DispatchStore(store, e) <==> !LostByReplay(store, e.parts)
    ensures NoDeadlines(DispatchStore(store, e))
  {
    if IsAcceptedWrite(e.parts) {
      WriteIsMirroredExactly(store, e);
    } else {
      OthersChangeNothing(store, e);
    }
  }

  /** Replaying the writes accepted so far gives the store, before the run and after each of its commands. */
  predicate MirroredThroughout(mirror: Store, store: Store, run: seq<Executed>)
    requires Nonempty(run)
    decreases |run|
  {
    mirror == store
    && (run != [] ==> MirroredThroughout(Mirror(mirror, run[0].parts), DispatchStore(store, run[0]), run[1..]))
  }

  predicate NothingLost(store: Store, run: seq<Executed>)
    requires Nonempty(run)
    decreases |run|
  {
    run == [] || (!LostByReplay(store, run[0].parts) && NothingLost(DispatchStore(store, run[0]), run[1..]))
  }

  predicate ExpireFree(run: seq<Executed>) {
    forall i :: 0 <= i < |run| ==> !IsExpire(run[i].parts)
  }

  /**
   * In a run without EXPIRE, replay keeps up with the dispatcher all the way exactly when no write that changes the
   * store is spelled in mixed case.
   */
  lemma {:induction false} MirroredExactly(store: Store, run: seq<Executed>)
    requires Nonempty(run) && ExpireFree(run) && NoDeadlines(store)
    ensures MirroredThroughout(store, store, run) <==> NothingLost(store, run)
    decreases |run|
  {
    if run != [] {
      hide LostByReplay, DispatchStore, Mirror, NoDeadlines, IsExpire;
      assert !IsExpire(run[0].parts);
      StepIsMirroredExactly(store, run[0]);
      if LostByReplay(store, run[0].parts) {
        NotMirrored(Mirror(store, run[0].parts), DispatchStore(store, run[0]), run[1..]);
      } else {
        assert ExpireFree(run[1..]);
        MirroredExactly(DispatchStore(store, run[0]), run[1..]);
      }
    }
  }

  lemma NotMirrored(mirror: Store, store: Store, run: seq<Executed>)
    requires Nonempty(run) && mirror != store
    ensures !MirroredThroughout(mirror, store, run)
  {
  }

  predicate AllKnown(run: seq<Executed>) {
    forall i :: 0 <= i < |run| ==> IsAcceptedWrite(run[i].parts) ==> KnownToReplay(run[i].parts)
  }

  /**
   * Replaying the accepted SET and DEL requests of a run without EXPIRE, all spelled in upper or in lower case,
   * rebuilds the dispatcher's store.
   */
  lemma {:induction false} ReplayRebuildsTheStore(store: Store, run: seq<Executed>)
    requires Nonempty(run) && ExpireFree(run) && AllKnown(run) && NoDeadlines(store)
    ensures ReplayAll(store, AcceptedWrites(run)) == Ok(DispatchRun(store, run))
    decreases |run|
  {
    if run != [] {
      hide DispatchStore, ReplayRecord, NoDeadlines, IsExpire, IsAcceptedWrite, KnownToReplay;
      var e, rest := run[0], run[1..];
      assert !IsExpire(e.parts) && (IsAcceptedWrite(e.parts) ==> KnownToReplay(e.parts));
      StepIsMirroredExactly(store, e);
      assert Nonempty(rest) && ExpireFree(rest) && AllKnown(rest);
      ReplayRebuildsTheStore(DispatchStore(store, e), rest);
      if IsAcceptedWrite(e.parts) {
        WriteIsMirroredExactly(store, e);
        var writes := AcceptedWrites(run);
        assert writes[0] == e.parts && writes[1..] == AcceptedWrites(rest);
      } else {
        OthersChangeNothing(store, e);
        assert [] + AcceptedWrites(rest) == AcceptedWrites(rest);
      }
    }
  }

  predicate AllUpper(s: string) { forall i :: 0 <= i < |s| ==> UpperChar(s[i]) == s[i] }

  predicate AllLower(s: string) { forall i :: 0 <= i < |s| ==> !('A' <= s[i] <= 'Z') }

  /** Names in one case are known. */
  lemma OneCaseIsKnown(parts: seq<string>)
    requires parts != [] && (AllUpper(parts[0]) || AllLower(parts[0]))
    ensures KnownToReplay(parts)
  {
    var name, upper := parts[0], ToUpper(parts[0]);
    if upper == "SET" {
      ThreeLetters(name, 'S', 'E', 'T', "SET", "set");
    } else if upper == "DEL" {
      ThreeLetters(name, 'D', 'E', 'L', "DEL", "del");
    }
  }

  lemma ThreeLetters(name: string, a: char, b: char, c: char, upper: string, lower: string)
    requires ToUpper(name) == upper && upper == [a, b, c]
    requires 'A' <= a <= 'Z' && 'A' <= b <= 'Z' && 'A' <= c <= 'Z'
    requires lower == [(a as int + 32) as char, (b as int + 32) as char, (c as int + 32) as char]
    requires AllUpper(name) || AllLower(name)
    ensures name == upper || name == lower
  {
    assert |name| == 3;
    UpperIsUpper(name, 0);
    UpperIsUpper(name, 1);
    UpperIsUpper(name, 2);
    assert upper[0] == a && upper[1] == b && upper[2] == c;
    if AllUpper(name) {
      assert name == upper;
    } else {
      assert name == lower;
    }
  }

  /** So a log of requests spelled in one case rebuilds the store from nothing. */
  lemma OneCaseRunIsRebuilt(run: seq<Executed>)
    requires Nonempty(run) && ExpireFree(run)
    requires forall i :: 0 <= i < |run| ==> AllUpper(run[i].parts[0]) || AllLower(run[i].parts[0])
    ensures ReplayAll(map[], AcceptedWrites(run)) == Ok(DispatchRun(map[], run))
  {
    forall i | 0 <= i < |run| ensures KnownToReplay(run[i].parts) {
      OneCaseIsKnown(run[i].parts);
    }
    ReplayRebuildsTheStore(map[], run);
  }

  /** "Set" is carried out by the dispatcher and skipped by replay. */
  lemma MixedCaseIsLost(moment: Moment)
    ensures var e := Executed(["Set", "k", "v"], moment);
            && DispatchRun(map[], [e]) == map["k" := Entry("v", None)]
            && ReplayAll(map[], AcceptedWrites([e])) == Ok(map[])
  {
    var e := Executed(["Set", "k", "v"], moment);
    assert ToUpper("Set") == "SET";
    assert IsAcceptedWrite(e.parts);
    AcceptedOperation(e);
    assert [e][1..] == [] && AcceptedWrites([e]) == [e.parts] + AcceptedWrites([]);
    assert AcceptedWrites([e])[1..] == [];
    assert ReplayRecord(map[], e.parts) == Ok(map[]);
  }
}
