/** The lazily expiring store against one that drops every key the instant it expires. */
module LazyExpiry {
  import opened Wrappers
  import opened Databases

  function Live(store: Store, now: int): Store {
    map key | key in store && !IsExpired(store[key], now) :: store[key]
  }

  /** The eager store: expired keys are gone before an operation looks. */
  function EagerStore(store: Store, op: Operation, tick: Tick): Store {
    var live := Live(store, tick.now);
    match op
    case Set(key, value) => live[key := Entry(value, None)]
    case Del(key) => live - {key}
    case Expire(key, seconds) =>
      if key in live then live[key := Entry(live[key].value, Some(tick.now + seconds * SECOND))] else live
    case _ => live
  }

  function EagerAnswer(store: Store, op: Operation, tick: Tick): Answer {
    var live := Live(store, tick.now);
    match op
    case Get(key) => Value(if key in live then Some(live[key].value) else None)
    case Del(key) => Flag(key in live)
    case Exists(key) => Flag(key in live)
    case Ttl(key) =>
      if key !in live then Seconds(-2)
      else if live[key].expiresAt.None? then Seconds(-1)
      else Seconds(Remaining(live[key].expiresAt.value, tick.later))
    case _ => Done
  }

  /** EXPIRE does not purge first: it gives a new deadline to a key that has expired but was not touched since. */
  predicate Revives(store: Store, op: Operation, now: int) {
    op.Expire? && op.key in store && IsExpired(store[op.key], now) && op.seconds > 0
  }

  /** The two stores hold the same keys at `now`, not counting the dead ones still in memory. */
  predicate Agree(lazy: Store, eager: Store, now: int) {
    Live(lazy, now) == Live(eager, now)
  }

  lemma LiveLater(store: Store, now: int, later: int)
    requires now <= later
    ensures Live(Live(store, now), later) == Live(store, later)
  {
  }

  lemma AgreeLater(lazy: Store, eager: Store, now: int, later: int)
    requires Agree(lazy, eager, now) && now <= later
    ensures Agree(lazy, eager, later)
  {
    LiveLater(lazy, now, later);
    LiveLater(eager, now, later);
  }

  lemma SameAnswer(lazy: Store, eager: Store, op: Operation, tick: Tick)
    requires Agree(lazy, eager, tick.now)
    ensures LazyAnswer(lazy, op, tick) == EagerAnswer(eager, op, tick)
  {
    var key, live := op.key, Live(eager, tick.now);
    assert key in live <==> key in Purge(lazy, key, tick.now);
    assert key in live ==> Live(lazy, tick.now)[key] == live[key];
  }

  lemma SameLiveKeys(lazy: Store, eager: Store, now: int, key: string)
    requires Agree(lazy, eager, now)
    ensures var l, e := key in lazy && !IsExpired(lazy[key], now), key in eager && !IsExpired(eager[key], now);
            l == e && (l ==> lazy[key] == eager[key])
  {
    assert key in Live(lazy, now) <==> key in Live(eager, now);
    assert key in Live(lazy, now) ==> Live(lazy, now)[key] == Live(eager, now)[key];
  }

  /** Agreement, key by key. */
  lemma AgreeByKey(lazy: Store, eager: Store, now: int)
    requires forall key :: key in Live(lazy, now) <==> key in Live(eager, now)
    requires forall key :: key in Live(lazy, now) ==> Live(lazy, now)[key] == Live(eager, now)[key]
    ensures Agree(lazy, eager, now)
  {
  }

  lemma ReviveDisagrees(lazy: Store, eager: Store, op: Operation, tick: Tick)
    requires Revives(lazy, op, tick.now)
    requires Agree(lazy, eager, tick.now)
    ensures !Agree(LazyStore(lazy, op, tick), EagerStore(eager, op, tick), tick.now)
  {
    var now, key := tick.now, op.key;
    SameLiveKeys(lazy, eager, now, key);
    assert now < now + op.seconds * SECOND;
    assert key in Live(LazyStore(lazy, op, tick), now) && key !in Live(EagerStore(eager, op, tick), now);
  }

  lemma StepAgreesAt(lazy: Store, eager: Store, op: Operation, tick: Tick, key: string)
    requires Agree(lazy, eager, tick.now) && !Revives(lazy, op, tick.now)
    ensures var a, b := Live(LazyStore(lazy, op, tick), tick.now), Live(EagerStore(eager, op, tick), tick.now);
            (key in a <==> key in b) && (key in a ==> a[key] == b[key])
  {
    SameLiveKeys(lazy, eager, tick.now, key);
    hide Agree;
    assert op.Expire? && op.seconds <= 0 ==> tick.now + op.seconds * SECOND <= tick.now;
  }

  /** One operation keeps the two stores in agreement exactly when it does not revive a dead key. */
  lemma StepAgreesExactly(lazy: Store, eager: Store, op: Operation, tick: Tick)
    requires Agree(lazy, eager, tick.now)
    ensures Agree(LazyStore(lazy, op, tick), EagerStore(eager, op, tick), tick.now) <==> !Revives(lazy, op, tick.now)
  {
    hide Agree, Live, LazyStore, EagerStore, Revives;
    if Revives(lazy, op, tick.now) {
      ReviveDisagrees(lazy, eager, op, tick);
    } else {
      var a, b := LazyStore(lazy, op, tick), EagerStore(eager, op, tick);
      forall key
        ensures key in Live(a, tick.now) <==> key in Live(b, tick.now)
        ensures key in Live(a, tick.now) ==> Live(a, tick.now)[key] == Live(b, tick.now)[key]
      {
        StepAgreesAt(lazy, eager, op, tick, key);
      }
      AgreeByKey(a, b, tick.now);
    }
  }

  // ------------------------------------------------------------- whole runs

  datatype Event = Event(op: Operation, tick: Tick)

  /** The clock never goes back, from `start` on. */
  predicate Ordered(run: seq<Event>, start: int) {
    run == [] || (start <= run[0].tick.now <= run[0].tick.later && Ordered(run[1..], run[0].tick.later))
  }

  function LazyRun(store: Store, run: seq<Event>): Store
    decreases |run|
  {
    if run == [] then store else LazyRun(LazyStore(store, run[0].op, run[0].tick), run[1..])
  }

  function LazyAnswers(store: Store, run: seq<Event>): (r: seq<Answer>)
    ensures |r| == |run|
    decreases |run|
  {
    if run == [] then []
    else [LazyAnswer(store, run[0].op, run[0].tick)] + LazyAnswers(LazyStore(store, run[0].op, run[0].tick), run[1..])
  }

  function EagerAnswers(store: Store, run: seq<Event>): seq<Answer>
    decreases |run|
  {
    if run == [] then []
    else [EagerAnswer(store, run[0].op, run[0].tick)]
         + EagerAnswers(EagerStore(store, run[0].op, run[0].tick), run[1..])
  }

  /** No EXPIRE in the run meets a dead key that is still in memory. */
  predicate NoRevival(store: Store, run: seq<Event>)
    decreases |run|
  {
    run == []
    || (!Revives(store, run[0].op, run[0].tick.now) && NoRevival(LazyStore(store, run[0].op, run[0].tick), run[1..]))
  }

  /** The two stores agree before the run and after each of its operations. */
  predicate AgreeThroughout(lazy: Store, eager: Store, run: seq<Event>, now: int)
    decreases |run|
  {
    Agree(lazy, eager, now)
    && (run != [] ==>
          var Event(op, tick) := run[0];
          AgreeThroughout(LazyStore(lazy, op, tick), EagerStore(eager, op, tick), run[1..], tick.now))
  }

  /** Every answer of a run without revival is the answer of the eagerly expiring store. */
  lemma {:induction false} LazyRefinesEager(lazy: Store, eager: Store, run: seq<Event>, now: int)
    requires Agree(lazy, eager, now) && Ordered(run, now) && NoRevival(lazy, run)
    ensures LazyAnswers(lazy, run) == EagerAnswers(eager, run)
    decreases |run|
  {
    if run != [] {
      var Event(op, tick) := run[0];
      hide Agree, Revives, LazyStore, LazyAnswer, EagerStore, EagerAnswer;
      AgreeLater(lazy, eager, now, tick.now);
      SameAnswer(lazy, eager, op, tick);
      StepAgreesExactly(lazy, eager, op, tick);
      AgreeLater(LazyStore(lazy, op, tick), EagerStore(eager, op, tick), tick.now, tick.later);
      LazyRefinesEager(LazyStore(lazy, op, tick), EagerStore(eager, op, tick), run[1..], tick.later);
    }
  }

  /** The two stores stay in agreement through a whole run exactly when the run revives no dead key. */
  lemma {:induction false} RunAgreesExactly(lazy: Store, eager: Store, run: seq<Event>, start: int, now: int)
    requires Agree(lazy, eager, now) && Ordered(run, start) && now <= start
    ensures AgreeThroughout(lazy, eager, run, now) <==> NoRevival(lazy, run)
    decreases |run|
  {
    if run != [] {
      var Event(op, tick) := run[0];
      hide Agree, Revives, LazyStore, EagerStore;
      AgreeLater(lazy, eager, now, tick.now);
      StepAgreesExactly(lazy, eager, op, tick);
      var a, b := LazyStore(lazy, op, tick), EagerStore(eager, op, tick);
      if !Revives(lazy, op, tick.now) {
        RunAgreesExactly(a, b, run[1..], tick.later, tick.now);
      } else {
        NotThroughout(a, b, run[1..], tick.now);
      }
    }
  }

  lemma NotThroughout(lazy: Store, eager: Store, run: seq<Event>, now: int)
    requires !Agree(lazy, eager, now)
    ensures !AgreeThroughout(lazy, eager, run, now)
  {
  }

  /** A GET of the key just touched, at the instant of each operation, would give the eager store's answer. */
  predicate ProbesAgree(lazy: Store, eager: Store, run: seq<Event>)
    decreases |run|
  {
    run == []
    || (var Event(op, tick) := run[0];
        var a, b := LazyStore(lazy, op, tick), EagerStore(eager, op, tick);
        var probe, instant := Get(op.key), Tick(tick.now, tick.now);
        LazyAnswer(a, probe, instant) == EagerAnswer(b, probe, instant) && ProbesAgree(a, b, run[1..]))
  }

  lemma RevivalShows(lazy: Store, eager: Store, op: Operation, tick: Tick)
    requires Revives(lazy, op, tick.now) && Agree(lazy, eager, tick.now)
    ensures var a, b := LazyStore(lazy, op, tick), EagerStore(eager, op, tick);
            var probe, instant := Get(op.key), Tick(tick.now, tick.now);
            LazyAnswer(a, probe, instant) != EagerAnswer(b, probe, instant)
  {
    assert op.key !in Live(lazy, tick.now);
    assert tick.now < tick.now + op.seconds * SECOND;
  }

  /** Asking for each key as it is touched does not tell the two stores apart exactly when no dead key is revived. */
  lemma {:induction false} ProbesAgreeExactly(lazy: Store, eager: Store, run: seq<Event>, now: int)
    requires Agree(lazy, eager, now) && Ordered(run, now)
    ensures ProbesAgree(lazy, eager, run) <==> NoRevival(lazy, run)
    decreases |run|
  {
    if run != [] {
      var Event(op, tick) := run[0];
      hide Agree, Revives, LazyStore, LazyAnswer, EagerStore, EagerAnswer;
      AgreeLater(lazy, eager, now, tick.now);
      StepAgreesExactly(lazy, eager, op, tick);
      var a, b := LazyStore(lazy, op, tick), EagerStore(eager, op, tick);
      if Revives(lazy, op, tick.now) {
        RevivalShows(lazy, eager, op, tick);
      } else {
        SameAnswer(a, b, Get(op.key), Tick(tick.now, tick.now));
        AgreeLater(a, b, tick.now, tick.later);
        ProbesAgreeExactly(a, b, run[1..], tick.later);
      }
    }
  }

  /** A dead key that nobody touched answers GET again after EXPIRE; the eager store has lost it. */
  lemma ExpireRevivesTheDead()
    ensures var run := [Event(Set("k", "v"), Tick(0, 0)), Event(Expire("k", 1), Tick(0, 0)),
                        Event(Expire("k", 10), Tick(2 * SECOND, 2 * SECOND)),
                        Event(Get("k"), Tick(3 * SECOND, 3 * SECOND))];
            && Ordered(run, 0)
            && LazyAnswers(map[], run) == [Done, Done, Done, Value(Some("v"))]
            && EagerAnswers(map[], run) == [Done, Done, Done, Value(None)]
  {
    var e3 := Event(Get("k"), Tick(3 * SECOND, 3 * SECOND));
    var e2 := Event(Expire("k", 10), Tick(2 * SECOND, 2 * SECOND));
    var e1 := Event(Expire("k", 1), Tick(0, 0));
    var e0 := Event(Set("k", "v"), Tick(0, 0));
    var run := [e0, e1, e2, e3];
    assert run[1..] == [e1, e2, e3] && [e1, e2, e3][1..] == [e2, e3] && [e2, e3][1..] == [e3] && [e3][1..] == [];
    assert Ordered([e3], 2 * SECOND) && Ordered([e2, e3], 0);
    assert Ordered([e1, e2, e3], 0);
    var s1: Store := map["k" := Entry("v", None)];
    var s2: Store := map["k" := Entry("v", Some(SECOND))];
    var s3: Store := map["k" := Entry("v", Some(12 * SECOND))];
    assert LazyStore(map[], e0.op, e0.tick) == s1 && LazyStore(s1, e1.op, e1.tick) == s2;
    assert LazyStore(s2, e2.op, e2.tick) == s3;
    assert LazyAnswers(s3, [e3]) == [Value(Some("v"))] + [];
    assert LazyAnswers(s2, [e2, e3]) == [Done] + LazyAnswers(s3, [e3]);
    assert LazyAnswers(s1, [e1, e2, e3]) == [Done] + LazyAnswers(s2, [e2, e3]);
    assert EagerStore(map[], e0.op, e0.tick) == s1;
    assert EagerStore(s1, e1.op, e1.tick) == s2;
    assert Live(s2, 2 * SECOND) == map[];
    assert EagerAnswers(map[], [e3]) == [Value(None)] + [];
    assert EagerAnswers(s2, [e2, e3]) == [Done] + EagerAnswers(map[], [e3]);
    assert EagerAnswers(s1, [e1, e2, e3]) == [Done] + EagerAnswers(s2, [e2, e3]);
  }

  // -------------------------------------------------- reads leave no trace

  /** The first store is the second without some of its dead keys. */
  ghost predicate Thinner(thin: Store, fat: Store, now: int) {
    && (forall key :: key in thin ==> key in fat && thin[key] == fat[key])
    && (forall key :: key in fat && key !in thin ==> IsExpired(fat[key], now))
  }

  lemma ThinnerStep(thin: Store, fat: Store, op: Operation, tick: Tick, now: int)
    requires Thinner(thin, fat, now) && now <= tick.now && !Revives(fat, op, tick.now)
    ensures !Revives(thin, op, tick.now)
    ensures Thinner(LazyStore(thin, op, tick), LazyStore(fat, op, tick), tick.now)
    ensures LazyAnswer(thin, op, tick) == LazyAnswer(fat, op, tick)
  {
    var key := op.key;
    assert key in fat && key !in thin ==> IsExpired(fat[key], tick.now);
    if op.Expire? && key in fat && key !in thin {
      assert tick.now + op.seconds * SECOND <= tick.now;
    }
  }

  lemma ThinnerLater(thin: Store, fat: Store, now: int, later: int)
    requires Thinner(thin, fat, now) && now <= later
    ensures Thinner(thin, fat, later)
  {
  }

  lemma {:induction false} DeadKeysDoNotShow(thin: Store, fat: Store, run: seq<Event>, now: int)
    requires Thinner(thin, fat, now) && Ordered(run, now) && NoRevival(fat, run)
    ensures LazyAnswers(thin, run) == LazyAnswers(fat, run)
    decreases |run|
  {
    if run != [] {
      var Event(op, tick) := run[0];
      hide Thinner, Revives, LazyStore, LazyAnswer;
      ThinnerStep(thin, fat, op, tick, now);
      ThinnerLater(LazyStore(thin, op, tick), LazyStore(fat, op, tick), tick.now, tick.later);
      DeadKeysDoNotShow(LazyStore(thin, op, tick), LazyStore(fat, op, tick), run[1..], tick.later);
    }
  }

  /** An extra read, although it may delete a key, changes no later answer. */
  lemma ReadsAreInvisible(store: Store, read: Operation, tick: Tick, run: seq<Event>)
    requires read.Get? || read.Exists? || read.Ttl?
    requires Ordered(run, tick.now) && NoRevival(store, run)
    ensures LazyAnswers(LazyStore(store, read, tick), run) == LazyAnswers(store, run)
  {
    DeadKeysDoNotShow(LazyStore(store, read, tick), store, run, tick.now);
  }

  // ------------------------------------------------------- TTL over time

  predicate Writes(op: Operation, key: string) {
    (op.Set? || op.Del? || op.Expire?) && op.key == key
  }

  predicate Untouched(run: seq<Event>, key: string) {
    forall i :: 0 <= i < |run| ==> !Writes(run[i].op, key)
  }

  /** The key still has this deadline, or is gone because the deadline has passed. */
  predicate Timed(store: Store, key: string, deadline: int, now: int) {
    if key in store then store[key].expiresAt == Some(deadline) else now >= deadline
  }

  /** What TTL answers of a key with this deadline, depending on the clock alone. */
  function TimedAnswer(deadline: int, tick: Tick): Answer {
    Seconds(if tick.now < deadline then Remaining(deadline, tick.later) else -2)
  }

  lemma TimedStep(store: Store, key: string, deadline: int, op: Operation, tick: Tick, now: int)
    requires Timed(store, key, deadline, now) && now <= tick.now && !Writes(op, key)
    ensures Timed(LazyStore(store, op, tick), key, deadline, tick.now)
    ensures op == Ttl(key) ==> LazyAnswer(store, op, tick) == TimedAnswer(deadline, tick)
  {
  }

  /** Every TTL answer for a key with a deadline, in any run that does not write the key. */
  lemma {:induction false} TtlTimeline(store: Store, key: string, deadline: int, run: seq<Event>, now: int)
    requires Timed(store, key, deadline, now) && Ordered(run, now) && Untouched(run, key)
    ensures forall i :: 0 <= i < |run| && run[i].op == Ttl(key) ==>
              LazyAnswers(store, run)[i] == TimedAnswer(deadline, run[i].tick)
    decreases |run|
  {
    if run != [] {
      var Event(op, tick) := run[0];
      hide Timed, LazyStore, LazyAnswer, TimedAnswer, Writes;
      var next, rest := LazyStore(store, op, tick), run[1..];
      assert !Writes(run[0].op, key);
      TimedStep(store, key, deadline, op, tick, now);
      TimedLater(next, key, deadline, tick.now, tick.later);
      TtlTimeline(next, key, deadline, rest, tick.later);
      forall i | 0 <= i < |run| && run[i].op == Ttl(key)
        ensures LazyAnswers(store, run)[i] == TimedAnswer(deadline, run[i].tick)
      {
        if i > 0 {
          assert run[i] == rest[i - 1];
        }
      }
    }
  }

  lemma TimedLater(store: Store, key: string, deadline: int, now: int, later: int)
    requires Timed(store, key, deadline, now) && now <= later
    ensures Timed(store, key, deadline, later)
  {
  }

  /** Remaining seconds never grow, stay within the span asked for, and are nothing once it is over. */
  lemma RemainingFalls(deadline: int, now: int, later: int)
    requires now <= later
    ensures 0 <= Remaining(deadline, later) <= Remaining(deadline, now)
    ensures now < deadline ==>
              Remaining(deadline, now) * SECOND <= deadline - now < (Remaining(deadline, now) + 1) * SECOND
    ensures now >= deadline ==> Remaining(deadline, now) == 0
  {
  }

  lemma {:induction false} OrderedAt(run: seq<Event>, start: int, i: nat, j: nat)
    requires Ordered(run, start) && i <= j < |run|
    ensures start <= run[i].tick.now <= run[i].tick.later
    ensures i < j ==> run[i].tick.later <= run[j].tick.now
    decreases |run|
  {
    var later := run[0].tick.later;
    if j > 0 {
      OrderedAt(run[1..], later, if i > 0 then i - 1 else 0, j - 1);
      OrderedAt(run[1..], later, j - 1, j - 1);
    }
  }

  /**
   * After EXPIRE of `n` seconds on a key that is there, and until the key is written again, the TTL answers start
   * at no more than `n`, never grow, and once they are -2 stay -2.
   */
  lemma TtlNeverGrows(store: Store, key: string, n: nat, tick: Tick, run: seq<Event>, i: nat, j: nat)
    requires key in store && Ordered(run, tick.now) && Untouched(run, key)
    requires i < j < |run| && run[i].op == Ttl(key) && run[j].op == Ttl(key)
    ensures var answers := LazyAnswers(LazyStore(store, Expire(key, n), tick), run);
            && answers[i].Seconds? && answers[j].Seconds?
            && answers[j].left <= answers[i].left <= n
            && (answers[i].left == -2 ==> answers[j].left == -2)
            && (answers[i].left != -2 ==> answers[i].left >= 0)
  {
    var deadline := tick.now + n * SECOND;
    var after := LazyStore(store, Expire(key, n), tick);
    TtlTimeline(after, key, deadline, run, tick.now);
    OrderedAt(run, tick.now, i, j);
    OrderedAt(run, tick.now, j, j);
    RemainingFalls(deadline, tick.now, run[i].tick.later);
    RemainingFalls(deadline, run[i].tick.later, run[j].tick.later);
    RemainingAtStart(tick.now, n);
  }

  lemma RemainingAtStart(now: int, n: nat)
    ensures Remaining(now + n * SECOND, now) == n
  {
  }
}
