/** The key-value store, whose expired keys stay in memory until something touches them. */
module Databases {
  import opened Wrappers

  /** The system clock counts nanoseconds. */
  const SECOND := 1_000_000_000

  datatype Entry = Entry(value: string, expiresAt: Option<int>)

  type Store = map<string, Entry>

  datatype KeyValueEntry = KeyValueEntry(key: string, value: string)

  predicate IsExpired(entry: Entry, now: int) {
    entry.expiresAt.Some? && now >= entry.expiresAt.value
  }

  function Purge(store: Store, key: string, now: int): Store {
    if key in store && IsExpired(store[key], now) then store - {key} else store
  }

  /** The whole seconds in a span of time, rounded towards zero. */
  function WholeSeconds(span: int): int {
    if span >= 0 then span / SECOND else -(-span / SECOND)
  }

  /** What `ttl` reports of a deadline. */
  function Remaining(deadline: int, now: int): int {
    var seconds := WholeSeconds(deadline - now);
    if seconds < 0 then 0 else seconds
  }

  // -------------------------------------------------- operations as steps

  datatype Operation =
    | Set(key: string, value: string)
    | Get(key: string)
    | Del(key: string)
    | Exists(key: string)
    | Expire(key: string, seconds: int)
    | Ttl(key: string)

  datatype Answer = Done | Value(found: Option<string>) | Flag(truth: bool) | Seconds(left: int)

  /** The two readings of the clock that an operation can take; only `ttl` takes the second. */
  datatype Tick = Tick(now: int, later: int)

  function LazyStore(store: Store, op: Operation, tick: Tick): Store {
    match op
    case Set(key, value) => store[key := Entry(value, None)]
    case Get(key) => Purge(store, key, tick.now)
    case Del(key) => store - {key}
    case Exists(key) => Purge(store, key, tick.now)
    case Expire(key, seconds) =>
      if key in store then store[key := store[key].(expiresAt := Some(tick.now + seconds * SECOND))] else store
    case Ttl(key) => Purge(store, key, tick.now)
  }

  function LazyAnswer(store: Store, op: Operation, tick: Tick): Answer {
    var seen := Purge(store, op.key, tick.now);
    match op
    case Set(_, _) => Done
    case Get(key) => Value(if key in seen then Some(seen[key].value) else None)
    case Del(key) => Flag(key in seen)
    case Exists(key) => Flag(key in seen)
    case Expire(_, _) => Done
    case Ttl(key) =>
      if key !in seen then Seconds(-2)
      else if seen[key].expiresAt.None? then Seconds(-1)
      else Seconds(Remaining(seen[key].expiresAt.value, tick.later))
  }

  class Database {
    var store: Store

    constructor ()
      ensures store == map[]
    {
      store := map[];
    }

    method RemoveIfExpired(key: string, now: int)
      modifies this
      ensures store == Purge(old(store), key, now)
    {
      if key in store && IsExpired(store[key], now) {
        store := store - {key};
      }
    }

    method Set(key: string, value: string)
      modifies this
      ensures store == LazyStore(old(store), Operation.Set(key, value), Tick(0, 0))
    {
      store := store[key := Entry(value, None)];
    }

    method Get(key: string, now: int) returns (value: Option<string>)
      modifies this
      ensures store == LazyStore(old(store), Operation.Get(key), Tick(now, now))
      ensures Value(value) == LazyAnswer(old(store), Operation.Get(key), Tick(now, now))
    {
      RemoveIfExpired(key, now);
      if key !in store {
        return None;
      }
      return Some(store[key].value);
    }

    method Del(key: string, now: int) returns (removed: bool)
      modifies this
      ensures store == LazyStore(old(store), Operation.Del(key), Tick(now, now))
      ensures Flag(removed) == LazyAnswer(old(store), Operation.Del(key), Tick(now, now))
    {
      RemoveIfExpired(key, now);
      removed := key in store;
      store := store - {key};
    }

    method Exists(key: string, now: int) returns (present: bool)
      modifies this
      ensures store == LazyStore(old(store), Operation.Exists(key), Tick(now, now))
      ensures Flag(present) == LazyAnswer(old(store), Operation.Exists(key), Tick(now, now))
    {
      RemoveIfExpired(key, now);
      present := key in store;
    }

    method Expire(key: string, seconds: int, now: int)
      modifies this
      ensures store == LazyStore(old(store), Operation.Expire(key, seconds), Tick(now, now))
    {
      if key !in store {
        return;
      }
      store := store[key := store[key].(expiresAt := Some(now + seconds * SECOND))];
    }

    /** Reads the clock twice: once to purge, once for the answer. */
    method Ttl(key: string, tick: Tick) returns (left: int)
      modifies this
      ensures store == LazyStore(old(store), Operation.Ttl(key), tick)
      ensures Seconds(left) == LazyAnswer(old(store), Operation.Ttl(key), tick)
    {
      RemoveIfExpired(key, tick.now);
      if key !in store {
        return -2;
      }
      if store[key].expiresAt.None? {
        return -1;
      }
      left := WholeSeconds(store[key].expiresAt.value - tick.later);
      if left < 0 {
        left := 0;
      }
    }

    method RestoreSet(key: string, value: string)
      modifies this
      ensures store == old(store)[key := Entry(value, None)]
    {
      store := store[key := Entry(value, None)];
    }

    method RestoreDelete(key: string)
      modifies this
      ensures store == old(store) - {key}
    {
      store := store - {key};
    }

    /** The hash table is walked in some order, and the clock is read anew for every entry. */
    method Entries(order: seq<string>, readings: seq<int>) returns (result: seq<KeyValueEntry>)
      requires IsIteration(order, store) && |readings| == |order|
      ensures result == EntriesOf(store, order, readings)
    {
      result := [];
      for i := 0 to |order|
        invariant result == EntriesOf(store, order[..i], readings[..i])
      {
        assert order[..i + 1][..i] == order[..i] && readings[..i + 1][..i] == readings[..i];
        var entry := store[order[i]];
        if IsExpired(entry, readings[i]) {
          continue;
        }
        result := result + [KeyValueEntry(order[i], entry.value)];
      }
      assert order[..|order|] == order && readings[..|order|] == readings;
    }
  }

  /** The keys of the store, each once, in the order the hash table yields them. */
  ghost predicate IsIteration(order: seq<string>, store: Store) {
    && (forall key :: key in order <==> key in store)
    && (forall i, j :: 0 <= i < j < |order| ==> order[i] != order[j])
  }

  function EntriesOf(store: Store, order: seq<string>, readings: seq<int>): seq<KeyValueEntry>
    requires (forall key :: key in order ==> key in store) && |readings| == |order|
  {
    if order == [] then []
    else
      var n := |order| - 1;
      var before := EntriesOf(store, order[..n], readings[..n]);
      if IsExpired(store[order[n]], readings[n]) then before
      else before + [KeyValueEntry(order[n], store[order[n]].value)]
  }
}
