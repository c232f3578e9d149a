/** The in-process TTL cache (`infrastructure/cache.go`): a string-keyed map of
    entries, each with an optional expiry instant. Expired entries are evicted
    lazily by `Get`; `Clear` is the bulk invalidation writers use. The clock is
    an explicit `now` (nanoseconds) instead of `time.Now()`. */
module TtlCache {
  import opened Base

  /** `cacheItem`: the stored value and, when `hasExpiry`, the instant after
      which the entry is stale. */
  datatype CacheItem<V> = CacheItem(value: V, expiresAt: int, hasExpiry: bool)

  /** The entry `Set` stores at time `now`: a positive ttl gives an expiry at
      now + ttl, any other ttl gives no expiry. */
  function NewItem<V>(value: V, ttl: int, now: int): (item: CacheItem<V>)
    ensures item.value == value
    ensures item.hasExpiry <==> ttl > 0
    ensures ttl > 0 ==> item.expiresAt == now + ttl
  {
    if ttl > 0 then CacheItem(value, now + ttl, true) else CacheItem(value, 0, false)
  }

  /** An entry is live at `now` unless it has an expiry and `now` is strictly
      after it (`time.Time.After` is strict). */
  predicate Live<V>(item: CacheItem<V>, now: int) {
    !item.hasExpiry || now <= item.expiresAt
  }

  /** What `Get(key)` answers at `now`. */
  function Lookup<V>(data: map<string, CacheItem<V>>, key: string, now: int): (r: Option<V>)
    ensures r.Some? <==> key in data && Live(data[key], now)
    ensures r.Some? ==> r.value == data[key].value
  {
    if key in data && Live(data[key], now) then Some(data[key].value) else None
  }

  /** The map after `Get(key)` at `now`: an expired entry under `key` is
      removed, nothing else changes. */
  function AfterGet<V>(data: map<string, CacheItem<V>>, key: string, now: int): (d: map<string, CacheItem<V>>)
    ensures key in data && !Live(data[key], now) ==> d == data - {key}
    ensures !(key in data && !Live(data[key], now)) ==> d == data
  {
    if key in data && !Live(data[key], now) then data - {key} else data
  }

  class Cache<V> {
    var data: map<string, CacheItem<V>>

    /** `NewCache`: an empty cache. */
    constructor ()
      ensures data == map[]
    {
      data := map[];
    }

    /** Stores `value` under `key`, replacing any earlier entry for that key and
        leaving every other key as it was. */
    method Set(key: string, value: V, ttl: int, now: int)
      modifies this
      ensures data == old(data)[key := NewItem(value, ttl, now)]
      ensures key in data && data[key].value == value
      ensures data[key].hasExpiry <==> ttl > 0
      ensures ttl > 0 ==> data[key].expiresAt == now + ttl
    {
      var item := CacheItem(value, 0, false);
      if ttl > 0 {
        item := item.(hasExpiry := true, expiresAt := now + ttl);
      }
      data := data[key := item];
    }

    /** Answers the live value under `key`, or `None` when the key is absent
        or its entry has expired; an expired entry is deleted on the way. */
    method Get(key: string, now: int) returns (value: Option<V>)
      modifies this
      ensures value == Lookup(old(data), key, now)
      ensures data == AfterGet(old(data), key, now)
      ensures key !in old(data) ==> value == None && data == old(data)
    {
      if key !in data {
        return None;
      }
      var item := data[key];
      if item.hasExpiry && now > item.expiresAt {
        Delete(key);
        return None;
      }
      return Some(item.value);
    }

    /** Removes `key` only. */
    method Delete(key: string)
      modifies this
      ensures data == old(data) - {key}
    {
      data := data - {key};
    }

    /** Replaces the map by an empty one. */
    method Clear()
      modifies this
      ensures data == map[]
    {
      data := map[];
    }
  }

  /** A value stored with ttl and read back no later than now + ttl (or at any
      time when it has no expiry) is found; at exactly now + ttl it is still
      live. */
  lemma GetAfterSet<V>(data: map<string, CacheItem<V>>, key: string, value: V, ttl: int, now: int, t: int)
    requires ttl <= 0 || t <= now + ttl
    ensures Lookup(data[key := NewItem(value, ttl, now)], key, t) == Some(value)
    ensures AfterGet(data[key := NewItem(value, ttl, now)], key, t) == data[key := NewItem(value, ttl, now)]
  {
  }

  /** Read back strictly after now + ttl, the entry is gone and evicted. */
  lemma GetAfterExpiry<V>(data: map<string, CacheItem<V>>, key: string, value: V, ttl: int, now: int, t: int)
    requires ttl > 0 && t > now + ttl
    ensures Lookup(data[key := NewItem(value, ttl, now)], key, t) == None
    ensures AfterGet(data[key := NewItem(value, ttl, now)], key, t) == data - {key}
  {
  }

  // ---------------------------------------------------------------------
  // Sequences of cache operations, to state what holds across calls.

  datatype Op<V> = Put(key: string, value: V, ttl: int) | Fetch(key: string) | Remove(key: string) | Flush

  /** One call made at instant `at`. */
  datatype Event<V> = Event(op: Op<V>, at: int)

  /** The map after one call and what that call answered (`None` for calls
      that answer nothing). */
  function Step<V>(data: map<string, CacheItem<V>>, e: Event<V>): (map<string, CacheItem<V>>, Option<V>) {
    match e.op
    case Put(k, v, ttl) => (data[k := NewItem(v, ttl, e.at)], None)
    case Fetch(k) => (AfterGet(data, k, e.at), Lookup(data, k, e.at))
    case Remove(k) => (data - {k}, None)
    case Flush => (map[], None)
  }

  /** The answers of a sequence of calls, one per call. */
  function Replay<V>(data: map<string, CacheItem<V>>, events: seq<Event<V>>): (answers: seq<Option<V>>)
    ensures |answers| == |events|
    decreases |events|
  {
    if events == [] then []
    else
      var (next, answer) := Step(data, events[0]);
      [answer] + Replay(next, events[1..])
  }

  /** `key` holds nothing that a read at `t` or later could return. */
  predicate Gone<V>(data: map<string, CacheItem<V>>, key: string, t: int) {
    key !in data || (data[key].hasExpiry && t > data[key].expiresAt)
  }

  /** Once an entry is absent or expired, no later `Get` returns a value for
      that key until a `Set` of that key: an expired value is never
      resurrected. */
  lemma {:induction false} NoResurrection<V>(data: map<string, CacheItem<V>>, key: string, t0: int, events: seq<Event<V>>)
    requires Gone(data, key, t0)
    requires forall i :: 0 <= i < |events| ==> events[i].at >= t0 && !(events[i].op.Put? && events[i].op.key == key)
    ensures forall i :: 0 <= i < |events| && events[i].op.Fetch? && events[i].op.key == key ==> Replay(data, events)[i] == None
    decreases |events|
  {
    if events != [] {
      var (next, answer) := Step(data, events[0]);
      assert Gone(next, key, t0);
      NoResurrection(next, key, t0, events[1..]);
      var answers := Replay(data, events);
      assert answers == [answer] + Replay(next, events[1..]);
      forall i | 0 <= i < |events| && events[i].op.Fetch? && events[i].op.key == key
        ensures answers[i] == None
      {
        if i > 0 {
          assert events[1..][i - 1] == events[i];
        }
      }
    }
  }

  /** After `Clear`, every `Get` of a key misses until that key is `Set`
      again. */
  lemma ClearForgetsEverything<V>(data: map<string, CacheItem<V>>, t: int, key: string, events: seq<Event<V>>)
    requires forall i :: 0 <= i < |events| ==> !(events[i].op.Put? && events[i].op.key == key)
    ensures forall i :: 0 < i <= |events| && events[i - 1].op.Fetch? && events[i - 1].op.key == key ==>
      Replay(data, [Event(Flush, t)] + events)[i] == None
  {
    var all := [Event(Flush, t)] + events;
    assert all[1..] == events;
    MinTimeBelow(events, t);
    NoResurrection(map[], key, MinTime(events, t), events);
    assert Replay(data, all) == [None] + Replay(map[], events);
  }

  /** The earliest instant among `t` and the events' instants. */
  function MinTime<V>(events: seq<Event<V>>, t: int): int {
    if events == [] then t
    else
      var m := MinTime(events[1..], t);
      if events[0].at < m then events[0].at else m
  }

  lemma {:induction false} MinTimeBelow<V>(events: seq<Event<V>>, t: int)
    ensures forall i :: 0 <= i < |events| ==> MinTime(events, t) <= events[i].at
  {
    if events != [] {
      MinTimeBelow(events[1..], t);
      assert forall i :: 1 <= i < |events| ==> events[i] == events[1..][i - 1];
    }
  }
}
