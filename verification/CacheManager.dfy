/** The two-tier cache: an in-memory LRU dictionary with expiry (L1) in front of Redis (L2). */
module Caching {
  import opened Lru
  import opened Redis
  import opened Scan

  datatype Settings = Settings(max: int, defaultTtl: int)

  /** An L1 entry together with its key. L1 is ordered from least to most recently used. */
  datatype Item<V> = Item(key: string, value: V, expiresAt: Option<real>, lastAccessed: real) {
    predicate ExpiredAt(now: real) { expiresAt.Some? && now > expiresAt.value }
  }

  datatype Tiers<V> = Tiers(l1: seq<Item<V>>, l2: map<string, Timed<V>>)

  // ----- the ordered dictionary -----

  function KeysOf<V>(l1: seq<Item<V>>): seq<string> {
    seq(|l1|, i requires 0 <= i < |l1| => l1[i].key)
  }

  function Without<V>(l1: seq<Item<V>>, key: string): seq<Item<V>> {
    match IndexOf(KeysOf(l1), key) case None => l1 case Some(i) => Drop(l1, i)
  }

  function Put<V>(l1: seq<Item<V>>, max: int, item: Item<V>): seq<Item<V>> {
    var moved := Without(l1, item.key) + [item];
    if |moved| > max then moved[1..] else moved
  }

  // ----- the operations on both tiers -----

  function FetchFrom<V>(cfg: Settings, s: Tiers<V>, key: string, now: real, reply: Reply): (Option<V>, Tiers<V>) {
    if reply.Raised() then (None, s)
    else match Lookup(s.l2, key, now)
      case None => (None, s)
      case Some(v) => (Some(v), s.(l1 := Put(s.l1, cfg.max, Item(key, v, Some(now + cfg.defaultTtl as real), now))))
  }

  function GetFrom<V>(cfg: Settings, s: Tiers<V>, key: string, now: real, reply: Reply): (Option<V>, Tiers<V>) {
    match IndexOf(KeysOf(s.l1), key)
    case None => FetchFrom(cfg, s, key, now, reply)
    case Some(i) =>
      if s.l1[i].ExpiredAt(now) then FetchFrom(cfg, s.(l1 := Drop(s.l1, i)), key, now, reply)
      else (Some(s.l1[i].value), s.(l1 := Drop(s.l1, i) + [s.l1[i].(lastAccessed := now)]))
  }

  function Persisted<V>(l2: map<string, Timed<V>>, key: string, value: V, ttl: int, now: real, reply: Reply)
    : map<string, Timed<V>>
  {
    if reply.Applied() then SetEx(l2, key, value, ttl, now) else l2
  }

  function SetIn<V>(cfg: Settings, s: Tiers<V>, key: string, value: V, ttl: Option<int>, now: real, reply: Reply)
    : Tiers<V>
  {
    var period := if ttl.None? then cfg.defaultTtl else ttl.value;
    Tiers(Put(s.l1, cfg.max, Item(key, value, Some(now + period as real), now)),
          Persisted(s.l2, key, value, period, now, reply))
  }

  function InvalidateIn<V>(s: Tiers<V>, key: string, reply: Reply): Tiers<V> {
    Tiers(Without(s.l1, key), if reply.Applied() then s.l2 - {key} else s.l2)
  }

  // ----- the code: entries are objects and L1 is updated in place -----

  class CacheEntry<V> {
    const value: V
    const expiresAt: Option<real>
    var lastAccessed: real

    constructor (value: V, ttl: Option<int>, now: real)
      ensures this.value == value && lastAccessed == now
      ensures expiresAt == if ttl.None? then None else Some(now + ttl.value as real)
    {
      this.value := value;
      expiresAt := if ttl.None? then None else Some(now + ttl.value as real);
      lastAccessed := now;
    }

    predicate IsExpired(now: real) {
      expiresAt.Some? && now > expiresAt.value
    }

    method Touch(now: real)
      modifies this
      ensures lastAccessed == now
    {
      lastAccessed := now;
    }
  }

  class CacheManager<V> {
    const cfg: Settings
    const redis: KeySpace<V>
    var memory: seq<(string, CacheEntry<V>)>

    /** The dictionary as a value, least recently used first. */
    ghost var l1: seq<Item<V>>

    /** The entry objects the dictionary may refer to. */
    ghost var entries: set<CacheEntry<V>>

    /** A dictionary key occurs once, no two keys share an entry, and `l1` says what the entries hold. */
    ghost predicate Valid()
      reads this, entries
    {
      && (forall i, j :: 0 <= i < j < |memory| ==> memory[i].0 != memory[j].0)
      && (forall i, j :: 0 <= i < j < |memory| ==> memory[i].1 != memory[j].1)
      && |l1| == |memory|
      && (forall i :: 0 <= i < |memory| ==> memory[i].1 in entries && Holds(memory[i].0, memory[i].1, l1[i]))
    }

    static ghost predicate Holds(key: string, entry: CacheEntry<V>, item: Item<V>)
      reads entry
    {
      item == Item(key, entry.value, entry.expiresAt, entry.lastAccessed)
    }

    ghost function View(): Tiers<V>
      reads this, redis
    {
      Tiers(l1, redis.keys)
    }

    constructor (cfg: Settings, redis: KeySpace<V>)
      ensures this.cfg == cfg && this.redis == redis && Valid() && View() == Tiers([], redis.keys)
    {
      this.cfg, this.redis, memory, l1, entries := cfg, redis, [], [], {};
    }

    /** The dictionary lookup. */
    method Position(key: string) returns (at: Option<nat>)
      requires Valid()
      ensures at == IndexOf(KeysOf(l1), key)
    {
      var keys := seq(|memory|, i requires 0 <= i < |memory| reads this => memory[i].0);
      assert keys == KeysOf(l1);
      at := IndexOf(keys, key);
    }

    method DeleteAt(i: nat)
      requires Valid() && i < |memory|
      modifies this
      ensures Valid() && memory == Drop(old(memory), i) && l1 == Drop(old(l1), i)
      ensures entries == old(entries) - {old(memory)[i].1}
    {
      entries := entries - {memory[i].1};
      memory, l1 := Drop(memory, i), Drop(l1, i);
    }

    /** Insertion under a new key; `move_to_end` puts a key there again. */
    method Append(key: string, entry: CacheEntry<V>)
      requires Valid() && key !in KeysOf(l1) && entry !in entries
      modifies this
      ensures Valid() && memory == old(memory) + [(key, entry)] && entries == old(entries) + {entry}
      ensures l1 == old(l1) + [Item(key, entry.value, entry.expiresAt, entry.lastAccessed)]
    {
      assert forall i :: 0 <= i < |memory| ==> KeysOf(l1)[i] == memory[i].0;
      memory, entries := memory + [(key, entry)], entries + {entry};
      l1 := l1 + [Item(key, entry.value, entry.expiresAt, entry.lastAccessed)];
    }

    method SetMemory(key: string, value: V, ttl: int, now: real)
      requires Valid()
      modifies this
      ensures Valid() && fresh(entries - old(entries))
      ensures l1 == Put(old(l1), cfg.max, Item(key, value, Some(now + ttl as real), now))
    {
      var entry := new CacheEntry(value, Some(ttl), now);
      KeyGone(l1, key);
      var at := Position(key);
      if at.Some? {
        DeleteAt(at.value);
      }
      Append(key, entry);
      if |memory| > cfg.max {
        DeleteAt(0);
      }
    }

    method GetFromRedis(key: string, now: real, reply: Reply) returns (r: Option<V>)
      requires Valid()
      modifies this
      ensures Valid() && fresh(entries - old(entries))
      ensures (r, View()) == FetchFrom(cfg, old(View()), key, now, reply)
    {
      r := None;
      if !reply.Raised() {
        r := Lookup(redis.keys, key, now);
        if r.Some? {
          SetMemory(key, r.value, cfg.defaultTtl, now);
        }
      }
    }

    method Get(key: string, now: real, reply: Reply) returns (r: Option<V>)
      requires Valid()
      modifies this, entries
      ensures Valid() && fresh(entries - old(entries))
      ensures (r, View()) == GetFrom(cfg, old(View()), key, now, reply)
    {
      var at := Position(key);
      if at.Some? {
        var i := at.value;
        var entry := memory[i].1;
        KeyGone(l1, key);
        DeleteAt(i);
        if !entry.IsExpired(now) {
          entry.Touch(now);
          Append(key, entry);
          return Some(entry.value);
        }
      }
      r := GetFromRedis(key, now, reply);
    }

    method SetInRedis(key: string, value: V, ttl: int, now: real, reply: Reply)
      requires Valid()
      modifies redis
      ensures Valid() && redis.keys == Persisted(old(redis.keys), key, value, ttl, now, reply)
    {
      if reply.Applied() {
        redis.keys := SetEx(redis.keys, key, value, ttl, now);
      }
    }

    method Set(key: string, value: V, ttl: Option<int>, now: real, reply: Reply)
      requires Valid()
      modifies this, redis
      ensures Valid() && fresh(entries - old(entries))
      ensures View() == SetIn(cfg, old(View()), key, value, ttl, now, reply)
    {
      var period := if ttl.None? then cfg.defaultTtl else ttl.value;
      SetMemory(key, value, period, now);
      SetInRedis(key, value, period, now, reply);
    }

    method Invalidate(key: string, reply: Reply)
      requires Valid()
      modifies this, redis
      ensures Valid() && entries <= old(entries)
      ensures View() == InvalidateIn(old(View()), key, reply)
    {
      var at := Position(key);
      if at.Some? {
        DeleteAt(at.value);
      }
      if reply.Applied() {
        redis.keys := redis.keys - {key};
      }
    }

    /** Pattern invalidation empties L1 and runs the scan loop over L2. After an error in the middle it
        reports 0, although part of the keys may be gone. */
    method InvalidatePattern(pattern: string, ghost start: real, replies: seq<ScanReply>) returns (deleted: nat)
      requires Valid() && ScanContract(redis.keys, pattern, start, replies)
      modifies this, redis
      ensures Valid() && View() == Tiers([], old(redis.keys) - Removed(replies))
      ensures OthersKept(old(redis.keys), redis.keys, pattern)
      ensures Finished(replies) ==> AllDeleted(old(redis.keys), redis.keys, pattern, start, replies, deleted)
      ensures !Finished(replies) ==> deleted == 0
    {
      memory, l1, entries := [], [], {};
      var count := DeleteMatching(redis, pattern, start, replies);
      deleted := match count case Some(n) => n case None => 0;
    }

    /** Only L1 is emptied. */
    method Clear()
      modifies this
      ensures Valid() && View() == Tiers([], redis.keys)
    {
      memory, l1, entries := [], [], {};
    }
  }

  /** Once dropped, a dictionary key is gone. */
  lemma KeyGone<V>(l1: seq<Item<V>>, key: string)
    requires forall i, j :: 0 <= i < j < |l1| ==> l1[i].key != l1[j].key
    ensures key !in KeysOf(Without(l1, key))
  {
    var at := IndexOf(KeysOf(l1), key);
    if at.Some? {
      assert KeysOf(l1)[at.value] == l1[at.value].key;
    }
  }

  // ----- the keys of the dictionary -----

  lemma KeysDistinct<V>(l1: seq<Item<V>>, key: string)
    requires Distinct(KeysOf(l1))
    ensures Distinct(KeysOf(Without(l1, key)))
    ensures KeysOf(Without(l1, key)) == WithoutKey(KeysOf(l1), key)
    ensures forall x :: x in Without(l1, key) ==> x in l1 && x.key != key
  {
    WithoutKeyIs(KeysOf(l1), key);
    assert KeysOf(Without(l1, key)) == WithoutKey(KeysOf(l1), key);
    forall x | x in Without(l1, key)
      ensures x in l1 && x.key != key
    {
      var i :| 0 <= i < |Without(l1, key)| && Without(l1, key)[i] == x;
      assert KeysOf(Without(l1, key))[i] == x.key;
    }
  }

  lemma PutKeys<V>(l1: seq<Item<V>>, max: int, item: Item<V>)
    requires Distinct(KeysOf(l1))
    ensures KeysOf(Put(l1, max, item)) == TouchKey(KeysOf(l1), max, item.key)
    ensures Distinct(KeysOf(Put(l1, max, item)))
    ensures forall x :: x in Put(l1, max, item) ==> x == item || (x in l1 && x.key != item.key)
  {
    KeysDistinct(l1, item.key);
    OccurKeepsDistinct(KeysOf(l1), max, Touch(item.key));
    assert KeysOf(Without(l1, item.key) + [item]) == KeysOf(Without(l1, item.key)) + [item.key];
  }

  lemma MovedItems<V>(l1: seq<Item<V>>, i: nat, item: Item<V>)
    requires i < |l1| && Distinct(KeysOf(l1)) && item.key == l1[i].key
    ensures Drop(l1, i) == Without(l1, item.key)
    ensures KeysOf(Drop(l1, i) + [item]) == WithoutKey(KeysOf(l1), item.key) + [item.key]
    ensures Distinct(KeysOf(Drop(l1, i) + [item]))
    ensures forall x :: x in Drop(l1, i) + [item] ==> x == item || x in l1
  {
    assert KeysOf(l1)[i] == item.key;
    KeysDistinct(l1, item.key);
    WithoutKeyIs(KeysOf(l1), item.key);
    assert KeysOf(Drop(l1, i) + [item]) == KeysOf(Drop(l1, i)) + [item.key];
  }
}
