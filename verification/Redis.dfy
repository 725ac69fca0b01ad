/** The part of Redis the service relies on: keys that expire, the values held under them, and the
    three ways a call can end as its caller sees it. */
module Redis {

  datatype Option<+T> = None | Some(value: T)

  /** How one Redis call ends. `LostReply` is a call that the server carried out although the client
      raises a RedisError (a timeout after the write); `Refused` raises without any effect. */
  datatype Reply = Done | LostReply | Refused {
    predicate Applied() { !Refused? }
    predicate Raised() { !Done? }
  }

  /** A value under a key. It is served up to and including its expiry instant. */
  datatype Timed<+V> = Timed(value: V, expiresAt: Option<real>) {
    predicate LiveAt(now: real) { expiresAt.None? || now <= expiresAt.value }
  }

  /** One Redis database restricted to the keys holding one type of value. */
  class KeySpace<V> {
    var keys: map<string, Timed<V>>

    constructor ()
      ensures keys == map[]
    {
      keys := map[];
    }
  }

  // ----- strings: GET, SETEX, DEL -----

  function Lookup<V>(keys: map<string, Timed<V>>, key: string, now: real): Option<V> {
    if key in keys && keys[key].LiveAt(now) then Some(keys[key].value) else None
  }

  /** SETEX: an expiry of zero or less is an error and leaves the key space alone. */
  function SetEx<V>(keys: map<string, Timed<V>>, key: string, value: V, ttl: int, now: real): map<string, Timed<V>> {
    if ttl <= 0 then keys else keys[key := Timed(value, Some(now + ttl as real))]
  }

  // ----- sets and sorted sets: a member of a sorted set is identified with its score -----

  function Members<T(==)>(keys: map<string, Timed<set<T>>>, key: string, now: real): set<T> {
    match Lookup(keys, key, now) case Some(s) => s case None => {}
  }

  /** SADD / ZADD: a live key keeps its expiry, a missing or expired one starts afresh without one. */
  function AddMember<T(==)>(keys: map<string, Timed<set<T>>>, key: string, member: T, now: real)
    : map<string, Timed<set<T>>>
  {
    match Lookup(keys, key, now)
    case Some(s) => keys[key := Timed(s + {member}, keys[key].expiresAt)]
    case None => keys[key := Timed({member}, None)]
  }

  /** SREM / ZREMRANGEBYSCORE: a set left empty takes its key with it. */
  function RemoveMembers<T(==)>(keys: map<string, Timed<set<T>>>, key: string, gone: set<T>, now: real)
    : map<string, Timed<set<T>>>
  {
    match Lookup(keys, key, now)
    case Some(s) => if s <= gone then keys - {key} else keys[key := Timed(s - gone, keys[key].expiresAt)]
    case None => keys
  }

  /** EXPIRE: a period of zero or less deletes the key. */
  function Expire<V>(keys: map<string, Timed<V>>, key: string, seconds: int, now: real): map<string, Timed<V>> {
    match Lookup(keys, key, now)
    case None => keys
    case Some(v) => if seconds <= 0 then keys - {key} else keys[key := Timed(v, Some(now + seconds as real))]
  }

  /** What EXPIRE does to any key, seen from then on. */
  lemma ExpireMeans<V>(keys: map<string, Timed<V>>, key: string, seconds: int, now: real, k: string, later: real)
    requires now <= later
    ensures Lookup(Expire(keys, key, seconds, now), k, later)
         == if k != key || Lookup(keys, key, now).None? then Lookup(keys, k, later)
            else if seconds > 0 && later <= now + seconds as real then Lookup(keys, k, now) else None
  {
  }

  lemma {:induction false} SubsetSize<T>(a: set<T>, b: set<T>)
    requires a <= b
    ensures |a| <= |b|
  {
    if a != {} {
      var x :| x in a;
      SubsetSize(a - {x}, b - {x});
    }
  }

  lemma Associative<T>(a: seq<T>, b: seq<T>, c: seq<T>)
    ensures a + (b + c) == (a + b) + c
  {
  }
}
