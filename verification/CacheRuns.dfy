/** What every run of one cache manager guarantees: how stale a served value can be, and which keys
    L1 holds. */
module CacheRuns {
  import opened Caching
  import opened Lru
  import opened Redis
  import opened Wildcard

  /** One operation, with how its Redis call ends. A pattern invalidation deletes `gone`, which is all it
      should delete unless the scan broke off. */
  datatype Op<V> =
    | GetOp(key: string, reply: Reply)
    | SetOp(key: string, value: V, ttl: Option<int>, reply: Reply)
    | InvalidateOp(key: string, reply: Reply)
    | PatternOp(pattern: string, gone: set<string>)
    | ClearOp

  function Perform<V>(cfg: Settings, s: Tiers<V>, op: Op<V>, now: real): (Option<V>, Tiers<V>) {
    match op
    case GetOp(key, reply) => GetFrom(cfg, s, key, now, reply)
    case SetOp(key, value, ttl, reply) => (None, SetIn(cfg, s, key, value, ttl, now, reply))
    case InvalidateOp(key, reply) => (None, InvalidateIn(s, key, reply))
    case PatternOp(_, gone) => (None, Tiers([], s.l2 - gone))
    case ClearOp => (None, s.(l1 := []))
  }

  /** The scan loop deletes only what matches. */
  ghost predicate Sound<V>(op: Op<V>) {
    op.PatternOp? ==> forall k :: k in op.gone ==> Matches(GLOB, op.pattern, k)
  }

  datatype Run<V> = Run(cfg: Settings, times: seq<real>, ops: seq<Op<V>>, results: seq<Option<V>>,
      states: seq<Tiers<V>>) {

    ghost predicate Shaped() {
      |times| == |results| == |ops| && |states| == |ops| + 1
    }

    ghost predicate Performed(i: nat)
      requires Shaped() && i < |ops|
    {
      Sound(ops[i]) && (results[i], states[i + 1]) == Perform(cfg, states[i], ops[i], times[i])
    }

    /** Operations one after the other on a clock that does not run backwards, from empty tiers. */
    ghost predicate Valid() {
      && Shaped() && states[0] == Tiers([], map[])
      && (forall i, j :: 0 <= i < j < |ops| ==> times[i] <= times[j])
      && (forall i: nat {:trigger Performed(i)} :: i < |ops| ==> Performed(i))
    }

    function Period(i: nat): int
      requires i < |ops| && ops[i].SetOp?
    {
      if ops[i].ttl.None? then cfg.defaultTtl else ops[i].ttl.value
    }

    /** In Redis, operation i does to this key what it does in L1: its SETEX or DEL is carried out, its
        SETEX not refused for its period, its scan did not miss the key. A reply may still be lost. */
    ghost predicate TakesEffect(i: nat, key: string)
      requires Shaped() && i < |ops|
    {
      match ops[i]
      case SetOp(_, _, _, reply) => reply.Applied() && Period(i) > 0
      case InvalidateOp(_, reply) => reply.Applied()
      case PatternOp(_, gone) => Lookup(states[i].l2 - gone, key, times[i]).None?
      case _ => true
    }

    /** Operation i writes or removes this key in Redis. */
    ghost predicate Affects(i: nat, key: string)
      requires i < |ops|
    {
      match ops[i]
      case SetOp(k, _, _, _) => k == key
      case InvalidateOp(k, _) => k == key
      case PatternOp(pattern, _) => Matches(GLOB, pattern, key)
      case _ => false
    }

    /** The last of the first n operations to affect the key, if it is a set. */
    ghost function LastSet(n: nat, key: string): Option<nat>
      requires n <= |ops|
    {
      if n == 0 then None
      else if Affects(n - 1, key) then (if ops[n - 1].SetOp? then Some(n - 1) else None)
      else LastSet(n - 1, key)
    }

    /** The last of the first n operations to take effect on the key in Redis, if it is a set. */
    ghost function LastStored(n: nat, key: string): Option<nat>
      requires Shaped() && n <= |ops|
    {
      if n == 0 then None
      else if Affects(n - 1, key) && TakesEffect(n - 1, key) then (if ops[n - 1].SetOp? then Some(n - 1) else None)
      else LastStored(n - 1, key)
    }

    /** The last operation to affect the key, if any, took effect in Redis. */
    ghost predicate LastTookEffect(n: nat, key: string)
      requires Shaped() && n <= |ops|
    {
      n == 0 || if Affects(n - 1, key) then TakesEffect(n - 1, key) else LastTookEffect(n - 1, key)
    }
  }

  // ----- staleness -----

  /** The value of set w, kept up to w's own period and `extra` seconds more. */
  ghost predicate FromSet<V>(r: Run<V>, w: Option<nat>, n: nat, key: string, value: V, expiresAt: Option<real>,
      extra: int)
    requires n <= |r.ops|
  {
    && w.Some? && w.value < n && r.ops[w.value].SetOp? && r.ops[w.value].key == key && |r.times| == |r.ops|
    && value == r.ops[w.value].value && expiresAt.Some?
    && expiresAt.value <= r.times[w.value] + (r.Period(w.value) + extra) as real
  }

  /** L1 holds what the last set of the key put there, or what a read copied there from Redis for one
      default period more. */
  ghost predicate FromEither<V>(r: Run<V>, n: nat, key: string, value: V, expiresAt: Option<real>)
    requires r.Shaped() && n <= |r.ops|
  {
    || FromSet(r, r.LastSet(n, key), n, key, value, expiresAt, Slack(r.cfg))
    || FromSet(r, r.LastStored(n, key), n, key, value, expiresAt, Slack(r.cfg))
  }

  function Slack(cfg: Settings): nat { if cfg.defaultTtl < 0 then 0 else cfg.defaultTtl }

  ghost predicate L1Backed<V>(r: Run<V>, n: nat, l1: seq<Item<V>>)
    requires r.Shaped() && n <= |r.ops|
  {
    forall x :: x in l1 ==> FromEither(r, n, x.key, x.value, x.expiresAt)
  }

  /** A live entry of Redis comes from the last operation that took effect there. */
  ghost predicate L2Backed<V>(r: Run<V>, n: nat, l2: map<string, Timed<V>>, now: real)
    requires r.Shaped() && n <= |r.ops|
  {
    forall k :: k in l2 && l2[k].LiveAt(now) ==> FromSet(r, r.LastStored(n, k), n, k, l2[k].value, l2[k].expiresAt, 0)
  }

  /** L1 entries of keys that operation n does not affect. */
  lemma L1Carried<V>(r: Run<V>, n: nat, l1: seq<Item<V>>, l1': seq<Item<V>>)
    requires r.Shaped() && n < |r.ops| && L1Backed(r, n, l1)
    requires forall x :: x in l1' ==> x in l1 && !r.Affects(n, x.key)
    ensures L1Backed(r, n + 1, l1')
  {
    forall x | x in l1'
      ensures FromEither(r, n + 1, x.key, x.value, x.expiresAt)
    {
      assert FromEither(r, n, x.key, x.value, x.expiresAt);
    }
  }

  /** Redis entries of keys that operation n does not affect, or not effectively. */
  lemma L2Carried<V>(r: Run<V>, n: nat, l2: map<string, Timed<V>>, l2': map<string, Timed<V>>, now: real)
    requires r.Shaped() && n < |r.ops| && L2Backed(r, n, l2, now)
    requires forall k :: k in l2' && l2'[k].LiveAt(now) ==>
        k in l2 && l2'[k] == l2[k] && !(r.Affects(n, k) && r.TakesEffect(n, k))
    ensures L2Backed(r, n + 1, l2', now)
  {
    forall k | k in l2' && l2'[k].LiveAt(now)
      ensures FromSet(r, r.LastStored(n + 1, k), n + 1, k, l2'[k].value, l2'[k].expiresAt, 0)
    {
      assert FromSet(r, r.LastStored(n, k), n, k, l2[k].value, l2[k].expiresAt, 0);
    }
  }

  ghost predicate Backed<V>(r: Run<V>, n: nat, s: Tiers<V>, now: real)
    requires r.Shaped() && n <= |r.ops|
  {
    Distinct(KeysOf(s.l1)) && L1Backed(r, n, s.l1) && L2Backed(r, n, s.l2, now)
  }

  /** A value a read returns is that of set w, and not past the staleness bound. */
  ghost predicate ServedFrom<V>(r: Run<V>, w: Option<nat>, n: nat, key: string, value: V, now: real)
    requires n <= |r.ops| && |r.times| == |r.ops|
  {
    && w.Some? && w.value < n && r.ops[w.value].SetOp? && r.ops[w.value].key == key && value == r.ops[w.value].value
    && now <= r.times[w.value] + (r.Period(w.value) + Slack(r.cfg)) as real
  }

  ghost predicate Served<V>(r: Run<V>, n: nat, key: string, value: V, now: real)
    requires r.Shaped() && n <= |r.ops|
  {
    ServedFrom(r, r.LastSet(n, key), n, key, value, now) || ServedFrom(r, r.LastStored(n, key), n, key, value, now)
  }

  lemma PutKeepsBacked<V>(r: Run<V>, n: nat, l1: seq<Item<V>>, item: Item<V>)
    requires r.Shaped() && n <= |r.ops| && Distinct(KeysOf(l1)) && L1Backed(r, n, l1)
    requires FromEither(r, n, item.key, item.value, item.expiresAt)
    ensures Distinct(KeysOf(Put(l1, r.cfg.max, item))) && L1Backed(r, n, Put(l1, r.cfg.max, item))
  {
    PutKeys(l1, r.cfg.max, item);
  }

  lemma FetchServes<V>(r: Run<V>, n: nat, s: Tiers<V>, key: string, now: real, reply: Reply)
    requires r.Shaped() && n <= |r.ops| && Backed(r, n, s, now)
    ensures
      var (v, s') := FetchFrom(r.cfg, s, key, now, reply);
      Backed(r, n, s', now) && (v.Some? ==> Served(r, n, key, v.value, now))
  {
    var found := Lookup(s.l2, key, now);
    if !reply.Raised() && found.Some? {
      var item := Item(key, found.value, Some(now + r.cfg.defaultTtl as real), now);
      assert FromSet(r, r.LastStored(n, key), n, key, s.l2[key].value, s.l2[key].expiresAt, 0);
      assert FromEither(r, n, key, item.value, item.expiresAt);
      PutKeepsBacked(r, n, s.l1, item);
    }
  }

  lemma GetServes<V>(r: Run<V>, n: nat, s: Tiers<V>, key: string, now: real, reply: Reply)
    requires r.Shaped() && n <= |r.ops| && Backed(r, n, s, now)
    ensures
      var (v, s') := GetFrom(r.cfg, s, key, now, reply);
      Backed(r, n, s', now) && (v.Some? ==> Served(r, n, key, v.value, now))
  {
    var at := IndexOf(KeysOf(s.l1), key);
    if at.None? {
      FetchServes(r, n, s, key, now, reply);
    } else {
      HitServes(r, n, s, key, at.value, now, reply);
    }
  }

  lemma HitServes<V>(r: Run<V>, n: nat, s: Tiers<V>, key: string, i: nat, now: real, reply: Reply)
    requires r.Shaped() && n <= |r.ops| && Backed(r, n, s, now) && IndexOf(KeysOf(s.l1), key) == Some(i)
    ensures
      var (v, s') := GetFrom(r.cfg, s, key, now, reply);
      Backed(r, n, s', now) && (v.Some? ==> Served(r, n, key, v.value, now))
  {
    var item := s.l1[i].(lastAccessed := now);
    assert s.l1[i] in s.l1 && FromEither(r, n, key, item.value, item.expiresAt);
    MovedItems(s.l1, i, item);
    if item.ExpiredAt(now) {
      KeysDistinct(s.l1, key);
      FetchServes(r, n, s.(l1 := Drop(s.l1, i)), key, now, reply);
    }
  }

  lemma SetKeepsBacked<V>(r: Run<V>, n: nat, s: Tiers<V>)
    requires r.Shaped() && n < |r.ops| && Backed(r, n, s, r.times[n]) && r.ops[n].SetOp?
    ensures Backed(r, n + 1, Perform(r.cfg, s, r.ops[n], r.times[n]).1, r.times[n])
  {
    SetKeepsL1Backed(r, n, s);
    SetKeepsL2Backed(r, n, s);
  }

  lemma SetKeepsL1Backed<V>(r: Run<V>, n: nat, s: Tiers<V>)
    requires r.Shaped() && n < |r.ops| && Backed(r, n, s, r.times[n]) && r.ops[n].SetOp?
    ensures
      var l1 := Perform(r.cfg, s, r.ops[n], r.times[n]).1.l1;
      Distinct(KeysOf(l1)) && L1Backed(r, n + 1, l1)
  {
    var op, now := r.ops[n], r.times[n];
    var item := Item(op.key, op.value, Some(now + r.Period(n) as real), now);
    assert Perform(r.cfg, s, op, now).1.l1 == Put(s.l1, r.cfg.max, item);
    PutKeys(s.l1, r.cfg.max, item);
    forall x | x in Put(s.l1, r.cfg.max, item)
      ensures FromEither(r, n + 1, x.key, x.value, x.expiresAt)
    {
      if x == item {
        assert FromSet(r, Some(n), n + 1, op.key, op.value, item.expiresAt, Slack(r.cfg));
      } else {
        assert FromEither(r, n, x.key, x.value, x.expiresAt) && !r.Affects(n, x.key);
      }
    }
  }

  lemma SetKeepsL2Backed<V>(r: Run<V>, n: nat, s: Tiers<V>)
    requires r.Shaped() && n < |r.ops| && Backed(r, n, s, r.times[n]) && r.ops[n].SetOp?
    ensures L2Backed(r, n + 1, Perform(r.cfg, s, r.ops[n], r.times[n]).1.l2, r.times[n])
  {
    var op, now := r.ops[n], r.times[n];
    var l2 := Perform(r.cfg, s, op, now).1.l2;
    if r.TakesEffect(n, op.key) {
      var expiresAt := Some(now + r.Period(n) as real);
      assert l2 == s.l2[op.key := Timed(op.value, expiresAt)];
      assert FromSet(r, Some(n), n + 1, op.key, op.value, expiresAt, 0);
      L2Carried(r, n, s.l2, s.l2 - {op.key}, now);
      L2Written(r, n + 1, s.l2, op.key, op.value, expiresAt, now);
    } else {
      assert l2 == s.l2;
      L2Carried(r, n, s.l2, s.l2, now);
    }
  }

  lemma L2Written<V>(r: Run<V>, n: nat, l2: map<string, Timed<V>>, key: string, value: V, expiresAt: Option<real>,
      now: real)
    requires r.Shaped() && n <= |r.ops| && L2Backed(r, n, l2 - {key}, now)
    requires FromSet(r, r.LastStored(n, key), n, key, value, expiresAt, 0)
    ensures L2Backed(r, n, l2[key := Timed(value, expiresAt)], now)
  {
    var l2' := l2[key := Timed(value, expiresAt)];
    forall k | k in l2' && l2'[k].LiveAt(now)
      ensures FromSet(r, r.LastStored(n, k), n, k, l2'[k].value, l2'[k].expiresAt, 0)
    {
      if k != key {
        assert k in l2 - {key} && (l2 - {key})[k] == l2[k];
      }
    }
  }

  lemma RemovalKeepsBacked<V>(r: Run<V>, n: nat, s: Tiers<V>)
    requires r.Shaped() && n < |r.ops| && Backed(r, n, s, r.times[n]) && !r.ops[n].GetOp? && !r.ops[n].SetOp?
    requires s == r.states[n]
    ensures Backed(r, n + 1, Perform(r.cfg, s, r.ops[n], r.times[n]).1, r.times[n])
  {
    match r.ops[n]
    case InvalidateOp(key, reply) =>
      KeysDistinct(s.l1, key);
      L1Carried(r, n, s.l1, Without(s.l1, key));
      L2Carried(r, n, s.l2, if reply.Applied() then s.l2 - {key} else s.l2, r.times[n]);
    case ClearOp =>
      L1Carried(r, n, s.l1, []);
      L2Carried(r, n, s.l2, s.l2, r.times[n]);
    case PatternOp(_, gone) =>
      L1Carried(r, n, s.l1, []);
      L2Carried(r, n, s.l2, s.l2 - gone, r.times[n]);
  }

  lemma Later<V>(r: Run<V>, n: nat, s: Tiers<V>, now: real, later: real)
    requires r.Shaped() && n <= |r.ops| && Backed(r, n, s, now) && now <= later
    ensures Backed(r, n, s, later)
  {
    forall k | k in s.l2 && s.l2[k].LiveAt(later)
      ensures FromSet(r, r.LastStored(n, k), n, k, s.l2[k].value, s.l2[k].expiresAt, 0)
    {
      assert s.l2[k].LiveAt(now);
    }
  }

  lemma StepKeepsBacked<V>(r: Run<V>, n: nat)
    requires r.Shaped() && n < |r.ops| && r.Performed(n) && Backed(r, n, r.states[n], r.times[n])
    ensures Backed(r, n + 1, r.states[n + 1], r.times[n])
  {
    var s, s' := r.states[n], r.states[n + 1];
    match r.ops[n] {
      case GetOp(key, reply) =>
        GetServes(r, n, s, key, r.times[n], reply);
        L1Carried(r, n, s'.l1, s'.l1);
        L2Carried(r, n, s'.l2, s'.l2, r.times[n]);
      case SetOp(_, _, _, _) => SetKeepsBacked(r, n, s);
      case _ => RemovalKeepsBacked(r, n, s);
    }
  }

  lemma {:induction false} RunStaysBacked<V>(r: Run<V>, n: nat)
    requires r.Valid() && n < |r.ops|
    ensures Backed(r, n, r.states[n], r.times[n])
  {
    if n > 0 {
      RunStaysBacked(r, n - 1);
      NextBacked(r, n - 1);
    }
  }

  lemma NextBacked<V>(r: Run<V>, n: nat)
    requires r.Valid() && n + 1 < |r.ops| && Backed(r, n, r.states[n], r.times[n])
    ensures Backed(r, n + 1, r.states[n + 1], r.times[n + 1])
  {
    assert r.Performed(n);
    StepKeepsBacked(r, n);
    Later(r, n + 1, r.states[n + 1], r.times[n], r.times[n + 1]);
  }

  /** In every run, whatever calls to Redis fail, a read returns the value of the last set of its key or
      of the last set that took effect in Redis, each with no effective invalidation since, and no later
      than that set's period plus one default period after it. */
  lemma ServedIsSetOrStored<V>(r: Run<V>, n: nat)
    requires r.Valid() && n < |r.ops| && r.ops[n].GetOp? && r.results[n].Some?
    ensures Served(r, n, r.ops[n].key, r.results[n].value, r.times[n])
  {
    RunStaysBacked(r, n);
    assert r.Performed(n);
    GetServes(r, n, r.states[n], r.ops[n].key, r.times[n], r.ops[n].reply);
  }

  // ----- what is kept -----

  /** The entry of the last set that took effect in Redis. */
  ghost predicate KeepsStored<V>(r: Run<V>, n: nat, key: string, w: nat)
    requires r.Shaped() && n <= |r.ops|
  {
    && w < n && r.ops[w].SetOp? && r.ops[w].key == key && r.ops[w].reply.Applied() && PeriodGiven(r, w) > 0
    && key in r.states[n].l2
    && r.states[n].l2[key] == Timed(r.ops[w].value, Some(r.times[w] + PeriodGiven(r, w) as real))
  }

  /** The period of a set: its own, or the default if it gives none. */
  function PeriodGiven<V>(r: Run<V>, w: nat): int
    requires w < |r.ops| && r.ops[w].SetOp?
  {
    match r.ops[w].ttl case Some(ttl) => ttl case None => r.cfg.defaultTtl
  }

  lemma {:induction false} StoredIsKept<V>(r: Run<V>, n: nat, key: string, w: nat)
    requires r.Valid() && n <= |r.ops| && r.LastStored(n, key) == Some(w)
    ensures KeepsStored(r, n, key, w)
  {
    assert r.Performed(n - 1);
    if r.Affects(n - 1, key) && r.TakesEffect(n - 1, key) {
      assert w == n - 1;
    } else {
      StoredIsKept(r, n - 1, key, w);
      KeptByOthers(r, n - 1, key);
    }
  }

  lemma KeptByOthers<V>(r: Run<V>, n: nat, key: string)
    requires r.Shaped() && n < |r.ops| && r.Performed(n) && !(r.Affects(n, key) && r.TakesEffect(n, key))
    requires key in r.states[n].l2
    ensures key in r.states[n + 1].l2 && r.states[n + 1].l2[key] == r.states[n].l2[key]
  {
    assert Sound(r.ops[n]) && (r.Affects(n, key) ==> !r.TakesEffect(n, key));
  }

  /** Redis keeps what was stored. In every run, whatever calls fail and whatever happens to other keys,
      the value of the last set that took effect there is served until its period is over, which is the
      set's own or the default one, and not after that. */
  lemma StoredUntilPeriodEnds<V>(r: Run<V>, n: nat, key: string, w: nat, now: real)
    requires r.Valid() && n <= |r.ops| && r.LastStored(n, key) == Some(w)
    ensures w < n && r.ops[w].SetOp?
    ensures
      var period := match r.ops[w].ttl case Some(ttl) => ttl case None => r.cfg.defaultTtl;
      period > 0 && Lookup(r.states[n].l2, key, now)
                 == if now <= r.times[w] + period as real then Some(r.ops[w].value) else None
  {
    StoredIsKept(r, n, key, w);
  }

  /** So until then a read that reaches Redis finds a value, there or in L1. */
  lemma ReadFindsStored<V>(r: Run<V>, n: nat, w: nat)
    requires r.Valid() && n < |r.ops| && r.ops[n].GetOp? && !r.ops[n].reply.Raised()
    requires r.LastStored(n, r.ops[n].key) == Some(w)
    requires w < n && r.ops[w].SetOp? && r.times[n] <= r.times[w] + PeriodGiven(r, w) as real
    ensures r.results[n].Some?
    ensures r.ops[n].key !in KeysOf(r.states[n].l1) ==> r.results[n] == Some(r.ops[w].value)
  {
    assert r.Performed(n);
    StoredUntilPeriodEnds(r, n, r.ops[n].key, w, r.times[n]);
  }

  /** Whatever L1 holds under the key is this value, to expire then. */
  ghost predicate L1Says<V>(l1: seq<Item<V>>, key: string, value: V, expiresAt: real) {
    && Distinct(KeysOf(l1))
    && forall x :: x in l1 && x.key == key ==> x.value == value && x.expiresAt == Some(expiresAt)
  }

  /** Nothing happens to the key in L1 after operation i and before n, not even its eviction. */
  ghost predicate StaysInL1<V>(r: Run<V>, i: nat, n: nat, key: string)
    requires r.Shaped() && i < n <= |r.ops|
  {
    forall j :: i < j <= n ==> key in KeysOf(r.states[j].l1) && (j < n ==> !Rewrites(r, j, key))
  }

  ghost predicate Rewrites<V>(r: Run<V>, j: nat, key: string)
    requires j < |r.ops|
  {
    r.ops[j].SetOp? && r.ops[j].key == key
  }

  lemma ItemAt<V>(l1: seq<Item<V>>, key: string) returns (at: nat)
    requires key in KeysOf(l1)
    ensures IndexOf(KeysOf(l1), key) == Some(at) && at < |l1| && l1[at].key == key && l1[at] in l1
  {
    at := IndexOf(KeysOf(l1), key).value;
  }

  lemma PutSays<V>(l1: seq<Item<V>>, max: int, item: Item<V>, key: string, value: V, expiresAt: real)
    requires L1Says(l1, key, value, expiresAt)
    requires item.key == key ==> item.value == value && item.expiresAt == Some(expiresAt)
    ensures L1Says(Put(l1, max, item), key, value, expiresAt)
  {
    PutKeys(l1, max, item);
  }

  lemma GetSays<V>(cfg: Settings, s: Tiers<V>, op: Op<V>, now: real, key: string, value: V, expiresAt: real)
    requires op.GetOp? && L1Says(s.l1, key, value, expiresAt) && key in KeysOf(s.l1) && now <= expiresAt
    ensures L1Says(Perform(cfg, s, op, now).1.l1, key, value, expiresAt)
  {
    var other := op.key;
    if other in KeysOf(s.l1) {
      var at := ItemAt(s.l1, other);
      var item := s.l1[at].(lastAccessed := now);
      MovedItems(s.l1, at, item);
      KeysDistinct(s.l1, other);
      if item.ExpiredAt(now) {
        FetchSays(cfg, s.(l1 := Drop(s.l1, at)), other, now, op.reply, key, value, expiresAt);
      }
    } else {
      FetchSays(cfg, s, other, now, op.reply, key, value, expiresAt);
    }
  }

  lemma FetchSays<V>(cfg: Settings, s: Tiers<V>, other: string, now: real, reply: Reply, key: string, value: V,
      expiresAt: real)
    requires L1Says(s.l1, key, value, expiresAt) && other != key
    ensures L1Says(FetchFrom(cfg, s, other, now, reply).1.l1, key, value, expiresAt)
  {
    var found := Lookup(s.l2, other, now);
    if !reply.Raised() && found.Some? {
      PutSays(s.l1, cfg.max, Item(other, found.value, Some(now + cfg.defaultTtl as real), now), key, value, expiresAt);
    }
  }

  lemma OpSays<V>(cfg: Settings, s: Tiers<V>, op: Op<V>, now: real, key: string, value: V, expiresAt: real)
    requires L1Says(s.l1, key, value, expiresAt) && key in KeysOf(s.l1) && now <= expiresAt
    requires !(op.SetOp? && op.key == key)
    ensures L1Says(Perform(cfg, s, op, now).1.l1, key, value, expiresAt)
  {
    match op
    case GetOp(_, _) => GetSays(cfg, s, op, now, key, value, expiresAt);
    case SetOp(k, v, ttl, _) =>
      var period := if ttl.None? then cfg.defaultTtl else ttl.value;
      PutSays(s.l1, cfg.max, Item(k, v, Some(now + period as real), now), key, value, expiresAt);
    case InvalidateOp(k, _) => KeysDistinct(s.l1, k);
    case _ =>
  }

  lemma {:induction false} L1KeepsSaying<V>(r: Run<V>, i: nat, n: nat, key: string, value: V, expiresAt: real)
    requires r.Valid() && i < n < |r.ops| && StaysInL1(r, i, n, key) && r.times[n] <= expiresAt
    requires L1Says(r.states[i + 1].l1, key, value, expiresAt)
    ensures L1Says(r.states[n].l1, key, value, expiresAt)
  {
    if i + 1 < n {
      assert r.Performed(n - 1) && r.times[n - 1] <= r.times[n];
      assert StaysInL1(r, i, n - 1, key);
      L1KeepsSaying(r, i, n - 1, key, value, expiresAt);
      assert !Rewrites(r, n - 1, key);
      OpSays(r.cfg, r.states[n - 1], r.ops[n - 1], r.times[n - 1], key, value, expiresAt);
    }
  }

  /** What L1 says is what a read returns, whether Redis answers or not. */
  lemma SaidIsRead<V>(r: Run<V>, n: nat, value: V, expiresAt: real)
    requires r.Valid() && n < |r.ops| && r.ops[n].GetOp? && r.ops[n].key in KeysOf(r.states[n].l1)
    requires L1Says(r.states[n].l1, r.ops[n].key, value, expiresAt) && r.times[n] <= expiresAt
    ensures r.results[n] == Some(value)
  {
    assert r.Performed(n);
    var at := ItemAt(r.states[n].l1, r.ops[n].key);
  }

  lemma SetSays<V>(r: Run<V>, w: nat, end: real)
    requires r.Valid() && w < |r.ops| && r.ops[w].SetOp? && end == r.times[w] + PeriodGiven(r, w) as real
    ensures L1Says(r.states[w + 1].l1, r.ops[w].key, r.ops[w].value, end)
  {
    var op := r.ops[w];
    var item := Item(op.key, op.value, Some(end), r.times[w]);
    assert r.Performed(w);
    assert r.states[w + 1].l1 == Put(r.states[w].l1, r.cfg.max, item);
    RunStaysBacked(r, w);
    PutKeys(r.states[w].l1, r.cfg.max, item);
  }

  /** A set is what reads return for its whole period, its own or the default one, whatever becomes of
      Redis, as long as L1 keeps the key and no later set gives it another value. */
  lemma SetIsRead<V>(r: Run<V>, w: nat, n: nat)
    requires r.Valid() && w < n < |r.ops| && r.ops[w].SetOp? && r.ops[n].GetOp? && r.ops[n].key == r.ops[w].key
    requires StaysInL1(r, w, n, r.ops[w].key)
    requires
      var period := match r.ops[w].ttl case Some(ttl) => ttl case None => r.cfg.defaultTtl;
      r.times[n] <= r.times[w] + period as real
    ensures r.results[n] == Some(r.ops[w].value)
  {
    var end := r.times[w] + PeriodGiven(r, w) as real;
    SetSays(r, w, end);
    L1KeepsSaying(r, w, n, r.ops[w].key, r.ops[w].value, end);
    SaidIsRead(r, n, r.ops[w].value, end);
  }

  lemma CopySays<V>(r: Run<V>, i: nat, end: real)
    requires r.Valid() && i < |r.ops| && r.ops[i].GetOp? && r.ops[i].key !in KeysOf(r.states[i].l1)
    requires end == r.times[i] + r.cfg.defaultTtl as real && r.ops[i].key in KeysOf(r.states[i + 1].l1)
    ensures r.results[i].Some? && L1Says(r.states[i + 1].l1, r.ops[i].key, r.results[i].value, end)
  {
    assert r.Performed(i);
    assert r.results[i].Some?;
    var item := Item(r.ops[i].key, r.results[i].value, Some(end), r.times[i]);
    assert r.states[i + 1].l1 == Put(r.states[i].l1, r.cfg.max, item);
    RunStaysBacked(r, i);
    PutKeys(r.states[i].l1, r.cfg.max, item);
  }

  /** A value that a read copied from Redis is what later reads return for one default period, under the
      same condition: even after Redis has lost it. */
  lemma CopyIsRead<V>(r: Run<V>, i: nat, n: nat)
    requires r.Valid() && i < n < |r.ops| && r.ops[i].GetOp? && r.ops[n].GetOp? && r.ops[n].key == r.ops[i].key
    requires r.ops[i].key !in KeysOf(r.states[i].l1) && StaysInL1(r, i, n, r.ops[i].key)
    requires r.times[n] <= r.times[i] + r.cfg.defaultTtl as real
    ensures r.results[i].Some? && r.results[n] == r.results[i]
  {
    var key, end := r.ops[i].key, r.times[i] + r.cfg.defaultTtl as real;
    assert key in KeysOf(r.states[i + 1].l1);
    CopySays(r, i, end);
    L1KeepsSaying(r, i, n, key, r.results[i].value, end);
    SaidIsRead(r, n, r.results[i].value, end);
  }

  lemma {:induction false} StoredIsSet<V>(r: Run<V>, n: nat, key: string)
    requires r.Shaped() && n <= |r.ops| && r.LastTookEffect(n, key)
    ensures r.LastStored(n, key) == r.LastSet(n, key)
  {
    if n > 0 && !r.Affects(n - 1, key) {
      StoredIsSet(r, n - 1, key);
    }
  }

  /** Main result on staleness. If the last operation to affect the key took effect in Redis, whatever
      became of all others, a read returns the value of the last set of its key, with no invalidation
      since, and no later than that set's period plus one default period after the set. */
  lemma ServedIsLastSet<V>(r: Run<V>, n: nat)
    requires r.Valid() && n < |r.ops| && r.ops[n].GetOp? && r.results[n].Some? && r.LastTookEffect(n, r.ops[n].key)
    ensures ServedFrom(r, r.LastSet(n, r.ops[n].key), n, r.ops[n].key, r.results[n].value, r.times[n])
  {
    ServedIsSetOrStored(r, n);
    StoredIsSet(r, n, r.ops[n].key);
  }

  /** What LastSet finds: a set of the key that no later operation undoes. */
  lemma {:induction false} LastSetMeaning<V>(r: Run<V>, n: nat, key: string, w: nat)
    requires n <= |r.ops|
    ensures r.LastSet(n, key) == Some(w)
       <==> w < n && r.ops[w].SetOp? && r.ops[w].key == key && forall i :: w < i < n ==> !r.Affects(i, key)
  {
    if n > 0 && !r.Affects(n - 1, key) {
      LastSetMeaning(r, n - 1, key, w);
    }
  }

  lemma Extend<V>(r: Run<V>, op: Op<V>, now: real) returns (r': Run<V>)
    requires r.Valid() && Sound(op) && (r.times == [] || r.times[|r.times| - 1] <= now)
    ensures r'.Valid() && r'.cfg == r.cfg && r'.ops == r.ops + [op] && r'.times == r.times + [now]
    ensures
      var (v, s) := Perform(r.cfg, r.states[|r.ops|], op, now);
      r'.results == r.results + [v] && r'.states == r.states + [s]
  {
    var (v, s) := Perform(r.cfg, r.states[|r.ops|], op, now);
    r' := Run(r.cfg, r.times + [now], r.ops + [op], r.results + [v], r.states + [s]);
    forall i: nat | i < |r'.ops|
      ensures r'.Performed(i)
    {
      if i < |r.ops| {
        assert r.Performed(i);
      }
    }
  }

  /** The bound is reached: set, lose the L1 copy, read at the end of the period, read again one
      default period later. */
  lemma StalenessBoundReached<V>(cfg: Settings, value: V, ttl: int) returns (r: Run<V>)
    requires cfg.max >= 1 && cfg.defaultTtl >= 0 && ttl >= 1
    ensures r.Valid() && r.cfg == cfg && |r.ops| == 4 && r.LastTookEffect(3, "k")
    ensures r.ops[0] == SetOp("k", value, Some(ttl), Done) && r.ops[3] == GetOp("k", Done)
    ensures r.results[3] == Some(value) && r.times[3] == r.times[0] + (ttl + Slack(cfg)) as real
  {
    var end, last := ttl as real, (ttl + cfg.defaultTtl) as real;
    var copied := Item("k", value, Some(last), end);
    r := Run(cfg, [], [], [], [Tiers([], map[])]);
    r := Extend(r, SetOp("k", value, Some(ttl), Done), 0.0);
    r := Extend(r, ClearOp, 0.0);
    assert r.states[2].l2 == map["k" := Timed(value, Some(end))];
    assert KeysOf<V>([]) == [] && Put([], cfg.max, copied) == [copied];
    r := Extend(r, GetOp("k", Done), end);
    assert r.states[3].l1 == [copied];
    assert KeysOf([copied]) == ["k"] && IndexOf(["k"], "k") == Some(0) && !copied.ExpiredAt(last);
    r := Extend(r, GetOp("k", Done), last);
  }

  /** Read n returns a value although w was set last. */
  ghost predicate ServesOlder<V>(r: Run<V>, n: nat, w: nat) {
    && r.Valid() && n < |r.ops| && r.ops[n].GetOp? && r.results[n].Some?
    && w < n && r.LastSet(n, r.ops[n].key) == Some(w) && r.ops[w].SetOp? && r.results[n].value != r.ops[w].value
  }

  ghost predicate LeavesOlder<V>(r: Run<V>, n: nat, w: nat, cfg: Settings, ttl: Option<int>, reply: Reply) {
    ServesOlder(r, n, w) && r.cfg == cfg && r.ops[w].ttl == ttl && r.ops[w].reply == reply
  }

  /** Over all runs: after a set with a given period and outcome an older value can still be served if and
      only if its SETEX did not reach Redis or was refused for a period of zero or less. */
  lemma OldValueReturns<V(!new)>(cfg: Settings, ttl: Option<int>, reply: Reply, former: V, value: V)
    requires former != value
    ensures (exists r: Run<V>, n, w :: LeavesOlder(r, n, w, cfg, ttl, reply))
       <==> reply.Refused? || (if ttl.None? then cfg.defaultTtl else ttl.value) <= 0
  {
    if r: Run<V>, n, w :| LeavesOlder(r, n, w, cfg, ttl, reply) {
      OlderNeedsFailure(r, n, w);
    }
    if reply.Refused? || (if ttl.None? then cfg.defaultTtl else ttl.value) <= 0 {
      var r := OlderServed(cfg, ttl, reply, former, value);
      assert LeavesOlder(r, 3, 1, cfg, ttl, reply);
    }
  }

  lemma OlderNeedsFailure<V>(r: Run<V>, n: nat, w: nat)
    requires ServesOlder(r, n, w)
    ensures r.ops[w].reply.Refused? || r.Period(w) <= 0
  {
    var key := r.ops[n].key;
    if r.TakesEffect(w, key) {
      LastSetMeaning(r, n, key, w);
      LastEffect(r, n, key, w);
      ServedIsLastSet(r, n);
    }
  }

  lemma {:induction false} LastEffect<V>(r: Run<V>, n: nat, key: string, w: nat)
    requires r.Shaped() && w < n <= |r.ops| && r.Affects(w, key) && r.TakesEffect(w, key)
    requires forall i :: w < i < n ==> !r.Affects(i, key)
    ensures r.LastTookEffect(n, key)
  {
    if n > w + 1 {
      LastEffect(r, n - 1, key, w);
    }
  }

  lemma OlderServed<V>(cfg: Settings, ttl: Option<int>, reply: Reply, former: V, value: V) returns (r: Run<V>)
    requires former != value && (reply.Refused? || (if ttl.None? then cfg.defaultTtl else ttl.value) <= 0)
    ensures ServesOlder(r, 3, 1) && r.cfg == cfg && r.ops[1] == SetOp("k", value, ttl, reply) &&
        r.results[3] == Some(former)
  {
    r := Run(cfg, [], [], [], [Tiers([], map[])]);
    r := Extend(r, SetOp("k", former, Some(1), Done), 0.0);
    r := Extend(r, SetOp("k", value, ttl, reply), 0.0);
    r := Extend(r, ClearOp, 0.0);
    assert r.states[3].l2 == map["k" := Timed(former, Some(1.0))];
    assert KeysOf<V>([]) == [];
    r := Extend(r, GetOp("k", Done), 0.0);
    assert r.LastSet(2, "k") == Some(1) && r.LastSet(3, "k") == Some(1);
  }

  // ----- which keys L1 holds -----

  function EventOf<V>(op: Op<V>, result: Option<V>): KeyEvent {
    match op
    case GetOp(key, _) => if result.Some? then Touch(key) else Forget(key)
    case SetOp(key, _, _, _) => Touch(key)
    case InvalidateOp(key, _) => Forget(key)
    case _ => Reset
  }

  ghost function Events<V>(r: Run<V>, n: nat): seq<KeyEvent>
    requires n <= |r.ops| == |r.results|
  {
    seq(n, i requires 0 <= i < n => EventOf(r.ops[i], r.results[i]))
  }

  function Room(cfg: Settings): nat { if cfg.max < 0 then 0 else cfg.max }

  lemma FetchMovesKeys<V>(cfg: Settings, s: Tiers<V>, key: string, now: real, reply: Reply)
    requires Distinct(KeysOf(s.l1))
    ensures
      var (v, s') := FetchFrom(cfg, s, key, now, reply);
      KeysOf(s'.l1) == if v.Some? then TouchKey(KeysOf(s.l1), cfg.max, key) else KeysOf(s.l1)
  {
    var found := Lookup(s.l2, key, now);
    if found.Some? {
      PutKeys(s.l1, cfg.max, Item(key, found.value, Some(now + cfg.defaultTtl as real), now));
    }
  }

  lemma GetMovesKeys<V>(cfg: Settings, s: Tiers<V>, key: string, now: real, reply: Reply)
    requires Distinct(KeysOf(s.l1)) && |s.l1| <= Room(cfg)
    ensures
      var (v, s') := GetFrom(cfg, s, key, now, reply);
      KeysOf(s'.l1) == Occur(KeysOf(s.l1), cfg.max, if v.Some? then Touch(key) else Forget(key))
  {
    var at := IndexOf(KeysOf(s.l1), key);
    if at.None? {
      FetchMovesKeys(cfg, s, key, now, reply);
    } else {
      var i := at.value;
      MovedItems(s.l1, i, s.l1[i].(lastAccessed := now));
      KeysDistinct(s.l1, key);
      WithoutKeyIs(KeysOf(s.l1), key);
      if s.l1[i].ExpiredAt(now) {
        FetchMovesKeys(cfg, s.(l1 := Drop(s.l1, i)), key, now, reply);
      }
    }
  }

  lemma OpMovesKeys<V>(cfg: Settings, s: Tiers<V>, op: Op<V>, now: real)
    requires Distinct(KeysOf(s.l1)) && |s.l1| <= Room(cfg)
    ensures
      var (v, s') := Perform(cfg, s, op, now);
      KeysOf(s'.l1) == Occur(KeysOf(s.l1), cfg.max, EventOf(op, v))
  {
    match op
    case GetOp(key, reply) => GetMovesKeys(cfg, s, key, now, reply);
    case SetOp(key, value, ttl, _) =>
      var period := if ttl.None? then cfg.defaultTtl else ttl.value;
      PutKeys(s.l1, cfg.max, Item(key, value, Some(now + period as real), now));
    case InvalidateOp(key, _) => KeysDistinct(s.l1, key);
    case _ =>
  }

  lemma OpKeepsRoom<V>(cfg: Settings, s: Tiers<V>, op: Op<V>, now: real)
    requires Distinct(KeysOf(s.l1)) && |s.l1| <= Room(cfg)
    ensures
      var l1 := Perform(cfg, s, op, now).1.l1;
      Distinct(KeysOf(l1)) && |l1| <= Room(cfg)
  {
    var (v, s') := Perform(cfg, s, op, now);
    var event := EventOf(op, v);
    assert |KeysOf(s'.l1)| == |s'.l1|;
    OpMovesKeys(cfg, s, op, now);
    OccurKeepsDistinct(KeysOf(s.l1), cfg.max, event);
    if !event.Reset? {
      WithoutKeyIs(KeysOf(s.l1), event.key);
    }
  }

  lemma ReplayStep<V>(r: Run<V>, n: nat)
    requires n < |r.ops| == |r.results|
    ensures Replay(Events(r, n + 1), r.cfg.max)
         == Occur(Replay(Events(r, n), r.cfg.max), r.cfg.max, EventOf(r.ops[n], r.results[n]))
  {
    assert Events(r, n + 1)[..n] == Events(r, n);
  }

  /** In every run, whatever calls to Redis fail, L1 holds the keys of a least-recently-used list under the
      run's touches and removals, and never more than its capacity. */
  lemma {:induction false} L1RefinesLru<V>(r: Run<V>, n: nat)
    requires r.Valid() && n <= |r.ops|
    ensures KeysOf(r.states[n].l1) == Replay(Events(r, n), r.cfg.max)
    ensures Distinct(KeysOf(r.states[n].l1)) && |r.states[n].l1| <= Room(r.cfg)
  {
    if n > 0 {
      L1RefinesLru(r, n - 1);
      assert r.Performed(n - 1);
      OpMovesKeys(r.cfg, r.states[n - 1], r.ops[n - 1], r.times[n - 1]);
      OpKeepsRoom(r.cfg, r.states[n - 1], r.ops[n - 1], r.times[n - 1]);
      ReplayStep(r, n - 1);
    }
  }

  /** L1 is sorted by last access. */
  ghost predicate ByAccess<V>(l1: seq<Item<V>>, now: real) {
    && (forall i :: 0 <= i < |l1| ==> l1[i].lastAccessed <= now)
    && (forall i, j :: 0 <= i < j < |l1| ==> l1[i].lastAccessed <= l1[j].lastAccessed)
  }

  lemma AppendKeepsAccess<V>(l1: seq<Item<V>>, item: Item<V>, now: real)
    requires ByAccess(l1, now) && item.lastAccessed == now
    ensures ByAccess(l1 + [item], now) && ByAccess((l1 + [item])[1..], now)
  {
  }

  lemma DropKeepsAccess<V>(l1: seq<Item<V>>, i: nat, now: real)
    requires ByAccess(l1, now) && i < |l1|
    ensures ByAccess(Drop(l1, i), now)
  {
  }

  lemma PutKeepsAccess<V>(l1: seq<Item<V>>, max: int, item: Item<V>, now: real)
    requires ByAccess(l1, now) && item.lastAccessed == now
    ensures ByAccess(Put(l1, max, item), now)
  {
    WithoutKeepsAccess(l1, item.key, now);
    AppendKeepsAccess(Without(l1, item.key), item, now);
  }

  lemma FetchKeepsAccess<V>(cfg: Settings, s: Tiers<V>, key: string, now: real, reply: Reply)
    requires ByAccess(s.l1, now)
    ensures ByAccess(FetchFrom(cfg, s, key, now, reply).1.l1, now)
  {
    var after := FetchFrom(cfg, s, key, now, reply).1.l1;
    if after != s.l1 {
      var item := Item(key, Lookup(s.l2, key, now).value, Some(now + cfg.defaultTtl as real), now);
      assert after == Put(s.l1, cfg.max, item);
      assert ByAccess(Put(s.l1, cfg.max, item), now) by {
        PutKeepsAccess(s.l1, cfg.max, item, now);
      }
    }
  }

  lemma GetKeepsAccess<V>(cfg: Settings, s: Tiers<V>, key: string, now: real, reply: Reply)
    requires ByAccess(s.l1, now)
    ensures ByAccess(GetFrom(cfg, s, key, now, reply).1.l1, now)
  {
    var at := IndexOf(KeysOf(s.l1), key);
    if at.None? {
      FetchKeepsAccess(cfg, s, key, now, reply);
    } else {
      var rest := Drop(s.l1, at.value);
      DropKeepsAccess(s.l1, at.value, now);
      if s.l1[at.value].ExpiredAt(now) {
        FetchKeepsAccess(cfg, s.(l1 := rest), key, now, reply);
      } else {
        AppendKeepsAccess(rest, s.l1[at.value].(lastAccessed := now), now);
      }
    }
  }

  lemma WithoutKeepsAccess<V>(l1: seq<Item<V>>, key: string, now: real)
    requires ByAccess(l1, now)
    ensures ByAccess(Without(l1, key), now)
  {
    var at := IndexOf(KeysOf(l1), key);
    if at.Some? {
      DropKeepsAccess(l1, at.value, now);
    }
  }

  lemma SetKeepsAccess<V>(cfg: Settings, s: Tiers<V>, key: string, value: V, ttl: Option<int>, now: real, reply: Reply)
    requires ByAccess(s.l1, now)
    ensures ByAccess(SetIn(cfg, s, key, value, ttl, now, reply).l1, now)
  {
    var period := if ttl.None? then cfg.defaultTtl else ttl.value;
    var item := Item(key, value, Some(now + period as real), now);
    assert ByAccess(Put(s.l1, cfg.max, item), now) by {
      PutKeepsAccess(s.l1, cfg.max, item, now);
    }
    assert SetIn(cfg, s, key, value, ttl, now, reply).l1 == Put(s.l1, cfg.max, item);
  }

  lemma OpKeepsAccessOrder<V>(cfg: Settings, s: Tiers<V>, op: Op<V>, now: real)
    requires ByAccess(s.l1, now)
    ensures ByAccess(Perform(cfg, s, op, now).1.l1, now)
  {
    match op
    case SetOp(key, value, ttl, reply) => SetKeepsAccess(cfg, s, key, value, ttl, now, reply);
    case GetOp(key, reply) => GetKeepsAccess(cfg, s, key, now, reply);
    case InvalidateOp(key, _) => WithoutKeepsAccess(s.l1, key, now);
    case PatternOp(_, _) =>
    case ClearOp =>
  }

  lemma {:induction false} RunKeepsAccessOrder<V>(r: Run<V>, n: nat)
    requires r.Valid() && n < |r.ops|
    ensures ByAccess(r.states[n].l1, r.times[n]) && ByAccess(r.states[n + 1].l1, r.times[n])
  {
    if n > 0 {
      RunKeepsAccessOrder(r, n - 1);
    }
    assert r.Performed(n);
    OpKeepsAccessOrder(r.cfg, r.states[n], r.ops[n], r.times[n]);
  }

  /** What an insertion evicts is an entry of oldest access. */
  lemma PutEvictsOldest<V>(l1: seq<Item<V>>, max: int, item: Item<V>, now: real, x: Item<V>)
    requires ByAccess(l1, now) && item.lastAccessed == now && x in l1 && x.key != item.key && x !in Put(l1, max, item)
    ensures |Put(l1, max, item)| >= max && forall y :: y in Put(l1, max, item) ==> x.lastAccessed <= y.lastAccessed
  {
    var moved := Without(l1, item.key) + [item];
    OtherStays(l1, item.key, x);
    PutKeepsAccess(l1, max, item, now);
    WithoutKeepsAccess(l1, item.key, now);
    AppendKeepsAccess(Without(l1, item.key), item, now);
    assert x in moved;
    var i :| 0 <= i < |moved| && moved[i] == x;
    assert i > 0 ==> moved[1..][i - 1] == x;
  }

  lemma OtherStays<V>(l1: seq<Item<V>>, key: string, x: Item<V>)
    requires x in l1 && x.key != key
    ensures x in Without(l1, key)
  {
    var at := IndexOf(KeysOf(l1), key);
    if at.Some? {
      var i :| 0 <= i < |l1| && l1[i] == x;
      assert KeysOf(l1)[at.value] == l1[at.value].key == key;
      assert Without(l1, key)[if i < at.value then i else i - 1] == x;
    }
  }

  lemma FetchEvictsOldest<V>(cfg: Settings, s: Tiers<V>, key: string, now: real, reply: Reply, x: Item<V>)
    requires ByAccess(s.l1, now) && x in s.l1 && x.key != key
    ensures
      var l1 := FetchFrom(cfg, s, key, now, reply).1.l1;
      x in l1 || (|l1| >= cfg.max && forall y :: y in l1 ==> x.lastAccessed <= y.lastAccessed)
  {
    var l1 := FetchFrom(cfg, s, key, now, reply).1.l1;
    if l1 != s.l1 && x !in l1 {
      var item := Item(key, Lookup(s.l2, key, now).value, Some(now + cfg.defaultTtl as real), now);
      PutEvictsOldest(s.l1, cfg.max, item, now, x);
    }
  }

  lemma GetEvictsOldest<V>(cfg: Settings, s: Tiers<V>, key: string, now: real, reply: Reply, x: Item<V>)
    requires ByAccess(s.l1, now) && x in s.l1 && x.key != key
    ensures
      var l1 := GetFrom(cfg, s, key, now, reply).1.l1;
      x in l1 || (|l1| >= cfg.max && forall y :: y in l1 ==> x.lastAccessed <= y.lastAccessed)
  {
    var at := IndexOf(KeysOf(s.l1), key);
    if at.None? {
      FetchEvictsOldest(cfg, s, key, now, reply, x);
    } else {
      OtherStays(s.l1, key, x);
      assert Drop(s.l1, at.value) == Without(s.l1, key);
      if s.l1[at.value].ExpiredAt(now) {
        DropKeepsAccess(s.l1, at.value, now);
        FetchEvictsOldest(cfg, s.(l1 := Drop(s.l1, at.value)), key, now, reply, x);
      }
    }
  }

  lemma SetEvictsOldest<V>(cfg: Settings, s: Tiers<V>, op: Op<V>, now: real, x: Item<V>)
    requires op.SetOp? && ByAccess(s.l1, now) && x in s.l1 && x.key != op.key
    ensures
      var l1 := Perform(cfg, s, op, now).1.l1;
      x in l1 || (|l1| >= cfg.max && forall y :: y in l1 ==> x.lastAccessed <= y.lastAccessed)
  {
    var period := if op.ttl.None? then cfg.defaultTtl else op.ttl.value;
    var item := Item(op.key, op.value, Some(now + period as real), now);
    assert Perform(cfg, s, op, now).1.l1 == Put(s.l1, cfg.max, item);
    if x !in Put(s.l1, cfg.max, item) {
      PutEvictsOldest(s.l1, cfg.max, item, now, x);
    }
  }

  /** In every run, an entry that a get or a set of another key removes from L1 was evicted from a full
      cache, and no entry that stays was accessed before it. */
  lemma VictimIsLeastRecent<V>(r: Run<V>, n: nat, x: Item<V>)
    requires r.Valid() && n < |r.ops| && (r.ops[n].GetOp? || r.ops[n].SetOp?)
    requires x in r.states[n].l1 && x !in r.states[n + 1].l1 && x.key != r.ops[n].key
    ensures |r.states[n + 1].l1| >= r.cfg.max
    ensures forall y :: y in r.states[n + 1].l1 ==> x.lastAccessed <= y.lastAccessed
  {
    RunKeepsAccessOrder(r, n);
    assert r.Performed(n);
    if r.ops[n].GetOp? {
      GetEvictsOldest(r.cfg, r.states[n], r.ops[n].key, r.times[n], r.ops[n].reply, x);
    } else {
      SetEvictsOldest(r.cfg, r.states[n], r.ops[n], r.times[n], x);
    }
  }
}
