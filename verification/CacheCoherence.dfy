/** Any number of cache managers over one Redis. Each operation is split where the code awaits: a get
    reads L1, then Redis, then copies the value into L1; a set writes L1, then Redis; an invalidation
    removes from L1, then from Redis. The parts interleave freely. */
module CacheCoherence {
  import opened Caching
  import opened Lru
  import opened Redis

  /** One call of set: what it wrote, when it wrote L1, and for how long. */
  datatype Write<V> = Write(serial: nat, key: string, value: V, setAt: real, ttl: int)

  /** A value in L1: put there by its own set, or copied from Redis, where it was read at `readAt`. */
  datatype Cached<V> = Cached(write: Write<V>, readAt: Option<real>)

  datatype Fetch<V> = Fetch(inst: nat, write: Write<V>, readAt: real)

  /** `until` gives, for every write that ever reached Redis, the last instant at which Redis can
      serve it: its expiry, or the instant it was overwritten or deleted. */
  datatype Cluster<V> = Cluster(
    clock: real,
    l1s: map<nat, seq<Item<Cached<V>>>>,
    l2: map<string, Timed<Write<V>>>,
    fetches: map<nat, Fetch<V>>,
    pending: map<nat, Write<V>>,
    serials: nat,
    until: map<nat, real>)

  datatype Step<V> =
    | Tick(later: real)
    | ReadL1(inst: nat, key: string)
    | ReadL2(task: nat, inst: nat, key: string)
    | BackFill(task: nat)
    | SetL1(task: nat, inst: nat, key: string, value: V, ttl: int)
    | SetL2(task: nat)
    | GiveUp(task: nat)                  // SETEX failed or was refused for its period
    | InvalidateL1(inst: nat, key: string)
    | InvalidateL2(key: string)
    | ClearL1(inst: nat)

  /** The settings all instances share, and the longest a read may wait between Redis and L1. */
  datatype Deployment = Deployment(cfg: Settings, delay: real) {

    function Slack(): real { if cfg.defaultTtl < 0 then 0.0 else cfg.defaultTtl as real }

    predicate Enabled<V>(s: Cluster<V>, step: Step<V>) {
      match step
      case Tick(later) => s.clock <= later
      case ReadL2(task, _, key) => task !in s.fetches && Lookup(s.l2, key, s.clock).Some?
      case BackFill(task) => task in s.fetches && s.clock - s.fetches[task].readAt <= delay
      case SetL1(task, _, _, _, _) => task !in s.pending
      case SetL2(task) => task in s.pending && s.pending[task].ttl > 0
      case GiveUp(task) => task in s.pending
      case _ => true
    }

    /** The state after a step, and the write a get returns at it. */
    function Apply<V>(s: Cluster<V>, step: Step<V>): (Cluster<V>, Option<Write<V>>)
      requires Enabled(s, step)
    {
      match step
      case Tick(later) => (s.(clock := later), None)
      case ReadL1(inst, key) =>
        (match IndexOf(KeysOf(L1Of(s, inst)), key)
         case None => (s, None)
         case Some(i) =>
           var l1 := L1Of(s, inst);
           if l1[i].ExpiredAt(s.clock) then (s.(l1s := s.l1s[inst := Drop(l1, i)]), None)
           else (s.(l1s := s.l1s[inst := Drop(l1, i) + [l1[i].(lastAccessed := s.clock)]]), Some(l1[i].value.write)))
      case ReadL2(task, inst, key) => (s.(fetches := s.fetches[task := Fetch(inst, s.l2[key].value, s.clock)]), None)
      case BackFill(task) =>
        var f := s.fetches[task];
        var item := Item(f.write.key, Cached(f.write, Some(f.readAt)), Some(s.clock + cfg.defaultTtl as real), s.clock);
        (s.(l1s := s.l1s[f.inst := Put(L1Of(s, f.inst), cfg.max, item)], fetches := s.fetches - {task}), Some(f.write))
      case SetL1(task, inst, key, value, ttl) =>
        var w := Write(s.serials, key, value, s.clock, ttl);
        var item := Item(key, Cached(w, None), Some(s.clock + ttl as real), s.clock);
        (s.(l1s := s.l1s[inst := Put(L1Of(s, inst), cfg.max, item)], pending := s.pending[task := w],
            serials := s.serials + 1), None)
      case SetL2(task) =>
        var w := s.pending[task];
        (s.(l2 := SetEx(s.l2, w.key, w, w.ttl, s.clock), pending := s.pending - {task},
            until := Superseded(s, w.key)[w.serial := s.clock + w.ttl as real]), None)
      case GiveUp(task) => (s.(pending := s.pending - {task}), None)
      case InvalidateL1(inst, key) => (s.(l1s := s.l1s[inst := Without(L1Of(s, inst), key)]), None)
      case InvalidateL2(key) => (s.(l2 := s.l2 - {key}, until := Superseded(s, key)), None)
      case ClearL1(inst) => (s.(l1s := s.l1s[inst := []]), None)
    }
  }

  function L1Of<V>(s: Cluster<V>, inst: nat): seq<Item<Cached<V>>> {
    if inst in s.l1s then s.l1s[inst] else []
  }

  /** The write now under a key ends its time in Redis. */
  function Superseded<V>(s: Cluster<V>, key: string): map<nat, real> {
    if key in s.l2 && s.l2[key].value.serial in s.until && s.clock < s.until[s.l2[key].value.serial]
    then s.until[s.l2[key].value.serial := s.clock]
    else s.until
  }

  // ----- runs -----

  datatype Run<V> = Run(d: Deployment, states: seq<Cluster<V>>, steps: seq<Step<V>>, served: seq<Option<Write<V>>>) {

    ghost predicate Stepped(i: nat)
      requires i < |steps| == |served| && |states| == |steps| + 1
    {
      d.Enabled(states[i], steps[i]) && (states[i + 1], served[i]) == d.Apply(states[i], steps[i])
    }

    ghost predicate Valid() {
      && |served| == |steps| && |states| == |steps| + 1 && d.delay >= 0.0
      && states[0] == Cluster(states[0].clock, map[], map[], map[], map[], 0, map[])
      && forall i: nat {:trigger Stepped(i)} :: i < |steps| ==> Stepped(i)
    }
  }

  /** A write read from Redis at some instant was still there then. */
  ghost predicate WasInRedis<V>(s: Cluster<V>, w: Write<V>, readAt: real) {
    w.serial in s.until && readAt <= s.until[w.serial] && readAt <= s.clock
  }

  ghost predicate SoundItem<V>(d: Deployment, s: Cluster<V>, x: Item<Cached<V>>) {
    var c := x.value;
    && x.expiresAt.Some? && c.write.setAt <= s.clock && c.write.serial < s.serials
    && (if c.readAt.None? then x.expiresAt.value <= c.write.setAt + c.write.ttl as real
        else WasInRedis(s, c.write, c.readAt.value) && x.expiresAt.value <= c.readAt.value + d.delay + d.Slack())
  }

  ghost predicate SoundL1<V>(d: Deployment, s: Cluster<V>, l1: seq<Item<Cached<V>>>) {
    forall x :: x in l1 ==> SoundItem(d, s, x)
  }

  ghost predicate SoundFetch<V>(s: Cluster<V>, f: Fetch<V>) {
    WasInRedis(s, f.write, f.readAt) && f.write.setAt <= s.clock && f.write.serial < s.serials
  }

  ghost predicate SoundEntry<V>(s: Cluster<V>, key: string)
    requires key in s.l2
  {
    var w := s.l2[key].value;
    && w.key == key && w.serial in s.until && s.l2[key].expiresAt == Some(s.until[w.serial])
    && w.setAt <= s.clock && w.serial < s.serials
  }

  ghost predicate SoundPending<V>(s: Cluster<V>, task: nat)
    requires task in s.pending
  {
    s.pending[task].serial < s.serials && s.pending[task].serial !in s.until && s.pending[task].setAt <= s.clock
  }

  ghost predicate SoundL1s<V>(d: Deployment, s: Cluster<V>) {
    forall i {:trigger L1Of(s, i)} :: SoundL1(d, s, L1Of(s, i))
  }

  ghost predicate SoundFetches<V>(s: Cluster<V>) {
    forall t {:trigger s.fetches[t]} :: t in s.fetches ==> SoundFetch(s, s.fetches[t])
  }

  ghost predicate SoundEntries<V>(s: Cluster<V>) {
    && (forall k {:trigger SoundEntry(s, k)} :: k in s.l2 ==> SoundEntry(s, k))
    && (forall k, j {:trigger s.l2[k], s.l2[j]} :: k in s.l2 && j in s.l2 && k != j ==>
         s.l2[k].value.serial != s.l2[j].value.serial)
  }

  ghost predicate SoundQueue<V>(s: Cluster<V>) {
    && (forall n :: n in s.until ==> n < s.serials)
    && (forall t {:trigger SoundPending(s, t)} :: t in s.pending ==> SoundPending(s, t))
    && (forall t, u {:trigger s.pending[t], s.pending[u]} :: t in s.pending && u in s.pending && t != u ==>
         s.pending[t].serial != s.pending[u].serial)
  }

  ghost predicate Sound<V>(d: Deployment, s: Cluster<V>) {
    SoundL1s(d, s) && SoundFetches(s) && SoundEntries(s) && SoundQueue(s)
  }

  /** Time and serial numbers only grow, and a write's time in Redis only ever ends sooner. */
  ghost predicate Advances<V>(s: Cluster<V>, s': Cluster<V>) {
    && s.clock <= s'.clock && s.serials <= s'.serials
    && (forall n {:trigger s'.until[n]} :: n in s.until ==>
         n in s'.until && (s'.until[n] == s.until[n] || s'.until[n] == s.clock < s.until[n]))
  }

  lemma StepAdvances<V>(d: Deployment, s: Cluster<V>, step: Step<V>)
    requires Sound(d, s) && d.Enabled(s, step)
    ensures Advances(s, d.Apply(s, step).0)
  {
    if step.SetL2? {
      assert SoundPending(s, step.task);
    }
  }

  lemma ItemsPersist<V>(d: Deployment, s: Cluster<V>, s': Cluster<V>, l1: seq<Item<Cached<V>>>)
    requires SoundL1(d, s, l1) && Advances(s, s')
    ensures SoundL1(d, s', l1)
  {
    forall x | x in l1
      ensures SoundItem(d, s', x)
    {
      assert SoundItem(d, s, x);
      var c := x.value;
      if c.readAt.Some? {
        assert s'.until[c.write.serial] <= s.until[c.write.serial];
      }
    }
  }

  lemma FetchPersists<V>(s: Cluster<V>, s': Cluster<V>, f: Fetch<V>)
    requires SoundFetch(s, f) && Advances(s, s')
    ensures SoundFetch(s', f)
  {
    assert s'.until[f.write.serial] <= s.until[f.write.serial];
  }

  lemma PutItems<V>(l1: seq<Item<V>>, max: int, item: Item<V>)
    ensures forall x :: x in Put(l1, max, item) ==> x == item || x in l1
  {
  }

  /** Every L1 after a step holds items of before, or the one item the step puts there. */
  lemma StepKeepsL1s<V>(d: Deployment, s: Cluster<V>, step: Step<V>)
    requires Sound(d, s) && d.Enabled(s, step) && d.delay >= 0.0
    ensures SoundL1s(d, d.Apply(s, step).0)
  {
    var s' := d.Apply(s, step).0;
    StepAdvances(d, s, step);
    forall i
      ensures SoundL1(d, s', L1Of(s', i))
    {
      ItemsPersist(d, s, s', L1Of(s, i));
      if L1Of(s', i) != L1Of(s, i) {
        forall x | x in L1Of(s', i)
          ensures SoundItem(d, s', x)
        {
          if x !in L1Of(s, i) {
            NewItemSound(d, s, step, i, x);
          }
        }
      }
    }
  }

  lemma NewItemSound<V>(d: Deployment, s: Cluster<V>, step: Step<V>, i: nat, x: Item<Cached<V>>)
    requires Sound(d, s) && d.Enabled(s, step) && d.delay >= 0.0
    requires x in L1Of(d.Apply(s, step).0, i) && x !in L1Of(s, i)
    ensures SoundItem(d, d.Apply(s, step).0, x)
  {
    match step
    case ReadL1(inst, key) => TouchedSound(d, s, key, i, x);
    case BackFill(task) => CopiedSound(d, s, task, i, x);
    case SetL1(_, _, _, _, _) => SetSound(d, s, step, i, x);
    case _ => NoNewItem(d, s, step, i, x);
  }

  /** All other steps only ever remove from L1. */
  lemma NoNewItem<V>(d: Deployment, s: Cluster<V>, step: Step<V>, i: nat, x: Item<Cached<V>>)
    requires d.Enabled(s, step) && !step.ReadL1? && !step.BackFill? && !step.SetL1?
    requires x in L1Of(d.Apply(s, step).0, i)
    ensures x in L1Of(s, i)
  {
  }

  lemma SetSound<V>(d: Deployment, s: Cluster<V>, step: Step<V>, i: nat, x: Item<Cached<V>>)
    requires Sound(d, s) && step.SetL1? && d.Enabled(s, step)
    requires x in L1Of(d.Apply(s, step).0, i) && x !in L1Of(s, i)
    ensures SoundItem(d, d.Apply(s, step).0, x)
  {
    var w := Write(s.serials, step.key, step.value, s.clock, step.ttl);
    PutItems(L1Of(s, i), d.cfg.max, Item(step.key, Cached(w, None), Some(s.clock + step.ttl as real), s.clock));
  }

  lemma TouchedSound<V>(d: Deployment, s: Cluster<V>, key: string, i: nat, x: Item<Cached<V>>)
    requires Sound(d, s) && x in L1Of(d.Apply(s, ReadL1(i, key)).0, i) && x !in L1Of(s, i)
    ensures SoundItem(d, d.Apply(s, ReadL1(i, key)).0, x)
  {
    var l1, at := L1Of(s, i), IndexOf(KeysOf(L1Of(s, i)), key);
    assert x == l1[at.value].(lastAccessed := s.clock);
    assert SoundL1(d, s, l1) && SoundItem(d, s, l1[at.value]);
  }

  lemma CopiedSound<V>(d: Deployment, s: Cluster<V>, task: nat, i: nat, x: Item<Cached<V>>)
    requires Sound(d, s) && d.Enabled(s, BackFill(task)) && x in L1Of(d.Apply(s, BackFill(task)).0, i) &&
        x !in L1Of(s, i)
    ensures SoundItem(d, d.Apply(s, BackFill(task)).0, x)
  {
    PutItems(L1Of(s, i), d.cfg.max, CopyOf(d, s, s.fetches[task]));
    assert x == CopyOf(d, s, s.fetches[task]);
    CopySound(d, s, task);
  }

  function CopyOf<V>(d: Deployment, s: Cluster<V>, f: Fetch<V>): Item<Cached<V>> {
    Item(f.write.key, Cached(f.write, Some(f.readAt)), Some(s.clock + d.cfg.defaultTtl as real), s.clock)
  }

  lemma CopySound<V>(d: Deployment, s: Cluster<V>, task: nat)
    requires Sound(d, s) && d.Enabled(s, BackFill(task))
    ensures SoundItem(d, d.Apply(s, BackFill(task)).0, CopyOf(d, s, s.fetches[task]))
  {
    assert SoundFetch(s, s.fetches[task]);
  }

  lemma StepKeepsFetches<V>(d: Deployment, s: Cluster<V>, step: Step<V>)
    requires Sound(d, s) && d.Enabled(s, step)
    ensures SoundFetches(d.Apply(s, step).0)
  {
    var s' := d.Apply(s, step).0;
    StepAdvances(d, s, step);
    forall t | t in s'.fetches
      ensures SoundFetch(s', s'.fetches[t])
    {
      if t in s.fetches && s'.fetches[t] == s.fetches[t] {
        FetchPersists(s, s', s.fetches[t]);
      } else {
        assert SoundEntry(s, step.key);
      }
    }
  }

  lemma StepKeepsEntries<V>(d: Deployment, s: Cluster<V>, step: Step<V>)
    requires Sound(d, s) && d.Enabled(s, step)
    ensures SoundEntries(d.Apply(s, step).0)
  {
    var s' := d.Apply(s, step).0;
    StepAdvances(d, s, step);
    forall k | k in s'.l2
      ensures SoundEntry(s', k)
    {
      EntrySound(d, s, step, k);
    }
    forall k, j | k in s'.l2 && j in s'.l2 && k != j
      ensures s'.l2[k].value.serial != s'.l2[j].value.serial
    {
      if step.SetL2? {
        assert SoundPending(s, step.task);
        assert k in s.l2 ==> SoundEntry(s, k);
        assert j in s.l2 ==> SoundEntry(s, j);
      }
    }
  }

  lemma EntrySound<V>(d: Deployment, s: Cluster<V>, step: Step<V>, k: string)
    requires Sound(d, s) && d.Enabled(s, step) && k in d.Apply(s, step).0.l2
    ensures SoundEntry(d.Apply(s, step).0, k)
  {
    assert k in s.l2 ==> SoundEntry(s, k);
    match step
    case SetL2(task) =>
      assert SoundPending(s, task);
      var key := s.pending[task].key;
      assert key in s.l2 ==> SoundEntry(s, key);
    case InvalidateL2(key) => assert key in s.l2 ==> SoundEntry(s, key);
    case _ =>
  }

  lemma PendingStays<V>(d: Deployment, s: Cluster<V>, step: Step<V>, t: nat)
    requires SoundQueue(s) && d.Enabled(s, step) && t in d.Apply(s, step).0.pending
    ensures SoundPending(d.Apply(s, step).0, t)
  {
    assert t in s.pending ==> SoundPending(s, t);
    if step.SetL2? && step.task in s.pending {
      assert s.pending[step.task].serial != s.pending[t].serial;
    }
  }

  lemma StepKeepsQueue<V>(d: Deployment, s: Cluster<V>, step: Step<V>)
    requires Sound(d, s) && d.Enabled(s, step)
    ensures SoundQueue(d.Apply(s, step).0)
  {
    var s' := d.Apply(s, step).0;
    forall t | t in s'.pending
      ensures SoundPending(s', t)
    {
      PendingStays(d, s, step, t);
    }
    assert forall t :: t in s.pending ==> SoundPending(s, t);
  }

  lemma {:induction false} RunSound<V>(r: Run<V>, n: nat)
    requires r.Valid() && n <= |r.steps|
    ensures Sound(r.d, r.states[n])
  {
    if n > 0 {
      RunSound(r, n - 1);
      assert r.Stepped(n - 1);
      StepKeepsL1s(r.d, r.states[n - 1], r.steps[n - 1]);
      StepKeepsFetches(r.d, r.states[n - 1], r.steps[n - 1]);
      StepKeepsEntries(r.d, r.states[n - 1], r.steps[n - 1]);
      StepKeepsQueue(r.d, r.states[n - 1], r.steps[n - 1]);
    }
  }

  /** A write returned by a get is either still within its own period, or Redis held it not longer ago
      than the read delay plus one default period. */
  lemma ServedBound<V>(r: Run<V>, n: nat)
    requires r.Valid() && n < |r.steps| && r.served[n].Some?
    ensures
      var s, w := r.states[n], r.served[n].value;
      || s.clock <= w.setAt + w.ttl as real
      || (w.serial in s.until && s.clock <= s.until[w.serial] + r.d.delay + r.d.Slack())
  {
    RunSound(r, n);
    assert r.Stepped(n);
    var s := r.states[n];
    match r.steps[n]
    case ReadL1(inst, key) =>
      var l1, at := L1Of(s, inst), IndexOf(KeysOf(L1Of(s, inst)), key);
      assert SoundL1(r.d, s, l1) && SoundItem(r.d, s, l1[at.value]);
      assert KeysOf(l1)[at.value] == key;
    case BackFill(task) => assert SoundFetch(s, s.fetches[task]);
  }

  lemma {:induction false} UntilOnlyShrinks<V>(r: Run<V>, m: nat, n: nat, serial: nat)
    requires r.Valid() && m <= n <= |r.steps| && serial in r.states[m].until
    ensures serial in r.states[n].until && r.states[n].until[serial] <= r.states[m].until[serial]
    ensures r.states[m].clock <= r.states[n].clock
    decreases n
  {
    if m < n {
      UntilOnlyShrinks(r, m, n - 1, serial);
      RunSound(r, n - 1);
      assert r.Stepped(n - 1);
      StepAdvances(r.d, r.states[n - 1], r.steps[n - 1]);
      assert r.states[n].until[serial] <= r.states[n - 1].until[serial];
    }
  }

  /** Step m overwrites or deletes the value under a key in Redis. */
  ghost predicate Replaces<V>(s: Cluster<V>, step: Step<V>, key: string) {
    || (step.InvalidateL2? && step.key == key)
    || (step.SetL2? && step.task in s.pending && s.pending[step.task].key == key)
  }

  /** Main result. Once a value is overwritten or deleted in Redis at T, no instance serves it later than
      T + D, where D is the longer of its own period and the read delay plus one default period. */
  lemma StaleNoLongerThan<V>(r: Run<V>, m: nat, n: nat, key: string)
    requires r.Valid() && m < n < |r.steps| && key in r.states[m].l2 && Replaces(r.states[m], r.steps[m], key)
    requires r.served[n].Some?
    requires r.served[n].value == r.states[m].l2[key].value
    ensures
      var w, t := r.served[n].value, r.states[m].clock;
      || r.states[n].clock <= t + w.ttl as real
      || r.states[n].clock <= t + r.d.delay + r.d.Slack()
  {
    var w := r.served[n].value;
    RunSound(r, m);
    assert SoundEntry(r.states[m], key);
    assert r.Stepped(m);
    assert w.serial in r.states[m + 1].until && r.states[m + 1].until[w.serial] <= r.states[m].clock by {
      ReplacedIsOver(r.d, r.states[m], r.steps[m], key);
    }
    UntilOnlyShrinks(r, m + 1, n, w.serial);
    ServedBound(r, n);
  }

  lemma ReplacedIsOver<V>(d: Deployment, s: Cluster<V>, step: Step<V>, key: string)
    requires Sound(d, s) && d.Enabled(s, step) && key in s.l2 && Replaces(s, step, key)
    ensures
      var serial, s' := s.l2[key].value.serial, d.Apply(s, step).0;
      serial in s'.until && s'.until[serial] <= s.clock
  {
    assert SoundEntry(s, key);
    if step.SetL2? {
      assert SoundPending(s, step.task);
    }
  }

  // ----- what stays, and what an instance's own invalidation does -----

  ghost predicate Stored<V>(s: Cluster<V>, key: string, serial: nat) {
    key in s.l2 && s.l2[key].value.serial == serial
  }

  /** A write whose time in Redis is not over is there. */
  ghost predicate KeptSoFar<V>(s: Cluster<V>, serial: nat) {
    serial in s.until && s.clock < s.until[serial] ==> exists key :: Stored(s, key, serial)
  }

  lemma StepKeepsStored<V>(d: Deployment, s: Cluster<V>, step: Step<V>, serial: nat)
    requires d.Enabled(s, step) && KeptSoFar(s, serial)
    ensures KeptSoFar(d.Apply(s, step).0, serial)
  {
    var s' := d.Apply(s, step).0;
    if serial in s'.until && s'.clock < s'.until[serial] {
      if step.SetL2? && s.pending[step.task].serial == serial {
        assert Stored(s', s.pending[step.task].key, serial);
      } else {
        var key :| Stored(s, key, serial);
        assert Stored(s', key, serial);
      }
    }
  }

  lemma {:induction false} RunKeepsStored<V>(r: Run<V>, n: nat, serial: nat)
    requires r.Valid() && n <= |r.steps|
    ensures KeptSoFar(r.states[n], serial)
  {
    if n > 0 {
      RunKeepsStored(r, n - 1, serial);
      assert r.Stepped(n - 1);
      StepKeepsStored(r.d, r.states[n - 1], r.steps[n - 1], serial);
    }
  }

  ghost predicate Readable<V>(s: Cluster<V>, key: string, serial: nat) {
    var found := Lookup(s.l2, key, s.clock);
    found.Some? && found.value.serial == serial && found.value.key == key
  }

  /** The times in `until` are exact: before its own a write can be read from Redis, whatever has been
      overwritten or deleted under other keys. */
  lemma ReadableUntilThen<V>(r: Run<V>, n: nat, serial: nat)
    requires r.Valid() && n <= |r.steps| && serial in r.states[n].until
    requires r.states[n].clock < r.states[n].until[serial]
    ensures exists key :: Readable(r.states[n], key, serial)
  {
    RunKeepsStored(r, n, serial);
    RunSound(r, n);
    var key :| Stored(r.states[n], key, serial);
    assert SoundEntry(r.states[n], key);
    assert Readable(r.states[n], key, serial);
  }

  /** The step puts a value for the key into this instance's L1. */
  ghost predicate Fills<V>(s: Cluster<V>, step: Step<V>, inst: nat, key: string) {
    || (step.SetL1? && step.inst == inst && step.key == key)
    || (step.BackFill? && step.task in s.fetches && s.fetches[step.task].inst == inst &&
        s.fetches[step.task].write.key == key)
  }

  ghost predicate NothingUnder<V>(l1: seq<Item<V>>, key: string) {
    Distinct(KeysOf(l1)) && forall x :: x in l1 ==> x.key != key
  }

  /** L1 after a step has each key once, and nothing under the given key if there was nothing before. */
  ghost predicate Apart<V>(l1: seq<Item<V>>, l1': seq<Item<V>>, key: string) {
    Distinct(KeysOf(l1')) && (NothingUnder(l1, key) ==> NothingUnder(l1', key))
  }

  lemma PutApart<V>(l1: seq<Item<V>>, max: int, item: Item<V>, key: string)
    requires Distinct(KeysOf(l1))
    ensures Distinct(KeysOf(Put(l1, max, item))) && (item.key != key ==> Apart(l1, Put(l1, max, item), key))
  {
    PutKeys(l1, max, item);
  }

  lemma ReadApart<V>(d: Deployment, s: Cluster<V>, inst: nat, k: string, key: string)
    requires Distinct(KeysOf(L1Of(s, inst)))
    ensures Apart(L1Of(s, inst), L1Of(d.Apply(s, ReadL1(inst, k)).0, inst), key)
  {
    var l1 := L1Of(s, inst);
    if k in KeysOf(l1) {
      var at := IndexOf(KeysOf(l1), k).value;
      MovedItems(l1, at, l1[at].(lastAccessed := s.clock));
      KeysDistinct(l1, k);
      assert l1[at] in l1;
    }
  }

  lemma BackFillApart<V>(d: Deployment, s: Cluster<V>, task: nat, i: nat, key: string)
    requires d.Enabled(s, BackFill(task)) && Distinct(KeysOf(L1Of(s, i)))
    ensures Distinct(KeysOf(L1Of(d.Apply(s, BackFill(task)).0, i)))
    ensures !Fills(s, BackFill(task), i, key) ==> Apart(L1Of(s, i), L1Of(d.Apply(s, BackFill(task)).0, i), key)
  {
    BackFillPuts(d, s, task, i);
    PutApart(L1Of(s, i), d.cfg.max, CopyOf(d, s, s.fetches[task]), key);
  }

  lemma BackFillPuts<V>(d: Deployment, s: Cluster<V>, task: nat, i: nat)
    requires d.Enabled(s, BackFill(task))
    ensures L1Of(d.Apply(s, BackFill(task)).0, i)
         == if s.fetches[task].inst == i then Put(L1Of(s, i), d.cfg.max, CopyOf(d, s, s.fetches[task]))
            else L1Of(s, i)
  {
  }

  lemma SetApart<V>(d: Deployment, s: Cluster<V>, step: Step<V>, i: nat, key: string)
    requires d.Enabled(s, step) && Distinct(KeysOf(L1Of(s, i))) && step.SetL1?
    ensures Distinct(KeysOf(L1Of(d.Apply(s, step).0, i)))
    ensures !Fills(s, step, i, key) ==> Apart(L1Of(s, i), L1Of(d.Apply(s, step).0, i), key)
  {
    var w := Write(s.serials, step.key, step.value, s.clock, step.ttl);
    var item := Item(step.key, Cached(w, None), Some(s.clock + step.ttl as real), s.clock);
    PutApart(L1Of(s, i), d.cfg.max, item, key);
  }

  lemma StepKeepsApart<V>(d: Deployment, s: Cluster<V>, step: Step<V>, i: nat, key: string)
    requires d.Enabled(s, step) && Distinct(KeysOf(L1Of(s, i)))
    ensures Distinct(KeysOf(L1Of(d.Apply(s, step).0, i)))
    ensures !Fills(s, step, i, key) ==> Apart(L1Of(s, i), L1Of(d.Apply(s, step).0, i), key)
  {
    match step
    case ReadL1(inst, k) => if inst == i { ReadApart(d, s, inst, k, key); }
    case BackFill(task) => BackFillApart(d, s, task, i, key);
    case SetL1(_, _, _, _, _) => SetApart(d, s, step, i, key);
    case InvalidateL1(_, k) => KeysDistinct(L1Of(s, i), k);
    case _ =>
  }

  lemma {:induction false} RunKeepsApart<V>(r: Run<V>, n: nat, i: nat)
    requires r.Valid() && n <= |r.steps|
    ensures Distinct(KeysOf(L1Of(r.states[n], i)))
  {
    if n > 0 {
      RunKeepsApart(r, n - 1, i);
      assert r.Stepped(n - 1);
      StepKeepsApart(r.d, r.states[n - 1], r.steps[n - 1], i, "");
    }
  }

  /** The step empties this instance's L1 of the key. */
  predicate Empties<V>(step: Step<V>, inst: nat, key: string) {
    (step.InvalidateL1? && step.inst == inst && step.key == key) || (step.ClearL1? && step.inst == inst)
  }

  lemma {:induction false} StaysEmptied<V>(r: Run<V>, i: nat, n: nat, inst: nat, key: string)
    requires r.Valid() && i < n <= |r.steps| && Empties(r.steps[i], inst, key)
    requires forall j :: i < j < n ==> !Fills(r.states[j], r.steps[j], inst, key)
    ensures NothingUnder(L1Of(r.states[n], inst), key)
  {
    RunKeepsApart(r, n - 1, inst);
    assert r.Stepped(n - 1);
    if i == n - 1 {
      KeysDistinct(L1Of(r.states[i], inst), key);
    } else {
      StaysEmptied(r, i, n - 1, inst, key);
      StepKeepsApart(r.d, r.states[n - 1], r.steps[n - 1], inst, key);
    }
  }

  /** After an instance's own invalidation its L1 has nothing for the key until it sets the key or copies it from
      Redis again, whatever other instances do. */
  lemma MissAfterOwnInvalidation<V>(r: Run<V>, i: nat, n: nat, inst: nat, key: string)
    requires r.Valid() && i < n < |r.steps| && Empties(r.steps[i], inst, key) && r.steps[n] == ReadL1(inst, key)
    requires forall j :: i < j < n ==> !Fills(r.states[j], r.steps[j], inst, key)
    ensures r.served[n] == None
  {
    StaysEmptied(r, i, n, inst, key);
    assert r.Stepped(n);
    var l1 := L1Of(r.states[n], inst);
    assert forall j :: 0 <= j < |l1| ==> KeysOf(l1)[j] == l1[j].key && l1[j] in l1;
  }

  // ----- the bound is reached -----

  lemma Extend<V>(r: Run<V>, step: Step<V>) returns (r': Run<V>)
    requires r.Valid() && r.d.Enabled(r.states[|r.steps|], step)
    ensures r'.Valid() && r'.d == r.d && r'.steps == r.steps + [step]
    ensures
      var (s, v) := r.d.Apply(r.states[|r.steps|], step);
      r'.states == r.states + [s] && r'.served == r.served + [v]
  {
    var (s, v) := r.d.Apply(r.states[|r.steps|], step);
    r' := Run(r.d, r.states + [s], r.steps + [step], r.served + [v]);
    forall i: nat | i < |r'.steps|
      ensures r'.Stepped(i)
    {
      if i < |r.steps| {
        assert r.Stepped(i);
      }
    }
  }

  lemma ReadWhileStored<V>(d: Deployment, value: V) returns (r: Run<V>)
    requires d.cfg.max >= 1 && d.delay >= 0.0
    ensures r.Valid() && r.d == d && |r.steps| == 3
    ensures
      var w, s := Write(0, "k", value, 0.0, 1), r.states[3];
      && s.clock == 0.0 && s.l1s.Keys == {0} && s.l2 == map["k" := Timed(w, Some(1.0))]
      && s.fetches == map[7 := Fetch(1, w, 0.0)] && s.until == map[0 := 1.0]
  {
    r := Run(d, [Cluster(0.0, map[], map[], map[], map[], 0, map[])], [], []);
    r := Extend(r, SetL1(0, 0, "k", value, 1));
    r := Extend(r, SetL2(0));
    r := Extend(r, ReadL2(7, 1, "k"));
  }

  /** Instance 1 reads "k" from Redis just before instance 0 invalidates it everywhere at time 0. */
  lemma ReadBeforeInvalidation<V>(d: Deployment, value: V) returns (r: Run<V>)
    requires d.cfg.max >= 1 && d.delay >= 0.0
    ensures r.Valid() && r.d == d && |r.steps| == 5 && r.steps[4] == InvalidateL2("k")
    ensures
      var w := Write(0, "k", value, 0.0, 1);
      && r.states[4].clock == 0.0 && "k" in r.states[4].l2 && r.states[4].l2["k"].value == w
      && r.states[5].clock == 0.0 && 1 !in r.states[5].l1s && r.states[5].fetches == map[7 := Fetch(1, w, 0.0)]
  {
    r := ReadWhileStored(d, value);
    r := Extend(r, InvalidateL1(0, "k"));
    r := Extend(r, InvalidateL2("k"));
  }

  /** With any read delay and default period some interleaving serves a value that long after it was
      deleted, whose own period was one second. The read delay is not limited by the code, so neither is
      the staleness: a get does not read Redis and fill L1 in one step. */
  lemma StalenessReached<V>(d: Deployment, value: V) returns (r: Run<V>)
    requires d.cfg.max >= 1 && d.cfg.defaultTtl >= 0 && d.delay >= 0.0
    ensures r.Valid() && r.d == d && |r.steps| == 9
    ensures "k" in r.states[4].l2 && Replaces(r.states[4], r.steps[4], "k") && r.states[4].clock == 0.0
    ensures r.served[8] == Some(r.states[4].l2["k"].value) && r.states[8].clock == d.delay + d.Slack()
    ensures r.served[8].value.ttl == 1
  {
    r := ReadBeforeInvalidation(d, value);
    var before := r;
    r := Extend(r, Tick(d.delay));
    r := Extend(r, BackFill(7));
    r := Extend(r, Tick(d.delay + d.Slack()));
    var w := Write(0, "k", value, 0.0, 1);
    var item := Item("k", Cached(w, Some(0.0)), Some(d.delay + d.cfg.defaultTtl as real), d.delay);
    assert KeysOf<Cached<V>>([]) == [] && KeysOf([item]) == ["k"] && IndexOf(["k"], "k") == Some(0);
    assert L1Of(r.states[8], 1) == [item];
    r := Extend(r, ReadL1(1, "k"));
    assert r.states[..6] == before.states && r.steps[..5] == before.steps;
    assert r.states[4] == before.states[4] && r.steps[4] == before.steps[4];
  }

  /** The get that fills L1 returns the value itself; with a negative default period it is the last to. */
  lemma StalenessOnBackFill<V>(d: Deployment, value: V) returns (r: Run<V>)
    requires d.cfg.max >= 1 && d.delay >= 0.0
    ensures r.Valid() && r.d == d && |r.steps| == 7
    ensures "k" in r.states[4].l2 && Replaces(r.states[4], r.steps[4], "k") && r.states[4].clock == 0.0
    ensures r.served[6] == Some(r.states[4].l2["k"].value) && r.states[6].clock == d.delay && r.served[6].value.ttl == 1
  {
    r := ReadBeforeInvalidation(d, value);
    var before := r;
    r := Extend(r, Tick(d.delay));
    r := Extend(r, BackFill(7));
    assert r.states[..6] == before.states && r.steps[..5] == before.steps;
    assert r.states[4] == before.states[4] && r.steps[4] == before.steps[4];
  }

  // ----- when the periods alone are enough -----

  ghost predicate ReplacedThenServed<V>(r: Run<V>, d: Deployment, m: nat, n: nat, key: string) {
    && r.Valid() && r.d == d && m < n < |r.steps|
    && key in r.states[m].l2 && Replaces(r.states[m], r.steps[m], key)
    && r.served[n] == Some(r.states[m].l2[key].value)
  }

  /** No run serves a replaced value longer than its own period or one default period. */
  ghost predicate PeriodsSuffice<V(!new)>(d: Deployment) {
    forall r: Run<V>, m, n, key :: ReplacedThenServed(r, d, m, n, key) ==> WithinPeriods(r, d, m, n, key)
  }

  ghost predicate WithinPeriods<V>(r: Run<V>, d: Deployment, m: nat, n: nat, key: string)
    requires ReplacedThenServed(r, d, m, n, key)
  {
    var late := r.states[n].clock - r.states[m].clock;
    late <= r.served[n].value.ttl as real || late <= d.Slack()
  }

  /** What Redis holds was stored for a second at least. */
  lemma {:induction false} EntriesHavePeriod<V>(r: Run<V>, n: nat, key: string)
    requires r.Valid() && n <= |r.steps| && key in r.states[n].l2
    ensures r.states[n].l2[key].value.ttl >= 1
  {
    assert r.Stepped(n - 1);
    if key in r.states[n - 1].l2 {
      EntriesHavePeriod(r, n - 1, key);
    }
  }

  lemma OnceReplacedWithinPeriods<V>(r: Run<V>, d: Deployment, m: nat, n: nat, key: string)
    requires ReplacedThenServed(r, d, m, n, key)
    requires d.delay + d.Slack() <= if d.Slack() < 1.0 then 1.0 else d.Slack()
    ensures WithinPeriods(r, d, m, n, key)
  {
    EntriesHavePeriod(r, m, key);
    StaleNoLongerThan(r, m, n, key);
  }

  /** Otherwise some run serves a replaced value for longer. */
  lemma BeyondPeriods<V>(d: Deployment, value: V) returns (r: Run<V>, m: nat, n: nat, key: string)
    requires d.cfg.max >= 1 && d.delay >= 0.0
    requires d.delay + d.Slack() > if d.Slack() < 1.0 then 1.0 else d.Slack()
    ensures ReplacedThenServed(r, d, m, n, key) && !WithinPeriods(r, d, m, n, key)
  {
    m, key := 4, "k";
    if d.cfg.defaultTtl >= 0 {
      r := StalenessReached(d, value);
      n := 8;
    } else {
      r := StalenessOnBackFill(d, value);
      n := 6;
    }
  }

  /** The exact condition: the read delay must vanish, unless the default period is shorter than a
      second, and then delay and default period together must not exceed a second. */
  lemma PeriodsSufficeIff<V(!new)>(d: Deployment, value: V)
    requires d.cfg.max >= 1 && d.delay >= 0.0
    ensures PeriodsSuffice<V>(d) <==> d.delay + d.Slack() <= if d.Slack() < 1.0 then 1.0 else d.Slack()
  {
    if d.delay + d.Slack() <= if d.Slack() < 1.0 then 1.0 else d.Slack() {
      forall r: Run<V>, m, n, key | ReplacedThenServed(r, d, m, n, key)
        ensures WithinPeriods(r, d, m, n, key)
      {
        OnceReplacedWithinPeriods(r, d, m, n, key);
      }
    } else {
      var r, m, n, key := BeyondPeriods(d, value);
    }
  }
}
