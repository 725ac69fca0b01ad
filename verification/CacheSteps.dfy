/** The parts into which CacheCoherence splits the cache operations, run one right after the other, are the
    operations of a single cache manager. */
module CacheSteps {
  import opened CacheCoherence
  import opened Caching
  import opened Lru
  import opened Redis

  // ----- one instance's view of the cluster -----

  function ItemOf<V>(x: Item<Cached<V>>): Item<V> {
    Item(x.key, x.value.write.value, x.expiresAt, x.lastAccessed)
  }

  function ItemsOf<V>(l1: seq<Item<Cached<V>>>): seq<Item<V>> {
    seq(|l1|, i requires 0 <= i < |l1| => ItemOf(l1[i]))
  }

  function EntryOf<V>(t: Timed<Write<V>>): Timed<V> { Timed(t.value.value, t.expiresAt) }

  function EntriesOf<V>(l2: map<string, Timed<Write<V>>>): map<string, Timed<V>> {
    map k | k in l2 :: EntryOf(l2[k])
  }

  function ViewOf<V>(s: Cluster<V>, inst: nat): Tiers<V> {
    Tiers(ItemsOf(L1Of(s, inst)), EntriesOf(s.l2))
  }

  function ValueOf<V>(w: Option<Write<V>>): Option<V> {
    match w case None => None case Some(v) => Some(v.value)
  }

  lemma KeysSeen<V>(l1: seq<Item<Cached<V>>>)
    ensures KeysOf(ItemsOf(l1)) == KeysOf(l1)
  {
  }

  lemma DropSeen<V>(l1: seq<Item<Cached<V>>>, i: nat)
    requires i < |l1|
    ensures ItemsOf(Drop(l1, i)) == Drop(ItemsOf(l1), i)
  {
  }

  lemma WithoutSeen<V>(l1: seq<Item<Cached<V>>>, key: string)
    ensures ItemsOf(Without(l1, key)) == Without(ItemsOf(l1), key)
  {
    KeysSeen(l1);
    var at := IndexOf(KeysOf(l1), key);
    if at.Some? {
      DropSeen(l1, at.value);
    }
  }

  lemma PutSeen<V>(l1: seq<Item<Cached<V>>>, max: int, item: Item<Cached<V>>)
    ensures ItemsOf(Put(l1, max, item)) == Put(ItemsOf(l1), max, ItemOf(item))
  {
    WithoutSeen(l1, item.key);
    var moved := Without(l1, item.key) + [item];
    assert ItemsOf(moved) == ItemsOf(Without(l1, item.key)) + [ItemOf(item)];
    assert |moved| > 0 ==> ItemsOf(moved[1..]) == ItemsOf(moved)[1..];
  }

  // ----- get -----

  /** ReadL1, and when it returns nothing ReadL2 and BackFill if Redis has a value. */
  function GetAtOnce<V>(d: Deployment, s: Cluster<V>, inst: nat, key: string, task: nat): (Option<Write<V>>, Cluster<V>)
    requires task !in s.fetches && d.delay >= 0.0
  {
    var (s1, read) := d.Apply(s, ReadL1(inst, key));
    if read.Some? then (read, s1)
    else if Lookup(s1.l2, key, s1.clock).None? then (None, s1)
    else
      var (s3, found) := d.Apply(d.Apply(s1, ReadL2(task, inst, key)).0, BackFill(task));
      (found, s3)
  }

  lemma ReadSeen<V>(d: Deployment, s: Cluster<V>, inst: nat, key: string)
    ensures
      var l1, (s1, read) := ItemsOf(L1Of(s, inst)), d.Apply(s, ReadL1(inst, key));
      && s1.l2 == s.l2 && s1.clock == s.clock && s1.fetches == s.fetches
      && match IndexOf(KeysOf(l1), key)
         case None => read.None? && ItemsOf(L1Of(s1, inst)) == l1
         case Some(i) =>
           if l1[i].ExpiredAt(s.clock) then read.None? && ItemsOf(L1Of(s1, inst)) == Drop(l1, i)
           else && ValueOf(read) == Some(l1[i].value)
                && ItemsOf(L1Of(s1, inst)) == Drop(l1, i) + [l1[i].(lastAccessed := s.clock)]
  {
    var l1 := L1Of(s, inst);
    KeysSeen(l1);
    var at := IndexOf(KeysOf(l1), key);
    if at.Some? {
      DropSeen(l1, at.value);
    }
  }

  lemma FillSeen<V>(d: Deployment, s: Cluster<V>, inst: nat, key: string, task: nat)
    requires task !in s.fetches && d.delay >= 0.0 && Lookup(s.l2, key, s.clock).Some? && s.l2[key].value.key == key
    ensures
      var (s', found) := d.Apply(d.Apply(s, ReadL2(task, inst, key)).0, BackFill(task));
      (ValueOf(found), ViewOf(s', inst)) == FetchFrom(d.cfg, ViewOf(s, inst), key, s.clock, Done)
  {
    var w := s.l2[key].value;
    var item := Item(key, Cached(w, Some(s.clock)), Some(s.clock + d.cfg.defaultTtl as real), s.clock);
    PutSeen(L1Of(s, inst), d.cfg.max, item);
  }

  /** A get whose parts follow one another at once is a get of one manager, on what the instance sees. */
  lemma GetIsSteps<V>(d: Deployment, s: Cluster<V>, inst: nat, key: string, task: nat)
    requires task !in s.fetches && d.delay >= 0.0 && (key in s.l2 ==> s.l2[key].value.key == key)
    ensures
      var (read, s') := GetAtOnce(d, s, inst, key, task);
      (ValueOf(read), ViewOf(s', inst)) == GetFrom(d.cfg, ViewOf(s, inst), key, s.clock, Done)
  {
    var (s1, read) := d.Apply(s, ReadL1(inst, key));
    ReadSeen(d, s, inst, key);
    if read.None? && Lookup(s1.l2, key, s1.clock).Some? {
      FillSeen(d, s1, inst, key, task);
    }
  }

  // ----- set and invalidate -----

  /** SetL1, and SetL2 if the period is positive; Redis refuses it otherwise. */
  function SetAtOnce<V>(d: Deployment, s: Cluster<V>, inst: nat, key: string, value: V, ttl: int, task: nat): Cluster<V>
    requires task !in s.pending
  {
    var s1 := d.Apply(s, SetL1(task, inst, key, value, ttl)).0;
    d.Apply(s1, if ttl > 0 then SetL2(task) else GiveUp(task)).0
  }

  lemma SetIsSteps<V>(d: Deployment, s: Cluster<V>, inst: nat, key: string, value: V, ttl: int, task: nat)
    requires task !in s.pending
    ensures
      var s' := SetAtOnce(d, s, inst, key, value, ttl, task);
      ViewOf(s', inst) == SetIn(d.cfg, ViewOf(s, inst), key, value, Some(ttl), s.clock, Done) && s'.pending == s.pending
  {
    var w := Write(s.serials, key, value, s.clock, ttl);
    PutSeen(L1Of(s, inst), d.cfg.max, Item(key, Cached(w, None), Some(s.clock + ttl as real), s.clock));
  }

  lemma InvalidateIsSteps<V>(d: Deployment, s: Cluster<V>, inst: nat, key: string)
    ensures
      var s' := d.Apply(d.Apply(s, InvalidateL1(inst, key)).0, InvalidateL2(key)).0;
      ViewOf(s', inst) == InvalidateIn(ViewOf(s, inst), key, Done)
  {
    WithoutSeen(L1Of(s, inst), key);
  }

  /** No step of one instance touches the L1 of another. */
  lemma OthersUntouched<V>(d: Deployment, s: Cluster<V>, step: Step<V>, inst: nat)
    requires d.Enabled(s, step)
    requires (step.ReadL1? || step.SetL1? || step.InvalidateL1? || step.ClearL1?) ==> step.inst != inst
    requires step.BackFill? ==> s.fetches[step.task].inst != inst
    ensures L1Of(d.Apply(s, step).0, inst) == L1Of(s, inst)
  {
  }
}
