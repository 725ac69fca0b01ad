/** The SCAN/DEL loop both caches use to drop every key matching a pattern. */
module Scan {
  import opened Redis
  import opened Wildcard

  /** One SCAN reply, and when and how the DEL of its keys then ends. */
  datatype ScanReply = ScanReply(cursor: nat, keys: seq<string>, at: real, del: Reply) {
    /** DEL is only called for a batch that is not empty. */
    predicate Failed() { keys != [] && del.Raised() }
  }

  ghost predicate Selected<V>(keys: map<string, Timed<V>>, pattern: string, now: real, k: string) {
    k in keys && keys[k].LiveAt(now) && Matches(GLOB, pattern, k)
  }

  /** The live keys matching a pattern. */
  ghost function Selection<V>(keys: map<string, Timed<V>>, pattern: string, now: real): set<string> {
    set k | k in keys && Selected(keys, pattern, now, k)
  }

  function Returned(replies: seq<ScanReply>): set<string> {
    set i, k | 0 <= i < |replies| && k in replies[i].keys :: k
  }

  /** The keys whose DEL was carried out. */
  function Removed(replies: seq<ScanReply>): set<string> {
    set i, k | 0 <= i < |replies| && replies[i].del.Applied() && k in replies[i].keys :: k
  }

  /** The iteration came to its end: no SCAN and no DEL raised. */
  predicate Finished(replies: seq<ScanReply>) {
    replies != [] && replies[|replies| - 1].cursor == 0 && !replies[|replies| - 1].Failed()
  }

  /** What Redis guarantees of the replies with nobody else writing, given that the caller deletes each
      batch. Only the last has cursor 0, and a DEL that raises is the last call. If there is neither at
      the end, the next SCAN raised. Only matching keys of the collection are returned; if the iteration
      finishes, a key that stays in the collection from start to end is returned at least once. A key
      may be returned several times and a batch may be empty. */
  ghost predicate ScanContract<V>(keys: map<string, Timed<V>>, pattern: string, start: real, replies: seq<ScanReply>) {
    && (forall i :: 0 <= i < |replies| && (replies[i].cursor == 0 || replies[i].Failed()) ==> i == |replies| - 1)
    && (forall i :: 0 <= i < |replies| ==> start <= replies[i].at)
    && (forall i, j :: 0 <= i < j < |replies| ==> replies[i].at <= replies[j].at)
    && (forall k :: k in Returned(replies) ==> Selected(keys, pattern, start, k))
    && (Finished(replies) ==> forall k :: k in keys && StaysThroughout(keys, pattern, replies, k) ==>
        k in Returned(replies))
  }

  /** Live to the end and never deleted by the loop. */
  ghost predicate StaysThroughout<V>(keys: map<string, Timed<V>>, pattern: string, replies: seq<ScanReply>, k: string)
    requires replies != []
  {
    Selected(keys, pattern, replies[|replies| - 1].at, k) && forall i :: 0 <= i < |replies| ==> k !in replies[i].keys
  }

  /** The DEL of a batch, if it is not empty: it counts the keys that were there. */
  method Delete<V>(redis: KeySpace<V>, batch: ScanReply) returns (count: nat)
    modifies redis
    ensures redis.keys == AfterDel(old(redis.keys), batch) && count == |LiveIn(old(redis.keys), batch)|
  {
    count := 0;
    if batch.keys != [] {
      count := |LiveIn(redis.keys, batch)|;
      redis.keys := AfterDel(redis.keys, batch);
    }
  }

  function AfterDel<V>(keys: map<string, Timed<V>>, batch: ScanReply): map<string, Timed<V>> {
    if batch.del.Applied() then keys - set k | k in batch.keys else keys
  }

  /** Deletes every matching key. The count is that of the matching keys live at the start, less
      those that expired before the loop came to them. A call that raises ends the loop with part of
      the keys deleted and no count. */
  method DeleteMatching<V>(redis: KeySpace<V>, pattern: string, ghost start: real, replies: seq<ScanReply>)
    returns (deleted: Option<nat>)
    requires ScanContract(redis.keys, pattern, start, replies)
    modifies redis
    ensures Swept(old(redis.keys), redis.keys, pattern, start, replies, deleted)
  {
    ghost var before := redis.keys;
    ghost var gone: set<string> := {};
    var count, i := 0, 0;
    Beginning(before, replies);
    while i < |replies|
      invariant i <= |replies| && Progress(before, redis.keys, replies, gone, count, i)
      invariant i > 0 ==> replies[i - 1].cursor != 0
    {
      ghost var left := redis.keys;
      var n := Delete(redis, replies[i]);
      if replies[i].Failed() {
        BreaksOff(before, left, pattern, start, replies, gone, count, i);
        return None;
      }
      NextBatch(before, left, pattern, start, replies, gone, count, i);
      gone, count := gone + LiveIn(left, replies[i]), count + n;
      if replies[i].cursor == 0 {
        ComesToEnd(before, redis.keys, pattern, start, replies, gone, count, i);
        return Some(count);
      }
      i := i + 1;
    }
    RunsOut(before, redis.keys, pattern, start, replies, gone, count, i);
    return None;
  }

  /** What the loop leaves and reports. */
  ghost predicate Swept<V>(before: map<string, Timed<V>>, after: map<string, Timed<V>>, pattern: string, start: real,
                           replies: seq<ScanReply>, deleted: Option<nat>)
  {
    && (deleted.Some? <==> Finished(replies))
    && (deleted.Some? <==> replies != [] && replies[|replies| - 1].cursor == 0 && forall i ::
          0 <= i < |replies| ==> replies[i].keys == [] || replies[i].del == Done)
    && after == before - Removed(replies)
    && OthersKept(before, after, pattern)
    && (deleted.Some? ==> AllDeleted(before, after, pattern, start, replies, deleted.value))
  }

  ghost predicate OthersKept<V>(before: map<string, Timed<V>>, after: map<string, Timed<V>>, pattern: string) {
    forall k :: k in before && !Matches(GLOB, pattern, k) ==> k in after && after[k] == before[k]
  }

  /** The first i batches are deleted and counted. */
  ghost predicate Progress<V>(before: map<string, Timed<V>>, keys: map<string, Timed<V>>, replies: seq<ScanReply>,
      gone: set<string>, count: nat, i: nat)
    requires i <= |replies|
  {
    && keys == before - Returned(replies[..i])
    && count == |gone| && Accounted(before, replies, gone, i)
    && (forall j :: 0 <= j < i ==> !replies[j].Failed())
  }

  lemma OnlyMatchingRemoved<V>(keys: map<string, Timed<V>>, pattern: string, start: real, replies: seq<ScanReply>)
    requires ScanContract(keys, pattern, start, replies)
    ensures OthersKept(keys, keys - Removed(replies), pattern)
  {
    forall k | k in Removed(replies)
      ensures Matches(GLOB, pattern, k)
    {
      assert k in Returned(replies);
    }
  }

  lemma Beginning<V>(keys: map<string, Timed<V>>, replies: seq<ScanReply>)
    ensures Progress(keys, keys, replies, {}, 0, 0)
  {
    assert Returned(replies[..0]) == {};
  }

  lemma BreaksOff<V>(before: map<string, Timed<V>>, left: map<string, Timed<V>>, pattern: string, start: real,
      replies: seq<ScanReply>, gone: set<string>, count: nat, i: nat)
    requires i < |replies| && replies[i].Failed() && ScanContract(before, pattern, start, replies)
    requires Progress(before, left, replies, gone, count, i)
    ensures Swept(before, AfterDel(left, replies[i]), pattern, start, replies, None)
  {
    OnlyMatchingRemoved(before, pattern, start, replies);
    RemovedSoFar(replies, i);
  }

  lemma RunsOut<V>(before: map<string, Timed<V>>, keys: map<string, Timed<V>>, pattern: string, start: real,
      replies: seq<ScanReply>, gone: set<string>, count: nat, i: nat)
    requires i == |replies| && ScanContract(before, pattern, start, replies) &&
        Progress(before, keys, replies, gone, count, i)
    requires i > 0 ==> replies[i - 1].cursor != 0
    ensures Swept(before, keys, pattern, start, replies, None)
  {
    OnlyMatchingRemoved(before, pattern, start, replies);
    RemovedUnlessFailed(replies);
    assert replies[..i] == replies;
  }

  lemma NextBatch<V>(before: map<string, Timed<V>>, left: map<string, Timed<V>>, pattern: string, start: real,
      replies: seq<ScanReply>, gone: set<string>, count: nat, i: nat)
    requires i < |replies| && !replies[i].Failed() && ScanContract(before, pattern, start, replies)
    requires Progress(before, left, replies, gone, count, i)
    ensures
      var hit, keys := LiveIn(left, replies[i]), AfterDel(left, replies[i]);
      && Progress(before, keys, replies, gone + hit, count + |hit|, i + 1)
  {
    BatchDeleted(before, pattern, start, replies, gone, i);
  }

  lemma ComesToEnd<V>(before: map<string, Timed<V>>, keys: map<string, Timed<V>>, pattern: string, start: real,
      replies: seq<ScanReply>, gone: set<string>, count: nat, i: nat)
    requires i < |replies| && replies[i].cursor == 0 && !replies[i].Failed() &&
        ScanContract(before, pattern, start, replies)
    requires Progress(before, keys, replies, gone, count, i + 1)
    ensures Swept(before, keys, pattern, start, replies, Some(count))
  {
    OnlyMatchingRemoved(before, pattern, start, replies);
    assert replies[..i + 1] == replies;
    RemovedUnlessFailed(replies);
    NothingSelectedLeft(before, pattern, start, replies);
    CountDeleted(before, pattern, start, replies, gone);
  }

  /** No matching key is left, and the count is that of the matching keys at the start. */
  ghost predicate AllDeleted<V>(before: map<string, Timed<V>>, after: map<string, Timed<V>>, pattern: string,
      start: real, replies: seq<ScanReply>, deleted: nat)
    requires replies != []
  {
    var end := replies[|replies| - 1].at;
    && Selection(after, pattern, end) == {}
    && deleted <= |Selection(before, pattern, start)|
    && ((forall k :: k in Selection(before, pattern, start) ==> before[k].LiveAt(end)) ==>
        deleted == |Selection(before, pattern, start)|)
  }

  lemma RemovedUnlessFailed(replies: seq<ScanReply>)
    requires forall i :: 0 <= i < |replies| ==> !replies[i].Failed()
    ensures Removed(replies) == Returned(replies)
  {
    forall k | k in Returned(replies)
      ensures k in Removed(replies)
    {
      var i :| 0 <= i < |replies| && k in replies[i].keys;
      assert replies[i].del.Applied();
    }
  }

  /** If only the last of these DELs failed, all but it were carried out. */
  lemma RemovedSoFar(replies: seq<ScanReply>, i: nat)
    requires i < |replies| && forall j :: 0 <= j < |replies| && replies[j].Failed() ==> j == |replies| - 1
    ensures i == |replies| - 1 ==>
      Removed(replies) == Returned(replies[..i]) + if replies[i].del.Applied() then set k | k in replies[i].keys else {}
  {
    if i == |replies| - 1 {
      var front := replies[..i];
      RemovedUnlessFailed(front);
      forall k | k in Removed(replies)
        ensures k in Removed(front) || (replies[i].del.Applied() && k in replies[i].keys)
      {
        var j :| 0 <= j < |replies| && replies[j].del.Applied() && k in replies[j].keys;
        assert j < i ==> front[j] == replies[j];
      }
      forall k | k in Removed(front)
        ensures k in Removed(replies)
      {
        var j :| 0 <= j < |front| && front[j].del.Applied() && k in front[j].keys;
        assert replies[j] == front[j];
      }
    }
  }

  /** The keys a DEL of this batch counts. */
  function LiveIn<V>(keys: map<string, Timed<V>>, batch: ScanReply): set<string> {
    set k | k in batch.keys && k in keys && keys[k].LiveAt(batch.at)
  }

  /** The keys deleted so far are those returned so far, except for some that expire. */
  ghost predicate Accounted<V>(keys: map<string, Timed<V>>, replies: seq<ScanReply>, gone: set<string>, i: nat)
    requires i <= |replies|
  {
    gone <= Returned(replies[..i]) && forall k :: k in Returned(replies[..i]) ==>
        k in gone || ExpiresBy(keys, replies, k)
  }

  lemma BatchDeleted<V>(keys: map<string, Timed<V>>, pattern: string, start: real, replies: seq<ScanReply>,
      gone: set<string>, i: nat)
    requires i < |replies| && ScanContract(keys, pattern, start, replies) && Accounted(keys, replies, gone, i)
    ensures
      var left := keys - Returned(replies[..i]);
      && Accounted(keys, replies, gone + LiveIn(left, replies[i]), i + 1)
      && gone !! LiveIn(left, replies[i])
      && left - (set k | k in replies[i].keys) == keys - Returned(replies[..i + 1])
      && (replies[i].keys == [] ==> Returned(replies[..i + 1]) == Returned(replies[..i]))
      && (i == |replies| - 1 ==> replies[..i + 1] == replies)
  {
    ReturnedSnoc(replies, i);
    var left := keys - Returned(replies[..i]);
    var hit := LiveIn(left, replies[i]);
    forall k | k in Returned(replies[..i + 1])
      ensures k in gone + hit || ExpiresBy(keys, replies, k)
    {
      assert Selected(keys, pattern, start, k);
      if k !in Returned(replies[..i]) && k !in hit {
        assert k in left && left[k] == keys[k];
        assert !keys[k].LiveAt(replies[i].at);
      }
    }
  }

  ghost predicate ExpiresBy<V>(keys: map<string, Timed<V>>, replies: seq<ScanReply>, k: string) {
    replies != [] && k in keys && !keys[k].LiveAt(replies[|replies| - 1].at)
  }

  lemma NothingSelectedLeft<V>(keys: map<string, Timed<V>>, pattern: string, start: real, replies: seq<ScanReply>)
    requires ScanContract(keys, pattern, start, replies) && Finished(replies)
    ensures Selection(keys - Returned(replies), pattern, replies[|replies| - 1].at) == {}
  {
    forall k | k in keys && Selected(keys, pattern, replies[|replies| - 1].at, k)
      ensures k in Returned(replies)
    {
      if !StaysThroughout(keys, pattern, replies, k) {
        var j :| 0 <= j < |replies| && k in replies[j].keys;
      }
    }
  }

  lemma CountDeleted<V>(keys: map<string, Timed<V>>, pattern: string, start: real, replies: seq<ScanReply>,
      gone: set<string>)
    requires ScanContract(keys, pattern, start, replies) && Finished(replies)
    requires gone <= Returned(replies)
    requires forall k :: k in Returned(replies) ==> k in gone || ExpiresBy(keys, replies, k)
    ensures |gone| <= |Selection(keys, pattern, start)|
    ensures (forall k :: k in Selection(keys, pattern, start) ==> keys[k].LiveAt(replies[|replies| - 1].at))
        ==> |gone| == |Selection(keys, pattern, start)|
  {
    var all := Selection(keys, pattern, start);
    assert gone <= all;
    SubsetSize(gone, all);
    if forall k :: k in all ==> keys[k].LiveAt(replies[|replies| - 1].at) {
      NothingSelectedLeft(keys, pattern, start, replies);
      forall k | k in all
        ensures k in gone
      {
        assert k in keys && Selected(keys, pattern, replies[|replies| - 1].at, k);
        assert k !in Selection(keys - Returned(replies), pattern, replies[|replies| - 1].at);
      }
      assert gone == all;
    }
  }

  lemma ReturnedSnoc(replies: seq<ScanReply>, i: nat)
    requires i < |replies|
    ensures Returned(replies[..i + 1]) == Returned(replies[..i]) + set k | k in replies[i].keys
    ensures Returned(replies[..i + 1]) <= Returned(replies)
  {
    var r := replies[..i + 1];
    assert r[i] == replies[i];
    forall k | k in Returned(r)
      ensures k in Returned(replies[..i]) || k in replies[i].keys
    {
      var j :| 0 <= j < |r| && k in r[j].keys;
      assert j < i ==> replies[..i][j] == r[j];
    }
    forall k | k in Returned(replies[..i])
      ensures k in Returned(r)
    {
      var j :| 0 <= j < i && k in replies[..i][j].keys;
      assert r[j] == replies[..i][j];
    }
  }
}
