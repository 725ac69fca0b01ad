/** Sliding-window rate limiter over one Redis sorted set. */
module RateLimiting {
  import I = Interleaving
  import opened Redis

  type Windows = map<string, Timed<set<real>>>

  datatype FailMode = Open | Closed

  datatype Handle = Connected | Missing | Broken

  /** What the environment does to the Redis calls of one check. */
  datatype Faults = Faults(handle: Handle, prune: Reply, count: Reply, add: Reply, expire: Reply)

  const NoFaults := Faults(Connected, Done, Done, Done, Done)

  datatype Quota = Quota(limit: int, window: int, burst: Option<int>) {
    /** A burst of 0 is falsy and so means "no burst". */
    function Effective(): int {
      if burst.Some? && burst.value != 0 then (if burst.value < limit then burst.value else limit) else limit
    }

    function Cap(): nat { if Effective() < 0 then 0 else Effective() }
  }

  /** How a check ended: `Failed` is the RedisError handler. */
  datatype Outcome = Disabled | NoHandle | Full | Admitted(slack: int) | Failed

  datatype Verdict = Verdict(allowed: bool, remaining: int)

  function Answer(o: Outcome, mode: FailMode, limit: int): Verdict {
    match o
    case Disabled => Verdict(true, limit)
    case NoHandle => Verdict(true, limit)
    case Full => Verdict(false, 0)
    case Admitted(slack) => Verdict(true, slack)
    case Failed => if mode.Closed? then Verdict(false, 0) else Verdict(true, limit)
  }

  function Stale(scores: set<real>, upTo: real): set<real> {
    set t | t in scores && 0.0 <= t <= upTo
  }

  function Prune(ws: Windows, key: string, upTo: real, now: real): Windows {
    RemoveMembers(ws, key, Stale(Members(ws, key, now), upTo), now)
  }

  /** Everything after ZCARD: the comparison, ZADD and EXPIRE. */
  function Decide(ws: Windows, key: string, q: Quota, now: real, f: Faults): (Outcome, Windows) {
    var n := |Members(ws, key, now)|;
    if n >= q.Effective() then (Full, ws)
    else
      var added := if f.add.Applied() then AddMember(ws, key, now, now) else ws;
      if f.add.Raised() then (Failed, added)
      else
        var kept := if f.expire.Applied() then Expire(added, key, q.window * 2, now) else added;
        if f.expire.Raised() then (Failed, kept) else (Admitted(q.Effective() - n - 1), kept)
  }

  /** One check as a function of the key space before it. */
  function Check(enabled: bool, ws: Windows, key: string, q: Quota, now: real, f: Faults): (Outcome, Windows) {
    if !enabled then (Disabled, ws)
    else if f.handle.Missing? then (NoHandle, ws)
    else if f.handle.Broken? then (Failed, ws)
    else
      var pruned := if f.prune.Applied() then Prune(ws, key, now - q.window as real, now) else ws;
      if f.prune.Raised() || f.count.Raised() then (Failed, pruned)
      else Decide(pruned, key, q, now, f)
  }

  class RateLimiter {
    const enabled: bool
    const failMode: FailMode
    const redis: KeySpace<set<real>>

    constructor (enabled: bool, failMode: FailMode, redis: KeySpace<set<real>>)
      ensures this.enabled == enabled && this.failMode == failMode && this.redis == redis
    {
      this.enabled, this.failMode, this.redis := enabled, failMode, redis;
    }

    method CheckRateLimit(key: string, q: Quota, now: real, f: Faults) returns (v: Verdict, ghost o: Outcome)
      modifies redis
      ensures (o, redis.keys) == Check(enabled, old(redis.keys), "rate_limit:" + key, q, now, f)
      ensures v == Answer(o, failMode, q.limit)
      ensures !enabled || f.handle.Missing? ==> v == Verdict(true, q.limit) && redis.keys == old(redis.keys)
      ensures o.Failed? ==> v == if failMode.Closed? then Verdict(false, 0) else Verdict(true, q.limit)
      ensures enabled && !f.handle.Missing? ==>
          (f.handle.Broken? || f.prune.Raised() || f.count.Raised() ==> o.Failed?)
      ensures enabled && f.handle.Connected? && (f.add.Raised() || f.expire.Raised()) ==> !o.Admitted?
    {
      if !enabled {
        return Verdict(true, q.limit), Disabled;
      }
      if f.handle.Missing? {
        return Verdict(true, q.limit), NoHandle;
      }
      var onError := if failMode.Closed? then Verdict(false, 0) else Verdict(true, q.limit);
      if f.handle.Broken? {
        return onError, Failed;
      }
      var redisKey := "rate_limit:" + key;
      var windowStart := now - q.window as real;
      if f.prune.Applied() {
        redis.keys := Prune(redis.keys, redisKey, windowStart, now);
      }
      if f.prune.Raised() || f.count.Raised() {
        return onError, Failed;
      }
      var requestCount := |Members(redis.keys, redisKey, now)|;
      var effectiveLimit := q.Effective();
      if requestCount >= effectiveLimit {
        return Verdict(false, 0), Full;
      }
      if f.add.Applied() {
        redis.keys := AddMember(redis.keys, redisKey, now, now);
      }
      if f.add.Raised() {
        return onError, Failed;
      }
      if f.expire.Applied() {
        redis.keys := Expire(redis.keys, redisKey, q.window * 2, now);
      }
      if f.expire.Raised() {
        return onError, Failed;
      }
      var remaining := effectiveLimit - requestCount - 1;
      return Verdict(true, remaining), Admitted(remaining);
    }
  }

  // ----- serial runs of checks on one key -----

  /** Which outcomes to count: admissions, requests let through in a fail mode, and requests that a
      fail mode lets through without the limiter having decided. */
  datatype Tally = Admissions | Passed(mode: FailMode) | Bypassed(mode: FailMode) {
    predicate Counts(o: Outcome) {
      match this
      case Admissions => o.Admitted?
      case Passed(mode) => Answer(o, mode, 0).allowed
      case Bypassed(mode) => o.NoHandle? || o.Disabled? || (o.Failed? && mode.Open?)
    }
  }

  datatype Call = Call(now: real, faults: Faults)

  /** A run: the checks made on one key, how each ended, and the key space before and after each. */
  datatype Run = Run(key: string, quota: Quota, calls: seq<Call>, outcomes: seq<Outcome>, windows: seq<Windows>) {

    ghost predicate Valid() {
      && |outcomes| == |calls| && |windows| == |calls| + 1
      && (forall i :: 0 <= i < |calls| ==> 0.0 <= calls[i].now)
      && (forall i, j :: 0 <= i < j < |calls| ==> calls[i].now <= calls[j].now)
      && (forall i {:trigger Checked(i)} :: 0 <= i < |calls| ==> Checked(i))
    }

    ghost predicate Checked(i: nat)
      requires i < |calls| == |outcomes| && |windows| == |calls| + 1
    {
      (outcomes[i], windows[i + 1]) == Check(true, windows[i], key, quota, calls[i].now, calls[i].faults)
    }

    /** No two checks read the same clock value. */
    ghost predicate Ticking() {
      forall i, j {:trigger Apart(i, j)} :: 0 <= i < j < |calls| ==> Apart(i, j)
    }

    ghost predicate Apart(i: nat, j: nat)
      requires i < |calls| && j < |calls|
    {
      calls[i].now != calls[j].now
    }

    ghost predicate Faultless() {
      && windows != [] && key !in windows[0]
      && forall i :: 0 <= i < |calls| ==> calls[i].faults == NoFaults
    }

    ghost predicate AdmittedIn(i: nat, from: real, to: real)
      requires i < |calls| == |outcomes|
    {
      outcomes[i].Admitted? && from < calls[i].now <= to
    }

    /** The instants in (from, to] at which one of the first n checks admitted a request. */
    ghost function Instants(n: nat, from: real, to: real): set<real>
      requires n <= |calls| == |outcomes|
    {
      set i | 0 <= i < n && AdmittedIn(i, from, to) :: calls[i].now
    }

    /** How many of the first n checks happened in (from, to] and ended in one of the given ways. */
    ghost function Count(n: nat, which: Tally, from: real, to: real): nat
      requires n <= |calls| == |outcomes|
    {
      if n == 0 then 0
      else
        Count(n - 1, which, from, to) +
        if which.Counts(outcomes[n - 1]) && from < calls[n - 1].now <= to then 1 else 0
    }
  }

  /** An admission is remembered for as long as a window can still contain it. */
  ghost predicate Remembered(ws: Windows, key: string, a: real, window: int, now: real) {
    || a + window as real <= now
    || (key in ws && a in ws[key].value && (ws[key].expiresAt.None? || a + window as real <= ws[key].expiresAt.value))
  }

  lemma PruneRemembers(ws: Windows, key: string, window: int, now: real, a: real, before: real)
    requires 0.0 <= a <= before <= now && Remembered(ws, key, a, window, before)
    ensures Remembered(Prune(ws, key, now - window as real, now), key, a, window, now)
  {
  }

  lemma DecideRemembers(ws: Windows, key: string, q: Quota, now: real, f: Faults, a: real)
    requires a <= now && Remembered(ws, key, a, q.window, now)
    ensures Remembered(Decide(ws, key, q, now, f).1, key, a, q.window, now)
  {
    var added := if f.add.Applied() then AddMember(ws, key, now, now) else ws;
    assert Remembered(added, key, a, q.window, now);
    assert Remembered(Expire(added, key, q.window * 2, now), key, a, q.window, now);
  }

  lemma CheckRemembers(ws: Windows, key: string, q: Quota, now: real, f: Faults, a: real, before: real)
    requires 0.0 <= a <= before <= now && Remembered(ws, key, a, q.window, before)
    ensures Remembered(Check(true, ws, key, q, now, f).1, key, a, q.window, now)
  {
    var pruned := if f.prune.Applied() then Prune(ws, key, now - q.window as real, now) else ws;
    if f.handle.Connected? {
      assert Remembered(pruned, key, a, q.window, now) by {
        PruneRemembers(ws, key, q.window, now, a, before);
      }
      if !f.prune.Raised() && !f.count.Raised() {
        assert Check(true, ws, key, q, now, f) == Decide(pruned, key, q, now, f);
        DecideRemembers(pruned, key, q, now, f, a);
      } else {
        assert Check(true, ws, key, q, now, f) == (Failed, pruned);
      }
    } else {
      assert Check(true, ws, key, q, now, f).1 == ws;
    }
  }

  lemma AdmissionRemembered(ws: Windows, key: string, q: Quota, now: real, f: Faults)
    requires Check(true, ws, key, q, now, f).0.Admitted?
    ensures Remembered(Check(true, ws, key, q, now, f).1, key, now, q.window, now)
  {
  }

  /** A request is admitted only below the limit, and its slack is what is left of it. */
  lemma AdmittedBelowLimit(ws: Windows, key: string, q: Quota, now: real, f: Faults)
    requires Check(true, ws, key, q, now, f).0.Admitted?
    ensures
      var n := |Members(Prune(ws, key, now - q.window as real, now), key, now)|;
      n < q.Effective() && Check(true, ws, key, q, now, f).0.slack == q.Effective() - n - 1
  {
  }

  lemma {:induction false} AdmissionsRemembered(r: Run, i: nat, n: nat)
    requires r.Valid() && i < n <= |r.calls| && r.outcomes[i].Admitted?
    ensures Remembered(r.windows[n], r.key, r.calls[i].now, r.quota.window, r.calls[n - 1].now)
  {
    var c := r.calls[n - 1];
    assert r.Checked(n - 1);
    if i == n - 1 {
      AdmissionRemembered(r.windows[i], r.key, r.quota, c.now, c.faults);
    } else {
      AdmissionsRemembered(r, i, n - 1);
      CheckRemembers(r.windows[n - 1], r.key, r.quota, c.now, c.faults, r.calls[i].now, r.calls[n - 2].now);
    }
  }

  /** What is remembered and still inside the window is counted by the next check. */
  lemma RememberedIsCounted(ws: Windows, key: string, window: int, a: real, before: real, now: real)
    requires 0.0 <= a <= before <= now < a + window as real && Remembered(ws, key, a, window, before)
    ensures a in Members(Prune(ws, key, now - window as real, now), key, now)
  {
  }

  /** The set whose size the n-th check compares with the limit. */
  ghost function Counted(r: Run, n: nat): set<real>
    requires n < |r.calls| && |r.windows| == |r.calls| + 1
  {
    var now := r.calls[n].now;
    Members(Prune(r.windows[n], r.key, now - r.quota.window as real, now), r.key, now)
  }

  lemma AdmissionsCounted(r: Run, n: nat, from: real, to: real)
    requires r.Valid() && n < |r.calls| && r.calls[n].now - r.quota.window as real <= from
    ensures r.Instants(n, from, to) <= Counted(r, n)
  {
    forall i | 0 <= i < n && r.AdmittedIn(i, from, to)
      ensures r.calls[i].now in Counted(r, n)
    {
      AdmissionsRemembered(r, i, n);
      RememberedIsCounted(r.windows[n], r.key, r.quota.window, r.calls[i].now, r.calls[n - 1].now, r.calls[n].now);
    }
  }

  lemma AdmissionLeavesRoom(r: Run, n: nat, from: real, to: real)
    requires r.Valid() && n < |r.calls| && r.outcomes[n].Admitted?
    requires r.calls[n].now - r.quota.window as real <= from
    ensures |r.Instants(n, from, to)| < r.quota.Effective()
  {
    AdmissionsCounted(r, n, from, to);
    SubsetSize(r.Instants(n, from, to), Counted(r, n));
    assert r.Checked(n);
    AdmittedBelowLimit(r.windows[n], r.key, r.quota, r.calls[n].now, r.calls[n].faults);
  }

  lemma InstantsGrow(r: Run, n: nat, from: real, to: real)
    requires n < |r.calls| == |r.outcomes|
    ensures r.Instants(n + 1, from, to)
         == r.Instants(n, from, to) + if r.AdmittedIn(n, from, to) then {r.calls[n].now} else {}
  {
    var smaller, larger := r.Instants(n, from, to), r.Instants(n + 1, from, to);
    assert r.AdmittedIn(n, from, to) ==> r.calls[n].now in larger;
    forall t | t in larger
      ensures t in smaller || (r.AdmittedIn(n, from, to) && t == r.calls[n].now)
    {
      var i :| 0 <= i < n + 1 && r.AdmittedIn(i, from, to) && r.calls[i].now == t;
    }
  }

  lemma InstantsGrowByOne(r: Run, n: nat, from: real, to: real)
    requires n < |r.calls| == |r.outcomes|
    ensures |r.Instants(n + 1, from, to)| <= |r.Instants(n, from, to)| + if r.AdmittedIn(n, from, to) then 1 else 0
  {
    InstantsGrow(r, n, from, to);
  }

  /** Main bound. Whatever Redis call fails, and from whatever key space the run starts, every
      half-open window holds at most the effective limit of admission instants. */
  lemma {:induction false} AnyWindowBound(r: Run, n: nat, to: real)
    requires r.Valid() && n <= |r.calls|
    ensures |r.Instants(n, to - r.quota.window as real, to)| <= r.quota.Cap()
  {
    var from := to - r.quota.window as real;
    if n > 0 {
      AnyWindowBound(r, n - 1, to);
      InstantsGrowByOne(r, n - 1, from, to);
      if r.AdmittedIn(n - 1, from, to) {
        AdmissionLeavesRoom(r, n - 1, from, to);
      }
    }
  }

  /** The bound in plain terms: no window holds more admission instants than the limit, nor, with a burst
      other than 0, than the burst. */
  lemma LimitAndBurstBound(r: Run, n: nat, to: real)
    requires r.Valid() && n <= |r.calls|
    ensures
      var held := |r.Instants(n, to - r.quota.window as real, to)|;
      && (held == 0 || held <= r.quota.limit)
      && (r.quota.burst.Some? && r.quota.burst.value != 0 ==> held == 0 || held <= r.quota.burst.value)
  {
    AnyWindowBound(r, n, to);
  }

  // ----- counting requests rather than instants -----

  lemma NewInstant(r: Run, n: nat, from: real, to: real)
    requires r.Ticking() && n < |r.calls| == |r.outcomes|
    ensures r.calls[n].now !in r.Instants(n, from, to)
  {
    forall i | 0 <= i < n
      ensures r.calls[i].now != r.calls[n].now
    {
      assert r.Apart(i, n);
    }
  }

  lemma InstantsGrowSize(r: Run, n: nat, from: real, to: real)
    requires r.Ticking() && n < |r.calls| == |r.outcomes|
    ensures |r.Instants(n + 1, from, to)| == |r.Instants(n, from, to)| + if r.AdmittedIn(n, from, to) then 1 else 0
  {
    InstantsGrow(r, n, from, to);
    NewInstant(r, n, from, to);
  }

  /** On a strictly increasing clock every admitted request has an instant of its own. */
  lemma {:induction false} CountIsSize(r: Run, n: nat, from: real, to: real)
    requires r.Ticking() && n <= |r.calls| == |r.outcomes|
    ensures r.Count(n, Admissions, from, to) == |r.Instants(n, from, to)|
  {
    if n > 0 {
      CountIsSize(r, n - 1, from, to);
      InstantsGrowSize(r, n - 1, from, to);
    } else {
      assert r.Instants(0, from, to) == {};
    }
  }

  lemma {:induction false} CountSplits(r: Run, n: nat, mode: FailMode, from: real, to: real)
    requires n <= |r.calls| == |r.outcomes|
    ensures r.Count(n, Passed(mode), from, to) ==
        r.Count(n, Admissions, from, to) + r.Count(n, Bypassed(mode), from, to)
  {
    if n > 0 {
      CountSplits(r, n - 1, mode, from, to);
    }
  }

  /** On a strictly increasing clock the requests let through in a window are the admissions, which keep
      to the effective limit, and exactly those that bypassed the limiter: the ones that found no Redis
      handle and, in fail mode "open" only, the ones that met a RedisError. */
  lemma PassedBound(r: Run, mode: FailMode, to: real)
    requires r.Valid() && r.Ticking()
    ensures
      var n, from := |r.calls|, to - r.quota.window as real;
      && r.Count(n, Admissions, from, to) <= r.quota.Cap()
      && r.Count(n, Passed(mode), from, to) == r.Count(n, Admissions, from, to) + r.Count(n, Bypassed(mode), from, to)
  {
    var n, from := |r.calls|, to - r.quota.window as real;
    AnyWindowBound(r, n, to);
    CountIsSize(r, n, from, to);
    CountSplits(r, n, mode, from, to);
  }

  // ----- fail mode "closed" -----

  ghost predicate HandlesIn(r: Run, handles: set<Handle>) {
    forall i :: 0 <= i < |r.calls| ==> r.calls[i].faults.handle in handles
  }

  ghost predicate PassesAtMostCap(r: Run, to: real)
    requires r.Valid()
  {
    r.Count(|r.calls|, Passed(Closed), to - r.quota.window as real, to) <= r.quota.Cap()
  }

  /** Over all runs whose Redis handles are of the given kinds, fail mode "closed" keeps the limit if and
      only if the handle is never missing (or the window is empty). */
  lemma ClosedModeBound(q: Quota, handles: set<Handle>)
    ensures (forall r: Run, to :: r.Valid() && r.Ticking() && r.quota == q && HandlesIn(r, handles) ==>
        PassesAtMostCap(r, to))
       <==> Missing !in handles || q.window <= 0
  {
    if q.window <= 0 {
      forall r: Run, to | r.Valid() && r.quota == q
        ensures PassesAtMostCap(r, to)
      {
        EmptyWindow(r, |r.calls|, Passed(Closed), to - q.window as real, to);
      }
    } else if Missing !in handles {
      forall r: Run, to | r.Valid() && r.Ticking() && r.quota == q && HandlesIn(r, handles)
        ensures PassesAtMostCap(r, to)
      {
        PassedBound(r, Closed, to);
        NothingBypasses(r, handles, |r.calls|, to - q.window as real, to);
      }
    } else {
      var r := WithoutHandle(q, q.Cap() + 1);
      AllPass(r, |r.calls|);
      assert !PassesAtMostCap(r, 1.0);
    }
  }

  lemma {:induction false} EmptyWindow(r: Run, n: nat, which: Tally, from: real, to: real)
    requires n <= |r.calls| == |r.outcomes| && to <= from
    ensures r.Count(n, which, from, to) == 0
  {
    if n > 0 {
      EmptyWindow(r, n - 1, which, from, to);
    }
  }

  lemma {:induction false} NothingBypasses(r: Run, handles: set<Handle>, n: nat, from: real, to: real)
    requires r.Valid() && HandlesIn(r, handles) && Missing !in handles && n <= |r.calls|
    ensures r.Count(n, Bypassed(Closed), from, to) == 0
  {
    if n > 0 {
      NothingBypasses(r, handles, n - 1, from, to);
      assert r.Checked(n - 1) && r.calls[n - 1].faults.handle != Missing;
    }
  }

  /** Instants that come ever closer to 1. */
  function Left(i: nat): (d: real)
    ensures 0.0 < d <= 0.5
  {
    if i == 0 then 0.5 else Left(i - 1) / 2.0
  }

  lemma {:induction false} LeftShrinks(i: nat, j: nat)
    requires i < j
    ensures Left(j) < Left(i)
  {
    if i < j - 1 {
      LeftShrinks(i, j - 1);
    }
  }

  /** n requests within half a second, none of which finds a Redis handle. */
  lemma WithoutHandle(q: Quota, n: nat) returns (r: Run)
    ensures r.Valid() && r.Ticking() && r.quota == q && |r.calls| == n
    ensures forall i :: 0 <= i < n ==>
        r.outcomes[i].NoHandle? && r.calls[i] == Call(1.0 - Left(i), NoFaults.(handle := Missing))
  {
    r := Run("k", q, seq(n, i requires 0 <= i => Call(1.0 - Left(i), NoFaults.(handle := Missing))),
             seq(n, _ => NoHandle), seq(n + 1, _ => map[]));
    forall i, j | 0 <= i < j < n
      ensures r.calls[i].now < r.calls[j].now && r.Apart(i, j)
    {
      LeftShrinks(i, j);
    }
    forall i | 0 <= i < n
      ensures r.Checked(i)
    {
    }
  }

  lemma {:induction false} AllPass(r: Run, n: nat)
    requires n <= |r.calls| == |r.outcomes| && r.quota.window > 0
    requires forall i :: 0 <= i < |r.calls| ==> r.outcomes[i].NoHandle? && 0.0 < r.calls[i].now <= 1.0
    ensures r.Count(n, Passed(Closed), 1.0 - r.quota.window as real, 1.0) == n
  {
    if n > 0 {
      AllPass(r, n - 1);
    }
  }

  // ----- runs without faults -----

  lemma FreshMemberIsAdmission(ws: Windows, key: string, q: Quota, now: real, a: real)
    requires key in Check(true, ws, key, q, now, NoFaults).1 && a in Check(true, ws, key, q, now, NoFaults).1[key].value
    requires key !in ws || a !in ws[key].value
    ensures a == now && Check(true, ws, key, q, now, NoFaults).0.Admitted?
  {
  }

  lemma {:induction false} OnlyAdmissionsStored(r: Run, n: nat, a: real) returns (i: nat)
    requires r.Valid() && r.Faultless() && n <= |r.calls|
    requires r.key in r.windows[n] && a in r.windows[n][r.key].value
    ensures i < n && r.outcomes[i].Admitted? && r.calls[i].now == a
  {
    var before := r.windows[n - 1];
    if r.key in before && a in before[r.key].value {
      i := OnlyAdmissionsStored(r, n - 1, a);
    } else {
      i := n - 1;
      assert r.Checked(i);
      FreshMemberIsAdmission(before, r.key, r.quota, r.calls[i].now, a);
    }
  }

  /** Without faults, what ZCARD sees is exactly the admissions of the last window. */
  lemma CountedIsLastWindow(r: Run, n: nat)
    requires r.Valid() && r.Faultless() && n < |r.calls|
    ensures Counted(r, n) == r.Instants(n, r.calls[n].now - r.quota.window as real, r.calls[n].now)
  {
    var from, now := r.calls[n].now - r.quota.window as real, r.calls[n].now;
    forall a | a in Counted(r, n)
      ensures a in r.Instants(n, from, now)
    {
      var i := OnlyAdmissionsStored(r, n, a);
      assert r.AdmittedIn(i, from, now);
    }
    AdmissionsCounted(r, n, from, now);
  }

  ghost function Ruling(used: int, q: Quota): Outcome {
    if used >= q.Effective() then Full else Admitted(q.Effective() - used - 1)
  }

  lemma FaultlessOutcome(r: Run, n: nat)
    requires r.Valid() && r.Faultless() && n < |r.calls|
    ensures r.outcomes[n] == Ruling(|Counted(r, n)|, r.quota)
  {
    assert r.Checked(n);
    assert r.calls[n].faults == NoFaults;
  }

  lemma RulingByInstants(r: Run, n: nat, from: real)
    requires r.Valid() && r.Faultless() && n < |r.calls| && from == r.calls[n].now - r.quota.window as real
    ensures r.outcomes[n] == Ruling(|r.Instants(n, from, r.calls[n].now)|, r.quota)
  {
    FaultlessOutcome(r, n);
    CountedIsLastWindow(r, n);
  }

  /** Without faults and on a strictly increasing clock, a request is refused exactly when the last
      window already holds the effective limit of admitted requests, and otherwise reports the exact
      slack that remains. */
  lemma ExactWindow(r: Run, n: nat)
    requires r.Valid() && r.Faultless() && r.Ticking() && n < |r.calls|
    ensures r.outcomes[n]
         == Ruling(r.Count(n, Admissions, r.calls[n].now - r.quota.window as real, r.calls[n].now), r.quota)
  {
    var from := r.calls[n].now - r.quota.window as real;
    RulingByInstants(r, n, from);
    CountIsSize(r, n, from, r.calls[n].now);
  }

  /** And in plain terms what its caller is told: denied exactly when the last window holds `limit`
      admissions, or as many as a burst other than 0 allows; otherwise how many more either of the two
      leaves room for, whichever is less. */
  lemma ExactVerdict(r: Run, n: nat, mode: FailMode)
    requires r.Valid() && r.Faultless() && r.Ticking() && n < |r.calls|
    ensures
      var used := r.Count(n, Admissions, r.calls[n].now - r.quota.window as real, r.calls[n].now);
      var limit, burst := r.quota.limit, r.quota.burst;
      var v := Answer(r.outcomes[n], mode, limit);
      var room := v.remaining + used + 1;
      && (v.allowed <==> used < limit && !(burst.Some? && burst.value != 0 && burst.value <= used))
      && (!v.allowed ==> v.remaining == 0)
      && (v.allowed ==> room <= limit && (burst.Some? && burst.value != 0 ==> room <= burst.value))
      && (v.allowed ==> room == limit || (burst.Some? && burst.value != 0 && room == burst.value))
  {
    ExactWindow(r, n);
  }

  // ----- requests at the same instant -----

  ghost predicate WithinCap(r: Run, to: real)
    requires r.Valid()
  {
    r.Count(|r.calls|, Admissions, to - r.quota.window as real, to) <= r.quota.Cap()
  }

  /** Members are named after their instant, so requests at one instant share a member. The bound on
      requests therefore survives a clock that may stand still exactly when the effective limit is at
      most 1 (or the window is empty). */
  lemma CoarseClockBound(q: Quota)
    ensures (forall r: Run, to :: r.Valid() && r.quota == q ==> WithinCap(r, to))
       <==> q.Effective() <= 1 || q.window <= 0
  {
    if q.Effective() <= 1 || q.window <= 0 {
      forall r: Run, to | r.Valid() && r.quota == q
        ensures WithinCap(r, to)
      {
        AtMostOne(r, |r.calls|, to);
      }
    } else {
      var r := StandingClock(q, q.Effective() + 1);
      StandingClockAdmits(r, |r.calls|);
      assert !WithinCap(r, 1.0);
    }
  }

  lemma {:induction false} AtMostOne(r: Run, n: nat, to: real)
    requires r.Valid() && n <= |r.calls| && (r.quota.Effective() <= 1 || r.quota.window <= 0)
    ensures r.Count(n, Admissions, to - r.quota.window as real, to) <= r.quota.Cap()
  {
    if n > 0 {
      var from := to - r.quota.window as real;
      AtMostOne(r, n - 1, to);
      if r.AdmittedIn(n - 1, from, to) {
        AdmissionLeavesRoom(r, n - 1, from, to);
        NoInstantNoCount(r, n - 1, from, to);
      }
    }
  }

  lemma {:induction false} NoInstantNoCount(r: Run, n: nat, from: real, to: real)
    requires n <= |r.calls| == |r.outcomes| && |r.Instants(n, from, to)| == 0
    ensures r.Count(n, Admissions, from, to) == 0
  {
    if n > 0 {
      InstantsGrow(r, n - 1, from, to);
      NoInstantNoCount(r, n - 1, from, to);
    }
  }

  ghost function OneMember(window: int): Windows {
    map["k" := Timed({1.0}, Some(1.0 + (window * 2) as real))]
  }

  lemma SameInstantCheck(ws: Windows, q: Quota)
    requires q.Effective() >= 2 && q.window > 0 && (ws == map[] || ws == OneMember(q.window))
    ensures Check(true, ws, "k", q, 1.0, NoFaults)
         == (Admitted(q.Effective() - (if ws == map[] then 1 else 2)), OneMember(q.window))
  {
    var from := 1.0 - q.window as real;
    assert Stale(Members(ws, "k", 1.0), from) == {};
    assert ws != map[] ==> {1.0} - Stale({1.0}, from) == {1.0};
    assert Prune(ws, "k", from, 1.0) == ws;
    assert Members(ws, "k", 1.0) == if ws == map[] then {} else {1.0};
    var added := AddMember(ws, "k", 1.0, 1.0);
    assert added["k"].value == {1.0};
    assert Expire(added, "k", q.window * 2, 1.0) == OneMember(q.window);
    assert Check(true, ws, "k", q, 1.0, NoFaults) == Decide(ws, "k", q, 1.0, NoFaults);
  }

  /** n requests that all read the same clock value. */
  lemma {:induction false} StandingClock(q: Quota, n: nat) returns (r: Run)
    requires q.Effective() >= 2 && q.window > 0
    ensures r.Valid() && r.quota == q && r.key == "k" && |r.calls| == n
    ensures forall i :: 0 <= i < n ==> r.outcomes[i].Admitted? && r.calls[i].now == 1.0
    ensures r.windows[n] == if n == 0 then map[] else OneMember(q.window)
  {
    if n == 0 {
      r := Run("k", q, [], [], [map[]]);
    } else {
      var before := StandingClock(q, n - 1);
      var ws := before.windows[n - 1];
      SameInstantCheck(ws, q);
      r := Run("k", q, before.calls + [Call(1.0, NoFaults)],
          before.outcomes + [Check(true, ws, "k", q, 1.0, NoFaults).0],
               before.windows + [OneMember(q.window)]);
      forall i | 0 <= i < n
        ensures r.Checked(i)
      {
        if i < n - 1 {
          assert before.Checked(i);
        }
      }
    }
  }

  lemma {:induction false} StandingClockAdmits(r: Run, n: nat)
    requires n <= |r.calls| == |r.outcomes| && r.quota.window > 0
    requires forall i :: 0 <= i < |r.calls| ==> r.outcomes[i].Admitted? && r.calls[i].now == 1.0
    ensures r.Count(n, Admissions, 1.0 - r.quota.window as real, 1.0) == n
  {
    if n > 0 {
      StandingClockAdmits(r, n - 1);
    }
  }

  // ----- a check as steps of the interleaved model -----

  /** The Redis calls of one check that take effect on the set, and its passing the comparison. */
  function StepsOf(ws: Windows, key: string, q: Quota, now: real, f: Faults, caller: nat): seq<I.Step<real>> {
    if !f.handle.Connected? then []
    else
      var upTo := now - q.window as real;
      var pruned := if f.prune.Applied() then Prune(ws, key, upTo, now) else ws;
      (if f.prune.Applied() then [I.Step.Remove(Stale(Members(ws, key, now), upTo))] else []) +
      if f.prune.Raised() || f.count.Raised() || |Members(pruned, key, now)| >= q.Effective() then []
      else [I.Step.Clear(caller), if f.add.Applied() then I.Step.Add(caller, now) else I.Step.Leave(caller)] +
           if !f.add.Raised() && f.expire.Applied() then [I.Step.SetExpiry(q.window * 2)] else []
  }

  /** Every check, however it ends, is made of the steps that Interleaving lets run apart: prune, count,
      add, expire. So its bound on interleaved callers speaks of these checks. */
  lemma CheckIsSteps(ws: Windows, key: string, q: Quota, now: real, f: Faults, caller: nat)
    ensures I.Limit(key, q.Effective()).Leads(I.Shared(ws, now, {}, 1), StepsOf(ws, key, q, now, f, caller),
                                              I.Shared(Check(true, ws, key, q, now, f).1, now, {}, 1))
  {
    var l := I.Limit(key, q.Effective());
    var upTo := now - q.window as real;
    var pruned := if f.prune.Applied() then Prune(ws, key, upTo, now) else ws;
    if f.handle.Connected? {
      if !(f.prune.Raised() || f.count.Raised() || |Members(pruned, key, now)| >= q.Effective()) {
        DecideIsSteps(pruned, key, q, now, f, caller);
      }
      if f.prune.Applied() {
        var steps := StepsOf(ws, key, q, now, f, caller);
        assert steps == [steps[0]] + steps[1..];
        assert l.Apply(I.Shared(ws, now, {}, 1), steps[0]) == I.Shared(pruned, now, {}, 1);
      }
    }
  }

  lemma DecideIsSteps(ws: Windows, key: string, q: Quota, now: real, f: Faults, caller: nat)
    requires |Members(ws, key, now)| < q.Effective()
    ensures I.Limit(key, q.Effective()).Leads(I.Shared(ws, now, {}, 1),
      [I.Step.Clear(caller), if f.add.Applied() then I.Step.Add(caller, now) else I.Step.Leave(caller)]
        + (if !f.add.Raised() && f.expire.Applied() then [I.Step.SetExpiry(q.window * 2)] else []),
      I.Shared(Decide(ws, key, q, now, f).1, now, {}, 1))
  {
    var l := I.Limit(key, q.Effective());
    var first := [I.Step.Clear(caller), if f.add.Applied() then I.Step.Add(caller, now) else I.Step.Leave(caller)];
    var last := if !f.add.Raised() && f.expire.Applied() then [I.Step.SetExpiry(q.window * 2)] else [];
    var added := if f.add.Applied() then AddMember(ws, key, now, now) else ws;
    assert {} + {caller} == {caller} && {caller} - {caller} == {};
    var s1, s2 := I.Shared(ws, now, {caller}, 1), I.Shared(added, now, {}, 1);
    assert l.Apply(I.Shared(ws, now, {}, 1), first[0]) == s1 && l.Apply(s1, first[1]) == s2;
    assert (first + last)[1..] == [first[1]] + last && ([first[1]] + last)[1..] == last;
    assert l.Leads(s2, last, I.Shared(Decide(ws, key, q, now, f).1, now, {}, 1)) by {
      if last != [] {
        assert last[1..] == [];
      }
    }
    assert l.Leads(s1, [first[1]] + last, I.Shared(Decide(ws, key, q, now, f).1, now, {}, 1));
  }
}
