/** Runs of overlapping checks, built batch by batch. They show that the bounds on overlapping checks
    are exact. */
module OverlapRuns {
  import R = RateLimiting
  import opened OverlappingChecks
  import opened Redis

  /** What the runs built here keep to: at most k checks at once, each over within d seconds. */
  datatype Plan = Plan(l: Limiter, k: nat, d: real) {
    predicate Sound() { l.quota.window > 0 && k >= 1 && d > 0.0 }

    function Span(): real { l.quota.window as real }

    /** From an empty key space, at time zero. */
    ghost predicate Builds(r: Run) {
      r.Valid() && r.AlwaysTame(k, d) && r.l == l && r.states[0] == World(map[], 0.0, map[])
    }
  }

  lemma Begin(p: Plan) returns (r: Run)
    requires p.Sound()
    ensures p.Builds(r) && r.Last() == World(map[], 0.0, map[])
  {
    r := Run(p.l, [], [World(map[], 0.0, map[])]);
    assert Active(r.states[0]) == {};
  }

  lemma Extend(p: Plan, r: Run, op: Op) returns (r': Run)
    requires p.Builds(r) && p.l.Enabled(r.Last(), op) && Tame(p.l.Apply(r.Last(), op), p.k, p.d)
    ensures p.Builds(r') && r'.Last() == p.l.Apply(r.Last(), op)
  {
    r' := Run(r.l, r.ops + [op], r.states + [r.l.Apply(r.Last(), op)]);
    forall i: nat | i < |r'.ops|
      ensures r'.Stepped(i)
    {
      if i < |r.ops| {
        assert r.Stepped(i);
      }
    }
  }

  // ----- checks in order -----

  /** Checks 0 to n - 1 have begun, one after the other and all before now. */
  ghost predicate Lined(w: World, n: nat) {
    && (forall i: nat :: i in w.checks <==> i < n)
    && (forall i: nat, j: nat :: i < j < n ==> w.checks[i].at < w.checks[j].at)
    && (forall i: nat :: i < n ==> w.checks[i].at < w.now)
  }

  /** The checks before m are over, the next ones up to j are in phase `done`, the others in `todo`. */
  ghost predicate Stage(w: World, m: nat, j: nat, n: nat, done: Phase, todo: Phase) {
    && Lined(w, n) && m <= j <= n
    && (forall i: nat :: i < m ==> !w.checks[i].Active())
    && (forall i: nat :: m <= i < j ==> w.checks[i].phase == done)
    && (forall i: nat :: j <= i < n ==> w.checks[i].phase == todo)
  }

  ghost predicate Idle(w: World, n: nat) { Lined(w, n) && forall i: nat :: i < n ==> !w.checks[i].Active() }

  ghost predicate ReadBetween(w: World, m: nat, n: nat, start: real, end: real) {
    forall i: nat :: m <= i < n && i in w.checks ==> start <= w.checks[i].at < end
  }

  ghost predicate SameBefore(w: World, w': World, m: nat) {
    forall i: nat :: i < m && i in w.checks ==> i in w'.checks && w'.checks[i] == w.checks[i]
  }

  lemma {:induction false} RangeSize(ids: set<nat>, m: nat, n: nat)
    requires m <= n && forall i :: i in ids ==> m <= i < n
    ensures |ids| <= n - m
  {
    if m < n {
      RangeSize(ids - {n - 1}, m, n - 1);
    } else {
      assert ids == {};
    }
  }

  lemma StageIsTame(p: Plan, w: World, m: nat, j: nat, n: nat, done: Phase, todo: Phase, start: real, end: real)
    requires Stage(w, m, j, n, done, todo) && ReadBetween(w, m, n, start, end)
    requires n <= m + p.k && w.now <= start + p.d
    ensures Tame(w, p.k, p.d)
  {
    RangeSize(Active(w), m, n);
  }

  lemma StageMoves(w: World, w': World, m: nat, j: nat, n: nat, done: Phase, todo: Phase, start: real, end: real)
    requires Stage(w, m, j, n, done, todo) && j < n && ReadBetween(w, m, n, start, end)
    requires w'.now == w.now && w'.checks == w.checks[j := w.checks[j].(phase := done)]
    ensures Stage(w', m, j + 1, n, done, todo) && ReadBetween(w', m, n, start, end) && SameBefore(w, w', m)
  {
    LinedStill(w, w', n);
  }

  lemma LinedStill(w: World, w': World, n: nat)
    requires Lined(w, n) && w'.now == w.now && w'.checks.Keys == w.checks.Keys
    requires forall i :: i in w.checks ==> w'.checks[i].at == w.checks[i].at
    ensures Lined(w', n)
  {
  }

  /** One check of the batch makes its next call. */
  lemma Forward(p: Plan, r: Run, op: Op, m: nat, j: nat, n: nat, done: Phase, todo: Phase, start: real, end: real)
    returns (r': Run)
    requires p.Builds(r) && Stage(r.Last(), m, j, n, done, todo) && j < n <= m + p.k
    requires ReadBetween(r.Last(), m, n, start, end) && r.Last().now <= start + p.d
    requires p.l.Enabled(r.Last(), op)
    requires
      var w, w' := r.Last(), p.l.Apply(r.Last(), op);
      w'.now == w.now && w'.checks == w.checks[j := w.checks[j].(phase := done)]
    ensures p.Builds(r') && r'.Last() == p.l.Apply(r.Last(), op)
    ensures Stage(r'.Last(), m, j + 1, n, done, todo) && ReadBetween(r'.Last(), m, n, start, end)
    ensures SameBefore(r.Last(), r'.Last(), m)
  {
    var w' := p.l.Apply(r.Last(), op);
    StageMoves(r.Last(), w', m, j, n, done, todo, start, end);
    StageIsTame(p, w', m, j + 1, n, done, todo, start, end);
    r' := Extend(p, r, op);
  }

  lemma Wait(p: Plan, r: Run, m: nat, n: nat, phase: Phase, start: real, end: real, later: real) returns (r': Run)
    requires p.Builds(r) && Stage(r.Last(), m, n, n, phase, phase) && n <= m + p.k
    requires ReadBetween(r.Last(), m, n, start, end) && r.Last().now <= later <= start + p.d
    ensures p.Builds(r') && r'.Last() == r.Last().(now := later)
    ensures Stage(r'.Last(), m, n, n, phase, phase) && ReadBetween(r'.Last(), m, n, start, end)
  {
    StageIsTame(p, r.Last().(now := later), m, n, n, phase, phase, start, end);
    r' := Extend(p, r, Tick(later));
  }

  lemma StageStarts(w: World, w': World, m: nat, n: nat, start: real, end: real)
    requires Stage(w, m, n, n, Started, Started) && ReadBetween(w, m, n, start, end)
    requires start <= w.now < end && w.now < w'.now && w'.checks == w.checks[n := Checking(w.now, Started)]
    ensures Stage(w', m, n + 1, n + 1, Started, Started) && ReadBetween(w', m, n + 1, start, end)
    ensures SameBefore(w, w', m)
  {
  }

  /** One more check begins, and a little time passes. */
  lemma StartOne(p: Plan, r: Run, m: nat, n: nat, start: real, end: real) returns (r': Run)
    requires p.Builds(r) && Stage(r.Last(), m, n, n, Started, Started) && n < m + p.k
    requires ReadBetween(r.Last(), m, n, start, end) && start <= r.Last().now < end <= start + p.d
    ensures p.Builds(r') && r'.Last().windows == r.Last().windows && r.Last().now <= r'.Last().now < end
    ensures Stage(r'.Last(), m, n + 1, n + 1, Started, Started) && ReadBetween(r'.Last(), m, n + 1, start, end)
    ensures SameBefore(r.Last(), r'.Last(), m)
  {
    var w := r.Last();
    var later := (w.now + end) / 2.0;
    var w1 := p.l.Apply(w, Start(n));
    var w2 := w1.(now := later);
    StageStarts(w, w2, m, n, start, end);
    StageIsTame(p, w2, m, n + 1, n + 1, Started, Started, start, end);
    assert Active(w1) == Active(w2);
    r' := Extend(p, r, Start(n));
    r' := Extend(p, r', Tick(later));
  }

  lemma {:induction false} StartMany(p: Plan, r: Run, m: nat, n: nat, c: nat, start: real, end: real) returns (r': Run)
    requires p.Builds(r) && Stage(r.Last(), m, n, n, Started, Started) && n + c <= m + p.k
    requires ReadBetween(r.Last(), m, n, start, end) && start <= r.Last().now < end <= start + p.d
    ensures p.Builds(r') && r'.Last().windows == r.Last().windows && r.Last().now <= r'.Last().now < end
    ensures Stage(r'.Last(), m, n + c, n + c, Started, Started) && ReadBetween(r'.Last(), m, n + c, start, end)
    ensures SameBefore(r.Last(), r'.Last(), m)
    decreases c
  {
    r' := r;
    if c > 0 {
      r' := StartOne(p, r, m, n, start, end);
      r' := StartMany(p, r', m, n + 1, c - 1, start, end);
    }
  }

  // ----- the calls of a batch -----

  /** Nothing is pruned by a check that read the clock before `end`, and there is room for one more. */
  ghost predicate Room(p: Plan, w: World, end: real) {
    && NoEmptySet(p.l, w) && |p.l.Held(w)| < p.l.quota.Effective()
    && forall t :: t in p.l.Held(w) ==> end - p.Span() <= t
  }

  lemma NothingPruned(p: Plan, w: World, id: nat, end: real)
    requires Room(p, w, end) && p.l.Enabled(w, Prune(id)) && w.checks[id].at < end
    ensures p.l.Apply(w, Prune(id)).windows == w.windows
  {
    assert R.Stale(p.l.Held(w), w.checks[id].at - p.Span()) == {};
    if Lookup(w.windows, p.l.key, w.now).Some? {
      assert w.windows[p.l.key].value - {} == w.windows[p.l.key].value;
      assert !(w.windows[p.l.key].value <= {});
    }
  }

  /** All prune, and then all compare. */
  lemma {:induction false} Compare(p: Plan, r: Run, m: nat, j: nat, n: nat, pruned: bool, start: real, end: real)
    returns (r': Run)
    requires p.Builds(r) && n <= m + p.k && Room(p, r.Last(), end)
    requires
      if pruned then Stage(r.Last(), m, j, n, Cleared, Pruned) else Stage(r.Last(), m, j, n, Pruned, Started)
    requires ReadBetween(r.Last(), m, n, start, end) && r.Last().now <= start + p.d
    ensures p.Builds(r') && r'.Last().windows == r.Last().windows && r'.Last().now == r.Last().now
    ensures Stage(r'.Last(), m, n, n, Cleared, Cleared) && ReadBetween(r'.Last(), m, n, start, end)
    ensures SameBefore(r.Last(), r'.Last(), m)
    decreases !pruned, n - j
  {
    r' := r;
    if j < n && pruned {
      r' := Forward(p, r, Count(j), m, j, n, Cleared, Pruned, start, end);
      r' := Compare(p, r', m, j + 1, n, true, start, end);
    } else if j < n {
      NothingPruned(p, r.Last(), j, end);
      r' := Forward(p, r, Prune(j), m, j, n, Pruned, Started, start, end);
      r' := Compare(p, r', m, j + 1, n, false, start, end);
    } else if !pruned {
      r' := Compare(p, r', m, m, n, true, start, end);
    }
  }

  /** What c added members do to the key. */
  ghost predicate Grown(p: Plan, w: World, w': World, start: real, c: nat) {
    && NoEmptySet(p.l, w') && |p.l.Held(w')| <= |p.l.Held(w)| + c
    && (forall t :: t in p.l.Held(w') ==> t in p.l.Held(w) || start <= t)
    && (c > 0 || Lookup(w.windows, p.l.key, w.now).Some? ==>
          && Lookup(w'.windows, p.l.key, w.now).Some?
          && w'.windows[p.l.key].expiresAt
             == if Lookup(w.windows, p.l.key, w.now).Some? then w.windows[p.l.key].expiresAt else None)
  }

  lemma AddGrows(p: Plan, w: World, id: nat, start: real)
    requires NoEmptySet(p.l, w) && p.l.Enabled(w, Add(id)) && start <= w.checks[id].at
    ensures Grown(p, w, p.l.Apply(w, Add(id)), start, 1)
  {
    StepKeepsNoEmptySet(p.l, w, Add(id));
    assert p.l.Held(p.l.Apply(w, Add(id))) == p.l.Held(w) + {w.checks[id].at};
  }

  lemma {:induction false} AddAll(p: Plan, r: Run, m: nat, j: nat, n: nat, start: real, end: real) returns (r': Run)
    requires p.Builds(r) && n <= m + p.k && NoEmptySet(p.l, r.Last()) && Stage(r.Last(), m, j, n, Added, Cleared)
    requires ReadBetween(r.Last(), m, n, start, end) && r.Last().now <= start + p.d
    ensures p.Builds(r') && r'.Last().now == r.Last().now && Grown(p, r.Last(), r'.Last(), start, n - j)
    ensures Stage(r'.Last(), m, n, n, Added, Added) && ReadBetween(r'.Last(), m, n, start, end)
    ensures SameBefore(r.Last(), r'.Last(), m)
    decreases n - j
  {
    r' := r;
    if j < n {
      AddGrows(p, r.Last(), j, start);
      r' := Forward(p, r, Add(j), m, j, n, Added, Cleared, start, end);
      r' := AddAll(p, r', m, j + 1, n, start, end);
    }
  }

  /** A new expiry for the key, if it is still there. */
  ghost predicate Renewed(p: Plan, w: World, w': World) {
    && NoEmptySet(p.l, w') && p.l.Held(w') == p.l.Held(w)
    && (Lookup(w.windows, p.l.key, w.now).Some? ==>
          && Lookup(w'.windows, p.l.key, w.now).Some?
          && w'.windows[p.l.key].expiresAt == Some(w.now + (p.l.quota.window * 2) as real))
  }

  lemma ExpiryRenews(p: Plan, w: World, id: nat)
    requires p.Sound() && NoEmptySet(p.l, w) && p.l.Enabled(w, SetExpiry(id, false))
    ensures
      var w' := p.l.Apply(w, SetExpiry(id, false));
      Renewed(p, w, w') && w'.now == w.now && w'.checks == w.checks[id := w.checks[id].(phase := Complete)]
  {
  }

  lemma RenewedTwice(p: Plan, w: World, w1: World, w2: World)
    requires Renewed(p, w, w1) && Renewed(p, w1, w2) && w1.now == w.now
    ensures Renewed(p, w, w2)
  {
  }

  lemma {:induction false} RenewAll(p: Plan, r: Run, m: nat, j: nat, n: nat, start: real, end: real) returns (r': Run)
    requires p.Builds(r) && p.Sound() && j < n <= m + p.k && NoEmptySet(p.l, r.Last())
    requires Stage(r.Last(), m, j, n, Complete, Added)
    requires ReadBetween(r.Last(), m, n, start, end) && r.Last().now <= start + p.d
    ensures p.Builds(r') && r'.Last().now == r.Last().now && Renewed(p, r.Last(), r'.Last())
    ensures Stage(r'.Last(), m, n, n, Complete, Complete) && ReadBetween(r'.Last(), m, n, start, end)
    ensures SameBefore(r.Last(), r'.Last(), m)
    decreases n - j
  {
    ExpiryRenews(p, r.Last(), j);
    r' := Forward(p, r, SetExpiry(j, false), m, j, n, Complete, Added, start, end);
    if j + 1 < n {
      var w1 := r'.Last();
      r' := RenewAll(p, r', m, j + 1, n, start, end);
      RenewedTwice(p, r.Last(), w1, r'.Last());
    }
  }

  // ----- a batch of checks -----

  /** Checks m to n - 1 were admitted, with clock values from `from` on and before `end`. */
  ghost predicate AdmittedBetween(w: World, m: nat, n: nat, from: real, end: real) {
    forall i: nat :: m <= i < n && i in w.checks ==> w.checks[i].phase.Complete? && from <= w.checks[i].at < end
  }

  /** Whether the key that is there at t1 has gone by t2. */
  ghost predicate Lapses(p: Plan, w: World, t1: real, t2: real) {
    && Lookup(w.windows, p.l.key, t1).Some?
    && w.windows[p.l.key].expiresAt.Some? && w.windows[p.l.key].expiresAt.value < t2
  }

  /** What a batch of c checks leaves of the key: its members and a new expiry, or nothing at all when
      the key expired before the new expiry was set. */
  ghost predicate Opened(p: Plan, w: World, w': World, c: nat, t1: real) {
    && NoEmptySet(p.l, w')
    && if Lapses(p, w, t1, w'.now) then p.l.Held(w') == {}
       else
         && |p.l.Held(w')| <= |Members(w.windows, p.l.key, t1)| + c
         && (forall t :: t in p.l.Held(w') ==> t in Members(w.windows, p.l.key, t1) || w.now <= t)
         && Lookup(w'.windows, p.l.key, w'.now).Some?
         && w'.windows[p.l.key].expiresAt == Some(w'.now + (p.l.quota.window * 2) as real)
  }

  lemma OpenedBy(p: Plan, w: World, w1: World, w2: World, w3: World, w': World, c: nat, t1: real)
    requires w1.windows == w.windows && w1.now == t1 == w2.now && Grown(p, w1, w2, w.now, c) && c > 0
    requires w3.windows == w2.windows && w3.now == w'.now >= t1 && Renewed(p, w3, w')
    ensures Opened(p, w, w', c, t1)
  {
    assert p.l.Held(w1) == Members(w.windows, p.l.key, t1);
    if Lapses(p, w, t1, w'.now) {
      assert Lookup(w3.windows, p.l.key, w3.now).None?;
    } else {
      assert p.l.Held(w3) == p.l.Held(w2);
    }
  }

  /** A batch up to ZADD. */
  lemma BatchAdds(p: Plan, r: Run, n: nat, c: nat, end: real, t1: real) returns (r': Run)
    requires p.Builds(r) && Idle(r.Last(), n) && c <= p.k
    requires r.Last().now < end <= t1 <= r.Last().now + p.d && Room(p, r.Last().(now := t1), end)
    ensures p.Builds(r') && r'.Last().now == t1 && Stage(r'.Last(), n, n + c, n + c, Added, Added)
    ensures ReadBetween(r'.Last(), n, n + c, r.Last().now, end) && SameBefore(r.Last(), r'.Last(), n)
    ensures Grown(p, r.Last().(now := t1), r'.Last(), r.Last().now, c)
  {
    var start := r.Last().now;
    r' := StartMany(p, r, n, n, c, start, end);
    r' := Wait(p, r', n, n + c, Started, start, end, t1);
    var w1 := r.Last().(now := t1);
    SameRoom(p, w1, r'.Last(), end);
    r' := Compare(p, r', n, n, n + c, false, start, end);
    var w2 := r'.Last();
    r' := AddAll(p, r', n, n, n + c, start, end);
    SameGrowth(p, w1, w2, r'.Last(), start, c);
  }

  lemma SameRoom(p: Plan, w: World, w': World, end: real)
    requires Room(p, w, end) && w'.windows == w.windows && w'.now == w.now
    ensures Room(p, w', end)
  {
  }

  lemma SameGrowth(p: Plan, w: World, w1: World, w': World, start: real, c: nat)
    requires Grown(p, w1, w', start, c) && w1.windows == w.windows && w1.now == w.now
    ensures Grown(p, w, w', start, c)
  {
  }

  /** And its EXPIREs, some time later. */
  lemma BatchRenews(p: Plan, r: Run, n: nat, c: nat, start: real, end: real, t2: real) returns (r': Run)
    requires p.Builds(r) && p.Sound() && 0 < c <= p.k && Stage(r.Last(), n, n + c, n + c, Added, Added)
    requires ReadBetween(r.Last(), n, n + c, start, end) && r.Last().now <= t2 <= start + p.d
    requires NoEmptySet(p.l, r.Last())
    ensures p.Builds(r') && Idle(r'.Last(), n + c) && r'.Last().now == t2
    ensures SameBefore(r.Last(), r'.Last(), n) && AdmittedBetween(r'.Last(), n, n + c, start, end)
    ensures Renewed(p, r.Last().(now := t2), r'.Last())
  {
    r' := Wait(p, r, n, n + c, Added, start, end, t2);
    r' := RenewAll(p, r', n, n, n + c, start, end);
    BatchIsOver(r'.Last(), n, n + c, start, end);
  }

  lemma BatchIsOver(w: World, m: nat, n: nat, start: real, end: real)
    requires Stage(w, m, n, n, Complete, Complete) && ReadBetween(w, m, n, start, end)
    ensures Idle(w, n) && AdmittedBetween(w, m, n, start, end)
  {
  }

  /** The checks of a batch are counted together, so that one place in the window lets all of them in.
      They start before `end`, prune at t1 and set their expiry at t2. */
  lemma Batch(p: Plan, r: Run, n: nat, c: nat, end: real, t1: real, t2: real) returns (r': Run)
    requires p.Builds(r) && p.Sound() && Idle(r.Last(), n) && 0 < c <= p.k
    requires r.Last().now < end <= t1 <= t2 <= r.Last().now + p.d && Room(p, r.Last().(now := t1), end)
    ensures p.Builds(r') && Idle(r'.Last(), n + c) && r'.Last().now == t2
    ensures SameBefore(r.Last(), r'.Last(), n) && AdmittedBetween(r'.Last(), n, n + c, r.Last().now, end)
    ensures Opened(p, r.Last(), r'.Last(), c, t1)
  {
    r' := BatchAdds(p, r, n, c, end, t1);
    var w2 := r'.Last();
    r' := BatchRenews(p, r', n, c, r.Last().now, end, t2);
    OpenedBy(p, r.Last(), r.Last().(now := t1), w2, w2.(now := t2), r'.Last(), c, t1);
  }

  lemma Doubled(p: Plan)
    ensures (p.l.quota.window * 2) as real == 2.0 * p.Span()
  {
  }

  lemma WaitIdle(p: Plan, r: Run, n: nat, later: real) returns (r': Run)
    requires p.Builds(r) && p.Sound() && Idle(r.Last(), n) && r.Last().now <= later
    ensures p.Builds(r') && r'.Last() == r.Last().(now := later) && Idle(r'.Last(), n)
  {
    var w' := r.Last().(now := later);
    assert Active(w') == {};
    r' := Extend(p, r, Tick(later));
  }

  // ----- checks that are soon over -----

  /** The key holds at most h members, none to be pruned before `stop`, and will not expire before then. */
  ghost predicate Ready(p: Plan, w: World, stop: real, h: nat) {
    && NoEmptySet(p.l, w) && |p.l.Held(w)| <= h && w.now < stop <= w.now + p.Span()
    && (forall t :: t in p.l.Held(w) ==> stop - p.Span() <= t)
    && (Lookup(w.windows, p.l.key, w.now).Some? && w.windows[p.l.key].expiresAt.Some? ==>
          stop <= w.windows[p.l.key].expiresAt.value)
  }

  lemma ReadyAtEnd(p: Plan, w: World, stop: real, h: nat, end: real)
    requires Ready(p, w, stop, h) && w.now < end < stop
    ensures Members(w.windows, p.l.key, end) == p.l.Held(w) && !Lapses(p, w, end, end)
    ensures h < p.l.quota.Effective() ==> Room(p, w.(now := end), end)
  {
    if Lookup(w.windows, p.l.key, w.now).None? {
      assert Lookup(w.windows, p.l.key, end).None?;
    }
  }

  lemma ReadyAgain(p: Plan, w: World, w': World, stop: real, h: nat, c: nat)
    requires p.Sound() && Ready(p, w, stop, h) && w.now < w'.now < stop && Opened(p, w, w', c, w'.now)
    ensures Ready(p, w', stop, h + c)
    ensures p.l.key in w'.windows && w'.windows[p.l.key].expiresAt == Some(w'.now + 2.0 * p.Span())
  {
    ReadyAtEnd(p, w, stop, h, w'.now);
    Doubled(p);
  }

  lemma QuickBatch(p: Plan, r: Run, n: nat, c: nat, stop: real, h: nat) returns (r': Run)
    requires p.Builds(r) && p.Sound() && Idle(r.Last(), n) && 0 < c <= p.k
    requires Ready(p, r.Last(), stop, h) && h < p.l.quota.Effective() && stop <= r.Last().now + p.d
    ensures p.Builds(r') && Idle(r'.Last(), n + c) && r.Last().now < r'.Last().now < stop
    ensures SameBefore(r.Last(), r'.Last(), n) && AdmittedBetween(r'.Last(), n, n + c, r.Last().now, stop)
    ensures Ready(p, r'.Last(), stop, h + c)
    ensures p.l.key in r'.Last().windows
    ensures r'.Last().windows[p.l.key].expiresAt == Some(r'.Last().now + 2.0 * p.Span())
  {
    var end := (r.Last().now + stop) / 2.0;
    ReadyAtEnd(p, r.Last(), stop, h, end);
    r' := Batch(p, r, n, c, end, end, end);
    ReadyAgain(p, r.Last(), r'.Last(), stop, h, c);
  }

  lemma SameThroughout(w: World, w1: World, w': World, m: nat, n: nat)
    requires SameBefore(w, w1, m) && SameBefore(w1, w', n) && m <= n
    ensures SameBefore(w, w', m)
  {
  }

  lemma Joined(w: World, w': World, m: nat, n: nat, n': nat, from: real, middle: real, end: real)
    requires m <= n <= n' && Idle(w, n) && SameBefore(w, w', n) && from <= middle
    requires AdmittedBetween(w, m, n, from, end) && AdmittedBetween(w', n, n', middle, end)
    ensures AdmittedBetween(w', m, n', from, end)
  {
    forall i: nat | m <= i < n' && i in w'.checks
      ensures w'.checks[i].phase.Complete? && from <= w'.checks[i].at < end
    {
      assert i < n ==> i in w.checks;
    }
  }

  lemma OneAndMore(w: World, w1: World, w': World, n: nat, c: nat, stop: real)
    requires c > 0 && Idle(w1, n + 1) && w.now < w1.now && SameBefore(w, w1, n) && SameBefore(w1, w', n + 1)
    requires AdmittedBetween(w1, n, n + 1, w.now, stop) && AdmittedBetween(w', n + 1, n + c, w1.now, stop)
    ensures SameBefore(w, w', n) && AdmittedBetween(w', n, n + c, w.now, stop)
  {
    SameThroughout(w, w1, w', n, n + 1);
    Joined(w1, w', n, n + 1, n + c, w.now, w1.now, stop);
  }

  /** c checks one at a time, as long as there is room. */
  lemma {:induction false} QuickChecks(p: Plan, r: Run, n: nat, c: nat, stop: real, h: nat) returns (r': Run)
    requires p.Builds(r) && p.Sound() && Idle(r.Last(), n)
    requires Ready(p, r.Last(), stop, h) && h + c <= p.l.quota.Effective() && stop <= r.Last().now + p.d
    ensures p.Builds(r') && Idle(r'.Last(), n + c) && r.Last().now <= r'.Last().now < stop
    ensures SameBefore(r.Last(), r'.Last(), n) && AdmittedBetween(r'.Last(), n, n + c, r.Last().now, stop)
    ensures Ready(p, r'.Last(), stop, h + c)
    decreases c
  {
    r' := r;
    if c > 0 {
      r' := QuickBatch(p, r, n, 1, stop, h);
      var w1 := r'.Last();
      r' := QuickChecks(p, r', n + 1, c - 1, stop, h + 1);
      OneAndMore(r.Last(), w1, r'.Last(), n, c, stop);
    }
  }

  // ----- counting them -----

  lemma {:induction false} Instants(v: Window, w: World, m: nat, n: nat, from: real, end: real) returns (s: set<real>)
    requires m <= n && Lined(w, n) && AdmittedBetween(w, m, n, from, end)
    requires v.to - v.l.quota.window as real < from && end <= v.to
    ensures s <= v.Admissions(w) && |s| == n - m
    ensures forall t :: t in s ==> exists i: nat :: m <= i < n && t == w.checks[i].at
    decreases n - m
  {
    s := {};
    if m < n {
      var t := w.checks[m].at;
      s := Instants(v, w, m + 1, n, from, end);
      assert m in w.checks && v.Contains(t);
      s := s + {t};
    }
  }

  lemma ManyAdmissions(p: Plan, r: Run, m: nat, n: nat, from: real, to: real)
    requires p.Builds(r) && m <= n && Lined(r.Last(), n) && AdmittedBetween(r.Last(), m, n, from, to)
    requires to - p.Span() < from
    ensures r.Admitted(to) >= n - m
  {
    var v := Window(p.l, to);
    var s := Instants(v, r.Last(), m, n, from, to);
    SubsetSize(s, v.Admissions(r.Last()));
  }

  // ----- members that are lost -----

  /** A step of the only check under way, soon after it began. */
  lemma Alone(p: Plan, r: Run, op: Op, id: nat, w': World) returns (r': Run)
    requires p.Builds(r) && p.Sound() && p.l.Enabled(r.Last(), op) && w' == p.l.Apply(r.Last(), op)
    requires forall i :: i in w'.checks && i != id ==> !w'.checks[i].Active()
    requires id in w'.checks && (w'.checks[id].Active() ==> w'.now == w'.checks[id].at)
    ensures p.Builds(r') && r'.Last() == w'
  {
    assert Active(w') <= {id};
    SubsetSize(Active(w'), {id});
    r' := Extend(p, r, op);
  }

  /** One check is admitted at time zero. */
  lemma FirstAdmitted(p: Plan) returns (r: Run)
    requires p.Sound() && p.l.quota.Effective() >= 1
    ensures p.Builds(r) && r.Last().now == 0.0 && r.Last().checks == map[0 := Checking(0.0, Complete)]
    ensures r.Last().windows == map[p.l.key := Timed({0.0}, Some(2.0 * p.Span()))]
  {
    var key, none := p.l.key, map[];
    r := Begin(p);
    r := Alone(p, r, Start(0), 0, World(none, 0.0, map[0 := Checking(0.0, Started)]));
    r := Alone(p, r, Prune(0), 0, World(none, 0.0, map[0 := Checking(0.0, Pruned)]));
    r := Alone(p, r, Count(0), 0, World(none, 0.0, map[0 := Checking(0.0, Cleared)]));
    r := Alone(p, r, Add(0), 0, World(map[key := Timed({0.0}, None)], 0.0, map[0 := Checking(0.0, Added)]));
    Doubled(p);
    var ws := map[key := Timed({0.0}, Some(2.0 * p.Span()))];
    r := Alone(p, r, SetExpiry(0, false), 0, World(ws, 0.0, map[0 := Checking(0.0, Complete)]));
  }

  lemma SecondStarts(p: Plan, t: real) returns (r: Run)
    requires p.Sound() && p.l.quota.Effective() >= 2 && 0.0 < t < p.Span()
    ensures p.Builds(r) && r.Last().now == t
    ensures r.Last().checks == map[0 := Checking(0.0, Complete), 1 := Checking(t, Started)]
    ensures r.Last().windows == map[p.l.key := Timed({0.0}, Some(2.0 * p.Span()))]
  {
    r := FirstAdmitted(p);
    var ws := r.Last().windows;
    assert Active(r.Last().(now := t)) == {};
    r := Extend(p, r, Tick(t));
    r := Alone(p, r, Start(1), 1, World(ws, t, map[0 := Checking(0.0, Complete), 1 := Checking(t, Started)]));
  }

  lemma SecondCounted(p: Plan, t: real) returns (r: Run)
    requires p.Sound() && p.l.quota.Effective() >= 2 && 0.0 < t < p.Span()
    ensures p.Builds(r) && r.Last().now == t
    ensures r.Last().checks == map[0 := Checking(0.0, Complete), 1 := Checking(t, Cleared)]
    ensures r.Last().windows == map[p.l.key := Timed({0.0}, Some(2.0 * p.Span()))]
  {
    var first := Checking(0.0, Complete);
    r := SecondStarts(p, t);
    var ws := r.Last().windows;
    assert p.l.Held(r.Last()) == {0.0};
    NothingPruned(p, r.Last(), 1, p.Span());
    r := Alone(p, r, Prune(1), 1, World(ws, t, map[0 := first, 1 := Checking(t, Pruned)]));
    r := Alone(p, r, Count(1), 1, World(ws, t, map[0 := first, 1 := Checking(t, Cleared)]));
  }

  /** A second check adds its member and fails in its EXPIRE, so that the key keeps its expiry. */
  lemma SecondFails(p: Plan, t: real) returns (r: Run)
    requires p.Sound() && p.l.quota.Effective() >= 2 && 0.0 < t < p.Span()
    ensures p.Builds(r) && r.Last().now == t
    ensures r.Last().checks == map[0 := Checking(0.0, Complete), 1 := Checking(t, Ended)]
    ensures r.Last().windows == map[p.l.key := Timed({0.0, t}, Some(2.0 * p.Span()))]
  {
    var first := Checking(0.0, Complete);
    r := SecondCounted(p, t);
    assert {0.0} + {t} == {0.0, t};
    var ws := map[p.l.key := Timed({0.0, t}, Some(2.0 * p.Span()))];
    r := Alone(p, r, Add(1), 1, World(ws, t, map[0 := first, 1 := Checking(t, Added)]));
    r := Alone(p, r, Fail(1), 1, World(ws, t, map[0 := first, 1 := Checking(t, Ended)]));
  }

  /** A third prunes the first member and fails: one member is left in a key that is about to expire. */
  lemma ThirdPrunes(p: Plan, t: real, u: real) returns (r: Run)
    requires p.Sound() && p.l.quota.Effective() >= 2 && 0.0 < t < p.Span() <= u < t + p.Span()
    ensures p.Builds(r) && r.Last().now == u
    ensures r.Last().checks == map[0 := Checking(0.0, Complete), 1 := Checking(t, Ended), 2 := Checking(u, Ended)]
    ensures r.Last().windows == map[p.l.key := Timed({t}, Some(2.0 * p.Span()))]
  {
    var first, second := Checking(0.0, Complete), Checking(t, Ended);
    r := SecondFails(p, t);
    assert Active(r.Last().(now := u)) == {};
    r := Extend(p, r, Tick(u));
    var ws, ws' := r.Last().windows, map[p.l.key := Timed({t}, Some(2.0 * p.Span()))];
    r := Alone(p, r, Start(2), 2, World(ws, u, map[0 := first, 1 := second, 2 := Checking(u, Started)]));
    assert R.Stale({0.0, t}, u - p.Span()) == {0.0} && {0.0, t} - {0.0} == {t};
    r := Alone(p, r, Prune(2), 2, World(ws', u, map[0 := first, 1 := second, 2 := Checking(u, Pruned)]));
    r := Alone(p, r, Fail(2), 2, World(ws', u, map[0 := first, 1 := second, 2 := Checking(u, Ended)]));
  }

  // ----- how many checks can be admitted in one window -----

  lemma ReadyWhenEmpty(p: Plan, w: World, stop: real)
    requires NoEmptySet(p.l, w) && p.l.Held(w) == {} && w.now < stop <= w.now + p.Span()
    ensures Ready(p, w, stop, 0)
  {
    assert Lookup(w.windows, p.l.key, w.now).None?;
  }

  /** One member waits in a key that is about to expire at twice the window. A batch of k checks is
      counted beside it, and sets its expiry when the key has gone: its members are lost. */
  lemma BatchLost(p: Plan, e: real) returns (r: Run)
    requires p.Sound() && p.l.quota.Effective() >= 2 && 0.0 < 8.0 * e <= p.Span() && 8.0 * e <= p.d
    ensures p.Builds(r) && Idle(r.Last(), 3 + p.k) && r.Last().now == 2.0 * p.Span() + e
    ensures AdmittedBetween(r.Last(), 3, 3 + p.k, 2.0 * p.Span() - 5.0 * e, 2.0 * p.Span() - 3.0 * e)
    ensures NoEmptySet(p.l, r.Last()) && p.l.Held(r.Last()) == {}
  {
    var t, u, start, end := p.Span() - e, 2.0 * p.Span() - 6.0 * e, 2.0 * p.Span() - 5.0 * e, 2.0 * p.Span() - 3.0 * e;
    r := ThirdPrunes(p, t, u);
    assert Active(r.Last().(now := start)) == {};
    r := Extend(p, r, Tick(start));
    var w := r.Last();
    assert Members(w.windows, p.l.key, end) == {t};
    r := Batch(p, r, 3, p.k, end, end, 2.0 * p.Span() + e);
  }

  /** After it the window is filled up to one place. */
  lemma LostAndFilled(p: Plan, e: real) returns (r: Run, n: nat)
    requires p.Sound() && p.l.quota.Effective() >= 2 && 0.0 < 8.0 * e <= p.Span() && 8.0 * e <= p.d
    ensures p.Builds(r) && Idle(r.Last(), n) && n == p.l.quota.Effective() + p.k + 2
    ensures 2.0 * p.Span() < r.Last().now
    ensures AdmittedBetween(r.Last(), 3, n, 2.0 * p.Span() - 5.0 * e, 2.0 * p.Span() + 2.0 * e)
    ensures Ready(p, r.Last(), 2.0 * p.Span() + 2.0 * e, p.l.quota.Effective() - 1)
  {
    var stop, places := 2.0 * p.Span() + 2.0 * e, p.l.quota.Effective() - 1;
    r := BatchLost(p, e);
    var w1 := r.Last();
    ReadyWhenEmpty(p, w1, stop);
    n := 3 + p.k + places;
    r := QuickChecks(p, r, 3 + p.k, places, stop, 0);
    Joined(w1, r.Last(), 3, 3 + p.k, n, 2.0 * p.Span() - 5.0 * e, w1.now, stop);
  }

  /** And the last place lets in another k checks. */
  lemma LostAndCounted(p: Plan, e: real) returns (r: Run, n: nat)
    requires p.Sound() && p.l.quota.Effective() >= 2 && 0.0 < 8.0 * e <= p.Span() && 8.0 * e <= p.d
    ensures p.Builds(r) && Idle(r.Last(), n) && n == p.l.quota.Effective() + 2 * p.k + 2
    ensures 2.0 * p.Span() < r.Last().now < 2.0 * p.Span() + 2.0 * e
    ensures AdmittedBetween(r.Last(), 3, n, 2.0 * p.Span() - 5.0 * e, 2.0 * p.Span() + 2.0 * e)
    ensures NoEmptySet(p.l, r.Last()) && p.l.key in r.Last().windows
    ensures r.Last().windows[p.l.key].expiresAt == Some(r.Last().now + 2.0 * p.Span())
  {
    var stop := 2.0 * p.Span() + 2.0 * e;
    r, n := LostAndFilled(p, e);
    var w := r.Last();
    r := QuickBatch(p, r, n, p.k, stop, p.l.quota.Effective() - 1);
    Joined(w, r.Last(), 3, n, n + p.k, 2.0 * p.Span() - 5.0 * e, w.now, stop);
    n := n + p.k;
  }

  /** A batch that reads the clock within the window and goes on when the key has expired. */
  lemma LateBatch(p: Plan, r: Run, n: nat, end: real, late: real) returns (r': Run)
    requires p.Builds(r) && p.Sound() && Idle(r.Last(), n) && p.l.quota.Effective() >= 1
    requires r.Last().now < end <= late <= r.Last().now + p.d && NoEmptySet(p.l, r.Last())
    requires p.l.key in r.Last().windows && r.Last().windows[p.l.key].expiresAt.Some?
    requires r.Last().windows[p.l.key].expiresAt.value < late
    ensures p.Builds(r') && Idle(r'.Last(), n + p.k)
    ensures SameBefore(r.Last(), r'.Last(), n) && AdmittedBetween(r'.Last(), n, n + p.k, r.Last().now, end)
  {
    assert Members(r.Last().windows, p.l.key, late) == {};
    r' := Batch(p, r, n, p.k, end, late, late);
  }

  /** A limit of 2 or more: limit + 2k - 1 admissions of checks that are over within any time d. */
  lemma QuickChecksExceed(p: Plan) returns (r: Run, to: real)
    requires p.Sound() && p.l.quota.Effective() >= 2
    ensures p.Builds(r) && r.Admitted(to) >= p.l.quota.Effective() + 2 * p.k - 1
  {
    var e := (if p.d < p.Span() then p.d else p.Span()) / 8.0;
    var n;
    r, n := LostAndCounted(p, e);
    to := 2.0 * p.Span() + 2.0 * e;
    ManyAdmissions(p, r, 3, n, 2.0 * p.Span() - 5.0 * e, to);
  }

  /** And k more if they may take long. */
  lemma SlowChecksExceed(p: Plan) returns (r: Run, to: real)
    requires p.Sound() && p.l.quota.Effective() >= 2 && p.d >= 3.0 * p.Span()
    ensures p.Builds(r) && r.Admitted(to) >= p.l.quota.Effective() + 3 * p.k - 1
  {
    var e, n := p.Span() / 16.0, 0;
    r, n := LostAndCounted(p, e);
    var w := r.Last();
    to := 2.0 * p.Span() + 3.0 * e;
    var from := 2.0 * p.Span() - 5.0 * e;
    r := LateBatch(p, r, n, to, w.now + 2.5 * p.Span());
    Joined(w, r.Last(), 3, n, n + p.k, from, w.now, to);
    ManyAdmissions(p, r, 3, n + p.k, from, to);
  }

  /** A limit of 1: 2k admissions, if checks may take longer than the window. */
  lemma LateChecksExceed(p: Plan) returns (r: Run, to: real)
    requires p.Sound() && p.l.quota.Effective() >= 1 && p.d > p.Span()
    ensures p.Builds(r) && r.Admitted(to) >= 2 * p.k
  {
    var e := (if p.d < 2.0 * p.Span() then p.d - p.Span() else p.Span()) / 4.0;
    to := p.Span() - e;
    r := Begin(p);
    ReadyWhenEmpty(p, r.Last(), e);
    r := QuickBatch(p, r, 0, p.k, e, 0);
    r := WaitIdle(p, r, p.k, p.Span() - 2.0 * e);
    var w := r.Last();
    r := LateBatch(p, r, p.k, to, 2.0 * p.Span() + e);
    Joined(w, r.Last(), 0, p.k, 2 * p.k, 0.0, w.now, to);
    ManyAdmissions(p, r, 0, 2 * p.k, 0.0, to);
  }

  // ----- the bounds are exact -----

  /** Checks of this limiter, never more than k at once, on a Redis that keeps no empty set. */
  ghost predicate Overlaps(l: Limiter, k: nat, r: Run) {
    r.Valid() && r.l == l && NoEmptySet(l, r.states[0]) && r.AtMostActive(|r.ops|, k)
  }

  lemma MostAreAdmitted(l: Limiter, k: nat) returns (r: Run, to: real)
    requires k >= 1 && MostAdmitted(l.quota, k) > 0
    ensures Overlaps(l, k, r) && r.Admitted(to) >= MostAdmitted(l.quota, k)
  {
    var p := Plan(l, k, (l.quota.window * 3) as real);
    if l.quota.Effective() == 1 {
      r, to := LateChecksExceed(p);
    } else {
      r, to := SlowChecksExceed(p);
    }
  }

  /** Main result on overlapping checks, over all runs: a number bounds the admissions of every window
      exactly when it is at least 0 for a limit of 0, 2k for a limit of 1, and limit + 3k - 1 for any
      greater limit, with k checks under way at once. */
  lemma OverlapBoundIsExact(l: Limiter, k: nat, bound: nat)
    requires k >= 1
    ensures (forall r: Run, to: real {:trigger r.Admitted(to)} :: Overlaps(l, k, r) ==> r.Admitted(to) <= bound)
       <==> MostAdmitted(l.quota, k) <= bound
  {
    if MostAdmitted(l.quota, k) <= bound {
      forall r: Run, to: real {:trigger r.Admitted(to)} | Overlaps(l, k, r)
        ensures r.Admitted(to) <= bound
      {
        AnyWindowOverlapBound(r, |r.ops|, k, to);
      }
    } else {
      var r, to := MostAreAdmitted(l, k);
    }
  }
}
