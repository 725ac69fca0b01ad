/** Whole rate-limit checks that overlap: each reads its own clock first, and time passes, and other
    checks get in, between any two of its Redis calls. */
module OverlappingChecks {
  import R = RateLimiting
  import opened Redis

  datatype Phase = Started | Pruned | Cleared | Added | Complete | Ended

  /** A check and the clock value it read. `Complete` is an admission, `Ended` a refusal or a failure. */
  datatype Checking = Checking(at: real, phase: Phase) {
    predicate Active() { !phase.Complete? && !phase.Ended? }

    /** Past the comparison, and not failed since. */
    predicate Counted() { phase.Cleared? || phase.Added? || phase.Complete? }
  }

  datatype World = World(windows: R.Windows, now: real, checks: map<nat, Checking>)

  /** A call that raises without effect is `Fail`. One that raises with its effect is the call and then
      `Fail`, or for EXPIRE a lost reply. */
  datatype Op =
    | Tick(later: real)
    | Start(id: nat)
    | Prune(id: nat)
    | Count(id: nat)
    | Add(id: nat)
    | SetExpiry(id: nat, lost: bool)
    | Fail(id: nat)

  datatype Limiter = Limiter(key: string, quota: R.Quota) {

    predicate Enabled(w: World, op: Op) {
      match op
      case Tick(later) => w.now <= later
      case Start(id) => id !in w.checks
      case Prune(id) => id in w.checks && w.checks[id].phase.Started?
      case Count(id) => id in w.checks && w.checks[id].phase.Pruned?
      case Add(id) => id in w.checks && w.checks[id].phase.Cleared?
      case SetExpiry(id, _) => id in w.checks && w.checks[id].phase.Added?
      case Fail(id) => id in w.checks && w.checks[id].Active()
    }

    function Apply(w: World, op: Op): World
      requires Enabled(w, op)
    {
      match op
      case Tick(later) => w.(now := later)
      case Start(id) => w.(checks := w.checks[id := Checking(w.now, Started)])
      case Prune(id) =>
        var c := w.checks[id];
        w.(windows := R.Prune(w.windows, key, c.at - quota.window as real, w.now),
            checks := w.checks[id := c.(phase := Pruned)])
      case Count(id) =>
        var below := |Held(w)| < quota.Effective();
        w.(checks := w.checks[id := w.checks[id].(phase := if below then Cleared else Ended)])
      case Add(id) =>
        var c := w.checks[id];
        w.(windows := AddMember(w.windows, key, c.at, w.now), checks := w.checks[id := c.(phase := Added)])
      case SetExpiry(id, lost) =>
        w.(windows := Expire(w.windows, key, quota.window * 2, w.now),
           checks := w.checks[id := w.checks[id].(phase := if lost then Ended else Complete)])
      case Fail(id) => w.(checks := w.checks[id := w.checks[id].(phase := Ended)])
    }

    function Held(w: World): set<real> {
      Members(w.windows, key, w.now)
    }
  }

  /** A check that has pruned goes through its other calls with no other check in between and no time passing,
      up to the first call that raises. */
  function Decided(l: Limiter, w: World, id: nat, f: R.Faults): World
    requires id in w.checks && w.checks[id].phase.Pruned?
  {
    var counted := l.Apply(w, Count(id));
    if counted.checks[id].phase.Ended? then counted
    else
      var added := if f.add.Applied() then l.Apply(counted, Add(id)) else counted;
      if f.add.Raised() || f.expire.Refused? then l.Apply(added, Fail(id))
      else l.Apply(added, SetExpiry(id, f.expire.LostReply?))
  }

  /** And so does a whole check. */
  function Undisturbed(l: Limiter, w: World, id: nat, f: R.Faults): World
    requires id !in w.checks
  {
    var started := l.Apply(w, Start(id));
    var pruned := if f.prune.Applied() then l.Apply(started, Prune(id)) else started;
    if f.prune.Raised() || f.count.Raised() then l.Apply(pruned, Fail(id)) else Decided(l, pruned, id, f)
  }

  lemma DecidedIsDecide(l: Limiter, w: World, id: nat, f: R.Faults)
    requires id in w.checks && w.checks[id] == Checking(w.now, Pruned)
    ensures
      var (outcome, windows) := R.Decide(w.windows, l.key, l.quota, w.now, f);
      Decided(l, w, id, f)
        == World(windows, w.now, w.checks[id := Checking(w.now, if outcome.Admitted? then Complete else Ended)])
  {
    var last := Decided(l, w, id, f);
    assert last.checks == w.checks[id := last.checks[id]];
  }

  /** Such a check is one of the serial model: the same window is left, and it is an admission there exactly if
      it is one here. */
  lemma UndisturbedIsCheck(l: Limiter, w: World, id: nat, f: R.Faults)
    requires id !in w.checks && f.handle.Connected?
    ensures
      var (outcome, windows) := R.Check(true, w.windows, l.key, l.quota, w.now, f);
      Undisturbed(l, w, id, f)
        == World(windows, w.now, w.checks[id := Checking(w.now, if outcome.Admitted? then Complete else Ended)])
  {
    var windows := if f.prune.Applied() then R.Prune(w.windows, l.key, w.now - l.quota.window as real, w.now)
                   else w.windows;
    if f.prune.Raised() || f.count.Raised() {
      assert Undisturbed(l, w, id, f).checks == w.checks[id := Checking(w.now, Ended)];
    } else {
      var pruned := World(windows, w.now, w.checks[id := Checking(w.now, Pruned)]);
      assert l.Apply(l.Apply(w, Start(id)), Prune(id)).checks == pruned.checks;
      DecidedIsDecide(l, pruned, id, f);
      var c := Decided(l, pruned, id, f).checks[id];
      assert pruned.checks[id := c] == w.checks[id := c];
    }
  }

  function Active(w: World): set<nat> {
    set id | id in w.checks && w.checks[id].Active()
  }

  /** At most k checks are under way, none of them later than d seconds after its clock reading. */
  ghost predicate Tame(w: World, k: nat, d: real) {
    |Active(w)| <= k && forall id :: id in Active(w) ==> w.now <= w.checks[id].at + d
  }

  datatype Run = Run(l: Limiter, ops: seq<Op>, states: seq<World>) {
    ghost predicate Stepped(i: nat)
      requires i < |ops| && |states| == |ops| + 1
    {
      l.Enabled(states[i], ops[i]) && states[i + 1] == l.Apply(states[i], ops[i])
    }

    /** From any key space, on a clock that starts at zero or later. */
    ghost predicate Valid() {
      && |states| == |ops| + 1 && states[0].checks == map[] && states[0].now >= 0.0
      && forall i: nat {:trigger Stepped(i)} :: i < |ops| ==> Stepped(i)
    }

    /** Never more than k checks are under way at once, up to state n. */
    ghost predicate AtMostActive(n: nat, k: nat)
      requires n < |states|
    {
      forall i :: 0 <= i <= n ==> |Active(states[i])| <= k
    }

    ghost predicate AlwaysTame(k: nat, d: real) {
      forall i :: 0 <= i < |states| ==> Tame(states[i], k, d)
    }

    ghost function Last(): World
      requires states != []
    {
      states[|states| - 1]
    }

    /** How many clock values of admitted checks lie in the window that ends at `to`. */
    ghost function Admitted(to: real): nat
      requires states != []
    {
      |Window(l, to).Admissions(Last())|
    }
  }

  /** As in Redis, where a sorted set that has become empty is gone. */
  ghost predicate NoEmptySet(l: Limiter, w: World) {
    l.key in w.windows ==> w.windows[l.key].value != {}
  }

  lemma StepKeepsNoEmptySet(l: Limiter, w: World, op: Op)
    requires NoEmptySet(l, w) && l.Enabled(w, op)
    ensures NoEmptySet(l, l.Apply(w, op))
  {
    var gone := if op.Prune? then R.Stale(l.Held(w), w.checks[op.id].at - l.quota.window as real) else {};
    if op.Add? {
      assert w.checks[op.id].at in l.Apply(w, op).windows[l.key].value;
    } else if op.Prune? && !(l.Held(w) <= gone) {
      var t :| t in l.Held(w) && t !in gone;
      assert t in l.Apply(w, op).windows[l.key].value;
    }
  }

  /** One window (to - window, to]. */
  datatype Window = Window(l: Limiter, to: real) {
    predicate Contains(t: real) { to - l.quota.window as real < t <= to }

    function Ids(w: World): set<nat> {
      set id | id in w.checks && w.checks[id].Counted() && Contains(w.checks[id].at)
    }

    function Instants(w: World): set<real> {
      InstantsOf(w, Ids(w))
    }

    /** The clock values of the checks that were admitted. */
    function Admissions(w: World): set<real> {
      set id | id in w.checks && w.checks[id].phase.Complete? && Contains(w.checks[id].at) :: w.checks[id].at
    }

    // ----- up to the end of the window -----

    /** The key will not expire within the window any more, unless it is gone already. */
    predicate Lasting(w: World) {
      Lookup(w.windows, l.key, w.now).Some? && w.windows[l.key].expiresAt.Some? ==>
          to < w.windows[l.key].expiresAt.value
    }

    /** Every counted check of the window is still to add its instant, holds it in the set, or lost it
        when the key expired before the check could set a new expiry. */
    ghost predicate Kept(w: World, lost: set<nat>) {
      && (forall id :: id in Ids(w) ==> w.checks[id].phase.Cleared? || w.checks[id].at in l.Held(w) || id in lost)
      && (forall id :: id in Ids(w) && w.checks[id].phase.Complete? && id !in lost ==> Lasting(w))
      && (lost != {} ==> Lasting(w) && to - l.quota.window as real < w.now)
    }
  }

  function InstantsOf(w: World, ids: set<nat>): set<real> {
    set id | id in ids && id in w.checks :: w.checks[id].at
  }

  lemma {:induction false} NoMoreInstants(w: World, ids: set<nat>)
    ensures |InstantsOf(w, ids)| <= |ids|
  {
    if ids != {} {
      var id :| id in ids;
      NoMoreInstants(w, ids - {id});
      var fewer := InstantsOf(w, ids - {id});
      assert InstantsOf(w, ids) == if id in w.checks then fewer + {w.checks[id].at} else fewer;
    }
  }

  /** Clock readings are never ahead of the clock. */
  ghost predicate Read(w: World) {
    w.now >= 0.0 && forall id :: id in w.checks ==> 0.0 <= w.checks[id].at <= w.now
  }

  lemma StepKeepsRead(l: Limiter, w: World, op: Op)
    requires Read(w) && l.Enabled(w, op)
    ensures Read(l.Apply(w, op))
  {
  }

  /** No check of the window is pruned before the window ends. */
  lemma PruneKeeps(v: Window, w: World, id: nat, lost: set<nat>)
    requires Read(w) && v.Kept(w, lost) && w.now <= v.to && v.l.Enabled(w, Prune(id))
    ensures v.Kept(v.l.Apply(w, Prune(id)), lost)
  {
    var w' := v.l.Apply(w, Prune(id));
    forall t | t in v.l.Held(w) && v.Contains(t)
      ensures t in v.l.Held(w')
    {
    }
  }

  lemma AddKeeps(v: Window, w: World, id: nat, lost: set<nat>)
    requires Read(w) && v.Kept(w, lost) && w.now <= v.to && v.l.Enabled(w, Add(id))
    ensures v.Kept(v.l.Apply(w, Add(id)), lost)
  {
    var w' := v.l.Apply(w, Add(id));
    assert v.l.Held(w') == v.l.Held(w) + {w.checks[id].at};
    assert v.Lasting(w) ==> v.Lasting(w');
  }

  lemma ExpiryKeeps(v: Window, w: World, id: nat, lost: bool, gone: set<nat>)
    requires Read(w) && v.Kept(w, gone) && w.now <= v.to && v.l.Enabled(w, SetExpiry(id, lost)) && v.l.quota.window > 0
    ensures v.Kept(v.l.Apply(w, SetExpiry(id, lost)), gone)
  {
    var w' := v.l.Apply(w, SetExpiry(id, lost));
    assert v.l.Held(w') == v.l.Held(w);
    if v.to - v.l.quota.window as real < w.now {
      assert v.Lasting(w');
    }
  }

  lemma OtherKeeps(v: Window, w: World, op: Op, lost: set<nat>)
    requires Read(w) && v.Kept(w, lost) && v.l.Enabled(w, op) && (op.Start? || op.Count? || op.Fail?)
    ensures v.Kept(v.l.Apply(w, op), lost)
  {
  }

  /** Only passing time loses members, once at most within the window, and only those of checks that are
      still under way. */
  lemma TickKeeps(v: Window, w: World, later: real, lost: set<nat>) returns (lost': set<nat>)
    requires Read(w) && v.Kept(w, lost) && w.now <= later <= v.to
    ensures v.Kept(v.l.Apply(w, Tick(later)), lost') && lost <= lost'
    ensures lost' == lost || lost' <= Active(w)
    ensures v.Ids(w) == {} || v.Lasting(w) ==> lost' == lost
  {
    var w' := v.l.Apply(w, Tick(later));
    lost' := lost;
    if v.l.Held(w') != v.l.Held(w) {
      assert Lookup(w.windows, v.l.key, w.now).Some? && !v.Lasting(w);
      assert lost == {};
      lost' := set id | id in v.Ids(w) && w.checks[id].phase.Added?;
      if lost' == {} {
        forall id | id in v.Ids(w)
          ensures w.checks[id].phase.Cleared?
        {
          assert id !in lost' && (w.checks[id].phase.Complete? ==> id !in lost);
        }
      } else {
        var id :| id in lost';
        assert v.Contains(w.checks[id].at);
      }
    }
  }

  // ----- how many instants there are -----

  ghost predicate Within(v: Window, w: World, lost: set<nat>, k: nat) {
    Read(w) && v.Kept(w, lost) && |lost| <= k && |v.Instants(w)| <= v.l.quota.Cap() + k - 1 + |lost|
  }

  function ClearedIds(v: Window, w: World): set<nat> {
    set id | id in v.Ids(w) && w.checks[id].phase.Cleared?
  }

  /** At the comparison: what is counted of the window is held, or still to be added, or lost. */
  lemma InstantsAreHeld(v: Window, w: World, lost: set<nat>)
    requires v.Kept(w, lost)
    ensures v.Instants(w) <= v.l.Held(w) + InstantsOf(w, ClearedIds(v, w)) + InstantsOf(w, lost)
  {
    forall id | id in v.Ids(w)
      ensures w.checks[id].at in v.l.Held(w) + InstantsOf(w, ClearedIds(v, w)) + InstantsOf(w, lost)
    {
      assert id in ClearedIds(v, w) || w.checks[id].at in v.l.Held(w) || id in lost;
    }
  }

  lemma UnionSize<T>(a: set<T>, b: set<T>, c: set<T>, d: set<T>)
    requires a <= b + c + d
    ensures |a| <= |b| + |c| + |d|
  {
    SubsetSize(a, b + c + d);
    assert |b + c| <= |b| + |c| && |b + c + d| <= |b + c| + |d|;
  }

  lemma CountKeepsBound(v: Window, w: World, id: nat, lost: set<nat>, k: nat)
    requires Within(v, w, lost, k) && v.l.Enabled(w, Count(id))
    requires |Active(v.l.Apply(w, Count(id)))| <= k
    ensures Within(v, v.l.Apply(w, Count(id)), lost, k)
  {
    var w' := v.l.Apply(w, Count(id));
    OtherKeeps(v, w, Count(id), lost);
    StepKeepsRead(v.l, w, Count(id));
    if w'.checks[id].phase.Cleared? {
      InstantsAreHeld(v, w', lost);
      UnionSize(v.Instants(w'), v.l.Held(w'), InstantsOf(w', ClearedIds(v, w')), InstantsOf(w', lost));
      NoMoreInstants(w', ClearedIds(v, w'));
      NoMoreInstants(w', lost);
      SubsetSize(ClearedIds(v, w'), Active(w'));
    } else {
      FewerInstants(v, w, w');
    }
  }

  lemma FewerInstants(v: Window, w: World, w': World)
    requires forall id :: id in v.Ids(w') ==> id in v.Ids(w) && w'.checks[id].at == w.checks[id].at
    ensures |v.Instants(w')| <= |v.Instants(w)|
  {
    assert v.Instants(w') <= v.Instants(w);
    SubsetSize(v.Instants(w'), v.Instants(w));
  }

  lemma StepKeepsWithin(v: Window, w: World, op: Op, lost: set<nat>, k: nat) returns (lost': set<nat>)
    requires Within(v, w, lost, k) && v.l.Enabled(w, op) && v.l.quota.window > 0
    requires v.l.Apply(w, op).now <= v.to && |Active(w)| <= k && |Active(v.l.Apply(w, op))| <= k
    ensures Within(v, v.l.Apply(w, op), lost', k)
    ensures lost' == lost || (op.Tick? && lost' <= Active(w))
    ensures v.Ids(w) == {} || v.Lasting(w) ==> lost' == lost
  {
    var w' := v.l.Apply(w, op);
    lost' := lost;
    StepKeepsRead(v.l, w, op);
    match op {
      case Count(id) => CountKeepsBound(v, w, id, lost, k);
      case Tick(later) =>
        lost' := TickKeeps(v, w, later, lost);
        SubsetSize(lost, lost');
        if lost' != lost {
          SubsetSize(lost', Active(w));
        }
        FewerInstants(v, w, w');
      case Prune(id) => PruneKeeps(v, w, id, lost); FewerInstants(v, w, w');
      case Add(id) => AddKeeps(v, w, id, lost); FewerInstants(v, w, w');
      case SetExpiry(id, late) => ExpiryKeeps(v, w, id, late, lost); FewerInstants(v, w, w');
      case _ => OtherKeeps(v, w, op, lost); FewerInstants(v, w, w');
    }
  }

  lemma {:induction false} TimePasses(r: Run, i: nat, n: nat)
    requires r.Valid() && i <= n <= |r.ops|
    ensures r.states[i].now <= r.states[n].now
  {
    if i < n {
      TimePasses(r, i, n - 1);
      assert r.Stepped(n - 1);
    }
  }

  lemma {:induction false} WithinUntilEnd(r: Run, v: Window, n: nat, k: nat) returns (lost: set<nat>)
    requires r.Valid() && n <= |r.ops| && v.l == r.l && r.l.quota.window > 0
    requires k >= 1 && r.AtMostActive(n, k) && r.states[n].now <= v.to
    ensures Within(v, r.states[n], lost, k)
  {
    lost := {};
    if n > 0 {
      assert r.Stepped(n - 1);
      TimePasses(r, n - 1, n);
      lost := WithinUntilEnd(r, v, n - 1, k);
      lost := StepKeepsWithin(v, r.states[n - 1], r.ops[n - 1], lost, k);
    } else {
      assert v.Instants(r.states[0]) == {};
    }
  }

  // ----- after the end of the window -----

  /** What the checks known when the window ended have become. */
  ghost predicate Outlived(v: Window, early: World, w: World) {
    forall id :: id in w.checks && v.Contains(w.checks[id].at) ==>
      && id in early.checks && early.checks[id].at == w.checks[id].at
      && (early.checks[id].Active() || early.checks[id] == w.checks[id])
  }

  lemma {:induction false} OutlivesEnd(r: Run, v: Window, m: nat, n: nat)
    requires r.Valid() && m <= n <= |r.ops| && v.l == r.l
    requires m < n ==> v.to < r.states[m + 1].now
    ensures Outlived(v, r.states[m], r.states[n])
  {
    if m < n {
      assert r.Stepped(n - 1);
      OutlivesEnd(r, v, m, n - 1);
      if m < n - 1 {
        TimePasses(r, m + 1, n - 1);
      }
    }
  }

  lemma LateAreActive(v: Window, early: World, w: World)
    requires Outlived(v, early, w)
    ensures |v.Instants(w)| <= |v.Instants(early)| + |Active(early)|
  {
    forall id | id in v.Ids(w)
      ensures w.checks[id].at in v.Instants(early) + InstantsOf(early, Active(early)) + {}
    {
      assert id in v.Ids(early) || id in Active(early);
    }
    UnionSize(v.Instants(w), v.Instants(early), InstantsOf(early, Active(early)), {});
    NoMoreInstants(early, Active(early));
  }

  /** The last state within the window's time, if the run began in time. */
  lemma {:induction false} LastWithin(r: Run, v: Window, n: nat) returns (m: nat)
    requires r.Valid() && n <= |r.ops| && r.states[0].now <= v.to
    ensures m <= n && r.states[m].now <= v.to && (m < n ==> v.to < r.states[m + 1].now)
  {
    m := n;
    if v.to < r.states[n].now {
      m := LastWithin(r, v, n - 1);
    }
  }

  lemma {:induction false} NothingBefore(r: Run, v: Window, n: nat)
    requires r.Valid() && n <= |r.ops| && v.to < r.states[0].now
    ensures forall id :: id in r.states[n].checks ==> v.to < r.states[n].checks[id].at
  {
    if n > 0 {
      NothingBefore(r, v, n - 1);
      assert r.Stepped(n - 1);
      TimePasses(r, 0, n - 1);
    }
  }

  // ----- a limit of zero, and a limit of one -----

  lemma {:induction false} NoneCounted(r: Run, n: nat)
    requires r.Valid() && n <= |r.ops| && r.l.quota.Effective() <= 0
    ensures forall id :: id in r.states[n].checks ==> !r.states[n].checks[id].Counted()
  {
    if n > 0 {
      assert r.Stepped(n - 1);
      NoneCounted(r, n - 1);
    }
  }

  /** With a limit of one a check is counted only when the key is missing or expired, so that the key it
      creates has no expiry from before. */
  ghost predicate Firm(v: Window, w: World) {
    NoEmptySet(v.l, w) && (v.Ids(w) != {} ==> v.Lasting(w))
  }

  lemma StepKeepsFirm(v: Window, w: World, op: Op)
    requires Read(w) && Firm(v, w) && v.l.Enabled(w, op) && v.l.quota.window > 0 && v.l.quota.Effective() == 1
    requires v.l.Apply(w, op).now <= v.to
    ensures Firm(v, v.l.Apply(w, op))
  {
    var w' := v.l.Apply(w, op);
    StepKeepsNoEmptySet(v.l, w, op);
    if v.Ids(w') != {} {
      var id :| id in v.Ids(w');
      if op.Count? && id == op.id {
        assert v.l.Held(w) == {};
        assert Lookup(w.windows, v.l.key, w.now).None?;
      } else {
        assert id in v.Ids(w);
        assert v.to - v.l.quota.window as real < w.now;
      }
    }
  }

  lemma {:induction false} FirmUntilEnd(r: Run, v: Window, n: nat, k: nat)
    requires r.Valid() && n <= |r.ops| && v.l == r.l && r.l.quota.window > 0 && r.l.quota.Effective() == 1
    requires k >= 1 && r.AtMostActive(n, k) && r.states[n].now <= v.to && NoEmptySet(r.l, r.states[0])
    ensures Within(v, r.states[n], {}, k) && Firm(v, r.states[n])
  {
    if n > 0 {
      assert r.Stepped(n - 1);
      TimePasses(r, n - 1, n);
      FirmUntilEnd(r, v, n - 1, k);
      var lost := StepKeepsWithin(v, r.states[n - 1], r.ops[n - 1], {}, k);
      StepKeepsFirm(v, r.states[n - 1], r.ops[n - 1]);
    } else {
      assert v.Instants(r.states[0]) == {};
    }
  }

  /** The most that k overlapping checks can bring into one window. */
  function MostAdmitted(q: R.Quota, k: nat): int {
    if q.window <= 0 || q.Effective() <= 0 then 0
    else if q.Effective() == 1 then 2 * k
    else q.Effective() + 3 * k - 1
  }

  /** Main bound. However whole checks overlap, whatever time passes between their calls and whatever
      call fails, every window (T - w, T] holds at most limit + 3k - 1 admission instants, where k bounds
      the checks under way at once: up to k can lose their member when the key expires before they set
      its new expiry, limit + k - 1 can be counted by the end of the window, and up to k that read the
      clock in time can be counted later, when the window has been pruned away. With a limit of 1 no
      member is lost. */
  lemma AnyWindowOverlapBound(r: Run, n: nat, k: nat, to: real)
    requires r.Valid() && n <= |r.ops| && k >= 1 && r.AtMostActive(n, k)
    ensures |Window(r.l, to).Admissions(r.states[n])| <= r.l.quota.Cap() + 3 * k - 1
    ensures NoEmptySet(r.l, r.states[0]) ==>
        |Window(r.l, to).Admissions(r.states[n])| <= MostAdmitted(r.l.quota, k)
  {
    var v := Window(r.l, to);
    assert v.Admissions(r.states[n]) <= v.Instants(r.states[n]);
    SubsetSize(v.Admissions(r.states[n]), v.Instants(r.states[n]));
    if r.l.quota.window <= 0 {
      assert v.Instants(r.states[n]) == {};
    } else if r.l.quota.Effective() <= 0 {
      NoneCounted(r, n);
      assert v.Instants(r.states[n]) == {};
    } else if to < r.states[0].now {
      NothingBefore(r, v, n);
      assert v.Instants(r.states[n]) == {};
    } else {
      var m := LastWithin(r, v, n);
      var lost := WithinUntilEnd(r, v, m, k);
      OutlivesEnd(r, v, m, n);
      LateAreActive(v, r.states[m], r.states[n]);
      if r.l.quota.Effective() == 1 && NoEmptySet(r.l, r.states[0]) {
        FirmUntilEnd(r, v, m, k);
      }
    }
  }
}
