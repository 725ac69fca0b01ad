/** Rate-limit checks one at a time, each with a bound on how long after its clock reading it is over:
    when the limit holds. */
module SingleChecks {
  import opened OverlappingChecks
  import opened OverlapRuns
  import opened Redis

  /** One check at a time, each over at most d seconds after its clock reading. */
  ghost predicate OneAtATime(l: Limiter, d: real, r: Run) {
    r.Valid() && r.l == l && NoEmptySet(l, r.states[0]) && r.AlwaysTame(1, d)
  }

  // ----- checks in no time -----

  /** Time only passes when no check is under way. */
  lemma TimePassesIdle(w: World, later: real, d: real)
    requires Read(w) && Tame(w.(now := later), 1, d) && d <= 0.0
    ensures Active(w) == {} || later <= w.now
  {
    if Active(w) != {} {
      var id :| id in Active(w);
      assert id in Active(w.(now := later));
    }
  }

  lemma {:induction false} NoneLostInNoTime(r: Run, v: Window, n: nat, d: real)
    requires OneAtATime(v.l, d, r) && d <= 0.0 && n <= |r.ops| && v.l.quota.window > 0 && r.states[n].now <= v.to
    ensures Within(v, r.states[n], {}, 1)
  {
    if n > 0 {
      var w, op := r.states[n - 1], r.ops[n - 1];
      assert r.Stepped(n - 1);
      TimePasses(r, n - 1, n);
      NoneLostInNoTime(r, v, n - 1, d);
      assert Tame(w, 1, d) && Tame(r.states[n], 1, d);
      var lost := StepKeepsWithin(v, w, op, {}, 1);
      if op.Tick? {
        TimePassesIdle(w, op.later, d);
      }
    } else {
      assert v.Instants(r.states[0]) == {};
    }
  }

  lemma LimitInNoTime(r: Run, v: Window, d: real)
    requires OneAtATime(v.l, d, r) && d <= 0.0 && v.l.quota.window > 0
    ensures |v.Instants(r.Last())| <= v.l.quota.Cap()
  {
    var n := |r.ops|;
    if v.to < r.states[0].now {
      NothingBefore(r, v, n);
      assert v.Instants(r.Last()) == {};
    } else {
      var m := LastWithin(r, v, n);
      NoneLostInNoTime(r, v, m, d);
      if m < n {
        assert r.Stepped(m) && Tame(r.states[m + 1], 1, d);
        TimePassesIdle(r.states[m], r.ops[m].later, d);
        OutlivesEnd(r, v, m, n);
        LateAreActive(v, r.states[m], r.states[n]);
      }
    }
  }

  // ----- a limit of one -----

  /** A check of the window may still be counted. */
  ghost predicate InPlay(v: Window, w: World) {
    w.now <= v.to || exists id :: id in Active(w) && w.checks[id].at <= v.to
  }

  /** The member outlasts every check of the window. */
  ghost predicate Guards(v: Window, w: World, t: real) {
    && t in v.l.Held(w)
    && (w.windows[v.l.key].expiresAt.Some? ==>
          v.to + v.l.quota.window as real < w.windows[v.l.key].expiresAt.value)
  }

  /** With a limit of 1 at most one check of the window is counted: it finds no key, so that the key it
      creates has no expiry until it sets one, and then stays for as long as the window is in play. */
  ghost predicate OnlyOne(v: Window, w: World) {
    && Read(w) && NoEmptySet(v.l, w)
    && (forall id :: id in Active(w) && w.checks[id].phase.Cleared? ==> Lookup(w.windows, v.l.key, w.now).None?)
    && (forall id :: id in Active(w) && w.checks[id].phase.Added? ==>
          w.checks[id].at in v.l.Held(w) && w.windows[v.l.key].expiresAt.None?)
    && (forall i, j :: i in v.Ids(w) && j in v.Ids(w) ==> i == j)
    && (InPlay(v, w) ==> forall id :: id in v.Ids(w) && w.checks[id].phase.Complete? ==> Guards(v, w, w.checks[id].at))
  }

  lemma AtMostOne(w: World, i: nat, j: nat)
    requires |Active(w)| <= 1 && i in Active(w) && j in Active(w)
    ensures i == j
  {
    if i != j {
      SubsetSize({i, j}, Active(w));
    }
  }

  /** Once it is over for the window, it stays over. */
  lemma InPlayBefore(v: Window, w: World, op: Op)
    requires Read(w) && v.l.Enabled(w, op) && InPlay(v, v.l.Apply(w, op))
    ensures InPlay(v, w)
  {
    var w' := v.l.Apply(w, op);
    if v.to < w.now {
      var id :| id in Active(w') && w'.checks[id].at <= v.to;
      assert id in Active(w) && w.checks[id].at <= v.to;
    }
  }

  lemma TickKeepsOne(v: Window, w: World, later: real, d: real)
    requires OnlyOne(v, w) && w.now <= later && Tame(w.(now := later), 1, d) && d <= v.l.quota.window as real
    requires v.l.quota.window > 0
    ensures OnlyOne(v, w.(now := later))
  {
    var w' := w.(now := later);
    assert Active(w') == Active(w) && v.Ids(w') == v.Ids(w);
    if InPlay(v, w') {
      InPlayBefore(v, w, Tick(later));
      assert later <= v.to + v.l.quota.window as real;
    }
  }

  lemma PruneKeepsOne(v: Window, w: World, id: nat)
    requires OnlyOne(v, w) && v.l.Enabled(w, Prune(id)) && |Active(w)| <= 1
    ensures OnlyOne(v, v.l.Apply(w, Prune(id)))
  {
    var w' := v.l.Apply(w, Prune(id));
    StepKeepsNoEmptySet(v.l, w, Prune(id));
    forall i | i in Active(w')
      ensures i == id
    {
      AtMostOne(w, i, id);
    }
    assert v.Ids(w') == v.Ids(w);
    if InPlay(v, w') {
      InPlayBefore(v, w, Prune(id));
      assert w.checks[id].at <= v.to;
    }
  }

  lemma CountKeepsOne(v: Window, w: World, id: nat)
    requires OnlyOne(v, w) && v.l.Enabled(w, Count(id)) && |Active(w)| <= 1 && v.l.quota.Effective() == 1
    ensures OnlyOne(v, v.l.Apply(w, Count(id)))
  {
    var w' := v.l.Apply(w, Count(id));
    forall i | i in Active(w)
      ensures i == id
    {
      AtMostOne(w, i, id);
    }
    if id in v.Ids(w') {
      assert v.l.Held(w) == {} && InPlay(v, w);
      forall i | i in v.Ids(w')
        ensures i == id
      {
        assert i != id ==> i in v.Ids(w) && i !in Active(w);
      }
    } else {
      assert v.Ids(w') <= v.Ids(w);
    }
    if InPlay(v, w') {
      InPlayBefore(v, w, Count(id));
    }
  }

  lemma AddKeepsOne(v: Window, w: World, id: nat)
    requires OnlyOne(v, w) && v.l.Enabled(w, Add(id)) && |Active(w)| <= 1
    ensures OnlyOne(v, v.l.Apply(w, Add(id)))
  {
    var w' := v.l.Apply(w, Add(id));
    StepKeepsNoEmptySet(v.l, w, Add(id));
    forall i | i in Active(w')
      ensures i == id
    {
      AtMostOne(w, i, id);
    }
    assert id in Active(w) && v.l.Held(w) == {} && v.Ids(w') == v.Ids(w);
    if InPlay(v, w') {
      InPlayBefore(v, w, Add(id));
    }
  }

  lemma ExpiryKeepsOne(v: Window, w: World, id: nat, lost: bool)
    requires OnlyOne(v, w) && v.l.Enabled(w, SetExpiry(id, lost)) && |Active(w)| <= 1 && v.l.quota.window > 0
    ensures OnlyOne(v, v.l.Apply(w, SetExpiry(id, lost)))
  {
    var w' := v.l.Apply(w, SetExpiry(id, lost));
    forall i | i in Active(w')
      ensures false
    {
      AtMostOne(w, i, id);
    }
    assert id in Active(w) && v.l.Held(w') == v.l.Held(w) && v.Ids(w') <= v.Ids(w);
    if InPlay(v, w') {
      InPlayBefore(v, w, SetExpiry(id, lost));
      forall i | i in v.Ids(w') && w'.checks[i].phase.Complete?
        ensures Guards(v, w', w'.checks[i].at)
      {
        assert i in v.Ids(w);
      }
    }
  }

  lemma OtherKeepsOne(v: Window, w: World, op: Op)
    requires OnlyOne(v, w) && v.l.Enabled(w, op) && (op.Start? || op.Fail?)
    ensures OnlyOne(v, v.l.Apply(w, op))
  {
    var w' := v.l.Apply(w, op);
    assert v.Ids(w') <= v.Ids(w);
    if InPlay(v, w') {
      InPlayBefore(v, w, op);
    }
  }

  lemma StepKeepsOne(v: Window, w: World, op: Op, d: real)
    requires OnlyOne(v, w) && v.l.Enabled(w, op) && Tame(w, 1, d) && Tame(v.l.Apply(w, op), 1, d)
    requires v.l.quota.window > 0 && v.l.quota.Effective() == 1 && d <= v.l.quota.window as real
    ensures OnlyOne(v, v.l.Apply(w, op))
  {
    match op
    case Tick(later) => TickKeepsOne(v, w, later, d);
    case Prune(id) => PruneKeepsOne(v, w, id);
    case Count(id) => CountKeepsOne(v, w, id);
    case Add(id) => AddKeepsOne(v, w, id);
    case SetExpiry(id, lost) => ExpiryKeepsOne(v, w, id, lost);
    case _ => OtherKeepsOne(v, w, op);
  }

  lemma {:induction false} OneAdmission(r: Run, v: Window, n: nat, d: real)
    requires OneAtATime(v.l, d, r) && n <= |r.ops|
    requires v.l.quota.window > 0 && v.l.quota.Effective() == 1 && d <= v.l.quota.window as real
    ensures OnlyOne(v, r.states[n])
  {
    if n > 0 {
      OneAdmission(r, v, n - 1, d);
      assert r.Stepped(n - 1) && Tame(r.states[n - 1], 1, d) && Tame(r.states[n], 1, d);
      StepKeepsOne(v, r.states[n - 1], r.ops[n - 1], d);
    }
  }

  lemma OneInstant(v: Window, w: World)
    requires OnlyOne(v, w)
    ensures |v.Instants(w)| <= 1
  {
    if v.Ids(w) != {} {
      var id :| id in v.Ids(w);
      assert v.Ids(w) == {id};
      NoMoreInstants(w, {id});
    } else {
      NoMoreInstants(w, {});
    }
  }

  // ----- when the limit holds -----

  /** Main result on single checks, over all runs: with one check under way at a time, each over at most
      d seconds after its clock reading, no window holds more admissions than the limit if and only if
      the window is empty, or the limit is 0, or the checks take no time, or the limit is 1 and none
      takes longer than the window. For a limit of 2 or more a key that expires between a check's ZADD
      and its EXPIRE takes the member with it, however quick the checks are. */
  lemma SingleChecksKeepLimitIff(l: Limiter, d: real)
    ensures (forall r: Run, to: real {:trigger r.Admitted(to)} ::
               OneAtATime(l, d, r) ==> r.Admitted(to) <= l.quota.Cap())
       <==> l.quota.window <= 0 || l.quota.Effective() <= 0 || d <= 0.0
            || (l.quota.Effective() == 1 && d <= l.quota.window as real)
  {
    if l.quota.window <= 0 || l.quota.Effective() <= 0 || d <= 0.0
       || (l.quota.Effective() == 1 && d <= l.quota.window as real)
    {
      forall r: Run, to: real {:trigger r.Admitted(to)} | OneAtATime(l, d, r)
        ensures r.Admitted(to) <= l.quota.Cap()
      {
        LimitIsKept(r, l, d, to);
      }
    } else {
      var r, to := SingleCheckExceeds(l, d);
    }
  }

  lemma LimitIsKept(r: Run, l: Limiter, d: real, to: real)
    requires OneAtATime(l, d, r)
    requires l.quota.window <= 0 || l.quota.Effective() <= 0 || d <= 0.0
          || (l.quota.Effective() == 1 && d <= l.quota.window as real)
    ensures r.Admitted(to) <= l.quota.Cap()
  {
    var v := Window(l, to);
    SubsetSize(v.Admissions(r.Last()), v.Instants(r.Last()));
    if l.quota.window <= 0 || l.quota.Effective() <= 0 {
      forall i | 0 <= i <= |r.ops|
        ensures |Active(r.states[i])| <= 1
      {
        assert Tame(r.states[i], 1, d);
      }
      AnyWindowOverlapBound(r, |r.ops|, 1, to);
    } else if d <= 0.0 {
      LimitInNoTime(r, v, d);
    } else {
      OneAdmission(r, v, |r.ops|, d);
      OneInstant(v, r.Last());
    }
  }

  lemma SingleCheckExceeds(l: Limiter, d: real) returns (r: Run, to: real)
    requires l.quota.window > 0 && l.quota.Effective() >= 1 && d > 0.0
    requires l.quota.Effective() >= 2 || d > l.quota.window as real
    ensures OneAtATime(l, d, r) && r.Admitted(to) > l.quota.Cap()
  {
    var p := Plan(l, 1, d);
    if l.quota.Effective() >= 2 {
      r, to := QuickChecksExceed(p);
    } else {
      r, to := LateChecksExceed(p);
    }
  }
}
