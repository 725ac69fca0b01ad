/** The check-then-act sequences of both limiters when the Redis calls of many callers interleave:
    a caller counts the members of a key, and only a later call adds its own. */
module Interleaving {
  import opened Redis

  /** One key shared by all callers. `cleared` are the callers that have read a count below the limit
      and not yet added their member; `peak` is the most there have ever been at once. */
  datatype Shared<T(==)> = Shared(keys: map<string, Timed<set<T>>>, now: real, cleared: set<nat>, peak: nat)

  datatype Step<T> =
    | Tick(later: real)
    | Remove(gone: set<T>)          // ZREMRANGEBYSCORE, SREM
    | Clear(caller: nat)            // ZCARD, SCARD below the limit
    | Add(caller: nat, member: T)   // ZADD, SADD
    | SetExpiry(seconds: int)       // EXPIRE
    | Leave(caller: nat)            // the add raised without being applied

  datatype Limit = Limit(key: string, max: int) {

    predicate Enabled<T(==)>(s: Shared<T>, step: Step<T>) {
      match step
      case Tick(later) => s.now <= later
      case Clear(caller) => caller !in s.cleared && |Members(s.keys, key, s.now)| < max
      case Add(caller, _) => caller in s.cleared
      case Leave(caller) => caller in s.cleared
      case _ => true
    }

    function Apply<T(==)>(s: Shared<T>, step: Step<T>): Shared<T> {
      match step
      case Tick(later) => s.(now := later)
      case Remove(gone) => s.(keys := RemoveMembers(s.keys, key, gone, s.now))
      case Clear(caller) =>
        var cleared := s.cleared + {caller};
        s.(cleared := cleared, peak := if |cleared| > s.peak then |cleared| else s.peak)
      case Add(caller, member) =>
        s.(keys := AddMember(s.keys, key, member, s.now), cleared := s.cleared - {caller})
      case SetExpiry(seconds) => s.(keys := Expire(s.keys, key, seconds, s.now))
      case Leave(caller) => s.(cleared := s.cleared - {caller})
    }

    /** These steps, one after the other, lead from one state to another. */
    ghost predicate Leads<T>(s: Shared<T>, steps: seq<Step<T>>, t: Shared<T>)
      decreases |steps|
    {
      if steps == [] then s == t else Enabled(s, steps[0]) && Leads(Apply(s, steps[0]), steps[1..], t)
    }

    ghost predicate Stepped<T>(states: seq<Shared<T>>, steps: seq<Step<T>>, i: nat)
      requires i < |steps| && |states| == |steps| + 1
    {
      Enabled(states[i], steps[i]) && states[i + 1] == Apply(states[i], steps[i])
    }

    /** A run from a key without members, in any interleaving. */
    ghost predicate IsRun<T>(states: seq<Shared<T>>, steps: seq<Step<T>>) {
      && |states| == |steps| + 1
      && key !in states[0].keys && states[0].cleared == {} && states[0].peak == 0
      && forall i {:trigger Stepped(states, steps, i)} :: 0 <= i < |steps| ==> Stepped(states, steps, i)
    }
  }

  function Size<T(==)>(l: Limit, s: Shared<T>): nat { |Members(s.keys, l.key, s.now)| }

  ghost predicate WithinBound<T>(l: Limit, s: Shared<T>) {
    && |s.cleared| <= s.peak
    && (if s.peak == 0 then Size(l, s) == 0 else l.max >= 1 && Size(l, s) + |s.cleared| <= l.max - 1 + s.peak)
  }

  lemma StepKeepsBound<T>(l: Limit, s: Shared<T>, step: Step<T>)
    requires WithinBound(l, s) && l.Enabled(s, step)
    ensures WithinBound(l, l.Apply(s, step))
  {
    var before, after := Members(s.keys, l.key, s.now), Members(l.Apply(s, step).keys, l.key, l.Apply(s, step).now);
    match step {
      case Add(caller, member) => assert after == before + {member};
      case Clear(_) => assert after == before;
      case _ => SubsetSize(after, before);
    }
  }

  /** In every interleaving the members plus the callers about to add one stay below limit + k, where
      k is the most callers that were ever between their count and their add. */
  lemma {:induction false} OverAdmissionBound<T>(l: Limit, states: seq<Shared<T>>, steps: seq<Step<T>>, n: nat)
    requires l.IsRun(states, steps) && n <= |steps|
    ensures WithinBound(l, states[n])
  {
    if n > 0 {
      OverAdmissionBound(l, states, steps, n - 1);
      assert l.Stepped(states, steps, n - 1);
      StepKeepsBound(l, states[n - 1], steps[n - 1]);
    }
  }

  /** With at most one caller between count and add, the limit itself holds. */
  lemma OneAtATimeIsExact<T>(l: Limit, states: seq<Shared<T>>, steps: seq<Step<T>>, n: nat)
    requires l.IsRun(states, steps) && n <= |steps| && states[n].peak <= 1 && l.max >= 0
    ensures Size(l, states[n]) <= l.max
  {
    OverAdmissionBound(l, states, steps, n);
  }

  // ----- the bound is reached -----

  lemma Extend<T>(l: Limit, states: seq<Shared<T>>, steps: seq<Step<T>>, step: Step<T>)
    returns (states': seq<Shared<T>>, steps': seq<Step<T>>)
    requires l.IsRun(states, steps) && l.Enabled(states[|steps|], step)
    ensures l.IsRun(states', steps') && |steps'| == |steps| + 1
    ensures states'[|steps'|] == l.Apply(states[|steps|], step)
  {
    states', steps' := states + [l.Apply(states[|steps|], step)], steps + [step];
    forall i: nat | i < |steps'|
      ensures l.Stepped(states', steps', i)
    {
      if i < |steps| {
        assert l.Stepped(states, steps, i);
      }
    }
  }

  ghost function Numbers(n: nat): set<nat> {
    if n == 0 then {} else Numbers(n - 1) + {n - 1}
  }

  lemma {:induction false} CountNumbers(n: nat)
    ensures |Numbers(n)| == n && forall i :: i in Numbers(n) ==> i < n
  {
    if n > 0 {
      CountNumbers(n - 1);
    }
  }

  ghost function Filled(l: Limit, n: nat, cleared: nat, peak: nat): Shared<nat> {
    Shared(if n == 0 then map[] else map[l.key := Timed(Numbers(n), None)], 0.0, Numbers(cleared), peak)
  }

  /** n callers one after the other, each counting and adding. */
  lemma {:induction false} OneByOne(l: Limit, n: nat) returns (states: seq<Shared<nat>>, steps: seq<Step<nat>>)
    requires n <= l.max
    ensures l.IsRun(states, steps) && states[|steps|] == Filled(l, n, 0, if n == 0 then 0 else 1)
  {
    CountNumbers(n);
    if n == 0 {
      states, steps := [Filled(l, 0, 0, 0)], [];
    } else {
      CountNumbers(n - 1);
      states, steps := OneByOne(l, n - 1);
      states, steps := Extend(l, states, steps, Clear(0));
      states, steps := Extend(l, states, steps, Add(0, n - 1));
      assert states[|steps|].cleared == Numbers(0);
    }
  }

  /** k callers that all count before any of them adds. */
  lemma {:induction false} AllClear(l: Limit, k: nat) returns (states: seq<Shared<nat>>, steps: seq<Step<nat>>)
    requires l.max >= 1
    ensures l.IsRun(states, steps)
    ensures states[|steps|] == Filled(l, l.max - 1, k, if k == 0 && l.max > 1 then 1 else k)
  {
    CountNumbers(k);
    CountNumbers(l.max - 1);
    if k == 0 {
      states, steps := OneByOne(l, l.max - 1);
    } else {
      CountNumbers(k - 1);
      states, steps := AllClear(l, k - 1);
      states, steps := Extend(l, states, steps, Clear(k - 1));
    }
  }

  lemma {:induction false} AllAdd(l: Limit, k: nat, added: nat)
      returns (states: seq<Shared<nat>>, steps: seq<Step<nat>>)
    requires l.max >= 1 && 1 <= k && added <= k
    ensures l.IsRun(states, steps)
    ensures states[|steps|] == Filled(l, l.max - 1 + added, k - added, k)
  {
    if added == 0 {
      states, steps := AllClear(l, k);
    } else {
      states, steps := AllAdd(l, k, added - 1);
      AddFills(l, l.max - 2 + added, k - added, k);
      states, steps := Extend(l, states, steps, Add(k - added, l.max - 2 + added));
    }
  }

  lemma AddFills(l: Limit, size: nat, last: nat, peak: nat)
    ensures l.Enabled(Filled(l, size, last + 1, peak), Add(last, size))
    ensures l.Apply(Filled(l, size, last + 1, peak), Add(last, size)) == Filled(l, size + 1, last, peak)
  {
    CountNumbers(last);
    assert Numbers(last + 1) - {last} == Numbers(last);
    assert {} + {size} == {size};
  }

  /** The bound is exact: for every limit and every k some interleaving reaches limit + k - 1 members
      with k callers at once between count and add. */
  lemma OverAdmissionReached(l: Limit, k: nat) returns (states: seq<Shared<nat>>, steps: seq<Step<nat>>)
    requires l.max >= 1 && k >= 1
    ensures l.IsRun(states, steps) && states[|steps|].peak == k
    ensures Size(l, states[|steps|]) == l.max + k - 1
  {
    states, steps := AllAdd(l, k, k);
    CountNumbers(l.max - 1 + k);
  }
}
