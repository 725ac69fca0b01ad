/** Least-recently-used order on keys, oldest first, and what it means in terms of the history. */
module Lru {
  import opened Redis

  function IndexOf(keys: seq<string>, key: string): (r: Option<nat>)
    ensures r.Some? ==> r.value < |keys| && keys[r.value] == key
    ensures r.None? ==> key !in keys
  {
    if keys == [] then None
    else if keys[0] == key then Some(0)
    else match IndexOf(keys[1..], key) case None => None case Some(i) => Some(i + 1)
  }

  function Drop<T>(s: seq<T>, i: nat): seq<T>
    requires i < |s|
  {
    s[..i] + s[i + 1..]
  }

  ghost predicate Distinct<T>(s: seq<T>) {
    forall i, j :: 0 <= i < j < |s| ==> s[i] != s[j]
  }

  /** Which keys an operation moves to the recent end, removes, or sweeps away. */
  datatype KeyEvent = Touch(key: string) | Forget(key: string) | Reset

  function WithoutKey(keys: seq<string>, key: string): seq<string> {
    match IndexOf(keys, key) case None => keys case Some(i) => Drop(keys, i)
  }

  function TouchKey(keys: seq<string>, max: int, key: string): seq<string> {
    var moved := WithoutKey(keys, key) + [key];
    if |moved| > max then moved[1..] else moved
  }

  function Occur(keys: seq<string>, max: int, event: KeyEvent): seq<string> {
    match event
    case Touch(key) => TouchKey(keys, max, key)
    case Forget(key) => WithoutKey(keys, key)
    case Reset => []
  }

  function Replay(events: seq<KeyEvent>, max: int): seq<string> {
    if events == [] then [] else Occur(Replay(events[..|events| - 1], max), max, events[|events| - 1])
  }

  lemma DropIs(keys: seq<string>, i: nat)
    requires Distinct(keys) && i < |keys|
    ensures Distinct(Drop(keys, i)) && forall k :: k in Drop(keys, i) <==> k in keys && k != keys[i]
  {
    forall k | k in keys && k != keys[i]
      ensures k in Drop(keys, i)
    {
      var j :| 0 <= j < |keys| && keys[j] == k;
      assert Drop(keys, i)[if j < i then j else j - 1] == k;
    }
  }

  lemma WithoutKeyIs(keys: seq<string>, key: string)
    requires Distinct(keys)
    ensures Distinct(WithoutKey(keys, key)) && key !in WithoutKey(keys, key)
    ensures forall k :: k in WithoutKey(keys, key) <==> k in keys && k != key
    ensures |WithoutKey(keys, key)| == |keys| - if key in keys then 1 else 0
  {
    var at := IndexOf(keys, key);
    if at.Some? {
      DropIs(keys, at.value);
    }
  }

  // ----- reuse distance -----

  ghost function Touches(history: seq<string>): seq<KeyEvent> {
    seq(|history|, i requires 0 <= i < |history| => Touch(history[i]))
  }

  /** The distinct keys touched after the last touch of `key`. */
  ghost function Since(history: seq<string>, key: string): set<string> {
    if history == [] || history[|history| - 1] == key then {}
    else Since(history[..|history| - 1], key) + {history[|history| - 1]}
  }

  ghost function Elements<T>(s: seq<T>): set<T> { set x | x in s }

  /** The keys behind a key in LRU order are exactly those touched since; a key that fell out has at
      least `max` distinct successors. */
  ghost predicate ByRecency(keys: seq<string>, history: seq<string>, max: int) {
    && Distinct(keys)
    && (forall k :: k in keys ==> k in history)
    && (forall p: nat {:trigger SuffixIsSince(keys, history, p)} :: p < |keys| ==> SuffixIsSince(keys, history, p))
    && (forall k :: k in history && k !in keys ==> |Since(history, k)| >= max)
  }

  ghost predicate SuffixIsSince(keys: seq<string>, history: seq<string>, p: nat)
    requires p < |keys|
  {
    Since(history, keys[p]) == Elements(keys[p + 1..])
  }

  lemma ElementsSnoc<T>(s: seq<T>, x: T)
    ensures Elements(s + [x]) == Elements(s) + {x}
  {
    assert (s + [x])[|s|] == x;
    assert forall i :: 0 <= i < |s| ==> (s + [x])[i] == s[i];
  }

  lemma ElementsDrop<T>(s: seq<T>, i: nat)
    requires i < |s|
    ensures Elements(Drop(s, i)) + {s[i]} == Elements(s)
  {
    forall j | 0 <= j < |s|
      ensures s[j] in Elements(Drop(s, i)) + {s[i]}
    {
      if j != i {
        assert Drop(s, i)[if j < i then j else j - 1] == s[j];
      }
    }
  }

  lemma DropTail<T>(s: seq<T>, i: nat, p: nat)
    requires i < |s| && p < |s| - 1
    ensures Drop(s, i)[p + 1..] == if p < i then Drop(s[p + 1..], i - p - 1) else s[p + 2..]
  {
  }

  lemma DroppedSuffix(keys: seq<string>, i: nat, p: nat)
    requires i < |keys| && p < |keys| - 1
    ensures
      var rest, q := Drop(keys, i), if p >= i then p + 1 else p;
      rest[p] == keys[q] && Elements(rest[p + 1..]) + {keys[i]} == Elements(keys[q + 1..]) + {keys[i]}
  {
    DropTail(keys, i, p);
    if p < i {
      ElementsDrop(keys[p + 1..], i - p - 1);
    }
  }

  /** Where a key that stays was before another was taken out, and what lay behind it. */
  lemma StayedSuffix(keys: seq<string>, key: string, p: nat) returns (q: nat)
    requires p < |WithoutKey(keys, key)|
    ensures
      var rest := WithoutKey(keys, key);
      q < |keys| && keys[q] == rest[p] && Elements(rest[p + 1..]) + {key} == Elements(keys[q + 1..]) + {key}
  {
    var at := IndexOf(keys, key);
    q := if at.Some? && p >= at.value then p + 1 else p;
    if at.Some? {
      DroppedSuffix(keys, at.value, p);
    }
  }

  /** Moving a key to the end adds it to what lies behind every other key. */
  lemma MovedSuffix(keys: seq<string>, key: string, p: nat) returns (q: nat)
    requires p < |WithoutKey(keys, key)|
    ensures
      var moved := WithoutKey(keys, key) + [key];
      q < |keys| && keys[q] == moved[p] && Elements(moved[p + 1..]) == Elements(keys[q + 1..]) + {key}
  {
    var rest := WithoutKey(keys, key);
    q := StayedSuffix(keys, key, p);
    assert (rest + [key])[p + 1..] == rest[p + 1..] + [key];
    ElementsSnoc(rest[p + 1..], key);
  }

  lemma MoveKeepsRecency(keys: seq<string>, history: seq<string>, max: int, key: string)
    requires ByRecency(keys, history, max)
    ensures ByRecency(WithoutKey(keys, key) + [key], history + [key], max)
  {
    var h, moved := history + [key], WithoutKey(keys, key) + [key];
    assert h[..|history|] == history;
    WithoutKeyIs(keys, key);
    forall p: nat | p < |moved|
      ensures SuffixIsSince(moved, h, p)
    {
      if p < |moved| - 1 {
        var q := MovedSuffix(keys, key, p);
        assert SuffixIsSince(keys, history, q);
        assert moved[p] in WithoutKey(keys, key);
      }
    }
    forall k | k in h && k !in moved
      ensures |Since(h, k)| >= max
    {
      assert moved[|moved| - 1] == key;
      SubsetSize(Since(history, k), Since(h, k));
    }
  }

  lemma EvictionKeepsRecency(keys: seq<string>, history: seq<string>, max: int)
    requires ByRecency(keys, history, max) && |keys| > max && keys != []
    ensures ByRecency(keys[1..], history, max)
  {
    assert SuffixIsSince(keys, history, 0);
    DistinctSize(keys[1..]);
    forall p: nat | p < |keys[1..]|
      ensures SuffixIsSince(keys[1..], history, p)
    {
      assert SuffixIsSince(keys, history, p + 1);
      assert keys[1..][p + 1..] == keys[p + 2..];
    }
    forall k | k in history && k !in keys[1..]
      ensures |Since(history, k)| >= max
    {
      assert k in keys ==> k == keys[0];
    }
  }

  lemma {:induction false} ReplayIsByRecency(history: seq<string>, max: int)
    ensures ByRecency(Replay(Touches(history), max), history, max)
    ensures |Replay(Touches(history), max)| <= if max < 0 then 0 else max
  {
    if history != [] {
      var prefix, key := history[..|history| - 1], history[|history| - 1];
      assert Touches(history)[..|history| - 1] == Touches(prefix) && prefix + [key] == history;
      ReplayIsByRecency(prefix, max);
      var keys := Replay(Touches(prefix), max);
      MoveKeepsRecency(keys, prefix, max, key);
      WithoutKeyIs(keys, key);
      var moved := WithoutKey(keys, key) + [key];
      if |moved| > max {
        EvictionKeepsRecency(moved, history, max);
      }
    }
  }

  /** Without removals a key is cached exactly when fewer than `max` distinct other keys were touched
      since its own last touch, and the keys behind it in eviction order are exactly those. */
  lemma CachedByReuseDistance(history: seq<string>, max: int, key: string)
    ensures key in Replay(Touches(history), max) <==> key in history && |Since(history, key)| < max
    ensures forall p :: 0 <= p < |Replay(Touches(history), max)| ==>
      Since(history, Replay(Touches(history), max)[p]) == Elements(Replay(Touches(history), max)[p + 1..])
  {
    var keys := Replay(Touches(history), max);
    ReplayIsByRecency(history, max);
    forall p: nat | p < |keys|
      ensures Since(history, keys[p]) == Elements(keys[p + 1..]) && |Since(history, keys[p])| < max
    {
      assert SuffixIsSince(keys, history, p);
      DistinctSize(keys[p + 1..]);
    }
  }

  // ----- a larger cache holds whatever a smaller one does -----

  ghost predicate IsSuffix<T>(a: seq<T>, b: seq<T>) {
    |a| <= |b| && b[|b| - |a|..] == a
  }

  lemma DropSuffix<T>(s: seq<T>, i: nat, d: nat)
    requires i < |s| && d <= |s|
    ensures IsSuffix(if d <= i then Drop(s[d..], i - d) else s[d..], Drop(s, i))
  {
    if d <= i {
      assert Drop(s, i)[d..] == Drop(s[d..], i - d);
    } else {
      assert Drop(s, i)[d - 1..] == s[d..];
    }
  }

  lemma {:induction false} IndexInSuffix(a: seq<string>, b: seq<string>, key: string)
    requires IsSuffix(a, b) && Distinct(b)
    ensures
      var d, i, j := |b| - |a|, IndexOf(a, key), IndexOf(b, key);
      if i.Some? then j == Some(d + i.value) else j.Some? ==> j.value < d
  {
    if |a| == |b| {
      assert a == b;
    } else {
      assert b[1..][|b| - 1 - |a|..] == b[|b| - |a|..];
      IndexInSuffix(a, b[1..], key);
      var i := IndexOf(b[1..], key);
      assert i.Some? ==> b[i.value + 1] == key != b[0];
    }
  }

  lemma WithoutKeepsSuffix(a: seq<string>, b: seq<string>, key: string)
    requires IsSuffix(a, b) && Distinct(b)
    ensures IsSuffix(WithoutKey(a, key), WithoutKey(b, key))
    ensures |WithoutKey(a, key)| <= |a| && |WithoutKey(b, key)| <= |b|
  {
    var j := IndexOf(b, key);
    IndexInSuffix(a, b, key);
    if j.Some? {
      DropSuffix(b, j.value, |b| - |a|);
    }
  }

  lemma AppendKeepsSuffix(a: seq<string>, b: seq<string>, key: string, m: int, n: int)
    requires IsSuffix(a, b) && 0 <= m <= n && |a| <= m && |b| <= n
    ensures
      var a', b' := a + [key], b + [key];
      IsSuffix(if |a'| > m then a'[1..] else a', if |b'| > n then b'[1..] else b')
  {
    assert (b + [key])[|b| - |a|..] == a + [key];
  }

  lemma OccurKeepsDistinct(keys: seq<string>, max: int, event: KeyEvent)
    requires Distinct(keys)
    ensures Distinct(Occur(keys, max, event))
  {
    match event
    case Touch(key) => WithoutKeyIs(keys, key);
    case Forget(key) => WithoutKeyIs(keys, key);
    case Reset =>
  }

  /** Inclusion: after the same touches, removals and sweeps, a cache with room for m keys holds the
      most recent of the keys held by a cache with room for n >= m. */
  lemma {:induction false} SmallerCacheIsSuffix(events: seq<KeyEvent>, m: int, n: int)
    requires 0 <= m <= n
    ensures Distinct(Replay(events, n)) && |Replay(events, n)| <= n && |Replay(events, m)| <= m
    ensures IsSuffix(Replay(events, m), Replay(events, n))
  {
    if events != [] {
      var prefix, event := events[..|events| - 1], events[|events| - 1];
      SmallerCacheIsSuffix(prefix, m, n);
      var a, b := Replay(prefix, m), Replay(prefix, n);
      OccurKeepsDistinct(b, n, event);
      if !event.Reset? {
        WithoutKeepsSuffix(a, b, event.key);
      }
      if event.Touch? {
        AppendKeepsSuffix(WithoutKey(a, event.key), WithoutKey(b, event.key), event.key, m, n);
      }
    }
  }

  lemma {:induction false} DistinctSize<T>(s: seq<T>)
    requires Distinct(s)
    ensures |Elements(s)| == |s|
  {
    if s != [] {
      DistinctSize(s[1..]);
      assert Elements(s) == {s[0]} + Elements(s[1..]);
    }
  }
}
