/** The life of many WebSocket endpoints that share the limiter, the connection manager and a gauge,
    one atomic stretch between two awaits at a time. */
module Lifecycle {
  import I = Interleaving
  import opened Redis

  const LIMITER_EXPIRY := 3600

  /** Where one endpoint stands. `Rejected`: the origin was refused. `Failed`: no valid first frame.
      `TurnedAway`: add_connection returned False, whether for the limit or for a Redis error. `Leaving`:
      inside on_disconnect. `Crashed`: an exception outside the try block of dispatch, so that
      on_disconnect does not run (or, for a rejected origin, fails at once). */
  datatype Phase =
    | Fresh
    | Rejected
    | Awaiting
    | Failed
    | Decoded(user: string)
    | Checked(user: string)
    | Added(user: string)
    | Admitted(user: string)
    | Registered(user: string)
    | Open(user: string)
    | TurnedAway(user: string)
    | Leaving(user: string, accepted: bool)
    | Left
    | Finished(user: string, accepted: bool)
    | Crashed
    | CrashedAs(user: string, registered: bool)

  /** An endpoint's number stands for its socket and for its connection id. */
  datatype Op =
    | Tick(later: real)
    | Connect(e: nat, allowed: bool)
    | FirstFrame(e: nat, username: Option<string>)
    | Check(e: nat, reply: Reply)
    | Add(e: nat, reply: Reply)
    | SetExpiry(e: nat, reply: Reply)
    | Register(e: nat, stored: bool)
    | AuthOk(e: nat, sent: bool)
    | Receive(e: nat)
    | Leave(e: nat)
    | Finish(e: nat, reply: Reply)
    | Break(e: nat)
    | Drop(key: string)

  datatype World = World(keys: map<string, Timed<set<nat>>>, now: real, manager: map<string, nat>, gauge: int,
      phases: map<nat, Phase>) {
    function At(e: nat): Phase {
      if e in phases then phases[e] else Fresh
    }

    function Put(e: nat, p: Phase): World {
      this.(phases := phases[e := p])
    }

    /** The connection ids counted for a user. */
    function Ids(user: string): set<nat> {
      Members(keys, Key(user), now)
    }
  }

  function Key(user: string): string { "ws_connections:" + user }

  /** The key under which the manager knows all connections of a user. */
  function SessionKey(user: string): string { "session:" + user }

  predicate Enabled(w: World, op: Op) {
    match op
    case Tick(later) => w.now <= later
    case Connect(e, _) => w.At(e).Fresh?
    case FirstFrame(e, _) => w.At(e).Awaiting?
    case Check(e, _) => w.At(e).Decoded?
    case Add(e, _) => w.At(e).Checked?
    case SetExpiry(e, _) => w.At(e).Added?
    case Register(e, _) => w.At(e).Admitted?
    case AuthOk(e, _) => w.At(e).Registered?
    case Receive(e) => w.At(e).Open?
    case Leave(e) => w.At(e).Open? || w.At(e).TurnedAway? || w.At(e).Failed? || w.At(e).Rejected?
    case Finish(e, _) => w.At(e).Leaving?
    case Break(e) => w.At(e).Awaiting?
    case Drop(_) => true
  }

  function Apply(max: int, w: World, op: Op): World
    requires Enabled(w, op)
  {
    match op
    case Tick(later) => w.(now := later)
    case Connect(e, allowed) => w.Put(e, if allowed then Awaiting else Rejected)
    case FirstFrame(e, username) => w.Put(e, match username case Some(u) => Decoded(u) case None => Failed)
    case Check(e, reply) =>
      var u := w.At(e).user;
      w.Put(e, if reply.Raised() || |w.Ids(u)| >= max then TurnedAway(u) else Checked(u))
    case Add(e, reply) =>
      var u := w.At(e).user;
      var keys := if reply.Applied() then AddMember(w.keys, Key(u), e, w.now) else w.keys;
      w.(keys := keys).Put(e, if reply.Raised() then TurnedAway(u) else Added(u))
    case SetExpiry(e, reply) =>
      var u := w.At(e).user;
      var keys := if reply.Applied() then Expire(w.keys, Key(u), LIMITER_EXPIRY, w.now) else w.keys;
      w.(keys := keys).Put(e, if reply.Raised() then TurnedAway(u) else Admitted(u))
    case Register(e, stored) =>
      var u := w.At(e).user;
      if stored then w.(manager := w.manager[SessionKey(u) := e], gauge := w.gauge + 1).Put(e, Registered(u))
      else w.Put(e, CrashedAs(u, false))
    case AuthOk(e, sent) => w.Put(e, if sent then Open(w.At(e).user) else CrashedAs(w.At(e).user, true))
    case Receive(_) => w
    case Leave(e) =>
      (match w.At(e)
       case Open(u) => w.(manager := w.manager - {SessionKey(u)}).Put(e, Leaving(u, true))
       case TurnedAway(u) => w.Put(e, Leaving(u, false))
       case Failed => w.Put(e, Left)
       case _ => w.Put(e, Crashed))
    case Finish(e, reply) =>
      var u := w.At(e).user;
      var keys := if reply.Applied() then RemoveMembers(w.keys, Key(u), {e}, w.now) else w.keys;
      w.(keys := keys, gauge := w.gauge - 1).Put(e, Finished(u, w.At(e).accepted))
    case Break(e) => w.Put(e, Crashed)
    case Drop(key) => w.(manager := w.manager - {key})
  }

  datatype Run = Run(max: int, ops: seq<Op>, states: seq<World>) {
    ghost predicate Stepped(i: nat)
      requires i < |ops| && |states| == |ops| + 1
    {
      Enabled(states[i], ops[i]) && states[i + 1] == Apply(max, states[i], ops[i])
    }

    function Last(): World
      requires states != []
    {
      states[|states| - 1]
    }

    /** Any interleaving of any number of endpoints, from the start of the service with Redis empty. */
    ghost predicate Valid() {
      && |states| == |ops| + 1
      && states[0].keys == map[] && states[0].manager == map[] && states[0].gauge == 0 && states[0].phases == map[]
      && forall i: nat {:trigger Stepped(i)} :: i < |ops| ==> Stepped(i)
    }
  }

  // ----- the handshake comes first -----

  /** The endpoint an operation moves on. */
  predicate Moves(op: Op, e: nat) {
    !op.Tick? && !op.Drop? && !op.Receive? && op.e == e
  }

  lemma {:induction false} LastMove(r: Run, n: nat, e: nat) returns (i: nat)
    requires r.Valid() && n <= |r.ops| && !r.states[n].At(e).Fresh?
    ensures i < n && Moves(r.ops[i], e) && r.states[i + 1].At(e) == r.states[n].At(e)
  {
    i := 0;
    if n > 0 {
      assert r.Stepped(n - 1);
      if Moves(r.ops[n - 1], e) {
        i := n - 1;
      } else {
        i := LastMove(r, n - 1, e);
      }
    }
  }

  lemma AddedBefore(r: Run, n: nat, e: nat) returns (decode: nat, check: nat)
    requires r.Valid() && n <= |r.ops| && r.states[n].At(e).Checked?
    ensures decode < check < n && r.ops[decode] == FirstFrame(e, Some(r.states[n].At(e).user))
    ensures r.ops[check] == Check(e, Done) && |r.states[check].Ids(r.states[n].At(e).user)| < r.max
  {
    check := LastMove(r, n, e);
    assert r.Stepped(check);
    decode := LastMove(r, check, e);
    assert r.Stepped(decode);
  }

  lemma AdmittedBefore(r: Run, n: nat, e: nat) returns (decode: nat, check: nat, add: nat)
    requires r.Valid() && n <= |r.ops| && r.states[n].At(e).Admitted?
    ensures decode < check < add < n && r.ops[decode] == FirstFrame(e, Some(r.states[n].At(e).user))
    ensures r.ops[check] == Check(e, Done) && |r.states[check].Ids(r.states[n].At(e).user)| < r.max
    ensures r.ops[add] == Op.Add(e, Done) && e in r.states[add + 1].Ids(r.states[n].At(e).user)
  {
    var expiry := LastMove(r, n, e);
    assert r.Stepped(expiry);
    add := LastMove(r, expiry, e);
    assert r.Stepped(add);
    decode, check := AddedBefore(r, add, e);
  }

  /** A message reaches on_receive only after the token was decoded, the limiter counted and added the
      connection, the session was registered and auth_ok was sent, in this order. */
  lemma ReceiveAfterHandshake(r: Run, n: nat, e: nat)
      returns (decode: nat, check: nat, add: nat, register: nat, auth: nat)
    requires r.Valid() && n < |r.ops| && r.ops[n] == Receive(e)
    ensures decode < check < add < register < auth < n
    ensures r.states[n].At(e).Open? && r.ops[decode] == FirstFrame(e, Some(r.states[n].At(e).user))
    ensures r.ops[check] == Check(e, Done) && |r.states[check].Ids(r.states[n].At(e).user)| < r.max
    ensures r.ops[add] == Op.Add(e, Done) && e in r.states[add + 1].Ids(r.states[n].At(e).user)
    ensures r.ops[register] == Register(e, true) && r.ops[auth] == AuthOk(e, true)
  {
    assert r.Stepped(n);
    auth := LastMove(r, n, e);
    assert r.Stepped(auth);
    register := LastMove(r, auth, e);
    assert r.Stepped(register);
    decode, check, add := AdmittedBefore(r, register, e);
  }

  // ----- cleanup runs once -----

  function Leaves(ops: seq<Op>, e: nat): nat {
    if ops == [] then 0 else Leaves(ops[..|ops| - 1], e) + if ops[|ops| - 1] == Leave(e) then 1 else 0
  }

  predicate CleanedUp(p: Phase) { p.Leaving? || p.Left? || p.Finished? }

  /** on_disconnect runs at most once for an endpoint, and exactly once for one that is past it. It
      has not run for any other, in particular not for one whose handshake raised; for a rejected
      origin it was entered once and raised. */
  lemma {:induction false} CleanupOnce(r: Run, n: nat, e: nat)
    requires r.Valid() && n <= |r.ops|
    ensures Leaves(r.ops[..n], e) <= 1
    ensures CleanedUp(r.states[n].At(e)) ==> Leaves(r.ops[..n], e) == 1
    ensures !CleanedUp(r.states[n].At(e)) && !r.states[n].At(e).Crashed? ==> Leaves(r.ops[..n], e) == 0
  {
    if n > 0 {
      CleanupOnce(r, n - 1, e);
      assert r.Stepped(n - 1);
      assert r.ops[..n][..n - 1] == r.ops[..n - 1];
    }
  }

  // ----- the limiter's ids -----

  /** Endpoints between the write of their id and its removal. */
  predicate MayHoldId(p: Phase, user: string) {
    match p
    case Added(u) => u == user
    case Admitted(u) => u == user
    case Registered(u) => u == user
    case Open(u) => u == user
    case TurnedAway(u) => u == user
    case Leaving(u, _) => u == user
    case CrashedAs(u, _) => u == user
    case _ => false
  }

  /** Redis carried out the removal of this endpoint's id, if it came to that. */
  ghost predicate Removed(r: Run, n: nat, e: nat)
    requires n <= |r.ops|
  {
    forall i :: 0 <= i < n && r.ops[i].Finish? && r.ops[i].e == e ==> r.ops[i].reply.Applied()
  }

  lemma IdsAfter(max: int, w: World, op: Op, user: string, e: nat)
    requires Enabled(w, op) && (op.Finish? && op.e == e ==> op.reply.Applied())
    requires e in w.Ids(user) ==> MayHoldId(w.At(e), user)
    ensures e in Apply(max, w, op).Ids(user) ==> MayHoldId(Apply(max, w, op).At(e), user)
  {
    if (op.Add? || op.SetExpiry? || op.Finish?) && w.At(op.e).user != user {
      OtherKey(w.At(op.e).user, user);
    }
  }

  lemma OtherKey(user: string, other: string)
    requires user != other
    ensures Key(user) != Key(other) && SessionKey(user) != SessionKey(other)
  {
    assert Key(user)[|"ws_connections:"|..] == user && Key(other)[|"ws_connections:"|..] == other;
    assert SessionKey(user)[|"session:"|..] == user && SessionKey(other)[|"session:"|..] == other;
  }

  /** An id the limiter counts belongs to an endpoint that wrote it and has not finished on_disconnect
      (or crashed before it), unless Redis refused to remove that very id. */
  lemma {:induction false} IdsAreHeld(r: Run, n: nat, user: string, e: nat)
    requires r.Valid() && n <= |r.ops| && Removed(r, n, e)
    ensures e in r.states[n].Ids(user) ==> MayHoldId(r.states[n].At(e), user)
  {
    if n > 0 {
      IdsAreHeld(r, n - 1, user, e);
      assert r.Stepped(n - 1);
      IdsAfter(r.max, r.states[n - 1], r.ops[n - 1], user, e);
    }
  }

  /** So an endpoint that has finished leaves no id behind under any user, not even after an add that
      half failed. */
  lemma NothingLeftBehind(r: Run, n: nat, e: nat)
    requires r.Valid() && n <= |r.ops| && Removed(r, n, e)
    requires r.states[n].At(e).Finished? || r.states[n].At(e).Left?
    ensures forall user :: e !in r.states[n].Ids(user)
  {
    forall user
      ensures e !in r.states[n].Ids(user)
    {
      IdsAreHeld(r, n, user, e);
    }
  }

  predicate Counted(w: World, e: nat, user: string) { e in w.Ids(user) }

  ghost predicate CountedAtAll(w: World, e: nat) {
    exists user :: Counted(w, e, user)
  }

  /** As it finishes, an endpoint leaves its id behind exactly when it was counted and Redis refused the
      removal. */
  lemma LeftBehindIff(r: Run, i: nat, e: nat)
    requires r.Valid() && i < |r.ops| && r.ops[i].Finish? && r.ops[i].e == e && r.states[i].At(e).Leaving?
    ensures CountedAtAll(r.states[i + 1], e)
       <==> Counted(r.states[i], e, r.states[i].At(e).user) && r.ops[i].reply.Refused?
  {
    assert r.Stepped(i);
    var u := r.states[i].At(e).user;
    FinishedOnce(r, i, e);
    if Counted(r.states[i], e, u) && r.ops[i].reply.Refused? {
      assert Counted(r.states[i + 1], e, u);
    }
    if CountedAtAll(r.states[i + 1], e) && !Counted(r.states[i + 1], e, u) {
      var user :| Counted(r.states[i + 1], e, user);
      OtherKey(u, user);
      IdsAreHeld(r, i, user, e);
    }
  }

  /** Finish happens at most once. */
  lemma {:induction false} FinishedOnce(r: Run, n: nat, e: nat)
    requires r.Valid() && n <= |r.ops| && !r.states[n].At(e).Finished?
    ensures Removed(r, n, e)
  {
    if n > 0 {
      assert r.Stepped(n - 1);
      FinishedOnce(r, n - 1, e);
    }
  }

  // ----- the limit -----

  ghost function Clearing(w: World, user: string): set<nat> {
    set e | e in w.phases && w.phases[e] == Checked(user)
  }

  /** The endpoints of a user as the callers of Interleaving see them. */
  ghost function Shown(w: World, user: string, k: nat): I.Shared<nat> {
    I.Shared(w.keys, w.now, Clearing(w, user), k)
  }

  ghost predicate AtMostClearing(r: Run, n: nat, user: string, k: nat)
    requires n < |r.states|
  {
    forall i :: 0 <= i <= n ==> |Clearing(r.states[i], user)| <= k
  }

  lemma ClearingAfter(max: int, w: World, op: Op, user: string)
    requires Enabled(w, op)
    ensures
      var before, after := Clearing(w, user), Clearing(Apply(max, w, op), user);
      if op.Check? && Apply(max, w, op).At(op.e) == Checked(user) then op.e !in before && after == before + {op.e}
      else if op.Add? && w.At(op.e) == Checked(user) then op.e in before && after == before - {op.e}
      else after == before
  {
  }

  /** For one user's key an operation is a step of Interleaving or, as here, none. */
  predicate Touches(max: int, w: World, op: Op, user: string)
    requires Enabled(w, op)
  {
    match op
    case Tick(_) => true
    case Check(e, _) => Apply(max, w, op).At(e) == Checked(user)
    case Add(e, _) => w.At(e).user == user
    case SetExpiry(e, reply) => w.At(e).user == user && reply.Applied()
    case Finish(e, reply) => w.At(e).user == user && reply.Applied()
    case _ => false
  }

  lemma OtherwiseUntouched(max: int, w: World, op: Op, user: string)
    requires Enabled(w, op) && !Touches(max, w, op, user)
    ensures Clearing(Apply(max, w, op), user) == Clearing(w, user) && Apply(max, w, op).Ids(user) == w.Ids(user)
  {
    ClearingAfter(max, w, op, user);
    if (op.Add? || op.SetExpiry? || op.Finish?) && w.At(op.e).user != user {
      OtherKey(w.At(op.e).user, user);
    }
  }

  function SharedStep(op: Op): I.Step<nat>
    requires op.Tick? || op.Check? || op.Add? || op.SetExpiry? || op.Finish?
  {
    match op
    case Tick(later) => I.Step.Tick(later)
    case Check(e, _) => I.Step.Clear(e)
    case Add(e, reply) => if reply.Applied() then I.Step.Add(e, e) else I.Step.Leave(e)
    case SetExpiry(_, _) => I.Step.SetExpiry(LIMITER_EXPIRY)
    case Finish(e, _) => I.Step.Remove({e})
  }

  lemma TouchIsShared(max: int, w: World, op: Op, user: string, k: nat)
    requires Enabled(w, op) && Touches(max, w, op, user) && |Clearing(Apply(max, w, op), user)| <= k
    ensures I.Limit(Key(user), max).Enabled(Shown(w, user, k), SharedStep(op))
    ensures I.Limit(Key(user), max).Apply(Shown(w, user, k), SharedStep(op)) == Shown(Apply(max, w, op), user, k)
  {
    ClearingAfter(max, w, op, user);
  }

  lemma StepIsShared(max: int, w: World, op: Op, user: string, k: nat)
    requires Enabled(w, op) && k >= 1 && |Clearing(Apply(max, w, op), user)| <= k
    requires I.WithinBound(I.Limit(Key(user), max), Shown(w, user, k))
    ensures I.WithinBound(I.Limit(Key(user), max), Shown(Apply(max, w, op), user, k))
  {
    if Touches(max, w, op, user) {
      TouchIsShared(max, w, op, user, k);
      I.StepKeepsBound(I.Limit(Key(user), max), Shown(w, user, k), SharedStep(op));
    } else {
      OtherwiseUntouched(max, w, op, user);
    }
  }

  /** However the endpoints interleave, the ids counted for a user plus the endpoints about to add one
      stay below limit + k, where k bounds those between count and add. */
  lemma {:induction false} IdsWithinLimit(r: Run, n: nat, user: string, k: nat)
    requires r.Valid() && n <= |r.ops| && r.max >= 1 && k >= 1 && AtMostClearing(r, n, user, k)
    ensures |r.states[n].Ids(user)| + |Clearing(r.states[n], user)| <= r.max - 1 + k
  {
    WithinLimit(r, n, user, k);
  }

  lemma {:induction false} WithinLimit(r: Run, n: nat, user: string, k: nat)
    requires r.Valid() && n <= |r.ops| && r.max >= 1 && k >= 1 && AtMostClearing(r, n, user, k)
    ensures I.WithinBound(I.Limit(Key(user), r.max), Shown(r.states[n], user, k))
  {
    if n > 0 {
      WithinLimit(r, n - 1, user, k);
      assert r.Stepped(n - 1);
      StepIsShared(r.max, r.states[n - 1], r.ops[n - 1], user, k);
    } else {
      assert Clearing(r.states[0], user) == {};
    }
  }

  /** Endpoints whose id was added and not yet removed. One whose handshake crashed stays among them. */
  predicate Accepted(p: Phase, user: string) {
    || p == Added(user) || p == Admitted(user) || p == Registered(user) || p == Open(user)
    || p == Leaving(user, true) || (p.CrashedAs? && p.user == user)
  }

  /** No key of the user expires under members that are still connected. */
  ghost predicate NoLapse(r: Run, n: nat, user: string)
    requires n < |r.states| == |r.ops| + 1
  {
    forall i :: 0 <= i < n && r.ops[i].Tick? ==> r.states[i + 1].Ids(user) == r.states[i].Ids(user)
  }

  lemma StepKeepsCounted(max: int, w: World, op: Op, user: string, e: nat)
    requires Enabled(w, op) && Accepted(Apply(max, w, op).At(e), user)
    requires Accepted(w.At(e), user) ==> e in w.Ids(user)
    requires op.Tick? ==> Apply(max, w, op).Ids(user) == w.Ids(user)
    ensures e in Apply(max, w, op).Ids(user)
  {
    if (op.Add? || op.SetExpiry? || op.Finish?) && w.At(op.e).user != user {
      OtherKey(w.At(op.e).user, user);
    }
  }

  /** The limiter counts them all, so a crashed handshake uses up the limit until the key lapses. */
  lemma {:induction false} AcceptedAreCounted(r: Run, n: nat, user: string, e: nat)
    requires r.Valid() && n <= |r.ops| && NoLapse(r, n, user) && Accepted(r.states[n].At(e), user)
    ensures e in r.states[n].Ids(user)
  {
    if n > 0 {
      assert r.Stepped(n - 1);
      if Accepted(r.states[n - 1].At(e), user) {
        AcceptedAreCounted(r, n - 1, user, e);
      }
      StepKeepsCounted(r.max, r.states[n - 1], r.ops[n - 1], user, e);
    }
  }

  ghost function OpenOf(w: World, user: string): set<nat> {
    set e | e in w.phases && Accepted(w.phases[e], user)
  }

  /** So as long as the user's key does not lapse, the connections the user has open, with the crashed
      ones, are bounded too, and by the limit itself when counting and adding do not overlap (k = 1). */
  lemma OpenWithinLimit(r: Run, n: nat, user: string, k: nat)
    requires r.Valid() && n <= |r.ops| && r.max >= 1 && k >= 1 && AtMostClearing(r, n, user, k)
    requires NoLapse(r, n, user)
    ensures |OpenOf(r.states[n], user)| <= r.max - 1 + k
  {
    IdsWithinLimit(r, n, user, k);
    forall e | e in OpenOf(r.states[n], user)
      ensures e in r.states[n].Ids(user)
    {
      AcceptedAreCounted(r, n, user, e);
    }
    SubsetSize(OpenOf(r.states[n], user), r.states[n].Ids(user));
  }

  // ----- when a key lapses -----

  lemma Extend(r: Run, op: Op) returns (r': Run)
    requires r.Valid() && Enabled(r.states[|r.ops|], op)
    ensures r'.Valid() && r'.max == r.max && r'.ops == r.ops + [op]
    ensures r'.states == r.states + [Apply(r.max, r.states[|r.ops|], op)]
  {
    r' := Run(r.max, r.ops + [op], r.states + [Apply(r.max, r.states[|r.ops|], op)]);
    forall i: nat | i < |r'.ops|
      ensures r'.Stepped(i)
    {
      if i < |r.ops| {
        assert r.Stepped(i);
      }
    }
  }

  /** A user has opened m connections, one at a time. */
  ghost predicate Opened(r: Run, user: string, m: nat) {
    && r.Valid()
    && AtMostClearing(r, |r.ops|, user, 1)
    && forall e: nat :: r.Last().At(e) == if e < m then Open(user) else Fresh
  }

  function Stages(user: string): seq<Phase> {
    [Fresh, Awaiting, Decoded(user), Checked(user), Added(user), Admitted(user), Registered(user), Open(user)]
  }

  function Opening(user: string, m: nat): seq<Op> {
    [Connect(m, true), FirstFrame(m, Some(user)), Check(m, Done), Op.Add(m, Done), Op.SetExpiry(m, Done),
     Register(m, true), AuthOk(m, true)]
  }

  /** World v is i operations into opening connection m from world w. */
  ghost predicate AtStage(w: World, v: World, user: string, m: nat, i: nat)
    requires i <= 7
  {
    v.now == w.now && PhaseAtStage(w, v, user, m, i) && KeyAtStage(w, v, user, m, i)
  }

  ghost predicate PhaseAtStage(w: World, v: World, user: string, m: nat, i: nat)
    requires i <= 7
  {
    forall e: nat :: v.At(e) == if e == m then Stages(user)[i] else w.At(e)
  }

  ghost predicate KeyAtStage(w: World, v: World, user: string, m: nat, i: nat)
    requires i <= 7
  {
    && (i < 4 ==> v.keys == w.keys)
    && (i >= 4 ==> Key(user) in v.keys && v.keys[Key(user)].value == w.Ids(user) + {m})
    && (i == 4 ==> v.keys[Key(user)].LiveAt(w.now))
    && (i > 4 ==> v.keys[Key(user)].expiresAt == Some(w.now + 3600.0))
  }

  lemma NextStage(max: int, w: World, v: World, user: string, m: nat, i: nat)
    requires i < 7 && AtStage(w, v, user, m, i) && |w.Ids(user)| < max
    ensures Enabled(v, Opening(user, m)[i]) && AtStage(w, Apply(max, v, Opening(user, m)[i]), user, m, i + 1)
  {
    NextPhase(max, w, v, user, m, i);
    NextKey(max, w, v, user, m, i);
  }

  lemma NextPhase(max: int, w: World, v: World, user: string, m: nat, i: nat)
    requires i < 7 && AtStage(w, v, user, m, i) && |w.Ids(user)| < max
    ensures Enabled(v, Opening(user, m)[i])
    ensures
      var v' := Apply(max, v, Opening(user, m)[i]);
      v'.now == v.now && PhaseAtStage(w, v', user, m, i + 1)
  {
    assert v.At(m) == Stages(user)[i];
    assert i == 2 ==> v.Ids(user) == w.Ids(user);
    var v' := Apply(max, v, Opening(user, m)[i]);
    assert v'.phases == v.phases[m := Stages(user)[i + 1]];
  }

  lemma NextKey(max: int, w: World, v: World, user: string, m: nat, i: nat)
    requires i < 7 && AtStage(w, v, user, m, i) && Enabled(v, Opening(user, m)[i])
    ensures KeyAtStage(w, Apply(max, v, Opening(user, m)[i]), user, m, i + 1)
  {
    assert v.At(m) == Stages(user)[i];
    assert i != 3 && i != 4 ==> Apply(max, v, Opening(user, m)[i]).keys == v.keys;
  }

  lemma OpenOne(r: Run, user: string, m: nat) returns (r': Run)
    requires Opened(r, user, m) && |r.Last().Ids(user)| < r.max
    ensures Opened(r', user, m + 1) && r'.max == r.max
    ensures r'.states[0] == r.states[0] && r'.Last().now == r.Last().now
    ensures r'.Last().Ids(user) == r.Last().Ids(user) + {m}
    ensures Key(user) in r'.Last().keys && r'.Last().keys[Key(user)].expiresAt == Some(r.Last().now + 3600.0)
  {
    var w := r.Last();
    r' := r;
    for i := 0 to 7
      invariant r'.Valid() && r'.max == r.max && r'.states[0] == r.states[0]
      invariant AtMostClearing(r', |r'.ops|, user, 1)
      invariant AtStage(w, r'.Last(), user, m, i)
    {
      NextStage(r.max, w, r'.Last(), user, m, i);
      r' := Extend(r', Opening(user, m)[i]);
      OneClearing(w, r'.Last(), user, m, i + 1);
    }
  }

  lemma OneClearing(w: World, v: World, user: string, m: nat, i: nat)
    requires i <= 7 && AtStage(w, v, user, m, i) && forall e: nat :: w.At(e) == if e < m then Open(user) else Fresh
    ensures |Clearing(v, user)| <= 1
  {
    forall e | e in Clearing(v, user)
      ensures e == m
    {
      assert v.At(e) == Checked(user);
    }
    SubsetSize(Clearing(v, user), {m});
  }

  /** Time passes, beyond the expiry of the user's key. */
  lemma Lapse(r: Run, user: string, m: nat, later: real) returns (r': Run)
    requires Opened(r, user, m) && r.Last().now <= later
    requires Key(user) in r.Last().keys ==> !r.Last().keys[Key(user)].LiveAt(later)
    ensures Opened(r', user, m) && r'.max == r.max
    ensures r'.states[0] == r.states[0] && r'.Last().now == later && r'.Last().Ids(user) == {}
  {
    r' := Extend(r, Op.Tick(later));
    forall e: nat
      ensures r'.Last().At(e) == r.Last().At(e)
    {
    }
    assert Clearing(r'.Last(), user) == Clearing(r.Last(), user);
  }

  lemma NothingOpened(max: int, user: string) returns (r: Run)
    ensures Opened(r, user, 0) && r.max == max && r.Last().now == r.states[0].now == 0.0 && r.Last().keys == map[]
  {
    r := Run(max, [], [World(map[], 0.0, map[], 0, map[])]);
    assert Clearing(r.states[0], user) == {};
  }

  lemma OpenCount(r: Run, user: string, m: nat)
    requires Opened(r, user, m)
    ensures |OpenOf(r.Last(), user)| == m
  {
    I.CountNumbers(m);
    var open := OpenOf(r.Last(), user);
    forall e: nat
      ensures e in open <==> e in I.Numbers(m)
    {
      assert r.Last().At(e) == if e < m then Open(user) else Fresh;
      BelowIsNumber(e, m);
    }
    assert open == I.Numbers(m);
  }

  lemma {:induction false} BelowIsNumber(e: nat, m: nat)
    ensures e < m <==> e in I.Numbers(m)
  {
    if m > 0 {
      BelowIsNumber(e, m - 1);
    }
  }

  /** The limiter's key expires an hour after the last admission, although its connections stay open.
      So no limit holds for ever: any number of connections of one user can be open at once, admitted
      one at a time under any limit. */
  lemma {:induction false} NoBoundAcrossLapses(max: int, user: string, m: nat) returns (r: Run)
    requires max >= 1
    ensures r.max == max && Opened(r, user, m) && r.Last().Ids(user) == {}
    ensures |OpenOf(r.Last(), user)| == m
  {
    if m == 0 {
      r := NothingOpened(max, user);
    } else {
      r := NoBoundAcrossLapses(max, user, m - 1);
      r := OpenOne(r, user, m - 1);
      r := Lapse(r, user, m, r.Last().now + 3601.0);
    }
    OpenCount(r, user, m);
  }

  // ----- how long the limit holds -----

  function Duration(r: Run): real
    requires r.states != []
  {
    r.Last().now - r.states[0].now
  }

  /** Admitted one at a time, no user ever has more than `max` connections within h seconds. */
  ghost predicate LimitHoldsFor(max: int, h: real) {
    forall r: Run, user :: WithinTime(r, user, max, h) ==> |OpenOf(r.Last(), user)| <= max
  }

  ghost predicate WithinTime(r: Run, user: string, max: int, h: real) {
    r.Valid() && r.max == max && AtMostClearing(r, |r.ops|, user, 1) && Duration(r) <= h
  }

  /** No key expires sooner than an hour after the start. */
  lemma {:induction false} KeysLastAnHour(r: Run, n: nat, user: string)
    requires r.Valid() && n <= |r.ops|
    ensures r.states[0].now <= r.states[n].now
    ensures Key(user) in r.states[n].keys ==> r.states[n].keys[Key(user)].LiveAt(r.states[0].now + 3600.0)
  {
    if n > 0 {
      KeysLastAnHour(r, n - 1, user);
      assert r.Stepped(n - 1);
      var w, op := r.states[n - 1], r.ops[n - 1];
      if (op.Add? || op.SetExpiry? || op.Finish?) && w.At(op.e).user != user {
        OtherKey(w.At(op.e).user, user);
      }
    }
  }

  lemma {:induction false} TimePasses(r: Run, i: nat, n: nat)
    requires r.Valid() && i <= n <= |r.ops|
    ensures r.states[i].now <= r.states[n].now
  {
    if i < n {
      TimePasses(r, i, n - 1);
      assert r.Stepped(n - 1);
    }
  }

  lemma NoLapseWithinAnHour(r: Run, user: string)
    requires r.Valid() && Duration(r) <= 3600.0
    ensures NoLapse(r, |r.ops|, user)
  {
    forall i | 0 <= i < |r.ops| && r.ops[i].Tick?
      ensures r.states[i + 1].Ids(user) == r.states[i].Ids(user)
    {
      assert r.Stepped(i);
      KeysLastAnHour(r, i, user);
      TimePasses(r, i + 1, |r.ops|);
    }
  }

  lemma {:induction false} OpenedAtOnce(max: int, user: string, m: nat) returns (r: Run)
    requires m <= max
    ensures r.max == max && Opened(r, user, m) && r.Last().now == r.states[0].now == 0.0
    ensures |r.Last().Ids(user)| <= m
    ensures Key(user) in r.Last().keys ==> r.Last().keys[Key(user)].expiresAt == Some(3600.0)
  {
    if m == 0 {
      r := NothingOpened(max, user);
    } else {
      r := OpenedAtOnce(max, user, m - 1);
      r := OpenOne(r, user, m - 1);
    }
  }

  /** The exact time the limit holds for: an hour, the expiry of the limiter's key. */
  lemma LimitHoldsForAnHour(max: int, h: real)
    requires max >= 1
    ensures LimitHoldsFor(max, h) <==> h <= 3600.0
  {
    if h <= 3600.0 {
      forall r: Run, user | WithinTime(r, user, max, h)
        ensures |OpenOf(r.Last(), user)| <= max
      {
        NoLapseWithinAnHour(r, user);
        OpenWithinLimit(r, |r.ops|, user, 1);
      }
    } else {
      var user := "u";
      var r := OpenedAtOnce(max, user, max);
      r := Lapse(r, user, max, h);
      r := OpenOne(r, user, max);
      OpenCount(r, user, max + 1);
      assert WithinTime(r, user, max, h);
    }
  }

  // ----- the gauge -----

  predicate InGauge(p: Phase) {
    p.Registered? || p.Open? || (p.Leaving? && p.accepted) || (p.CrashedAs? && p.registered)
  }

  predicate RefusedAndDone(p: Phase) { p.Finished? && !p.accepted }

  ghost function Gauged(phases: map<nat, Phase>): set<nat> { set e | e in phases && InGauge(phases[e]) }

  ghost function Refusals(phases: map<nat, Phase>): set<nat> { set e | e in phases && RefusedAndDone(phases[e]) }

  ghost function Balance(phases: map<nat, Phase>): int { |Gauged(phases)| - |Refusals(phases)| }

  function Weight(p: Phase): int { (if InGauge(p) then 1 else 0) - if RefusedAndDone(p) then 1 else 0 }

  lemma PutChangesBalance(phases: map<nat, Phase>, e: nat, p: Phase)
    ensures Balance(phases[e := p]) == Balance(phases) - (if e in phases then Weight(phases[e]) else 0) + Weight(p)
  {
    PutChangesGauged(phases, e, p);
    PutChangesRefusals(phases, e, p);
  }

  lemma PutChangesGauged(phases: map<nat, Phase>, e: nat, p: Phase)
    ensures |Gauged(phases[e := p])|
         == |Gauged(phases)| - (if e in phases && InGauge(phases[e]) then 1 else 0) + if InGauge(p) then 1 else 0
  {
    assert Gauged(phases[e := p]) == if InGauge(p) then Gauged(phases) + {e} else Gauged(phases) - {e};
  }

  lemma PutChangesRefusals(phases: map<nat, Phase>, e: nat, p: Phase)
    ensures |Refusals(phases[e := p])|
         == |Refusals(phases)| - (if e in phases && RefusedAndDone(phases[e]) then 1 else 0) +
             if RefusedAndDone(p) then 1 else 0
  {
    assert Refusals(phases[e := p]) == if RefusedAndDone(p) then Refusals(phases) + {e} else Refusals(phases) - {e};
  }

  /** What an operation does to the gauge is what it does to the weight of its endpoint. */
  lemma GaugeAfter(max: int, w: World, op: Op)
    requires Enabled(w, op)
    ensures
      var w' := Apply(max, w, op);
      if op.Tick? || op.Drop? || op.Receive? then w'.gauge == w.gauge && w'.phases == w.phases
      else w'.phases == w.phases[op.e := w'.At(op.e)] && w'.gauge - w.gauge == Weight(w'.At(op.e)) - Weight(w.At(op.e))
  {
  }

  /** The gauge is the number of accepted connections that have not finished, less the number of
      refused ones that have: the cleanup lowers it for both. */
  lemma {:induction false} GaugeCounts(r: Run, n: nat)
    requires r.Valid() && n <= |r.ops|
    ensures r.states[n].gauge == |Gauged(r.states[n].phases)| - |Refusals(r.states[n].phases)|
  {
    if n > 0 {
      GaugeCounts(r, n - 1);
      assert r.Stepped(n - 1);
      var w, op := r.states[n - 1], r.ops[n - 1];
      GaugeAfter(r.max, w, op);
      if !op.Tick? && !op.Drop? && !op.Receive? {
        PutChangesBalance(w.phases, op.e, r.states[n].At(op.e));
      }
    } else {
      assert Gauged(map[]) == {} && Refusals(map[]) == {};
    }
  }

  /** So it is right exactly while no refused connection has been cleaned up. */
  lemma GaugeRightIff(r: Run, n: nat)
    requires r.Valid() && n <= |r.ops|
    ensures r.states[n].gauge == |Gauged(r.states[n].phases)| <==> forall e :: !RefusedAndDone(r.states[n].At(e))
  {
    GaugeCounts(r, n);
    var gone := Refusals(r.states[n].phases);
    if e :| RefusedAndDone(r.states[n].At(e)) {
      assert e in gone;
    }
    if gone != {} {
      var e :| e in gone;
      assert RefusedAndDone(r.states[n].At(e));
    }
  }

  // ----- the connection manager -----

  predicate Reachable(p: Phase, user: string) {
    p == Registered(user) || p == Open(user) || p == CrashedAs(user, true)
  }

  /** The manager never maps a key to a socket that has entered on_disconnect, let alone finished it. */
  lemma {:induction false} ManagerHoldsLive(r: Run, n: nat, user: string)
    requires r.Valid() && n <= |r.ops| && SessionKey(user) in r.states[n].manager
    ensures Reachable(r.states[n].At(r.states[n].manager[SessionKey(user)]), user)
  {
    if n > 0 {
      assert r.Stepped(n - 1);
      if SessionKey(user) in r.states[n - 1].manager {
        ManagerHoldsLive(r, n - 1, user);
      }
      ManagerAfter(r.max, r.states[n - 1], r.ops[n - 1], user);
    }
  }

  /** What an operation does to one key of the manager. */
  lemma ManagerAfter(max: int, w: World, op: Op, user: string)
    requires Enabled(w, op)
    ensures
      var before, after, key := w.manager, Apply(max, w, op).manager, SessionKey(user);
      && (Displaces(w, op, user) && op.Register? ==> key in after && after[key] == op.e)
      && (Displaces(w, op, user) && !op.Register? ==> key !in after)
      && (!Displaces(w, op, user) ==> (key in after <==> key in before))
      && (!Displaces(w, op, user) && key in after ==> after[key] == before[key])
  {
    if (op.Register? || (op.Leave? && w.At(op.e).Open?)) && w.At(op.e).user != user {
      OtherKey(w.At(op.e).user, user);
    }
  }

  /** What takes a user's key away from the socket registered under it: another connection of the same
      user, the end of any registered connection of the same user, or a failed broadcast. */
  predicate Displaces(w: World, op: Op, user: string) {
    match op
    case Register(e, stored) => stored && w.At(e) == Admitted(user)
    case Leave(e) => w.At(e) == Open(user)
    case Drop(key) => key == SessionKey(user)
    case _ => false
  }

  predicate PastAdmission(p: Phase) {
    !p.Fresh? && !p.Rejected? && !p.Awaiting? && !p.Failed? && !p.Decoded? && !p.Checked? && !p.Added? && !p.Admitted?
  }

  lemma {:induction false} StaysPast(r: Run, i: nat, n: nat, e: nat)
    requires r.Valid() && i <= n <= |r.ops| && PastAdmission(r.states[i].At(e))
    ensures PastAdmission(r.states[n].At(e))
  {
    if i < n {
      StaysPast(r, i, n - 1, e);
      assert r.Stepped(n - 1);
    }
  }

  /** A registered connection stays reachable for broadcasts exactly until the first such event. In
      particular a user's second connection makes the first unreachable, and closing either of them
      makes both so, although the other is still open. */
  lemma {:induction false} ReachableUntilDisplaced(r: Run, i: nat, n: nat, e: nat, user: string)
    requires r.Valid() && i < n <= |r.ops|
    requires r.ops[i] == Register(e, true) && r.states[i].At(e) == Admitted(user)
    ensures (SessionKey(user) in r.states[n].manager && r.states[n].manager[SessionKey(user)] == e)
       <==> forall j :: i < j < n ==> !Displaces(r.states[j], r.ops[j], user)
  {
    assert r.Stepped(i);
    if i < n - 1 {
      ReachableUntilDisplaced(r, i, n - 1, e, user);
      StaysPast(r, i + 1, n - 1, e);
      assert r.Stepped(n - 1);
      ManagerAfter(r.max, r.states[n - 1], r.ops[n - 1], user);
    }
  }
}
