/** The endpoint, the limiter and the connection manager as they run alone. */
module WebSocket {
  import opened Lifecycle
  import opened Redis

  /** How sending a broadcast to one socket ends: a dead client is dropped, any other error ignored. */
  datatype Send = Sent | Dead | Error

  /** What other endpoints do to the connections while a broadcast waits. */
  datatype Move = Joined(key: string, socket: nat) | Gone(key: string)

  /** The end of one send of a broadcast, and the moves of others since the one before. */
  datatype Turn = Turn(others: seq<Move>, key: string, send: Send)

  /** Each connection of the snapshot is tried once. */
  ghost predicate TriesAll(connections: map<string, nat>, turns: seq<Turn>) {
    && (forall key :: key in connections <==> exists i :: 0 <= i < |turns| && turns[i].key == key)
    && EachOnce(turns)
  }

  ghost predicate EachOnce(turns: seq<Turn>) {
    forall i, j :: 0 <= i < j < |turns| ==> turns[i].key != turns[j].key
  }

  /** All that happens to the connections; a send to a dead client drops its key. */
  function Events(turns: seq<Turn>): seq<Move> {
    if turns == [] then []
    else
      var last := turns[|turns| - 1];
      Events(turns[..|turns| - 1]) + last.others + if last.send.Dead? then [Gone(last.key)] else []
  }

  function Moved(to: Option<nat>, m: Move, key: string): Option<nat> {
    if m.key != key then to
    else match m case Joined(_, socket) => Some(socket) case Gone(_) => None
  }

  /** The socket under a key is decided by the last move on that key. */
  function Reached(connections: map<string, nat>, moves: seq<Move>, key: string): Option<nat> {
    if moves == [] then
      if key in connections then Some(connections[key]) else None
    else
      Moved(Reached(connections, moves[..|moves| - 1], key), moves[|moves| - 1], key)
  }

  ghost predicate AsReached(connections: map<string, nat>, before: map<string, nat>, moves: seq<Move>) {
    forall key :: Reached(connections, [], key) == Reached(before, moves, key)
  }

  lemma ReachedNext(before: map<string, nat>, moves: seq<Move>, last: Move, key: string)
    ensures Reached(before, moves + [last], key) == Moved(Reached(before, moves, key), last, key)
  {
    assert (moves + [last])[..|moves|] == moves;
  }

  lemma {:induction false} ReachedBeyond(before: map<string, nat>, moves: seq<Move>, more: seq<Move>, key: string)
    requires forall i :: 0 <= i < |more| ==> more[i].key != key
    ensures Reached(before, moves + more, key) == Reached(before, moves, key)
  {
    if more == [] {
      assert moves + more == moves;
    } else {
      var front, last := more[..|more| - 1], more[|more| - 1];
      ReachedBeyond(before, moves, front, key);
      assert moves + more == (moves + front) + [last];
      ReachedNext(before, moves + front, last, key);
    }
  }

  lemma ReachedLast(before: map<string, nat>, done: seq<Move>, moves: seq<Move>, l: nat, key: string, socket: nat)
    requires l < |moves| && moves[l] == Joined(key, socket)
    requires forall m :: l < m < |moves| ==> moves[m].key != key
    ensures Reached(before, done + moves, key) == Some(socket)
  {
    ReachedNext(before, done + moves[..l], moves[l], key);
    ReachedBeyond(before, done + moves[..l] + [moves[l]], moves[l + 1..], key);
    assert done + moves == done + moves[..l] + [moves[l]] + moves[l + 1..];
  }

  lemma EventsNext(turns: seq<Turn>, n: nat)
    requires n < |turns|
    ensures Events(turns[..n + 1])
         == Events(turns[..n]) + turns[n].others + if turns[n].send.Dead? then [Gone(turns[n].key)] else []
  {
    assert turns[..n + 1][..n] == turns[..n];
  }

  lemma ReachedAfterTurn(before: map<string, nat>, turns: seq<Turn>, n: nat, key: string)
    requires n < |turns|
    ensures
      var reached := Reached(before, Events(turns[..n]) + turns[n].others, key);
      Reached(before, Events(turns[..n + 1]), key)
        == if turns[n].send.Dead? then Moved(reached, Gone(turns[n].key), key) else reached
  {
    EventsNext(turns, n);
    var moves := Events(turns[..n]) + turns[n].others;
    assert moves + [] == moves;
    ReachedNext(before, moves, Gone(turns[n].key), key);
  }

  /** With no other endpoint in between, exactly the connections of dead clients are dropped. */
  lemma {:induction false} BroadcastAlone(before: map<string, nat>, turns: seq<Turn>, n: nat, key: string)
    requires n <= |turns| && forall i :: 0 <= i < |turns| ==> turns[i].others == []
    ensures Reached(before, Events(turns[..n]), key)
         == if exists i :: 0 <= i < n && turns[i].key == key && turns[i].send.Dead? then None
            else Reached(before, [], key)
  {
    if n > 0 {
      BroadcastAlone(before, turns, n - 1, key);
      assert Events(turns[..n - 1]) + [] == Events(turns[..n - 1]);
      ReachedAfterTurn(before, turns, n - 1, key);
    }
  }

  lemma QuietTurn(before: map<string, nat>, turns: seq<Turn>, n: nat, key: string)
    requires n < |turns| && forall m :: 0 <= m < |turns[n].others| ==> turns[n].others[m].key != key
    ensures Reached(before, Events(turns[..n + 1]), key)
         == if turns[n].send.Dead? && turns[n].key == key then None else Reached(before, Events(turns[..n]), key)
  {
    ReachedAfterTurn(before, turns, n, key);
    ReachedBeyond(before, Events(turns[..n]), turns[n].others, key);
  }

  /** In turn j a connection takes over the key, as the last of the broadcast to do so. */
  ghost predicate TakesOver(turns: seq<Turn>, j: nat, l: nat, key: string, socket: nat) {
    && j < |turns| && l < |turns[j].others| && turns[j].others[l] == Joined(key, socket)
    && (forall m :: l < m < |turns[j].others| ==> turns[j].others[m].key != key)
    && (forall n, m :: j < n < |turns| && 0 <= m < |turns[n].others| ==> turns[n].others[m].key != key)
  }

  lemma TakeoverTurn(before: map<string, nat>, turns: seq<Turn>, j: nat, l: nat, key: string, socket: nat)
    requires TakesOver(turns, j, l, key, socket)
    ensures Reached(before, Events(turns[..j + 1]), key)
         == if turns[j].send.Dead? && turns[j].key == key then None else Some(socket)
  {
    ReachedAfterTurn(before, turns, j, key);
    ReachedLast(before, Events(turns[..j]), turns[j].others, l, key, socket);
  }

  lemma {:induction false} ReplacedUntil(before: map<string, nat>, turns: seq<Turn>, i: nat, j: nat, l: nat,
      socket: nat, n: nat)
    requires EachOnce(turns) && i < |turns| && j < n <= |turns| && TakesOver(turns, j, l, turns[i].key, socket)
    ensures Reached(before, Events(turns[..n]), turns[i].key)
         == if turns[i].send.Dead? && j <= i < n then None else Some(socket)
    decreases n
  {
    assert turns[n - 1].key == turns[i].key ==> n - 1 == i;
    if n == j + 1 {
      TakeoverTurn(before, turns, j, l, turns[i].key, socket);
    } else {
      ReplacedUntil(before, turns, i, j, l, socket, n - 1);
      QuietTurn(before, turns, n - 1, turns[i].key);
    }
  }

  /** A connection that takes over a key during a broadcast is never tried itself. It is dropped if and
      only if the send to the connection before it ends dead afterwards. */
  lemma ReplacementDroppedIff(before: map<string, nat>, turns: seq<Turn>, i: nat, j: nat, l: nat, socket: nat)
    requires TriesAll(before, turns) && i < |turns| && TakesOver(turns, j, l, turns[i].key, socket)
    ensures Reached(before, Events(turns), turns[i].key)
         == if turns[i].send.Dead? && j <= i then None else Some(socket)
  {
    assert turns[..|turns|] == turns;
    ReplacedUntil(before, turns, i, j, l, socket, |turns|);
  }

  class ConnectionManager {
    var connections: map<string, nat>

    constructor ()
      ensures connections == map[]
    {
      connections := map[];
    }

    method Connect(key: string, socket: nat)
      modifies this
      ensures connections == old(connections)[key := socket]
    {
      connections := connections[key := socket];
    }

    method Disconnect(key: string)
      modifies this
      ensures connections == old(connections) - {key}
    {
      if key !in connections {
        return;
      }
      connections := connections - {key};
    }

    /** Every connection of the snapshot is tried, the sends end in any order, and between them other
        endpoints connect and disconnect. */
    method Broadcast(turns: seq<Turn>)
      requires TriesAll(connections, turns)
      modifies this
      ensures AsReached(connections, old(connections), Events(turns))
    {
      ghost var before, moves := connections, [];
      for i := 0 to |turns|
        invariant moves == Events(turns[..i]) && AsReached(connections, before, moves)
      {
        EventsNext(turns, i);
        moves := LetOthersMove(turns[i].others, before, moves);
        if turns[i].send.Dead? {
          Disconnect(turns[i].key);
          NextReached(before, moves, Gone(turns[i].key));
          moves := moves + [Gone(turns[i].key)];
        }
      }
      assert turns[..|turns|] == turns;
    }

    /** What other endpoints do while a send waits. */
    method LetOthersMove(others: seq<Move>, ghost before: map<string, nat>, ghost moves: seq<Move>)
        returns (ghost after: seq<Move>)
      requires AsReached(connections, before, moves)
      modifies this
      ensures after == moves + others && AsReached(connections, before, after)
    {
      after := moves;
      for i := 0 to |others|
        invariant after == moves + others[..i] && AsReached(connections, before, after)
      {
        match others[i] {
          case Joined(key, socket) => Connect(key, socket);
          case Gone(key) => Disconnect(key);
        }
        NextReached(before, after, others[i]);
        after := after + [others[i]];
      }
      assert others[..|others|] == others;
    }
  }

  lemma NextReached(before: map<string, nat>, moves: seq<Move>, last: Move)
    ensures forall key :: Reached(before, moves + [last], key) == Moved(Reached(before, moves, key), last, key)
  {
    forall key {
      ReachedNext(before, moves, last, key);
    }
  }

  /** The limiter's keys after an attempt to add a connection. */
  function AddKeys(max: int, keys: map<string, Timed<set<nat>>>, user: string, id: nat, now: real, count: Reply,
      add: Reply, expiry: Reply)
    : map<string, Timed<set<nat>>>
  {
    if count.Raised() || |Members(keys, Key(user), now)| >= max || !add.Applied() then keys
    else if add.Raised() || !expiry.Applied() then AddMember(keys, Key(user), id, now)
    else Expire(AddMember(keys, Key(user), id, now), Key(user), LIMITER_EXPIRY, now)
  }

  class ConnectionLimiter {
    const redis: KeySpace<set<nat>>
    const max: int

    constructor (max: int)
      ensures fresh(redis) && redis.keys == map[] && this.max == max
    {
      redis := new KeySpace();
      this.max := max;
    }

    /** False for a full set and for any error, even one after the id was written. */
    method AddConnection(user: string, id: nat, now: real, count: Reply, add: Reply, expiry: Reply)
        returns (allowed: bool)
      modifies redis
      ensures allowed <==> count.Done? && |Members(old(redis.keys), Key(user), now)| < max && add.Done? && expiry.Done?
      ensures allowed ==> id in Members(redis.keys, Key(user), now)
      ensures redis.keys == AddKeys(max, old(redis.keys), user, id, now, count, add, expiry)
    {
      if count.Raised() {
        return false;
      }
      if |Members(redis.keys, Key(user), now)| >= max {
        return false;
      }
      if add.Applied() {
        redis.keys := AddMember(redis.keys, Key(user), id, now);
      }
      if add.Raised() {
        return false;
      }
      if expiry.Applied() {
        redis.keys := Expire(redis.keys, Key(user), LIMITER_EXPIRY, now);
      }
      return !expiry.Raised();
    }

    method RemoveConnection(user: string, id: nat, now: real, reply: Reply)
      modifies redis
      ensures redis.keys ==
        if reply.Applied() then RemoveMembers(old(redis.keys), Key(user), {id}, now) else old(redis.keys)
      ensures reply.Applied() ==> Members(redis.keys, Key(user), now) == Members(old(redis.keys), Key(user), now) - {id}
    {
      if reply.Applied() {
        redis.keys := RemoveMembers(redis.keys, Key(user), {id}, now);
      }
    }
  }

  // ----- the endpoint -----

  /** These operations, one after the other, lead from one world to another. */
  ghost predicate Plays(max: int, w: World, ops: seq<Op>, w': World)
    decreases |ops|
  {
    if ops == [] then w == w' else Enabled(w, ops[0]) && Plays(max, Apply(max, w, ops[0]), ops[1..], w')
  }

  /** How many messages are handled. */
  ghost function Receipts(ops: seq<Op>): nat {
    if ops == [] then 0 else (if ops[0].Receive? then 1 else 0) + Receipts(ops[1..])
  }

  lemma {:induction false} PlaysThen(max: int, w: World, first: seq<Op>, middle: World, second: seq<Op>, w': World)
    requires Plays(max, w, first, middle) && Plays(max, middle, second, w')
    ensures Plays(max, w, first + second, w') && Receipts(first + second) == Receipts(first) + Receipts(second)
    decreases |first|
  {
    if first == [] {
      assert first + second == second;
    } else {
      PlaysThen(max, Apply(max, w, first[0]), first[1..], middle, second, w');
      assert (first + second)[1..] == first[1..] + second;
    }
  }

  lemma PlaysOne(max: int, w: World, op: Op)
    requires Enabled(w, op)
    ensures Plays(max, w, [op], Apply(max, w, op)) && Receipts([op]) == if op.Receive? then 1 else 0
  {
    assert [op][1..] == [];
  }

  /** Counting, adding and setting the expiry, as far as each succeeds. */
  lemma AddPlays(max: int, w: World, e: nat, count: Reply, add: Reply, expiry: Reply) returns (ops: seq<Op>)
    requires w.At(e).Decoded?
    ensures
      var u := w.At(e).user;
      var allowed := count.Done? && |w.Ids(u)| < max && add.Done? && expiry.Done?;
      var keys := AddKeys(max, w.keys, u, e, w.now, count, add, expiry);
      && Plays(max, w, ops, w.(keys := keys).Put(e, if allowed then Admitted(u) else TurnedAway(u)))
      && Receipts(ops) == 0
  {
    var u := w.At(e).user;
    var w1 := Apply(max, w, Check(e, count));
    PlaysOne(max, w, Check(e, count));
    ops := [Check(e, count)];
    if w1.At(e).Checked? {
      var w2 := Apply(max, w1, Op.Add(e, add));
      PlaysOne(max, w1, Op.Add(e, add));
      PlaysThen(max, w, ops, w1, [Op.Add(e, add)], w2);
      ops := ops + [Op.Add(e, add)];
      assert w2.phases == w.phases[e := w2.At(e)];
      if w2.At(e).Added? {
        var w3 := Apply(max, w2, Op.SetExpiry(e, expiry));
        PlaysOne(max, w2, Op.SetExpiry(e, expiry));
        PlaysThen(max, w, ops, w2, [Op.SetExpiry(e, expiry)], w3);
        ops := ops + [Op.SetExpiry(e, expiry)];
        assert w3.phases == w.phases[e := w3.At(e)];
      }
    }
  }

  /** The limiter lets a connection of the user in: below the maximum, and none of its calls raises. */
  predicate LetsIn(max: int, w: World, user: string, count: Reply, add: Reply, expiry: Reply) {
    count.Done? && |w.Ids(user)| < max && add.Done? && expiry.Done?
  }

  class Service {
    const limiter: ConnectionLimiter
    const manager: ConnectionManager
    var gauge: int
    var now: real
    ghost var phases: map<nat, Phase>

    constructor (limiter: ConnectionLimiter)
      ensures this.limiter == limiter && fresh(manager) && manager.connections == map[] && gauge == 0 && phases == map[]
    {
      this.limiter, gauge, phases := limiter, 0, map[];
      manager := new ConnectionManager();
    }

    ghost function View(): World
      reads this, manager, limiter.redis
    {
      World(limiter.redis.keys, now, manager.connections, gauge, phases)
    }
  }

  /** What the endpoint knows of its user: nothing before on_connect has got past the origin check. */
  datatype User = Unset | Unauthenticated | Authenticated(name: string)

  /** How a part of dispatch ends; `Raised` is an exception that the endpoint does not catch. */
  datatype Outcome = Ready | Closed | Raised

  /** A message, a disconnection, or an error while receiving, decoding or handling. */
  datatype Message = Data | Disconnect | Broken

  class Endpoint {
    const service: Service
    const id: nat
    var user: User
    var connectionId: Option<nat>
    var sessionKey: Option<string>

    constructor (service: Service, id: nat)
      ensures this.service == service && this.id == id
      ensures user == Unset && connectionId.None? && sessionKey.None?
    {
      this.service, this.id := service, id;
      user, connectionId, sessionKey := Unset, None, None;
    }

    /** The fields agree with where the endpoint stands. */
    ghost predicate Stands(p: Phase)
      reads this, service
    {
      && (if id in service.phases then service.phases[id] else Fresh) == p
      && match p
         case Fresh => user == Unset && connectionId.None? && sessionKey.None?
         case Rejected => user == Unset && connectionId.None? && sessionKey.None?
         case Awaiting => user == Unauthenticated && connectionId.None? && sessionKey.None?
         case Failed => user == Unauthenticated && connectionId.None? && sessionKey.None?
         case Decoded(u) => user == Authenticated(u) && connectionId.None? && sessionKey.None?
         case TurnedAway(u) => user == Authenticated(u) && connectionId == Some(id) && sessionKey.None?
         case Open(u) => user == Authenticated(u) && connectionId == Some(id) && sessionKey == Some(SessionKey(u))
         case _ => true
    }

    method OnConnect(allowed: bool)
      requires Stands(Fresh)
      modifies this, service
      ensures service.View() == Apply(service.limiter.max, old(service.View()), Connect(id, allowed))
      ensures Stands(if allowed then Awaiting else Rejected)
    {
      service.phases := Apply(service.limiter.max, service.View(), Connect(id, allowed)).phases;
      if !allowed {
        return;
      }
      user := Unauthenticated;
    }

    /** `username` is the user of a valid first frame with a valid token; `raises` a frame whose shape
        the handshake does not expect. */
    method OnFirstMessage(username: Option<string>, raises: bool, count: Reply, add: Reply, expiry: Reply,
        stored: bool, sent: bool)
      returns (outcome: Outcome, ghost ops: seq<Op>)
      requires Stands(Awaiting)
      modifies this, service, service.manager, service.limiter.redis
      ensures Plays(service.limiter.max, old(service.View()), ops, service.View()) && Receipts(ops) == 0
      ensures outcome.Ready? ==> username.Some? && !raises && Stands(Open(username.value))
      ensures outcome.Ready? ==> count.Done? && add.Done? && expiry.Done? && stored && sent
      ensures outcome.Closed? ==> Stands(if username.Some? then TurnedAway(username.value) else Failed)
      ensures outcome.Raised? ==> service.View().At(id).Crashed? || service.View().At(id).CrashedAs?
      ensures
        var turnedAway := username.Some? &&
          !LetsIn(service.limiter.max, old(service.View()), username.value, count, add, expiry);
        && (outcome.Raised? <==> raises || (username.Some? && !turnedAway && !(stored && sent)))
        && (outcome.Closed? <==> !raises && (username.None? || turnedAway))
    {
      ghost var max, w := service.limiter.max, service.View();
      if raises {
        PlaysOne(max, w, Break(id));
        service.phases := Apply(max, w, Break(id)).phases;
        return Raised, [Break(id)];
      }
      ghost var decoded := Apply(max, w, FirstFrame(id, username));
      PlaysOne(max, w, FirstFrame(id, username));
      service.phases := decoded.phases;
      if username.None? {
        return Closed, [FirstFrame(id, username)];
      }
      user := Authenticated(username.value);
      ghost var later;
      outcome, later := PostAuthSetup(count, add, expiry, stored, sent);
      PlaysThen(max, w, [FirstFrame(id, username)], decoded, later, service.View());
      ops := [FirstFrame(id, username)] + later;
    }

    method PostAuthSetup(count: Reply, add: Reply, expiry: Reply, stored: bool, sent: bool)
      returns (outcome: Outcome, ghost ops: seq<Op>)
      requires user.Authenticated? && Stands(Decoded(user.name))
      modifies this, service, service.manager, service.limiter.redis
      ensures user == old(user) && Receipts(ops) == 0
      ensures Plays(service.limiter.max, old(service.View()), ops, service.View())
      ensures outcome.Ready? ==> Stands(Open(user.name)) && count.Done? && add.Done? && expiry.Done? && stored && sent
      ensures outcome.Closed? ==> Stands(TurnedAway(user.name))
      ensures outcome.Raised? ==> service.View().At(id).CrashedAs?
      ensures outcome.Closed? <==> !LetsIn(service.limiter.max, old(service.View()), user.name, count, add, expiry)
      ensures outcome.Raised? ==> !(stored && sent)
    {
      ghost var max, w := service.limiter.max, service.View();
      ops := AddPlays(max, w, id, count, add, expiry);
      connectionId := Some(id);
      var allowed := service.limiter.AddConnection(user.name, id, service.now, count, add, expiry);
      service.phases := service.phases[id := if allowed then Admitted(user.name) else TurnedAway(user.name)];
      ghost var w1 := service.View();
      if !allowed {
        return Closed, ops;
      }
      ghost var later;
      outcome, later := RegisterSession(stored, sent);
      PlaysThen(max, w, ops, w1, later, service.View());
      ops := ops + later;
    }

    /** The last steps of the setup: session in Redis, connection manager, gauge, auth_ok. */
    method RegisterSession(stored: bool, sent: bool) returns (outcome: Outcome, ghost ops: seq<Op>)
      requires user.Authenticated? && connectionId == Some(id) && service.View().At(id) == Admitted(user.name)
      modifies this, service, service.manager
      ensures user == old(user) && Receipts(ops) == 0
      ensures Plays(service.limiter.max, old(service.View()), ops, service.View())
      ensures if stored && sent then outcome.Ready? && Stands(Open(user.name))
              else outcome.Raised? && service.View().At(id) == CrashedAs(user.name, stored)
    {
      ghost var max, w := service.limiter.max, service.View();
      PlaysOne(max, w, Register(id, stored));
      ops := [Register(id, stored)];
      service.phases := Apply(max, w, Register(id, stored)).phases;
      if !stored {
        return Raised, ops;
      }
      sessionKey := Some(SessionKey(user.name));
      service.manager.Connect(sessionKey.value, id);
      service.gauge := service.gauge + 1;
      ghost var w1 := service.View();
      PlaysOne(max, w1, AuthOk(id, sent));
      PlaysThen(max, w, ops, w1, [AuthOk(id, sent)], Apply(max, w1, AuthOk(id, sent)));
      ops := ops + [AuthOk(id, sent)];
      service.phases := Apply(max, w1, AuthOk(id, sent)).phases;
      outcome := if sent then Ready else Raised;
    }

    /** The cleanup: the session key only if it was registered, the limiter and the gauge for every
        authenticated user; with no user attribute at all it raises. */
    method OnDisconnect(reply: Reply) returns (outcome: Outcome, ghost ops: seq<Op>)
      requires Stands(Rejected) || Stands(Failed) || exists u :: Stands(TurnedAway(u)) || Stands(Open(u))
      modifies this, service, service.manager, service.limiter.redis
      ensures Plays(service.limiter.max, old(service.View()), ops, service.View())
      ensures Receipts(ops) == 0 && !outcome.Ready? && (outcome.Raised? <==> old(user).Unset?)
      ensures !outcome.Raised? ==> CleanedUp(service.View().At(id)) && !service.View().At(id).Leaving?
      ensures outcome.Raised? ==> service.View().At(id).Crashed?
    {
      ghost var max, w := service.limiter.max, service.View();
      ghost var w1 := Apply(max, w, Leave(id));
      PlaysOne(max, w, Leave(id));
      ops := [Leave(id)];
      if sessionKey.Some? {
        service.manager.Disconnect(sessionKey.value);
      }
      service.phases := w1.phases;
      if user.Unset? {
        return Raised, ops;
      }
      if user.Authenticated? && connectionId.Some? {
        ghost var w2 := Apply(max, w1, Finish(id, reply));
        PlaysOne(max, w1, Finish(id, reply));
        PlaysThen(max, w, ops, w1, [Finish(id, reply)], w2);
        ops := ops + [Finish(id, reply)];
        service.limiter.RemoveConnection(user.name, connectionId.value, service.now, reply);
        service.gauge := service.gauge - 1;
        service.phases := w2.phases;
      }
      outcome := Closed;
    }

    /** The whole life of the endpoint, run alone, is a path of the machine in Lifecycle. After a handshake
        that got through exactly the messages before the first that is not data are handled, and a
        disconnection ends the endpoint quietly; otherwise none is handled.
        The cleanup is complete just when the origin was allowed, the first message did not raise, and
        either no user was found, or the limiter turned the user away, or nothing after it raised. */
    method Dispatch(allowed: bool, username: Option<string>, raises: bool, count: Reply, add: Reply, expiry: Reply,
        stored: bool, sent: bool, messages: seq<Message>, reply: Reply)
      returns (outcome: Outcome, received: nat, ghost ops: seq<Op>)
      requires Stands(Fresh)
      modifies this, service, service.manager, service.limiter.redis
      ensures Plays(service.limiter.max, old(service.View()), ops, service.View())
      ensures received <= |messages| && forall i :: 0 <= i < received ==> messages[i].Data?
      ensures
        var turnedAway := username.Some? &&
          !LetsIn(service.limiter.max, old(service.View()), username.value, count, add, expiry);
        var begins := allowed && !raises && username.Some? && !turnedAway && stored && sent;
        && Receipts(ops) == received && (begins && received < |messages| ==> !messages[received].Data?)
        && (!begins ==> received == 0)
        && (outcome.Closed? <==>
            if begins then received < |messages| && messages[received].Disconnect?
            else allowed && !raises && (username.None? || turnedAway))
        && (CleanedUp(service.View().At(id)) && !service.View().At(id).Leaving? <==>
            begins || (allowed && !raises && (username.None? || turnedAway)))
    {
      ghost var max, w := service.limiter.max, service.View();
      received := 0;
      PlaysOne(max, w, Connect(id, allowed));
      OnConnect(allowed);
      ops := [Connect(id, allowed)];
      ghost var later;
      if allowed {
        ghost var w1 := service.View();
        outcome, later := OnFirstMessage(username, raises, count, add, expiry, stored, sent);
        PlaysThen(max, w, ops, w1, later, service.View());
        ops := ops + later;
        if outcome.Raised? {
          return;
        }
      } else {
        outcome := Closed;
      }
      ghost var w2 := service.View();
      if outcome.Closed? {
        outcome, later := OnDisconnect(reply);
        PlaysThen(max, w, ops, w2, later, service.View());
        ops := ops + later;
        return;
      }
      outcome, received, later := Serve(username.value, messages, reply);
      PlaysThen(max, w, ops, w2, later, service.View());
      ops := ops + later;
    }

    /** The message loop and the cleanup behind it. */
    method Serve(name: string, messages: seq<Message>, reply: Reply)
        returns (outcome: Outcome, received: nat, ghost ops: seq<Op>)
      requires Stands(Open(name))
      modifies this, service, service.manager, service.limiter.redis
      ensures Plays(service.limiter.max, old(service.View()), ops, service.View())
      ensures received <= |messages| && forall i :: 0 <= i < received ==> messages[i].Data?
      ensures received < |messages| ==> !messages[received].Data?
      ensures outcome.Closed? <==> received < |messages| && messages[received].Disconnect?
      ensures Receipts(ops) == received && !outcome.Ready?
      ensures CleanedUp(service.View().At(id)) && !service.View().At(id).Leaving?
    {
      ghost var max, w := service.limiter.max, service.View();
      received, ops := 0, [];
      while received < |messages| && messages[received].Data?
        invariant received <= |messages| && forall i :: 0 <= i < received ==> messages[i].Data?
        invariant service.View() == w && Stands(Open(name))
        invariant Plays(max, w, ops, w) && Receipts(ops) == received
      {
        PlaysOne(max, w, Receive(id));
        PlaysThen(max, w, ops, w, [Receive(id)], w);
        ops := ops + [Receive(id)];
        received := received + 1;
      }
      var _, later := OnDisconnect(reply);
      PlaysThen(max, w, ops, w, later, service.View());
      ops := ops + later;
      outcome := if received < |messages| && messages[received].Disconnect? then Closed else Raised;
    }
  }
}
