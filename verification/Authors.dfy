/** The author commands, and what they leave in the count cache. */
module Authors {
  import opened CountCache
  import opened Filters
  import opened Pagination
  import opened Redis
  import opened Scan

  const MODEL := "Author"

  datatype Result = Author(row: Row) | Deleted | NotFoundError | ConflictError

  ghost predicate DistinctNames(rows: seq<Row>) {
    forall i, j :: 0 <= i < j < |rows| ==> rows[i].name != rows[j].name
  }

  /** Where the first row with this id or name stands; the number of rows if there is none. */
  function ById(rows: seq<Row>, id: int): (i: nat)
    ensures i <= |rows| && (i < |rows| ==> rows[i].id == id)
    ensures forall j :: 0 <= j < i ==> rows[j].id != id
  {
    if rows == [] || rows[0].id == id then 0 else 1 + ById(rows[1..], id)
  }

  function ByName(rows: seq<Row>, name: string): (i: nat)
    ensures i <= |rows| && (i < |rows| ==> rows[i].name == name)
    ensures forall j :: 0 <= j < i ==> rows[j].name != name
  {
    if rows == [] || rows[0].name == name then 0 else 1 + ByName(rows[1..], name)
  }

  predicate HasId(rows: seq<Row>, id: int) { exists j :: 0 <= j < |rows| && rows[j].id == id }

  /** Another author, of a different id, has the name. */
  predicate NameTaken(rows: seq<Row>, name: string, id: Option<int>) {
    exists j :: 0 <= j < |rows| && rows[j].name == name && Some(rows[j].id) != id
  }

  // ----- the commands on the table -----

  function CreateResult(rows: seq<Row>, nextId: int, name: string): Result {
    if ByName(rows, name) < |rows| then ConflictError else Author(Row(nextId, name))
  }

  function UpdateResult(rows: seq<Row>, id: int, name: string): Result {
    if ById(rows, id) == |rows| then NotFoundError
    else if ByName(rows, name) < |rows| && rows[ByName(rows, name)].id != id then ConflictError
    else Author(Row(id, name))
  }

  function DeleteResult(rows: seq<Row>, id: int): Result {
    if ById(rows, id) == |rows| then NotFoundError else Deleted
  }

  /** No count of an author query is live. */
  ghost predicate NoCounts(counts: map<string, Timed<nat>>, now: real) {
    Selection(counts, AllCounts(MODEL), now) == {}
  }

  class AuthorCommands {
    var rows: seq<Row>
    var nextId: int
    const counts: Counts

    constructor (counts: Counts)
      ensures rows == [] && this.counts == counts
    {
      rows, nextId, this.counts := [], 1, counts;
    }

    method Create(name: string, ghost now: real, replies: seq<ScanReply>) returns (result: Result)
      requires ScanContract(counts.redis.keys, AllCounts(MODEL), now, replies)
      modifies this, counts.redis
      ensures result == CreateResult(old(rows), old(nextId), name)
      ensures result == if NameTaken(old(rows), name, None) then ConflictError else Author(Row(old(nextId), name))
      ensures result.ConflictError? ==>
          rows == old(rows) && nextId == old(nextId) && counts.redis.keys == old(counts.redis.keys)
      ensures result.Author? ==>
                && rows == old(rows) + [Row(old(nextId), name)] && nextId == old(nextId) + 1
                && counts.redis.keys == old(counts.redis.keys) - Removed(replies)
                && (Finished(replies) ==> NoCounts(counts.redis.keys, replies[|replies| - 1].at))
    {
      var existing := ByName(rows, name);
      if existing < |rows| {
        return ConflictError;
      }
      var author := Row(nextId, name);
      rows, nextId := rows + [author], nextId + 1;
      counts.InvalidateCountCache(MODEL, None, now, replies, Done);
      return Author(author);
    }

    method Update(id: int, name: string) returns (result: Result)
      modifies this
      ensures result == UpdateResult(old(rows), id, name)
      ensures result.NotFoundError? <==> !HasId(old(rows), id)
      ensures DistinctNames(old(rows)) ==>
          (result.ConflictError? <==> HasId(old(rows), id) && NameTaken(old(rows), name, Some(id)))
      ensures result.Author? ==> result.row == Row(id, name)
      ensures nextId == old(nextId)
      ensures rows == if result.Author? then old(rows)[ById(old(rows), id) := Row(id, name)] else old(rows)
    {
      var at := ById(rows, id);
      if at == |rows| {
        return NotFoundError;
      }
      var existing := ByName(rows, name);
      if existing < |rows| && rows[existing].id != id {
        return ConflictError;
      }
      rows := rows[at := rows[at].(name := name)];
      return Author(rows[at]);
    }

    method Delete(id: int, ghost now: real, replies: seq<ScanReply>) returns (result: Result)
      requires ScanContract(counts.redis.keys, AllCounts(MODEL), now, replies)
      modifies this, counts.redis
      ensures result == DeleteResult(old(rows), id) && nextId == old(nextId)
      ensures result == if HasId(old(rows), id) then Deleted else NotFoundError
      ensures result.NotFoundError? ==> rows == old(rows) && counts.redis.keys == old(counts.redis.keys)
      ensures result.Deleted? ==>
                && rows == old(rows)[..ById(old(rows), id)] + old(rows)[ById(old(rows), id) + 1..]
                && counts.redis.keys == old(counts.redis.keys) - Removed(replies)
                && (Finished(replies) ==> NoCounts(counts.redis.keys, replies[|replies| - 1].at))
    {
      var at := ById(rows, id);
      if at == |rows| {
        return NotFoundError;
      }
      rows := rows[..at] + rows[at + 1..];
      counts.InvalidateCountCache(MODEL, None, now, replies, Done);
      return Deleted;
    }
  }

  // ----- serial runs -----

  datatype Store = Store(rows: seq<Row>, nextId: int, counts: map<string, Timed<nat>>)

  /** One request, atomic with its commit. `gone` is what an invalidation deleted. */
  datatype Op =
    | Read(at: real, filters: Option<FilterDict>, get: Reply, put: Reply)
    | Create(at: real, name: string, gone: set<string>)
    | Update(at: real, id: int, name: string)
    | Delete(at: real, id: int, gone: set<string>)

  function KeyOf(digest: Digest, filters: Option<FilterDict>): string {
    CountKey(digest, MODEL, filters)
  }

  function Next(digest: Digest, s: Store, op: Op): Store {
    match op
    case Read(at, filters, get, put) =>
      s.(counts := AfterCount(s.counts, KeyOf(digest, filters), Select(s.rows, Entries(filters)), at, get, put))
    case Create(_, name, gone) =>
      if CreateResult(s.rows, s.nextId, name).Author?
      then Store(s.rows + [Row(s.nextId, name)], s.nextId + 1, s.counts - gone) else s
    case Update(_, id, name) =>
      if UpdateResult(s.rows, id, name).Author? then s.(rows := s.rows[ById(s.rows, id) := Row(id, name)]) else s
    case Delete(_, id, gone) =>
      var i := ById(s.rows, id);
      if i < |s.rows| then s.(rows := s.rows[..i] + s.rows[i + 1..], counts := s.counts - gone) else s
  }

  function Answer(digest: Digest, s: Store, op: Op): Outcome<nat>
    requires op.Read?
  {
    CountOf(s.counts, KeyOf(digest, op.filters), Select(s.rows, Entries(op.filters)), op.at, op.get)
  }

  /** The invalidation of this request, if it makes one, leaves no live count of the model behind. */
  ghost predicate Invalidates(s: Store, op: Op) {
    && (op.Create? && CreateResult(s.rows, s.nextId, op.name).Author? ==> NoCounts(s.counts - op.gone, op.at))
    && (op.Delete? && DeleteResult(s.rows, op.id).Deleted? ==> NoCounts(s.counts - op.gone, op.at))
  }

  /** `used` are the filter dictionaries the hash is known to tell apart, those of the reads among them. */
  datatype Run = Run(digest: Digest, used: set<Dict>, ops: seq<Op>, states: seq<Store>) {
    ghost predicate Stepped(i: nat)
      requires i < |ops| && |states| == |ops| + 1
    {
      && states[i + 1] == Next(digest, states[i], ops[i])
      && (i > 0 ==> ops[i - 1].at <= ops[i].at)
      && (ops[i].Read? ==> DistinctKeys(Entries(ops[i].filters)) && AsDict(ops[i].filters) in used)
    }

    /** From an empty table and an empty cache. */
    ghost predicate Valid() {
      && Collisionless(digest, used)
      && |states| == |ops| + 1
      && states[0].rows == [] && states[0].counts == map[]
      && forall i: nat {:trigger Stepped(i)} :: i < |ops| ==> Stepped(i)
    }

    /** No invalidation fails, before request n. */
    ghost predicate Invalidated(n: nat)
      requires n <= |ops| < |states|
    {
      forall i :: 0 <= i < n ==> Invalidates(states[i], ops[i])
    }

    ghost predicate NoUpdate(n: nat)
      requires n <= |ops|
    {
      forall i :: 0 <= i < n ==> !ops[i].Update?
    }
  }

  /** Requests in order of time, each read with a proper dictionary. */
  ghost predicate Requests(ops: seq<Op>) {
    && (forall i :: 0 < i < |ops| ==> ops[i - 1].at <= ops[i].at)
    && (forall i :: 0 <= i < |ops| && ops[i].Read? ==> DistinctKeys(Entries(ops[i].filters)))
  }

  function DictsOf(ops: seq<Op>): set<Dict> {
    set i | 0 <= i < |ops| && ops[i].Read? :: AsDict(ops[i].filters)
  }

  /** Any requests, with any dictionaries besides those of their reads, make a run. */
  lemma RunExists(ops: seq<Op>, others: set<Dict>) returns (r: Run)
    requires Requests(ops)
    ensures r.Valid() && r.ops == ops && others <= r.used
  {
    var used := others + DictsOf(ops);
    var digest := DigestExists(used);
    r := Played(digest, used, ops);
  }

  lemma FrontRequests(ops: seq<Op>, used: set<Dict>, n: nat)
    requires Requests(ops) && DictsOf(ops) <= used && |ops| == n + 1
    ensures Requests(ops[..n]) && DictsOf(ops[..n]) <= used
    ensures ops[n].Read? ==> AsDict(ops[n].filters) in used
  {
    var front := ops[..n];
    forall f | f in DictsOf(front)
      ensures f in DictsOf(ops)
    {
      var i :| 0 <= i < n && front[i].Read? && AsDict(front[i].filters) == f;
      assert ops[i] == front[i];
    }
    assert ops[n].Read? ==> AsDict(ops[n].filters) in DictsOf(ops);
  }

  lemma {:induction false} Played(digest: Digest, used: set<Dict>, ops: seq<Op>) returns (r: Run)
    requires Requests(ops) && Collisionless(digest, used) && DictsOf(ops) <= used
    ensures r.Valid() && r.ops == ops && r.used == used && r.digest == digest
  {
    if ops == [] {
      r := Run(digest, used, [], [Store([], 1, map[])]);
    } else {
      var n := |ops| - 1;
      var front := ops[..n];
      FrontRequests(ops, used, n);
      var before := Played(digest, used, front);
      r := Run(digest, used, ops, before.states + [Next(digest, before.states[n], ops[n])]);
      forall i: nat | i < |ops|
        ensures r.Stepped(i)
      {
        if i < n {
          assert before.Stepped(i);
        }
      }
    }
  }

  /** The same request with an invalidation that deletes every count. */
  function Sweeping(s: Store, op: Op): Op {
    match op
    case Create(at, name, _) => Create(at, name, s.counts.Keys)
    case Delete(at, id, _) => Delete(at, id, s.counts.Keys)
    case _ => op
  }

  ghost predicate SameRequest(a: Op, b: Op) {
    exists s :: a == Sweeping(s, b)
  }

  /** And there is a run of the same requests in which every invalidation succeeds. */
  lemma {:induction false} InvalidatingRunExists(digest: Digest, used: set<Dict>, ops: seq<Op>) returns (r: Run)
    requires Requests(ops) && Collisionless(digest, used) && DictsOf(ops) <= used
    ensures r.Valid() && r.used == used && r.digest == digest && r.Invalidated(|r.ops|)
    ensures |r.ops| == |ops| && forall i :: 0 <= i < |ops| ==> SameRequest(r.ops[i], ops[i])
  {
    if ops == [] {
      r := Run(digest, used, [], [Store([], 1, map[])]);
    } else {
      var n := |ops| - 1;
      var front := ops[..n];
      FrontRequests(ops, used, n);
      var before := InvalidatingRunExists(digest, used, front);
      var s := before.states[n];
      var op := Sweeping(s, ops[n]);
      r := Run(digest, used, before.ops + [op], before.states + [Next(digest, s, op)]);
      SweepingInvalidates(s, ops[n]);
      SameInstant(before, front, n);
      forall i: nat | i <= n
        ensures r.Stepped(i) && Invalidates(r.states[i], r.ops[i]) && SameRequest(r.ops[i], ops[i])
      {
        if i < n {
          assert before.Stepped(i) && Invalidates(before.states[i], before.ops[i]) &&
              SameRequest(before.ops[i], front[i]);
        }
      }
    }
  }

  lemma SameInstant(r: Run, ops: seq<Op>, n: nat)
    requires n == |r.ops| == |ops| && forall i :: 0 <= i < n ==> SameRequest(r.ops[i], ops[i])
    ensures n > 0 ==> r.ops[n - 1].at == ops[n - 1].at
  {
    if n > 0 {
      assert SameRequest(r.ops[n - 1], ops[n - 1]);
    }
  }

  lemma SweepingInvalidates(s: Store, op: Op)
    ensures Invalidates(s, Sweeping(s, op)) && SameRequest(Sweeping(s, op), op)
  {
    assert s.counts - s.counts.Keys == map[];
  }

  // ----- the table -----

  ghost predicate WellKept(s: Store) {
    && Sorted(s.rows) && DistinctNames(s.rows)
    && forall i :: 0 <= i < |s.rows| ==> s.rows[i].id < s.nextId
  }

  lemma CreateKeepsTable(digest: Digest, s: Store, op: Op)
    requires WellKept(s) && op.Create?
    ensures WellKept(Next(digest, s, op))
  {
  }

  lemma UpdateKeepsTable(digest: Digest, s: Store, op: Op)
    requires WellKept(s) && op.Update?
    ensures WellKept(Next(digest, s, op))
  {
    if UpdateResult(s.rows, op.id, op.name).Author? {
      var i := ById(s.rows, op.id);
      assert forall j :: 0 <= j < |s.rows| && j != i ==> s.rows[j].name != op.name;
    }
  }

  lemma DeleteKeepsTable(digest: Digest, s: Store, op: Op)
    requires WellKept(s) && op.Delete?
    ensures WellKept(Next(digest, s, op))
  {
    var i := ById(s.rows, op.id);
    if i < |s.rows| {
      RemovalKeepsTable(s.rows, i);
      assert Next(digest, s, op).rows == s.rows[..i] + s.rows[i + 1..];
    }
  }

  lemma RemovalKeepsTable(rows: seq<Row>, i: nat)
    requires i < |rows| && Sorted(rows) && DistinctNames(rows)
    ensures
      var left := rows[..i] + rows[i + 1..];
      && Sorted(left) && DistinctNames(left)
      && forall j :: 0 <= j < |left| ==> left[j] == rows[if j < i then j else j + 1]
  {
  }

  /** In every serial run ids stay unique and ascending, and names unique. */
  lemma {:induction false} TableIsWellKept(r: Run, n: nat)
    requires r.Valid() && n <= |r.ops|
    ensures WellKept(r.states[n])
  {
    if n > 0 {
      TableIsWellKept(r, n - 1);
      assert r.Stepped(n - 1);
      match r.ops[n - 1] {
        case Read(_, _, _, _) =>
        case Create(_, _, _) => CreateKeepsTable(r.digest, r.states[n - 1], r.ops[n - 1]);
        case Update(_, _, _) => UpdateKeepsTable(r.digest, r.states[n - 1], r.ops[n - 1]);
        case Delete(_, _, _) => DeleteKeepsTable(r.digest, r.states[n - 1], r.ops[n - 1]);
      }
    }
  }

  /** What every request does to a table in terms of its rows: a create adds one under a new id unless the
      name is taken, an update renames the row of that id unless another has the name, a delete removes
      it, and a read changes nothing. */
  lemma RequestChangesTable(digest: Digest, s: Store, op: Op, row: Row)
    requires WellKept(s)
    ensures
      var t := Next(digest, s, op);
      match op
      case Read(_, _, _, _) => t.rows == s.rows && t.nextId == s.nextId
      case Create(_, name, _) =>
        var added := !NameTaken(s.rows, name, None);
        && (row in t.rows <==> row in s.rows || (added && row == Row(s.nextId, name)))
        && t.nextId == if added then s.nextId + 1 else s.nextId
      case Update(_, id, name) =>
        var renamed := HasId(s.rows, id) && !NameTaken(s.rows, name, Some(id));
        && (row in t.rows <==> if renamed && row.id == id then row == Row(id, name) else row in s.rows)
        && t.nextId == s.nextId
      case Delete(_, id, _) => (row in t.rows <==> row in s.rows && row.id != id) && t.nextId == s.nextId
  {
    match op
    case Read(_, _, _, _) =>
    case Create(_, _, _) =>
    case Update(_, id, name) => UpdateChangesTable(s.rows, id, name, row);
    case Delete(_, id, _) => DeleteChangesTable(s.rows, id, row);
  }

  lemma UpdateChangesTable(rows: seq<Row>, id: int, name: string, row: Row)
    requires Sorted(rows) && DistinctNames(rows)
    ensures UpdateResult(rows, id, name).Author? <==> HasId(rows, id) && !NameTaken(rows, name, Some(id))
    ensures UpdateResult(rows, id, name).Author? ==>
        (row in rows[ById(rows, id) := Row(id, name)] <==> if row.id == id then row == Row(id, name) else row in rows)
  {
    var i := ById(rows, id);
    if i < |rows| {
      var after := rows[i := Row(id, name)];
      assert after[i] == Row(id, name);
      if row in rows && row.id != id {
        var j :| 0 <= j < |rows| && rows[j] == row;
        assert after[j] == row;
      }
      if row in after && row.id == id {
        var j :| 0 <= j < |after| && after[j] == row;
        assert j == i;
      }
    }
  }

  lemma DeleteChangesTable(rows: seq<Row>, id: int, row: Row)
    requires Sorted(rows)
    ensures
      var i := ById(rows, id);
      row in (if i < |rows| then rows[..i] + rows[i + 1..] else rows) <==> row in rows && row.id != id
  {
    var i := ById(rows, id);
    if i < |rows| {
      OthersLeft(rows, i, row);
    }
  }

  lemma OthersLeft(rows: seq<Row>, i: nat, row: Row)
    requires Sorted(rows) && i < |rows|
    ensures row in rows[..i] + rows[i + 1..] <==> row in rows && row.id != rows[i].id
  {
    var before, behind := rows[..i], rows[i + 1..];
    assert rows == before + [rows[i]] + behind;
    assert row in rows <==> row in before || row == rows[i] || row in behind;
    assert row in before ==> row.id < rows[i].id;
    assert row in behind ==> rows[i].id < row.id;
  }

  // ----- cached counts are exact -----

  /** A live count for these filters, if there is one, is the number of rows they select. */
  ghost predicate Agrees(digest: Digest, s: Store, filters: Option<FilterDict>, now: real) {
    var cached := Lookup(s.counts, KeyOf(digest, filters), now);
    cached.Some? ==> Select(s.rows, Entries(filters)).Ok? && cached.value == |Select(s.rows, Entries(filters)).value|
  }

  predicate NameFree(filters: Option<FilterDict>) {
    forall i :: 0 <= i < |Entries(filters)| ==> Entries(filters)[i].0 != "name"
  }

  lemma {:induction false} SameCount(a: seq<Row>, b: seq<Row>, query: seq<Condition>)
    requires |a| == |b| && forall i :: 0 <= i < |a| ==> (Selects(query, a[i]) <==> Selects(query, b[i]))
    ensures |Where(a, query)| == |Where(b, query)|
  {
    if a != [] {
      SameCount(a[1..], b[1..], query);
    }
  }

  lemma {:induction false} WhereConcat(a: seq<Row>, b: seq<Row>, query: seq<Condition>)
    ensures Where(a + b, query) == Where(a, query) + Where(b, query)
  {
    if a == [] {
      assert a + b == b;
    } else {
      WhereConcat(a[1..], b, query);
      assert (a + b)[0] == a[0] && (a + b)[1..] == a[1..] + b;
      Associative(if Selects(query, a[0]) then [a[0]] else [], Where(a[1..], query), Where(b, query));
    }
  }

  /** Replacing one row keeps a count exactly when the filters judge the old and the new row alike. */
  lemma ReplaceChangesCount(rows: seq<Row>, i: nat, row: Row, query: seq<Condition>)
    requires i < |rows|
    ensures |Where(rows[i := row], query)| == |Where(rows, query)| <==>
        (Selects(query, row) <==> Selects(query, rows[i]))
  {
    WhereConcat(rows[..i], [rows[i]] + rows[i + 1..], query);
    WhereConcat([rows[i]], rows[i + 1..], query);
    WhereConcat(rows[..i], [row] + rows[i + 1..], query);
    WhereConcat([row], rows[i + 1..], query);
    assert rows == rows[..i] + ([rows[i]] + rows[i + 1..]);
    assert rows[i := row] == rows[..i] + ([row] + rows[i + 1..]);
    OneRow(rows[i], query);
    OneRow(row, query);
  }

  lemma OneRow(row: Row, query: seq<Condition>)
    ensures Where([row], query) == if Selects(query, row) then [row] else []
  {
    assert [row][1..] == [];
  }

  /** An update does not touch the cache: the cached count for some filters stays right exactly when
      they judge the old and the new name alike. */
  lemma UpdateLeavesCountRight(digest: Digest, s: Store, op: Op, filters: Option<FilterDict>)
    requires op.Update? && UpdateResult(s.rows, op.id, op.name).Author?
    requires Agrees(digest, s, filters, op.at) && Lookup(s.counts, KeyOf(digest, filters), op.at).Some?
    ensures
      var query := Conditions(Entries(filters)).value;
      Agrees(digest, Next(digest, s, op), filters, op.at)
      <==> (Selects(query, Row(op.id, op.name)) <==> Selects(query, s.rows[ById(s.rows, op.id)]))
  {
    ReplaceChangesCount(s.rows, ById(s.rows, op.id), Row(op.id, op.name), Conditions(Entries(filters)).value);
  }

  lemma NameFreeJudgesById(filters: Option<FilterDict>, a: Row, b: Row)
    requires NameFree(filters) && a.id == b.id && Conditions(Entries(filters)).Ok?
    ensures Selects(Conditions(Entries(filters)).value, a) <==> Selects(Conditions(Entries(filters)).value, b)
  {
    var f := Entries(filters);
    var query := Conditions(f).value;
    forall i | 0 <= i < |query|
      ensures Holds(query[i], a) <==> Holds(query[i], b)
    {
      assert query[i] == ConditionFor(f[i]);
      assert ColumnOf(f[i].0).Ok?;
    }
  }

  lemma UpdateKeepsAgreement(digest: Digest, s: Store, op: Op, filters: Option<FilterDict>)
    requires op.Update? && NameFree(filters) && Agrees(digest, s, filters, op.at)
    ensures Agrees(digest, Next(digest, s, op), filters, op.at)
  {
    var i := ById(s.rows, op.id);
    if Lookup(s.counts, KeyOf(digest, filters), op.at).Some? && UpdateResult(s.rows, op.id, op.name).Author? {
      NameFreeJudgesById(filters, s.rows[i], Row(op.id, op.name));
      UpdateLeavesCountRight(digest, s, op, filters);
    }
  }

  lemma ReadKeepsAgreement(digest: Digest, used: set<Dict>, s: Store, op: Op, filters: Option<FilterDict>)
    requires Collisionless(digest, used) && op.Read? && AsDict(filters) in used && AsDict(op.filters) in used
    requires DistinctKeys(Entries(filters)) && DistinctKeys(Entries(op.filters))
    requires Agrees(digest, s, filters, op.at)
    ensures Agrees(digest, Next(digest, s, op), filters, op.at)
  {
    KeysAreFilters(digest, used, MODEL, filters, op.filters);
    if KeyOf(digest, filters) == KeyOf(digest, op.filters) {
      KeyOrderIrrelevant(s.rows, Entries(filters), Entries(op.filters));
    }
  }

  lemma NoCountLeft(digest: Digest, s: Store, op: Op, filters: Option<FilterDict>, now: real)
    requires (op.Create? || op.Delete?) && NoCounts(s.counts - op.gone, op.at) && op.at <= now
    ensures Lookup(s.counts - op.gone, KeyOf(digest, filters), now).None?
  {
    var left, key := s.counts - op.gone, KeyOf(digest, filters);
    PatternHitsModel(digest, MODEL, MODEL, filters);
    assert Selected(left, AllCounts(MODEL), op.at, key) ==> key in Selection(left, AllCounts(MODEL), op.at);
  }

  lemma WriteKeepsAgreement(digest: Digest, s: Store, op: Op, filters: Option<FilterDict>)
    requires (op.Create? || op.Delete?) && Invalidates(s, op)
    requires Agrees(digest, s, filters, op.at)
    ensures Agrees(digest, Next(digest, s, op), filters, op.at)
  {
    if NoCounts(s.counts - op.gone, op.at) {
      NoCountLeft(digest, s, op, filters, op.at);
    } else {
      assert Next(digest, s, op) == s;
    }
  }

  /** In every serial run whose invalidations succeed, whatever else of Redis fails, each cached count
      is the number of rows its filters select now: for all filters while no author has been updated,
      and afterwards for all filters that do not mention the name. */
  lemma {:induction false} CountsAgree(r: Run, n: nat, filters: Option<FilterDict>, now: real)
    requires r.Valid() && n <= |r.ops| && r.Invalidated(n)
    requires AsDict(filters) in r.used && DistinctKeys(Entries(filters)) && (n > 0 ==> r.ops[n - 1].at <= now)
    requires NameFree(filters) || r.NoUpdate(n)
    ensures Agrees(r.digest, r.states[n], filters, now)
  {
    if n > 0 {
      var s, op := r.states[n - 1], r.ops[n - 1];
      assert r.Stepped(n - 1);
      CountsAgree(r, n - 1, filters, op.at);
      match op {
        case Read(_, _, _, _) => ReadKeepsAgreement(r.digest, r.used, s, op, filters);
        case Update(_, _, _) => UpdateKeepsAgreement(r.digest, s, op, filters);
        case _ => WriteKeepsAgreement(r.digest, s, op, filters);
      }
    }
  }

  /** So the total such a read reports is the size of the list it pages through. */
  lemma AnswersAreExact(r: Run, n: nat)
    requires r.Valid() && n < |r.ops| && r.ops[n].Read? && r.Invalidated(n)
    requires NameFree(r.ops[n].filters) || r.NoUpdate(n)
    requires Select(r.states[n].rows, Entries(r.ops[n].filters)).Ok?
    ensures Answer(r.digest, r.states[n], r.ops[n]) == Ok(|Select(r.states[n].rows, Entries(r.ops[n].filters)).value|)
  {
    assert r.Stepped(n);
    CountsAgree(r, n, r.ops[n].filters, r.ops[n].at);
  }

  // ----- cached counts are recent -----

  /** A live count was right at some earlier state of the table, not more than its time to live ago. */
  ghost predicate Dated(r: Run, n: nat, filters: Option<FilterDict>, count: nat, expiresAt: real, j: nat)
    requires r.Valid() && n <= |r.ops|
  {
    && j < n
    && expiresAt <= r.ops[j].at + COUNT_TTL as real
    && Select(r.states[j].rows, Entries(filters)).Ok?
    && count == |Select(r.states[j].rows, Entries(filters)).value|
  }

  lemma {:induction false} CountsAreDated(r: Run, n: nat, filters: Option<FilterDict>) returns (j: nat)
    requires r.Valid() && n <= |r.ops| && DistinctKeys(Entries(filters)) && AsDict(filters) in r.used
    requires KeyOf(r.digest, filters) in r.states[n].counts
    ensures
      var held := r.states[n].counts[KeyOf(r.digest, filters)];
      held.expiresAt.Some? && Dated(r, n, filters, held.value, held.expiresAt.value, j)
  {
    var key := KeyOf(r.digest, filters);
    j := 0;
    if n > 0 {
      assert r.Stepped(n - 1);
      var s, op := r.states[n - 1], r.ops[n - 1];
      if key in s.counts && s.counts[key] == r.states[n].counts[key] {
        j := CountsAreDated(r, n - 1, filters);
      } else {
        j := n - 1;
        KeysAreFilters(r.digest, r.used, MODEL, filters, op.filters);
        KeyOrderIrrelevant(s.rows, Entries(filters), Entries(op.filters));
      }
    }
  }

  /** In every serial run, whatever calls to Redis fail and whatever is updated, the total a read
      reports was exact for its filters at some request at most 300 seconds earlier. */
  lemma AnswersAreRecent(r: Run, n: nat) returns (j: nat)
    requires r.Valid() && n < |r.ops| && r.ops[n].Read? && Answer(r.digest, r.states[n], r.ops[n]).Ok?
    ensures j <= n && r.ops[n].at - COUNT_TTL as real <= r.ops[j].at
    ensures Select(r.states[j].rows, Entries(r.ops[n].filters)).Ok?
    ensures Answer(r.digest, r.states[n], r.ops[n]).value == |Select(r.states[j].rows, Entries(r.ops[n].filters)).value|
  {
    var op := r.ops[n];
    j := n;
    assert r.Stepped(n);
    if Cached(r.states[n].counts, KeyOf(r.digest, op.filters), op.at, op.get).Some? {
      j := CountsAreDated(r, n, op.filters);
    }
  }

  // ----- the commit comes after the invalidation -----

  /** The commands invalidate before the surrounding session commits. A read in between counts the old
      table and caches that. Once the create is committed the cached count is right exactly when the
      filters do not select the created row. */
  lemma ReadBeforeCreateCommits(digest: Digest, s: Store, create: Op, read: Op)
    requires create.Create? && CreateResult(s.rows, s.nextId, create.name).Author? && Invalidates(s, create)
    requires read.Read? && read.get.Done? && read.put.Applied() && create.at <= read.at
    requires Select(s.rows, Entries(read.filters)).Ok?
    ensures
      var flushed := s.(counts := s.counts - create.gone);
      var committed := Next(digest, s, create).(counts := Next(digest, flushed, read).counts);
      Agrees(digest, committed, read.filters, read.at)
      <==> !Selects(Conditions(Entries(read.filters)).value, Row(s.nextId, create.name))
  {
    var query := Conditions(Entries(read.filters)).value;
    NoCountLeft(digest, s, create, read.filters, read.at);
    WhereConcat(s.rows, [Row(s.nextId, create.name)], query);
    OneRow(Row(s.nextId, create.name), query);
  }

  /** After a delete it is right exactly when they do not select the deleted row. */
  lemma ReadBeforeDeleteCommits(digest: Digest, s: Store, delete: Op, read: Op)
    requires delete.Delete? && DeleteResult(s.rows, delete.id).Deleted? && Invalidates(s, delete)
    requires read.Read? && read.get.Done? && read.put.Applied() && delete.at <= read.at
    requires Select(s.rows, Entries(read.filters)).Ok?
    ensures
      var flushed := s.(counts := s.counts - delete.gone);
      var committed := Next(digest, s, delete).(counts := Next(digest, flushed, read).counts);
      Agrees(digest, committed, read.filters, read.at)
      <==> !Selects(Conditions(Entries(read.filters)).value, s.rows[ById(s.rows, delete.id)])
  {
    var query, i := Conditions(Entries(read.filters)).value, ById(s.rows, delete.id);
    NoCountLeft(digest, s, delete, read.filters, read.at);
    RemovalChangesCount(s.rows, i, query);
  }

  lemma RemovalChangesCount(rows: seq<Row>, i: nat, query: seq<Condition>)
    requires i < |rows|
    ensures |Where(rows[..i] + rows[i + 1..], query)| == |Where(rows, query)| - if Selects(query, rows[i]) then 1 else 0
  {
    WhereConcat(rows[..i], [rows[i]] + rows[i + 1..], query);
    WhereConcat([rows[i]], rows[i + 1..], query);
    WhereConcat(rows[..i], rows[i + 1..], query);
    assert rows == rows[..i] + ([rows[i]] + rows[i + 1..]);
    OneRow(rows[i], query);
  }
}
