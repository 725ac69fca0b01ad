/** The Redis cache of COUNT results that offset pagination reads and fills. */
module CountCache {
  import opened Filters
  import opened Pagination
  import opened Redis
  import opened Scan
  import opened Wildcard

  const COUNT_TTL := 300
  const PREFIX := "pagination:count:"

  type Dict = map<string, FilterValue>

  /** What the hash of a filter dictionary is taken to be: text other than "all", the same for any key
      order, and different for different dictionaries among those in use. */
  type Digest = Dict -> string

  ghost predicate Collisionless(digest: Digest, used: set<Dict>) {
    && (forall f :: f in used ==> digest(f) != "all")
    && (forall f, g :: f in used && g in used && digest(f) == digest(g) ==> f == g)
  }

  function NumberOf(names: map<Dict, nat>, f: Dict): nat {
    if f in names then names[f] else 0
  }

  /** For any finitely many dictionaries there is such a hash. */
  lemma {:induction false} DigestExists(used: set<Dict>) returns (digest: Digest)
    ensures Collisionless(digest, used)
  {
    var names := Numbering(used);
    digest := f => seq(NumberOf(names, f), _ => 'f');
    forall f, g | f in used && g in used && digest(f) == digest(g)
      ensures f == g
    {
      assert |digest(f)| == names[f] && |digest(g)| == names[g];
    }
    forall f | f in used
      ensures digest(f) != "all"
    {
      if |digest(f)| == 3 {
        assert digest(f)[0] == 'f';
      }
    }
  }

  lemma {:induction false} Numbering(used: set<Dict>) returns (names: map<Dict, nat>)
    ensures names.Keys == used && forall f, g :: f in used && g in used && names[f] == names[g] ==> f == g
    ensures forall f :: f in used ==> names[f] < |used|
  {
    names := map[];
    if used != {} {
      var f :| f in used;
      var rest := Numbering(used - {f});
      names := rest[f := |used| - 1];
    }
  }

  /** No filters at all and an empty dictionary select alike. */
  function Entries(filters: Option<FilterDict>): FilterDict {
    match filters case None => [] case Some(f) => f
  }

  function CountKey(digest: Digest, model: string, filters: Option<FilterDict>): string {
    PREFIX + model + ":" + if Entries(filters) == [] then "all" else digest(AsMap(Entries(filters)))
  }

  function AllCounts(model: string): string {
    PREFIX + model + ":*"
  }

  function AsDict(filters: Option<FilterDict>): Dict { AsMap(Entries(filters)) }

  /** Two queries in use share a key exactly when their dictionaries are the same up to order. */
  lemma KeysAreFilters(digest: Digest, used: set<Dict>, model: string, f: Option<FilterDict>, g: Option<FilterDict>)
    requires Collisionless(digest, used) && AsDict(f) in used && AsDict(g) in used
    ensures CountKey(digest, model, f) == CountKey(digest, model, g) <==> AsDict(f) == AsDict(g)
  {
    var base := PREFIX + model + ":";
    var a, b := CountKey(digest, model, f), CountKey(digest, model, g);
    assert a[|base|..] == if Entries(f) == [] then "all" else digest(AsDict(f));
    assert b[|base|..] == if Entries(g) == [] then "all" else digest(AsDict(g));
    EmptyMap(Entries(f));
    EmptyMap(Entries(g));
  }

  lemma EmptyMap(f: FilterDict)
    ensures AsMap(f) == map[] <==> f == []
  {
    if f != [] {
      assert f[|f| - 1].0 in AsMap(f);
    }
  }

  ghost predicate ColonFree(s: string) {
    forall i :: 0 <= i < |s| ==> s[i] != ':'
  }

  lemma PrefixCancel(p: string, x: string, y: string)
    ensures p + x <= p + y <==> x <= y
  {
    assert (p + x)[|p|..] == x && (p + y)[|p|..] == y;
    if p + x <= p + y {
      assert (p + y)[..|p + x|] == p + x;
      assert y[..|x|] == (p + y)[..|p + x|][|p|..];
    }
  }

  /** What stands before the first colon decides. */
  lemma {:induction false} SameField(a: string, b: string, rest: string)
    requires ColonFree(a) && ColonFree(b)
    ensures a + ":" <= b + ":" + rest <==> a == b
  {
    if a == [] || b == [] {
      assert a == [] ==> (a + ":")[0] == ':';
      assert b == [] ==> (b + ":" + rest)[0] == ':';
      assert a != [] ==> (a + ":")[0] == a[0];
      assert b != [] ==> (b + ":" + rest)[0] == b[0];
    } else {
      SameField(a[1..], b[1..], rest);
      assert a + ":" == [a[0]] + (a[1..] + ":") && b + ":" + rest == [b[0]] + (b[1..] + ":" + rest);
      assert (a + ":")[0] == a[0] && (b + ":" + rest)[0] == b[0];
      if a[0] == b[0] {
        PrefixCancel([a[0]], a[1..] + ":", b[1..] + ":" + rest);
      }
      assert a == [a[0]] + a[1..] && b == [b[0]] + b[1..];
    }
  }

  /** The pattern that invalidates one model's counts hits every count of that model and none of
      another model. */
  lemma PatternHitsModel(digest: Digest, model: string, other: string, filters: Option<FilterDict>)
    requires Plain(GLOB, model) && ColonFree(model) && ColonFree(other)
    ensures Matches(GLOB, AllCounts(model), CountKey(digest, other, filters)) <==> model == other
  {
    var part := PREFIX + model + ":";
    var key := CountKey(digest, other, filters);
    assert AllCounts(model) == part + [GLOB.many];
    assert Plain(GLOB, part) by {
      assert Plain(GLOB, PREFIX);
    }
    PrefixPattern(GLOB, part, key);
    var rest := if Entries(filters) == [] then "all" else digest(AsDict(filters));
    assert part == PREFIX + (model + ":") && key == PREFIX + (other + ":" + rest);
    PrefixCancel(PREFIX, model + ":", other + ":" + rest);
    SameField(model, other, rest);
  }

  // ----- the three operations -----

  function Cached(counts: map<string, Timed<nat>>, key: string, now: real, reply: Reply): Option<nat> {
    if reply.Raised() then None else Lookup(counts, key, now)
  }

  function Stored(counts: map<string, Timed<nat>>, key: string, count: nat, ttl: int, now: real, reply: Reply)
    : map<string, Timed<nat>>
  {
    if reply.Applied() then SetEx(counts, key, count, ttl, now) else counts
  }

  /** A Redis that could not be reached behaves like one that refuses the call. */
  class Counts {
    const redis: KeySpace<nat>
    const hash: Digest

    constructor (hash: Digest)
      ensures fresh(redis) && redis.keys == map[] && this.hash == hash
    {
      redis := new KeySpace();
      this.hash := hash;
    }

    method GetCachedCount(model: string, filters: Option<FilterDict>, now: real, reply: Reply)
        returns (count: Option<nat>)
      ensures count == Cached(redis.keys, CountKey(hash, model, filters), now, reply)
    {
      var key := CountKey(hash, model, filters);
      if reply.Raised() {
        return None;
      }
      count := Lookup(redis.keys, key, now);
    }

    method SetCachedCount(model: string, count: nat, filters: Option<FilterDict>, ttl: int, now: real, reply: Reply)
      modifies redis
      ensures redis.keys == Stored(old(redis.keys), CountKey(hash, model, filters), count, ttl, now, reply)
    {
      var key := CountKey(hash, model, filters);
      if reply.Applied() {
        redis.keys := SetEx(redis.keys, key, count, ttl, now);
      }
    }

    /** Without filters every count of the model goes, as far as the scan gets; with them one, that of
        the empty dictionary too. Errors are swallowed. */
    method InvalidateCountCache(model: string, filters: Option<FilterDict>, ghost now: real, replies: seq<ScanReply>,
        reply: Reply)
      requires filters.None? ==> ScanContract(redis.keys, AllCounts(model), now, replies)
      modifies redis
      ensures redis.keys ==
        if filters.None? then old(redis.keys) - Removed(replies)
        else if reply.Applied() then old(redis.keys) - {CountKey(hash, model, filters)} else old(redis.keys)
      ensures filters.None? ==> OthersKept(old(redis.keys), redis.keys, AllCounts(model))
      ensures filters.None? && Finished(replies) ==>
          Selection(redis.keys, AllCounts(model), replies[|replies| - 1].at) == {}
    {
      if filters.None? {
        var _ := DeleteMatching(redis, AllCounts(model), now, replies);
      } else if reply.Applied() {
        redis.keys := redis.keys - {CountKey(hash, model, filters)};
      }
    }
  }

  // ----- the reader -----

  /** What is stored is found again: until its period is over, by exactly the queries with the same
      filters, and nothing else changes for the others. A period of zero or less stores nothing. */
  lemma StoredIsFound(digest: Digest, used: set<Dict>, model: string, counts: map<string, Timed<nat>>,
      f: Option<FilterDict>, g: Option<FilterDict>, count: nat, ttl: int, now: real, later: real, reply: Reply)
    requires Collisionless(digest, used) && AsDict(f) in used && AsDict(g) in used && now <= later
    ensures
      var after := Stored(counts, CountKey(digest, model, f), count, ttl, now, reply);
      var before := Cached(counts, CountKey(digest, model, g), later, Done);
      Cached(after, CountKey(digest, model, g), later, Done)
      == if AsDict(f) != AsDict(g) || !reply.Applied() || ttl <= 0 then before
         else if later <= now + ttl as real then Some(count) else None
  {
    KeysAreFilters(digest, used, model, f, g);
  }

  /** The total an offset page reports, and the cache it leaves. */
  function CountOf(counts: map<string, Timed<nat>>, key: string, rows: Outcome<seq<Row>>, now: real, get: Reply)
    : Outcome<nat>
  {
    match Cached(counts, key, now, get)
    case Some(n) => Ok(n)
    case None => match rows case Ok(found) => Ok(|found|) case ValueError => ValueError case DbError => DbError
  }

  function AfterCount(counts: map<string, Timed<nat>>, key: string, rows: Outcome<seq<Row>>, now: real, get: Reply,
      put: Reply)
    : map<string, Timed<nat>>
  {
    match Cached(counts, key, now, get)
    case Some(_) => counts
    case None => if rows.Ok? then Stored(counts, key, |rows.value|, COUNT_TTL, now, put) else counts
  }

  /** So a count taken from the database is what queries with the same filters report for 300 seconds more,
      whatever becomes of the table. After that they count again, and so they do when Redis fails. */
  lemma CountIsReported(digest: Digest, used: set<Dict>, model: string, counts: map<string, Timed<nat>>,
      f: Option<FilterDict>, g: Option<FilterDict>, rows: seq<Row>, now: real, later: real, rowsLater: seq<Row>)
    requires Collisionless(digest, used) && AsDict(f) in used && AsDict(g) in used && now <= later
    requires AsDict(f) == AsDict(g) && Cached(counts, CountKey(digest, model, f), now, Done).None?
    ensures
      var after := AfterCount(counts, CountKey(digest, model, f), Ok(rows), now, Done, Done);
      && CountOf(counts, CountKey(digest, model, f), Ok(rows), now, Done) == Ok(|rows|)
      && CountOf(after, CountKey(digest, model, g), Ok(rowsLater), later, Done)
         == Ok(if later <= now + 300.0 then |rows| else |rowsLater|)
      && (forall get: Reply :: get.Raised() ==>
            CountOf(after, CountKey(digest, model, g), Ok(rowsLater), later, get) == Ok(|rowsLater|))
  {
    StoredIsFound(digest, used, model, counts, f, g, |rows|, COUNT_TTL, now, later, Done);
  }

  class OffsetPagination {
    const page: int
    const skipCount: bool
    const filters: Option<FilterDict>
    const counts: Counts

    constructor (page: int, skipCount: bool, filters: Option<FilterDict>, counts: Counts)
      ensures this.page == page && this.skipCount == skipCount && this.filters == filters && this.counts == counts
    {
      this.page, this.skipCount, this.filters, this.counts := page, skipCount, filters, counts;
    }

    /** The count comes from the cache or, failing that, from the database and into the cache; the
        rows always come from the database. */
    method Paginate(table: seq<Row>, model: string, size: nat, now: real, get: Reply, put: Reply)
        returns (answer: Outcome<Page>)
      requires size > 0
      modifies counts.redis
      ensures
        var rows := Select(table, Entries(filters));
        var key := CountKey(counts.hash, model, filters);
        && counts.redis.keys ==
           (if skipCount then old(counts.redis.keys) else AfterCount(old(counts.redis.keys), key, rows, now, get, put))
        && var total := if skipCount then Ok(0) else CountOf(old(counts.redis.keys), key, rows, now, get);
           answer == if rows.Ok? && total.Ok? then OffsetPage(rows.value, page, size, total.value)
                     else if rows.ValueError? then ValueError else DbError
    {
      var rows := Select(table, Entries(filters));
      if rows.ValueError? {
        return ValueError;
      }
      var total := 0;
      if !skipCount {
        var cached := counts.GetCachedCount(model, filters, now, get);
        if cached.Some? {
          total := cached.value;
        } else {
          if rows.DbError? {
            return DbError;
          }
          total := |rows.value|;
          counts.SetCachedCount(model, total, filters, COUNT_TTL, now, put);
        }
      }
      if rows.DbError? {
        return DbError;
      }
      answer := OffsetPage(rows.value, page, size, total);
    }
  }
}
