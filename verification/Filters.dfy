/** Query filters: which author rows a filter dictionary selects. */
module Filters {
  import opened Wildcard

  datatype Row = Row(id: int, name: string)

  datatype Column = IdColumn | NameColumn

  datatype FilterValue = IntValue(n: int) | TextValue(s: string) | IntList(ns: seq<int>) | TextList(ss: seq<string>)
      | Nothing

  /** A filter dictionary in insertion order; its keys are distinct. */
  type FilterDict = seq<(string, FilterValue)>

  datatype Condition = Equals(column: Column, value: FilterValue) | In(column: Column, options: FilterValue)
      | Ilike(column: Column, pattern: string)

  /** ValueError is raised while the query is built, DbError when the database refuses to compare a
      column with a value of another type. */
  datatype Outcome<+T> = Ok(value: T) | ValueError | DbError

  function ColumnOf(key: string): Outcome<Column> {
    if key == "id" then Ok(IdColumn) else if key == "name" then Ok(NameColumn) else ValueError
  }

  /** Leading and trailing percent signs removed. */
  function StripPercent(s: string): string
    decreases |s|
  {
    if s == "" then ""
    else if s[0] == '%' then StripPercent(s[1..])
    else if s[|s| - 1] == '%' then StripPercent(s[..|s| - 1])
    else s
  }

  function Sanitized(s: string): string {
    var t := StripPercent(s);
    if |t| > 255 then t[..255] else t
  }

  function ConditionOf(column: Column, value: FilterValue): Condition {
    match value
    case IntList(_) => In(column, value)
    case TextList(_) => In(column, value)
    case TextValue(s) => Ilike(column, "%" + Sanitized(s) + "%")
    case _ => Equals(column, value)
  }

  /** The loop over the dictionary: one more condition per entry, or an error at the first key that is
      no column. */
  method ApplyFilters(filters: FilterDict) returns (query: Outcome<seq<Condition>>)
    ensures query == Conditions(filters)
  {
    var conditions := [];
    assert Conditions(filters[..0]).value == [];
    for i := 0 to |filters|
      invariant Conditions(filters[..i]) == Ok(conditions)
    {
      var (key, value) := filters[i];
      var column := ColumnOf(key);
      if !column.Ok? {
        return ValueError;
      }
      ConditionsSnoc(filters, i);
      conditions := conditions + [ConditionOf(column.value, value)];
    }
    assert filters[..|filters|] == filters;
    return Ok(conditions);
  }

  function Conditions(filters: FilterDict): Outcome<seq<Condition>> {
    if exists i :: 0 <= i < |filters| && !ColumnOf(filters[i].0).Ok? then ValueError
    else Ok(seq(|filters|, i requires 0 <= i < |filters| => ConditionFor(filters[i])))
  }

  function ConditionFor(entry: (string, FilterValue)): Condition {
    ConditionOf(if entry.0 == "id" then IdColumn else NameColumn, entry.1)
  }

  lemma ConditionsSnoc(filters: FilterDict, i: nat)
    requires i < |filters| && Conditions(filters[..i]).Ok? && ColumnOf(filters[i].0).Ok?
    ensures Conditions(filters[..i + 1]) == Ok(Conditions(filters[..i]).value + [ConditionFor(filters[i])])
  {
    var p, q := filters[..i], filters[..i + 1];
    assert forall j :: 0 <= j < |q| ==> q[j] == (if j < i then p[j] else filters[i]);
    assert Conditions(q).value == Conditions(p).value + [ConditionFor(filters[i])];
  }

  // ----- what a query selects -----

  /** The folding of a database without locale rules. */
  function FoldChar(c: char): char {
    if 'A' <= c <= 'Z' then c - 'A' + 'a' else c
  }

  function FoldWith(fold: char -> char, s: string): string {
    seq(|s|, i requires 0 <= i < |s| => fold(s[i]))
  }

  /** The database accepts the comparison. */
  predicate WellTyped(c: Condition) {
    match c
    case Equals(_, Nothing) => true
    case Equals(column, value) => column.IdColumn? && value.IntValue?
    case In(_, IntList(ns)) => c.column.IdColumn? || ns == []
    case In(_, TextList(ss)) => c.column.NameColumn? || ss == []
    case In(_, _) => false
    case Ilike(column, _) => column.NameColumn?
  }

  predicate Holds(c: Condition, row: Row) {
    HoldsUnder(FoldChar, c, row)
  }

  /** Comparing with NULL selects nothing. ILIKE compares what `fold` makes of both sides. */
  predicate HoldsUnder(fold: char -> char, c: Condition, row: Row) {
    match c
    case Equals(IdColumn, IntValue(n)) => row.id == n
    case Equals(_, _) => false
    case In(IdColumn, IntList(ns)) => row.id in ns
    case In(NameColumn, TextList(ss)) => row.name in ss
    case In(_, _) => false
    case Ilike(NameColumn, pattern) => Matches(LIKE, FoldWith(fold, pattern), FoldWith(fold, row.name))
    case Ilike(_, _) => false
  }

  predicate Selects(query: seq<Condition>, row: Row) {
    forall i :: 0 <= i < |query| ==> Holds(query[i], row)
  }

  /** The selected rows in table order. */
  function Where(rows: seq<Row>, query: seq<Condition>): seq<Row> {
    if rows == [] then []
    else (if Selects(query, rows[0]) then [rows[0]] else []) + Where(rows[1..], query)
  }

  function Select(rows: seq<Row>, filters: FilterDict): Outcome<seq<Row>> {
    match Conditions(filters)
    case Ok(query) => if exists i :: 0 <= i < |query| && !WellTyped(query[i]) then DbError else Ok(Where(rows, query))
    case _ => ValueError
  }

  // ----- properties -----

  ghost predicate DistinctKeys(f: FilterDict) {
    forall i, j :: 0 <= i < j < |f| ==> f[i].0 != f[j].0
  }

  /** The dictionary without its order. */
  function AsMap(f: FilterDict): map<string, FilterValue> {
    if f == [] then map[] else AsMap(f[..|f| - 1])[f[|f| - 1].0 := f[|f| - 1].1]
  }

  predicate HasKey(f: FilterDict, key: string) {
    exists i :: 0 <= i < |f| && f[i].0 == key
  }

  lemma {:induction false} AsMapHolds(f: FilterDict, e: (string, FilterValue))
    requires DistinctKeys(f)
    ensures e in f <==> e.0 in AsMap(f) && AsMap(f)[e.0] == e.1
    ensures e.0 in AsMap(f) <==> HasKey(f, e.0)
  {
    if f != [] {
      var front, last := f[..|f| - 1], f[|f| - 1];
      AsMapHolds(front, e);
      assert forall i :: 0 <= i < |front| ==> front[i] == f[i];
      assert e in front ==> HasKey(front, e.0);
      assert HasKey(f, e.0) <==> HasKey(front, e.0) || last.0 == e.0;
      assert HasKey(front, e.0) ==> last.0 != e.0;
    }
  }

  lemma SameConditions(f: FilterDict, g: FilterDict)
    requires forall e :: e in f <==> e in g
    ensures Conditions(f).Ok? == Conditions(g).Ok?
    ensures Conditions(f).Ok? ==> forall c :: c in Conditions(f).value <==> c in Conditions(g).value
  {
    assert (exists i :: 0 <= i < |f| && !ColumnOf(f[i].0).Ok?) <==> exists e :: e in f && !ColumnOf(e.0).Ok?;
    assert (exists i :: 0 <= i < |g| && !ColumnOf(g[i].0).Ok?) <==> exists e :: e in g && !ColumnOf(e.0).Ok?;
    if Conditions(f).Ok? {
      ConditionsWithin(f, g);
      ConditionsWithin(g, f);
    }
  }

  lemma ConditionsWithin(f: FilterDict, g: FilterDict)
    requires Conditions(f).Ok? && Conditions(g).Ok? && forall e :: e in f ==> e in g
    ensures forall c :: c in Conditions(f).value ==> c in Conditions(g).value
  {
    var p, q := Conditions(f).value, Conditions(g).value;
    forall i | 0 <= i < |p|
      ensures p[i] in q
    {
      assert f[i] in g;
      var j :| 0 <= j < |g| && g[j] == f[i];
      assert q[j] == p[i];
    }
  }

  lemma {:induction false} WhereByMembers(rows: seq<Row>, p: seq<Condition>, q: seq<Condition>)
    requires forall c :: c in p <==> c in q
    ensures Where(rows, p) == Where(rows, q)
  {
    if rows != [] {
      WhereByMembers(rows[1..], p, q);
      assert Selects(p, rows[0]) <==> (forall c :: c in p ==> Holds(c, rows[0]));
      assert Selects(q, rows[0]) <==> (forall c :: c in q ==> Holds(c, rows[0]));
    }
  }

  /** A filter dictionary means the same in any key order: the count query and the data query built
      from it select the same rows, or fail alike. */
  lemma KeyOrderIrrelevant(rows: seq<Row>, f: FilterDict, g: FilterDict)
    requires DistinctKeys(f) && DistinctKeys(g) && AsMap(f) == AsMap(g)
    ensures Select(rows, f) == Select(rows, g)
  {
    forall e
      ensures e in f <==> e in g
    {
      AsMapHolds(f, e);
      AsMapHolds(g, e);
    }
    SameConditions(f, g);
    if Conditions(f).Ok? {
      var p, q := Conditions(f).value, Conditions(g).value;
      WhereByMembers(rows, p, q);
      assert (exists i :: 0 <= i < |p| && !WellTyped(p[i])) <==> exists c :: c in p && !WellTyped(c);
      assert (exists i :: 0 <= i < |q| && !WellTyped(q[i])) <==> exists c :: c in q && !WellTyped(c);
    }
  }

  /** Several filters are a conjunction: a row is selected exactly when every entry selects it. */
  lemma {:induction false} FiltersAreConjunction(rows: seq<Row>, filters: FilterDict, row: Row)
    requires Select(rows, filters).Ok?
    ensures row in Select(rows, filters).value
       <==> row in rows && forall i :: 0 <= i < |filters| ==> Holds(ConditionFor(filters[i]), row)
  {
    var query := Conditions(filters).value;
    WhereMembers(rows, query, row);
    assert forall i :: 0 <= i < |filters| ==> query[i] == ConditionFor(filters[i]);
  }

  lemma {:induction false} WhereMembers(rows: seq<Row>, query: seq<Condition>, row: Row)
    ensures row in Where(rows, query) <==> row in rows && Selects(query, row)
  {
    if rows != [] {
      WhereMembers(rows[1..], query, row);
    }
  }

  // ----- one filter at a time, in plain terms -----

  /** A list of values of the column's own type selects the rows whose value is in it. */
  lemma ListSelects(rows: seq<Row>, ns: seq<int>, ss: seq<string>)
    ensures
      var byId, byName := Select(rows, [("id", IntList(ns))]), Select(rows, [("name", TextList(ss))]);
      && byId.Ok? && (forall row :: row in byId.value <==> row in rows && row.id in ns)
      && byName.Ok? && (forall row :: row in byName.value <==> row in rows && row.name in ss)
  {
    OneCondition(rows, ("id", IntList(ns)));
    OneCondition(rows, ("name", TextList(ss)));
  }

  /** An id selects the row that has it, and a null value no row at all. */
  lemma ValueSelects(rows: seq<Row>, n: int)
    ensures
      var byId := Select(rows, [("id", IntValue(n))]);
      byId.Ok? && forall row :: row in byId.value <==> row in rows && row.id == n
    ensures Select(rows, [("id", Nothing)]) == Ok([]) && Select(rows, [("name", Nothing)]) == Ok([])
  {
    OneCondition(rows, ("id", IntValue(n)));
    OneCondition(rows, ("id", Nothing));
    OneCondition(rows, ("name", Nothing));
    NoneSelected(Select(rows, [("id", Nothing)]).value);
    NoneSelected(Select(rows, [("name", Nothing)]).value);
  }

  lemma NoneSelected(rows: seq<Row>)
    ensures rows == [] || exists row :: row in rows
  {
    if rows != [] {
      assert rows[0] in rows;
    }
  }

  /** Where the database refuses: text and lists of text against the id, numbers and lists of numbers
      against the name. An empty list is never refused. A key that is no column is an error before. */
  lemma RefusedFilters(rows: seq<Row>, key: string, value: FilterValue)
    ensures Select(rows, [(key, value)]).ValueError? <==> key != "id" && key != "name"
    ensures Select(rows, [(key, value)]).DbError? <==>
      || (key == "id" && (value.TextValue? || (value.TextList? && value.ss != [])))
      || (key == "name" && (value.IntValue? || (value.IntList? && value.ns != [])))
  {
    if key == "id" || key == "name" {
      OneCondition(rows, (key, value));
    } else {
      assert !ColumnOf([(key, value)][0].0).Ok?;
    }
  }

  lemma OneCondition(rows: seq<Row>, entry: (string, FilterValue))
    requires entry.0 == "id" || entry.0 == "name"
    ensures Conditions([entry]) == Ok([ConditionFor(entry)])
    ensures Select(rows, [entry])
         == if WellTyped(ConditionFor(entry)) then Ok(Where(rows, [ConditionFor(entry)])) else DbError
    ensures forall row :: row in Where(rows, [ConditionFor(entry)]) <==> row in rows && Holds(ConditionFor(entry), row)
  {
    var query := [ConditionFor(entry)];
    assert [entry][0] == entry && Conditions([entry]).value == query;
    assert query[0] == ConditionFor(entry);
    forall row
      ensures row in Where(rows, query) <==> row in rows && Holds(query[0], row)
    {
      WhereMembers(rows, query, row);
    }
  }

  /** And several filters are the conjunction of the single ones: they fail when one of them does, at the
      database only if none fails before, and otherwise select the rows that each of them selects. */
  lemma FiltersTogether(rows: seq<Row>, filters: FilterDict)
    ensures Select(rows, filters).ValueError? <==> exists i :: 0 <= i < |filters| && Alone(rows, filters, i).ValueError?
    ensures Select(rows, filters).Ok? <==> forall i :: 0 <= i < |filters| ==> Alone(rows, filters, i).Ok?
    ensures Select(rows, filters).Ok? ==> forall row :: row in Select(rows, filters).value <==>
        row in rows && forall i :: 0 <= i < |filters| ==> row in Alone(rows, filters, i).value
  {
    forall i | 0 <= i < |filters|
      ensures Alone(rows, filters, i).ValueError? <==> !ColumnOf(filters[i].0).Ok?
    {
      RefusedFilters(rows, filters[i].0, filters[i].1);
      assert (filters[i].0, filters[i].1) == filters[i];
    }
    if !Select(rows, filters).ValueError? {
      var query := Conditions(filters).value;
      forall i | 0 <= i < |filters|
        ensures query[i] == ConditionFor(filters[i])
        ensures Alone(rows, filters, i) == if WellTyped(query[i]) then Ok(Where(rows, [query[i]])) else DbError
        ensures forall row :: row in Where(rows, [query[i]]) <==> row in rows && Holds(query[i], row)
      {
        assert ColumnOf(filters[i].0).Ok?;
        OneCondition(rows, filters[i]);
      }
      if Select(rows, filters).Ok? {
        forall row {
          FiltersAreConjunction(rows, filters, row);
        }
      }
    }
  }

  ghost function Alone(rows: seq<Row>, filters: FilterDict, i: nat): Outcome<seq<Row>>
    requires i < |filters|
  {
    Select(rows, [filters[i]])
  }

  // ----- text filters -----

  predicate Special(c: char) { c == LIKE.many || c == LIKE.one || c == LIKE.escape }

  /** Folding leaves the special characters of a pattern alone and makes no new ones. */
  ghost predicate KeepsSpecial(fold: char -> char) {
    forall c: char :: Special(c) || Special(fold(c)) ==> fold(c) == c
  }

  lemma FoldConcat(fold: char -> char, a: string, b: string)
    ensures FoldWith(fold, a + b) == FoldWith(fold, a) + FoldWith(fold, b)
  {
  }

  /** A text filter free of wildcards, after its outer percent signs are stripped and it is cut to 255
      characters, selects the names in which it occurs, whatever the case and by whatever rule the
      database folds each letter. */
  lemma TextFilterIsSubstring(fold: char -> char, text: string, row: Row)
    requires KeepsSpecial(fold) && Plain(LIKE, Sanitized(text))
    ensures HoldsUnder(fold, ConditionOf(NameColumn, TextValue(text)), row)
       <==> Occurs(FoldWith(fold, Sanitized(text)), FoldWith(fold, row.name))
  {
    var part := Sanitized(text);
    FoldConcat(fold, "%" + part, "%");
    FoldConcat(fold, "%", part);
    assert Special('%') && fold('%') == '%';
    assert FoldWith(fold, "%" + part + "%") == [LIKE.many] + FoldWith(fold, part) + [LIKE.many];
    forall i | 0 <= i < |part|
      ensures !Special(FoldWith(fold, part)[i])
    {
      assert !Special(part[i]);
    }
    InfixPattern(LIKE, FoldWith(fold, part), FoldWith(fold, row.name));
  }

  /** The folding of ASCII letters, by which rows are selected here, is such a rule. */
  lemma AsciiFolding()
    ensures KeepsSpecial(FoldChar)
  {
  }

  /** The same letters, but that ASCII capitals and small letters stand for each other. */
  predicate SameLetters(a: string, b: string) {
    |a| == |b| && forall i :: 0 <= i < |a| ==>
      || a[i] == b[i]
      || ('A' <= a[i] <= 'Z' && a[i] as int + 32 == b[i] as int)
      || ('A' <= b[i] <= 'Z' && b[i] as int + 32 == a[i] as int)
  }

  predicate FoundAt(part: string, text: string, i: nat) {
    i + |part| <= |text| && SameLetters(text[i..i + |part|], part)
  }

  lemma FoldsAlike(a: string, b: string)
    ensures FoldWith(FoldChar, a) == FoldWith(FoldChar, b) <==> SameLetters(a, b)
  {
    if SameLetters(a, b) {
      assert forall i :: 0 <= i < |a| ==> FoldChar(a[i]) == FoldChar(b[i]);
    } else if |a| == |b| {
      var i :| 0 <= i < |a| && FoldChar(a[i]) != FoldChar(b[i]);
      assert FoldWith(FoldChar, a)[i] != FoldWith(FoldChar, b)[i];
    }
  }

  lemma FoldedOccurs(part: string, text: string)
    ensures Occurs(FoldWith(FoldChar, part), FoldWith(FoldChar, text)) <==> exists i: nat :: FoundAt(part, text, i)
  {
    var p, t := FoldWith(FoldChar, part), FoldWith(FoldChar, text);
    forall i: nat | i + |part| <= |text|
      ensures OccursAt(p, t, i) <==> FoundAt(part, text, i)
    {
      FoldsAlike(text[i..i + |part|], part);
      assert t[i..i + |part|] == FoldWith(FoldChar, text[i..i + |part|]);
    }
    if i: nat :| FoundAt(part, text, i) {
      assert OccursAt(p, t, i);
    }
    if i: nat :| i <= |t| && OccursAt(p, t, i) {
      assert FoundAt(part, text, i);
    }
  }

  /** So as a single filter it selects the rows whose name holds the text somewhere, small and capital ASCII
      letters being the same. */
  lemma TextSelects(rows: seq<Row>, text: string)
    requires Plain(LIKE, Sanitized(text))
    ensures
      var selected := Select(rows, [("name", TextValue(text))]);
      && selected.Ok?
      && forall row :: row in selected.value <==>
          row in rows && exists i: nat :: FoundAt(Sanitized(text), row.name, i)
  {
    var entry := ("name", TextValue(text));
    OneCondition(rows, entry);
    AsciiFolding();
    forall row
      ensures Holds(ConditionFor(entry), row) <==> exists i: nat :: FoundAt(Sanitized(text), row.name, i)
    {
      TextFilterIsSubstring(FoldChar, text, row);
      FoldedOccurs(Sanitized(text), row.name);
    }
  }

  /** What is searched for: the text without the percent signs at either end, cut to 255 characters. */
  lemma {:induction false} SanitizedText(text: string) returns (i: nat, j: nat)
    ensures StripsTo(text, i, j) && Sanitized(text) == if j - i <= 255 then text[i..j] else text[i..i + 255]
    ensures |Sanitized(text)| <= 255 && Occurs(Sanitized(text), text)
    ensures text == "" || (text[0] != '%' && text[|text| - 1] != '%') ==>
        Sanitized(text) == if |text| <= 255 then text else text[..255]
  {
    i, j := Stripped(text);
    assert OccursAt(Sanitized(text), text, i);
    assert |text[i..j]| > 255 ==> text[i..j][..255] == text[i..i + 255];
  }

  /** The part from i to j is what percent signs surround. */
  predicate StripsTo(text: string, i: nat, j: nat) {
    && i <= j <= |text|
    && (forall k :: 0 <= k < |text| && (k < i || j <= k) ==> text[k] == '%')
    && (i < j ==> text[i] != '%' && text[j - 1] != '%')
  }

  lemma {:induction false} Stripped(text: string) returns (i: nat, j: nat)
    ensures StripsTo(text, i, j) && StripPercent(text) == text[i..j]
    decreases |text|
  {
    i, j := 0, |text|;
    if text != "" && text[0] == '%' {
      i, j := Stripped(text[1..]);
      assert text[1..][i..j] == text[i + 1..j + 1];
      assert forall k :: 1 <= k < |text| ==> text[k] == text[1..][k - 1];
      i, j := i + 1, j + 1;
    } else if text != "" && text[|text| - 1] == '%' {
      i, j := Stripped(text[..|text| - 1]);
      assert forall k :: 0 <= k < |text| - 1 ==> text[k] == text[..|text| - 1][k];
    } else {
      assert text[0..|text|] == text;
    }
  }
}
