/** Redaction of request data before it is logged. */
module Sanitizer {
  import opened Redis

  datatype Json = Null | Bool(b: bool) | Number(n: real) | Text(s: string) | List(items: seq<Json>)
      | Dict(fields: seq<Field>)
  datatype Field = Field(key: string, value: Json)

  const REDACTED := Text("[REDACTED]")

  const SENSITIVE_FIELDS: set<string> := {
    "password", "passwd", "pwd", "token", "access_token", "refresh_token", "secret", "api_key", "private_key",
    "ssn", "social_security_number", "credit_card", "card_number", "cvv", "authorization"
  }

  /** Lower case, as far as it can lead to one of the names above: besides the capital letters, only
      the Kelvin sign has an ASCII letter as its lower case. */
  function Lower(s: string): string {
    seq(|s|, i requires 0 <= i < |s| =>
      if 'A' <= s[i] <= 'Z' then s[i] - 'A' + 'a' else if s[i] == '\U{212A}' then 'k' else s[i])
  }

  predicate Sensitive(key: string) { Lower(key) in SENSITIVE_FIELDS }

  function Sanitize(data: Option<seq<Field>>): Option<seq<Field>> {
    match data case None => None case Some(fields) => Some(SanitizeFields(fields))
  }

  function SanitizeFields(fields: seq<Field>): seq<Field> {
    if fields == [] then []
    else
      var f := fields[0];
      [Field(f.key, if Sensitive(f.key) then REDACTED else SanitizeValue(f.value))] + SanitizeFields(fields[1..])
  }

  function SanitizeValue(v: Json): Json {
    match v
    case Dict(fields) => Dict(SanitizeFields(fields))
    case List(items) => List(SanitizeItems(items))
    case _ => v
  }

  /** Only dictionaries directly in the list are sanitized. */
  function SanitizeItems(items: seq<Json>): seq<Json> {
    if items == [] then []
    else [if items[0].Dict? then Dict(SanitizeFields(items[0].fields)) else items[0]] + SanitizeItems(items[1..])
  }

  // ----- which keys, in plain terms -----

  /** The name in small letters, in capitals, or mixed; the Kelvin sign is a k too. */
  predicate Spells(key: string, name: string) {
    |key| == |name| && forall i :: 0 <= i < |key| ==>
      || key[i] == name[i]
      || ('a' <= name[i] <= 'z' && key[i] as int + 32 == name[i] as int)
      || (name[i] == 'k' && key[i] == '\U{212A}')
  }

  lemma LowerSpells(key: string, name: string)
    requires forall i :: 0 <= i < |name| ==> 'a' <= name[i] <= 'z' || name[i] == '_'
    ensures Lower(key) == name <==> Spells(key, name)
  {
    if Spells(key, name) {
      assert Lower(key) == name;
    } else if |key| == |name| {
      var i :| 0 <= i < |key| && key[i] != name[i] &&
          !('a' <= name[i] <= 'z' && key[i] as int + 32 == name[i] as int) &&
          !(name[i] == 'k' && key[i] == '\U{212A}');
      assert Lower(key)[i] != name[i];
    }
  }

  predicate NamesSecret(key: string) {
    || Spells(key, "password") || Spells(key, "passwd") || Spells(key, "pwd") || Spells(key, "token")
    || Spells(key, "access_token") || Spells(key, "refresh_token") || Spells(key, "secret")
    || Spells(key, "api_key") || Spells(key, "private_key") || Spells(key, "ssn")
    || Spells(key, "social_security_number") || Spells(key, "credit_card") || Spells(key, "card_number")
    || Spells(key, "cvv") || Spells(key, "authorization")
  }

  lemma SensitiveNames(key: string)
    ensures Sensitive(key) <==> NamesSecret(key)
  {
    LowerSpells(key, "password");
    LowerSpells(key, "passwd");
    LowerSpells(key, "pwd");
    LowerSpells(key, "token");
    LowerSpells(key, "access_token");
    LowerSpells(key, "refresh_token");
    LowerSpells(key, "secret");
    LowerSpells(key, "api_key");
    LowerSpells(key, "private_key");
    LowerSpells(key, "ssn");
    LowerSpells(key, "social_security_number");
    LowerSpells(key, "credit_card");
    LowerSpells(key, "card_number");
    LowerSpells(key, "cvv");
    LowerSpells(key, "authorization");
  }

  /** What becomes of every field: its key and its place stay. Its value becomes the redaction mark if the
      key spells one of the fifteen names in whatever case, and otherwise is sanitized in turn if it is a
      dictionary, item by item if it is a list, where only dictionaries are, and kept if it is a leaf. */
  lemma {:induction false} FieldByField(fields: seq<Field>, i: nat)
    requires i < |fields|
    ensures |SanitizeFields(fields)| == |fields| && SanitizeFields(fields)[i].key == fields[i].key
    ensures
      var before, after := fields[i].value, SanitizeFields(fields)[i].value;
      if NamesSecret(fields[i].key) then after == Text("[REDACTED]")
      else match before
        case Dict(inner) => after == Dict(SanitizeFields(inner))
        case List(items) => after.List? && ItemByItem(items, after.items)
        case _ => after == before
  {
    SensitiveNames(fields[i].key);
    if i > 0 {
      FieldByField(fields[1..], i - 1);
    } else {
      if |fields| > 1 {
        FieldByField(fields[1..], 0);
      }
      if fields[0].value.List? {
        ItemsSanitized(fields[0].value.items);
      }
    }
  }

  predicate ItemByItem(items: seq<Json>, after: seq<Json>) {
    |after| == |items| && forall j :: 0 <= j < |items| ==>
      after[j] == if items[j].Dict? then Dict(SanitizeFields(items[j].fields)) else items[j]
  }

  lemma {:induction false} ItemsSanitized(items: seq<Json>)
    ensures ItemByItem(items, SanitizeItems(items))
  {
    if items != [] {
      ItemsSanitized(items[1..]);
    }
  }

  // ----- what a reader of the log may tell apart -----

  /** The same up to the values under sensitive keys of reachable dictionaries, which are those reached
      through dictionary values and direct dictionary items of lists. */
  predicate AlikeFields(a: seq<Field>, b: seq<Field>) {
    && |a| == |b|
    && (a != [] ==>
         && a[0].key == b[0].key
         && (Sensitive(a[0].key) || AlikeValues(a[0].value, b[0].value))
         && AlikeFields(a[1..], b[1..]))
  }

  predicate AlikeValues(a: Json, b: Json) {
    match (a, b)
    case (Dict(fa), Dict(fb)) => AlikeFields(fa, fb)
    case (List(ia), List(ib)) => AlikeItems(ia, ib)
    case _ => a == b
  }

  predicate AlikeItems(a: seq<Json>, b: seq<Json>) {
    && |a| == |b|
    && (a != [] ==>
         && (if a[0].Dict? && b[0].Dict? then AlikeFields(a[0].fields, b[0].fields) else a[0] == b[0])
         && AlikeItems(a[1..], b[1..]))
  }

  lemma {:induction false} FieldsRevealAlike(a: seq<Field>, b: seq<Field>)
    ensures SanitizeFields(a) == SanitizeFields(b) <==> AlikeFields(a, b)
  {
    if a != [] && b != [] {
      SplitEquality(a, b);
      FieldsRevealAlike(a[1..], b[1..]);
      ValuesRevealAlike(a[0].value, b[0].value);
    }
  }

  lemma SplitEquality(a: seq<Field>, b: seq<Field>)
    requires a != [] && b != []
    ensures SanitizeFields(a) == SanitizeFields(b)
       <==> SanitizeFields(a)[0] == SanitizeFields(b)[0] && SanitizeFields(a[1..]) == SanitizeFields(b[1..])
  {
    assert SanitizeFields(a)[1..] == SanitizeFields(a[1..]);
    assert SanitizeFields(b)[1..] == SanitizeFields(b[1..]);
  }

  lemma {:induction false} ValuesRevealAlike(a: Json, b: Json)
    ensures SanitizeValue(a) == SanitizeValue(b) <==> AlikeValues(a, b)
  {
    match (a, b)
    case (Dict(fa), Dict(fb)) => FieldsRevealAlike(fa, fb);
    case (List(ia), List(ib)) => ItemsRevealAlike(ia, ib);
    case _ =>
  }

  lemma {:induction false} ItemsRevealAlike(a: seq<Json>, b: seq<Json>)
    ensures SanitizeItems(a) == SanitizeItems(b) <==> AlikeItems(a, b)
  {
    if a != [] && b != [] {
      assert SanitizeItems(a)[1..] == SanitizeItems(a[1..]);
      assert SanitizeItems(b)[1..] == SanitizeItems(b[1..]);
      ItemsRevealAlike(a[1..], b[1..]);
      if a[0].Dict? && b[0].Dict? {
        FieldsRevealAlike(a[0].fields, b[0].fields);
      }
    }
  }

  /** Main result: two requests leave the same log entry exactly when they are alike, that is, when
      they differ at most under sensitive keys of reachable dictionaries. */
  lemma LogRevealsExactlyAlike(a: seq<Field>, b: seq<Field>)
    ensures Sanitize(Some(a)) == Sanitize(Some(b)) <==> AlikeFields(a, b)
    ensures Sanitize(None) == None && Sanitize(Some(a)) == Some(SanitizeFields(a))
  {
    FieldsRevealAlike(a, b);
  }

  // ----- what is kept, and idempotence -----

  /** Keys and their order are kept at every level, and so is every leaf not under a sensitive key. */
  lemma {:induction false} SanitizedIsAlike(fields: seq<Field>)
    ensures AlikeFields(fields, SanitizeFields(fields))
  {
    if fields != [] {
      assert SanitizeFields(fields)[1..] == SanitizeFields(fields[1..]);
      SanitizedIsAlike(fields[1..]);
      SanitizedValueIsAlike(fields[0].value);
    }
  }

  lemma {:induction false} SanitizedValueIsAlike(v: Json)
    ensures AlikeValues(v, SanitizeValue(v))
  {
    match v
    case Dict(fields) => SanitizedIsAlike(fields);
    case List(items) => SanitizedItemsAreAlike(items);
    case _ =>
  }

  lemma {:induction false} SanitizedItemsAreAlike(items: seq<Json>)
    ensures AlikeItems(items, SanitizeItems(items))
  {
    if items != [] {
      assert SanitizeItems(items)[1..] == SanitizeItems(items[1..]);
      SanitizedItemsAreAlike(items[1..]);
      if items[0].Dict? {
        SanitizedIsAlike(items[0].fields);
      }
    }
  }

  /** Sanitizing twice changes nothing more. */
  lemma SanitizeIdempotent(data: Option<seq<Field>>)
    ensures Sanitize(Sanitize(data)) == Sanitize(data)
  {
    if data.Some? {
      SanitizedIsAlike(data.value);
      FieldsRevealAlike(data.value, SanitizeFields(data.value));
    }
  }

  // ----- no secret is left, where sanitizing looks -----

  /** Every sensitive key of a reachable dictionary carries the redaction mark. */
  predicate CleanFields(fields: seq<Field>) {
    fields == [] ||
      (&& (if Sensitive(fields[0].key) then fields[0].value == REDACTED else CleanValue(fields[0].value))
       && CleanFields(fields[1..]))
  }

  predicate CleanValue(v: Json) {
    match v
    case Dict(fields) => CleanFields(fields)
    case List(items) => CleanItems(items)
    case _ => true
  }

  predicate CleanItems(items: seq<Json>) {
    items == [] || ((items[0].Dict? ==> CleanFields(items[0].fields)) && CleanItems(items[1..]))
  }

  /** Clean data is exactly the data that sanitizing leaves alone. */
  lemma {:induction false} CleanIsFixed(fields: seq<Field>)
    ensures CleanFields(fields) <==> SanitizeFields(fields) == fields
  {
    if fields != [] {
      assert SanitizeFields(fields)[1..] == SanitizeFields(fields[1..]);
      assert fields == [fields[0]] + fields[1..];
      CleanIsFixed(fields[1..]);
      CleanValueIsFixed(fields[0].value);
    }
  }

  lemma {:induction false} CleanValueIsFixed(v: Json)
    ensures CleanValue(v) <==> SanitizeValue(v) == v
  {
    match v
    case Dict(fields) => CleanIsFixed(fields);
    case List(items) => CleanItemsAreFixed(items);
    case _ =>
  }

  lemma {:induction false} CleanItemsAreFixed(items: seq<Json>)
    ensures CleanItems(items) <==> SanitizeItems(items) == items
  {
    if items != [] {
      assert SanitizeItems(items)[1..] == SanitizeItems(items[1..]);
      assert items == [items[0]] + items[1..];
      CleanItemsAreFixed(items[1..]);
      if items[0].Dict? {
        CleanIsFixed(items[0].fields);
      }
    }
  }

  lemma SanitizedIsClean(fields: seq<Field>)
    ensures CleanFields(SanitizeFields(fields))
  {
    SanitizeIdempotent(Some(fields));
    CleanIsFixed(SanitizeFields(fields));
  }

  // ----- where sanitizing does not look -----

  /** Every sensitive key of every dictionary, reachable or not, carries the redaction mark. */
  predicate SpotlessFields(fields: seq<Field>) {
    fields == [] ||
      (&& (if Sensitive(fields[0].key) then fields[0].value == REDACTED else SpotlessValue(fields[0].value))
       && SpotlessFields(fields[1..]))
  }

  predicate SpotlessValue(v: Json) {
    match v
    case Dict(fields) => SpotlessFields(fields)
    case List(items) => SpotlessItems(items)
    case _ => true
  }

  predicate SpotlessItems(items: seq<Json>) {
    items == [] || (SpotlessValue(items[0]) && SpotlessItems(items[1..]))
  }

  /** No list that is directly an item of a list holds an unredacted secret. */
  predicate NothingBuried(fields: seq<Field>) {
    fields == [] || ((Sensitive(fields[0].key) || NothingBuriedIn(fields[0].value)) && NothingBuried(fields[1..]))
  }

  predicate NothingBuriedIn(v: Json) {
    match v
    case Dict(fields) => NothingBuried(fields)
    case List(items) => NothingBuriedAmong(items)
    case _ => true
  }

  predicate NothingBuriedAmong(items: seq<Json>) {
    items == [] ||
      ((if items[0].Dict? then NothingBuried(items[0].fields) else SpotlessValue(items[0])) &&
          NothingBuriedAmong(items[1..]))
  }

  /** The log is free of secrets exactly when the request had none buried in a list within a list. */
  lemma {:induction false} SpotlessUnlessBuried(fields: seq<Field>)
    ensures SpotlessFields(SanitizeFields(fields)) <==> NothingBuried(fields)
  {
    if fields != [] {
      assert SanitizeFields(fields)[1..] == SanitizeFields(fields[1..]);
      SpotlessUnlessBuried(fields[1..]);
      SpotlessValueUnlessBuried(fields[0].value);
    }
  }

  lemma {:induction false} SpotlessValueUnlessBuried(v: Json)
    ensures SpotlessValue(SanitizeValue(v)) <==> NothingBuriedIn(v)
  {
    match v
    case Dict(fields) => SpotlessUnlessBuried(fields);
    case List(items) => SpotlessItemsUnlessBuried(items);
    case _ =>
  }

  lemma {:induction false} SpotlessItemsUnlessBuried(items: seq<Json>)
    ensures SpotlessItems(SanitizeItems(items)) <==> NothingBuriedAmong(items)
  {
    if items != [] {
      assert SanitizeItems(items)[1..] == SanitizeItems(items[1..]);
      SpotlessItemsUnlessBuried(items[1..]);
      if items[0].Dict? {
        SpotlessUnlessBuried(items[0].fields);
      }
    }
  }

  /** A dictionary inside a list inside a list is out of reach: its password is logged as it is. */
  lemma NestedListLeaks(secret: string)
    ensures
      var data := [Field("rows", List([List([Dict([Field("password", Text(secret))])])]))];
      SanitizeFields(data) == data
  {
    var inner := List([Dict([Field("password", Text(secret))])]);
    var data := [Field("rows", List([inner]))];
    assert Lower("rows") == "rows";
    assert CleanItems([inner][1..]) && CleanItems([inner]) && CleanFields(data[1..]);
    CleanIsFixed(data);
  }
}
