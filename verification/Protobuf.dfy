/** Requests and responses as Protocol Buffers messages and back. */
module Protobuf {
  import opened Redis

  datatype Result<+T> = Ok(value: T) | ValueError

  // ----- fields -----

  datatype PkgId = GetAuthors | GetPaginatedAuthors | CreateAuthor | UnregisteredHandler {
    function Number(): int {
      match this
      case GetAuthors => 1
      case GetPaginatedAuthors => 2
      case CreateAuthor => 3
      case UnregisteredHandler => 999
    }
  }

  function PkgIdOf(n: int): Option<PkgId> {
    if n == 1 then Some(GetAuthors) else if n == 2 then Some(GetPaginatedAuthors)
    else if n == 3 then Some(CreateAuthor) else if n == 999 then Some(UnregisteredHandler) else None
  }

  datatype StatusCode = OK | ERROR | INVALID_DATA | PERMISSION_DENIED {
    function Number(): int {
      match this case OK => 0 case ERROR => 1 case INVALID_DATA => 2 case PERMISSION_DENIED => 3
    }
  }

  function StatusOf(n: int): Option<StatusCode> {
    if n == 0 then Some(OK) else if n == 1 then Some(ERROR)
    else if n == 2 then Some(INVALID_DATA) else if n == 3 then Some(PERMISSION_DENIED) else None
  }

  predicate Int32(n: int) { -0x8000_0000 <= n < 0x8000_0000 }

  datatype Json = Null | Bool(b: bool) | Number(n: int) | Text(s: string) | List(items: seq<Json>)
      | Object(fields: map<string, Json>)

  predicate Empty(j: Json) { j == List([]) || j == Object(map[]) }

  /** A text field that should hold JSON. */
  datatype JsonText = Blank | Holding(value: Json) | Malformed

  // ----- UUIDs as text -----

  type Uuid = n: int | 0 <= n < 0x1_0000_0000_0000_0000_0000_0000_0000_0000

  function HexDigit(n: int): char
    requires 0 <= n < 16
  {
    if n < 10 then ('0' as int + n) as char else ('a' as int + n - 10) as char
  }

  function HexValue(c: char): Option<int> {
    if '0' <= c <= '9' then Some(c as int - '0' as int)
    else if 'a' <= c <= 'f' then Some(c as int - 'a' as int + 10)
    else if 'A' <= c <= 'F' then Some(c as int - 'A' as int + 10) else None
  }

  function Hex(n: nat, digits: nat): (s: string)
    ensures |s| == digits
  {
    if digits == 0 then "" else Hex(n / 16, digits - 1) + [HexDigit(n % 16)]
  }

  function ParseHex(s: string): Option<nat> {
    if s == "" then Some(0)
    else match (ParseHex(s[..|s| - 1]), HexValue(s[|s| - 1]))
      case (Some(v), Some(d)) => Some(v * 16 + d)
      case _ => None
  }

  function Pow16(digits: nat): nat {
    if digits == 0 then 1 else 16 * Pow16(digits - 1)
  }

  lemma {:induction false} HexRoundTrip(n: nat, digits: nat)
    requires n < Pow16(digits)
    ensures ParseHex(Hex(n, digits)) == Some(n)
  {
    if digits > 0 {
      HexRoundTrip(n / 16, digits - 1);
      var s := Hex(n, digits);
      assert s[..|s| - 1] == Hex(n / 16, digits - 1);
    }
  }

  function UuidText(id: Uuid): string {
    var h := Hex(id, 32);
    h[..8] + "-" + h[8..12] + "-" + h[12..16] + "-" + h[16..20] + "-" + h[20..]
  }

  function WithoutHyphens(s: string): string {
    if s == "" then "" else (if s[0] == '-' then "" else [s[0]]) + WithoutHyphens(s[1..])
  }

  function ParseUuid(s: string): Option<Uuid> {
    var h := WithoutHyphens(s);
    if |h| != 32 then None
    else match ParseHex(h)
      case None => None
      case Some(v) => if v < 0x1_0000_0000_0000_0000_0000_0000_0000_0000 then Some(v) else None
  }

  lemma {:induction false} WithoutHyphensConcat(s: string, t: string)
    ensures WithoutHyphens(s + t) == WithoutHyphens(s) + WithoutHyphens(t)
  {
    if s == "" {
      assert s + t == t;
    } else {
      WithoutHyphensConcat(s[1..], t);
      assert (s + t)[0] == s[0] && (s + t)[1..] == s[1..] + t;
      Associative(if s[0] == '-' then "" else [s[0]], WithoutHyphens(s[1..]), WithoutHyphens(t));
    }
  }

  lemma {:induction false} NoHyphens(s: string)
    requires forall i :: 0 <= i < |s| ==> s[i] != '-'
    ensures WithoutHyphens(s) == s
  {
    if s != "" {
      NoHyphens(s[1..]);
    }
  }

  lemma {:induction false} HexHasNoHyphen(n: nat, digits: nat)
    ensures forall i :: 0 <= i < digits ==> Hex(n, digits)[i] != '-'
  {
    if digits > 0 {
      HexHasNoHyphen(n / 16, digits - 1);
    }
  }

  lemma Grouped(h: string, from: nat, to: nat, rest: string)
    requires from <= to <= |h| && forall i :: 0 <= i < |h| ==> h[i] != '-'
    ensures WithoutHyphens(h[from..to] + "-" + rest) == h[from..to] + WithoutHyphens(rest)
  {
    WithoutHyphensConcat(h[from..to] + "-", rest);
    WithoutHyphensConcat(h[from..to], "-");
    NoHyphens(h[from..to]);
    assert "-"[1..] == "";
  }

  lemma UuidRoundTrip(id: Uuid)
    ensures ParseUuid(UuidText(id)) == Some(id)
  {
    var h := Hex(id, 32);
    HexHasNoHyphen(id, 32);
    var e := h[20..];
    var d := h[16..20] + "-" + e;
    var c := h[12..16] + "-" + d;
    var b := h[8..12] + "-" + c;
    assert UuidText(id) == h[0..8] + "-" + b;
    NoHyphens(e);
    Grouped(h, 16, 20, e);
    Grouped(h, 12, 16, d);
    Grouped(h, 8, 12, c);
    Grouped(h, 0, 8, b);
    assert WithoutHyphens(UuidText(id)) == h;
    Pow16Of32();
    HexRoundTrip(id, 32);
  }

  /** The text of a UUID: 36 characters, hyphens after 8, 12, 16 and 20 digits, and small hex digits. */
  lemma UuidShape(id: Uuid)
    ensures |UuidText(id)| == 36
    ensures forall i :: 0 <= i < 36 ==>
        if i == 8 || i == 13 || i == 18 || i == 23 then UuidText(id)[i] == '-'
        else '0' <= UuidText(id)[i] <= '9' || 'a' <= UuidText(id)[i] <= 'f'
  {
    HexIsHex(id, 32);
  }

  predicate IsHex(c: char) { '0' <= c <= '9' || 'a' <= c <= 'f' || 'A' <= c <= 'F' }

  /** Which texts are UUIDs: 32 hex digits, small or capital, with hyphens anywhere. */
  lemma UuidIsRead(s: string)
    ensures
      var h := WithoutHyphens(s);
      ParseUuid(s).Some? <==> |h| == 32 && forall i :: 0 <= i < 32 ==> IsHex(h[i])
  {
    var h := WithoutHyphens(s);
    ParsesHex(h);
    Pow16Of32();
  }

  lemma {:induction false} ParsesHex(s: string)
    ensures ParseHex(s).Some? <==> forall i :: 0 <= i < |s| ==> IsHex(s[i])
    ensures ParseHex(s).Some? ==> ParseHex(s).value < Pow16(|s|)
  {
    if s != "" {
      ParsesHex(s[..|s| - 1]);
      assert s == s[..|s| - 1] + [s[|s| - 1]];
    }
  }

  /** A capital hex digit counts as the small one. */
  lemma CapitalDigits(c: char)
    requires 'a' <= c <= 'f'
    ensures HexValue((c as int - 32) as char) == HexValue(c) == Some(10 + c as int - 'a' as int)
  {
  }

  lemma {:induction false} HexIsHex(n: nat, digits: nat)
    ensures forall i :: 0 <= i < digits ==> '0' <= Hex(n, digits)[i] <= '9' || 'a' <= Hex(n, digits)[i] <= 'f'
  {
    if digits > 0 {
      HexIsHex(n / 16, digits - 1);
    }
  }

  lemma Pow16Of32()
    ensures Pow16(32) == 0x1_0000_0000_0000_0000_0000_0000_0000_0000
  {
    assert Pow16(8) == 0x1_0000_0000;
    assert Pow16(16) == 0x1_0000_0000_0000_0000;
    assert Pow16(24) == 0x1_0000_0000_0000_0000_0000_0000;
  }

  // ----- requests -----

  datatype RequestModel =
    RequestModel(pkgId: PkgId, reqId: Uuid, method_: Option<string>, data: Option<map<string, Json>>)

  /** The fields of a Request message. */
  datatype RequestFields = RequestFields(pkgId: int, reqId: string, method_: string, dataJson: JsonText)

  class RequestMessage {
    var pkgId: int
    var reqId: string
    var method_: string
    var dataJson: JsonText

    constructor ()
      ensures Fields() == RequestFields(0, "", "", Blank)
    {
      pkgId, reqId, method_, dataJson := 0, "", "", Blank;
    }

    function Fields(): RequestFields
      reads this
    {
      RequestFields(pkgId, reqId, method_, dataJson)
    }
  }

  function RequestAsFields(r: RequestModel): RequestFields {
    RequestFields(r.pkgId.Number(), UuidText(r.reqId),
                  match r.method_ case None => "" case Some(m) => m,
                  Holding(Object(match r.data case None => map[] case Some(d) => d)))
  }

  method ToProtoRequest(r: RequestModel) returns (message: RequestMessage)
    ensures fresh(message) && message.Fields() == RequestAsFields(r)
  {
    message := new RequestMessage();
    message.pkgId := r.pkgId.Number();
    message.reqId := UuidText(r.reqId);
    message.method_ := if r.method_.Some? then r.method_.value else "";
    if r.data.Some? && r.data.value != map[] {
      message.dataJson := Holding(Object(r.data.value));
    } else {
      message.dataJson := Holding(Object(map[]));
    }
  }

  function FromProtoRequest(m: RequestFields): Result<RequestModel> {
    match m.dataJson
    case Malformed => ValueError
    case Holding(Object(d)) => RequestOf(m, Some(d))
    case Holding(Null) => RequestOf(m, None)
    case Holding(_) => ValueError
    case Blank => RequestOf(m, Some(map[]))
  }

  function RequestOf(m: RequestFields, data: Option<map<string, Json>>): Result<RequestModel> {
    match (PkgIdOf(m.pkgId), ParseUuid(m.reqId))
    case (Some(p), Some(id)) => Ok(RequestModel(p, id, if m.method_ == "" then None else Some(m.method_), data))
    case _ => ValueError
  }

  /** What survives: an empty method becomes no method, missing data an empty object. */
  function NormalRequest(r: RequestModel): RequestModel {
    r.(method_ := if r.method_ == Some("") then None else r.method_,
        data := if r.data.None? then Some(map[]) else r.data)
  }

  /** Converting a request to a message and back normalises it. */
  lemma RequestRoundTrip(r: RequestModel)
    ensures FromProtoRequest(RequestAsFields(r)) == Ok(NormalRequest(r))
  {
    UuidRoundTrip(r.reqId);
  }

  /** Two requests become the same message exactly when they normalise alike. */
  lemma RequestsMeetIff(r: RequestModel, s: RequestModel)
    ensures RequestAsFields(r) == RequestAsFields(s) <==> NormalRequest(r) == NormalRequest(s)
  {
    RequestRoundTrip(r);
    RequestRoundTrip(s);
  }

  /** The normal form is a fixed point, and the fixed points are exactly the requests that have data and
      no empty method. */
  lemma NormalRequests(r: RequestModel)
    ensures NormalRequest(NormalRequest(r)) == NormalRequest(r)
    ensures NormalRequest(r) == r <==> r.data.Some? && r.method_ != Some("")
  {
  }

  predicate Numbered(p: PkgId, n: int) {
    match p
    case GetAuthors => n == 1
    case GetPaginatedAuthors => n == 2
    case CreateAuthor => n == 3
    case UnregisteredHandler => n == 999
  }

  /** The message of a request, field by field. */
  lemma RequestIsSent(r: RequestModel)
    ensures
      var m := RequestAsFields(r);
      && Numbered(r.pkgId, m.pkgId) && ParseUuid(m.reqId) == Some(r.reqId)
      && (m.method_ == "" <==> r.method_ == None || r.method_ == Some(""))
      && (r.method_.Some? ==> m.method_ == r.method_.value)
      && m.dataJson == Holding(Object(if r.data.Some? then r.data.value else map[]))
  {
    UuidRoundTrip(r.reqId);
  }

  /** Which messages are requests at all, and which request each of them is: a data field left blank means an
      empty object, a JSON null no data, and any other JSON that is no object is refused. */
  lemma RequestIsRead(m: RequestFields)
    ensures
      var r := FromProtoRequest(m);
      && (r.Ok? <==>
          && (m.pkgId == 1 || m.pkgId == 2 || m.pkgId == 3 || m.pkgId == 999) && ParseUuid(m.reqId).Some?
          && (m.dataJson == Blank || m.dataJson == Holding(Null) || exists d :: m.dataJson == Holding(Object(d))))
      && (r.Ok? ==>
          && Numbered(r.value.pkgId, m.pkgId) && ParseUuid(m.reqId) == Some(r.value.reqId)
          && r.value.method_ == (if m.method_ == "" then None else Some(m.method_))
          && (m.dataJson == Blank ==> r.value.data == Some(map[]))
          && (m.dataJson == Holding(Null) ==> r.value.data == None)
          && (forall d :: m.dataJson == Holding(Object(d)) ==> r.value.data == Some(d)))
  {
    if m.dataJson.Holding? && m.dataJson.value.Object? {
      assert m.dataJson == Holding(Object(m.dataJson.value.fields));
    }
  }

  // ----- responses -----

  datatype Meta =
    | Model(page: int, perPage: int, total: int, pages: int, nextCursor: Option<string>, hasMore: bool)
    | Dict(entries: map<string, int>)

  datatype ResponseModel = ResponseModel(pkgId: PkgId, reqId: Uuid, status: Option<StatusCode>, meta: Option<Meta>,
      data: Option<Json>) {
    /** What the model class lets in. */
    predicate Valid() {
      && (data.Some? ==> data.value.List? || data.value.Object?)
      && (meta.Some? && meta.value.Model? ==> Permitted(Numbers(meta.value)))
    }
  }

  datatype MetaFields = MetaFields(page: int, perPage: int, total: int, pages: int)

  datatype ResponseFields =
    ResponseFields(pkgId: int, reqId: string, status: int, dataJson: JsonText, meta: Option<MetaFields>)

  predicate Permitted(m: MetaFields) { m.page >= 1 && m.perPage >= 1 && m.total >= 0 && m.pages >= 0 }

  predicate Fits(m: MetaFields) { Int32(m.page) && Int32(m.perPage) && Int32(m.total) && Int32(m.pages) }

  function Get(entries: map<string, int>, key: string, default: int): int {
    if key in entries then entries[key] else default
  }

  function Numbers(m: Meta): MetaFields {
    match m
    case Model(page, perPage, total, pages, _, _) => MetaFields(page, perPage, total, pages)
    case Dict(d) => MetaFields(Get(d, "page", 1), Get(d, "per_page", 20), Get(d, "total", 0), Get(d, "pages", 0))
  }

  /** The metadata that is sent: an empty dictionary counts as none. */
  function SentMeta(meta: Option<Meta>): Option<MetaFields> {
    if meta.None? || meta.value == Dict(map[]) then None else Some(Numbers(meta.value))
  }

  class ResponseMessage {
    var pkgId: int
    var reqId: string
    var status: int
    var dataJson: JsonText
    var meta: Option<MetaFields>

    constructor ()
      ensures Fields() == ResponseFields(0, "", 0, Blank, None)
    {
      pkgId, reqId, status, dataJson, meta := 0, "", 0, Blank, None;
    }

    function Fields(): ResponseFields
      reads this
    {
      ResponseFields(pkgId, reqId, status, dataJson, meta)
    }

    /** Assigning any field of the metadata makes the metadata present; a number outside the field's
        32 bits is an error. */
    method SetMeta(m: MetaFields) returns (fits: bool)
      modifies this
      ensures fits <==> Fits(m)
      ensures pkgId == old(pkgId) && reqId == old(reqId) && status == old(status) && dataJson == old(dataJson)
      ensures fits ==> meta == Some(m)
    {
      var present := if meta.Some? then meta.value else MetaFields(0, 0, 0, 0);
      if !Int32(m.page) { return false; }
      present := present.(page := m.page);
      meta := Some(present);
      if !Int32(m.perPage) { return false; }
      present := present.(perPage := m.perPage);
      meta := Some(present);
      if !Int32(m.total) { return false; }
      present := present.(total := m.total);
      meta := Some(present);
      if !Int32(m.pages) { return false; }
      meta := Some(present.(pages := m.pages));
      return true;
    }
  }

  function ResponseAsFields(r: ResponseModel): Result<ResponseFields> {
    var meta := SentMeta(r.meta);
    if meta.Some? && !Fits(meta.value) then ValueError
    else Ok(ResponseFields(r.pkgId.Number(), UuidText(r.reqId), StatusOrOk(r.status).Number(),
        Holding(DataOrEmpty(r.data)), meta))
  }

  function StatusOrOk(status: Option<StatusCode>): StatusCode {
    match status case Some(s) => s case None => OK
  }

  function DataOrEmpty(data: Option<Json>): Json {
    if data.None? || Empty(data.value) then Object(map[]) else data.value
  }

  method ToProtoResponse(r: ResponseModel) returns (message: Result<ResponseMessage>)
    ensures message.Ok? <==> ResponseAsFields(r).Ok?
    ensures message.Ok? ==> fresh(message.value) && message.value.Fields() == ResponseAsFields(r).value
  {
    var m := new ResponseMessage();
    m.pkgId := r.pkgId.Number();
    m.reqId := UuidText(r.reqId);
    m.status := if r.status.Some? && r.status.value != OK then r.status.value.Number() else 0;
    if r.data.Some? && !Empty(r.data.value) {
      m.dataJson := Holding(r.data.value);
    } else {
      m.dataJson := Holding(Object(map[]));
    }
    if r.meta.Some? && r.meta.value != Dict(map[]) {
      var fits := m.SetMeta(Numbers(r.meta.value));
      if !fits {
        return ValueError;
      }
    }
    return Ok(m);
  }

  function FromProtoResponse(m: ResponseFields): Result<ResponseModel> {
    match m.dataJson
    case Malformed => ValueError
    case Holding(Object(d)) => ResponseOf(m, Some(Object(d)))
    case Holding(List(items)) => ResponseOf(m, Some(List(items)))
    case Holding(Null) => ResponseOf(m, None)
    case Holding(_) => ValueError
    case Blank => ResponseOf(m, None)
  }

  function ResponseOf(m: ResponseFields, data: Option<Json>): Result<ResponseModel> {
    if m.meta.Some? && !Permitted(m.meta.value) then ValueError
    else match (PkgIdOf(m.pkgId), ParseUuid(m.reqId), StatusOf(m.status))
      case (Some(p), Some(id), Some(s)) => Ok(ResponseModel(p, id, Some(s), Received(m.meta), data))
      case _ => ValueError
  }

  /** What survives: a status, data, and the four numbers of the metadata. */
  function NormalResponse(r: ResponseModel): ResponseModel {
    ResponseModel(r.pkgId, r.reqId, Some(StatusOrOk(r.status)), Received(SentMeta(r.meta)), Some(DataOrEmpty(r.data)))
  }

  function Received(meta: Option<MetaFields>): Option<Meta> {
    match meta case None => None case Some(m) => Some(Model(m.page, m.perPage, m.total, m.pages, None, false))
  }

  /** Converting a response to a message and back normalises it, provided the metadata numbers fit 32
      bits on the way out and are valid metadata on the way in; otherwise it is an error. */
  lemma ResponseRoundTrip(r: ResponseModel)
    requires r.Valid()
    ensures
      var meta := SentMeta(r.meta);
      var back := match ResponseAsFields(r) case Ok(m) => FromProtoResponse(m) case ValueError => ValueError;
      back == if meta.Some? && !(Fits(meta.value) && Permitted(meta.value)) then ValueError else Ok(NormalResponse(r))
  {
    UuidRoundTrip(r.reqId);
  }

  /** For metadata that is a model only the range matters: a dictionary can also be refused. */
  lemma ModelMetaReturns(r: ResponseModel)
    requires r.Valid() && r.meta.Some? && r.meta.value.Model? && ResponseAsFields(r).Ok?
    ensures FromProtoResponse(ResponseAsFields(r).value) == Ok(NormalResponse(r))
  {
    ResponseRoundTrip(r);
  }

  /** The normal form is a fixed point, and the fixed points are exactly the responses that have a
      status, data that is no empty list, and metadata that is none or a model without cursor. */
  lemma NormalResponses(r: ResponseModel)
    ensures NormalResponse(NormalResponse(r)) == NormalResponse(r)
    ensures NormalResponse(r) == r <==>
        && r.status.Some? && r.data.Some? && r.data.value != List([])
        && (r.meta.Some? ==> r.meta.value.Model? && r.meta.value.nextCursor.None? && !r.meta.value.hasMore)
  {
  }

  /** Two responses that can be sent become the same message exactly when they normalise alike: nothing
      else is lost. */
  lemma ResponsesMeetIff(r: ResponseModel, s: ResponseModel)
    requires ResponseAsFields(r).Ok? && ResponseAsFields(s).Ok?
    ensures ResponseAsFields(r) == ResponseAsFields(s) <==> NormalResponse(r) == NormalResponse(s)
  {
    UuidRoundTrip(r.reqId);
    UuidRoundTrip(s.reqId);
  }

  // ----- both conversions of a response, in plain terms -----

  predicate Coded(s: StatusCode, n: int) {
    match s case OK => n == 0 case ERROR => n == 1 case INVALID_DATA => n == 2 case PERMISSION_DENIED => n == 3
  }

  /** The number under a key of a metadata dictionary, or what stands for it. */
  ghost predicate Entry(d: map<string, int>, key: string, default: int, n: int) {
    n == if key in d then d[key] else default
  }

  /** The metadata of a message: a model's four numbers, or those of a dictionary, where page 1, 20 per page, a
      total of 0 and 0 pages stand for what is missing. */
  ghost predicate Carries(meta: Meta, m: MetaFields) {
    match meta
    case Model(page, perPage, total, pages, _, _) => m == MetaFields(page, perPage, total, pages)
    case Dict(d) =>
      Entry(d, "page", 1, m.page) && Entry(d, "per_page", 20, m.perPage) && Entry(d, "total", 0, m.total) &&
      Entry(d, "pages", 0, m.pages)
  }

  /** Each of the four numbers is one of 32 bits with a sign. */
  predicate InRange(m: MetaFields) {
    && -2147483648 <= m.page <= 2147483647 && -2147483648 <= m.perPage <= 2147483647
    && -2147483648 <= m.total <= 2147483647 && -2147483648 <= m.pages <= 2147483647
  }

  /** The message of a response, field by field. No status counts as OK, no data or empty data as an empty
      object, an empty metadata dictionary as none. It cannot be sent if a number of its metadata does not
      fit 32 bits. */
  lemma ResponseIsSent(r: ResponseModel)
    ensures
      var m, none := ResponseAsFields(r), r.meta.None? || r.meta.value == Dict(map[]);
      && (m.ValueError? <==> !none && exists n :: Carries(r.meta.value, n) && !InRange(n))
      && (m.Ok? ==>
          && Numbered(r.pkgId, m.value.pkgId) && ParseUuid(m.value.reqId) == Some(r.reqId)
          && Coded(if r.status.Some? then r.status.value else OK, m.value.status)
          && m.value.dataJson == Holding(
               if r.data.None? || r.data.value == List([]) || r.data.value == Object(map[]) then Object(map[])
               else r.data.value)
          && (m.value.meta.None? <==> none) && (!none ==> Carries(r.meta.value, m.value.meta.value)))
  {
    UuidRoundTrip(r.reqId);
    if r.meta.Some? {
      assert Carries(r.meta.value, Numbers(r.meta.value));
      assert forall n :: Carries(r.meta.value, n) ==> n == Numbers(r.meta.value);
    }
  }

  /** Which messages are responses at all, and which response each of them is. */
  lemma ResponseIsRead(m: ResponseFields)
    ensures
      var r := FromProtoResponse(m);
      && (r.Ok? <==>
          && (m.pkgId == 1 || m.pkgId == 2 || m.pkgId == 3 || m.pkgId == 999) && ParseUuid(m.reqId).Some?
          && 0 <= m.status <= 3 && !m.dataJson.Malformed?
          && (m.dataJson.Holding? ==> m.dataJson.value.Null? || m.dataJson.value.Object? || m.dataJson.value.List?)
          && (m.meta.Some? ==> m.meta.value.page >= 1 && m.meta.value.perPage >= 1)
          && (m.meta.Some? ==> m.meta.value.total >= 0 && m.meta.value.pages >= 0))
      && (r.Ok? ==>
          && Numbered(r.value.pkgId, m.pkgId) && ParseUuid(m.reqId) == Some(r.value.reqId)
          && r.value.status.Some? && Coded(r.value.status.value, m.status)
          && (m.dataJson == Blank || m.dataJson == Holding(Null) ==> r.value.data == None)
          && (forall v :: m.dataJson == Holding(v) && v != Null ==> r.value.data == Some(v))
          && (r.value.meta.None? <==> m.meta.None?)
          && (m.meta.Some? ==>
              r.value.meta == Some(Model(m.meta.value.page, m.meta.value.perPage, m.meta.value.total,
                                         m.meta.value.pages, None, false))))
  {
  }
}
