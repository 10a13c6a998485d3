/**
 The book-request service: request ids, the `requests` hash and the `books`
 set of the key-value store, and the four HTTP handlers (list, get, create,
 delete) as pure transitions from a store to a response and a new store.

 The store's `requests` hash maps an id to the stored record (the record is
 kept as it is, standing for a serialisation that reads back exactly what was
 written); `books` is the catalog of titles that may be requested.
 */
module BookRequest {
  import opened Text
  import opened PercentEncoding

  /** Creation time, read from the clock by the caller (UTC). */
  type Timestamp = nat

  /** One book request as stored and as returned to clients. */
  datatype Record = Record(title: Bytes, email: Bytes, id: Bytes, timestamp: Timestamp)

  /** The two collections the service keeps in the key-value store. */
  datatype Store = Store(books: set<Bytes>, requests: map<Bytes, Record>)

  /** A JSON member value: a string, or anything else (number, null, array, object, ...). */
  datatype JsonValue = JsonString(text: Bytes) | JsonOther

  /** The decoded JSON body of a create request. */
  datatype Payload = JsonObject(members: map<Bytes, JsonValue>) | JsonNonObject

  const TITLE: Bytes := Ascii("title")
  const EMAIL: Bytes := Ascii("email")

  /** What the request schema (an object with required string members `title` and `email`) can reject. */
  datatype SchemaIssue = NotAnObject | MissingProperty(name: Bytes) | NotAString(name: Bytes)

  datatype SchemaVerdict = Conforms | Violates(issue: SchemaIssue)

  datatype Error =
    | SchemaViolation(issue: SchemaIssue)
    | NotInLibrary(title: Bytes)
    | InvalidEmail(email: Bytes)
    | AlreadyRecorded
    | NotFound(id: Bytes)

  datatype Body =
    | RecordList(records: seq<Record>)
    | OneRecord(record: Record)
    | EmptyBody
    | ErrorBody(error: Error)

  datatype Response = Response(status: int, body: Body)

  /** What a handler produces: its response and the store after it. */
  datatype Step = Step(response: Response, store: Store)

  // ---------------------------------------------------------------------------
  // Request ids

  /** `generate_id`: the percent-encoding of title and email concatenated. */
  function GenerateId(title: Bytes, email: Bytes): (id: Bytes)
    ensures id == Quote(title) + Quote(email)
    ensures Canonical(id)
  {
    QuoteConcat(title, email);
    Quote(title + email)
  }

  /** `enquote_id`: the key under which a raw (path-decoded) id is looked up. */
  function EnquoteId(rawId: Bytes): (key: Bytes)
    ensures Canonical(key)
    ensures Unquote(key) == rawId
  {
    UnquoteQuote(rawId);
    Quote(rawId)
  }

  // ---------------------------------------------------------------------------
  // Request schema

  /** True iff the payload is an object whose member `name` is present and is a string. */
  predicate HasString(p: Payload, name: Bytes) {
    p.JsonObject? && name in p.members && p.members[name].JsonString?
  }

  /** The request schema, stated declaratively. */
  predicate ConformsToSchema(p: Payload) {
    HasString(p, TITLE) && HasString(p, EMAIL)
  }

  function TitleOf(p: Payload): Bytes
    requires ConformsToSchema(p)
  {
    p.members[TITLE].text
  }

  function EmailOf(p: Payload): Bytes
    requires ConformsToSchema(p)
  {
    p.members[EMAIL].text
  }

  /**
   Schema validation. When several violations are present one is reported:
   a non-object first, then a missing required member, then a member of the
   wrong type, `title` before `email`.
   */
  function CheckSchema(p: Payload): (v: SchemaVerdict)
    ensures v.Conforms? <==> ConformsToSchema(p)
    ensures v == Violates(NotAnObject) <==> !p.JsonObject?
    ensures v.Violates? && v.issue.MissingProperty? ==>
              && p.JsonObject?
              && (v.issue.name == TITLE || v.issue.name == EMAIL)
              && v.issue.name !in p.members
    ensures v.Violates? && v.issue.NotAString? ==>
              && p.JsonObject?
              && TITLE in p.members && EMAIL in p.members
              && (v.issue.name == TITLE || v.issue.name == EMAIL)
              && !p.members[v.issue.name].JsonString?
  {
    match p
    case JsonNonObject => Violates(NotAnObject)
    case JsonObject(members) =>
      if TITLE !in members then Violates(MissingProperty(TITLE))
      else if EMAIL !in members then Violates(MissingProperty(EMAIL))
      else if !members[TITLE].JsonString? then Violates(NotAString(TITLE))
      else if !members[EMAIL].JsonString? then Violates(NotAString(EMAIL))
      else Conforms
  }

  // ---------------------------------------------------------------------------
  // Responses

  /** HTTP status of an error: 404 for a missing request, 400 for a rejected payload. */
  function StatusOf(e: Error): (code: int)
    ensures code == 404 <==> e.NotFound?
    ensures code == 400 <==> !e.NotFound?
  {
    if e.NotFound? then 404 else 400
  }

  function Failure(e: Error): Response {
    Response(StatusOf(e), ErrorBody(e))
  }

  /**
   The text of the `error` member of an error response. For a schema
   violation the wording is that of the schema validator for a missing
   member; the other two schema cases stand in for the validator's text,
   which quotes the offending JSON value.
   */
  function Message(e: Error): Bytes {
    match e
    case SchemaViolation(MissingProperty(name)) => Ascii("'") + name + Ascii("' is a required property")
    case SchemaViolation(NotAString(name)) => Ascii("'") + name + Ascii("' is not of type 'string'")
    case SchemaViolation(NotAnObject) => Ascii("payload is not of type 'object'")
    case NotInLibrary(title) => Ascii("Book with title '") + title + Ascii("' not in the library")
    case InvalidEmail(email) => Ascii("User email '") + email + Ascii("' is invalid")
    case AlreadyRecorded => Ascii("This request is already recorded")
    case NotFound(id) => Ascii("Request with id '") + id + Ascii("' does not exists")
  }

  // ---------------------------------------------------------------------------
  // Handlers

  /**
   `get_requests`: every stored record, once each, in the order in which the
   store enumerates its keys (returned as `order`; the store promises none).
   */
  method List(s: Store) returns (response: Response, order: seq<Bytes>)
    ensures forall i, j :: 0 <= i < j < |order| ==> order[i] != order[j]
    ensures forall k :: k in order <==> k in s.requests
    ensures |order| == |s.requests|
    ensures response.status == 200 && response.body.RecordList?
    ensures |response.body.records| == |order|
    ensures forall i :: 0 <= i < |order| ==> response.body.records[i] == s.requests[order[i]]
  {
    var remaining := s.requests.Keys;
    var records: seq<Record> := [];
    order := [];
    while remaining != {}
      invariant remaining <= s.requests.Keys
      invariant forall i, j :: 0 <= i < j < |order| ==> order[i] != order[j]
      invariant forall k :: k in order <==> k in s.requests && k !in remaining
      invariant |order| + |remaining| == |s.requests|
      invariant |records| == |order|
      invariant forall i :: 0 <= i < |order| ==> records[i] == s.requests[order[i]]
      decreases remaining
    {
      var k :| k in remaining;
      order := order + [k];
      records := records + [s.requests[k]];
      remaining := remaining - {k};
    }
    response := Response(200, RecordList(records));
  }

  /** `get_request`: look the re-encoded id up; the store is never changed. */
  function Get(s: Store, rawId: Bytes): (r: Step)
    ensures r.store == s
    ensures EnquoteId(rawId) in s.requests ==>
              r.response == Response(200, OneRecord(s.requests[EnquoteId(rawId)]))
    ensures EnquoteId(rawId) !in s.requests ==> r.response == Failure(NotFound(rawId))
  {
    var key := EnquoteId(rawId);
    if key in s.requests then Step(Response(200, OneRecord(s.requests[key])), s)
    else Step(Failure(NotFound(rawId)), s)
  }

  /** True iff a create with this payload passes all four checks. */
  predicate Admissible(s: Store, p: Payload, validEmail: Bytes -> bool) {
    && ConformsToSchema(p)
    && TitleOf(p) in s.books
    && validEmail(EmailOf(p))
    && GenerateId(TitleOf(p), EmailOf(p)) !in s.requests
  }

  /**
   `add_request`: schema, then catalog, then email, then duplicate; the first
   failing check decides the error. `validEmail` is the email validator and
   `now` the creation time.
   */
  function Create(s: Store, p: Payload, validEmail: Bytes -> bool, now: Timestamp): (r: Step)
    ensures r.store.books == s.books
    ensures r.response.status == 200 <==> Admissible(s, p, validEmail)
    ensures r.response.status != 200 ==> r.store == s && r.response.status == 400
    ensures !ConformsToSchema(p) ==>
              r.response == Failure(SchemaViolation(CheckSchema(p).issue))
    ensures ConformsToSchema(p) && TitleOf(p) !in s.books ==>
              r.response == Failure(NotInLibrary(TitleOf(p)))
    ensures ConformsToSchema(p) && TitleOf(p) in s.books && !validEmail(EmailOf(p)) ==>
              r.response == Failure(InvalidEmail(EmailOf(p)))
    ensures ConformsToSchema(p) && TitleOf(p) in s.books && validEmail(EmailOf(p))
            && GenerateId(TitleOf(p), EmailOf(p)) in s.requests ==>
              r.response == Failure(AlreadyRecorded)
    ensures Admissible(s, p, validEmail) ==>
              var id := GenerateId(TitleOf(p), EmailOf(p));
              var rec := Record(TitleOf(p), EmailOf(p), id, now);
              && r.response == Response(200, OneRecord(rec))
              && id in r.store.requests && r.store.requests[id] == rec
              && r.store.requests.Keys == s.requests.Keys + {id}
              && |r.store.requests| == |s.requests| + 1
              && forall k :: k in s.requests ==> k in r.store.requests && r.store.requests[k] == s.requests[k]
  {
    match CheckSchema(p)
    case Violates(issue) => Step(Failure(SchemaViolation(issue)), s)
    case Conforms =>
      var email := p.members[EMAIL].text;
      var title := p.members[TITLE].text;
      if title !in s.books then Step(Failure(NotInLibrary(title)), s)
      else if !validEmail(email) then Step(Failure(InvalidEmail(email)), s)
      else
        var id := GenerateId(title, email);
        if id in s.requests then Step(Failure(AlreadyRecorded), s)
        else
          var rec := Record(title, email, id, now);
          Step(Response(200, OneRecord(rec)), s.(requests := s.requests[id := rec]))
  }

  /** `delete_request`: remove the re-encoded id if it is stored. */
  function Delete(s: Store, rawId: Bytes): (r: Step)
    ensures r.store.books == s.books
    ensures EnquoteId(rawId) in s.requests ==>
              && r.response == Response(200, EmptyBody)
              && r.store.requests == s.requests - {EnquoteId(rawId)}
              && |r.store.requests| == |s.requests| - 1
    ensures EnquoteId(rawId) !in s.requests ==>
              r.response == Failure(NotFound(rawId)) && r.store == s
  {
    var key := EnquoteId(rawId);
    if key in s.requests then Step(Response(200, EmptyBody), s.(requests := s.requests - {key}))
    else Step(Failure(NotFound(rawId)), s)
  }

  // ---------------------------------------------------------------------------
  // Store invariant

  /**
   Every stored record is filed under its own id, that id is the one
   generated from its title and email, and its title is in the catalog.
   */
  ghost predicate Consistent(s: Store) {
    forall k :: k in s.requests ==>
      && s.requests[k].id == k
      && k == GenerateId(s.requests[k].title, s.requests[k].email)
      && s.requests[k].title in s.books
  }
}
