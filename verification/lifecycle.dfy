/**
 Properties of the request lifecycle that relate several handler calls:
 a created request is found again through its id as it travels in a URL
 path, deleting it restores the store, a repeated create is rejected without
 touching the first record, and every operation keeps the store consistent.
 */
module Lifecycle {
  import opened Text
  import opened PercentEncoding
  import opened BookRequest

  /** The payload `{"title": title, "email": email}`. */
  function RequestPayload(title: Bytes, email: Bytes): (p: Payload)
    ensures ConformsToSchema(p) && TitleOf(p) == title && EmailOf(p) == email
  {
    assert TITLE[0] != EMAIL[0];
    JsonObject(map[TITLE := JsonString(title), EMAIL := JsonString(email)])
  }

  /**
   The raw id a handler receives when a client puts a stored id into the
   request path: the framework percent-decodes the path segment first.
   */
  function PathSegment(id: Bytes): Bytes {
    Unquote(id)
  }

  /** Re-encoding the path-decoded form of any generated id gives back that id. */
  lemma EnquotePathSegment(title: Bytes, email: Bytes)
    ensures EnquoteId(PathSegment(GenerateId(title, email))) == GenerateId(title, email)
  {
    CanonicalIffFixpoint(GenerateId(title, email));
  }

  /** The path segment a client sends for a generated id decodes to title and email concatenated. */
  lemma PathSegmentOfId(title: Bytes, email: Bytes)
    ensures PathSegment(GenerateId(title, email)) == title + email
  {
    UnquoteQuote(title + email);
  }

  /**
   A `/` in the title or the email survives into the decoded path segment,
   where the route for a single id segment no longer matches.
   */
  lemma SlashReachesPath(title: Bytes, email: Bytes)
    requires '/' as int in title + email
    ensures '/' as int in PathSegment(GenerateId(title, email))
  {
    PathSegmentOfId(title, email);
  }

  /** `generate_id(t, e)` is `enquote_id(t + e)`. */
  lemma GenerateIdIsEnquoteOfConcat(title: Bytes, email: Bytes)
    ensures GenerateId(title, email) == EnquoteId(title + email)
  {
  }

  /**
   Two (title, email) pairs get the same id exactly when their
   concatenations are equal.
   */
  lemma GenerateIdInjective(t1: Bytes, e1: Bytes, t2: Bytes, e2: Bytes)
    ensures GenerateId(t1, e1) == GenerateId(t2, e2) <==> t1 + e1 == t2 + e2
  {
    QuoteInjective(t1 + e1, t2 + e2);
  }

  /**
   Because title and email are joined without a separator, different pairs
   can share an id: "Dune" with "2bob@x.com" and "Dune2" with "bob@x.com".
   */
  lemma GenerateIdCollision()
    ensures Ascii("Dune") != Ascii("Dune2")
    ensures GenerateId(Ascii("Dune"), Ascii("2bob@x.com")) == GenerateId(Ascii("Dune2"), Ascii("bob@x.com"))
  {
    assert |Ascii("Dune")| != |Ascii("Dune2")|;
    assert Ascii("Dune") + Ascii("2bob@x.com") == Ascii("Dune2") + Ascii("bob@x.com");
    GenerateIdInjective(Ascii("Dune"), Ascii("2bob@x.com"), Ascii("Dune2"), Ascii("bob@x.com"));
  }

  /**
   "Title 1" (bytes 84 105 116 108 101 32 49) is encoded as "Title%201": the
   space becomes `%20`, letters and digits stay.
   */
  lemma ScenarioTitleEncoding()
    ensures Quote([84, 105, 116, 108, 101, 32, 49]) == [84, 105, 116, 108, 101, 37, 50, 48, 49]
  {
  }

  /**
   "a@b.com" (bytes 97 64 98 46 99 111 109) is encoded as "a%40b.com": the
   `@` becomes `%40`, the `.` stays.
   */
  lemma ScenarioEmailEncoding()
    ensures Quote([97, 64, 98, 46, 99, 111, 109]) == [97, 37, 52, 48, 98, 46, 99, 111, 109]
  {
  }

  // ---------------------------------------------------------------------------
  // Create and the other handlers

  /**
   Create's outcome does not depend on the email validator when the title is
   outside the catalog: the catalog error is reported even for a bad email.
   */
  lemma CatalogCheckedBeforeEmail(s: Store, p: Payload, v1: Bytes -> bool, v2: Bytes -> bool, now: Timestamp)
    requires ConformsToSchema(p) && TitleOf(p) !in s.books
    ensures Create(s, p, v1, now) == Create(s, p, v2, now)
    ensures Create(s, p, v1, now).response == Failure(NotInLibrary(TitleOf(p)))
  {
  }

  /**
   A request created successfully is found by a GET on its id as a client
   sends it in a URL path, and the response is the record the create returned.
   */
  lemma CreateThenGet(s: Store, p: Payload, validEmail: Bytes -> bool, now: Timestamp)
    requires Admissible(s, p, validEmail)
    ensures var c := Create(s, p, validEmail, now);
            var rec := c.response.body.record;
            Get(c.store, PathSegment(rec.id)) == Step(Response(200, OneRecord(rec)), c.store)
  {
    EnquotePathSegment(TitleOf(p), EmailOf(p));
  }

  /** Deleting a request right after creating it restores the store. */
  lemma CreateThenDelete(s: Store, p: Payload, validEmail: Bytes -> bool, now: Timestamp)
    requires Admissible(s, p, validEmail)
    ensures var c := Create(s, p, validEmail, now);
            var d := Delete(c.store, PathSegment(c.response.body.record.id));
            d.response == Response(200, EmptyBody) && d.store == s
  {
    var id := GenerateId(TitleOf(p), EmailOf(p));
    EnquotePathSegment(TitleOf(p), EmailOf(p));
    var c := Create(s, p, validEmail, now);
    assert c.store.requests - {id} == s.requests;
  }

  /**
   Creating the same request a second time, at any later time, fails with
   "already recorded" and leaves the first record, timestamp included, in place.
   */
  lemma CreateTwice(s: Store, p: Payload, validEmail: Bytes -> bool, first: Timestamp, second: Timestamp)
    requires Admissible(s, p, validEmail)
    ensures var c1 := Create(s, p, validEmail, first);
            var c2 := Create(c1.store, p, validEmail, second);
            && c2.response == Failure(AlreadyRecorded)
            && c2.store == c1.store
            && c2.store.requests[GenerateId(TitleOf(p), EmailOf(p))].timestamp == first
  {
  }

  /**
   A second pair whose concatenation equals that of a stored request is
   rejected as a duplicate even though the pair itself was never requested.
   */
  lemma SameConcatenationRejected(s: Store, t1: Bytes, e1: Bytes, t2: Bytes, e2: Bytes,
                                  validEmail: Bytes -> bool, first: Timestamp, second: Timestamp)
    requires Admissible(s, RequestPayload(t1, e1), validEmail)
    requires t2 in s.books && validEmail(e2)
    requires t1 + e1 == t2 + e2
    ensures var c1 := Create(s, RequestPayload(t1, e1), validEmail, first);
            Create(c1.store, RequestPayload(t2, e2), validEmail, second).response == Failure(AlreadyRecorded)
  {
    GenerateIdInjective(t1, e1, t2, e2);
  }

  /** After a delete nothing is stored under that raw id any more. */
  lemma DeleteThenGet(s: Store, rawId: Bytes)
    ensures Get(Delete(s, rawId).store, rawId).response == Failure(NotFound(rawId))
  {
  }

  /**
   A request stored under a key in the encoder's canonical form is found, and
   removed, by the raw id the framework hands to the handler for a path
   carrying that key.
   */
  lemma StoredRequestReachable(s: Store, key: Bytes)
    requires Canonical(key) && key in s.requests
    ensures Get(s, PathSegment(key)).response == Response(200, OneRecord(s.requests[key]))
    ensures Delete(s, PathSegment(key)).response == Response(200, EmptyBody)
    ensures Delete(s, PathSegment(key)).store.requests == s.requests - {key}
  {
    CanonicalIffFixpoint(key);
  }

  /**
   GET and DELETE of an id that is not stored both answer 404 with the same
   error, whose message names the raw id, and change nothing.
   */
  lemma NotFoundSymmetry(s: Store, rawId: Bytes)
    requires EnquoteId(rawId) !in s.requests
    ensures Get(s, rawId) == Delete(s, rawId)
    ensures Get(s, rawId).response.status == 404
    ensures Contains(Message(Get(s, rawId).response.body.error), rawId)
  {
    MessageNamesSubject(NotFound(rawId));
  }

  /**
   Every handler answers 200, 400 or 404. Create never answers 404; GET and
   DELETE answer 404 exactly when the re-encoded id is not stored, and
   otherwise 200.
   */
  lemma StatusCodes(s: Store, p: Payload, validEmail: Bytes -> bool, now: Timestamp, rawId: Bytes)
    ensures Create(s, p, validEmail, now).response.status in {200, 400}
    ensures Get(s, rawId).response.status in {200, 404}
    ensures Delete(s, rawId).response.status in {200, 404}
    ensures Get(s, rawId).response.status == 404 <==> EnquoteId(rawId) !in s.requests
    ensures Delete(s, rawId).response.status == 404 <==> EnquoteId(rawId) !in s.requests
  {
  }

  // ---------------------------------------------------------------------------
  // The store invariant

  lemma CreatePreservesConsistent(s: Store, p: Payload, validEmail: Bytes -> bool, now: Timestamp)
    requires Consistent(s)
    ensures Consistent(Create(s, p, validEmail, now).store)
  {
  }

  lemma DeletePreservesConsistent(s: Store, rawId: Bytes)
    requires Consistent(s)
    ensures Consistent(Delete(s, rawId).store)
  {
  }

  // ---------------------------------------------------------------------------
  // Error messages

  lemma RequiredPropertyText()
    ensures Ascii("' is a required property") == Ascii("' is a ") + Ascii("required") + Ascii(" property")
  {
  }

  /** The message of a missing-member error names the member and says "required". */
  lemma MissingPropertyMessage(name: Bytes)
    ensures Contains(Message(SchemaViolation(MissingProperty(name))), name)
    ensures Contains(Message(SchemaViolation(MissingProperty(name))), Ascii("required"))
  {
    var m := Message(SchemaViolation(MissingProperty(name)));
    assert m == Ascii("'") + name + Ascii("' is a required property");
    ContainsMiddle(Ascii("'"), name, Ascii("' is a required property"));
    RequiredPropertyText();
    var pre := Ascii("'") + name + Ascii("' is a ");
    assert m == pre + Ascii("required") + Ascii(" property");
    ContainsMiddle(pre, Ascii("required"), Ascii(" property"));
  }

  /**
   Each catalog, email and not-found message names the rejected title,
   email or id.
   */
  lemma MessageNamesSubject(e: Error)
    ensures e.NotInLibrary? ==> Contains(Message(e), e.title)
    ensures e.InvalidEmail? ==> Contains(Message(e), e.email)
    ensures e.NotFound? ==> Contains(Message(e), e.id)
  {
    match e
    case NotInLibrary(title) =>
      ContainsMiddle(Ascii("Book with title '"), title, Ascii("' not in the library"));
    case InvalidEmail(email) =>
      ContainsMiddle(Ascii("User email '"), email, Ascii("' is invalid"));
    case NotFound(id) =>
      ContainsMiddle(Ascii("Request with id '"), id, Ascii("' does not exists"));
    case _ =>
  }

  /** A create whose email is missing is rejected with a message naming `email` and "required". */
  lemma MissingEmailReported(s: Store, title: Bytes, validEmail: Bytes -> bool, now: Timestamp)
    ensures var r := Create(s, JsonObject(map[TITLE := JsonString(title)]), validEmail, now);
            && r.response.status == 400
            && r.store == s
            && Contains(Message(r.response.body.error), EMAIL)
            && Contains(Message(r.response.body.error), Ascii("required"))
  {
    assert TITLE[0] != EMAIL[0];
    MissingPropertyMessage(EMAIL);
  }
}
