# Book requests: request ids and the request store

A Dafny model of the core of a small HTTP service through which clients
request titles from a fixed book catalog. The service keeps two collections
in a key-value store: the `books` set (the catalog) and the `requests` hash
(request id to request record). It offers four handlers: list all requests,
get one by id, create one, delete one by id.

The model has two parts.

* **Request ids** (`percent_encoding.dfy`, `book_request.dfy`). A request id
  is the percent-encoding (section 2.1 of RFC 3986) of the title followed by
  the email. Only the unreserved characters of section 2.3 of RFC 3986
  (letters, digits, `-`, `.`, `_`, `~`) pass through. Every other byte,
  `/` included, becomes `%` and two uppercase hex digits. The get and delete
  handlers receive the id after the web framework has percent-decoded the
  URL path, and re-encode it before the lookup. The model proves that this
  decode-then-encode trip gives back every stored key. A key whose title or
  email contains `/` decodes to a path with an extra `/`, which the route for
  a single id does not match; such a request is never reached (see
  `Lifecycle.SlashReachesPath`). It also proves that
  the encoder is injective, and that its outputs are exactly the fixpoints
  of decode-then-encode.
* **Request store** (`book_request.dfy`, `lifecycle.dfy`). The store is an
  immutable `map` and `set`. Each handler is a pure transition that returns
  a response (HTTP status and body) and the new store. Create runs its
  checks in a fixed order, and the first failure decides the error: schema,
  then catalog, then email, then duplicate. The lemmas relate the handlers
  to each other:
  - a created request is found again by GET on its id, when neither its
    title nor its email contains `/`;
  - deleting it restores the store;
  - a repeated create is rejected and does not touch the first record;
  - every handler keeps the store consistent (each record is filed under
    its own generated id).

All text is handled as bytes (`Text.Bytes`). A title or email stands for
the UTF-8 form of the string the client sent. Ids and store keys are the
bytes the key-value store holds.

The email validator is a parameter `validEmail: Bytes -> bool`. It is
assumed to be a fixed function of the address: it answers the same for the
same address every time. The real validator can consult DNS, so its answer
may change between two calls; lemmas that relate two creates (such as
`Lifecycle.CreateTwice`) presume it does not. The creation time is a parameter `now`.

Title and email are concatenated without a separator, so two different
(title, email) pairs can share one id. For example, "Dune" with
"2bob@x.com" and "Dune2" with "bob@x.com" get the same id. The second of
them is then refused as "already recorded". The model states this as
`Lifecycle.GenerateIdCollision` and `Lifecycle.SameConcatenationRejected`.

## Model

| member | source | states |
|---|---|---|
| PercentEncoding.Quote | app/book_request.py:30-35 | the encoding of n bytes is n to 3n bytes long and always in canonical form: unreserved bytes, and `%HH` triples with uppercase hex that stand for reserved bytes |
| PercentEncoding.QuoteFromBytes | app/book_request.py:31 | the library routine (fast path when every byte is safe, else a byte-by-byte escape loop) computes exactly the encoding |
| PercentEncoding.Unquote | app/book_request.py:47 | path decoding never makes a byte string longer |
| PercentEncoding.QuoteConcat | app/book_request.py:31 | encoding distributes over concatenation |
| PercentEncoding.UnquoteQuote | app/book_request.py:47 | round trip: decoding an encoded byte string gives back the original bytes |
| PercentEncoding.QuoteInjective | app/book_request.py:30-31 | two byte strings have the same encoding if and only if they are equal |
| PercentEncoding.CanonicalIffFixpoint | app/book_request.py:91 | decode-then-encode gives a string back unchanged if and only if the string is in canonical form |
| PercentEncoding.QuoteUnquoteQuote | app/book_request.py:47 | re-encoding the decoding of an encoded id reproduces the id |
| PercentEncoding.CanonicalAlphabet | app/book_request.py:31 | every byte of a canonical string is unreserved, `%` or an uppercase hex digit; no `/`, space or `+` occurs |
| PercentEncoding.QuoteAlphabet | app/book_request.py:35 | the same alphabet bound for every output of the encoder |
| PercentEncoding.QuoteIdentityIffUnreserved | app/book_request.py:31 | the encoder leaves a string unchanged if and only if every byte is unreserved |
| BookRequest.GenerateId | app/book_request.py:30-31 | the id is the encoded title followed by the encoded email, and is canonical |
| BookRequest.EnquoteId | app/book_request.py:34-35 | the lookup key is canonical and decodes back to the raw id |
| BookRequest.CheckSchema | app/book_request.py:12-23 | the payload passes if and only if it is an object with string members `title` and `email`; a reported issue is a real violation (non-object, a missing required member, or a member of the wrong type) |
| BookRequest.List | app/book_request.py:38-42 | one record per stored key, each key once, in the order the store enumerates them, status 200 |
| BookRequest.Get | app/book_request.py:45-51 | the store is unchanged; the record stored under the re-encoded id is returned with 200, otherwise 404 with an error naming the raw id |
| BookRequest.Create | app/book_request.py:54-86 | success if and only if all four checks pass; otherwise 400 and the store is unchanged; the first failing check decides the error; on success exactly one new key (the generated id) holding the given title, email, id and time, every other key untouched, and the returned record equals the stored one; `books` never changes |
| BookRequest.Delete | app/book_request.py:89-95 | a present key is removed and nothing else (200, empty body); an absent one gives 404 naming the raw id, store unchanged |
| Lifecycle.EnquotePathSegment | app/book_request.py:47 | re-encoding the path-decoded form of a generated id gives that id back |
| Lifecycle.GenerateIdIsEnquoteOfConcat | app/book_request.py:30-35 | `generate_id(t, e)` equals `enquote_id(t + e)` |
| Lifecycle.GenerateIdInjective | app/book_request.py:74-75 | two (title, email) pairs share an id if and only if their concatenations are equal |
| Lifecycle.GenerateIdCollision | app/book_request.py:31 | two different titles, each with its own email, can produce one id |
| Lifecycle.ScenarioTitleEncoding | app/book_request.py:31 | "Title 1" is encoded as "Title%201" |
| Lifecycle.ScenarioEmailEncoding | app/book_request.py:31 | "a@b.com" is encoded as "a%40b.com" |
| Lifecycle.CatalogCheckedBeforeEmail | app/book_request.py:66-72 | for a title outside the catalog, the email validator is never consulted and the catalog error is reported |
| Lifecycle.CreateThenGet | app/book_request.py:74-86 | after a successful create, a GET handler call with the id as decoded from a URL path returns the created record (the route reaches the handler only when neither title nor email contains `/`) |
| Lifecycle.CreateThenDelete | app/book_request.py:84 | DELETE right after a successful create answers 200 and restores the store |
| Lifecycle.CreateTwice | app/tests/test_app.py:143-158 | a second create of the same pair fails with "already recorded"; the store, and so the first timestamp, is unchanged |
| Lifecycle.SameConcatenationRejected | app/book_request.py:74-76 | a different pair with the same concatenation is rejected as a duplicate |
| Lifecycle.DeleteThenGet | app/book_request.py:91 | after DELETE of a raw id, GET of that id answers 404 |
| Lifecycle.StoredRequestReachable | app/tests/test_app.py:56-64 | every record stored under a canonical key is found and removed by the handlers through the path-decoded form of its key (the route reaches the handler only when that form contains no `/`) |
| Lifecycle.PathSegmentOfId | app/book_request.py:45-47 | the path-decoded form of a generated id is the title followed by the email |
| Lifecycle.SlashReachesPath | app/book_request.py:45 | a `/` in the title or email reappears in the decoded path segment, so the single-segment route `/<id>` cannot match it |
| Lifecycle.StatusCodes | app/book_request.py:45-95 | every handler answers 200, 400 or 404; create never answers 404; GET and DELETE answer 404 exactly when the re-encoded id is not stored |
| Lifecycle.NotFoundSymmetry | app/tests/test_app.py:67-75 | for an id that is not stored, GET and DELETE give the same 404, whose message names the raw id |
| Lifecycle.CreatePreservesConsistent | app/book_request.py:78-84 | create keeps every record filed under its generated id, with a title from the catalog |
| Lifecycle.DeletePreservesConsistent | app/book_request.py:91 | delete keeps the store consistent |
| Lifecycle.MissingPropertyMessage | app/book_request.py:58-61 | the error for a missing member names the member and contains "required" |
| Lifecycle.MessageNamesSubject | app/book_request.py:51-95 | the catalog, email and not-found messages contain the title, the email and the raw id |
| Lifecycle.MissingEmailReported | app/tests/test_app.py:95-108 | a payload without `email` gives 400, leaves the store unchanged, and the message names `email` and contains "required" |

## Left out

- Flask routing, `jsonify`, and the wiring in `app/main.py`. Responses are a status code and a body datatype. The framework's path decoding is modelled by `Unquote`, with the semantics of Python's `unquote_to_bytes`. The route's default converter does not match a decoded segment that contains `/`. Such a request never reaches the handler, and routing is not modelled.
- The Redis client. It is replaced by an immutable `map` (the `requests` hash) and a `set` (`books`). The store is an external collaborator.
- `pickle`. Records are stored as they are, on the assumption that serialisation reads back exactly what was written.
- Reading the request body (app/book_request.py:56). A malformed JSON body is rejected by the framework when line 56 reads it. What a non-JSON content type does depends on the Flask version: an error, or `None`, which then fails the schema check as `JsonNonObject` does. The model starts from the decoded JSON value.
- BookRequest.CheckSchema: when several schema violations occur together, the validator library picks which one to report. The model uses a fixed order instead: non-object, then missing `title`, then missing `email`, then `title` not a string, then `email` not a string. Only "some real violation is reported" is promised.
- BookRequest.Message: for a wrong-type member or a non-object payload, the validator's text quotes the offending JSON value, which the model does not carry. Those two messages are stand-ins. The missing-member message follows the validator's wording.
- `email_validator.validate_email`. It is a foreign library, so it is the uninterpreted parameter `validEmail`. That parameter is a fixed function of the address. The real validator's deliverability check consults DNS, and a DNS answer that changes between two requests is not modelled.
- `datetime.utcnow()`. The clock is the parameter `now`.
- The race between the existence check and the write under concurrent creates. The model is sequential.
- Unicode to UTF-8 conversion. Text is modelled as bytes, which stand for the UTF-8 form. The framework decodes the path segment to text and replaces invalid UTF-8 with U+FFFD, so `GET /request/%FF` looks up `%EF%BF%BD`. `Unquote` keeps byte 0xFF instead, and the model looks up `%FF`. This only matters for paths that do not decode to valid UTF-8, which no generated id does.
- The catalog seeding (`SET_ADD`). It happens outside the request path.
- Lifecycle.CreateThenGet: proved at the handler. When the title or email contains `/` (a catalog title may; the email validator accepts one in the local part), the decoded path has an extra segment, the route does not match, and the framework answers its own 404; the record can then never be fetched or deleted. `Lifecycle.SlashReachesPath` states that case.
- Lifecycle.StoredRequestReachable: proved at the handler. The same routing gap applies to a key whose decoded form contains `/`.
