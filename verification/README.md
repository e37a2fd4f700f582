# URL shortener: shortcode lifecycle and click tracking

This project models the core of a small URL-shortening service written for
Express. The service keeps two in-memory maps:

- `urls`: each shortcode maps to a link record holding the original URL, the
  creation instant, the expiry instant and a click counter;
- `clickStats`: each shortcode maps to its list of click events, each with a
  timestamp, a referrer and a location.

Three request handlers read and change these maps:

- **create** (`POST /shorturls`) checks the url, picks the code, checks the
  code against `^[a-zA-Z0-9]+$`, refuses a code that is already taken, and
  only then inserts a record with an empty click list;
- **inspect** (`GET /shorturls/:shortcode`) is a read-only lookup. It answers
  404 for an unknown code, 410 once `now > expiry`, and otherwise 200 with the
  stored details (or 500 when the expiry is the invalid date, see below);
- **redirect** (`GET /:shortcode`) does the same lookup. On a live code it adds
  one to the counter, appends one click event and answers 302.

Each handler body runs to completion without yielding, so each is modelled as
one atomic, pure transition from a store to a response and a new store.

Modules:

- `Optional` (option.dfy): optional request fields.
- `Shortcode` (shortcode.dfy):
  - the shortcode pattern and a scanning implementation of it;
  - the code generator, as URL-safe base64 (section 5 of RFC 4648) of the
    random bytes, cut to as many characters as there are bytes;
  - the bit-level round trip of that encoding;
  - an alphanumeric generator (see Findings).
- `Links` (links.dfy): the records, the store, `Date` values (a time value or
  the invalid date), the strict expiry test and the store invariants. `Consistent` says both maps have the same keys, every
  counter equals the length of its click list, and every key matches the
  pattern. `HistoryUpTo` says click histories are chronological and fall within
  each link's lifetime.
- `Service` (service.dfy): the three handlers and their single-step properties.
- `Lifecycle` (lifecycle.dfy): runs of requests and the properties of whole
  runs, plus one concrete session.

Modelling choices:

- Instants are integer milliseconds. The validity is an integer number of
  minutes; when the request gives none it defaults to 30.
- A link's expiry is a `Date`: `new Date(t)` holds `t` when `|t| <= 8.64·10^15`
  ms (section 21.4.1.1 of ECMA-262) and is the invalid date otherwise
  (`Links.MakeDate`).
- `url`, `shortcode`, `validity` and the referrer that `req.get("referer")`
  returns are optional values. JavaScript falsiness of a string is "absent or
  empty" (`Truthy`).
- The URL validator (`new URL(...)` succeeding) is a parameter
  `isValidUrl: string -> bool`.
- The generated code is a parameter of `Create`. `Shortcode.GenerateShortcode`
  models what the generator produces from its random bytes.
- The location recorded with each click is a parameter of the redirect
  handler. The service always records `"India (simulated)"`
  (`Service.SimulatedLocation`), which is what `Lifecycle.ExampleSession`
  passes.
- The maps are true finite maps.

Behaviour of the code worth knowing, all of it modelled:

- The handler never checks `validity`. Zero or a negative validity stores a
  record whose expiry is at or before its creation instant
  (`CreatedExpiryFollowsValidity`).
- The generator draws from the URL-safe base64 alphabet, which contains `-`
  and `_`, and the create handler checks the generated code against the
  alphanumeric pattern (see Findings).
- Every handler is synchronous, so requests are handled one at a time and the
  model is sequential.
- A validity so large (or so negative) that the expiry falls outside the
  `Date` range gives an invalid-date expiry. The record is stored first, then
  serialising the expiry throws, so create answers 500 with the record kept.
  From then on inspect of that code answers 500, redirect serves it forever
  (a comparison with the invalid date is false), and a repeat create answers
  409 (`InvalidExpiryLingers`, `HugeValidityAnswers500`).
- If a code has a record but no click list, inspect omits `clicks`, and
  redirect throws after bumping the counter, so it answers 500 and the bumped
  counter stays. No consistent store reaches either path:
  `InspectShowsClickList` covers inspect and `RedirectPreservesConsistent`
  covers redirect.

## Model

| member | source | states |
|---|---|---|
| Shortcode.TestPattern | server.js:45 | the scan accepts a code iff it is non-empty and every character is in `[a-zA-Z0-9]`; a rejected code is empty or has a non-alphanumeric character |
| Shortcode.Base64UrlValue | server.js:23 | every URL-safe base64 character decodes to a 6-bit value whose character is that character again |
| Shortcode.GeneratedCodeEncodesRandomBits | server.js:22-24 | a generated code has as many characters as there are random bytes, uses only the URL-safe base64 alphabet, and decodes to exactly the first 6·n random bits |
| Shortcode.GeneratedCodePatternCondition | server.js:23 | a generated code passes the pattern iff it is non-empty and none of its 6-bit groups is 62 (`-`) or 63 (`_`) (`SextetsBelow62`) |
| Shortcode.GeneratedFirstChar | server.js:23 | the first generated character is the top six bits of the first random byte |
| Shortcode.GeneratedCodeMayFailPattern | server.js:23 | random bytes F8 00 00 00 00 give a code starting with `-`, which the pattern rejects |
| Shortcode.AlnumShortcode | server.js:22-24 | corrected generator: the code has one character per byte, and each character is alphanumeric, so any non-empty code passes the pattern |
| Service.Create | server.js:37-68 | the outcome is 400 for a missing or invalid url, then 400 for a chosen code outside the pattern, then 409 for a taken code; otherwise the record is stored, and the answer is 201 when now + validity·60000 lies in the `Date` range and 500 when it does not. Both 400s and the 409 leave the store unchanged. A 201 or that 500 adds exactly the chosen code to both maps: url, createdAt = now, expiry = now + validity·60000 (the invalid date on the 500), zero clicks and an empty list; a 201 returns a link naming the code and that expiry. Existing records are never overwritten |
| Service.Inspect | server.js:71-91 | 404 iff the code is absent; 410 iff present and `now > expiry`; 500 iff present with an invalid-date expiry; otherwise 200 with the stored url, instants, `totalClicks` = stored counter and the stored click list, or no `clicks` when the code has no list |
| Service.Redirect | server.js:94-116 | absent gives 404 and expired gives 410, both with the store unchanged. A live code gets its counter raised by one and exactly one event appended to its list; every other code and all earlier events are untouched; the response is 302 to the original url |
| Service.RecordedReferrer | server.js:111 | the recorded referrer is the value `req.get("referer")` returns when it is present and non-empty, and `"direct"` otherwise |
| Service.ShortLinkNamesCode | server.js:65 | the short link ends in `/` plus the code, the code can be read back from it, and distinct codes give distinct links |
| Service.StatusCodeIdentifiesKind | server.js:37-116 | two responses with the same HTTP status are of the same kind |
| Service.CreatePreservesConsistent | server.js:53-62 | create keeps both maps on the same keys, counters equal to list lengths, and every key matching the pattern |
| Service.RedirectPreservesConsistent | server.js:107-113 | redirect keeps the store invariant, and in a consistent store it never answers 500 |
| Service.InspectShowsClickList | server.js:84-90 | in a consistent store, a 200 from inspect always carries the click list, and `totalClicks` equals its length |
| Service.InspectRedirectAgree | server.js:71-105 | inspect and redirect give the same not-found and gone answers in every store; in a consistent store redirect serves a code iff inspect answers 200 or 500 |
| Service.CreateConflictsWithExpiredCode | server.js:49-51 | a taken code is refused with 409 and an unchanged store even when its record has expired (inspect says gone) |
| Service.CreateThenInspect | server.js:53-90 | right after a create, inspect of the new code gives the url, the creation instant, expiry = now + validity minutes, zero clicks and an empty list up to the expiry, and gone after it |
| Service.RedirectThenInspect | server.js:84-113 | after a live redirect, inspect shows one more click and the old history followed by the new event; the url and expiry are unchanged. With an invalid-date expiry, redirect serves the code and inspect answers 500 before and after |
| Service.CreatedExpiryFollowsValidity | server.js:38-54 | a created record expires after its creation iff the validity is positive |
| Service.InvalidExpiryLingers | server.js:53-116 | after a create answers 500 for an out-of-range expiry, the code is stored: inspect answers 500 at every instant, redirect serves it at every instant, and a repeat create gets 409 |
| Service.HugeValidityAnswers500 | server.js:53-66 | a validity of 200 000 000 000 minutes from a clock at or after the epoch gives 500, with the record stored |
| Lifecycle.RunPreservesConsistent | server.js:37-116 | any run of requests from a consistent store ends in a consistent store |
| Lifecycle.RunKeepsRecords | server.js:49-62 | across any run, no record is removed, no url, creation instant or expiry changes, and no counter goes down |
| Lifecycle.RunExtendsHistories | server.js:107-113 | across any run from a consistent store, each code's old click history is a prefix of its new one |
| Lifecycle.GoneIsFinal | server.js:79-105 | once a code answers gone, both inspect and redirect answer gone for it at every later instant, after any requests, and that redirect records nothing |
| Lifecycle.ClickAccounting | server.js:107-113 | N live redirects to a code raise its counter by exactly N and append exactly those N events, in call order, with the referrer rule applied |
| Lifecycle.RedirectsLeaveOtherCodes | server.js:107-113 | live redirects to one code add no key and change no other code's record or history |
| Lifecycle.CreateThenRedirects | server.js:53-113 | from a fresh create, N live redirects leave `clicks` = N and a history of exactly those N events |
| Lifecycle.RunKeepsHistory | server.js:102-113 | with a clock that never goes back, every history stays in chronological order, with no click before its link's creation or after its expiry |
| Lifecycle.GeneratedCodeRejectedOnCreate | server.js:22-47 | as written, a create with a valid url and no shortcode gets 400 with the store unchanged whenever the first of the five random bytes is F8 or more, for example F8 00 00 00 00 |
| Lifecycle.AlnumGeneratedCodeAccepted | server.js:44-51 | with the corrected generator, such a create is never refused for its code: 409 iff the code is taken, and 201 iff it is free and the expiry lies in the `Date` range |
| Lifecycle.ExampleSession | server.js:37-116 | the session: create `abc123` for one minute, a repeat create gets 409, inspect shows 0 clicks, a redirect records one `direct` click at `"India (simulated)"`, and after 61 s the redirect gets 410 |

## Left out

- Express routing, JSON body parsing, `res.redirect` and `app.listen`: transport
  plumbing. A response is a datatype with an HTTP status.
- Error message texts in the JSON bodies: the two different 400 cases are
  kept apart by `BadRequestReason` instead.
- The request-logging middleware pushing to `global.customLogs`: it has no
  domain logic.
- `crypto.randomBytes`: randomness is a parameter (the random bytes, or the
  generated code itself).
- WHATWG URL parsing: a foreign library, kept as the parameter `isValidUrl`.
- `Date` objects and ISO-8601 serialisation: instants are integer
  milliseconds.
- Validity values that are not integers (floating point, or strings coerced
  by `*`), and integers too large for a double to hold exactly: the model
  computes the expiry in exact integer arithmetic. For integer validities a
  double holds exactly, the product and the sum are exact wherever the `Date`
  range is decided, so the 201/500 split is the source's.
- The clock: `now` is a parameter, and a real clock reads within the `Date`
  range, so `createdAt` is kept as an integer.
- JSON values of other types for `url`, `shortcode` or `validity` (numbers,
  `null`, objects), and JavaScript plain-object quirks such as inherited keys
  like `constructor`: the maps are true finite maps and the fields are strings
  or integers.
- Concurrency: every handler is synchronous, so requests are handled one at a
  time.
- Geolocation: the hard-coded location string is a parameter.

## Findings

| source | as written | input that shows it | evidently intended | confidence | as-written member | corrected member |
|---|---|---|---|---|---|---|
| server.js:23 | the generator draws its code from the URL-safe base64 alphabet, which includes `-` and `_`, and the create handler then checks that code against `^[a-zA-Z0-9]+$` | a create request with a valid url and no shortcode, with random bytes F8 00 00 00 00: the code is `-AAAA` and the answer is 400 "Shortcode must be alphanumeric" for a code the client never sent (any first byte from F8 to FF does the same) | generated codes use only `[A-Za-z0-9]`, so a request without a shortcode is only refused for a collision | high; not executed | Lifecycle.GeneratedCodeRejectedOnCreate | Lifecycle.AlnumGeneratedCodeAccepted |

`Create` takes the generated code as a parameter, so its contract and every
property about it hold whichever generator supplies the code.
`Shortcode.AlnumShortcode` is the generator the model proposes in place of the
written one.
