/**
 The three request handlers as atomic transitions of the store: create
 (`POST /shorturls`), inspect (`GET /shorturls/:shortcode`) and redirect
 (`GET /:shortcode`). Each handler body runs to completion without yielding,
 so each is one step from a store to a response and a new store.
 */
module Service {
  import opened Optional
  import opened Shortcode
  import opened Links

  /** Every short link is addressed under this prefix (the service listens on port 3000). */
  const LinkPrefix: string := "http://localhost:3000/"

  /** Referrer recorded when the request names none. */
  const DirectReferrer: string := "direct"

  /** The location string the service records for every click. */
  const SimulatedLocation: string := "India (simulated)"

  /** JavaScript truthiness of an optional string: absent and `""` are falsy. */
  predicate Truthy(v: Option<string>) {
    v.Some? && v.value != ""
  }

  /** Body of `POST /shorturls`. Absent fields are `None`. */
  datatype CreateRequest = CreateRequest(url: Option<string>, validity: Option<int>, shortcode: Option<string>)

  datatype BadRequestReason = InvalidUrl | NonAlphanumericCode

  /** Body of a successful inspect response; `clicks` is absent when the code
      has no click list. */
  datatype Details = Details(
    originalUrl: string,
    createdAt: int,
    expiry: int,
    totalClicks: nat,
    clicks: Option<seq<ClickEvent>>)

  datatype Response =
    | Created(shortLink: string, expiry: int)
    | BadRequest(reason: BadRequestReason)
    | Conflict
    | NotFound
    | Gone
    | Ok(details: Details)
    | Found(target: string)
    | InternalError

  /** A response together with the store after the handler ran. */
  datatype Step = Step(response: Response, next: Store)

  function StatusCode(r: Response): int {
    match r
    case Created(_, _) => 201
    case BadRequest(_) => 400
    case Conflict => 409
    case NotFound => 404
    case Gone => 410
    case Ok(_) => 200
    case Found(_) => 302
    case InternalError => 500
  }

  /** Each kind of response has its own HTTP status, so the status alone tells
      a client which outcome it got. */
  lemma StatusCodeIdentifiesKind(a: Response, b: Response)
    requires StatusCode(a) == StatusCode(b)
    ensures a.Created? == b.Created? && a.BadRequest? == b.BadRequest? && a.Conflict? == b.Conflict?
    ensures a.NotFound? == b.NotFound? && a.Gone? == b.Gone? && a.Ok? == b.Ok?
    ensures a.Found? == b.Found? && a.InternalError? == b.InternalError?
  {
  }

  function ShortLink(code: string): string {
    LinkPrefix + code
  }

  /** A short link ends in `/` followed by its code, and the code can be read
      back from the link, so distinct codes give distinct links. */
  lemma ShortLinkNamesCode(code: string, other: string)
    ensures ShortLink(code)[|LinkPrefix| - 1..] == "/" + code
    ensures ShortLink(code)[|LinkPrefix|..] == code
    ensures ShortLink(code) == ShortLink(other) ==> code == other
  {
    assert ShortLink(code)[|LinkPrefix|..] == code;
    assert ShortLink(other)[|LinkPrefix|..] == other;
    assert ShortLink(code)[|LinkPrefix| - 1..] == "/" + code;
  }

  /** The url is present, non-empty and accepted by the URL validator. */
  predicate UrlAccepted(req: CreateRequest, isValidUrl: string -> bool) {
    Truthy(req.url) && isValidUrl(req.url.value)
  }

  /** The code a create request is about: the supplied one when truthy, else the generated one. */
  function ChosenCode(req: CreateRequest, generated: string): string {
    if Truthy(req.shortcode) then req.shortcode.value else generated
  }

  function ValidityMinutes(req: CreateRequest): int {
    if req.validity.Some? then req.validity.value else DefaultValidityMinutes
  }

  /** The time value the create handler passes to `new Date(...)` for the expiry. */
  function RequestedExpiry(req: CreateRequest, now: int): int {
    now + ValidityMinutes(req) * MillisPerMinute
  }

  /** `POST /shorturls`. `generated` is the code the generator would supply,
      `isValidUrl` the URL parser's verdict and `now` the clock. The record is
      stored before the response is built; when the expiry is the invalid date,
      building the response throws, so the answer is 500 with the record kept. */
  function Create(s: Store, req: CreateRequest, generated: string, isValidUrl: string -> bool, now: int): (r: Step)
    ensures r.response == BadRequest(InvalidUrl) <==> !UrlAccepted(req, isValidUrl)
    ensures r.response == BadRequest(NonAlphanumericCode)
        <==> UrlAccepted(req, isValidUrl) && !MatchesPattern(ChosenCode(req, generated))
    ensures r.response == Conflict
        <==> UrlAccepted(req, isValidUrl) && MatchesPattern(ChosenCode(req, generated))
             && ChosenCode(req, generated) in s.urls
    ensures r.response.InternalError?
        <==> UrlAccepted(req, isValidUrl) && MatchesPattern(ChosenCode(req, generated))
             && ChosenCode(req, generated) !in s.urls && !InDateRange(RequestedExpiry(req, now))
    ensures r.response.Created? || r.response.BadRequest? || r.response.Conflict? || r.response.InternalError?
    ensures r.response.BadRequest? || r.response.Conflict? ==> r.next == s
    ensures r.response.Created? ==>
      && r.response.shortLink == ShortLink(ChosenCode(req, generated))
      && r.response.expiry == RequestedExpiry(req, now)
    ensures r.response.Created? || r.response.InternalError? ==>
      var code := ChosenCode(req, generated);
      && code !in s.urls
      && r.next.urls.Keys == s.urls.Keys + {code}
      && r.next.clickStats.Keys == s.clickStats.Keys + {code}
      && r.next.urls[code].originalUrl == req.url.value
      && r.next.urls[code].createdAt == now
      && r.next.urls[code].expiry
         == (if r.response.Created? then Time(RequestedExpiry(req, now)) else InvalidDate)
      && r.next.urls[code].clicks == 0
      && r.next.clickStats[code] == []
      && (forall k :: k in s.clickStats && k != code ==> r.next.clickStats[k] == s.clickStats[k])
    ensures forall k :: k in s.urls ==> k in r.next.urls && r.next.urls[k] == s.urls[k]
  {
    if !UrlAccepted(req, isValidUrl) then
      Step(BadRequest(InvalidUrl), s)
    else
      var code := ChosenCode(req, generated);
      if !MatchesPattern(code) then
        Step(BadRequest(NonAlphanumericCode), s)
      else if code in s.urls then
        Step(Conflict, s)
      else
        var expiry := MakeDate(RequestedExpiry(req, now));
        var next := Store(s.urls[code := LinkRecord(req.url.value, now, expiry, 0)], s.clickStats[code := []]);
        match expiry
        case Time(ms) => Step(Created(ShortLink(code), ms), next)
        case InvalidDate => Step(InternalError, next)
  }

  /** `GET /shorturls/:shortcode`: a read-only lookup, so it returns only a
      response. Serialising an invalid-date expiry throws: a 500. */
  function Inspect(s: Store, code: string, now: int): (r: Response)
    ensures r.NotFound? <==> code !in s.urls
    ensures r.Gone? <==> code in s.urls && IsExpired(s.urls[code].expiry, now)
    ensures r.InternalError? <==> code in s.urls && s.urls[code].expiry == InvalidDate
    ensures r.Ok? <==> code in s.urls && s.urls[code].expiry.Time? && !IsExpired(s.urls[code].expiry, now)
    ensures r.NotFound? || r.Gone? || r.InternalError? || r.Ok?
    ensures r.Ok? ==>
      && r.details.originalUrl == s.urls[code].originalUrl
      && r.details.createdAt == s.urls[code].createdAt
      && s.urls[code].expiry == Time(r.details.expiry)
      && r.details.totalClicks == s.urls[code].clicks
      && (code in s.clickStats ==> r.details.clicks == Some(s.clickStats[code]))
      && (code !in s.clickStats ==> r.details.clicks == None)
  {
    if code !in s.urls then
      NotFound
    else
      var rec := s.urls[code];
      if IsExpired(rec.expiry, now) then
        Gone
      else if rec.expiry.InvalidDate? then
        InternalError
      else
        var clicks := if code in s.clickStats then Some(s.clickStats[code]) else None;
        Ok(Details(rec.originalUrl, rec.createdAt, rec.expiry.ms, rec.clicks, clicks))
  }

  /** The referrer a click records: the value `req.get("referer")` returns
      (the `Referer` header, or a `Referrer` header when that is sent instead)
      when truthy, else `"direct"`. */
  function RecordedReferrer(referer: Option<string>): (r: string)
    ensures r == DirectReferrer <==> !Truthy(referer) || referer.value == DirectReferrer
    ensures Truthy(referer) ==> r == referer.value
  {
    if Truthy(referer) then referer.value else DirectReferrer
  }

  /** `GET /:shortcode`. On a live code it bumps the click counter and appends
      one click event, then redirects. If the code has a record but no click
      list, the append throws after the counter was bumped: a 500 that leaves
      the bumped counter behind. */
  function Redirect(s: Store, code: string, referer: Option<string>, location: string, now: int): (r: Step)
    ensures r.response.NotFound? <==> code !in s.urls
    ensures r.response.Gone? <==> code in s.urls && IsExpired(s.urls[code].expiry, now)
    ensures r.response.NotFound? || r.response.Gone? || r.response.Found? || r.response.InternalError?
    ensures r.response.NotFound? || r.response.Gone? ==> r.next == s
    ensures code in s.urls && !IsExpired(s.urls[code].expiry, now) ==>
      && r.next.urls.Keys == s.urls.Keys
      && r.next.urls[code] == s.urls[code].(clicks := s.urls[code].clicks + 1)
      && (forall k :: k in s.urls && k != code ==> r.next.urls[k] == s.urls[k])
      && (code in s.clickStats <==> r.response.Found?)
      && (r.response.Found? ==>
            && r.response.target == s.urls[code].originalUrl
            && r.next.clickStats.Keys == s.clickStats.Keys
            && r.next.clickStats[code]
               == s.clickStats[code] + [ClickEvent(now, RecordedReferrer(referer), location)]
            && (forall k :: k in s.clickStats && k != code ==> r.next.clickStats[k] == s.clickStats[k]))
      && (r.response.InternalError? ==> r.next.clickStats == s.clickStats)
  {
    if code !in s.urls then
      Step(NotFound, s)
    else
      var rec := s.urls[code];
      if IsExpired(rec.expiry, now) then
        Step(Gone, s)
      else
        var urls := s.urls[code := rec.(clicks := rec.clicks + 1)];
        if code !in s.clickStats then
          Step(InternalError, Store(urls, s.clickStats))
        else
          var event := ClickEvent(now, RecordedReferrer(referer), location);
          Step(Found(rec.originalUrl), Store(urls, s.clickStats[code := s.clickStats[code] + [event]]))
  }

  // ---------------------------------------------------------------------------
  // Properties of single steps
  // ---------------------------------------------------------------------------

  lemma CreatePreservesConsistent(s: Store, req: CreateRequest, generated: string, isValidUrl: string -> bool, now: int)
    requires Consistent(s)
    ensures Consistent(Create(s, req, generated, isValidUrl, now).next)
  {
  }

  lemma RedirectPreservesConsistent(s: Store, code: string, referer: Option<string>, location: string, now: int)
    requires Consistent(s)
    ensures Consistent(Redirect(s, code, referer, location, now).next)
    ensures !Redirect(s, code, referer, location, now).response.InternalError?
  {
  }

  /** In a consistent store the inspect path that omits `clicks` cannot be
      reached: a served code always shows its click list, as long as its counter. */
  lemma InspectShowsClickList(s: Store, code: string, now: int)
    requires Consistent(s)
    ensures Inspect(s, code, now).Ok? ==>
      && Inspect(s, code, now).details.clicks == Some(s.clickStats[code])
      && Inspect(s, code, now).details.totalClicks == |s.clickStats[code]|
  {
  }

  /** Inspect and redirect apply the identical lookup and expiry test: they
      agree on not-found and on gone in every store. In a consistent store
      redirect serves the code exactly when inspect does not refuse it, and
      inspect answers 500 only for an invalid-date expiry, which redirect
      still serves. */
  lemma InspectRedirectAgree(s: Store, code: string, referer: Option<string>, location: string, now: int)
    ensures Inspect(s, code, now).NotFound? <==> Redirect(s, code, referer, location, now).response.NotFound?
    ensures Inspect(s, code, now).Gone? <==> Redirect(s, code, referer, location, now).response.Gone?
    ensures Consistent(s) ==>
      (Redirect(s, code, referer, location, now).response.Found?
       <==> Inspect(s, code, now).Ok? || Inspect(s, code, now).InternalError?)
  {
  }

  /** A code that is taken is refused even when its record has expired, and
      the refusal changes nothing. */
  lemma CreateConflictsWithExpiredCode(s: Store, req: CreateRequest, generated: string, isValidUrl: string -> bool, now: int)
    requires UrlAccepted(req, isValidUrl)
    requires MatchesPattern(ChosenCode(req, generated))
    requires ChosenCode(req, generated) in s.urls
    requires IsExpired(s.urls[ChosenCode(req, generated)].expiry, now)
    ensures Create(s, req, generated, isValidUrl, now) == Step(Conflict, s)
    ensures Inspect(s, ChosenCode(req, generated), now) == Gone
  {
  }

  /** Create followed by inspect: the new code reports the submitted url, the
      creation instant, an expiry `validity` minutes later, no clicks and an
      empty click list until its expiry, and gone after it. */
  lemma CreateThenInspect(s: Store, req: CreateRequest, generated: string, isValidUrl: string -> bool, now: int, later: int)
    requires Create(s, req, generated, isValidUrl, now).response.Created?
    ensures
      var next := Create(s, req, generated, isValidUrl, now).next;
      var code := ChosenCode(req, generated);
      var expiry := RequestedExpiry(req, now);
      && (later <= expiry ==>
            Inspect(next, code, later) == Ok(Details(req.url.value, now, expiry, 0, Some([]))))
      && (later > expiry ==> Inspect(next, code, later) == Gone)
  {
  }

  /** Redirect followed by inspect at the same instant: one more click, and the
      new event at the end of an otherwise unchanged history. A code whose
      expiry is the invalid date is served by redirect but answers 500 on
      inspect, before and after. */
  lemma RedirectThenInspect(s: Store, code: string, referer: Option<string>, location: string, now: int)
    requires Consistent(s)
    requires code in s.urls && !IsExpired(s.urls[code].expiry, now)
    ensures s.urls[code].expiry == InvalidDate ==>
      && Redirect(s, code, referer, location, now).response.Found?
      && Inspect(s, code, now) == InternalError
      && Inspect(Redirect(s, code, referer, location, now).next, code, now) == InternalError
    ensures s.urls[code].expiry.Time? ==>
      var next := Redirect(s, code, referer, location, now).next;
      var before := Inspect(s, code, now);
      var after := Inspect(next, code, now);
      && before.Ok? && after.Ok?
      && after.details.totalClicks == before.details.totalClicks + 1
      && after.details.clicks.Some? && before.details.clicks.Some?
      && after.details.clicks.value
         == before.details.clicks.value + [ClickEvent(now, RecordedReferrer(referer), location)]
      && after.details.originalUrl == before.details.originalUrl
      && after.details.expiry == before.details.expiry
  {
  }

  /** The validity is not checked: a positive one gives an expiry after the
      creation instant, zero or a negative one an expiry at or before it. */
  lemma CreatedExpiryFollowsValidity(s: Store, req: CreateRequest, generated: string, isValidUrl: string -> bool, now: int)
    requires Create(s, req, generated, isValidUrl, now).response.Created?
    ensures
      var rec := Create(s, req, generated, isValidUrl, now).next.urls[ChosenCode(req, generated)];
      (ValidityMinutes(req) > 0 <==> rec.expiry.ms > rec.createdAt)
  {
  }

  /** An expiry outside the `Date` range: the create answers 500 but has
      already stored the record. From then on inspect of the code answers 500
      at every instant, redirect serves it at every instant (it never
      expires), and another create of the same code answers 409. */
  lemma InvalidExpiryLingers(s: Store, req: CreateRequest, generated: string, isValidUrl: string -> bool, now: int,
                             later: int, referer: Option<string>, location: string, again: CreateRequest, generated': string)
    requires Create(s, req, generated, isValidUrl, now).response.InternalError?
    requires UrlAccepted(again, isValidUrl) && ChosenCode(again, generated') == ChosenCode(req, generated)
    ensures
      var next := Create(s, req, generated, isValidUrl, now).next;
      var code := ChosenCode(req, generated);
      && code !in s.urls && code in next.urls
      && Inspect(next, code, later) == InternalError
      && Redirect(next, code, referer, location, later).response == Found(req.url.value)
      && Create(next, again, generated', isValidUrl, later) == Step(Conflict, next)
  {
  }

  /** A validity of 200 000 000 000 minutes from a clock at or after the epoch
      asks for an expiry past the `Date` range: the create answers 500. */
  lemma HugeValidityAnswers500(s: Store, req: CreateRequest, generated: string, isValidUrl: string -> bool, now: int)
    requires UrlAccepted(req, isValidUrl) && MatchesPattern(ChosenCode(req, generated))
    requires ChosenCode(req, generated) !in s.urls
    requires req.validity == Some(200_000_000_000) && 0 <= now
    ensures Create(s, req, generated, isValidUrl, now).response == InternalError
    ensures ChosenCode(req, generated) in Create(s, req, generated, isValidUrl, now).next.urls
  {
  }

}
