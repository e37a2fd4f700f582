/**
 Runs of requests against one store: the service handles requests one at a
 time, each handler being one atomic step. Properties of whole runs: the store
 invariant, records that never change or disappear, expiry that is final,
 click accounting over repeated redirects, and chronological click history.
 */
module Lifecycle {
  import opened Optional
  import opened Shortcode
  import opened Links
  import opened Service

  datatype Op =
    | CreateOp(req: CreateRequest, generated: string)
    | InspectOp(code: string)
    | RedirectOp(code: string, referer: Option<string>)

  /** A request handled at instant `at`. */
  datatype Request = Request(op: Op, at: int)

  /** Dispatch of one request to its handler. `location` is what the redirect
      handler records as the click's location. */
  function Handle(s: Store, rq: Request, isValidUrl: string -> bool, location: string): Step {
    match rq.op
    case CreateOp(req, generated) => Create(s, req, generated, isValidUrl, rq.at)
    case InspectOp(code) => Step(Inspect(s, code, rq.at), s)
    case RedirectOp(code, referer) => Redirect(s, code, referer, location, rq.at)
  }

  /** The store after handling `rqs` in order. */
  function Run(s: Store, rqs: seq<Request>, isValidUrl: string -> bool, location: string): Store
    decreases |rqs|
  {
    if rqs == [] then s
    else Run(Handle(s, rqs[0], isValidUrl, location).next, rqs[1..], isValidUrl, location)
  }

  lemma HandlePreservesConsistent(s: Store, rq: Request, isValidUrl: string -> bool, location: string)
    requires Consistent(s)
    ensures Consistent(Handle(s, rq, isValidUrl, location).next)
  {
    match rq.op
    case CreateOp(req, generated) =>
      CreatePreservesConsistent(s, req, generated, isValidUrl, rq.at);
    case InspectOp(code) =>
    case RedirectOp(code, referer) =>
      RedirectPreservesConsistent(s, code, referer, location, rq.at);
  }

  /** Every run from a consistent store ends in a consistent store: the two
      maps keep the same keys and every click counter equals the length of its
      click list. */
  lemma {:induction false} RunPreservesConsistent(s: Store, rqs: seq<Request>, isValidUrl: string -> bool, location: string)
    requires Consistent(s)
    ensures Consistent(Run(s, rqs, isValidUrl, location))
    decreases |rqs|
  {
    if rqs != [] {
      HandlePreservesConsistent(s, rqs[0], isValidUrl, location);
      RunPreservesConsistent(Handle(s, rqs[0], isValidUrl, location).next, rqs[1..], isValidUrl, location);
    }
  }

  /** Same url, creation instant and expiry: everything but the click counter. */
  predicate SameLink(a: LinkRecord, b: LinkRecord) {
    a.originalUrl == b.originalUrl && a.createdAt == b.createdAt && a.expiry == b.expiry
  }

  /** One request never deletes a record nor changes anything but its
      counter, and never lowers the counter. */
  lemma HandleKeepsRecords(s: Store, rq: Request, isValidUrl: string -> bool, location: string)
    ensures forall code :: code in s.urls ==>
      && code in Handle(s, rq, isValidUrl, location).next.urls
      && SameLink(s.urls[code], Handle(s, rq, isValidUrl, location).next.urls[code])
      && s.urls[code].clicks <= Handle(s, rq, isValidUrl, location).next.urls[code].clicks
  {
  }

  /** In a consistent store, one request only ever appends to click histories. */
  lemma HandleExtendsHistories(s: Store, rq: Request, isValidUrl: string -> bool, location: string)
    requires Consistent(s)
    ensures forall code :: code in s.urls ==>
      && code in Handle(s, rq, isValidUrl, location).next.clickStats
      && s.clickStats[code] <= Handle(s, rq, isValidUrl, location).next.clickStats[code]
  {
  }

  /** Records are never deleted or overwritten: across any run every existing
      code keeps its url, creation instant and expiry, and its counter never
      goes down. */
  lemma {:induction false} RunKeepsRecords(s: Store, rqs: seq<Request>, isValidUrl: string -> bool, location: string)
    ensures forall code :: code in s.urls ==>
      && code in Run(s, rqs, isValidUrl, location).urls
      && SameLink(s.urls[code], Run(s, rqs, isValidUrl, location).urls[code])
      && s.urls[code].clicks <= Run(s, rqs, isValidUrl, location).urls[code].clicks
    decreases |rqs|
  {
    if rqs != [] {
      HandleKeepsRecords(s, rqs[0], isValidUrl, location);
      RunKeepsRecords(Handle(s, rqs[0], isValidUrl, location).next, rqs[1..], isValidUrl, location);
    }
  }

  /** Click histories are append-only: across any run from a consistent store,
      every existing code's history is a prefix of its later history. */
  lemma {:induction false} RunExtendsHistories(s: Store, rqs: seq<Request>, isValidUrl: string -> bool, location: string)
    requires Consistent(s)
    ensures forall code :: code in s.urls ==>
      && code in Run(s, rqs, isValidUrl, location).clickStats
      && s.clickStats[code] <= Run(s, rqs, isValidUrl, location).clickStats[code]
    decreases |rqs|
  {
    if rqs != [] {
      var next := Handle(s, rqs[0], isValidUrl, location).next;
      HandlePreservesConsistent(s, rqs[0], isValidUrl, location);
      HandleKeepsRecords(s, rqs[0], isValidUrl, location);
      HandleExtendsHistories(s, rqs[0], isValidUrl, location);
      RunExtendsHistories(next, rqs[1..], isValidUrl, location);
    }
  }

  /** Expiry is final: once a code answers gone, both read handlers answer
      gone for it at every later instant, whatever requests came in between. */
  lemma GoneIsFinal(s: Store, code: string, t1: int, rqs: seq<Request>, isValidUrl: string -> bool, location: string, t2: int, referer: Option<string>)
    requires Inspect(s, code, t1) == Gone
    requires t1 <= t2
    ensures Inspect(Run(s, rqs, isValidUrl, location), code, t2) == Gone
    ensures Redirect(Run(s, rqs, isValidUrl, location), code, referer, location, t2).response == Gone
    ensures Redirect(Run(s, rqs, isValidUrl, location), code, referer, location, t2).next
         == Run(s, rqs, isValidUrl, location)
  {
    RunKeepsRecords(s, rqs, isValidUrl, location);
  }

  /** The requests are all redirects for `code` that arrive while a link
      with this expiry is still served. */
  predicate LiveRedirectsTo(rqs: seq<Request>, code: string, expiry: DateValue) {
    forall i :: 0 <= i < |rqs| ==> rqs[i].op.RedirectOp? && rqs[i].op.code == code && !IsExpired(expiry, rqs[i].at)
  }

  /** The click events a run of redirects records, in arrival order. */
  function RecordedClicks(rqs: seq<Request>, location: string): (events: seq<ClickEvent>)
    requires forall i :: 0 <= i < |rqs| ==> rqs[i].op.RedirectOp?
    ensures |events| == |rqs|
  {
    seq(|rqs|, i requires 0 <= i < |rqs| && rqs[i].op.RedirectOp? =>
      ClickEvent(rqs[i].at, RecordedReferrer(rqs[i].op.referer), location))
  }

  /** Click accounting: N redirects to a live code raise its counter by exactly
      N and append exactly their N events, in call order, after the earlier
      history. */
  lemma {:induction false} ClickAccounting(s: Store, code: string, rqs: seq<Request>, isValidUrl: string -> bool, location: string)
    requires Consistent(s)
    requires code in s.urls
    requires LiveRedirectsTo(rqs, code, s.urls[code].expiry)
    ensures
      var t := Run(s, rqs, isValidUrl, location);
      && code in t.urls && code in t.clickStats
      && t.urls[code] == s.urls[code].(clicks := s.urls[code].clicks + |rqs|)
      && t.clickStats[code] == s.clickStats[code] + RecordedClicks(rqs, location)
    decreases |rqs|
  {
    if rqs != [] {
      var rq := rqs[0];
      var event := ClickEvent(rq.at, RecordedReferrer(rq.op.referer), location);
      LiveRedirectsTail(rqs, code, s.urls[code].expiry);
      var next := Redirect(s, code, rq.op.referer, location, rq.at).next;
      RunRedirectStep(s, rqs, isValidUrl, location);
      LiveRedirectStep(s, code, rq.op.referer, location, rq.at);
      assert next.urls[code].expiry == s.urls[code].expiry;
      ClickAccounting(next, code, rqs[1..], isValidUrl, location);
      RecordedClicksCons(rqs, location);
      AppendAssociates(s.clickStats[code], [event], RecordedClicks(rqs[1..], location));
    }
  }

  /** Redirects to a live code add no key and leave every other code's record
      and history as they were. */
  lemma {:induction false} RedirectsLeaveOtherCodes(s: Store, code: string, rqs: seq<Request>, isValidUrl: string -> bool, location: string)
    requires Consistent(s)
    requires code in s.urls
    requires LiveRedirectsTo(rqs, code, s.urls[code].expiry)
    ensures
      var t := Run(s, rqs, isValidUrl, location);
      && t.urls.Keys == s.urls.Keys
      && t.clickStats.Keys == s.clickStats.Keys
      && (forall k :: k in s.urls && k != code ==> t.urls[k] == s.urls[k])
      && (forall k :: k in s.clickStats && k != code ==> t.clickStats[k] == s.clickStats[k])
    decreases |rqs|
  {
    if rqs != [] {
      var rq := rqs[0];
      LiveRedirectsTail(rqs, code, s.urls[code].expiry);
      var next := Redirect(s, code, rq.op.referer, location, rq.at).next;
      RunRedirectStep(s, rqs, isValidUrl, location);
      LiveRedirectStep(s, code, rq.op.referer, location, rq.at);
      RedirectsLeaveOtherCodes(next, code, rqs[1..], isValidUrl, location);
    }
  }

  lemma RunRedirectStep(s: Store, rqs: seq<Request>, isValidUrl: string -> bool, location: string)
    requires rqs != [] && rqs[0].op.RedirectOp?
    ensures Run(s, rqs, isValidUrl, location)
         == Run(Redirect(s, rqs[0].op.code, rqs[0].op.referer, location, rqs[0].at).next, rqs[1..], isValidUrl, location)
  {
  }

  lemma LiveRedirectsTail(rqs: seq<Request>, code: string, expiry: DateValue)
    requires rqs != [] && LiveRedirectsTo(rqs, code, expiry)
    ensures rqs[0].op == RedirectOp(code, rqs[0].op.referer) && !IsExpired(expiry, rqs[0].at)
    ensures LiveRedirectsTo(rqs[1..], code, expiry)
  {
    forall i | 0 <= i < |rqs[1..]|
      ensures rqs[1..][i].op.RedirectOp? && rqs[1..][i].op.code == code && !IsExpired(expiry, rqs[1..][i].at)
    {
      assert rqs[1..][i] == rqs[i + 1];
    }
  }

  lemma AppendAssociates(a: seq<ClickEvent>, b: seq<ClickEvent>, c: seq<ClickEvent>)
    ensures (a + b) + c == a + (b + c)
  {
  }

  lemma RecordedClicksCons(rqs: seq<Request>, location: string)
    requires rqs != [] && forall i :: 0 <= i < |rqs| ==> rqs[i].op.RedirectOp?
    ensures RecordedClicks(rqs, location)
         == [ClickEvent(rqs[0].at, RecordedReferrer(rqs[0].op.referer), location)] + RecordedClicks(rqs[1..], location)
  {
  }

  /** The exact store a redirect to a live code leaves in a consistent store. */
  lemma LiveRedirectStep(s: Store, code: string, referer: Option<string>, location: string, now: int)
    requires Consistent(s) && code in s.urls && !IsExpired(s.urls[code].expiry, now)
    ensures Consistent(Redirect(s, code, referer, location, now).next)
    ensures Redirect(s, code, referer, location, now).next
         == Store(s.urls[code := s.urls[code].(clicks := s.urls[code].clicks + 1)],
                  s.clickStats[code := s.clickStats[code] + [ClickEvent(now, RecordedReferrer(referer), location)]])
  {
    RedirectPreservesConsistent(s, code, referer, location, now);
  }

  /** From a freshly created code, N live redirects leave a counter of N and a
      history of exactly those N clicks. */
  lemma CreateThenRedirects(s: Store, req: CreateRequest, generated: string, isValidUrl: string -> bool, now: int, rqs: seq<Request>, location: string)
    requires Consistent(s)
    requires Create(s, req, generated, isValidUrl, now).response.Created?
    requires LiveRedirectsTo(rqs, ChosenCode(req, generated), Time(RequestedExpiry(req, now)))
    ensures
      var t := Run(Create(s, req, generated, isValidUrl, now).next, rqs, isValidUrl, location);
      var code := ChosenCode(req, generated);
      && code in t.urls && code in t.clickStats
      && t.urls[code].clicks == |rqs|
      && t.clickStats[code] == RecordedClicks(rqs, location)
  {
    var next := Create(s, req, generated, isValidUrl, now).next;
    CreatePreservesConsistent(s, req, generated, isValidUrl, now);
    ClickAccounting(next, ChosenCode(req, generated), rqs, isValidUrl, location);
  }

  // ---------------------------------------------------------------------------
  // Chronological history under a clock that never goes back
  // ---------------------------------------------------------------------------

  lemma ChronologicalWiden(events: seq<ClickEvent>, lo: int, hi: int, hi': int)
    requires ChronologicalWithin(events, lo, hi) && hi <= hi'
    ensures ChronologicalWithin(events, lo, hi')
  {
  }

  lemma HistoryLater(s: Store, t: int, now: int)
    requires HistoryUpTo(s, t) && t <= now
    ensures HistoryUpTo(s, now)
  {
    forall code | code in s.urls
      ensures ChronologicalWithin(s.clickStats[code], s.urls[code].createdAt, LastServed(s.urls[code].expiry, now))
    {
      var rec := s.urls[code];
      ChronologicalWiden(s.clickStats[code], rec.createdAt, LastServed(rec.expiry, t), LastServed(rec.expiry, now));
    }
  }

  lemma CreateKeepsHistory(s: Store, t: int, req: CreateRequest, generated: string, isValidUrl: string -> bool, now: int)
    requires HistoryUpTo(s, t) && t <= now
    ensures HistoryUpTo(Create(s, req, generated, isValidUrl, now).next, now)
  {
    HistoryLater(s, t, now);
    var next := Create(s, req, generated, isValidUrl, now).next;
    CreatePreservesConsistent(s, req, generated, isValidUrl, now);
    if next != s {
      var code := ChosenCode(req, generated);
      forall k | k in next.urls
        ensures next.urls[k].createdAt <= now
        ensures ChronologicalWithin(next.clickStats[k], next.urls[k].createdAt, LastServed(next.urls[k].expiry, now))
      {
        if k != code {
          assert next.urls[k] == s.urls[k] && next.clickStats[k] == s.clickStats[k];
        }
      }
    }
  }

  lemma AppendKeepsChronological(events: seq<ClickEvent>, event: ClickEvent, lo: int, now: int)
    requires ChronologicalWithin(events, lo, now)
    requires lo <= event.timestamp == now
    ensures ChronologicalWithin(events + [event], lo, now)
  {
  }

  /** Recording a click at `now` on a code that is live at `now` keeps the history. */
  lemma ClickKeepsHistory(s: Store, code: string, event: ClickEvent, now: int)
    requires HistoryUpTo(s, now)
    requires code in s.urls && !IsExpired(s.urls[code].expiry, now) && event.timestamp == now
    ensures HistoryUpTo(Store(s.urls[code := s.urls[code].(clicks := s.urls[code].clicks + 1)],
                              s.clickStats[code := s.clickStats[code] + [event]]), now)
  {
    var rec := s.urls[code];
    AppendKeepsChronological(s.clickStats[code], event, rec.createdAt, now);
  }

  lemma RedirectKeepsHistory(s: Store, t: int, code: string, referer: Option<string>, location: string, now: int)
    requires HistoryUpTo(s, t) && t <= now
    ensures HistoryUpTo(Redirect(s, code, referer, location, now).next, now)
  {
    HistoryLater(s, t, now);
    if code in s.urls && !IsExpired(s.urls[code].expiry, now) {
      LiveRedirectStep(s, code, referer, location, now);
      ClickKeepsHistory(s, code, ClickEvent(now, RecordedReferrer(referer), location), now);
    }
  }

  /** Arrival instants never go back and none is before `t`. */
  predicate ClockFrom(rqs: seq<Request>, t: int) {
    && (forall i :: 0 <= i < |rqs| ==> t <= rqs[i].at)
    && (forall i, j :: 0 <= i < j < |rqs| ==> rqs[i].at <= rqs[j].at)
  }

  function LastInstant(rqs: seq<Request>, t: int): int {
    if rqs == [] then t else rqs[|rqs| - 1].at
  }

  /** With a clock that never goes back, every click history stays in
      insertion order, which is chronological order, and no click is ever
      recorded before its link's creation or after its expiry. */
  lemma {:induction false} RunKeepsHistory(s: Store, t: int, rqs: seq<Request>, isValidUrl: string -> bool, location: string)
    requires HistoryUpTo(s, t)
    requires ClockFrom(rqs, t)
    ensures HistoryUpTo(Run(s, rqs, isValidUrl, location), LastInstant(rqs, t))
    decreases |rqs|
  {
    if rqs != [] {
      var rq := rqs[0];
      var next := Handle(s, rq, isValidUrl, location).next;
      match rq.op {
        case CreateOp(req, generated) =>
          CreateKeepsHistory(s, t, req, generated, isValidUrl, rq.at);
        case InspectOp(code) =>
          HistoryLater(s, t, rq.at);
        case RedirectOp(code, referer) =>
          RedirectKeepsHistory(s, t, code, referer, location, rq.at);
      }
      assert ClockFrom(rqs[1..], rq.at) by {
        forall i | 0 <= i < |rqs[1..]|
          ensures rq.at <= rqs[1..][i].at
        {
          assert rqs[1..][i] == rqs[i + 1];
        }
      }
      RunKeepsHistory(next, rq.at, rqs[1..], isValidUrl, location);
      assert LastInstant(rqs[1..], rq.at) == LastInstant(rqs, t);
    }
  }

  // ---------------------------------------------------------------------------
  // The generated code
  // ---------------------------------------------------------------------------

  /** As written, a create request with no shortcode of its own can be refused
      for a shortcode it never sent: any draw of random bytes whose first byte
      is 0xF8 or more gives a generated code beginning with `-` or `_`, as the
      bytes F8 00 00 00 00 do. */
  lemma GeneratedCodeRejectedOnCreate(s: Store, req: CreateRequest, random: seq<Byte>, isValidUrl: string -> bool, now: int)
    requires UrlAccepted(req, isValidUrl)
    requires !Truthy(req.shortcode)
    requires |random| == GeneratedLength && random[0] >= 248
    ensures Create(s, req, GenerateShortcode(random), isValidUrl, now) == Step(BadRequest(NonAlphanumericCode), s)
    ensures Create(s, req, GenerateShortcode([248, 0, 0, 0, 0]), isValidUrl, now) == Step(BadRequest(NonAlphanumericCode), s)
  {
    GeneratedFirstChar(random);
    assert !IsAlnumChar(GenerateShortcode(random)[0]);
    GeneratedCodeMayFailPattern();
  }

  /** With the alphanumeric generator, a create request with a valid url and
      no shortcode of its own is never refused for its code: it collides with
      an existing one, or it is stored (and answered 201 when its expiry lies
      in the `Date` range). */
  lemma AlnumGeneratedCodeAccepted(s: Store, req: CreateRequest, random: seq<Byte>, isValidUrl: string -> bool, now: int)
    requires UrlAccepted(req, isValidUrl)
    requires !Truthy(req.shortcode)
    requires |random| > 0
    ensures
      var r := Create(s, req, AlnumShortcode(random), isValidUrl, now);
      && !r.response.BadRequest?
      && (r.response.Created? <==> AlnumShortcode(random) !in s.urls && InDateRange(RequestedExpiry(req, now)))
      && (r.response.Conflict? <==> AlnumShortcode(random) in s.urls)
  {
  }

  // ---------------------------------------------------------------------------
  // A concrete session
  // ---------------------------------------------------------------------------

  /** Create `abc123` for one minute at `t0`; a second create with the same
      code conflicts; inspect at `t0 + 30s` shows no clicks; a redirect without
      a referrer records one `direct` click at the simulated location; after
      `t0 + 61s` the redirect is gone. */
  lemma ExampleSession(isValidUrl: string -> bool, t0: int)
    requires isValidUrl("https://example.com")
    requires 0 <= t0 && InDateRange(t0 + 60000)
    ensures
      var req := CreateRequest(Some("https://example.com"), Some(1), Some("abc123"));
      var c1 := Create(EmptyStore, req, "", isValidUrl, t0);
      var s1 := c1.next;
      var c2 := Create(s1, req, "", isValidUrl, t0 + 1000);
      var r1 := Redirect(s1, "abc123", None, SimulatedLocation, t0 + 30000);
      var s2 := r1.next;
      && c1.response == Created("http://localhost:3000/abc123", t0 + 60000)
      && c2 == Step(Conflict, s1)
      && Inspect(s1, "abc123", t0 + 30000) == Ok(Details("https://example.com", t0, t0 + 60000, 0, Some([])))
      && r1.response == Found("https://example.com")
      && Inspect(s2, "abc123", t0 + 30000)
         == Ok(Details("https://example.com", t0, t0 + 60000, 1, Some([ClickEvent(t0 + 30000, "direct", "India (simulated)")])))
      && Redirect(s2, "abc123", None, SimulatedLocation, t0 + 61000) == Step(Gone, s2)
  {
    var code := "abc123";
    assert MatchesPattern(code) by {
      assert forall i :: 0 <= i < |code| ==> IsAlnumChar(code[i]);
    }
    var req := CreateRequest(Some("https://example.com"), Some(1), Some("abc123"));
    assert UrlAccepted(req, isValidUrl);
    assert ChosenCode(req, "") == code;
    var c1 := Create(EmptyStore, req, "", isValidUrl, t0);
    var rec := LinkRecord("https://example.com", t0, Time(t0 + 60000), 0);
    assert c1.next == Store(map[code := rec], map[code := []]);
    assert ShortLink(code) == "http://localhost:3000/abc123";
    var s1 := c1.next;
    var event := ClickEvent(t0 + 30000, "direct", "India (simulated)");
    var r1 := Redirect(s1, code, None, SimulatedLocation, t0 + 30000);
    assert RecordedReferrer(None) == "direct";
    assert s1.urls[code] == rec && s1.clickStats[code] == [];
    assert r1.response == Found("https://example.com");
    assert r1.next.urls == map[code := rec.(clicks := 1)];
    assert s1.clickStats[code] + [event] == [event];
    assert r1.next.clickStats == s1.clickStats[code := [event]];
    assert r1.next.clickStats == map[code := [event]];
    assert r1.next == Store(map[code := rec.(clicks := 1)], map[code := [event]]);
  }

}
