/**
 The service's in-memory state: the `urls` map from shortcode to link record,
 the `clickStats` map from shortcode to the click events recorded for it, and
 the invariants the request handlers keep on them.
 */
module Links {
  import opened Shortcode

  /** Instants are milliseconds since the epoch (a `Date`'s `getTime()`). */
  const MillisPerMinute: int := 60000

  /** Validity, in minutes, when the create request gives none. */
  const DefaultValidityMinutes: int := 30

  /** Largest magnitude of a `Date` time value: 10^8 days either side of the
      epoch (section 21.4.1.1 of ECMA-262). */
  const MaxTimeValue: int := 8_640_000_000_000_000

  /** A `Date`: a time value in milliseconds, or the invalid date (time value NaN). */
  datatype DateValue = Time(ms: int) | InvalidDate

  predicate InDateRange(t: int) {
    -MaxTimeValue <= t <= MaxTimeValue
  }

  /** `new Date(t)` for an integer `t`: the clipping of section 21.4.1.31 of
      ECMA-262 turns a time value outside the range into the invalid date. */
  function MakeDate(t: int): (d: DateValue)
    ensures d.Time? <==> InDateRange(t)
    ensures d.Time? ==> d.ms == t
  {
    if InDateRange(t) then Time(t) else InvalidDate
  }

  datatype LinkRecord = LinkRecord(originalUrl: string, createdAt: int, expiry: DateValue, clicks: nat)

  datatype ClickEvent = ClickEvent(timestamp: int, referrer: string, location: string)

  datatype Store = Store(urls: map<string, LinkRecord>, clickStats: map<string, seq<ClickEvent>>)

  /** The state at process start. */
  const EmptyStore: Store := Store(map[], map[])

  /** The test both read handlers apply to a link's expiry: a link stops
      being served strictly after its expiry instant, so it is still served at
      `now == expiry`. A comparison with the invalid date is false, so a link
      whose expiry is the invalid date never expires. */
  predicate IsExpired(expiry: DateValue, now: int) {
    expiry.Time? && now > expiry.ms
  }

  /** The last instant up to `t` at which a link with this expiry is served. */
  function LastServed(expiry: DateValue, t: int): (u: int)
    ensures u <= t
    ensures !IsExpired(expiry, u)
    ensures forall v :: v <= t && !IsExpired(expiry, v) ==> v <= u
  {
    if expiry.Time? && expiry.ms < t then expiry.ms else t
  }

  /** The store invariant: both maps have the same keys, every record's click
      counter equals the number of events recorded for it, and every key passed
      the shortcode pattern when it was inserted. */
  ghost predicate Consistent(s: Store) {
    && s.urls.Keys == s.clickStats.Keys
    && (forall code :: code in s.urls ==> s.urls[code].clicks == |s.clickStats[code]|)
    && (forall code :: code in s.urls ==> MatchesPattern(code))
  }

  /** Events are in chronological order and each lies within `[lo, hi]`. */
  ghost predicate ChronologicalWithin(events: seq<ClickEvent>, lo: int, hi: int) {
    && (forall i :: 0 <= i < |events| ==> lo <= events[i].timestamp <= hi)
    && (forall i, j :: 0 <= i < j < |events| ==> events[i].timestamp <= events[j].timestamp)
  }

  /** The click history as seen at instant `t` by a clock that never goes
      back: every record was created no later than `t`, and its events are in
      order, none before its creation, none after `t` and none after its expiry. */
  ghost predicate HistoryUpTo(s: Store, t: int) {
    && Consistent(s)
    && forall code :: code in s.urls ==>
         && s.urls[code].createdAt <= t
         && ChronologicalWithin(s.clickStats[code], s.urls[code].createdAt,
                                LastServed(s.urls[code].expiry, t))
  }

  lemma EmptyStoreHistory(t: int)
    ensures Consistent(EmptyStore)
    ensures HistoryUpTo(EmptyStore, t)
  {
  }

}
