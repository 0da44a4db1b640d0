/** Sliding-window usage counts over a key's timestamp history, and the
    rate-limit decision made from them. */
module UsageLedger {
  import opened Types

  const MinuteMs: int := 60 * 1000
  const HourMs: int := 60 * 60 * 1000
  /** Retention ceiling of a usage history: 24 hours. */
  const DayMs: int := 24 * 60 * 60 * 1000

  /** The entries `t` of `history` with `now - t < window`, in their order
      (the `filter` of the source). */
  function Within(history: seq<int>, now: int, window: int): (r: seq<int>)
    ensures |r| <= |history|
    ensures forall t :: t in r <==> t in history && now - t < window
    ensures forall t :: multiset(r)[t] == if now - t < window then multiset(history)[t] else 0
  {
    if history == [] then []
    else
      assert history == [history[0]] + history[1..];
      var rest := Within(history[1..], now, window);
      if now - history[0] < window then [history[0]] + rest else rest
  }

  /** Drops every entry that is not strictly younger than 24 hours. */
  function Prune(history: seq<int>, now: int): seq<int> {
    Within(history, now, DayMs)
  }

  lemma {:induction false} WithinAppend(a: seq<int>, b: seq<int>, now: int, window: int)
    ensures Within(a + b, now, window) == Within(a, now, window) + Within(b, now, window)
  {
    if a == [] {
      assert a + b == b;
    } else {
      assert (a + b)[1..] == a[1..] + b;
      WithinAppend(a[1..], b, now, window);
    }
  }

  /** Filtering by a wider window first changes nothing about a narrower one:
      counting on the pruned history is counting on the raw history. The
      narrower window may end at a later instant, as long as it starts no
      earlier than the wider one. */
  lemma {:induction false} WithinNested(history: seq<int>, now: int, outer: int, later: int, inner: int)
    requires now - outer <= later - inner
    ensures Within(Within(history, now, outer), later, inner) == Within(history, later, inner)
  {
    if history != [] {
      WithinNested(history[1..], now, outer, later, inner);
      var rest := Within(history[1..], now, outer);
      if now - history[0] < outer {
        assert ([history[0]] + rest)[1..] == rest;
      }
    }
  }

  /** History pruning is idempotent. */
  lemma PruneIdempotent(history: seq<int>, now: int)
    ensures Prune(Prune(history, now), now) == Prune(history, now)
  {
    WithinNested(history, now, DayMs, now, DayMs);
  }

  /** A narrower window never counts more entries than a wider one. */
  lemma {:induction false} WithinMonotone(history: seq<int>, now: int, inner: int, outer: int)
    requires inner <= outer
    ensures |Within(history, now, inner)| <= |Within(history, now, outer)|
  {
    if history != [] {
      WithinMonotone(history[1..], now, inner, outer);
    }
  }

  /** An entry recorded at `stamp` adds exactly one to a window at `now`
      that still contains `stamp`, and nothing to one that does not. */
  lemma RecordedEntryCount(history: seq<int>, stamp: int, now: int, window: int)
    ensures |Within(history + [stamp], now, window)|
         == |Within(history, now, window)| + (if now - stamp < window then 1 else 0)
  {
    WithinAppend(history, [stamp], now, window);
    assert [stamp][1..] == [];
  }

  /** The window filter on a two-entry history, entry by entry. */
  lemma WithinTwo(a: int, b: int, now: int, w: int)
    ensures Within([a, b], now, w) == (if now - a < w then [a] else []) + (if now - b < w then [b] else [])
  {
    assert [a, b][1..] == [b];
    assert [b][1..] == [];
  }

  /** Request counts of the last minute, the last hour and the whole
      (already pruned) history. */
  datatype WindowCounts = WindowCounts(minute: nat, hour: nat, day: nat)

  function Counts(pruned: seq<int>, now: int): (c: WindowCounts)
    ensures c.minute <= c.hour <= c.day
    ensures c.day == |pruned|
  {
    WithinMonotone(pruned, now, MinuteMs, HourMs);
    WindowCounts(|Within(pruned, now, MinuteMs)|, |Within(pruned, now, HourMs)|, |pruned|)
  }

  /** A configured cap is reached when it is at most the count. */
  predicate CapReached(cap: Option<int>, count: int) {
    cap.Some? && cap.value <= count
  }

  /** The rate-limit decision for a key with caps `limit` and pruned
      history `pruned`. */
  predicate Limited(limit: Option<RateLimit>, pruned: seq<int>, now: int) {
    match limit
    case None => false
    case Some(caps) =>
      var c := Counts(pruned, now);
      CapReached(caps.requestsPerMinute, c.minute)
      || CapReached(caps.requestsPerHour, c.hour)
      || CapReached(caps.requestsPerDay, c.day)
  }

  /** The decision stated directly on the raw history: some configured cap
      is at most the number of entries younger than its window. */
  predicate LimitedOnRaw(limit: Option<RateLimit>, history: seq<int>, now: int) {
    limit.Some?
    && (CapReached(limit.value.requestsPerMinute, |Within(history, now, MinuteMs)|)
        || CapReached(limit.value.requestsPerHour, |Within(history, now, HourMs)|)
        || CapReached(limit.value.requestsPerDay, |Within(history, now, DayMs)|))
  }

  /** Pruning before counting does not change the decision. */
  lemma LimitedAfterPruneIffRaw(limit: Option<RateLimit>, history: seq<int>, now: int)
    ensures Limited(limit, Prune(history, now), now) <==> LimitedOnRaw(limit, history, now)
  {
    WithinNested(history, now, DayMs, now, MinuteMs);
    WithinNested(history, now, DayMs, now, HourMs);
  }

  /** Unset caps never limit, whatever the history. */
  lemma UnsetCapsNeverLimit(limit: Option<RateLimit>, pruned: seq<int>, now: int)
    requires limit.None? || limit == Some(RateLimit(None, None, None))
    ensures !Limited(limit, pruned, now)
  {
  }

  /** A cap of zero (or less) limits the key even with an empty history. */
  lemma NonPositiveCapAlwaysLimits(caps: RateLimit, pruned: seq<int>, now: int)
    requires (caps.requestsPerMinute.Some? && caps.requestsPerMinute.value <= 0)
          || (caps.requestsPerHour.Some? && caps.requestsPerHour.value <= 0)
          || (caps.requestsPerDay.Some? && caps.requestsPerDay.value <= 0)
    ensures Limited(Some(caps), pruned, now)
  {
  }
}
