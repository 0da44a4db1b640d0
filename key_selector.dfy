/** First-fit selection of an API key from an endpoint's ordered pool, and
    the effect of one hit on the pool. These functions specify the in-place
    loop of `EndpointStore.Store.LogEndpointHit`. */
module KeySelector {
  import opened Types
  import opened UsageLedger

  /** A key's history, an absent one read as empty. */
  function HistoryOf(k: ApiKey): seq<int> {
    k.usageHistory.GetOr([])
  }

  /** The key with its history created if absent and pruned to 24 hours. */
  function PruneKey(k: ApiKey, now: int): ApiKey {
    k.(usageHistory := Some(Prune(HistoryOf(k), now)))
  }

  /** The key's eligibility, decided on its pruned history. */
  predicate KeyLimited(k: ApiKey, now: int) {
    Limited(k.rateLimit, Prune(HistoryOf(k), now), now)
  }

  /** The usage update applied to the chosen key. */
  function RecordHit(k: ApiKey, now: int, stamp: string): ApiKey {
    k.(usage := k.usage + 1, lastUsed := Some(stamp), usageHistory := Some(HistoryOf(k) + [now]))
  }

  /** The index of the first key that is not limited, if any. */
  function FirstEligible(keys: seq<ApiKey>, now: int): (r: Option<nat>)
    ensures r.Some? ==> r.value < |keys| && !KeyLimited(keys[r.value], now)
    ensures r.Some? ==> forall j :: 0 <= j < r.value ==> KeyLimited(keys[j], now)
    ensures r.None? ==> forall j :: 0 <= j < |keys| ==> KeyLimited(keys[j], now)
  {
    if keys == [] then None
    else if !KeyLimited(keys[0], now) then Some(0)
    else
      match FirstEligible(keys[1..], now)
      case None => None
      case Some(c) => Some(c + 1)
  }

  /** First-fit is determined by the limited flags alone: an index whose key
      is eligible and whose predecessors are all limited is the choice. */
  lemma FirstEligibleUnique(keys: seq<ApiKey>, now: int, c: nat)
    requires c < |keys| && !KeyLimited(keys[c], now)
    requires forall j :: 0 <= j < c ==> KeyLimited(keys[j], now)
    ensures FirstEligible(keys, now) == Some(c)
  {
  }

  /** Key `j` after one hit on `keys`: the keys scanned before the chosen one
      (all of them when none is chosen) are pruned, the chosen one is pruned
      and recorded, the keys after it are untouched. */
  function KeyAfterHit(keys: seq<ApiKey>, now: int, stamp: string, chosen: Option<nat>, j: nat): ApiKey
    requires j < |keys|
  {
    if chosen == Some(j) then RecordHit(PruneKey(keys[j], now), now, stamp)
    else if chosen.None? || j < chosen.value then PruneKey(keys[j], now)
    else keys[j]
  }

  /** The pool after one hit. */
  function HitKeys(keys: seq<ApiKey>, now: int, stamp: string): (r: seq<ApiKey>)
    ensures |r| == |keys|
    ensures forall j :: 0 <= j < |keys| ==>
      r[j].value == keys[j].value && r[j].rateLimit == keys[j].rateLimit
  {
    var chosen := FirstEligible(keys, now);
    seq(|keys|, j requires 0 <= j < |keys| => KeyAfterHit(keys, now, stamp, chosen, j))
  }

  /** A scan that found every key limited, having pruned each, has produced
      the pool of a rejected hit. */
  lemma ScanExhausted(pool: seq<ApiKey>, keys: seq<ApiKey>, now: int, stamp: string)
    requires |keys| == |pool|
    requires forall j :: 0 <= j < |pool| ==> keys[j] == PruneKey(pool[j], now) && KeyLimited(pool[j], now)
    ensures FirstEligible(pool, now).None?
    ensures keys == HitKeys(pool, now, stamp)
  {
    var after := HitKeys(pool, now, stamp);
    forall j | 0 <= j < |pool| ensures keys[j] == after[j] {
      assert after[j] == KeyAfterHit(pool, now, stamp, None, j);
    }
  }

  /** A scan that stopped at the first eligible key `c`, having pruned the
      keys up to it, produces the pool of a successful hit once `c` is
      recorded. */
  lemma ScanChosen(pool: seq<ApiKey>, keys: seq<ApiKey>, now: int, stamp: string, c: nat)
    requires |keys| == |pool| && c < |pool|
    requires forall j :: 0 <= j < c ==> keys[j] == PruneKey(pool[j], now) && KeyLimited(pool[j], now)
    requires keys[c] == PruneKey(pool[c], now) && !KeyLimited(pool[c], now)
    requires forall j :: c < j < |pool| ==> keys[j] == pool[j]
    ensures FirstEligible(pool, now) == Some(c)
    ensures keys[c := RecordHit(keys[c], now, stamp)] == HitKeys(pool, now, stamp)
  {
    FirstEligibleUnique(pool, now, c);
    var after := HitKeys(pool, now, stamp);
    var r := keys[c := RecordHit(keys[c], now, stamp)];
    forall j | 0 <= j < |pool| ensures r[j] == after[j] {
      assert after[j] == KeyAfterHit(pool, now, stamp, Some(c), j);
    }
  }

  /** On success only the chosen key's counters move: its usage goes up by
      exactly one, `lastUsed` becomes the stamp and `now` is appended to the
      end of its pruned history; every other key keeps `usage` and
      `lastUsed`, the keys before the chosen one are pruned (their history
      created if absent), and the keys after it are not touched at all. */
  lemma HitUpdatesOnlyChosen(keys: seq<ApiKey>, now: int, stamp: string, c: nat)
    requires FirstEligible(keys, now) == Some(c)
    ensures var r := HitKeys(keys, now, stamp);
      && r[c].usage == keys[c].usage + 1
      && r[c].lastUsed == Some(stamp)
      && HistoryOf(r[c]) == Prune(HistoryOf(keys[c]), now) + [now]
      && (forall j :: 0 <= j < |keys| && j != c ==>
            r[j].usage == keys[j].usage && r[j].lastUsed == keys[j].lastUsed)
      && (forall j :: 0 <= j < c ==> r[j] == PruneKey(keys[j], now))
      && (forall j :: c < j < |keys| ==> r[j] == keys[j])
  {
    var r := HitKeys(keys, now, stamp);
    assert r[c] == KeyAfterHit(keys, now, stamp, Some(c), c);
    forall j | 0 <= j < |keys| && j != c
      ensures r[j].usage == keys[j].usage && r[j].lastUsed == keys[j].lastUsed
    {
      assert r[j] == KeyAfterHit(keys, now, stamp, Some(c), j);
    }
    forall j | 0 <= j < c
      ensures r[j] == PruneKey(keys[j], now)
    {
      assert r[j] == KeyAfterHit(keys, now, stamp, Some(c), j);
    }
    forall j | c < j < |keys|
      ensures r[j] == keys[j]
    {
      assert r[j] == KeyAfterHit(keys, now, stamp, Some(c), j);
    }
  }

  /** When every key is limited, no key's `usage` or `lastUsed` changes; each
      history is created if absent and loses exactly its entries that are
      24 hours old or older. */
  lemma ExhaustedHitOnlyPrunes(keys: seq<ApiKey>, now: int, stamp: string)
    requires FirstEligible(keys, now).None?
    ensures var r := HitKeys(keys, now, stamp);
      forall j :: 0 <= j < |keys| ==>
        && r[j].usage == keys[j].usage
        && r[j].lastUsed == keys[j].lastUsed
        && r[j].usageHistory.Some?
        && HistoryOf(r[j]) == Prune(HistoryOf(keys[j]), now)
        && (forall t :: t in HistoryOf(r[j]) <==> t in HistoryOf(keys[j]) && now - t < DayMs)
  {
    var r := HitKeys(keys, now, stamp);
    forall j | 0 <= j < |keys|
      ensures r[j] == PruneKey(keys[j], now)
    {
      assert r[j] == KeyAfterHit(keys, now, stamp, None, j);
    }
  }

  /** A rejected hit is stable: retrying at the same instant is rejected
      again and leaves the pool as the first attempt left it. */
  lemma ExhaustedRetryIsStable(keys: seq<ApiKey>, now: int, stamp: string, stamp': string)
    requires FirstEligible(keys, now).None?
    ensures var r := HitKeys(keys, now, stamp);
      FirstEligible(r, now).None? && HitKeys(r, now, stamp') == r
  {
    var r := HitKeys(keys, now, stamp);
    forall j | 0 <= j < |keys|
      ensures r[j] == PruneKey(keys[j], now)
      ensures KeyLimited(r[j], now)
      ensures PruneKey(r[j], now) == r[j]
    {
      assert r[j] == KeyAfterHit(keys, now, stamp, None, j);
      PruneIdempotent(HistoryOf(keys[j]), now);
    }
    var r' := HitKeys(r, now, stamp');
    forall j | 0 <= j < |r|
      ensures r'[j] == r[j]
    {
      assert r'[j] == KeyAfterHit(r, now, stamp', None, j);
    }
  }

  /** A minute cap counts the hit just recorded: if that hit brings the
      entries of the minute ending at `later` up to the cap `n`, an attempt
      at `later` skips the key. */
  lemma HitCountsAgainstMinuteCap(keys: seq<ApiKey>, now: int, later: int, stamp: string, c: nat, n: int)
    requires FirstEligible(keys, now) == Some(c)
    requires keys[c].rateLimit.Some? && keys[c].rateLimit.value.requestsPerMinute == Some(n)
    requires |Within(HistoryOf(keys[c]), later, MinuteMs)| + 1 >= n
    requires now <= later < now + MinuteMs
    ensures KeyLimited(HitKeys(keys, now, stamp)[c], later)
  {
    HitUpdatesOnlyChosen(keys, now, stamp, c);
    var h := HistoryOf(keys[c]);
    var h' := Prune(h, now) + [now];
    WithinNested(h', later, DayMs, later, MinuteMs);
    RecordedEntryCount(Prune(h, now), now, later, MinuteMs);
    WithinNested(h, now, DayMs, later, MinuteMs);
  }

  /** A hit on a one-key pool: the key is recorded when it is not limited,
      and only pruned when it is. */
  lemma OneKeyHit(k: ApiKey, now: int, stamp: string)
    ensures FirstEligible([k], now) == if KeyLimited(k, now) then None else Some(0)
    ensures HitKeys([k], now, stamp) ==
      [if KeyLimited(k, now) then PruneKey(k, now) else RecordHit(PruneKey(k, now), now, stamp)]
  {
    var r := HitKeys([k], now, stamp);
    assert r[0] == KeyAfterHit([k], now, stamp, FirstEligible([k], now), 0);
  }

  /** One key with a cap of two requests per minute, hit at 0 ms and
      1000 ms (both recorded), at 2000 ms (rejected: two entries in the
      minute) and at 61000 ms (recorded: the entry of 0 ms has left the
      minute), ends with a usage of 3. */
  lemma MinuteCapScenario(s0: string, s1: string, s2: string, s3: string)
    ensures var k := ApiKey("k", 0, None, Some(RateLimit(Some(2), None, None)), None);
      var p1 := HitKeys([k], 0, s0);
      var p2 := HitKeys(p1, 1000, s1);
      var p3 := HitKeys(p2, 2000, s2);
      var p4 := HitKeys(p3, 61000, s3);
      && FirstEligible([k], 0) == Some(0)
      && FirstEligible(p1, 1000) == Some(0)
      && p2[0].usage == 2
      && FirstEligible(p2, 2000).None?
      && FirstEligible(p3, 61000) == Some(0)
      && p4[0].usage == 3
  {
    var k := ApiKey("k", 0, None, Some(RateLimit(Some(2), None, None)), None);
    OneKeyHit(k, 0, s0);
    assert HistoryOf(k) == [];
    assert Prune([], 0) + [0] == [0];
    assert Counts([], 0).minute == 0;
    assert !KeyLimited(k, 0);
    var p1 := HitKeys([k], 0, s0);
    assert p1 == [k.(usage := 1, lastUsed := Some(s0), usageHistory := Some([0]))];
    OneKeyHit(p1[0], 1000, s1);
    assert HistoryOf(p1[0]) == [0];
    assert Within([0], 1000, DayMs) + [1000] == [0, 1000];
    assert Within([0], 1000, MinuteMs) == [0];
    assert Counts([0], 1000).minute == 1;
    assert !KeyLimited(p1[0], 1000);
    var p2 := HitKeys(p1, 1000, s1);
    assert p2 == [k.(usage := 2, lastUsed := Some(s1), usageHistory := Some([0, 1000]))];
    OneKeyHit(p2[0], 2000, s2);
    WithinTwo(0, 1000, 2000, DayMs);
    WithinTwo(0, 1000, 2000, MinuteMs);
    var p3 := HitKeys(p2, 2000, s2);
    assert p3 == p2;
    OneKeyHit(p3[0], 61000, s3);
    WithinTwo(0, 1000, 61000, DayMs);
    WithinTwo(0, 1000, 61000, MinuteMs);
    WithinTwo(0, 1000, 61000, HourMs);
  }

  /** A first key with a cap of zero is always skipped: a second key without
      caps takes every hit, and the pool is never exhausted. */
  lemma ZeroCapKeyIsSkipped(keys: seq<ApiKey>, now: int)
    requires |keys| >= 2
    requires keys[0].rateLimit.Some? && keys[0].rateLimit.value.requestsPerMinute == Some(0)
    requires keys[1].rateLimit.None?
    ensures FirstEligible(keys, now) == Some(1)
  {
    NonPositiveCapAlwaysLimits(keys[0].rateLimit.value, Prune(HistoryOf(keys[0]), now), now);
    UnsetCapsNeverLimit(keys[1].rateLimit, Prune(HistoryOf(keys[1]), now), now);
    FirstEligibleUnique(keys, now, 1);
  }

  /** Whether a hit on the endpoint rotates keys: `api_key` auth with a
      present, non-empty pool. */
  predicate RotatesKeys(e: Endpoint) {
    && e.authConfig.Some?
    && e.authConfig.value.authType == ApiKeyAuth
    && e.authConfig.value.values.Some?
    && |e.authConfig.value.values.value| > 0
  }

  function KeysOf(e: Endpoint): seq<ApiKey>
    requires RotatesKeys(e)
  {
    e.authConfig.value.values.value
  }

  /** A hit on `e` is rejected: it rotates keys and all of them are limited. */
  predicate Exhausted(e: Endpoint, now: int) {
    RotatesKeys(e) && FirstEligible(KeysOf(e), now).None?
  }

  /** `e` with its key pool replaced by `keys`. */
  function WithPool(e: Endpoint, keys: seq<ApiKey>): Endpoint
    requires e.authConfig.Some?
  {
    e.(authConfig := Some(e.authConfig.value.(values := Some(keys))))
  }

  /** The endpoint as a hit leaves it, on success and on rejection alike:
      only the key pool of a rotating endpoint changes. */
  function HitEndpoint(e: Endpoint, now: int, stamp: string): (r: Endpoint)
    ensures r.(authConfig := e.authConfig) == e
    ensures !RotatesKeys(e) ==> r == e
    ensures RotatesKeys(r) == RotatesKeys(e)
    ensures RotatesKeys(e) ==> KeysOf(r) == HitKeys(KeysOf(e), now, stamp)
    ensures RotatesKeys(e) ==> r.authConfig.value.(values := e.authConfig.value.values) == e.authConfig.value
  {
    if RotatesKeys(e) then WithPool(e, HitKeys(KeysOf(e), now, stamp)) else e
  }
}
