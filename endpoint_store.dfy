/** The in-memory endpoint store: an ordered collection of endpoint
    configurations with add, update, delete, clone, whole-collection
    overwrite and the hit recorder that rotates and rate-limits API keys. */
module EndpointStore {
  import opened Types
  import opened UsageLedger
  import opened KeySelector

  /** The errors the store throws; all but the format error carry the id
      their message names. */
  datatype StoreError =
    | DuplicateId(id: string)
    | NotFound(id: string)
    | NotFoundForCloning(id: string)
    | AllKeysRateLimited(id: string)
    | InvalidFormat

  /** Whether some entry carries `id` (the `some` test of the source). */
  predicate HasId(eps: seq<Endpoint>, id: string) {
    exists j :: 0 <= j < |eps| && eps[j].id == id
  }

  ghost function Ids(eps: seq<Endpoint>): set<string> {
    set j | 0 <= j < |eps| :: eps[j].id
  }

  /** No two entries share an id. Add, delete, clone and the hit recorder
      keep it; update and overwrite do not check it. */
  ghost predicate UniqueIds(eps: seq<Endpoint>) {
    forall i, j :: 0 <= i < j < |eps| ==> eps[i].id != eps[j].id
  }

  /** The position of the first entry with `id` (`find`/`findIndex`). */
  function IndexOf(eps: seq<Endpoint>, id: string): (r: Option<nat>)
    ensures r.Some? ==> r.value < |eps| && eps[r.value].id == id
    ensures r.Some? ==> forall j :: 0 <= j < r.value ==> eps[j].id != id
    ensures r.None? <==> !HasId(eps, id)
  {
    if eps == [] then None
    else if eps[0].id == id then Some(0)
    else
      match IndexOf(eps[1..], id)
      case None =>
        assert forall j :: 1 <= j < |eps| ==> eps[j] == eps[1..][j - 1];
        None
      case Some(k) => Some(k + 1)
  }

  /** The entries whose id is not `id`, in order (the `filter` of delete). */
  function RemoveId(eps: seq<Endpoint>, id: string): (r: seq<Endpoint>)
    ensures |r| <= |eps|
  {
    if eps == [] then []
    else if eps[0].id != id then [eps[0]] + RemoveId(eps[1..], id)
    else RemoveId(eps[1..], id)
  }

  /** Delete keeps exactly the entries with another id. */
  lemma {:induction false} RemoveIdMembers(eps: seq<Endpoint>, id: string)
    ensures forall e :: e in RemoveId(eps, id) <==> e in eps && e.id != id
  {
    if eps != [] {
      RemoveIdMembers(eps[1..], id);
      assert eps == [eps[0]] + eps[1..];
    }
  }

  /** Delete shortens the collection exactly when some entry has the id;
      otherwise it leaves the collection as it was. */
  lemma {:induction false} RemoveIdShortens(eps: seq<Endpoint>, id: string)
    ensures HasId(eps, id) <==> |RemoveId(eps, id)| < |eps|
    ensures !HasId(eps, id) ==> RemoveId(eps, id) == eps
  {
    if eps != [] {
      var tail := eps[1..];
      RemoveIdShortens(tail, id);
      if HasId(eps, id) && eps[0].id != id {
        var j :| 0 <= j < |eps| && eps[j].id == id;
        assert tail[j - 1].id == id;
      }
      if HasId(tail, id) {
        var j :| 0 <= j < |tail| && tail[j].id == id;
        assert eps[j + 1].id == id;
      }
      assert eps == [eps[0]] + tail;
    }
  }

  lemma {:induction false} RemoveIdAppend(a: seq<Endpoint>, b: seq<Endpoint>, id: string)
    ensures RemoveId(a + b, id) == RemoveId(a, id) + RemoveId(b, id)
  {
    if a == [] {
      assert a + b == b;
    } else {
      assert (a + b)[1..] == a[1..] + b;
      RemoveIdAppend(a[1..], b, id);
    }
  }

  /** Deleting the id of an entry just added restores the store. */
  lemma DeleteUndoesAdd(eps: seq<Endpoint>, e: Endpoint)
    requires !HasId(eps, e.id)
    ensures RemoveId(eps + [e], e.id) == eps
  {
    RemoveIdAppend(eps, [e], e.id);
    RemoveIdShortens(eps, e.id);
    assert [e][1..] == [];
  }

  lemma HeadIdNotInTail(eps: seq<Endpoint>)
    requires UniqueIds(eps) && eps != []
    ensures forall e :: e in eps[1..] ==> e.id != eps[0].id
  {
    forall e | e in eps[1..] ensures e.id != eps[0].id {
      var k :| 0 <= k < |eps[1..]| && eps[1..][k] == e;
      assert eps[k + 1] == e;
    }
  }

  /** Deleting keeps the ids unique. */
  lemma {:induction false} RemoveIdKeepsUnique(eps: seq<Endpoint>, id: string)
    requires UniqueIds(eps)
    ensures UniqueIds(RemoveId(eps, id))
  {
    if eps != [] {
      var tail := eps[1..];
      assert UniqueIds(tail) by {
        forall i, j | 0 <= i < j < |tail| ensures tail[i].id != tail[j].id {
          assert tail[i] == eps[i + 1] && tail[j] == eps[j + 1];
        }
      }
      RemoveIdKeepsUnique(tail, id);
      RemoveIdMembers(tail, id);
      HeadIdNotInTail(eps);
      var rest := RemoveId(tail, id);
      if eps[0].id != id {
        var r := [eps[0]] + rest;
        forall i, j | 0 <= i < j < |r| ensures r[i].id != r[j].id {
          if i == 0 {
            assert r[j] == rest[j - 1];
            assert r[j] in tail;
          } else {
            assert r[i] == rest[i - 1] && r[j] == rest[j - 1];
          }
        }
      }
    }
  }

  /** Appending an entry whose id is new keeps the ids unique. */
  lemma AppendKeepsUnique(eps: seq<Endpoint>, e: Endpoint)
    requires UniqueIds(eps) && !HasId(eps, e.id)
    ensures UniqueIds(eps + [e])
  {
    var r := eps + [e];
    forall i, j | 0 <= i < j < |r| ensures r[i].id != r[j].id {
      if j == |eps| {
        assert r[i] == eps[i];
      } else {
        assert r[i] == eps[i] && r[j] == eps[j];
      }
    }
  }

  /** A partial update: fields present (`Some`) in the patch replace the
      stored ones, absent fields keep their stored values (`{...a, ...b}`). */
  datatype EndpointPatch = EndpointPatch(
    id: Option<string>,
    pathPrefixes: Option<seq<string>>,
    targetUrl: Option<string>,
    headersToAdd: Option<Headers>,
    authConfig: Option<AuthConfig>)

  /** The patch that carries every property of `e`. */
  function PatchOf(e: Endpoint): EndpointPatch {
    EndpointPatch(Some(e.id), Some(e.pathPrefixes), Some(e.targetUrl), e.headersToAdd, e.authConfig)
  }

  function Merge(e: Endpoint, p: EndpointPatch): (r: Endpoint)
    ensures p.id.None? ==> r.id == e.id
    ensures p.pathPrefixes.None? ==> r.pathPrefixes == e.pathPrefixes
    ensures p.targetUrl.None? ==> r.targetUrl == e.targetUrl
    ensures p.headersToAdd.None? ==> r.headersToAdd == e.headersToAdd
    ensures p.authConfig.None? ==> r.authConfig == e.authConfig
    ensures p.id.Some? ==> r.id == p.id.value
    ensures p.pathPrefixes.Some? ==> r.pathPrefixes == p.pathPrefixes.value
    ensures p.targetUrl.Some? ==> r.targetUrl == p.targetUrl.value
    ensures p.headersToAdd.Some? ==> r.headersToAdd == p.headersToAdd
    ensures p.authConfig.Some? ==> r.authConfig == p.authConfig
  {
    Endpoint(
      p.id.GetOr(e.id),
      p.pathPrefixes.GetOr(e.pathPrefixes),
      p.targetUrl.GetOr(e.targetUrl),
      if p.headersToAdd.Some? then p.headersToAdd else e.headersToAdd,
      if p.authConfig.Some? then p.authConfig else e.authConfig)
  }

  /** Merging a whole endpoint replaces the stored one, except that optional
      properties the new endpoint lacks survive from the stored one. */
  lemma MergeWholeEndpoint(e: Endpoint, x: Endpoint)
    ensures Merge(e, PatchOf(x)) == x.(
      headersToAdd := if x.headersToAdd.Some? then x.headersToAdd else e.headersToAdd,
      authConfig := if x.authConfig.Some? then x.authConfig else e.authConfig)
  {
  }

  /** Decimal digits of `n`, as JavaScript prints a non-negative integer. */
  function Decimal(n: nat): (s: string)
    ensures |s| >= 1
  {
    if n < 10 then [(48 + n) as char] else Decimal(n / 10) + [(48 + n % 10) as char]
  }

  lemma {:induction false} DecimalInjective(a: nat, b: nat)
    requires Decimal(a) == Decimal(b)
    ensures a == b
  {
    var s, t := Decimal(a), Decimal(b);
    if a >= 10 && b >= 10 {
      assert s[..|s| - 1] == Decimal(a / 10);
      assert t[..|t| - 1] == Decimal(b / 10);
      DecimalInjective(a / 10, b / 10);
      assert s[|s| - 1] == t[|t| - 1];
    } else if a < 10 && b < 10 {
      assert s[0] == t[0];
    }
  }

  /** The `n`-th candidate id of a clone of `id`: `<id>-copy`, then
      `<id>-copy-2`, `<id>-copy-3`, ... */
  function CopyId(id: string, n: nat): string
    requires n >= 1
  {
    if n == 1 then id + "-copy" else id + "-copy-" + Decimal(n)
  }

  /** Distinct candidate numbers give distinct ids. */
  lemma CopyIdInjective(id: string, a: nat, b: nat)
    requires a >= 1 && b >= 1 && CopyId(id, a) == CopyId(id, b)
    ensures a == b
  {
    var p := id + "-copy-";
    if a >= 2 && b >= 2 {
      assert CopyId(id, a)[|p|..] == Decimal(a);
      assert CopyId(id, b)[|p|..] == Decimal(b);
      DecimalInjective(a, b);
    }
  }

  /** The first `n - 1` candidate copy ids of `id`. */
  ghost function Candidates(id: string, n: nat): set<string> {
    set k: nat | 1 <= k < n :: CopyId(id, k)
  }

  /** While the clone loop finds its candidate `n` taken, the ids it has not
      yet tried shrink: termination of the loop. */
  lemma NextCandidate(eps: seq<Endpoint>, id: string, n: nat)
    requires n >= 1 && HasId(eps, CopyId(id, n))
    ensures Ids(eps) - Candidates(id, n + 1) < Ids(eps) - Candidates(id, n)
  {
    var x := CopyId(id, n);
    var j :| 0 <= j < |eps| && eps[j].id == x;
    assert x in Ids(eps);
    if x in Candidates(id, n) {
      var k: nat :| 1 <= k < n && x == CopyId(id, k);
      CopyIdInjective(id, k, n);
    }
    assert x in Candidates(id, n + 1);
  }

  /** `newId` is the first candidate copy id of `id` that `eps` does not use. */
  ghost predicate FirstFreeCopyId(eps: seq<Endpoint>, id: string, newId: string) {
    exists n: nat :: n >= 1 && newId == CopyId(id, n) && !HasId(eps, newId)
      && forall k: nat :: 1 <= k < n ==> HasId(eps, CopyId(id, k))
  }

  /** There is only one first free copy id. */
  lemma FirstFreeCopyIdUnique(eps: seq<Endpoint>, id: string, x: string, y: string)
    requires FirstFreeCopyId(eps, id, x) && FirstFreeCopyId(eps, id, y)
    ensures x == y
  {
    var n: nat :| n >= 1 && x == CopyId(id, n) && !HasId(eps, x)
      && forall k: nat :: 1 <= k < n ==> HasId(eps, CopyId(id, k));
    var m: nat :| m >= 1 && y == CopyId(id, m) && !HasId(eps, y)
      && forall k: nat :: 1 <= k < m ==> HasId(eps, CopyId(id, k));
  }

  class Store {
    var endpoints: seq<Endpoint>

    constructor (initial: seq<Endpoint>)
      ensures endpoints == initial
    {
      endpoints := initial;
    }

    /** A snapshot of the whole collection. */
    method GetEndpoints() returns (r: seq<Endpoint>)
      ensures r == endpoints
    {
      r := endpoints;
    }

    method AddEndpoint(e: Endpoint) returns (r: Result<Endpoint, StoreError>)
      modifies this
      ensures HasId(old(endpoints), e.id) ==> r == Err(DuplicateId(e.id)) && endpoints == old(endpoints)
      ensures !HasId(old(endpoints), e.id) ==> r == Ok(e) && endpoints == old(endpoints) + [e]
      ensures UniqueIds(old(endpoints)) ==> UniqueIds(endpoints)
    {
      if HasId(endpoints, e.id) {
        return Err(DuplicateId(e.id));
      }
      ghost var before := endpoints;
      endpoints := endpoints + [e];
      if UniqueIds(before) {
        AppendKeepsUnique(before, e);
      }
      r := Ok(e);
    }

    method UpdateEndpoint(id: string, patch: EndpointPatch) returns (r: Result<Endpoint, StoreError>)
      modifies this
      ensures IndexOf(old(endpoints), id).None? ==> r == Err(NotFound(id)) && endpoints == old(endpoints)
      ensures IndexOf(old(endpoints), id).Some? ==>
        var i := IndexOf(old(endpoints), id).value;
        && endpoints == old(endpoints)[i := Merge(old(endpoints)[i], patch)]
        && r == Ok(endpoints[i])
    {
      var index := IndexOf(endpoints, id);
      if index.None? {
        return Err(NotFound(id));
      }
      var i := index.value;
      endpoints := endpoints[i := Merge(endpoints[i], patch)];
      r := Ok(endpoints[i]);
    }

    method DeleteEndpoint(id: string) returns (r: Result<string, StoreError>)
      modifies this
      ensures endpoints == RemoveId(old(endpoints), id)
      ensures r.Err? <==> !HasId(old(endpoints), id)
      ensures r.Err? ==> r.error == NotFound(id) && endpoints == old(endpoints)
      ensures r.Ok? ==> r.value == "Endpoint '" + id + "' deleted successfully"
      ensures UniqueIds(old(endpoints)) ==> UniqueIds(endpoints)
    {
      ghost var before := endpoints;
      if UniqueIds(before) {
        RemoveIdKeepsUnique(before, id);
      }
      RemoveIdShortens(before, id);
      var initialLength := |endpoints|;
      endpoints := RemoveId(endpoints, id);
      if |endpoints| == initialLength {
        return Err(NotFound(id));
      }
      r := Ok("Endpoint '" + id + "' deleted successfully");
    }

    method CloneEndpoint(id: string) returns (r: Result<Endpoint, StoreError>)
      modifies this
      ensures IndexOf(old(endpoints), id).None? ==>
        r == Err(NotFoundForCloning(id)) && endpoints == old(endpoints)
      ensures IndexOf(old(endpoints), id).Some? ==>
        && r.Ok?
        && FirstFreeCopyId(old(endpoints), id, r.value.id)
        && r.value == old(endpoints)[IndexOf(old(endpoints), id).value].(id := r.value.id)
        && endpoints == old(endpoints) + [r.value]
      ensures UniqueIds(old(endpoints)) ==> UniqueIds(endpoints)
    {
      var found := IndexOf(endpoints, id);
      if found.None? {
        return Err(NotFoundForCloning(id));
      }
      var original := endpoints[found.value];
      var newId := original.id + "-copy";
      var counter: nat := 2;
      while HasId(endpoints, newId)
        invariant endpoints == old(endpoints)
        invariant counter >= 2
        invariant newId == CopyId(id, counter - 1)
        invariant forall k: nat :: 1 <= k < counter - 1 ==> HasId(endpoints, CopyId(id, k))
        decreases Ids(endpoints) - Candidates(id, counter - 1)
      {
        NextCandidate(endpoints, id, counter - 1);
        newId := original.id + "-copy-" + Decimal(counter);
        counter := counter + 1;
      }
      assert FirstFreeCopyId(endpoints, id, newId) by {
        assert newId == CopyId(id, counter - 1);
      }
      var cloned := original.(id := newId);
      ghost var before := endpoints;
      endpoints := endpoints + [cloned];
      if UniqueIds(before) {
        AppendKeepsUnique(before, cloned);
      }
      r := Ok(cloned);
    }

    /** Replaces the whole collection. The only check is that the payload
        is an array (`None` models any other JSON value). */
    method OverwriteEndpoints(payload: Option<seq<Endpoint>>) returns (r: Result<(), StoreError>)
      modifies this
      ensures payload.None? ==> r == Err(InvalidFormat) && endpoints == old(endpoints)
      ensures payload.Some? ==> r == Ok(()) && endpoints == payload.value
    {
      if payload.None? {
        return Err(InvalidFormat);
      }
      endpoints := payload.value;
      r := Ok(());
    }

    /** Records one hit on endpoint `id` at instant `now`; `stamp` is the
        ISO text of the same clock reading, stored as `lastUsed`. */
    method LogEndpointHit(id: string, now: int, stamp: string) returns (r: Result<Endpoint, StoreError>)
      modifies this
      ensures IndexOf(old(endpoints), id).None? ==> r == Err(NotFound(id)) && endpoints == old(endpoints)
      ensures IndexOf(old(endpoints), id).Some? ==>
        var i := IndexOf(old(endpoints), id).value;
        var e := old(endpoints)[i];
        && endpoints == old(endpoints)[i := HitEndpoint(e, now, stamp)]
        && (Exhausted(e, now) ==> r == Err(AllKeysRateLimited(id)))
        && (!Exhausted(e, now) ==> r == Ok(HitEndpoint(e, now, stamp)))
      ensures UniqueIds(old(endpoints)) ==> UniqueIds(endpoints)
    {
      var found := IndexOf(endpoints, id);
      if found.None? {
        return Err(NotFound(id));
      }
      var i := found.value;
      var endpoint := endpoints[i];
      if !RotatesKeys(endpoint) {
        return Ok(endpoint);
      }
      var pool := KeysOf(endpoint);
      var keys := pool;
      var chosen: Option<nat> := None;
      var k := 0;
      while k < |keys|
        invariant endpoints == old(endpoints)
        invariant 0 <= k <= |keys| == |pool|
        invariant chosen.None?
        invariant forall j :: 0 <= j < k ==> keys[j] == PruneKey(pool[j], now) && KeyLimited(pool[j], now)
        invariant forall j :: k <= j < |keys| ==> keys[j] == pool[j]
      {
        var key := keys[k];
        if key.usageHistory.None? {
          key := key.(usageHistory := Some([]));
        }
        key := key.(usageHistory := Some(Prune(key.usageHistory.value, now)));
        var isRateLimited := Limited(key.rateLimit, key.usageHistory.value, now);
        keys := keys[k := key];
        if !isRateLimited {
          chosen := Some(k);
          break;
        }
        k := k + 1;
      }
      if chosen.None? {
        ScanExhausted(pool, keys, now, stamp);
        endpoints := endpoints[i := WithPool(endpoint, keys)];
        return Err(AllKeysRateLimited(id));
      }
      var c := chosen.value;
      ScanChosen(pool, keys, now, stamp, c);
      keys := keys[c := RecordHit(keys[c], now, stamp)];
      var updated := WithPool(endpoint, keys);
      endpoints := endpoints[i := updated];
      r := Ok(updated);
    }
  }
}
