# API proxy manager: key rotation, endpoint store and forms, in Dafny

The proxy manager keeps a collection of proxy endpoints. Each endpoint has an id, path prefixes, a target URL, extra headers and an optional authentication configuration. An `api_key` configuration carries an ordered pool of API keys. Each key holds a usage counter, the time of its last use, optional per-minute, per-hour and per-day caps, and a history of hit timestamps.

This project models four parts of it and proves properties of each:

- **Usage ledger and rate limit** (`usage_ledger.dfy`, module `UsageLedger`). A key's history is pruned to the last 24 hours. Entries are counted in a 60 s window, a 3600 s window and the whole pruned history. A key is limited when some configured cap is at most its count.
- **Key selection** (`key_selector.dfy`, module `KeySelector`). These functions specify one hit on a pool:
  - The keys are scanned in their stored order. Each scanned key is pruned.
  - The first key that is not limited is chosen, and its usage, last use and history are updated.
  - The keys after it are not touched.
  - When every key is limited, the pruned histories stay and the hit is rejected.
- **Endpoint store** (`endpoint_store.dfy`, module `EndpointStore`). The class `Store` holds the collection as a `seq<Endpoint>` field. Its methods are:
  - add (rejects a duplicate id);
  - update (shallow merge into the first entry with the id);
  - delete (removes every entry with the id);
  - clone (`<id>-copy`, `<id>-copy-2`, ... found by a `while` loop);
  - overwrite;
  - the hit recorder `LogEndpointHit`. Its key loop with `break` is proved equal to `KeySelector.HitKeys`.
- **Endpoint form** (`endpoint_form.dfy`, module `EndpointForm`) and **test-URL builder** (`test_url.dfy`, module `TestUrl`):
  - the validation rules of the edit form;
  - the editors of the key pool;
  - the construction of the URL the test dialog opens.

`types.dfy` (module `Types`) holds the data shapes. Optional JSON properties are `Option`s, thrown errors are `Err` results, and JavaScript numbers are unbounded integers. Three inputs become parameters:

- the clock reading `now`;
- its ISO text, stored as `last_used`;
- the page origin.

Some behaviour of the code is easy to miss; the model keeps it:

- **Failed hit.** A rejected hit still changes the pool: the histories of all keys have already been pruned (or created) in place, and they stay so (`KeySelector.ExhaustedHitOnlyPrunes`).
- **Empty pool.** A missing or empty pool is treated like no authentication: the hit succeeds and nothing changes.
- **Overwrite.** Overwrite only checks that the payload is an array; the elements' `id` and `target_url` are not checked.
- **Form path field.** The form validates a single `path_prefix` string, while the endpoint type declares `path_prefixes`. The form model has one `pathPrefix` string.
- **`last_used`.** It is the ISO text of the clock, not a number.

## Model

| member | source | states |
|---|---|---|
| UsageLedger.Within | services/apiService.ts:126-129 | the filtered history holds exactly the entries younger than the window, each as many times as in the history, and is never longer than the history |
| UsageLedger.Prune | services/apiService.ts:126 | definition of the 24-hour pruning; its properties are stated by `Within`, `PruneIdempotent` and `WithinNested` |
| UsageLedger.WithinAppend | services/apiService.ts:126-128 | filtering a concatenation is concatenating the filtered parts, so the kept entries stay in their order |
| UsageLedger.WithinNested | services/apiService.ts:126-130 | counting a window on the 24-hour-pruned history equals counting it on the raw history, even at a later instant whose window starts no earlier |
| UsageLedger.PruneIdempotent | services/apiService.ts:126 | pruning twice is pruning once |
| UsageLedger.WithinMonotone | services/apiService.ts:128-130 | a narrower window never counts more entries than a wider one |
| UsageLedger.RecordedEntryCount | services/apiService.ts:147 | appending a hit adds one to exactly the windows that still contain it |
| UsageLedger.WithinTwo | services/apiService.ts:126-128 | the window filter on a two-entry history keeps each entry exactly when it is inside the window |
| UsageLedger.Counts | services/apiService.ts:128-130 | minute count <= hour count <= day count, and the day count is the pruned history's length |
| UsageLedger.Limited | services/apiService.ts:128-136 | definition of the rate-limit decision on the pruned history; its properties are stated by `LimitedAfterPruneIffRaw`, `UnsetCapsNeverLimit` and `NonPositiveCapAlwaysLimits` |
| UsageLedger.LimitedAfterPruneIffRaw | services/apiService.ts:126-136 | a key is limited on its pruned history iff some configured cap is at most the raw count of its window |
| UsageLedger.UnsetCapsNeverLimit | services/apiService.ts:132-136 | with no caps block, or no cap set, a key is never limited, whatever its history |
| UsageLedger.NonPositiveCapAlwaysLimits | services/apiService.ts:132-136 | a cap of 0 or less limits the key even with an empty history |
| KeySelector.FirstEligible | services/apiService.ts:121-141 | the chosen index is a key that is not limited and every earlier key is limited; none is chosen only when all are limited |
| KeySelector.FirstEligibleUnique | services/apiService.ts:121-141 | the first-fit choice is the unique index that is eligible with all predecessors limited |
| KeySelector.PruneKey | services/apiService.ts:122-126 | definition of the in-place pruning of one key, its history created if absent; its properties are stated by `HitUpdatesOnlyChosen` and `ExhaustedHitOnlyPrunes` |
| KeySelector.RecordHit | services/apiService.ts:145-147 | definition of the usage update of the chosen key; its properties are stated by `HitUpdatesOnlyChosen` and `HitCountsAgainstMinuteCap` |
| KeySelector.KeyAfterHit | services/apiService.ts:121-147 | definition of each key's state after the scan: recorded if chosen, pruned if scanned, untouched after the `break`; its properties are stated by `HitKeys`, `HitUpdatesOnlyChosen` and `ExhaustedHitOnlyPrunes` |
| KeySelector.ScanExhausted | services/apiService.ts:121-142 | a scan that pruned every key and found all limited has produced the rejected hit's pool |
| KeySelector.ScanChosen | services/apiService.ts:121-147 | a scan that stopped at the first eligible key produces, once that key is recorded, the successful hit's pool |
| KeySelector.HitKeys | services/apiService.ts:121-147 | a hit keeps the pool's length, every key's secret and every key's caps |
| KeySelector.HitUpdatesOnlyChosen | services/apiService.ts:138-147 | on success the chosen key's usage grows by exactly 1, its last use is the stamp and the hit time is appended to its pruned history; no other key's usage or last use changes; keys before it are pruned; keys after it are untouched |
| KeySelector.ExhaustedHitOnlyPrunes | services/apiService.ts:121-153 | when all keys are limited no usage or last use changes and each history, created if absent, becomes its 24-hour pruning: exactly its entries 24 hours old or older are lost |
| KeySelector.ExhaustedRetryIsStable | services/apiService.ts:121-153 | after a rejected hit, a retry at the same instant is rejected again and changes nothing more |
| KeySelector.HitCountsAgainstMinuteCap | services/apiService.ts:128-147 | a recorded hit counts against a per-minute cap: a key whose minute count reaches its cap N with that hit is skipped by an attempt within the same minute, whatever its hour and day caps |
| KeySelector.OneKeyHit | services/apiService.ts:121-147 | a one-key pool is recorded when the key is eligible and only pruned when it is limited |
| KeySelector.MinuteCapScenario | services/apiService.ts:106-159 | with a cap of 2 per minute, hits at 0 and 1000 ms are recorded (usage 2), a hit at 2000 ms is rejected, and a hit at 61000 ms is recorded (usage 3) |
| KeySelector.ZeroCapKeyIsSkipped | services/apiService.ts:121-141 | a first key with a per-minute cap of 0 is always skipped and a second key without caps is chosen |
| KeySelector.HitEndpoint | services/apiService.ts:114-157 | a hit changes only the key pool of an `api_key` endpoint with a non-empty pool (auth type, key name and placement kept), the pool becoming the hit's pool, and leaves every other endpoint as it is |
| EndpointStore.IndexOf | services/apiService.ts:62-63 | the index found holds the id and no earlier entry does; there is none exactly when no entry has the id |
| EndpointStore.RemoveId | services/apiService.ts:74 | the filtered collection is never longer than the original |
| EndpointStore.RemoveIdMembers | services/apiService.ts:74 | delete keeps exactly the entries whose id differs |
| EndpointStore.RemoveIdShortens | services/apiService.ts:73-77 | the collection gets shorter iff some entry has the id; otherwise it is unchanged |
| EndpointStore.RemoveIdAppend | services/apiService.ts:74 | deleting from a concatenation deletes from each part |
| EndpointStore.DeleteUndoesAdd | services/apiService.ts:52-77 | deleting the id of an entry just added restores the collection |
| EndpointStore.RemoveIdKeepsUnique | services/apiService.ts:71-80 | delete keeps the ids unique |
| EndpointStore.AppendKeepsUnique | services/apiService.ts:52-55 | appending an entry with a new id keeps the ids unique |
| EndpointStore.Merge | services/apiService.ts:66 | each property present in the update replaces the stored one, and each property absent from it keeps its stored value |
| EndpointStore.MergeWholeEndpoint | services/apiService.ts:60-66 | merging a whole endpoint replaces the stored one, except optional properties the new one lacks |
| EndpointStore.Decimal | services/apiService.ts:92 | the decimal text of a number has at least one digit |
| EndpointStore.DecimalInjective | services/apiService.ts:92 | different numbers print differently |
| EndpointStore.CopyId | services/apiService.ts:89-92 | definition of the candidate ids `<id>-copy` and `<id>-copy-N`; its properties are stated by `CopyIdInjective`, `NextCandidate` and `FirstFreeCopyIdUnique` |
| EndpointStore.CopyIdInjective | services/apiService.ts:89-92 | different candidate numbers give different copy ids |
| EndpointStore.NextCandidate | services/apiService.ts:89-94 | each taken candidate shrinks the set of ids the clone loop has not yet tried, so the loop terminates |
| EndpointStore.FirstFreeCopyIdUnique | services/apiService.ts:89-94 | the first free copy id is unique |
| EndpointStore.Store.constructor | services/apiService.ts:3 | the store starts with the given collection |
| EndpointStore.Store.GetEndpoints | services/apiService.ts:44-48 | returns the whole collection, unchanged |
| EndpointStore.Store.AddEndpoint | services/apiService.ts:50-58 | a duplicate id is rejected and changes nothing; otherwise the endpoint is appended at the end; unique ids stay unique |
| EndpointStore.Store.UpdateEndpoint | services/apiService.ts:60-69 | an unknown id is rejected and changes nothing; otherwise only the first entry with the id changes, to the merge, which is returned |
| EndpointStore.Store.DeleteEndpoint | services/apiService.ts:71-80 | removes every entry with the id; fails iff none had it, then changes nothing; success message text; unique ids stay unique |
| EndpointStore.Store.CloneEndpoint | services/apiService.ts:82-104 | an unknown id is rejected and changes nothing; otherwise it appends a copy of the original that differs only in its id, the first free `<id>-copy`, `<id>-copy-N` (N >= 2); unique ids stay unique |
| EndpointStore.Store.OverwriteEndpoints | services/apiService.ts:161-168 | a payload that is not an array is rejected and changes nothing; any array replaces the collection |
| EndpointStore.Store.LogEndpointHit | services/apiService.ts:106-159 | an unknown id is rejected and changes nothing; otherwise the entry becomes the hit's result (pruned keys kept even on rejection); rejection iff all keys are limited, else the updated endpoint is returned; unique ids stay unique |
| EndpointForm.TrimStart | components/EndpointFormModal.tsx:64 | the result is a suffix, all dropped characters are white space and it does not start with white space |
| EndpointForm.TrimEnd | components/EndpointFormModal.tsx:64 | the result is a prefix, all dropped characters are white space and it does not end with white space |
| EndpointForm.Trim | components/EndpointFormModal.tsx:64 | definition of `trim` as `TrimStart` then `TrimEnd`; its properties are stated by `TrimStart`, `TrimEnd` and `TrimEmptyIffBlank` |
| EndpointForm.TrimEmptyIffBlank | components/EndpointFormModal.tsx:64 | `trim` leaves nothing iff every character is white space |
| EndpointForm.NoErrorsIffSubmittable | components/EndpointFormModal.tsx:69-70 | an error map that flags each field exactly when its check fails is empty iff the form is submittable |
| EndpointForm.CheckApiKeyAuth | components/EndpointFormModal.tsx:60-67 | the name is flagged iff missing or empty; the pool is flagged iff absent, empty or holding a key blank after `trim`; other fields unchanged |
| EndpointForm.Validate | components/EndpointFormModal.tsx:48-71 | each field is flagged with its own message exactly when its check fails (key checks only for `api_key`); valid iff no errors iff submittable |
| EndpointForm.AddApiKey | components/EndpointFormModal.tsx:119-127 | the pool grows by exactly one blank key at the end, the earlier keys unchanged, the type becomes `api_key`, and the key name and placement are kept |
| EndpointForm.DropIndex | components/EndpointFormModal.tsx:131 | removes exactly the entry at the index, order kept; an index outside the pool removes nothing |
| EndpointForm.DropIndexUndoesAppend | components/EndpointFormModal.tsx:119-131 | removing the key just added restores the pool |
| EndpointForm.RemoveApiKey | components/EndpointFormModal.tsx:129-140 | the pool is the old one without the entry at the index, or one blank key if that would be empty; never empty; key name and placement kept |
| EndpointForm.SetApiKeyValue | components/EndpointFormModal.tsx:108-117 | only the secret of the key at the index changes; its other fields, all other keys, the name and the placement are kept |
| EndpointForm.ChangeAuthType | components/EndpointFormModal.tsx:84-94 | `api_key` gets an empty name and exactly one blank key; any other type gets no name, keys or placement |
| EndpointForm.FreshApiKeyConfigBlocksSave | components/EndpointFormModal.tsx:87-93 | a form just switched to `api_key` fails validation |
| EndpointForm.OtherAuthTypeNeedsNoKeys | components/EndpointFormModal.tsx:60-67 | after switching to another type only the id, prefix, URL and headers decide validity |
| EndpointForm.BlankKeyBlocksSave | components/EndpointFormModal.tsx:64-66 | an `api_key` form with a key of only white space fails validation |
| TestUrl.InitialPrefix | components/TestEndpointModal.tsx:12 | the first prefix, or empty when there is none |
| TestUrl.DropTrailingSlash | components/TestEndpointModal.tsx:17 | at most one trailing `/` is dropped, exactly when there is one |
| TestUrl.DropLeadingSlash | components/TestEndpointModal.tsx:18 | at most one leading `/` is dropped, exactly when there is one |
| TestUrl.Split | components/TestEndpointModal.tsx:21 | at least one piece, none holding the separator; one piece iff the separator is absent |
| TestUrl.JoinSplit | components/TestEndpointModal.tsx:21 | joining the pieces with the separator restores the text |
| TestUrl.SplitJoin | components/TestEndpointModal.tsx:21 | pieces free of the separator come back unchanged from a join and a split |
| TestUrl.SplitPiece | components/TestEndpointModal.tsx:21 | a text without the separator is a single piece |
| TestUrl.SplitPieceThenSep | components/TestEndpointModal.tsx:21 | a piece followed by the separator is split off as the first piece |
| TestUrl.FinalUrl | components/TestEndpointModal.tsx:16-28 | an empty cleaned sub-path gives the cleaned base URL, with or without a query |
| TestUrl.JoinsWithOneSlash | components/TestEndpointModal.tsx:14-27 | without a query, base and sub-path are joined by exactly one `/`, whether or not the prefix ends or the sub-path starts with one |
| TestUrl.SlashesNormalised | components/TestEndpointModal.tsx:16-18 | one trailing `/` on the prefix and one leading `/` on the sub-path do not change the URL |
| TestUrl.KeepsQuery | components/TestEndpointModal.tsx:20-23 | a query in the prefix stays at the end, after the sub-path, whether or not the prefix ends or the sub-path starts with `/` |
| TestUrl.DropsAfterSecondQuestionMark | components/TestEndpointModal.tsx:20-23 | text after a second `?` is lost; only the text between the first and second `?` is kept, whether or not the prefix ends or the sub-path starts with `/` |

## Left out

- Timing and logging: `simulateDelay`, `async`/`Promise` and the console output are left out; the operations are synchronous.
- Clock: `Date.now()` and `new Date().toISOString()` are the parameters `now` and `stamp` of `LogEndpointHit`; their agreement is not modelled.
- Copies: the `JSON.parse(JSON.stringify(...))` deep copies are left out, because Dafny datatypes are values.
- The seed collection is left out, because its histories depend on the load-time clock. The store starts from a given collection.
- Headers JSON: `JSON.parse` of the headers text is a foreign parser. Validation takes whether it parses as the boolean `headersParse`.
- The form's other code is left out: the parsed headers merged on submit, the loading of an endpoint into the form and the name/placement inputs. So are React state plumbing, rendering, `window.open` and the origin lookup; the origin is a parameter.
- Concurrency: none is modelled. The code is single-threaded and has no locking.
- `basic_auth` and `bearer_token`: declared but not implemented. Every operation treats them like `none`.
- Numbers: JavaScript numbers are unbounded integers. Fractional caps or timestamps are not modelled.
- EndpointStore.Merge: a property present in an update with the value `undefined` is treated as absent. The JavaScript spread would copy it.
- EndpointStore.Store.OverwriteEndpoints: any payload that is not an array is the single case `None`. Which JSON value it was is not modelled.
- EndpointStore.Store.UpdateEndpoint: the update is a patch with all properties optional. The code's signature takes a whole endpoint, but the spread works the same way.
- EndpointForm.SetApiKeyValue: requires a pool and an index inside it, because the form calls it only for the keys it shows. With an out-of-range index the JavaScript would write past the end of the array.
- EndpointStore.UniqueIds: unique ids are shown to be kept by add, delete, clone and the hit recorder. Update and overwrite can break them, because the code checks no ids there.
- Error messages: a thrown error is its `StoreError` case and the id; the message texts are not modelled. The success text of delete is.
